/** The block transformation of MD5 as the code unrolls it, against the table-driven schedule. */
module Md5Transform {
  import opened Words
  import opened Bits
  import opened Md5Spec
  import opened Md5Algebra

  // The step macros, in their three updates of `a`.

  lemma AddsInOrder(a: Word, f: Word, x: Word, ac: Word)
    ensures Add(a, Add(Add(f, x), ac)) == Add(a, f + x + ac)
  {
    AddToSum(f + x, ac);
    AddToSum(f + x + ac, a);
    assert Add(f, x) == (f + x) % WORD_RANGE;
    assert Add(f + x, ac) == (f + x + ac) % WORD_RANGE;
    hide Add;
  }

  method FF(a0: Word, b: Word, c: Word, d: Word, x: Word, s: nat, ac: Word) returns (a: Word)
    requires 0 < s < 32
    ensures a == Mix(0, a0, b, c, d, x, s, ac)
  {
    hide F, G, H, I, Add, RotateLeft, RotateByShifts;
    AddsInOrder(a0, F(b, c, d), x, ac);
    a := Add(a0, Add(Add(F(b, c, d), x), ac));
    RotateByShiftsRotates(a, s);
    a := RotateByShifts(a, s);
    a := Add(a, b);
  }

  method GG(a0: Word, b: Word, c: Word, d: Word, x: Word, s: nat, ac: Word) returns (a: Word)
    requires 0 < s < 32
    ensures a == Mix(1, a0, b, c, d, x, s, ac)
  {
    hide F, G, H, I, Add, RotateLeft, RotateByShifts;
    AddsInOrder(a0, G(b, c, d), x, ac);
    a := Add(a0, Add(Add(G(b, c, d), x), ac));
    RotateByShiftsRotates(a, s);
    a := RotateByShifts(a, s);
    a := Add(a, b);
  }

  method HH(a0: Word, b: Word, c: Word, d: Word, x: Word, s: nat, ac: Word) returns (a: Word)
    requires 0 < s < 32
    ensures a == Mix(2, a0, b, c, d, x, s, ac)
  {
    hide F, G, H, I, Add, RotateLeft, RotateByShifts;
    AddsInOrder(a0, H(b, c, d), x, ac);
    a := Add(a0, Add(Add(H(b, c, d), x), ac));
    RotateByShiftsRotates(a, s);
    a := RotateByShifts(a, s);
    a := Add(a, b);
  }

  method II(a0: Word, b: Word, c: Word, d: Word, x: Word, s: nat, ac: Word) returns (a: Word)
    requires 0 < s < 32
    ensures a == Mix(3, a0, b, c, d, x, s, ac)
  {
    hide F, G, H, I, Add, RotateLeft, RotateByShifts;
    AddsInOrder(a0, I(b, c, d), x, ac);
    a := Add(a0, Add(Add(I(b, c, d), x), ac));
    RotateByShiftsRotates(a, s);
    a := RotateByShifts(a, s);
    a := Add(a, b);
  }

  // Sixteen steps each.  After a step the registers, read in their new roles, are the next entry of
  // the trace.

  method Round1(a0: Word, b0: Word, c0: Word, d0: Word, x: Block, ghost trace: seq<Registers>)
    returns (a: Word, b: Word, c: Word, d: Word)
    requires IsTrace(trace, x) && trace[0] == Registers(a0, b0, c0, d0)
    ensures trace[16] == Registers(a, b, c, d)
  {
    hide Mix;
    a, b, c, d := a0, b0, c0, d0;
    a := FF(a, b, c, d, x[0], 7, 0xd76aa478);
    assert Registers(d, a, b, c) == Step(0, trace[0], x);
    d := FF(d, a, b, c, x[1], 12, 0xe8c7b756);
    assert Registers(c, d, a, b) == Step(1, trace[1], x);
    c := FF(c, d, a, b, x[2], 17, 0x242070db);
    assert Registers(b, c, d, a) == Step(2, trace[2], x);
    b := FF(b, c, d, a, x[3], 22, 0xc1bdceee);
    assert Registers(a, b, c, d) == Step(3, trace[3], x);
    a := FF(a, b, c, d, x[4], 7, 0xf57c0faf);
    assert Registers(d, a, b, c) == Step(4, trace[4], x);
    d := FF(d, a, b, c, x[5], 12, 0x4787c62a);
    assert Registers(c, d, a, b) == Step(5, trace[5], x);
    c := FF(c, d, a, b, x[6], 17, 0xa8304613);
    assert Registers(b, c, d, a) == Step(6, trace[6], x);
    b := FF(b, c, d, a, x[7], 22, 0xfd469501);
    assert Registers(a, b, c, d) == Step(7, trace[7], x);
    a := FF(a, b, c, d, x[8], 7, 0x698098d8);
    assert Registers(d, a, b, c) == Step(8, trace[8], x);
    d := FF(d, a, b, c, x[9], 12, 0x8b44f7af);
    assert Registers(c, d, a, b) == Step(9, trace[9], x);
    c := FF(c, d, a, b, x[10], 17, 0xffff5bb1);
    assert Registers(b, c, d, a) == Step(10, trace[10], x);
    b := FF(b, c, d, a, x[11], 22, 0x895cd7be);
    assert Registers(a, b, c, d) == Step(11, trace[11], x);
    a := FF(a, b, c, d, x[12], 7, 0x6b901122);
    assert Registers(d, a, b, c) == Step(12, trace[12], x);
    d := FF(d, a, b, c, x[13], 12, 0xfd987193);
    assert Registers(c, d, a, b) == Step(13, trace[13], x);
    c := FF(c, d, a, b, x[14], 17, 0xa679438e);
    assert Registers(b, c, d, a) == Step(14, trace[14], x);
    b := FF(b, c, d, a, x[15], 22, 0x49b40821);
    assert Registers(a, b, c, d) == Step(15, trace[15], x);
  }

  method Round2(a0: Word, b0: Word, c0: Word, d0: Word, x: Block, ghost trace: seq<Registers>)
    returns (a: Word, b: Word, c: Word, d: Word)
    requires IsTrace(trace, x) && trace[16] == Registers(a0, b0, c0, d0)
    ensures trace[32] == Registers(a, b, c, d)
  {
    hide Mix;
    a, b, c, d := a0, b0, c0, d0;
    a := GG(a, b, c, d, x[1], 5, 0xf61e2562);
    assert Registers(d, a, b, c) == Step(16, trace[16], x);
    d := GG(d, a, b, c, x[6], 9, 0xc040b340);
    assert Registers(c, d, a, b) == Step(17, trace[17], x);
    c := GG(c, d, a, b, x[11], 14, 0x265e5a51);
    assert Registers(b, c, d, a) == Step(18, trace[18], x);
    b := GG(b, c, d, a, x[0], 20, 0xe9b6c7aa);
    assert Registers(a, b, c, d) == Step(19, trace[19], x);
    a := GG(a, b, c, d, x[5], 5, 0xd62f105d);
    assert Registers(d, a, b, c) == Step(20, trace[20], x);
    d := GG(d, a, b, c, x[10], 9, 0x02441453);
    assert Registers(c, d, a, b) == Step(21, trace[21], x);
    c := GG(c, d, a, b, x[15], 14, 0xd8a1e681);
    assert Registers(b, c, d, a) == Step(22, trace[22], x);
    b := GG(b, c, d, a, x[4], 20, 0xe7d3fbc8);
    assert Registers(a, b, c, d) == Step(23, trace[23], x);
    a := GG(a, b, c, d, x[9], 5, 0x21e1cde6);
    assert Registers(d, a, b, c) == Step(24, trace[24], x);
    d := GG(d, a, b, c, x[14], 9, 0xc33707d6);
    assert Registers(c, d, a, b) == Step(25, trace[25], x);
    c := GG(c, d, a, b, x[3], 14, 0xf4d50d87);
    assert Registers(b, c, d, a) == Step(26, trace[26], x);
    b := GG(b, c, d, a, x[8], 20, 0x455a14ed);
    assert Registers(a, b, c, d) == Step(27, trace[27], x);
    a := GG(a, b, c, d, x[13], 5, 0xa9e3e905);
    assert Registers(d, a, b, c) == Step(28, trace[28], x);
    d := GG(d, a, b, c, x[2], 9, 0xfcefa3f8);
    assert Registers(c, d, a, b) == Step(29, trace[29], x);
    c := GG(c, d, a, b, x[7], 14, 0x676f02d9);
    assert Registers(b, c, d, a) == Step(30, trace[30], x);
    b := GG(b, c, d, a, x[12], 20, 0x8d2a4c8a);
    assert Registers(a, b, c, d) == Step(31, trace[31], x);
  }

  method Round3(a0: Word, b0: Word, c0: Word, d0: Word, x: Block, ghost trace: seq<Registers>)
    returns (a: Word, b: Word, c: Word, d: Word)
    requires IsTrace(trace, x) && trace[32] == Registers(a0, b0, c0, d0)
    ensures trace[48] == Registers(a, b, c, d)
  {
    hide Mix;
    a, b, c, d := a0, b0, c0, d0;
    a := HH(a, b, c, d, x[5], 4, 0xfffa3942);
    assert Registers(d, a, b, c) == Step(32, trace[32], x);
    d := HH(d, a, b, c, x[8], 11, 0x8771f681);
    assert Registers(c, d, a, b) == Step(33, trace[33], x);
    c := HH(c, d, a, b, x[11], 16, 0x6d9d6122);
    assert Registers(b, c, d, a) == Step(34, trace[34], x);
    b := HH(b, c, d, a, x[14], 23, 0xfde5380c);
    assert Registers(a, b, c, d) == Step(35, trace[35], x);
    a := HH(a, b, c, d, x[1], 4, 0xa4beea44);
    assert Registers(d, a, b, c) == Step(36, trace[36], x);
    d := HH(d, a, b, c, x[4], 11, 0x4bdecfa9);
    assert Registers(c, d, a, b) == Step(37, trace[37], x);
    c := HH(c, d, a, b, x[7], 16, 0xf6bb4b60);
    assert Registers(b, c, d, a) == Step(38, trace[38], x);
    b := HH(b, c, d, a, x[10], 23, 0xbebfbc70);
    assert Registers(a, b, c, d) == Step(39, trace[39], x);
    a := HH(a, b, c, d, x[13], 4, 0x289b7ec6);
    assert Registers(d, a, b, c) == Step(40, trace[40], x);
    d := HH(d, a, b, c, x[0], 11, 0xeaa127fa);
    assert Registers(c, d, a, b) == Step(41, trace[41], x);
    c := HH(c, d, a, b, x[3], 16, 0xd4ef3085);
    assert Registers(b, c, d, a) == Step(42, trace[42], x);
    b := HH(b, c, d, a, x[6], 23, 0x04881d05);
    assert Registers(a, b, c, d) == Step(43, trace[43], x);
    a := HH(a, b, c, d, x[9], 4, 0xd9d4d039);
    assert Registers(d, a, b, c) == Step(44, trace[44], x);
    d := HH(d, a, b, c, x[12], 11, 0xe6db99e5);
    assert Registers(c, d, a, b) == Step(45, trace[45], x);
    c := HH(c, d, a, b, x[15], 16, 0x1fa27cf8);
    assert Registers(b, c, d, a) == Step(46, trace[46], x);
    b := HH(b, c, d, a, x[2], 23, 0xc4ac5665);
    assert Registers(a, b, c, d) == Step(47, trace[47], x);
  }

  method Round4(a0: Word, b0: Word, c0: Word, d0: Word, x: Block, ghost trace: seq<Registers>)
    returns (a: Word, b: Word, c: Word, d: Word)
    requires IsTrace(trace, x) && trace[48] == Registers(a0, b0, c0, d0)
    ensures trace[64] == Registers(a, b, c, d)
  {
    hide Mix;
    a, b, c, d := a0, b0, c0, d0;
    a := II(a, b, c, d, x[0], 6, 0xf4292244);
    assert Registers(d, a, b, c) == Step(48, trace[48], x);
    d := II(d, a, b, c, x[7], 10, 0x432aff97);
    assert Registers(c, d, a, b) == Step(49, trace[49], x);
    c := II(c, d, a, b, x[14], 15, 0xab9423a7);
    assert Registers(b, c, d, a) == Step(50, trace[50], x);
    b := II(b, c, d, a, x[5], 21, 0xfc93a039);
    assert Registers(a, b, c, d) == Step(51, trace[51], x);
    a := II(a, b, c, d, x[12], 6, 0x655b59c3);
    assert Registers(d, a, b, c) == Step(52, trace[52], x);
    d := II(d, a, b, c, x[3], 10, 0x8f0ccc92);
    assert Registers(c, d, a, b) == Step(53, trace[53], x);
    c := II(c, d, a, b, x[10], 15, 0xffeff47d);
    assert Registers(b, c, d, a) == Step(54, trace[54], x);
    b := II(b, c, d, a, x[1], 21, 0x85845dd1);
    assert Registers(a, b, c, d) == Step(55, trace[55], x);
    a := II(a, b, c, d, x[8], 6, 0x6fa87e4f);
    assert Registers(d, a, b, c) == Step(56, trace[56], x);
    d := II(d, a, b, c, x[15], 10, 0xfe2ce6e0);
    assert Registers(c, d, a, b) == Step(57, trace[57], x);
    c := II(c, d, a, b, x[6], 15, 0xa3014314);
    assert Registers(b, c, d, a) == Step(58, trace[58], x);
    b := II(b, c, d, a, x[13], 21, 0x4e0811a1);
    assert Registers(a, b, c, d) == Step(59, trace[59], x);
    a := II(a, b, c, d, x[4], 6, 0xf7537e82);
    assert Registers(d, a, b, c) == Step(60, trace[60], x);
    d := II(d, a, b, c, x[11], 10, 0xbd3af235);
    assert Registers(c, d, a, b) == Step(61, trace[61], x);
    c := II(c, d, a, b, x[2], 15, 0x2ad7d2bb);
    assert Registers(b, c, d, a) == Step(62, trace[62], x);
    b := II(b, c, d, a, x[9], 21, 0xeb86d391);
    assert Registers(a, b, c, d) == Step(63, trace[63], x);
  }

  /** One block: four rounds on copies of the chaining words, then the feed-forward addition. */
  method Transform(buf: array<Word>, x: Block)
    requires buf.Length == 4
    modifies buf
    ensures Registers(buf[0], buf[1], buf[2], buf[3])
         == Compress(old(Registers(buf[0], buf[1], buf[2], buf[3])), x)
    ensures var r := Run(Schedule(), old(Registers(buf[0], buf[1], buf[2], buf[3])), x);
      && buf[0] == (old(buf[0]) + r.a) % 0x1_0000_0000 && buf[1] == (old(buf[1]) + r.b) % 0x1_0000_0000
      && buf[2] == (old(buf[2]) + r.c) % 0x1_0000_0000 && buf[3] == (old(buf[3]) + r.d) % 0x1_0000_0000
  {
    hide IsTrace, Run;
    var a, b, c, d := buf[0], buf[1], buf[2], buf[3];
    ghost var trace := TraceOf(Registers(a, b, c, d), x);
    a, b, c, d := Round1(a, b, c, d, x, trace);
    a, b, c, d := Round2(a, b, c, d, x, trace);
    a, b, c, d := Round3(a, b, c, d, x, trace);
    a, b, c, d := Round4(a, b, c, d, x, trace);
    buf[0] := Add(buf[0], a);
    buf[1] := Add(buf[1], b);
    buf[2] := Add(buf[2], c);
    buf[3] := Add(buf[3], d);
  }
}
