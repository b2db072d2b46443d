/** The digest context of MD5 and its three operations, updated in place. */
module Md5 {
  import opened Words
  import opened ByteOrder
  import opened Md5Spec
  import opened Md5Transform
  import opened Md5Stream
  import opened Md5Digest

  const PADDING: Buffer := [0x80] + Zeros(63)

  /** The two-word bit counter after the carry test and the two additions of an update. */
  function CarryAdd(lo: Word, hi: Word, inLen: Word): (Word, Word) {
    var shifted: Word := 8 * inLen % WORD_RANGE;
    var carried := if Add(lo, shifted) < lo then Add(hi, 1) else hi;
    (Add(lo, shifted), Add(carried, inLen / 0x2000_0000))
  }

  /** The carry test makes the pair of 32-bit additions one 64-bit addition. */
  lemma CarryAddIsExact(lo: Word, hi: Word, inLen: Word)
    ensures var (lo', hi') := CarryAdd(lo, hi, inLen);
      hi' * WORD_RANGE + lo' == (hi * WORD_RANGE + lo + 8 * inLen) % LONG_RANGE
  {
    var high, low := inLen / 0x2000_0000, 8 * inLen % WORD_RANGE;
    var carry := if lo + low >= WORD_RANGE then 1 else 0;
    var sum := hi + carry + high;
    assert 8 * inLen == high * WORD_RANGE + low;
    assert hi * WORD_RANGE + lo + 8 * inLen == sum * WORD_RANGE + Add(lo, low);
    HighWordWraps(sum, Add(lo, low));
    HighWordSum(hi, carry, high);
  }

  lemma HighWordWraps(sum: nat, low: Word)
    ensures (sum * WORD_RANGE + low) % LONG_RANGE == sum % WORD_RANGE * WORD_RANGE + low
  {
    var (wrap, rest) := (sum / WORD_RANGE, sum % WORD_RANGE);
    assert sum * WORD_RANGE + low == wrap * LONG_RANGE + (rest * WORD_RANGE + low);
    DigitsUnique(wrap, rest * WORD_RANGE + low, LONG_RANGE);
  }

  lemma HighWordSum(hi: Word, carry: nat, high: nat)
    requires carry <= 1
    ensures Add(if carry == 1 then Add(hi, 1) else hi, high) == (hi + carry + high) % WORD_RANGE
  {
    AddToSum(hi + 1, high);
  }

  /** Four bytes shifted into place, `b0` lowest. */
  function Assembled(b3: nat, b2: nat, b1: nat, b0: nat): nat {
    b3 * 0x100_0000 + b2 * 0x1_0000 + b1 * 0x100 + b0
  }

  lemma WordAtIsAssembled(bytes: seq<Byte>, i: nat)
    requires 4 * i + 4 <= |bytes|
    ensures WordAt(bytes, i) == Assembled(bytes[4 * i + 3], bytes[4 * i + 2], bytes[4 * i + 1], bytes[4 * i])
  {
    var four := bytes[4 * i..4 * i + 4];
    assert four[1..][1..] == four[2..] && four[2..][1..] == four[3..];
    assert LittleEndian(four[3..]) == four[3];
    assert LittleEndian(four[2..]) == four[2] + 256 * LittleEndian(four[3..]);
    assert LittleEndian(four[1..]) == four[1] + 256 * LittleEndian(four[2..]);
  }

  class Context {
    const i: array<Word>
    const buf: array<Word>
    const input: array<Byte>
    const digest: array<Byte>

    /** The bytes fed since the last Init. */
    ghost var message: seq<Byte>

    ghost predicate Shape() {
      i.Length == 2 && buf.Length == 4 && input.Length == BLOCK && digest.Length == 16
      && i != buf && input != digest
    }

    ghost function Value(): State
      requires Shape()
      reads i, buf, input
    {
      State(i[0], i[1], Registers(buf[0], buf[1], buf[2], buf[3]), input[..])
    }

    ghost predicate Valid()
      reads this, i, buf, input
    {
      Shape() && Represents(Value(), message)
    }

    constructor ()
      ensures Shape()
      ensures fresh(i) && fresh(buf) && fresh(input) && fresh(digest)
    {
      i := new Word[2];
      buf := new Word[4];
      input := new Byte[BLOCK];
      digest := new Byte[16];
    }

    method Init()
      requires Shape()
      modifies this, i, buf
      ensures Valid() && message == []
      ensures Value() == Initial(old(input[..])) && i[0] == i[1] == 0
      ensures buf[0] == 0x67452301 && buf[1] == 0xefcdab89 && buf[2] == 0x98badcfe && buf[3] == 0x10325476
    {
      hide Represents;
      ghost var block := input[..];
      i[0], i[1] := 0, 0;
      buf[0] := 0x67452301;
      buf[1] := 0xefcdab89;
      buf[2] := 0x98badcfe;
      buf[3] := 0x10325476;
      message := [];
      assert Value() == Initial(block);
      InitialRepresentsEmpty(block);
    }

    /** Little-endian assembly of the first `n` words of the buffer. */
    method Assemble(words: array<Word>, n: nat)
      requires Shape() && words.Length == 16 && n <= 16 && words != i && words != buf
      modifies words
      ensures forall k :: 0 <= k < n ==> words[k] == WordAt(input[..], k)
      ensures forall k :: n <= k < 16 ==> words[k] == old(words[k])
    {
      var k, kk := 0, 0;
      while k < n
        invariant k <= n && kk == 4 * k
        invariant forall j :: 0 <= j < k ==> words[j] == WordAt(input[..], j)
        invariant forall j :: k <= j < 16 ==> words[j] == old(words[j])
      {
        WordAtIsAssembled(input[..], k);
        words[k] := Assembled(input[kk + 3], input[kk + 2], input[kk + 1], input[kk]);
        k, kk := k + 1, kk + 4;
      }
    }

    /** Runs the block function on the full buffer. */
    method TransformBuffer()
      requires Shape()
      modifies buf
      ensures Value().buf == Compress(old(Value().buf), BlockOf(input[..]))
    {
      var words := new Word[16];
      Assemble(words, 16);
      assert words[..] == BlockOf(input[..]);
      Transform(buf, words[..]);
    }

    /** One byte of the update loop; `level` is the fill level after it. */
    method PutByte(b: Byte, mdi: nat) returns (level: nat)
      requires Shape() && mdi < BLOCK
      modifies buf, input
      ensures level < BLOCK
      ensures Fill(Value().buf, Value().input, level) == Put(old(Fill(Value().buf, Value().input, mdi)), b)
    {
      hide Compress, BlockOf;
      input[mdi] := b;
      level := mdi + 1;
      if level == 0x40 {
        TransformBuffer();
        level := 0;
      }
    }

    /** Adds the length of an update to the bit counter. */
    method CountBits(inLen: Word)
      requires Shape()
      modifies i
      ensures var bits := (old(BitCount(Value())) + 8 * inLen as nat) % LONG_RANGE;
        i[0] == bits % WORD_RANGE && i[1] == bits / WORD_RANGE
    {
      CarryAddIsExact(i[0], i[1], inLen);
      hide Add;
      var shifted: Word := 8 * inLen % WORD_RANGE;
      if Add(i[0], shifted) < i[0] {
        i[1] := Add(i[1], 1);
      }
      i[0] := Add(i[0], shifted);
      i[1] := Add(i[1], inLen / 0x2000_0000);
      assert (i[0], i[1]) == CarryAdd(old(i[0]), old(i[1]), inLen);
      DigitsUnique(i[1], i[0], WORD_RANGE);
    }

    method Update(inBuf: seq<Byte>)
      requires Shape() && |inBuf| < WORD_RANGE
      modifies this, i, buf, input
      ensures Value() == Md5Stream.Update(old(Value()), inBuf)
      ensures message == old(message) + inBuf
      ensures old(Valid()) ==> Valid()
    {
      hide Put, Represents;
      var inLen: Word := |inBuf|;
      var mdi := i[0] / 8 % 0x40;
      ghost var start := Start(Value());
      CountBits(inLen);
      ghost var lo, hi := i[0], i[1];

      var next := 0;
      while next < inLen
        invariant 0 <= next <= inLen && 0 <= mdi < BLOCK
        invariant i[0] == lo && i[1] == hi && message == old(message)
        invariant Feed(start, inBuf[..next]) == Fill(Value().buf, Value().input, mdi)
      {
        assert inBuf[..next + 1][..next] == inBuf[..next];
        mdi := PutByte(inBuf[next], mdi);
        next := next + 1;
      }
      assert inBuf[..next] == inBuf;
      message := message + inBuf;
      if old(Valid()) {
        UpdateRepresents(old(Value()), old(message), inBuf);
      }
    }

    /**
     Pads, runs the last block with the saved bit count and stores the digest.  The counter goes on
     counting the padding, and the padding stays in the buffer, as in the code.
     */
    method Final()
      requires Shape()
      modifies this, i, buf, input, digest
      ensures digest[..] == Output(Finish(old(Value())))
      ensures old(Valid()) ==> digest[..] == Md5(old(message))
      ensures Value() == Md5Stream.Update(old(Value()), FinalPadding(old(Value()))).(buf := Finish(old(Value())))
    {
      hide Output, Compress, Md5Stream.Update, Represents, Md5;
      var words := new Word[16];
      words[14], words[15] := i[0], i[1];
      var mdi := i[0] / 8 % 0x40;
      var padLen := if mdi < 56 then 56 - mdi else 120 - mdi;
      assert PADDING[..padLen] == FinalPadding(Value());
      Update(PADDING[..padLen]);
      Assemble(words, 14);
      assert words[..] == LastBlock(input[..], old(i[0]), old(i[1]));
      Transform(buf, words[..]);
      StoreDigest();
      if old(Valid()) {
        FinishIsMd5(old(Value()), old(message));
      }
    }

    /** One word of the digest, low byte first. */
    method StoreWord(w: Word, kk: nat)
      requires Shape() && kk + 4 <= 16
      modifies digest
      ensures digest[..] == old(digest[..kk]) + ToLittleEndian(w, 4) + old(digest[kk + 4..])
    {
      WordToFourBytes(w);
      hide ToLittleEndian;
      digest[kk] := w % 0x100;
      digest[kk + 1] := w / 0x100 % 0x100;
      digest[kk + 2] := w / 0x1_0000 % 0x100;
      digest[kk + 3] := w / 0x100_0000 % 0x100;
    }

    /** Little-endian output of the four chaining words. */
    method StoreDigest()
      requires Shape()
      modifies digest
      ensures digest[..] == Output(Value().buf)
    {
      hide ToLittleEndian;
      var k, kk := 0, 0;
      while k < 4
        invariant 0 <= k <= 4 && kk == 4 * k
        invariant digest[..kk] == FirstWords(buf[..], k)
      {
        StoreWord(buf[k], kk);
        k, kk := k + 1, kk + 4;
      }
      OutputIsFirstWords(buf[..]);
      assert digest[..16] == digest[..];
    }
  }

  function FirstWords(words: seq<Word>, k: nat): (bytes: seq<Byte>)
    requires k <= |words|
    ensures |bytes| == 4 * k
  {
    if k == 0 then [] else FirstWords(words, k - 1) + ToLittleEndian(words[k - 1], 4)
  }

  lemma OutputIsFirstWords(words: seq<Word>)
    requires |words| == 4
    ensures FirstWords(words, 4) == Output(Registers(words[0], words[1], words[2], words[3]))
  {
    hide ToLittleEndian;
    assert FirstWords(words, 1) == ToLittleEndian(words[0], 4);
    assert FirstWords(words, 2) == FirstWords(words, 1) + ToLittleEndian(words[1], 4);
    assert FirstWords(words, 3) == FirstWords(words, 2) + ToLittleEndian(words[2], 4);
  }
}
