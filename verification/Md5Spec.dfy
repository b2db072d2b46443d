/**
 MD5 as section 3 of RFC 1321 defines it, on values: padding (3.1, 3.2), initial registers (3.3),
 the 64 table-driven steps on 16-word blocks (3.4) and the little-endian output (3.5).
 */
module Md5Spec {
  import opened Words
  import opened Bits
  import opened ByteOrder

  const BLOCK: nat := 64
  const STEPS: nat := 64

  type StepNo = k: nat | k < 64
  type Block = x: seq<Word> | |x| == 16 witness seq(16, _ => 0)

  datatype Registers = Registers(a: Word, b: Word, c: Word, d: Word)

  const INITIAL := Registers(0x67452301, 0xefcdab89, 0x98badcfe, 0x10325476)

  // The four auxiliary functions combine words bit by bit.

  function F(x: Word, y: Word, z: Word): Word { Or(And(x, y), And(Not(x), z)) }

  function G(x: Word, y: Word, z: Word): Word { Or(And(x, z), And(y, Not(z))) }

  function H(x: Word, y: Word, z: Word): Word { Xor(Xor(x, y), z) }

  function I(x: Word, y: Word, z: Word): Word { Xor(y, Or(x, Not(z))) }

  function Auxiliary(round: nat, x: Word, y: Word, z: Word): Word
    requires round < 4
  {
    match round
    case 0 => F(x, y, z)
    case 1 => G(x, y, z)
    case 2 => H(x, y, z)
    case 3 => I(x, y, z)
  }

  // The schedule of step k: which word it adds, how far it rotates, which constant it adds.

  function WordIndex(k: StepNo): (i: nat)
    ensures i < 16
  {
    match k / 16
    case 0 => k
    case 1 => (5 * k + 1) % 16
    case 2 => (3 * k + 5) % 16
    case 3 => 7 * k % 16
  }

  const SHIFTS: seq<seq<nat>> := [[7, 12, 17, 22], [5, 9, 14, 20], [4, 11, 16, 23], [6, 10, 15, 21]]

  function Shift(k: StepNo): (s: nat)
    ensures 0 < s < 32
  {
    SHIFTS[k / 16][k % 4]
  }

  function Pick(j: nat, w0: Word, w1: Word, w2: Word, w3: Word): Word
    requires j < 4
  {
    if j < 2 then if j == 0 then w0 else w1 else if j == 2 then w2 else w3
  }

  function Sine(k: StepNo): Word {
    if k < 32 then
      if k < 16 then
        if k < 8 then
          if k < 4 then
            Pick(k % 4, 0xd76aa478, 0xe8c7b756, 0x242070db, 0xc1bdceee)
          else
            Pick(k % 4, 0xf57c0faf, 0x4787c62a, 0xa8304613, 0xfd469501)
        else
          if k < 12 then
            Pick(k % 4, 0x698098d8, 0x8b44f7af, 0xffff5bb1, 0x895cd7be)
          else
            Pick(k % 4, 0x6b901122, 0xfd987193, 0xa679438e, 0x49b40821)
      else
        if k < 24 then
          if k < 20 then
            Pick(k % 4, 0xf61e2562, 0xc040b340, 0x265e5a51, 0xe9b6c7aa)
          else
            Pick(k % 4, 0xd62f105d, 0x02441453, 0xd8a1e681, 0xe7d3fbc8)
        else
          if k < 28 then
            Pick(k % 4, 0x21e1cde6, 0xc33707d6, 0xf4d50d87, 0x455a14ed)
          else
            Pick(k % 4, 0xa9e3e905, 0xfcefa3f8, 0x676f02d9, 0x8d2a4c8a)
    else
      if k < 48 then
        if k < 40 then
          if k < 36 then
            Pick(k % 4, 0xfffa3942, 0x8771f681, 0x6d9d6122, 0xfde5380c)
          else
            Pick(k % 4, 0xa4beea44, 0x4bdecfa9, 0xf6bb4b60, 0xbebfbc70)
        else
          if k < 44 then
            Pick(k % 4, 0x289b7ec6, 0xeaa127fa, 0xd4ef3085, 0x04881d05)
          else
            Pick(k % 4, 0xd9d4d039, 0xe6db99e5, 0x1fa27cf8, 0xc4ac5665)
      else
        if k < 56 then
          if k < 52 then
            Pick(k % 4, 0xf4292244, 0x432aff97, 0xab9423a7, 0xfc93a039)
          else
            Pick(k % 4, 0x655b59c3, 0x8f0ccc92, 0xffeff47d, 0x85845dd1)
        else
          if k < 60 then
            Pick(k % 4, 0x6fa87e4f, 0xfe2ce6e0, 0xa3014314, 0x4e0811a1)
          else
            Pick(k % 4, 0xf7537e82, 0xbd3af235, 0x2ad7d2bb, 0xeb86d391)
  }

  /** One step: the new register value, computed from the four registers in their current roles. */
  function Mix(round: nat, a: Word, b: Word, c: Word, d: Word, x: Word, s: nat, ac: Word): Word
    requires round < 4 && 0 < s < 32
  {
    Add(RotateLeft(Add(a, Auxiliary(round, b, c, d) + x + ac), s), b)
  }

  function Step(k: StepNo, r: Registers, x: Block): Registers {
    Registers(r.d, Mix(k / 16, r.a, r.b, r.c, r.d, x[WordIndex(k)], Shift(k), Sine(k)), r.b, r.c)
  }

  /** The steps of a schedule, first to last. */
  function Run(schedule: seq<StepNo>, r: Registers, x: Block): Registers {
    if schedule == [] then r
    else
      var n := |schedule| - 1;
      Step(schedule[n], Run(schedule[..n], r, x), x)
  }

  function Schedule(): (s: seq<StepNo>)
    ensures |s| == STEPS && forall k :: 0 <= k < STEPS ==> s[k] == k
  {
    seq(STEPS, k requires 0 <= k < STEPS => k)
  }

  /** The block function: 64 steps, then each register is added to its value before them. */
  function Compress(h: Registers, x: Block): Registers {
    var r := Run(Schedule(), h, x);
    Registers(Add(h.a, r.a), Add(h.b, r.b), Add(h.c, r.c), Add(h.d, r.d))
  }

  function WordAt(bytes: seq<Byte>, i: nat): Word
    requires 4 * i + 4 <= |bytes|
  {
    LittleEndianBound(bytes[4 * i..4 * i + 4]);
    LittleEndian(bytes[4 * i..4 * i + 4])
  }

  /** A 64-byte block as sixteen little-endian words. */
  function BlockOf(bytes: seq<Byte>): Block
    requires |bytes| == BLOCK
  {
    seq(16, i requires 0 <= i < 16 => WordAt(bytes, i))
  }

  /** The block function folded over the 64-byte blocks of `bytes`. */
  function Fold(h: Registers, bytes: seq<Byte>): Registers
    requires |bytes| % BLOCK == 0
    decreases |bytes|
  {
    if bytes == [] then h
    else
      var n := |bytes| - BLOCK;
      Compress(Fold(h, bytes[..n]), BlockOf(bytes[n..]))
  }

  /** Number of padding bytes for a message of `n` bytes: at least one, up to 56 modulo 64. */
  function PadLength(n: nat): nat {
    1 + (55 - n) % BLOCK
  }

  function Zeros(n: nat): (z: seq<Byte>)
    ensures |z| == n && forall i :: 0 <= i < n ==> z[i] == 0
  {
    seq(n, _ => 0)
  }

  function Padding(n: nat): seq<Byte>
    requires n > 0
  {
    [0x80] + Zeros(n - 1)
  }

  lemma PaddedLength(n: nat)
    ensures (n + PadLength(n) + 8) % BLOCK == 0
  {
  }

  function Padded(message: seq<Byte>): (p: seq<Byte>)
    ensures |p| % BLOCK == 0
  {
    PaddedLength(|message|);
    message + Padding(PadLength(|message|)) + ToLittleEndian(8 * |message| % LONG_RANGE, 8)
  }

  function Output(h: Registers): (digest: seq<Byte>)
    ensures |digest| == 16
  {
    ToLittleEndian(h.a, 4) + ToLittleEndian(h.b, 4) + ToLittleEndian(h.c, 4) + ToLittleEndian(h.d, 4)
  }

  function Md5(message: seq<Byte>): seq<Byte> {
    Output(Fold(INITIAL, Padded(message)))
  }
}
