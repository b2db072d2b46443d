/** From context values to the digest: reachable contexts, finishing, chunking and the padding. */
module Md5Digest {
  import opened Sequences
  import opened Words
  import opened ByteOrder
  import opened Md5Spec
  import opened Md5Stream

  /** The digest, byte by byte: each word low byte first, in the order a, b, c, d. */
  lemma OutputBytes(h: Registers)
    ensures Output(h) ==
      [h.a % 0x100, h.a / 0x100 % 0x100, h.a / 0x1_0000 % 0x100, h.a / 0x100_0000 % 0x100,
       h.b % 0x100, h.b / 0x100 % 0x100, h.b / 0x1_0000 % 0x100, h.b / 0x100_0000 % 0x100,
       h.c % 0x100, h.c / 0x100 % 0x100, h.c / 0x1_0000 % 0x100, h.c / 0x100_0000 % 0x100,
       h.d % 0x100, h.d / 0x100 % 0x100, h.d / 0x1_0000 % 0x100, h.d / 0x100_0000 % 0x100]
  {
    hide ToLittleEndian;
    WordToFourBytes(h.a);
    WordToFourBytes(h.b);
    WordToFourBytes(h.c);
    WordToFourBytes(h.d);
  }

  /** The initial registers as section 3.3 lists them, by their bytes. */
  lemma InitialBytes()
    ensures Output(INITIAL) ==
      [0x01, 0x23, 0x45, 0x67, 0x89, 0xab, 0xcd, 0xef, 0xfe, 0xdc, 0xba, 0x98, 0x76, 0x54, 0x32, 0x10]
  {
    hide Output;
    OutputBytes(INITIAL);
  }

  function Initial(input: Buffer): State {
    State(0, 0, INITIAL, input)
  }

  lemma InitialRepresentsEmpty(input: Buffer)
    ensures Represents(Initial(input), [])
  {
  }

  lemma UpdateRepresents(s: State, message: seq<Byte>, data: seq<Byte>)
    requires Represents(s, message)
    ensures Represents(Update(s, data), message + data)
  {
    hide Holds, Start, Update, BitCount;
    StartOfUpdate(s, data);
    FeedHolds(Start(s), message, data);
    BitsAdd(BitCount(s), |message|, |data|);
  }

  lemma BitsAdd(bits: nat, m: nat, n: nat)
    requires bits == 8 * m % LONG_RANGE
    ensures (bits + 8 * n) % LONG_RANGE == 8 * (m + n) % LONG_RANGE
  {
  }

  lemma LevelIsTail(s: State, message: seq<Byte>)
    requires Represents(s, message)
    ensures FillLevel(s.lo) == |message| % BLOCK
  {
    hide Fold;
  }

  lemma PadLengthCases(n: nat)
    ensures PadLength(n) == if n % BLOCK < 56 then 56 - n % BLOCK else 120 - n % BLOCK
  {
  }

  /** The code's two-case padding length is the one of section 3.1. */
  lemma PaddingMatches(s: State, message: seq<Byte>)
    requires Represents(s, message)
    ensures FinalPadding(s) == Padding(PadLength(|message|))
  {
    hide Represents, FillLevel, PadLength;
    LevelIsTail(s, message);
    PadLengthCases(|message|);
  }

  lemma PadLengthFills(message: seq<Byte>)
    ensures 1 <= PadLength(|message|) <= BLOCK && (|message| + PadLength(|message|)) % BLOCK == 56
  {
  }

  /** Bytes that leave the block incomplete are stored behind those before them. */
  lemma {:induction false} FeedShort(f: Fill, data: seq<Byte>)
    requires f.mdi + |data| < BLOCK
    ensures Feed(f, data) == Fill(f.buf, f.input[..f.mdi] + data + f.input[f.mdi + |data|..], f.mdi + |data|)
  {
    if data == [] {
      assert f.input[..f.mdi] + f.input[f.mdi..] == f.input;
    } else {
      var n := |data| - 1;
      FeedShort(f, data[..n]);
      hide Feed;
      var before := f.input[..f.mdi] + data[..n] + f.input[f.mdi + n..];
      assert before[f.mdi + n := data[n]] == f.input[..f.mdi] + data + f.input[f.mdi + n + 1..];
    }
  }

  /** Bytes that just complete the block run the block function once. */
  lemma FeedFull(f: Fill, data: seq<Byte>)
    requires data != [] && f.mdi + |data| == BLOCK
    ensures Feed(f, data) == Fill(Compress(f.buf, BlockOf(f.input[..f.mdi] + data)), f.input[..f.mdi] + data, 0)
  {
    hide Compress, BlockOf;
    var n := |data| - 1;
    FeedShort(f, data[..n]);
    assert Feed(f, data) == Put(Feed(f, data[..n]), data[n]);
    hide Feed;
    var before := f.input[..f.mdi] + data[..n] + f.input[f.mdi + n..];
    assert before[f.mdi + n := data[n]] == f.input[..f.mdi] + data;
  }

  /**
   Feeding the padding fills any context to 56 bytes.  The block function runs meanwhile iff 56 bytes
   or more were in the buffer; it runs once, on them and as much padding as completes their block,
   and the rest of the padding starts the next.
   */
  lemma PaddingShape(s: State)
    ensures var (padding, tail, p) := (FinalPadding(s), FillLevel(s.lo), Update(s, FinalPadding(s)));
      && FillLevel(p.lo) == 56
      && (tail < 56 ==> p.buf == s.buf && p.input == s.input[..tail] + padding + s.input[56..])
      && (tail >= 56 ==>
            && p.buf == Compress(s.buf, BlockOf(s.input[..tail] + padding[..BLOCK - tail]))
            && p.input[..56] == padding[BLOCK - tail..])
  {
    hide Compress, BlockOf, FillLevel;
    var padding, tail, f := FinalPadding(s), FillLevel(s.lo), Start(s);
    StartOfUpdate(s, padding);
    FeedLevel(f, padding);
    if tail < 56 {
      FeedShort(f, padding);
    } else {
      var (first, second) := (padding[..BLOCK - tail], padding[BLOCK - tail..]);
      assert first + second == padding;
      FeedConcat(f, first, second);
      FeedFull(f, first);
      FeedShort(Feed(f, first), second);
    }
  }

  lemma LengthWords(value: nat)
    requires value < LONG_RANGE
    ensures LittleEndian(ToLittleEndian(value, 8)[..4]) == value % WORD_RANGE
    ensures LittleEndian(ToLittleEndian(value, 8)[4..]) == value / WORD_RANGE
  {
    hide ToLittleEndian, LittleEndian;
    var bytes := ToLittleEndian(value, 8);
    assert Pow256(4) == WORD_RANGE && Pow256(8) == LONG_RANGE;
    LittleEndianEncode(value, 8);
    LittleEndianBound(bytes[..4]);
    assert bytes == bytes[..4] + bytes[4..];
    LittleEndianConcat(bytes[..4], bytes[4..]);
  }

  /** The words the code assembles for the last block are those of the last 64 padded bytes. */
  lemma LastBlockWords(input: Buffer, lo: Word, hi: Word, bytes: seq<Byte>)
    requires |bytes| == BLOCK && bytes[..56] == input[..56]
    requires bytes[56..] == ToLittleEndian(hi * WORD_RANGE + lo, 8)
    ensures BlockOf(bytes) == LastBlock(input, lo, hi)
  {
    var value := hi * WORD_RANGE + lo;
    assert value % WORD_RANGE == lo && value / WORD_RANGE == hi;
    LengthWords(value);
    assert bytes[56..60] == bytes[56..][..4];
    assert bytes[60..64] == bytes[56..][4..];
    forall i | 0 <= i < 14
      ensures WordAt(bytes, i) == WordAt(input, i)
    {
      assert bytes[4 * i..4 * i + 4] == bytes[..56][4 * i..4 * i + 4];
      assert input[4 * i..4 * i + 4] == input[..56][4 * i..4 * i + 4];
    }
  }

  /** Finishing a context that represents a message yields the digest of that message. */
  lemma FinishIsMd5(s: State, message: seq<Byte>)
    requires Represents(s, message)
    ensures Output(Finish(s)) == Md5(message)
  {
    hide Update, Output, LastBlock, BlockOf, Fold, Compress, ToLittleEndian;
    PaddingMatches(s, message);
    PadLengthFills(message);
    var padding := FinalPadding(s);
    var p := Update(s, padding);
    UpdateRepresents(s, message, padding);
    var padded := message + padding;
    var w := Whole(|padded|);
    var last := padded[w..] + ToLittleEndian(BitCount(s), 8);
    LastBlockWords(p.input, s.lo, s.hi, last);
    FoldLast(INITIAL, padded[..w], last);
    assert padded[..w] + last == Padded(message);
  }

  // Whole runs.

  function UpdateAll(s: State, chunks: seq<seq<Byte>>): State {
    if chunks == [] then s else Update(UpdateAll(s, chunks[..|chunks| - 1]), chunks[|chunks| - 1])
  }

  lemma {:induction false} UpdateAllRepresents(input: Buffer, chunks: seq<seq<Byte>>)
    ensures Represents(UpdateAll(Initial(input), chunks), Flatten(chunks))
  {
    hide Represents, Update;
    if chunks == [] {
      InitialRepresentsEmpty(input);
    } else {
      var n := |chunks| - 1;
      UpdateAllRepresents(input, chunks[..n]);
      UpdateRepresents(UpdateAll(Initial(input), chunks[..n]), Flatten(chunks[..n]), chunks[n]);
    }
  }

  /** However a message is cut into updates, whatever was in the buffer, the digest is its MD5. */
  lemma AnyChunkingGivesMd5(input: Buffer, chunks: seq<seq<Byte>>)
    ensures Output(Finish(UpdateAll(Initial(input), chunks))) == Md5(Flatten(chunks))
  {
    hide Output, Finish, Represents;
    UpdateAllRepresents(input, chunks);
    FinishIsMd5(UpdateAll(Initial(input), chunks), Flatten(chunks));
  }

  // The padded message determines the message.

  /** The last nonzero byte before the length is the 0x80 that ends the message. */
  lemma PaddedEnd(message: seq<Byte>)
    ensures var p := Padded(message);
      && |message| < |p| - 8
      && p[|message|] == 0x80
      && p[..|message|] == message
      && forall i :: |message| < i < |p| - 8 ==> p[i] == 0
  {
  }

  /**
   Sections 3.1 and 3.2: the message, a byte 0x80, as few zeros as bring the length to 56 modulo 64,
   and the number of message bits modulo 2^64 in eight bytes, low byte first.
   */
  lemma PaddedLaw(message: seq<Byte>)
    ensures var (p, n) := (Padded(message), |Padded(message)| - 8);
      && n % 64 == 56 && |message| < n <= |message| + 64
      && p[..|message|] == message && p[|message|] == 0x80
      && (forall i :: |message| < i < n ==> p[i] == 0)
      && LittleEndian(p[n..]) == 8 * |message| % 0x1_0000_0000_0000_0000
  {
    hide ToLittleEndian, LittleEndian, PadLength;
    PaddedEnd(message);
    PadLengthFills(message);
    var bits := 8 * |message| % LONG_RANGE;
    assert Pow256(8) == LONG_RANGE;
    LittleEndianEncode(bits, 8);
    assert Padded(message)[|Padded(message)| - 8..] == ToLittleEndian(bits, 8);
  }

  lemma PaddedIsInjective(m1: seq<Byte>, m2: seq<Byte>)
    requires Padded(m1) == Padded(m2)
    ensures m1 == m2
  {
    hide Padded;
    PaddedEnd(m1);
    PaddedEnd(m2);
  }
}
