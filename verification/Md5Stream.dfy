/**
 The digest context as a value, and the proof that feeding a message to it in pieces computes the
 one-shot digest of Md5Spec.
 */
module Md5Stream {
  import opened Words
  import opened Md5Spec

  type Buffer = b: seq<Byte> | |b| == BLOCK witness Zeros(BLOCK)

  /** Chaining registers and partial block, with the fill level of the block. */
  datatype Fill = Fill(buf: Registers, input: Buffer, mdi: nat)

  /** The context between calls; the fill level is not stored but derived from the bit counter. */
  datatype State = State(lo: Word, hi: Word, buf: Registers, input: Buffer)

  function Put(f: Fill, b: Byte): (g: Fill)
    requires f.mdi < BLOCK
    ensures g.mdi < BLOCK
  {
    var input := f.input[f.mdi := b];
    if f.mdi + 1 == BLOCK then Fill(Compress(f.buf, BlockOf(input)), input, 0)
    else Fill(f.buf, input, f.mdi + 1)
  }

  /** The bytes of `data`, first to last. */
  function Feed(f: Fill, data: seq<Byte>): (g: Fill)
    requires f.mdi < BLOCK
    ensures g.mdi < BLOCK
  {
    if data == [] then f
    else
      var n := |data| - 1;
      Put(Feed(f, data[..n]), data[n])
  }

  function BitCount(s: State): nat {
    s.hi * WORD_RANGE + s.lo
  }

  function FillLevel(lo: Word): (mdi: nat)
    ensures mdi < BLOCK
  {
    lo / 8 % BLOCK
  }

  function Start(s: State): (f: Fill)
    ensures f.mdi < BLOCK
  {
    Fill(s.buf, s.input, FillLevel(s.lo))
  }

  function Update(s: State, data: seq<Byte>): State {
    var bits := (BitCount(s) + 8 * |data|) % LONG_RANGE;
    var f := Feed(Start(s), data);
    State(bits % WORD_RANGE, bits / WORD_RANGE, f.buf, f.input)
  }

  /** The last block: fourteen words of the buffer, then the saved bit count, low word first. */
  function LastBlock(input: Buffer, lo: Word, hi: Word): Block {
    seq(16, i requires 0 <= i < 16 => if i < 14 then WordAt(input, i) else if i == 14 then lo else hi)
  }

  /** What is fed before the last block. */
  function FinalPadding(s: State): seq<Byte> {
    var mdi := FillLevel(s.lo);
    Padding(if mdi < 56 then 56 - mdi else 120 - mdi)
  }

  function Finish(s: State): Registers {
    var p := Update(s, FinalPadding(s));
    Compress(p.buf, LastBlock(p.input, s.lo, s.hi))
  }

  // Feeding in pieces.

  lemma {:induction false} FeedConcat(f: Fill, x: seq<Byte>, y: seq<Byte>)
    requires f.mdi < BLOCK
    ensures Feed(Feed(f, x), y) == Feed(f, x + y)
  {
    hide Put;
    if y == [] {
      assert x + y == x;
    } else {
      var n := |y| - 1;
      FeedConcat(f, x, y[..n]);
      assert (x + y)[..|x + y| - 1] == x + y[..n];
    }
  }

  lemma {:induction false} FeedLevel(f: Fill, data: seq<Byte>)
    requires f.mdi < BLOCK
    ensures Feed(f, data).mdi == (f.mdi + |data|) % BLOCK
  {
    hide Compress;
    if data != [] {
      FeedLevel(f, data[..|data| - 1]);
    }
  }

  lemma LowWord(hi: nat, y: nat)
    ensures (hi * WORD_RANGE + y) % LONG_RANGE % WORD_RANGE == y % WORD_RANGE
  {
    var x := hi * WORD_RANGE + y;
    var q := x / LONG_RANGE;
    assert x % LONG_RANGE == x - q * LONG_RANGE;
    assert x % LONG_RANGE == y + WORD_RANGE * (hi - q * WORD_RANGE);
  }

  lemma LevelDigits(u: nat, t: nat, e: nat)
    requires t < BLOCK && e < 8
    ensures (512 * u + 8 * t + e) / 8 % BLOCK == t
  {
    assert (512 * u + 8 * t + e) / 8 == 64 * u + t;
  }

  lemma LevelOfLow(y: nat)
    ensures y % WORD_RANGE / 8 % BLOCK == y / 8 % BLOCK
  {
    var q, r := y / WORD_RANGE, y % WORD_RANGE;
    var u, v := r / 512, r % 512;
    var t, e := v / 8, v % 8;
    LevelDigits(u, t, e);
    LevelDigits(u + q * 0x80_0000, t, e);
    assert y == 512 * (u + q * 0x80_0000) + 8 * t + e;
  }

  lemma LevelAdd(lo: nat, n: nat)
    ensures (lo + 8 * n) / 8 % BLOCK == (lo / 8 % BLOCK + n) % BLOCK
  {
    assert (lo + 8 * n) / 8 == lo / 8 + n;
  }

  /** The level derived from the counter follows the number of bytes fed, wherever it starts. */
  lemma LevelFollowsCount(lo: Word, hi: Word, n: nat)
    ensures FillLevel((hi * WORD_RANGE + lo + 8 * n) % LONG_RANGE % WORD_RANGE) == (FillLevel(lo) + n) % BLOCK
  {
    var y := lo + 8 * n;
    var low := (hi * WORD_RANGE + lo + 8 * n) % LONG_RANGE % WORD_RANGE;
    assert low == y % WORD_RANGE by {
      LowWord(hi, y);
    }
    calc {
      FillLevel(low);
      { LevelOfLow(y); }
      y / 8 % BLOCK;
      { LevelAdd(lo, n); }
      (FillLevel(lo) + n) % BLOCK;
    }
  }

  lemma StartOfUpdate(s: State, data: seq<Byte>)
    ensures Start(Update(s, data)) == Feed(Start(s), data)
    ensures BitCount(Update(s, data)) == (BitCount(s) + 8 * |data|) % LONG_RANGE
  {
    hide Feed, FillLevel;
    FeedLevel(Start(s), data);
    LevelFollowsCount(s.lo, s.hi, |data|);
  }

  /** Two updates equal one update with the concatenation, from any context at all. */
  lemma UpdateIsHomomorphic(s: State, x: seq<Byte>, y: seq<Byte>)
    ensures Update(Update(s, x), y) == Update(s, x + y)
  {
    hide Feed, Start;
    StartOfUpdate(s, x);
    FeedConcat(Start(s), x, y);
    assert (BitCount(Update(s, x)) + 8 * |y|) % LONG_RANGE == (BitCount(s) + 8 * |x + y|) % LONG_RANGE;
  }

  // What a reachable context holds.

  function Whole(n: nat): (w: nat)
    ensures w <= n && w % BLOCK == 0 && n - w == n % BLOCK
  {
    n - n % BLOCK
  }

  /** Complete blocks are folded into the registers; the rest of the message lies in the buffer. */
  ghost predicate Holds(f: Fill, message: seq<Byte>) {
    var w := Whole(|message|);
    && f.mdi == |message| % BLOCK
    && f.buf == Fold(INITIAL, message[..w])
    && f.input[..f.mdi] == message[w..]
  }

  ghost predicate Represents(s: State, message: seq<Byte>) {
    && BitCount(s) == 8 * |message| % LONG_RANGE
    && Holds(Start(s), message)
  }

  /** The fold starts at the given registers and takes the blocks one after the other. */
  lemma FoldLast(h: Registers, bytes: seq<Byte>, block: seq<Byte>)
    requires |bytes| % BLOCK == 0 && |block| == BLOCK
    ensures Fold(h, []) == h
    ensures Fold(h, bytes + block) == Compress(Fold(h, bytes), BlockOf(block))
  {
    hide Compress, BlockOf;
    assert (bytes + block)[..|bytes|] == bytes;
    assert (bytes + block)[|bytes|..] == block;
  }

  lemma PutHolds(f: Fill, message: seq<Byte>, b: Byte)
    requires Holds(f, message)
    ensures Holds(Put(f, b), message + [b])
  {
    hide Compress, Fold, BlockOf;
    var w := Whole(|message|);
    var (input, extended) := (f.input[f.mdi := b], message + [b]);
    assert input[..f.mdi + 1] == message[w..] + [b] by {
      assert input[..f.mdi + 1] == f.input[..f.mdi] + [b];
    }
    if f.mdi + 1 == BLOCK {
      assert Whole(|extended|) == |extended|;
      assert input[..BLOCK] == input;
      assert extended == message[..w] + input;
      FoldLast(INITIAL, message[..w], input);
      assert extended[..|extended|] == extended && extended[|extended|..] == [];
    } else {
      assert Whole(|extended|) == w;
      assert extended[..w] == message[..w] && extended[w..] == message[w..] + [b];
    }
  }

  lemma {:induction false} FeedHolds(f: Fill, message: seq<Byte>, data: seq<Byte>)
    requires f.mdi < BLOCK && Holds(f, message)
    ensures Holds(Feed(f, data), message + data)
  {
    hide Holds, Put;
    if data == [] {
      assert message + data == message;
    } else {
      var n := |data| - 1;
      FeedHolds(f, message, data[..n]);
      PutHolds(Feed(f, data[..n]), message + data[..n], data[n]);
      assert message + data[..n] + [data[n]] == message + data;
    }
  }
}
