/** The network-order stream buffer, updated in place. */
module Stream {
  import opened Options
  import opened Words
  import opened ByteOrder
  import opened StreamGuards
  import opened StreamModel

  /** The unsigned char cast of a value shifted right by `k` bytes. */
  function ByteOf(value: nat, k: nat): Byte {
    value / Pow256(k) % 256
  }

  /** A byte shifted left by `k` bytes; bytes at different places share no bits, so "or" adds them. */
  function Shifted(b: nat, k: nat): nat {
    b * Pow256(k)
  }

  class Buffered {
    var next: Buffered?
    var getp: nat
    var endp: nat
    var size: nat
    var data: array<Byte>

    ghost function Value(): Buffer
      reads this, data
    {
      Buffer(data[..], getp, endp)
    }

    ghost predicate Valid()
      reads this
    {
      getp <= endp <= size == data.Length < LONG_RANGE
    }

    constructor (size: Long)
      requires size > 0
      ensures Valid() && next == null && getp == 0 && endp == 0 && this.size == size && fresh(data)
    {
      next, getp, endp := null, 0, 0;
      data := new Byte[size];
      this.size := size;
    }

    // Stores and loads of one field, most significant byte first; they move no cursor.

    method StoreC(at: nat, c: Byte)
      requires at + 1 <= data.Length
      modifies data
      ensures data[..] == Overwrite(old(data[..]), at, ToBigEndian(c, 1))
    {
      hide ByteOf, ToBigEndian;
      BigEndianBytes(c, 1);
      ByteItself(c);
      data[at] := c;
      OverwriteBytes(old(data[..]), at, ToBigEndian(c, 1), data[..]);
    }

    method StoreW(at: nat, w: Short)
      requires at + 2 <= data.Length
      modifies data
      ensures data[..] == Overwrite(old(data[..]), at, ToBigEndian(w, 2))
    {
      hide ByteOf, ToBigEndian;
      BigEndianBytes(w, 2);
      data[at] := ByteOf(w, 1);
      data[at + 1] := ByteOf(w, 0);
      OverwriteBytes(old(data[..]), at, ToBigEndian(w, 2), data[..]);
    }

    method StoreL(at: nat, l: Word)
      requires at + 4 <= data.Length
      modifies data
      ensures data[..] == Overwrite(old(data[..]), at, ToBigEndian(l, 4))
    {
      hide ByteOf, ToBigEndian;
      BigEndianBytes(l, 4);
      data[at] := ByteOf(l, 3);
      data[at + 1] := ByteOf(l, 2);
      data[at + 2] := ByteOf(l, 1);
      data[at + 3] := ByteOf(l, 0);
      OverwriteBytes(old(data[..]), at, ToBigEndian(l, 4), data[..]);
    }

    method StoreQ(at: nat, q: Long)
      requires at + 8 <= data.Length
      modifies data
      ensures data[..] == Overwrite(old(data[..]), at, ToBigEndian(q, 8))
    {
      hide ByteOf, ToBigEndian;
      BigEndianBytes(q, 8);
      data[at] := ByteOf(q, 7);
      data[at + 1] := ByteOf(q, 6);
      data[at + 2] := ByteOf(q, 5);
      data[at + 3] := ByteOf(q, 4);
      data[at + 4] := ByteOf(q, 3);
      data[at + 5] := ByteOf(q, 2);
      data[at + 6] := ByteOf(q, 1);
      data[at + 7] := ByteOf(q, 0);
      OverwriteBytes(old(data[..]), at, ToBigEndian(q, 8), data[..]);
    }

    method LoadC(at: nat) returns (c: Byte)
      requires at + 1 <= data.Length
      ensures c == BigEndian(data[at..at + 1])
    {
      Sum1(data[at..at + 1]);
      hide Shifted;
      ShiftedByNone(data[at]);
      c := data[at];
    }

    method LoadW(at: nat) returns (w: Short)
      requires at + 2 <= data.Length
      ensures w == BigEndian(data[at..at + 2])
    {
      BigEndianBound(data[at..at + 2]);
      assert Pow256(2) == 0x1_0000;
      Sum2(data[at..at + 2]);
      hide Shifted;
      var sum := Shifted(data[at], 1);
      sum := sum + Shifted(data[at + 1], 0);
      w := sum;
    }

    method LoadL(at: nat) returns (l: Word)
      requires at + 4 <= data.Length
      ensures l == BigEndian(data[at..at + 4])
    {
      BigEndianBound(data[at..at + 4]);
      assert Pow256(4) == 0x1_0000_0000;
      Sum4(data[at..at + 4]);
      hide Shifted;
      var sum := Shifted(data[at], 3);
      sum := sum + Shifted(data[at + 1], 2);
      sum := sum + Shifted(data[at + 2], 1);
      sum := sum + Shifted(data[at + 3], 0);
      l := sum;
    }

    method LoadQ(at: nat) returns (q: Long)
      requires at + 8 <= data.Length
      ensures q == BigEndian(data[at..at + 8])
    {
      BigEndianBound(data[at..at + 8]);
      assert Pow256(8) == 0x1_0000_0000_0000_0000;
      Sum8(data[at..at + 8]);
      hide Shifted;
      var sum := Shifted(data[at], 7);
      sum := sum + Shifted(data[at + 1], 6);
      sum := sum + Shifted(data[at + 2], 5);
      sum := sum + Shifted(data[at + 3], 4);
      sum := sum + Shifted(data[at + 4], 3);
      sum := sum + Shifted(data[at + 5], 2);
      sum := sum + Shifted(data[at + 6], 1);
      sum := sum + Shifted(data[at + 7], 0);
      q := sum;
    }

    // Puts at the end cursor and gets at the get cursor.

    method PutC(c: Byte) returns (n: nat)
      requires Valid() && size - endp >= 1
      modifies this`endp, data
      ensures Valid() && n == 1 && Value() == Put(old(Value()), ToBigEndian(c, 1))
    {
      StoreC(endp, c);
      endp := endp + 1;
      return 1;
    }

    method PutW(w: Short) returns (n: nat)
      requires Valid() && size - endp >= 2
      modifies this`endp, data
      ensures Valid() && n == 2 && Value() == Put(old(Value()), ToBigEndian(w, 2))
    {
      StoreW(endp, w);
      endp := endp + 2;
      return 2;
    }

    method PutL(l: Word) returns (n: nat)
      requires Valid() && size - endp >= 4
      modifies this`endp, data
      ensures Valid() && n == 4 && Value() == Put(old(Value()), ToBigEndian(l, 4))
    {
      StoreL(endp, l);
      endp := endp + 4;
      return 4;
    }

    method PutQ(q: Long) returns (n: nat)
      requires Valid() && size - endp >= 8
      modifies this`endp, data
      ensures Valid() && n == 8 && Value() == Put(old(Value()), ToBigEndian(q, 8))
    {
      StoreQ(endp, q);
      endp := endp + 8;
      return 8;
    }

    method GetC() returns (c: Byte)
      requires Valid() && ReadAdmitted(endp - getp, 1)
      modifies this`getp
      ensures Valid() && old(endp - getp) >= 1
      ensures var (after, bytes) := Get(old(Value()), 1);
        Value() == after && c == BigEndian(bytes)
    {
      SmallReadsAreGuarded(endp - getp, 1);
      c := LoadC(getp);
      getp := getp + 1;
    }

    method GetW() returns (w: Short)
      requires Valid() && ReadAdmitted(endp - getp, 2)
      modifies this`getp
      ensures Valid() && old(endp - getp) >= 2
      ensures var (after, bytes) := Get(old(Value()), 2);
        Value() == after && w == BigEndian(bytes)
    {
      SmallReadsAreGuarded(endp - getp, 2);
      w := LoadW(getp);
      getp := getp + 2;
    }

    method GetL() returns (l: Word)
      requires Valid() && ReadAdmitted(endp - getp, 4)
      modifies this`getp
      ensures Valid() && old(endp - getp) >= 4
      ensures var (after, bytes) := Get(old(Value()), 4);
        Value() == after && l == BigEndian(bytes)
    {
      SmallReadsAreGuarded(endp - getp, 4);
      l := LoadL(getp);
      getp := getp + 4;
    }

    method GetQ() returns (q: Long)
      requires Valid() && ReadAdmitted(endp - getp, 8)
      modifies this`getp
      ensures Valid() && old(endp - getp) >= 8
      ensures var (after, bytes) := Get(old(Value()), 8);
        Value() == after && q == BigEndian(bytes)
    {
      SmallReadsAreGuarded(endp - getp, 8);
      q := LoadQ(getp);
      getp := getp + 8;
    }

    // Positional writes and reads.  An end that wraps passes the guard too, but names no byte of the stream.

    method PutCAt(putp: Long, c: Byte) returns (n: nat)
      requires Valid() && PositionAdmitted(endp, putp, 1) && putp + 1 < LONG_RANGE
      modifies data
      ensures n == 1 && data[..] == Overwrite(old(data[..]), putp, ToBigEndian(c, 1))
    {
      StoreC(putp, c);
      return 1;
    }

    method PutWAt(putp: Long, w: Short) returns (n: nat)
      requires Valid() && PositionAdmitted(endp, putp, 2) && putp + 2 < LONG_RANGE
      modifies data
      ensures n == 2 && data[..] == Overwrite(old(data[..]), putp, ToBigEndian(w, 2))
    {
      StoreW(putp, w);
      return 2;
    }

    method PutLAt(putp: Long, l: Word) returns (n: nat)
      requires Valid() && PositionAdmitted(endp, putp, 4) && putp + 4 < LONG_RANGE
      modifies data
      ensures n == 4 && data[..] == Overwrite(old(data[..]), putp, ToBigEndian(l, 4))
    {
      StoreL(putp, l);
      return 4;
    }

    method PutQAt(putp: Long, q: Long) returns (n: nat)
      requires Valid() && PositionAdmitted(endp, putp, 8) && putp + 8 < LONG_RANGE
      modifies data
      ensures n == 8 && data[..] == Overwrite(old(data[..]), putp, ToBigEndian(q, 8))
    {
      StoreQ(putp, q);
      return 8;
    }

    method GetCFrom(from: Long) returns (c: Byte)
      requires Valid() && PositionAdmitted(endp, from, 1) && from + 1 < LONG_RANGE
      ensures c == BigEndian(data[from..from + 1])
    {
      c := LoadC(from);
    }

    method GetWFrom(from: Long) returns (w: Short)
      requires Valid() && PositionAdmitted(endp, from, 2) && from + 2 < LONG_RANGE
      ensures w == BigEndian(data[from..from + 2])
    {
      w := LoadW(from);
    }

    method GetLFrom(from: Long) returns (l: Word)
      requires Valid() && PositionAdmitted(endp, from, 4) && from + 4 < LONG_RANGE
      ensures l == BigEndian(data[from..from + 4])
    {
      l := LoadL(from);
    }

    method GetQFrom(from: Long) returns (q: Long)
      requires Valid() && PositionAdmitted(endp, from, 8) && from + 8 < LONG_RANGE
      ensures q == BigEndian(data[from..from + 8])
    {
      q := LoadQ(from);
    }

    // Blocks and cursors.

    /** Copies `n` bytes out.  The guard may admit more than are unread; the get cursor then passes the end cursor. */
    method GetBlock(n: Long) returns (dst: seq<Byte>)
      requires Valid() && ReadAdmitted(endp - getp, n) && getp + n <= size
      modifies this`getp
      ensures getp == old(getp) + n && dst == data[old(getp)..getp]
      ensures Valid() <==> n <= old(endp - getp)
      ensures n <= old(endp - getp) ==> (Value(), dst) == Get(old(Value()), n)
    {
      dst := data[getp..getp + n];
      getp := getp + n;
    }

    /**
     Copies as much of a block in as fits and says how much; a missing source stands for zeros.
     */
    method Write(src: Option<seq<Byte>>, requested: Long) returns (n: Long)
      requires Valid() && endp + requested < LONG_RANGE
      requires src.Some? ==> |src.value| == requested
      modifies this`endp, data
      ensures Valid() && n == if requested <= old(size - endp) then requested else old(size - endp)
      ensures Value() == Put(old(Value()), if src.Some? then src.value[..n] else seq(n, _ => 0))
    {
      n := Truncated(endp, size, requested);
      BlockPutAccepted(endp, size, requested);
      ghost var bytes: seq<Byte> := if src.Some? then src.value[..n] else seq(n, _ => 0);
      forall k | 0 <= k < n {
        data[endp + k] := if src.Some? then src.value[k] else 0;
      }
      OverwriteBytes(old(data[..]), endp, bytes, data[..]);
      endp := endp + n;
    }

    method SetGetp(pos: nat)
      requires Valid() && pos <= endp
      modifies this`getp
      ensures Valid() && Value() == old(Value()).(getp := pos)
    {
      getp := pos;
    }

    /** A sum that wraps passes the guard and moves the cursor back. */
    method ForwardGetp(n: Long)
      requires Valid() && PositionAdmitted(endp, getp, n)
      modifies this`getp
      ensures Valid() && getp == (old(getp) + n) % LONG_RANGE
      ensures old(getp) + n < LONG_RANGE ==> Value() == Get(old(Value()), n).0
    {
      getp := (getp + n) % LONG_RANGE;
    }

    /** A sum that wraps passes the guard and may leave the end cursor before the get cursor. */
    method ForwardEndp(n: Long)
      requires Valid() && PositionAdmitted(size, endp, n)
      modifies this`endp
      ensures endp == (old(endp) + n) % LONG_RANGE <= size
      ensures Valid() <==> old(endp) + n < LONG_RANGE || getp <= old(endp) + n - LONG_RANGE
    {
      endp := (endp + n) % LONG_RANGE;
    }

    method Reset()
      requires Valid()
      modifies this`getp, this`endp
      ensures Valid() && Value() == old(Value()).(getp := 0, endp := 0)
    {
      getp, endp := 0, 0;
    }

    /** A new size; the common prefix survives and both cursors are pulled back into it. */
    method Resize(newsize: Long) returns (r: nat)
      requires Valid()
      modifies this
      ensures Valid() && r == size == newsize && fresh(data)
      ensures endp == (if old(endp) <= newsize then old(endp) else newsize)
      ensures getp == (if old(getp) <= newsize then old(getp) else newsize)
      ensures var common := if old(size) <= newsize then old(size) else newsize;
        data[..common] == old(data[..])[..common]
      ensures Value().Unread() == old(Value().data)[getp..endp]
    {
      var newdata := new Byte[newsize];
      var common := if size <= newsize then size else newsize;
      forall k | 0 <= k < common {
        newdata[k] := data[k];
      }
      ghost var kept := data[..][..common];
      data := newdata;
      size := newsize;
      if endp > size {
        endp := size;
      }
      if getp > endp {
        getp := endp;
      }
      assert data[..common] == kept;
      return size;
    }
  }

  /** An array that holds `bytes` at `at` and is otherwise unchanged. */
  lemma OverwriteBytes(before: seq<Byte>, at: nat, bytes: seq<Byte>, after: seq<Byte>)
    requires at + |bytes| <= |before| == |after|
    requires forall k :: 0 <= k < |bytes| ==> after[at + k] == bytes[k]
    requires forall k :: 0 <= k < |before| && !(at <= k < at + |bytes|) ==> after[k] == before[k]
    ensures after == Overwrite(before, at, bytes)
  {
    forall i | 0 <= i < |after|
      ensures after[i] == Overwrite(before, at, bytes)[i]
    {
      if at <= i < at + |bytes| {
        assert after[at + (i - at)] == bytes[i - at];
      }
    }
  }

  /** Copies contents and cursors; the size of the target stays. */
  method Copy(target: Buffered, src: Buffered)
    requires src.Valid() && src.endp <= target.size == target.data.Length < LONG_RANGE && target.data != src.data
    modifies target`getp, target`endp, target.data
    ensures target.Valid() && src.Valid() && target.getp == src.getp && target.endp == src.endp
    ensures target.data[..] == src.data[..src.endp] + old(target.data[..])[src.endp..]
    ensures target.Value().Unread() == src.Value().Unread()
  {
    target.endp := src.endp;
    target.getp := src.getp;
    forall k | 0 <= k < src.endp {
      target.data[k] := src.data[k];
    }
  }

  /** A copy just large enough; the source must hold something. */
  method Dup(s: Buffered) returns (r: Buffered)
    requires s.Valid() && s.endp > 0
    ensures fresh(r) && fresh(r.data) && r.Valid() && r.next == null
    ensures r.size == s.endp && r.Value() == Buffer(s.data[..s.endp], s.getp, s.endp)
  {
    r := new Buffered(s.endp);
    Copy(r, s);
  }

  lemma ByteItself(c: Byte)
    ensures ByteOf(c, 0) == c
  {
  }

  lemma ShiftedByNone(c: nat)
    ensures Shifted(c, 0) == c
  {
  }

  /** The first `k` bytes, each shifted to its place. */
  function ShiftSum(bytes: seq<Byte>, k: nat): nat
    requires k <= |bytes|
  {
    if k == 0 then 0 else ShiftSum(bytes, k - 1) + Shifted(bytes[k - 1], |bytes| - k)
  }

  lemma {:induction false} ShiftSumPrefix(bytes: seq<Byte>, k: nat)
    requires k <= |bytes|
    ensures ShiftSum(bytes, k) == BigEndian(bytes[..k]) * Pow256(|bytes| - k)
  {
    if k > 0 {
      ShiftSumPrefix(bytes, k - 1);
      assert bytes[..k][..k - 1] == bytes[..k - 1];
      var (value, high, low) := (BigEndian(bytes[..k]), BigEndian(bytes[..k - 1]), bytes[k - 1]);
      var (p, weight) := (Pow256(|bytes| - k), Pow256(|bytes| - k + 1));
      HornerStep(value, high, 256, low, p, weight);
    }
  }

  lemma ShiftSumIsBigEndian(bytes: seq<Byte>)
    ensures ShiftSum(bytes, |bytes|) == BigEndian(bytes)
  {
    ShiftSumPrefix(bytes, |bytes|);
    assert bytes[..|bytes|] == bytes;
  }

  lemma Sum1(b: seq<Byte>)
    requires |b| == 1
    ensures BigEndian(b) == Shifted(b[0], 0)
  {
    hide Shifted;
    ShiftSumIsBigEndian(b);
    assert ShiftSum(b, 1) == ShiftSum(b, 0) + Shifted(b[0], 0);
  }

  lemma Sum2(b: seq<Byte>)
    requires |b| == 2
    ensures BigEndian(b) == Shifted(b[0], 1) + Shifted(b[1], 0)
  {
    hide Shifted;
    ShiftSumIsBigEndian(b);
    assert ShiftSum(b, 1) == ShiftSum(b, 0) + Shifted(b[0], 1);
    assert ShiftSum(b, 2) == ShiftSum(b, 1) + Shifted(b[1], 0);
  }

  lemma Sum4(b: seq<Byte>)
    requires |b| == 4
    ensures BigEndian(b) == Shifted(b[0], 3) + Shifted(b[1], 2) + Shifted(b[2], 1) + Shifted(b[3], 0)
  {
    hide Shifted;
    ShiftSumIsBigEndian(b);
    assert ShiftSum(b, 1) == ShiftSum(b, 0) + Shifted(b[0], 3);
    assert ShiftSum(b, 2) == ShiftSum(b, 1) + Shifted(b[1], 2);
    assert ShiftSum(b, 3) == ShiftSum(b, 2) + Shifted(b[2], 1);
    assert ShiftSum(b, 4) == ShiftSum(b, 3) + Shifted(b[3], 0);
  }

  lemma Sum8(b: seq<Byte>)
    requires |b| == 8
    ensures BigEndian(b) == Shifted(b[0], 7) + Shifted(b[1], 6) + Shifted(b[2], 5) + Shifted(b[3], 4)
                          + Shifted(b[4], 3) + Shifted(b[5], 2) + Shifted(b[6], 1) + Shifted(b[7], 0)
  {
    hide Shifted;
    ShiftSumIsBigEndian(b);
    assert ShiftSum(b, 1) == ShiftSum(b, 0) + Shifted(b[0], 7);
    assert ShiftSum(b, 2) == ShiftSum(b, 1) + Shifted(b[1], 6);
    assert ShiftSum(b, 3) == ShiftSum(b, 2) + Shifted(b[2], 5);
    assert ShiftSum(b, 4) == ShiftSum(b, 3) + Shifted(b[3], 4);
    assert ShiftSum(b, 5) == ShiftSum(b, 4) + Shifted(b[4], 3);
    assert ShiftSum(b, 6) == ShiftSum(b, 5) + Shifted(b[5], 2);
    assert ShiftSum(b, 7) == ShiftSum(b, 6) + Shifted(b[6], 1);
    assert ShiftSum(b, 8) == ShiftSum(b, 7) + Shifted(b[7], 0);
  }

  /** The bytes of the big-endian form, most significant first. */
  lemma {:induction false} BigEndianBytes(value: nat, width: nat)
    ensures forall k {:trigger ToBigEndian(value, width)[k]} :: 0 <= k < width ==>
      ToBigEndian(value, width)[k] == ByteOf(value, width - 1 - k)
  {
    if width > 0 {
      BigEndianBytes(value / 256, width - 1);
      forall k {:trigger ToBigEndian(value, width)[k]} | 0 <= k < width
        ensures ToBigEndian(value, width)[k] == ByteOf(value, width - 1 - k)
      {
        if k < width - 1 {
          DivideTwice(value, 256, Pow256(width - 2 - k));
          assert ToBigEndian(value, width)[k] == ToBigEndian(value / 256, width - 1)[k];
        } else {
          assert Pow256(0) == 1;
        }
      }
    }
  }
}
