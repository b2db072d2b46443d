/**
 The stream buffer as a value: bytes with a get cursor and an end cursor.  It is shown to be a byte
 queue under puts and gets, and a byte array under positional writes and reads.
 */
module StreamModel {
  import opened Words
  import opened ByteOrder
  import opened Sequences
  import opened StreamGuards

  datatype Buffer = Buffer(data: seq<Byte>, getp: nat, endp: nat) {
    /** The constraint of the stream: getp <= endp <= size, and the size is a 64-bit number. */
    predicate Sane() {
      getp <= endp <= |data| < LONG_RANGE
    }

    /** The bytes between the cursors. */
    function Unread(): seq<Byte>
      requires Sane()
    {
      data[getp..endp]
    }
  }

  /** `bytes` in place of as many bytes from `at` on. */
  function Overwrite(data: seq<Byte>, at: nat, bytes: seq<Byte>): (r: seq<Byte>)
    requires at + |bytes| <= |data|
    ensures |r| == |data|
  {
    data[..at] + bytes + data[at + |bytes|..]
  }

  /** A put: bytes at the end cursor, which moves past them. */
  function Put(b: Buffer, bytes: seq<Byte>): Buffer
    requires b.Sane() && b.endp + |bytes| <= |b.data|
  {
    Buffer(Overwrite(b.data, b.endp, bytes), b.getp, b.endp + |bytes|)
  }

  /** A get: the next `n` bytes, past which the get cursor moves. */
  function Get(b: Buffer, n: nat): (Buffer, seq<Byte>)
    requires b.Sane() && b.getp + n <= b.endp
  {
    (b.(getp := b.getp + n), b.data[b.getp..b.getp + n])
  }

  // A byte queue.

  lemma PutEnqueues(b: Buffer, bytes: seq<Byte>)
    requires b.Sane() && b.endp + |bytes| <= |b.data|
    ensures Put(b, bytes).Sane() && |Put(b, bytes).data| == |b.data|
    ensures Put(b, bytes).Unread() == b.Unread() + bytes
  {
  }

  /** A put writes its bytes at the end cursor and no other byte, and moves no other cursor. */
  lemma PutLaw(b: Buffer, bytes: seq<Byte>)
    requires b.Sane() && b.endp + |bytes| <= |b.data|
    ensures var r := Put(b, bytes);
      && r.getp == b.getp && r.endp == b.endp + |bytes|
      && r.data[..b.endp] == b.data[..b.endp] && r.data[b.endp..r.endp] == bytes && r.data[r.endp..] == b.data[r.endp..]
  {
  }

  lemma GetDequeues(b: Buffer, n: nat)
    requires b.Sane() && b.getp + n <= b.endp
    ensures Get(b, n).0.Sane()
    ensures Get(b, n).1 + Get(b, n).0.Unread() == b.Unread() && |Get(b, n).1| == n
  {
  }

  /** A typed call of the stream interface; values are written most significant byte first. */
  datatype Op = PutField(width: Width, value: nat) | GetField(width: Width)

  /** A run of calls on a byte queue; it fails when a get finds too few bytes. */
  datatype QueueRun = Queue(bytes: seq<Byte>, values: seq<nat>) | Underflow

  function QueueStep(r: QueueRun, op: Op): QueueRun {
    if r == Underflow then Underflow
    else
      match op
      case PutField(width, value) => Queue(r.bytes + ToBigEndian(value, width), r.values)
      case GetField(width) =>
        if width <= |r.bytes| then Queue(r.bytes[width..], r.values + [BigEndian(r.bytes[..width])]) else Underflow
  }

  function RunQueue(r: QueueRun, ops: seq<Op>): QueueRun {
    if ops == [] then r
    else
      var n := |ops| - 1;
      QueueStep(RunQueue(r, ops[..n]), ops[n])
  }

  /** The same calls on the buffer; a call that fails its guard aborts the run. */
  datatype BufferRun = Running(buffer: Buffer, values: seq<nat>) | OutOfBounds

  function BufferStep(r: BufferRun, op: Op): BufferRun {
    if r == OutOfBounds || !r.buffer.Sane() then OutOfBounds
    else
      var b := r.buffer;
      match op
      case PutField(width, value) =>
        if b.endp + width <= |b.data| then Running(Put(b, ToBigEndian(value, width)), r.values) else OutOfBounds
      case GetField(width) =>
        if ReadAdmitted(b.endp - b.getp, width) then
          SmallReadsAreGuarded(b.endp - b.getp, width);
          var (after, bytes) := Get(b, width);
          Running(after, r.values + [BigEndian(bytes)])
        else OutOfBounds
  }

  function RunBuffer(b: Buffer, ops: seq<Op>): BufferRun {
    if ops == [] then Running(b, [])
    else
      var n := |ops| - 1;
      BufferStep(RunBuffer(b, ops[..n]), ops[n])
  }

  /** Number of bytes a run puts. */
  function BytesPut(ops: seq<Op>): nat {
    if ops == [] then 0
    else
      var n := |ops| - 1;
      BytesPut(ops[..n]) + (match ops[n] case PutField(width, _) => width case GetField(_) => 0)
  }

  /** Some get of the run finds so many bytes that their number is obscured. */
  predicate Obstructed(r: QueueRun, ops: seq<Op>) {
    ops != [] &&
    var n := |ops| - 1;
    var before := RunQueue(r, ops[..n]);
    Obstructed(r, ops[..n]) || (ops[n].GetField? && before.Queue? && Obscured(|before.bytes|, ops[n].width))
  }

  lemma GetRefines(b: Buffer, values: seq<nat>, width: Width)
    requires b.Sane()
    ensures var q := QueueStep(Queue(b.Unread(), values), GetField(width));
      var r := BufferStep(Running(b, values), GetField(width));
      && (r == OutOfBounds <==> q == Underflow || Obscured(|b.Unread()|, width))
      && (r != OutOfBounds ==>
            r.buffer.Sane() && r.buffer.data == b.data && r.buffer.endp == b.endp
            && q == Queue(r.buffer.Unread(), r.values))
  {
    hide BigEndian;
    SmallReadsAreGuarded(b.endp - b.getp, width);
    if ReadAdmitted(b.endp - b.getp, width) {
      GetDequeues(b, width);
      assert b.Unread()[..width] == Get(b, width).1;
      assert b.Unread()[width..] == Get(b, width).0.Unread();
    }
  }

  /**
   Any interleaving of puts and gets on a sane buffer is the run of a byte queue.  It fails exactly
   when the queue underflows, more is put than fits behind the end cursor, or a get is obstructed.
   */
  lemma {:induction false} BufferIsQueue(b: Buffer, ops: seq<Op>)
    requires b.Sane()
    ensures RunBuffer(b, ops) != OutOfBounds ==>
      var r := RunBuffer(b, ops);
      && r.buffer.Sane() && |r.buffer.data| == |b.data|
      && r.buffer.endp == b.endp + BytesPut(ops)
      && RunQueue(Queue(b.Unread(), []), ops) == Queue(r.buffer.Unread(), r.values)
    ensures var start := Queue(b.Unread(), []);
      RunBuffer(b, ops) == OutOfBounds <==>
      RunQueue(start, ops) == Underflow || b.endp + BytesPut(ops) > |b.data| || Obstructed(start, ops)
  {
    hide Obscured, ReadAdmitted;
    if ops != [] {
      var n := |ops| - 1;
      BufferIsQueue(b, ops[..n]);
      var r := RunBuffer(b, ops[..n]);
      if r != OutOfBounds {
        match ops[n]
        case PutField(width, value) =>
          if r.buffer.endp + width <= |b.data| {
            PutEnqueues(r.buffer, ToBigEndian(value, width));
          }
        case GetField(width) =>
          GetRefines(r.buffer, r.values, width);
      }
    }
  }

  lemma KeepsEnds(first: seq<Byte>, second: seq<Byte>, third: seq<Byte>, i: nat, j: nat, k: nat)
    requires |first| == |second| == |third| && i <= j <= k <= |first|
    requires second[..i] == first[..i] && third[..j] == second[..j]
    requires second[j..] == first[j..] && third[k..] == second[k..]
    ensures third[..i] == first[..i] && third[k..] == first[k..]
  {
    assert third[..i] == third[..j][..i] && second[..i] == second[..j][..i];
    assert second[k..] == second[j..][k - j..] && first[k..] == first[j..][k - j..];
  }

  /**
   A run writes only where its puts go: bytes before the first of them, consumed or not, and bytes
   behind the last keep their values.
   */
  lemma {:induction false} RunWritesOnlyItsPuts(b: Buffer, ops: seq<Op>)
    requires b.Sane() && RunBuffer(b, ops) != OutOfBounds
    ensures var r := RunBuffer(b, ops).buffer;
      && b.getp <= r.getp <= r.endp == b.endp + BytesPut(ops) <= |r.data| == |b.data|
      && r.data[..b.endp] == b.data[..b.endp] && r.data[r.endp..] == b.data[r.endp..]
  {
    hide ReadAdmitted, ToBigEndian, BigEndian, Overwrite, RunQueue, Obstructed;
    if ops != [] {
      var n := |ops| - 1;
      RunWritesOnlyItsPuts(b, ops[..n]);
      BufferIsQueue(b, ops[..n]);
      var r := RunBuffer(b, ops[..n]).buffer;
      match ops[n]
      case PutField(width, value) =>
        PutLaw(r, ToBigEndian(value, width));
        KeepsEnds(b.data, r.data, Put(r, ToBigEndian(value, width)).data, b.endp, r.endp, r.endp + width);
      case GetField(width) =>
        SmallReadsAreGuarded(r.endp - r.getp, width);
    }
  }

  // Typed fields written and read back.

  datatype Field = Field(width: Width, value: nat)

  ghost predicate Representable(fields: seq<Field>) {
    forall k :: 0 <= k < |fields| ==> fields[k].value < Pow256(fields[k].width)
  }

  function Puts(fields: seq<Field>): (ops: seq<Op>)
    ensures |ops| == |fields|
  {
    seq(|fields|, k requires 0 <= k < |fields| => PutField(fields[k].width, fields[k].value))
  }

  function Gets(fields: seq<Field>): (ops: seq<Op>)
    ensures |ops| == |fields|
  {
    seq(|fields|, k requires 0 <= k < |fields| => GetField(fields[k].width))
  }

  function Values(fields: seq<Field>): (values: seq<nat>)
    ensures |values| == |fields|
  {
    seq(|fields|, k requires 0 <= k < |fields| => fields[k].value)
  }

  function Encoded(fields: seq<Field>): seq<Byte> {
    if fields == [] then []
    else
      var n := |fields| - 1;
      Encoded(fields[..n]) + ToBigEndian(fields[n].value, fields[n].width)
  }

  lemma {:induction false} RunQueueConcat(r: QueueRun, first: seq<Op>, second: seq<Op>)
    ensures RunQueue(r, first + second) == RunQueue(RunQueue(r, first), second)
  {
    if second == [] {
      assert first + second == first;
    } else {
      var n := |second| - 1;
      RunQueueConcat(r, first, second[..n]);
      assert (first + second)[..|first + second| - 1] == first + second[..n];
    }
  }

  lemma FieldsInit(fields: seq<Field>)
    requires fields != []
    ensures var n := |fields| - 1;
      Puts(fields)[..n] == Puts(fields[..n]) && Gets(fields)[..n] == Gets(fields[..n])
    ensures Representable(fields) ==> Representable(fields[..|fields| - 1])
  {
  }

  lemma {:induction false} PutsEncode(q: seq<Byte>, values: seq<nat>, fields: seq<Field>)
    ensures RunQueue(Queue(q, values), Puts(fields)) == Queue(q + Encoded(fields), values)
  {
    if fields == [] {
      assert q + [] == q;
    } else {
      FieldsInit(fields);
      hide ToBigEndian;
      var n := |fields| - 1;
      var (init, field) := (fields[..n], fields[n]);
      assert Puts(fields)[n] == PutField(field.width, field.value);
      hide Puts;
      PutsEncode(q, values, init);
      ConcatAssociates(q, Encoded(init), ToBigEndian(field.value, field.width));
    }
  }

  lemma GetReadsField(f: Field, rest: seq<Byte>, values: seq<nat>)
    requires f.value < Pow256(f.width)
    ensures QueueStep(Queue(ToBigEndian(f.value, f.width) + rest, values), GetField(f.width))
         == Queue(rest, values + [f.value])
  {
    var bytes := ToBigEndian(f.value, f.width);
    BigEndianEncode(f.value, f.width);
    assert (bytes + rest)[..f.width] == bytes && (bytes + rest)[f.width..] == rest;
  }

  lemma {:induction false} GetsDecode(rest: seq<Byte>, values: seq<nat>, fields: seq<Field>)
    requires Representable(fields)
    ensures RunQueue(Queue(Encoded(fields) + rest, values), Gets(fields)) == Queue(rest, values + Values(fields))
    decreases |fields|
  {
    if fields == [] {
      assert [] + rest == rest && values + [] == values;
    } else {
      FieldsInit(fields);
      hide QueueStep, ToBigEndian, Pow256, Values, Puts, Gets;
      var n := |fields| - 1;
      var init, field, start := fields[..n], fields[n], Queue(Encoded(fields) + rest, values);
      var last := ToBigEndian(field.value, field.width);
      ConcatAssociates(Encoded(init), last, rest);
      assert field.value < Pow256(field.width);
      hide Representable;
      GetsDecode(last + rest, values, init);
      assert RunQueue(start, Gets(fields)) == QueueStep(RunQueue(start, Gets(init)), Gets(fields)[n]);
      hide RunQueue, Encoded;
      GetReadsField(field, rest, values + Values(init));
      ValuesSnoc(fields);
      ConcatAssociates(values, Values(init), [field.value]);
      GetsLast(fields);
    }
  }

  lemma GetsLast(fields: seq<Field>)
    requires fields != []
    ensures Gets(fields)[|fields| - 1] == GetField(fields[|fields| - 1].width)
  {
  }

  lemma ValuesSnoc(fields: seq<Field>)
    requires fields != []
    ensures Values(fields) == Values(fields[..|fields| - 1]) + [fields[|fields| - 1].value]
  {
  }

  lemma {:induction false} BytesPutConcat(first: seq<Op>, second: seq<Op>)
    ensures BytesPut(first + second) == BytesPut(first) + BytesPut(second)
  {
    if second == [] {
      assert first + second == first;
    } else {
      BytesPutConcat(first, second[..|second| - 1]);
      assert (first + second)[..|first + second| - 1] == first + second[..|second| - 1];
    }
  }

  lemma {:induction false} FieldsSize(fields: seq<Field>)
    ensures BytesPut(Puts(fields)) == |Encoded(fields)| && BytesPut(Gets(fields)) == 0
  {
    if fields != [] {
      var n := |fields| - 1;
      FieldsSize(fields[..n]);
      FieldsInit(fields);
    }
  }

  lemma {:induction false} ObstructedConcat(r: QueueRun, first: seq<Op>, second: seq<Op>)
    ensures Obstructed(r, first + second) <==> Obstructed(r, first) || Obstructed(RunQueue(r, first), second)
  {
    hide Obscured;
    if second == [] {
      assert first + second == first;
    } else {
      var n := |second| - 1;
      ObstructedConcat(r, first, second[..n]);
      RunQueueConcat(r, first, second[..n]);
      assert (first + second)[..|first + second| - 1] == first + second[..n];
    }
  }

  lemma {:induction false} PutsUnobstructed(r: QueueRun, fields: seq<Field>)
    ensures !Obstructed(r, Puts(fields))
  {
    if fields != [] {
      PutsUnobstructed(r, fields[..|fields| - 1]);
      FieldsInit(fields);
    }
  }

  /**
   Reading fields off a queue down to less than 2^32 bytes is obstructed iff it held 2^32 or more:
   the get that crosses the boundary finds 2^32 bytes and fewer than its own width besides.
   */
  lemma {:induction false} GetsObstructed(rest: seq<Byte>, values: seq<nat>, fields: seq<Field>)
    requires Representable(fields) && |rest| < WORD_RANGE
    ensures Obstructed(Queue(Encoded(fields) + rest, values), Gets(fields)) <==> |Encoded(fields) + rest| >= WORD_RANGE
    decreases |fields|
  {
    if fields == [] {
      assert Encoded(fields) == [];
    } else {
      FieldsInit(fields);
      GetsLast(fields);
      hide ToBigEndian, Pow256, QueueStep, RunQueue, Values, Obscured, Gets, Representable;
      var n := |fields| - 1;
      var init, width, start := fields[..n], fields[n].width, Queue(Encoded(fields) + rest, values);
      var more := ToBigEndian(fields[n].value, width) + rest;
      ConcatAssociates(Encoded(init), ToBigEndian(fields[n].value, width), rest);
      GetsDecode(more, values, init);
      assert Obstructed(start, Gets(fields)) <==> Obstructed(start, Gets(init)) || Obscured(|more|, width);
      hide Obstructed, Encoded;
      ObscuredAtBoundary(|rest|, width);
      if |more| < WORD_RANGE {
        GetsObstructed(more, values, init);
      }
    }
  }

  lemma ObscuredAtBoundary(left: nat, width: Width)
    requires left < WORD_RANGE
    ensures Obscured(left + width, width) <==> left + width >= WORD_RANGE
  {
  }

  /**
   On a stream with nothing unread, representable fields that fit can be written and read back iff
   they are fewer than 2^32 bytes; they then come back as written, with nothing left over.
   */
  lemma FieldsRoundTrip(b: Buffer, fields: seq<Field>)
    requires b.Sane() && b.getp == b.endp && Representable(fields)
    requires b.endp + |Encoded(fields)| <= |b.data|
    ensures var r := RunBuffer(b, Puts(fields) + Gets(fields));
      && (r != OutOfBounds <==> |Encoded(fields)| < WORD_RANGE)
      && (r != OutOfBounds ==> r.values == Values(fields) && r.buffer.Sane() && r.buffer.Unread() == [])
  {
    hide RunQueue, RunBuffer, BytesPut, Obstructed;
    var ops := Puts(fields) + Gets(fields);
    FieldsSize(fields);
    BytesPutConcat(Puts(fields), Gets(fields));
    BufferIsQueue(b, ops);
    assert b.Unread() == [];
    RunQueueConcat(Queue([], []), Puts(fields), Gets(fields));
    PutsEncode([], [], fields);
    assert [] + Encoded(fields) == Encoded(fields) + [] == Encoded(fields);
    GetsDecode([], [], fields);
    assert [] + Values(fields) == Values(fields);
    ObstructedConcat(Queue([], []), Puts(fields), Gets(fields));
    PutsUnobstructed(Queue([], []), fields);
    GetsObstructed([], [], fields);
  }

  // Back-patching.

  /** A positional write; it may overlap others. */
  datatype Patch = Patch(at: nat, bytes: seq<Byte>)

  ghost predicate Within(patches: seq<Patch>, n: nat) {
    forall k :: 0 <= k < |patches| ==> patches[k].at + |patches[k].bytes| <= n
  }

  function PatchAll(data: seq<Byte>, patches: seq<Patch>): (r: seq<Byte>)
    requires Within(patches, |data|)
    ensures |r| == |data|
  {
    if patches == [] then data
    else
      var n := |patches| - 1;
      Overwrite(PatchAll(data, patches[..n]), patches[n].at, patches[n].bytes)
  }

  /** The byte last written at `i`, by whichever patch covered it last. */
  function LastWritten(data: seq<Byte>, patches: seq<Patch>, i: nat): Byte
    requires i < |data|
  {
    if patches == [] then data[i]
    else
      var n := |patches| - 1;
      if patches[n].at <= i < patches[n].at + |patches[n].bytes| then patches[n].bytes[i - patches[n].at]
      else LastWritten(data, patches[..n], i)
  }

  function LastWrittenBytes(data: seq<Byte>, patches: seq<Patch>, from: nat, width: nat): (bytes: seq<Byte>)
    requires from + width <= |data|
    ensures |bytes| == width
    ensures forall k :: 0 <= k < width ==> bytes[k] == LastWritten(data, patches, from + k)
  {
    if width == 0 then []
    else LastWrittenBytes(data, patches, from, width - 1) + [LastWritten(data, patches, from + width - 1)]
  }

  lemma {:induction false} PatchedByte(data: seq<Byte>, patches: seq<Patch>, i: nat)
    requires Within(patches, |data|) && i < |data|
    ensures PatchAll(data, patches)[i] == LastWritten(data, patches, i)
  {
    if patches != [] {
      PatchedByte(data, patches[..|patches| - 1], i);
    }
  }

  /** A positional read after any patches gives the big-endian value of the bytes last written there. */
  lemma PatchedRead(data: seq<Byte>, patches: seq<Patch>, from: nat, width: nat)
    requires Within(patches, |data|) && from + width <= |data|
    ensures BigEndian(PatchAll(data, patches)[from..from + width])
         == BigEndian(LastWrittenBytes(data, patches, from, width))
  {
    var read := PatchAll(data, patches)[from..from + width];
    var expected := LastWrittenBytes(data, patches, from, width);
    forall k | 0 <= k < width
      ensures read[k] == expected[k]
    {
      PatchedByte(data, patches, from + k);
    }
    assert read == expected;
  }

  /** A field patched in and not written over since reads back as its value. */
  lemma PatchReadsBack(data: seq<Byte>, patches: seq<Patch>, k: nat, width: nat, value: nat)
    requires Within(patches, |data|) && k < |patches|
    requires patches[k].bytes == ToBigEndian(value, width) && value < Pow256(width)
    requires forall j :: k < j < |patches| ==>
      patches[j].at + |patches[j].bytes| <= patches[k].at || patches[k].at + width <= patches[j].at
    ensures BigEndian(PatchAll(data, patches)[patches[k].at..patches[k].at + width]) == value
  {
    hide ToBigEndian, Pow256, LastWritten, PatchAll, BigEndian;
    var at := patches[k].at;
    forall i | 0 <= i < width
      ensures LastWritten(data, patches, at + i) == patches[k].bytes[i]
    {
      NotWrittenSince(data, patches, k, at + i);
    }
    PatchedRead(data, patches, at, width);
    LastWrittenAre(data, patches, at, patches[k].bytes);
    BigEndianEncode(value, width);
  }

  lemma LastWrittenAre(data: seq<Byte>, patches: seq<Patch>, from: nat, bytes: seq<Byte>)
    requires from + |bytes| <= |data|
    requires forall i :: 0 <= i < |bytes| ==> LastWritten(data, patches, from + i) == bytes[i]
    ensures LastWrittenBytes(data, patches, from, |bytes|) == bytes
  {
    hide LastWritten;
  }

  lemma {:induction false} NotWrittenSince(data: seq<Byte>, patches: seq<Patch>, k: nat, i: nat)
    requires k < |patches| && i < |data| && patches[k].at <= i < patches[k].at + |patches[k].bytes|
    requires forall j :: k < j < |patches| ==> !(patches[j].at <= i < patches[j].at + |patches[j].bytes|)
    ensures LastWritten(data, patches, i) == patches[k].bytes[i - patches[k].at]
    decreases |patches|
  {
    if k < |patches| - 1 {
      NotWrittenSince(data, patches[..|patches| - 1], k, i);
    }
  }
}
