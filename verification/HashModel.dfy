/**
 The chained hash table as a value: one sequence of data per slot, in chain order.  The table is
 shown to behave as a family of independent cells, one for each equivalence class of data.
 */
module HashModel {
  import opened Options
  import opened Sequences
  import opened Words

  /** The two callbacks of a table. */
  datatype Hashing<!T> = Hashing(key: T -> Word, cmp: (T, T) -> bool)

  /** What the callbacks owe the table: `cmp` is an equivalence and equal data have equal keys. */
  ghost predicate Lawful<T(!new)>(h: Hashing<T>) {
    && (forall x :: h.cmp(x, x))
    && (forall x, y :: h.cmp(x, y) ==> h.cmp(y, x) && h.key(x) == h.key(y))
    && (forall x, y, z :: h.cmp(x, y) && h.cmp(y, z) ==> h.cmp(x, z))
  }

  type Slots<T> = seq<seq<T>>

  function SlotOf<T>(h: Hashing<T>, size: nat, d: T): (i: nat)
    requires size > 0
    ensures i < size
  {
    h.key(d) % size
  }

  /** No two data of the chain are equal for `cmp`. */
  ghost predicate Distinct<T>(h: Hashing<T>, chain: seq<T>) {
    forall p, q :: 0 <= p < q < |chain| ==> !h.cmp(chain[p], chain[q])
  }

  ghost predicate InSlot<T>(h: Hashing<T>, size: nat, i: nat, chain: seq<T>)
    requires size > 0
  {
    forall p :: 0 <= p < |chain| ==> SlotOf(h, size, chain[p]) == i
  }

  ghost predicate WellFormed<T>(h: Hashing<T>, slots: Slots<T>) {
    |slots| > 0
    && forall i :: 0 <= i < |slots| ==> InSlot(h, |slots|, i, slots[i]) && Distinct(h, slots[i])
  }

  /** Position of the first datum equal to `d`, or the length of the chain. */
  function Position<T>(h: Hashing<T>, chain: seq<T>, d: T): (p: nat)
    ensures p <= |chain|
    ensures forall q :: 0 <= q < p ==> !h.cmp(chain[q], d)
    ensures p < |chain| ==> h.cmp(chain[p], d)
  {
    if chain == [] || h.cmp(chain[0], d) then 0
    else 1 + Position(h, chain[1..], d)
  }

  function Find<T>(h: Hashing<T>, slots: Slots<T>, d: T): Option<T>
    requires |slots| > 0
  {
    var chain := slots[SlotOf(h, |slots|, d)];
    var p := Position(h, chain, d);
    if p < |chain| then Some(chain[p]) else None
  }

  function Insert<T>(h: Hashing<T>, slots: Slots<T>, d: T, made: T): Slots<T>
    requires |slots| > 0
  {
    var i := SlotOf(h, |slots|, d);
    slots[i := [made] + slots[i]]
  }

  function Remove<T>(h: Hashing<T>, slots: Slots<T>, d: T): Slots<T>
    requires |slots| > 0
  {
    var i := SlotOf(h, |slots|, d);
    var p := Position(h, slots[i], d);
    if p < |slots[i]| then slots[i := RemoveAt(slots[i], p)] else slots
  }

  function Total<T>(slots: Slots<T>): nat {
    if slots == [] then 0 else Total(slots[..|slots| - 1]) + |slots[|slots| - 1]|
  }

  // Facts about one chain.

  lemma PositionUnique<T>(h: Hashing<T>, chain: seq<T>, d: T, p: nat)
    requires p < |chain| && h.cmp(chain[p], d)
    requires forall q :: 0 <= q < p ==> !h.cmp(chain[q], d)
    ensures Position(h, chain, d) == p
  {
  }

  lemma OnlyOneMatch<T(!new)>(h: Hashing<T>, chain: seq<T>, d: T, p: nat, q: nat)
    requires Lawful(h) && Distinct(h, chain)
    requires p < |chain| && q < |chain| && p != q && h.cmp(chain[p], d)
    ensures !h.cmp(chain[q], d)
  {
    var (x, y) := (chain[p], chain[q]);
    assert !h.cmp(x, y);
    assert h.cmp(d, y) <==> h.cmp(y, d);
  }

  /** In a distinct chain whichever datum is equal to `d` is the one found. */
  lemma FoundIsOnly<T(!new)>(h: Hashing<T>, chain: seq<T>, d: T, p: nat)
    requires Lawful(h) && Distinct(h, chain)
    requires p < |chain| && h.cmp(chain[p], d)
    ensures Position(h, chain, d) == p
  {
    forall q | 0 <= q < p
      ensures !h.cmp(chain[q], d)
    {
      OnlyOneMatch(h, chain, d, p, q);
    }
  }

  /** A lookup finds a datum iff it is equal to the one asked for and stored somewhere in the table. */
  lemma FindLaw<T(!new)>(h: Hashing<T>, slots: Slots<T>, d: T, x: T)
    requires Lawful(h) && WellFormed(h, slots)
    ensures Find(h, slots, d) == Some(x) <==>
      h.cmp(x, d) && exists i, p :: 0 <= i < |slots| && 0 <= p < |slots[i]| && slots[i][p] == x
  {
    hide Distinct, Position;
    if h.cmp(x, d) {
      forall i, p | 0 <= i < |slots| && 0 <= p < |slots[i]| && slots[i][p] == x
        ensures Find(h, slots, d) == Some(x)
      {
        assert SlotOf(h, |slots|, slots[i][p]) == i;
        FoundIsOnly(h, slots[i], d, p);
      }
    }
  }

  lemma {:induction false} TotalUpdate<T>(slots: Slots<T>, i: nat, chain: seq<T>)
    requires i < |slots|
    ensures Total(slots[i := chain]) == Total(slots) - |slots[i]| + |chain|
  {
    var n := |slots| - 1;
    var changed := slots[i := chain];
    if i == n {
      assert changed[..n] == slots[..n];
    } else {
      assert changed[..n] == slots[..n][i := chain];
      TotalUpdate(slots[..n], i, chain);
    }
  }

  lemma {:induction false} TotalIsFlattenedLength<T>(slots: Slots<T>)
    ensures |Flatten(slots)| == Total(slots)
  {
    if slots != [] {
      TotalIsFlattenedLength(slots[..|slots| - 1]);
    }
  }

  // The laws of insertion and removal.

  lemma InsertKeepsWellFormed<T(!new)>(h: Hashing<T>, slots: Slots<T>, d: T, made: T)
    requires Lawful(h) && WellFormed(h, slots)
    requires Find(h, slots, d) == None && h.cmp(made, d)
    ensures WellFormed(h, Insert(h, slots, d, made))
    ensures Total(Insert(h, slots, d, made)) == Total(slots) + 1
  {
    var i := SlotOf(h, |slots|, d);
    var chain := slots[i];
    var longer := [made] + chain;
    forall q | 0 <= q < |chain|
      ensures !h.cmp(made, chain[q])
    {
      var x := chain[q];
      assert !h.cmp(x, d);
      assert h.cmp(made, x) <==> h.cmp(x, made);
    }
    TotalUpdate(slots, i, longer);
  }

  lemma InsertLaw<T(!new)>(h: Hashing<T>, slots: Slots<T>, d: T, made: T, e: T)
    requires Lawful(h) && WellFormed(h, slots)
    requires Find(h, slots, d) == None && h.cmp(made, d)
    ensures WellFormed(h, Insert(h, slots, d, made))
    ensures Find(h, Insert(h, slots, d, made), e) == if h.cmp(d, e) then Some(made) else Find(h, slots, e)
    ensures Total(Insert(h, slots, d, made)) == Total(slots) + 1
  {
    InsertKeepsWellFormed(h, slots, d, made);
    ClassMembers(h, made, d, e);
    hide Lawful, Total, WellFormed;
    var chain := slots[SlotOf(h, |slots|, d)];
    var longer := [made] + chain;
    assert longer[1..] == chain;
  }

  /** The new datum is the first of its slot, which is its key modulo the size; all others stay in their order. */
  lemma InsertInFront<T>(h: Hashing<T>, slots: Slots<T>, d: T, made: T)
    requires |slots| > 0
    ensures var (longer, i) := (Insert(h, slots, d, made), h.key(d) % |slots|);
      && |longer| == |slots| && |longer[i]| == |slots[i]| + 1
      && longer[i][0] == made && longer[i][1..] == slots[i]
      && forall j :: 0 <= j < |slots| && j != i ==> longer[j] == slots[j]
  {
  }

  lemma RemoveAtKeepsDistinct<T>(h: Hashing<T>, chain: seq<T>, p: nat)
    requires Distinct(h, chain) && p < |chain|
    ensures Distinct(h, RemoveAt(chain, p))
  {
  }

  /** After removal the class of the removed datum is absent and every other class is where it was. */
  lemma PositionAfterRemoval<T(!new)>(h: Hashing<T>, chain: seq<T>, p: nat, e: T)
    requires Lawful(h) && Distinct(h, chain) && p < |chain|
    ensures var (shorter, q) := (RemoveAt(chain, p), Position(h, chain, e));
      var r := Position(h, shorter, e);
      if h.cmp(chain[p], e) then r == |shorter|
      else (q < |chain| <==> r < |shorter|) && (q < |chain| ==> shorter[r] == chain[q])
  {
    hide Lawful, Distinct, Position, RemoveAt;
    var shorter := RemoveAt(chain, p);
    RemoveIndexed(chain, p);
    var q := Position(h, chain, e);
    if h.cmp(chain[p], e) {
      forall k | 0 <= k < |shorter|
        ensures !h.cmp(shorter[k], e)
      {
        OnlyOneMatch(h, chain, e, p, if k < p then k else k + 1);
      }
    } else if q < |chain| {
      var there := if q < p then q else q - 1;
      assert shorter[there] == chain[q];
      RemoveAtKeepsDistinct(h, chain, p);
      FoundIsOnly(h, shorter, e, there);
    } else {
      assert forall k :: 0 <= k < |shorter| ==> !h.cmp(shorter[k], e);
    }
  }

  lemma ClassMembers<T(!new)>(h: Hashing<T>, x: T, d: T, e: T)
    requires Lawful(h) && h.cmp(x, d)
    ensures h.cmp(x, e) <==> h.cmp(d, e)
    ensures h.cmp(d, e) ==> h.key(d) == h.key(e)
  {
  }

  lemma AbsentClass<T(!new)>(h: Hashing<T>, chain: seq<T>, d: T, e: T)
    requires Lawful(h) && h.cmp(d, e)
    requires Position(h, chain, d) == |chain|
    ensures Position(h, chain, e) == |chain|
  {
    assert forall q :: 0 <= q < |chain| && h.cmp(chain[q], e) ==> h.cmp(chain[q], d);
  }

  lemma RemoveKeepsWellFormed<T(!new)>(h: Hashing<T>, slots: Slots<T>, d: T)
    requires WellFormed(h, slots)
    ensures WellFormed(h, Remove(h, slots, d))
    ensures Total(Remove(h, slots, d)) == Total(slots) - (if Find(h, slots, d).Some? then 1 else 0)
  {
    var i := SlotOf(h, |slots|, d);
    var p := Position(h, slots[i], d);
    if p < |slots[i]| {
      RemoveAtKeepsDistinct(h, slots[i], p);
      TotalUpdate(slots, i, RemoveAt(slots[i], p));
    }
  }

  lemma RemoveLaw<T(!new)>(h: Hashing<T>, slots: Slots<T>, d: T, e: T)
    requires Lawful(h) && WellFormed(h, slots)
    ensures WellFormed(h, Remove(h, slots, d))
    ensures Find(h, Remove(h, slots, d), e) == if h.cmp(d, e) then None else Find(h, slots, e)
    ensures Total(Remove(h, slots, d)) == Total(slots) - (if Find(h, slots, d).Some? then 1 else 0)
  {
    RemoveKeepsWellFormed(h, slots, d);
    hide Lawful, Total, RemoveAt;
    var i := SlotOf(h, |slots|, d);
    var chain := slots[i];
    var p := Position(h, chain, d);
    if p < |chain| {
      PositionAfterRemoval(h, chain, p, e);
      ClassMembers(h, chain[p], d, e);
    } else if h.cmp(d, e) {
      SameClassSameSlot(h, d, e);
      AbsentClass(h, chain, d, e);
    }
  }

  lemma SameClassSameSlot<T(!new)>(h: Hashing<T>, d: T, e: T)
    requires Lawful(h) && h.cmp(d, e)
    ensures h.key(d) == h.key(e)
  {
  }

  // Runs of operations.

  /**
   A call of the table.  A get carries what its allocator would return: nothing when there is no
   allocator (a lookup) or when the allocator returns null.
   */
  datatype Op<T> = Get(d: T, made: Option<T>) | Release(d: T)

  /** An allocator returns nothing or a datum equal to its argument. */
  ghost predicate Honest<T>(h: Hashing<T>, op: Op<T>) {
    op.Get? && op.made.Some? ==> h.cmp(op.made.value, op.d)
  }

  function Apply<T>(h: Hashing<T>, slots: Slots<T>, op: Op<T>): (r: (Slots<T>, Option<T>))
    requires |slots| > 0
    ensures |r.0| == |slots|
  {
    var found := Find(h, slots, op.d);
    match op
    case Get(d, made) =>
      if found.Some? then (slots, found)
      else if made.Some? then (Insert(h, slots, d, made.value), made)
      else (slots, None)
    case Release(d) => (Remove(h, slots, d), found)
  }

  /** The specification: a cell for one class holds a datum or nothing. */
  function CellApply<T>(cell: Option<T>, op: Op<T>): (Option<T>, Option<T>) {
    match op
    case Get(_, made) => if cell.Some? then (cell, cell) else (made, made)
    case Release(_) => (None, cell)
  }

  /** One call moves the cell of its own class as specified and leaves every other cell alone. */
  lemma ApplyMovesOneCell<T(!new)>(h: Hashing<T>, slots: Slots<T>, op: Op<T>, e: T)
    requires Lawful(h) && |slots| > 0 && WellFormed(h, slots) && Honest(h, op)
    ensures WellFormed(h, Apply(h, slots, op).0)
    ensures Apply(h, slots, op).1 == CellApply(Find(h, slots, op.d), op).1
    ensures Find(h, Apply(h, slots, op).0, e)
         == if h.cmp(op.d, e) then CellApply(Find(h, slots, e), op).0 else Find(h, slots, e)
  {
    hide Find, Insert, Remove, WellFormed;
    SameClassSameFind(h, slots, op.d, e);
    match op
    case Get(d, made) =>
      if Find(h, slots, d) == None && made.Some? {
        InsertLaw(h, slots, d, made.value, e);
      }
    case Release(d) =>
      RemoveLaw(h, slots, d, e);
  }

  lemma SameClassSameFind<T(!new)>(h: Hashing<T>, slots: Slots<T>, d: T, e: T)
    requires Lawful(h) && WellFormed(h, slots)
    ensures h.cmp(d, e) ==> Find(h, slots, d) == Find(h, slots, e)
  {
    if h.cmp(d, e) {
      var chain := slots[SlotOf(h, |slots|, d)];
      assert forall p :: 0 <= p < |chain| ==> (h.cmp(chain[p], d) <==> h.cmp(chain[p], e));
      var p := Position(h, chain, d);
      if p < |chain| {
        PositionUnique(h, chain, e, p);
      }
    }
  }

  function Run<T>(h: Hashing<T>, slots: Slots<T>, ops: seq<Op<T>>): (r: (Slots<T>, seq<Option<T>>))
    requires |slots| > 0
    ensures |r.0| == |slots| && |r.1| == |ops|
  {
    if ops == [] then (slots, [])
    else
      var n := |ops| - 1;
      var (before, results) := Run(h, slots, ops[..n]);
      var (after, result) := Apply(h, before, ops[n]);
      (after, results + [result])
  }

  /** The history of the cell of `e`'s class: calls for other classes do not reach it. */
  function CellRun<T>(h: Hashing<T>, e: T, cell: Option<T>, ops: seq<Op<T>>): Option<T> {
    if ops == [] then cell
    else
      var n := |ops| - 1;
      var before := CellRun(h, e, cell, ops[..n]);
      if h.cmp(ops[n].d, e) then CellApply(before, ops[n]).0 else before
  }

  /**
   Any run of calls on a well-formed table: the table stays well formed, every lookup afterwards
   gives what the run of that class's cell gives, and every call returned what its cell returned.
   */
  lemma {:induction false} RunIsCells<T(!new)>(h: Hashing<T>, slots: Slots<T>, ops: seq<Op<T>>, e: T)
    requires Lawful(h) && |slots| > 0 && WellFormed(h, slots)
    requires forall k :: 0 <= k < |ops| ==> Honest(h, ops[k])
    ensures WellFormed(h, Run(h, slots, ops).0)
    ensures Find(h, Run(h, slots, ops).0, e) == CellRun(h, e, Find(h, slots, e), ops)
    ensures forall k :: 0 <= k < |ops| ==>
      Run(h, slots, ops).1[k] == CellApply(CellRun(h, ops[k].d, Find(h, slots, ops[k].d), ops[..k]), ops[k]).1
  {
    hide Find, Apply, WellFormed, Honest, CellApply;
    if ops != [] {
      var n := |ops| - 1;
      RunIsCells(h, slots, ops[..n], e);
      RunIsCells(h, slots, ops[..n], ops[n].d);
      ApplyMovesOneCell(h, Run(h, slots, ops[..n]).0, ops[n], e);
      forall k | 0 <= k < n
        ensures ops[..n][..k] == ops[..k]
      {
      }
    }
  }

  /** The calls of one class. */
  function OfClass<T>(h: Hashing<T>, e: T, ops: seq<Op<T>>): seq<Op<T>> {
    if ops == [] then []
    else
      var n := |ops| - 1;
      OfClass(h, e, ops[..n]) + (if h.cmp(ops[n].d, e) then [ops[n]] else [])
  }

  lemma {:induction false} CellRunOfClass<T>(h: Hashing<T>, e: T, cell: Option<T>, ops: seq<Op<T>>)
    ensures CellRun(h, e, cell, ops) == CellRun(h, e, cell, OfClass(h, e, ops))
  {
    if ops != [] {
      var n := |ops| - 1;
      CellRunOfClass(h, e, cell, ops[..n]);
      var rest := OfClass(h, e, ops[..n]);
      if h.cmp(ops[n].d, e) {
        assert (rest + [ops[n]])[..|rest|] == rest;
      } else {
        assert rest + [] == rest;
      }
    }
  }

  /** Collisions never show: a run and its calls of one class leave that class in the same state. */
  lemma OtherClassesDoNotMatter<T(!new)>(h: Hashing<T>, slots: Slots<T>, ops: seq<Op<T>>, e: T)
    requires Lawful(h) && WellFormed(h, slots)
    requires forall k :: 0 <= k < |ops| ==> Honest(h, ops[k])
    ensures Find(h, Run(h, slots, ops).0, e) == Find(h, Run(h, slots, OfClass(h, e, ops)).0, e)
  {
    RunIsCells(h, slots, ops, e);
    OfClassIsPart(h, e, ops);
    RunIsCells(h, slots, OfClass(h, e, ops), e);
    CellRunOfClass(h, e, Find(h, slots, e), ops);
  }

  lemma {:induction false} OfClassIsPart<T>(h: Hashing<T>, e: T, ops: seq<Op<T>>)
    ensures forall op :: op in OfClass(h, e, ops) ==> op in ops && h.cmp(op.d, e)
  {
    if ops != [] {
      OfClassIsPart(h, e, ops[..|ops| - 1]);
    }
  }
}
