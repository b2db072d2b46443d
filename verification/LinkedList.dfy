/** The doubly linked list on the heap, against the sequence edits of ListModel. */
module LinkedList {
  import opened Options
  import opened Sequences
  import opened Words
  import opened ListModel

  /** A node; its datum is written when it is made, its links change. */
  class Node<T> {
    var next: Node?<T>
    var prev: Node?<T>
    const data: T

    constructor (data: T)
      ensures this.data == data && next == null && prev == null
    {
      this.data := data;
      next, prev := null, null;
    }
  }

  /** The node at position `p`, null past the end. */
  function At<T>(spine: seq<Node<T>>, p: nat): Node?<T> {
    if p < |spine| then spine[p] else null
  }

  /** The node before position `p`, null at the front. */
  function Before<T>(spine: seq<Node<T>>, p: nat): Node?<T>
    requires p <= |spine|
  {
    if p > 0 then spine[p - 1] else null
  }

  /** Head, tail and both links of every node spell out exactly `spine`. */
  ghost predicate Linked<T>(head: Node?<T>, tail: Node?<T>, spine: seq<Node<T>>)
    reads spine
  {
    && head == At(spine, 0) && tail == Before(spine, |spine|)
    && Injective(spine)
    && (forall p {:trigger spine[p].next} :: 0 <= p < |spine| ==> spine[p].next == At(spine, p + 1))
    && (forall p {:trigger spine[p].prev} :: 0 <= p < |spine| ==> spine[p].prev == Before(spine, p))
  }

  function DataOf<T>(spine: seq<Node<T>>): (s: seq<T>)
    ensures |s| == |spine|
  {
    seq(|spine|, p requires 0 <= p < |spine| => spine[p].data)
  }

  lemma DataOfInsert<T>(spine: seq<Node<T>>, p: nat, n: Node<T>)
    requires p <= |spine|
    ensures DataOf(InsertAt(spine, p, n)) == InsertAt(DataOf(spine), p, n.data)
    ensures |InsertAt(spine, p, n)| == |spine| + 1
  {
  }

  lemma DataOfRemove<T>(spine: seq<Node<T>>, p: nat)
    requires p < |spine|
    ensures DataOf(RemoveAt(spine, p)) == RemoveAt(DataOf(spine), p)
  {
  }

  /** The element counter is an unsigned int. */
  ghost predicate Counts(count: Word, n: nat) {
    count == n % WORD_RANGE
  }

  lemma CountUp(count: Word, n: nat)
    requires Counts(count, n)
    ensures Counts(Words.Add(count, 1), n + 1)
  {
  }

  lemma CountDown(count: Word, n: nat)
    requires n > 0 && Counts(count, n)
    ensures Counts(Words.Sub(count, 1), n - 1)
  {
  }

  // Pointer surgery.  Each method relinks nodes and returns the new ends of the list.

  /** The links of a list into which `node` has been put at position `p`, seen from the old spine. */
  ghost predicate LinkedAround<T>(head: Node?<T>, tail: Node?<T>, spine: seq<Node<T>>, p: nat, node: Node<T>)
    requires p <= |spine|
    reads spine, node
  {
    && (forall q {:trigger spine[q].next} :: 0 <= q < |spine| ==>
          spine[q].next == if q + 1 == p then node else At(spine, q + 1))
    && (forall q {:trigger spine[q].prev} :: 0 <= q < |spine| ==>
          spine[q].prev == if q == p then node else Before(spine, q))
    && node.next == At(spine, p) && node.prev == Before(spine, p)
    && head == (if p == 0 then node else At(spine, 0))
    && tail == (if p == |spine| then node else Before(spine, |spine|))
  }

  lemma InsertedNext<T>(head: Node?<T>, tail: Node?<T>, spine: seq<Node<T>>, p: nat, node: Node<T>, q: nat)
    requires p <= |spine| && LinkedAround(head, tail, spine, p, node) && q < |InsertAt(spine, p, node)|
    ensures InsertAt(spine, p, node)[q].next == At(InsertAt(spine, p, node), q + 1)
  {
    hide InsertAt;
    InsertIndexed(spine, p, node);
    if q < p {
      assert spine[q].next == if q + 1 == p then node else At(spine, q + 1);
    } else if p < q {
      assert spine[q - 1].next == At(spine, q);
    }
  }

  lemma InsertedPrev<T>(head: Node?<T>, tail: Node?<T>, spine: seq<Node<T>>, p: nat, node: Node<T>, q: nat)
    requires p <= |spine| && LinkedAround(head, tail, spine, p, node) && q < |InsertAt(spine, p, node)|
    ensures InsertAt(spine, p, node)[q].prev == Before(InsertAt(spine, p, node), q)
  {
    hide InsertAt;
    InsertIndexed(spine, p, node);
    if q < p {
      assert spine[q].prev == Before(spine, q);
    } else if p < q {
      assert spine[q - 1].prev == if q - 1 == p then node else Before(spine, q - 1);
    }
  }

  lemma AroundIsInserted<T>(head: Node?<T>, tail: Node?<T>, spine: seq<Node<T>>, p: nat, node: Node<T>)
    requires p <= |spine| && Injective(spine) && node !in spine
    requires LinkedAround(head, tail, spine, p, node)
    ensures Linked(head, tail, InsertAt(spine, p, node))
  {
    InsertKeepsInjective(spine, p, node);
    InsertIndexed(spine, p, node);
    hide InsertAt, Injective;
    var longer := InsertAt(spine, p, node);
    assert head == At(longer, 0) && tail == Before(longer, |longer|);
    hide LinkedAround, At, Before;
    forall q | 0 <= q < |longer|
      ensures longer[q].next == At(longer, q + 1) && longer[q].prev == Before(longer, q)
    {
      InsertedNext(head, tail, spine, p, node, q);
      InsertedPrev(head, tail, spine, p, node, q);
    }
  }

  /** `node` after the last node. */
  method LinkLast<T>(head0: Node?<T>, tail0: Node?<T>, ghost spine: seq<Node<T>>, node: Node<T>)
    returns (head: Node?<T>, tail: Node?<T>)
    requires Linked(head0, tail0, spine) && node !in spine && node.next == null && node.prev == null
    modifies node, spine
    ensures Linked(head, tail, InsertAt(spine, |spine|, node)) && tail == node
  {
    head, tail := head0, tail0;
    node.prev := tail;
    if head == null {
      head := node;
    } else {
      tail.next := node;
    }
    tail := node;
    AroundIsInserted(head, tail, spine, |spine|, node);
  }

  /** `node` before the first node. */
  method LinkFirst<T>(head0: Node?<T>, tail0: Node?<T>, ghost spine: seq<Node<T>>, node: Node<T>)
    returns (head: Node?<T>, tail: Node?<T>)
    requires Linked(head0, tail0, spine) && node !in spine && node.next == null && node.prev == null
    modifies node, spine
    ensures Linked(head, tail, InsertAt(spine, 0, node)) && head == node
  {
    head, tail := head0, tail0;
    node.next := head;
    if tail == null {
      tail := node;
    } else {
      head.prev := node;
    }
    head := node;
    AroundIsInserted(head, tail, spine, 0, node);
  }

  /** `node` before the node `n` at position `p`. */
  method LinkBefore<T>(head0: Node?<T>, tail: Node?<T>, ghost spine: seq<Node<T>>, n: Node<T>, node: Node<T>,
                       ghost p: nat)
    returns (head: Node?<T>)
    requires Linked(head0, tail, spine) && node !in spine && node.next == null && node.prev == null
    requires p < |spine| && n == spine[p]
    modifies node, spine
    ensures Linked(head, tail, InsertAt(spine, p, node))
  {
    OnlyAt(spine, p);
    if p > 0 {
      OnlyAt(spine, p - 1);
    }
    hide Injective, InsertAt;
    head := head0;
    node.next := n;
    node.prev := n.prev;
    if n.prev != null {
      n.prev.next := node;
    } else {
      head := node;
    }
    n.prev := node;
    AroundIsInserted(head, tail, spine, p, node);
  }

  /** `node` after the node `pp` at position `p`. */
  method LinkAfter<T>(head: Node?<T>, tail0: Node?<T>, ghost spine: seq<Node<T>>, pp: Node<T>, node: Node<T>,
                      ghost p: nat)
    returns (tail: Node?<T>)
    requires Linked(head, tail0, spine) && node !in spine && node.next == null && node.prev == null
    requires p < |spine| && pp == spine[p]
    modifies node, spine
    ensures Linked(head, tail, InsertAt(spine, p + 1, node))
  {
    OnlyAt(spine, p);
    if p + 1 < |spine| {
      OnlyAt(spine, p + 1);
    }
    hide Injective, InsertAt;
    tail := tail0;
    if pp.next != null {
      pp.next.prev := node;
    } else {
      tail := node;
    }
    node.next := pp.next;
    node.prev := pp;
    pp.next := node;
    AroundIsInserted(head, tail, spine, p + 1, node);
  }

  /** The links of a list that bypasses position `p`, seen from the old spine. */
  ghost predicate LinkedPast<T>(head: Node?<T>, tail: Node?<T>, spine: seq<Node<T>>, p: nat)
    requires p < |spine|
    reads spine
  {
    && (forall q {:trigger spine[q].next} :: 0 <= q < |spine| && q != p ==>
         spine[q].next == At(spine, if q + 1 == p then p + 1 else q + 1))
    && (forall q {:trigger spine[q].prev} :: 0 <= q < |spine| && q != p ==>
         spine[q].prev == Before(spine, if q == p + 1 then p else q))
    && head == At(spine, if p == 0 then 1 else 0)
    && tail == Before(spine, if p + 1 == |spine| then p else |spine|)
  }

  lemma RemovedNext<T>(head: Node?<T>, tail: Node?<T>, spine: seq<Node<T>>, p: nat, q: nat)
    requires p < |spine| && LinkedPast(head, tail, spine, p) && q < |RemoveAt(spine, p)|
    ensures RemoveAt(spine, p)[q].next == At(RemoveAt(spine, p), q + 1)
  {
    hide RemoveAt;
    RemoveIndexed(spine, p);
    if q < p {
      assert spine[q].next == At(spine, if q + 1 == p then p + 1 else q + 1);
    } else {
      assert spine[q + 1].next == At(spine, q + 2);
    }
  }

  lemma RemovedPrev<T>(head: Node?<T>, tail: Node?<T>, spine: seq<Node<T>>, p: nat, q: nat)
    requires p < |spine| && LinkedPast(head, tail, spine, p) && q < |RemoveAt(spine, p)|
    ensures RemoveAt(spine, p)[q].prev == Before(RemoveAt(spine, p), q)
  {
    hide RemoveAt;
    RemoveIndexed(spine, p);
    if q < p {
      assert spine[q].prev == Before(spine, q);
    } else {
      assert spine[q + 1].prev == Before(spine, if q == p then p else q + 1);
    }
  }

  lemma PastIsRemoved<T>(head: Node?<T>, tail: Node?<T>, spine: seq<Node<T>>, p: nat)
    requires p < |spine| && Injective(spine) && LinkedPast(head, tail, spine, p)
    ensures Linked(head, tail, RemoveAt(spine, p))
  {
    RemoveKeepsInjective(spine, p);
    RemoveIndexed(spine, p);
    hide RemoveAt, Injective;
    var shorter := RemoveAt(spine, p);
    forall q | 0 <= q < |shorter|
      ensures shorter[q].next == At(shorter, q + 1) && shorter[q].prev == Before(shorter, q)
    {
      RemovedNext(head, tail, spine, p, q);
      RemovedPrev(head, tail, spine, p, q);
    }
  }

  /** The node at position `p` out of the list; it keeps its own links. */
  method UnlinkNode<T>(head0: Node?<T>, tail0: Node?<T>, ghost spine: seq<Node<T>>, node: Node<T>, ghost p: nat)
    returns (head: Node?<T>, tail: Node?<T>)
    requires Linked(head0, tail0, spine) && p < |spine| && node == spine[p]
    modifies spine
    ensures Linked(head, tail, RemoveAt(spine, p))
  {
    if p > 0 {
      OnlyAt(spine, p - 1);
    }
    if p + 1 < |spine| {
      OnlyAt(spine, p + 1);
    }
    hide Injective, RemoveAt;
    head, tail := head0, tail0;
    if node.prev != null {
      node.prev.next := node.next;
    } else {
      head := node.next;
    }
    if node.next != null {
      node.next.prev := node.prev;
    } else {
      tail := node.prev;
    }
    PastIsRemoved(head, tail, spine, p);
  }

  class List<T(==,!new)> {
    var head: Node?<T>
    var tail: Node?<T>
    var count: Word
    const cmp: Option<Comparison<T>>

    ghost var spine: seq<Node<T>>

    ghost predicate Valid()
      reads this, spine
    {
      Linked(head, tail, spine) && Counts(count, |spine|)
    }

    ghost function Contents(): seq<T>
      reads this`spine
    {
      DataOf(spine)
    }

    constructor (cmp: Option<Comparison<T>>)
      ensures Valid() && spine == [] && this.cmp == cmp
    {
      head, tail, count := null, null, 0;
      this.cmp := cmp;
      spine := [];
    }

    /** A value at the end of the list. */
    method Add(val: T)
      requires Valid()
      modifies this, spine
      ensures Valid() && spine == InsertAt(old(spine), |old(spine)|, tail) && fresh(tail)
      ensures Contents() == old(Contents()) + [val]
      ensures count == |spine| % 0x1_0000_0000
    {
      hide Counts, Words.Add, DataOf, Linked;
      CountUp(count, |spine|);
      var node := new Node(val);
      head, tail := LinkLast(head, tail, spine, node);
      count := Words.Add(count, 1);
      DataOfInsert(spine, |spine|, node);
      spine := InsertAt(spine, |spine|, node);
    }

    /** A value at the front of the list. */
    method AddHead(val: T)
      requires Valid()
      modifies this, spine
      ensures Valid() && spine == InsertAt(old(spine), 0, head) && fresh(head)
      ensures Contents() == [val] + old(Contents())
      ensures count == |spine| % 0x1_0000_0000
    {
      hide Counts, Words.Add, DataOf, Linked;
      CountUp(count, |spine|);
      var node := new Node(val);
      head, tail := LinkFirst(head, tail, spine, node);
      count := Words.Add(count, 1);
      DataOfInsert(spine, 0, node);
      spine := InsertAt(spine, 0, node);
    }

    /** A value before the first greater one; at the end if there is none or no comparison. */
    method AddSort(val: T) returns (ghost p: nat, ghost node: Node<T>)
      requires Valid()
      modifies this, spine
      ensures Valid() && Contents() == SortedInsert(cmp, old(Contents()), val)
      ensures cmp == None ==> Contents() == old(Contents()) + [val]
      ensures p <= |old(spine)| && fresh(node) && spine == InsertAt(old(spine), p, node)
      ensures count == |spine| % 0x1_0000_0000
    {
      NoComparisonAppends(Contents(), val);
      hide Counts, Words.Add, DataOf, Linked, InsertAt, SortedIndex;
      CountUp(count, |spine|);
      var made := new Node(val);
      node, p := made, |spine|;
      var n: Node?<T> := null;
      if cmp.Some? {
        n, p := FirstGreater(cmp.value, val);
      }
      DataOfInsert(spine, p, node);
      if n != null {
        head := LinkBefore(head, tail, spine, n, made, p);
      } else {
        head, tail := LinkLast(head, tail, spine, made);
      }
      count := Words.Add(count, 1);
      spine := InsertAt(spine, p, node);
    }

    /** The loop of sorted insertion. */
    method FirstGreater(cmp: Comparison<T>, val: T) returns (n: Node?<T>, ghost p: nat)
      requires Valid()
      ensures p == SortedIndex(cmp, Contents(), val) && n == At(spine, SortedIndex(cmp, Contents(), val))
    {
      hide Counts;
      n, p := head, 0;
      while n != null
        invariant p <= |spine| && n == At(spine, p)
        invariant forall q :: 0 <= q < p ==> cmp(val, Contents()[q]) >= 0
        decreases |spine| - p
      {
        if cmp(val, n.data) < 0 {
          break;
        }
        n, p := n.next, p + 1;
      }
      SortedIndexUnique(cmp, Contents(), val, p);
    }

    /** A value after the node `pp`, at the front if `pp` is null. */
    method AddAfter(pp: Node?<T>, val: T, ghost p: nat) returns (ghost node: Node<T>)
      requires Valid() && p <= |spine| && pp == Before(spine, p)
      modifies this, spine
      ensures Valid() && Contents() == InsertAt(old(Contents()), p, val)
      ensures fresh(node) && spine == InsertAt(old(spine), p, node)
      ensures count == |spine| % 0x1_0000_0000
    {
      hide Counts, Words.Add, DataOf, Linked, InsertAt;
      CountUp(count, |spine|);
      var nn := new Node(val);
      DataOfInsert(spine, p, nn);
      if pp == null {
        head, tail := LinkFirst(head, tail, spine, nn);
      } else {
        tail := LinkAfter(head, tail, spine, pp, nn, p - 1);
      }
      count := Words.Add(count, 1);
      spine := InsertAt(spine, p, nn);
      node := nn;
    }

    /** Unlinks the given node. */
    method DeleteNode(node: Node<T>, ghost p: nat)
      requires Valid() && p < |spine| && node == spine[p]
      modifies this, spine
      ensures Valid() && spine == RemoveAt(old(spine), p)
      ensures Contents() == RemoveAt(old(Contents()), p)
      ensures count == |spine| % 0x1_0000_0000
    {
      hide Counts, Words.Sub, DataOf, Linked;
      CountDown(count, |spine|);
      head, tail := UnlinkNode(head, tail, spine, node, p);
      count := Words.Sub(count, 1);
      DataOfRemove(spine, p);
      spine := RemoveAt(spine, p);
    }

    /** The first node that holds `data`, null if none does. */
    method Lookup(data: T) returns (node: Node?<T>, ghost p: nat)
      requires Valid()
      ensures p == IndexOf(Contents(), data) && node == At(spine, IndexOf(Contents(), data))
    {
      hide Counts;
      node, p := head, 0;
      while node != null
        invariant p <= |spine| && node == At(spine, p)
        invariant forall q :: 0 <= q < p ==> Contents()[q] != data
        decreases |spine| - p
      {
        if data == node.data {
          IndexOfUnique(Contents(), data, p);
          return;
        }
        node, p := node.next, p + 1;
      }
    }

    /** Unlinks the first node that holds `val`, if any. */
    method Delete(val: T) returns (ghost p: nat)
      requires Valid()
      modifies this, spine
      ensures Valid() && Contents() == RemoveFirst(old(Contents()), val)
      ensures val !in old(Contents()) ==> spine == old(spine) && unchanged(this) && unchanged(old(spine))
      ensures val in old(Contents()) ==>
        && p < |old(spine)| && old(spine)[p].data == val && val !in old(Contents())[..p]
        && spine == RemoveAt(old(spine), p)
      ensures count == |spine| % 0x1_0000_0000
    {
      var node;
      node, p := Lookup(val);
      if node != null {
        DeleteNode(node, p);
      }
    }

    /** Frees every node once, head to tail, passing each datum to the delete callback if there is one. */
    method DeleteAll(hasDel: bool) returns (deleted: seq<T>, ghost gone: seq<Node<T>>)
      requires Valid()
      modifies this
      ensures Valid() && spine == [] && head == null && tail == null && count == 0
      ensures gone == old(spine) && Injective(gone)
      ensures deleted == if hasDel then old(Contents()) else []
    {
      deleted, gone := [], [];
      var node := head;
      while node != null
        invariant |gone| <= |spine| && node == At(spine, |gone|) && gone == spine[..|gone|]
        invariant deleted == if hasDel then DataOf(gone) else []
        decreases |spine| - |gone|
      {
        var next := node.next;
        if hasDel {
          deleted := deleted + [node.data];
        }
        gone := gone + [node];
        node := next;
      }
      head, tail := null, null;
      count := 0;
      spine := [];
    }
  }

  /** A node has one place: lists that share one start alike, with it at the same distance. */
  lemma {:induction false} SharedStart<T(!new)>(a: List<T>, b: List<T>, p: nat, q: nat)
    requires a.Valid() && b.Valid() && p < |a.spine| && q < |b.spine| && a.spine[p] == b.spine[q]
    ensures p == q && a.spine[0] == b.spine[0]
  {
    hide Counts, Injective;
    assert a.spine[p].prev == Before(a.spine, p) && b.spine[q].prev == Before(b.spine, q);
    if p > 0 {
      SharedStart(a, b, p - 1, q - 1);
    }
  }

  lemma {:induction false} SharedOnwards<T(!new)>(a: List<T>, b: List<T>, p: nat)
    requires a.Valid() && b.Valid() && a.spine != [] && b.spine != [] && a.spine[0] == b.spine[0] && p < |a.spine|
    ensures p < |b.spine| && a.spine[p] == b.spine[p]
  {
    hide Counts, Injective;
    if p > 0 {
      SharedOnwards(a, b, p - 1);
      assert a.spine[p - 1].next == At(a.spine, p) && b.spine[p - 1].next == At(b.spine, p);
    }
  }

  /** Two lists that share a node have all their nodes in common, in the same order. */
  lemma SharedNodeOneSpine<T(!new)>(a: List<T>, b: List<T>, n: Node<T>)
    requires a.Valid() && b.Valid() && n in a.spine && n in b.spine
    ensures a.spine == b.spine
  {
    var p :| 0 <= p < |a.spine| && a.spine[p] == n;
    var q :| 0 <= q < |b.spine| && b.spine[q] == n;
    SharedStart(a, b, p, q);
    hide List.Valid;
    SharedOnwards(a, b, |a.spine| - 1);
    SharedOnwards(b, a, |b.spine| - 1);
    forall k | 0 <= k < |a.spine|
      ensures a.spine[k] == b.spine[k]
    {
      SharedOnwards(a, b, k);
    }
  }

  /**
   Appends the data of `m` to `l`.  The walk over `m` ends when `m` is empty or shares no node with
   `l`.  Otherwise both are one spine (SharedNodeOneSpine), for which see SelfAppend.
   */
  method AddList<T(==,!new)>(l: List<T>, m: List<T>)
    requires l.Valid() && m.Valid()
    requires m.spine == [] || forall n :: n in l.spine ==> n !in m.spine
    modifies l, l.spine
    ensures l.Valid() && m.Valid()
    ensures l.Contents() == old(l.Contents()) + old(m.Contents())
    ensures l != m ==> m.spine == old(m.spine)
  {
    ghost var spine, before, p := m.spine, l.Contents(), 0;
    assert spine != [] ==> spine[0] in m.spine;
    var n := m.head;
    while n != null
      invariant l.Valid() && m.Valid() && m.spine == spine
      invariant p <= |spine| && n == At(spine, p)
      invariant spine == [] || (l != m && forall n :: n in l.spine ==> n !in m.spine)
      invariant l.Contents() == before + DataOf(spine)[..p]
      invariant fresh(set n | n in l.spine && n !in old(l.spine))
      decreases |spine| - p
    {
      l.Add(n.data);
      n, p := n.next, p + 1;
    }
    assert DataOf(spine)[..p] == DataOf(spine);
  }

  /** A list after `k` rounds of appending the element at the moving position. */
  function SelfAppended<T>(s: seq<T>, k: nat): (r: seq<T>)
    requires s != []
    ensures |r| == |s| + k
  {
    if k == 0 then s else var t := SelfAppended(s, k - 1); t + [t[k - 1]]
  }

  /** Such a list repeats the original one. */
  lemma {:induction false} SelfAppendedRepeats<T>(s: seq<T>, k: nat, i: nat)
    requires s != [] && i < |s| + k
    ensures SelfAppended(s, k)[i] == s[i % |s|]
  {
    if k > 0 && i < |s| + k - 1 {
      SelfAppendedRepeats(s, k - 1, i);
    } else if k > 0 {
      SelfAppendedRepeats(s, k - 1, k - 1);
      Words.DivMod(k - 1, |s|);
      Words.DigitsUnique((k - 1) / |s| + 1, (k - 1) % |s|, |s|);
      Words.MulSucc((k - 1) / |s|, |s|);
    }
  }

  /**
   The loop of AddList on one non-empty spine, under one header or two, stopped after `steps` rounds:
   whatever their number the cursor has not reached the end, since the list grew by as much as was
   walked.
   */
  method SelfAppend<T(==,!new)>(l: List<T>, m: List<T>, steps: nat) returns (n: Node?<T>)
    requires l.Valid() && m.Valid() && l.spine == m.spine != []
    modifies l, l.spine
    ensures l.Valid() && n != null && n == At(l.spine, steps)
    ensures l.Contents() == SelfAppended(old(l.Contents()), steps)
  {
    n := m.head;
    var k := 0;
    while k < steps && n != null
      invariant l.Valid() && 0 <= k <= steps
      invariant l.Contents() == SelfAppended(old(l.Contents()), k)
      invariant k < |l.spine| && n == At(l.spine, k)
      invariant fresh(set n | n in l.spine && n !in old(l.spine))
    {
      l.Add(n.data);
      assert l.spine[k] == n;
      n, k := n.next, k + 1;
    }
  }
}
