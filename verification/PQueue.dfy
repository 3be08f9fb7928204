/** The indexed binary min-heap of femu/lib/pqueue.c.

    The C code stores `void *` elements and reaches their priority and position
    through callbacks.  Here an element is a number, and the columns `pri` and
    `pos`, which belong to the client, hold what the callbacks read and write.
    Slot 0 is unused; the heap occupies the slots 1 up to but excluding `size`. */
module PQueues {

  /** `next > curr`, the comparison both clients install. */
  predicate CmpPri(next: nat, curr: nat) {
    next > curr
  }

  // ----- Heaps as sequences ---------------------------------------------------

  /** The first n slots of v name distinct elements below k. */
  ghost predicate Slots(v: seq<nat>, n: nat, k: nat) {
    && 1 <= n <= |v|
    && (forall j :: 1 <= j < n ==> v[j] < k)
    && (forall j, l :: 1 <= j < l < n ==> v[j] != v[l])
  }

  ghost function Elems(v: seq<nat>, n: nat): set<nat>
    requires n <= |v|
  {
    set j | 1 <= j < n :: v[j]
  }

  /** No parent ranks above its child. */
  ghost predicate HeapOrdered(v: seq<nat>, pri: seq<nat>, n: nat)
    requires Slots(v, n, |pri|)
  {
    forall j :: 2 <= j < n ==> pri[v[j / 2]] <= pri[v[j]]
  }

  /** Heap order except that v[i] may rank below its parent. */
  ghost predicate UpOrdered(v: seq<nat>, pri: seq<nat>, n: nat, i: nat)
    requires Slots(v, n, |pri|) && 1 <= i < n
  {
    && (forall j :: 2 <= j < n && j != i ==> pri[v[j / 2]] <= pri[v[j]])
    && (forall j :: 2 <= j < n && j / 2 == i && i >= 2 ==> pri[v[i / 2]] <= pri[v[j]])
  }

  /** Heap order except that v[i] may rank above its children. */
  ghost predicate DownOrdered(v: seq<nat>, pri: seq<nat>, n: nat, i: nat)
    requires Slots(v, n, |pri|) && 1 <= i < n
  {
    && (forall j :: 2 <= j < n && j / 2 != i ==> pri[v[j / 2]] <= pri[v[j]])
    && (forall j :: 2 <= j < n && j / 2 == i && i >= 2 ==> pri[v[i / 2]] <= pri[v[j]])
  }

  /** Every slot but i is recorded in its element's back-pointer. */
  ghost predicate Indexed(v: seq<nat>, pos: seq<nat>, n: nat, i: nat)
    requires Slots(v, n, |pos|)
  {
    forall j :: 1 <= j < n && j != i ==> pos[v[j]] == j
  }

  /** Only elements of the heap had their back-pointer written. */
  ghost predicate OnlyMoved(pos: seq<nat>, pos0: seq<nat>, elems: set<nat>) {
    |pos| == |pos0| && forall e :: 0 <= e < |pos| && e !in elems ==> pos[e] == pos0[e]
  }

  ghost function Swap(v: seq<nat>, i: nat, k: nat): seq<nat>
    requires i < |v| && k < |v|
  {
    v[i := v[k]][k := v[i]]
  }

  lemma SwapKeepsElems(v: seq<nat>, n: nat, k: nat, i: nat, l: nat)
    requires Slots(v, n, k) && 1 <= i < n && 1 <= l < n
    ensures Slots(Swap(v, i, l), n, k) && Elems(Swap(v, i, l), n) == Elems(v, n)
  {
    var w := Swap(v, i, l);
    forall e | e in Elems(v, n) ensures e in Elems(w, n) {
      var j :| 1 <= j < n && v[j] == e;
      assert w[if j == i then l else if j == l then i else j] == e;
    }
  }

  lemma UpStep(v: seq<nat>, pri: seq<nat>, n: nat, i: nat)
    requires Slots(v, n, |pri|) && 2 <= i < n
    requires UpOrdered(v, pri, n, i) && CmpPri(pri[v[i / 2]], pri[v[i]])
    requires Slots(Swap(v, i, i / 2), n, |pri|)
    ensures UpOrdered(Swap(v, i, i / 2), pri, n, i / 2)
  {
    var w := Swap(v, i, i / 2);
    forall j | 2 <= j < n && j != i / 2 ensures pri[w[j / 2]] <= pri[w[j]] {
      if j / 2 == i / 2 && j != i { assert pri[v[i / 2]] <= pri[v[j]]; }
    }
    forall j | 2 <= j < n && j / 2 == i / 2 && i / 2 >= 2 ensures pri[w[i / 2 / 2]] <= pri[w[j]] {
      assert pri[v[i / 2 / 2]] <= pri[v[i / 2]];
    }
  }

  lemma DownStep(v: seq<nat>, pri: seq<nat>, n: nat, i: nat, c: nat)
    requires Slots(v, n, |pri|) && 1 <= i < n && 2 <= c < n && c / 2 == i
    requires forall j :: 2 <= j < n && j / 2 == i ==> pri[v[c]] <= pri[v[j]]
    requires DownOrdered(v, pri, n, i) && CmpPri(pri[v[i]], pri[v[c]])
    requires Slots(Swap(v, i, c), n, |pri|)
    ensures DownOrdered(Swap(v, i, c), pri, n, c)
  {
    var w := Swap(v, i, c);
    forall j | 2 <= j < n && j / 2 != c ensures pri[w[j / 2]] <= pri[w[j]] {
    }
    forall j | 2 <= j < n && j / 2 == c ensures pri[w[c / 2]] <= pri[w[j]] {
      assert pri[v[j / 2]] <= pri[v[j]];
    }
  }

  /** The root of a heap is a global minimum. */
  lemma {:induction false} RootIsMinimum(v: seq<nat>, pri: seq<nat>, n: nat, i: nat)
    requires Slots(v, n, |pri|) && HeapOrdered(v, pri, n) && 1 <= i < n
    ensures pri[v[1]] <= pri[v[i]]
  {
    if i >= 2 {
      RootIsMinimum(v, pri, n, i / 2);
    }
  }

  /** `maxchild`: 0 for a leaf, otherwise the child that ranks first. */
  function MaxChild(v: seq<nat>, pri: seq<nat>, n: nat, i: nat): (c: nat)
    requires 1 <= i && n <= |v|
    requires forall j :: 1 <= j < n ==> v[j] < |pri|
    ensures c == 0 <==> 2 * i >= n
    ensures c != 0 ==> c / 2 == i && i < c < n
    ensures forall j :: c != 0 && 2 <= j < n && j / 2 == i ==> pri[v[c]] <= pri[v[j]]
  {
    var child := 2 * i;
    if child >= n then 0
    else if child + 1 < n && CmpPri(pri[v[child]], pri[v[child + 1]]) then child + 1
    else child
  }

  /** State of a sift: d has a hole at i where the heap v holds the moving element. */
  ghost predicate Sifting(d: seq<nat>, pos: seq<nat>, d0: seq<nat>, pos0: seq<nat>, v: seq<nat>, n: nat, i: nat) {
    && Slots(v, n, |pos|) && 1 <= i < n && n <= |d0|
    && |d| == |v| && d[i] < |pos| && (forall j :: 0 <= j < |v| && j != i ==> d[j] == v[j])
    && Indexed(v, pos, n, i)
    && Elems(v, n) == Elems(d0, n)
    && OnlyMoved(pos, pos0, Elems(d0, n))
  }

  lemma SiftStep(d: seq<nat>, pos: seq<nat>, d0: seq<nat>, pos0: seq<nat>, v: seq<nat>, n: nat, i: nat, k: nat)
    requires Sifting(d, pos, d0, pos0, v, n, i) && 1 <= k < n && k != i
    ensures d[k] == v[k] < |pos|
    ensures Sifting(d[i := d[k]], pos[d[k] := i], d0, pos0, Swap(v, i, k), n, k)
  {
    SwapKeepsElems(v, n, |pos|, i, k);
    assert v[k] in Elems(v, n);
  }

  lemma SiftStart(d: seq<nat>, pos: seq<nat>, n: nat, i: nat)
    requires Slots(d, n, |pos|) && 1 <= i < n && Indexed(d, pos, n, i)
    ensures Sifting(d, pos, d, pos, d, n, i)
  {
  }

  /** One round of the sift-up loop. */
  lemma SiftUp(d: seq<nat>, pos: seq<nat>, d0: seq<nat>, pos0: seq<nat>, v: seq<nat>, pri: seq<nat>, n: nat, i: nat)
    requires Sifting(d, pos, d0, pos0, v, n, i) && |pri| == |pos| && 2 <= i
    requires UpOrdered(v, pri, n, i) && CmpPri(pri[v[i / 2]], pri[v[i]])
    ensures d[i / 2] == v[i / 2] < |pos|
    ensures Sifting(d[i := d[i / 2]], pos[d[i / 2] := i], d0, pos0, Swap(v, i, i / 2), n, i / 2)
    ensures UpOrdered(Swap(v, i, i / 2), pri, n, i / 2) && Swap(v, i, i / 2)[i / 2] == v[i]
  {
    hide UpOrdered, Indexed, Elems, OnlyMoved;
    SwapKeepsElems(v, n, |pri|, i, i / 2);
    UpStep(v, pri, n, i);
    SiftStep(d, pos, d0, pos0, v, n, i, i / 2);
  }

  /** At the root, or below a parent of no lower rank, the element may stay. */
  lemma UpDone(v: seq<nat>, pri: seq<nat>, n: nat, i: nat)
    requires Slots(v, n, |pri|) && 1 <= i < n && UpOrdered(v, pri, n, i)
    requires i > 1 ==> !CmpPri(pri[v[i / 2]], pri[v[i]])
    ensures HeapOrdered(v, pri, n)
  {
  }

  /** One round of the sift-down loop. */
  lemma SiftDown(d: seq<nat>, pos: seq<nat>, d0: seq<nat>, pos0: seq<nat>, v: seq<nat>, pri: seq<nat>, n: nat, i: nat, c: nat)
    requires Sifting(d, pos, d0, pos0, v, n, i) && |pri| == |pos| && 2 <= c < n && c / 2 == i
    requires forall j :: 2 <= j < n && j / 2 == i ==> pri[v[c]] <= pri[v[j]]
    requires DownOrdered(v, pri, n, i) && CmpPri(pri[v[i]], pri[v[c]])
    ensures d[c] < |pos| && Sifting(d[i := d[c]], pos[d[c] := i], d0, pos0, Swap(v, i, c), n, c)
    ensures DownOrdered(Swap(v, i, c), pri, n, c) && Swap(v, i, c)[c] == v[i]
  {
    hide DownOrdered, Indexed, Elems, OnlyMoved;
    SwapKeepsElems(v, n, |pri|, i, c);
    DownStep(v, pri, n, i, c);
    SiftStep(d, pos, d0, pos0, v, n, i, c);
  }

  /** At a leaf, or above children of no higher rank, the element may stay. */
  lemma DownDone(v: seq<nat>, pri: seq<nat>, n: nat, i: nat, c: nat)
    requires Slots(v, n, |pri|) && 1 <= i < n && DownOrdered(v, pri, n, i)
    requires c == MaxChild(v, pri, n, i) && (c != 0 ==> !CmpPri(pri[v[i]], pri[v[c]]))
    ensures HeapOrdered(v, pri, n)
  {
  }

  lemma SiftEnd(d: seq<nat>, pos: seq<nat>, d0: seq<nat>, pos0: seq<nat>, v: seq<nat>, n: nat, i: nat)
    requires Sifting(d, pos, d0, pos0, v, n, i)
    ensures v[i] < |pos| && d[i := v[i]] == v
    ensures Indexed(v, pos[v[i] := i], n, 0) && OnlyMoved(pos[v[i] := i], pos0, Elems(d0, n))
  {
    assert v[i] in Elems(v, n);
  }

  lemma HoleKeepsChildren(d: seq<nat>, v: seq<nat>, pri: seq<nat>, n: nat, i: nat)
    requires Slots(v, n, |pri|) && 1 <= i < n && |d| == |v| && d[i] < |pri|
    requires forall j :: 0 <= j < |v| && j != i ==> d[j] == v[j]
    ensures forall j :: 1 <= j < n ==> d[j] < |pri|
    ensures MaxChild(d, pri, n, i) == MaxChild(v, pri, n, i)
  {
  }

  // ----- pqueue_is_valid --------------------------------------------------------

  /** `subtree_is_valid`: the recursive check below position i. */
  predicate SubtreeIsValid(v: seq<nat>, pri: seq<nat>, n: nat, i: nat)
    requires Slots(v, n, |pri|) && 1 <= i
    requires i < n || n == 1
    decreases n - i
  {
    (2 * i < n ==> !CmpPri(pri[v[i]], pri[v[2 * i]]) && SubtreeIsValid(v, pri, n, 2 * i))
    && (2 * i + 1 < n ==> !CmpPri(pri[v[i]], pri[v[2 * i + 1]]) && SubtreeIsValid(v, pri, n, 2 * i + 1))
  }

  /** A passed check at the root covers every position, parents first. */
  lemma {:induction false} RootCheckCovers(v: seq<nat>, pri: seq<nat>, n: nat, j: nat)
    requires Slots(v, n, |pri|) && 1 <= j < n
    requires SubtreeIsValid(v, pri, n, 1)
    ensures SubtreeIsValid(v, pri, n, j)
    ensures j >= 2 ==> pri[v[j / 2]] <= pri[v[j]]
  {
    if j >= 2 {
      RootCheckCovers(v, pri, n, j / 2);
      assert j == 2 * (j / 2) || j == 2 * (j / 2) + 1;
    }
  }

  lemma {:induction false} OrderedPassesCheck(v: seq<nat>, pri: seq<nat>, n: nat, i: nat)
    requires Slots(v, n, |pri|) && 1 <= i < n
    requires HeapOrdered(v, pri, n)
    ensures SubtreeIsValid(v, pri, n, i)
    decreases n - i
  {
    if 2 * i < n {
      OrderedPassesCheck(v, pri, n, 2 * i);
      assert pri[v[2 * i / 2]] <= pri[v[2 * i]];
    }
    if 2 * i + 1 < n {
      OrderedPassesCheck(v, pri, n, 2 * i + 1);
      assert pri[v[(2 * i + 1) / 2]] <= pri[v[2 * i + 1]];
    }
  }

  /** `pqueue_is_valid` answers 1 exactly on heap-ordered arrays. */
  lemma IsValidIffHeapOrdered(v: seq<nat>, pri: seq<nat>, n: nat)
    requires Slots(v, n, |pri|)
    ensures SubtreeIsValid(v, pri, n, 1) <==> HeapOrdered(v, pri, n)
  {
    if n > 1 {
      if HeapOrdered(v, pri, n) {
        OrderedPassesCheck(v, pri, n, 1);
      }
      if SubtreeIsValid(v, pri, n, 1) {
        forall j | 2 <= j < n ensures pri[v[j / 2]] <= pri[v[j]] {
          RootCheckCovers(v, pri, n, j);
        }
      }
    }
  }

  // ----- What one insertion, removal or priority change does to the slots -------

  lemma PrefixDecides(v: seq<nat>, w: seq<nat>, pri: seq<nat>, pos: seq<nat>, n: nat)
    requires Slots(v, n, |pri|) && |pri| == |pos| && n <= |w|
    requires forall j :: 1 <= j < n ==> w[j] == v[j]
    ensures Slots(w, n, |pri|) && Elems(w, n) == Elems(v, n)
    ensures HeapOrdered(v, pri, n) ==> HeapOrdered(w, pri, n)
    ensures Indexed(v, pos, n, 0) ==> Indexed(w, pos, n, 0)
  {
  }

  lemma InsertLast(v: seq<nat>, pri: seq<nat>, pos: seq<nat>, n: nat, e: nat)
    requires Slots(v, n, |pri|) && Slots(v, n, |pos|) && HeapOrdered(v, pri, n) && Indexed(v, pos, n, 0)
    requires n < |v| && e < |pri| == |pos| && e !in Elems(v, n)
    ensures Slots(v[n := e], n + 1, |pri|) && Indexed(v[n := e], pos, n + 1, n)
    ensures UpOrdered(v[n := e], pri, n + 1, n)
    ensures Elems(v[n := e], n + 1) == Elems(v, n) + {e}
  {
    var w := v[n := e];
    assert forall j :: 1 <= j < n ==> v[j] in Elems(v, n);
    assert w[n] in Elems(w, n + 1);
    forall x | x in Elems(v, n) ensures x in Elems(w, n + 1) {
      var j :| 1 <= j < n && v[j] == x;
      assert w[j] == x;
    }
  }

  /** The back-pointer finds the element. */
  lemma PositionOf(v: seq<nat>, pos: seq<nat>, n: nat, e: nat)
    requires Slots(v, n, |pos|) && Indexed(v, pos, n, 0) && e in Elems(v, n)
    ensures e < |pos| && 1 <= pos[e] < n && v[pos[e]] == e
  {
    var i :| 1 <= i < n && v[i] == e;
    assert pos[v[i]] == i;
  }

  lemma PriorityChanged(v: seq<nat>, pri: seq<nat>, pos: seq<nat>, n: nat, e: nat, newPri: nat)
    requires Slots(v, n, |pri|) && |pri| == |pos| && HeapOrdered(v, pri, n) && Indexed(v, pos, n, 0)
    requires e in Elems(v, n)
    ensures e < |pri| && 1 <= pos[e] < n && v[pos[e]] == e
    ensures newPri < pri[e] ==> UpOrdered(v, pri[e := newPri], n, pos[e])
    ensures newPri >= pri[e] ==> DownOrdered(v, pri[e := newPri], n, pos[e])
  {
    PositionOf(v, pos, n, e);
    var i := pos[e];
    forall j | 2 <= j < n && j / 2 == i && i >= 2 ensures pri[v[i / 2]] <= pri[v[j]] {
      assert pri[v[i / 2]] <= pri[v[i]] <= pri[v[j]];
    }
  }

  lemma LastReplacesElems(v: seq<nat>, k: nat, n: nat, i: nat)
    requires Slots(v, n, k) && 1 <= i < n
    ensures var w := v[i := v[n - 1]]; Slots(w, n - 1, k) && Elems(w, n - 1) == Elems(v, n) - {v[i]}
  {
    var w := v[i := v[n - 1]];
    forall x | x in Elems(v, n) - {v[i]} ensures x in Elems(w, n - 1) {
      var j :| 1 <= j < n && v[j] == x;
      assert w[if j == n - 1 then i else j] == x;
    }
  }

  lemma LastReplacesOrder(v: seq<nat>, pri: seq<nat>, n: nat, i: nat)
    requires Slots(v, n, |pri|) && HeapOrdered(v, pri, n) && 1 <= i < n
    requires Slots(v[i := v[n - 1]], n - 1, |pri|)
    ensures var w := v[i := v[n - 1]];
            && (i == n - 1 ==> HeapOrdered(w, pri, n - 1))
            && (i < n - 1 && CmpPri(pri[v[i]], pri[w[i]]) ==> UpOrdered(w, pri, n - 1, i))
            && (i < n - 1 && !CmpPri(pri[v[i]], pri[w[i]]) ==> DownOrdered(w, pri, n - 1, i))
  {
    forall j | 2 <= j < n && j / 2 == i && i >= 2 ensures pri[v[i / 2]] <= pri[v[j]] {
      assert pri[v[i / 2]] <= pri[v[i]] <= pri[v[j]];
    }
  }

  lemma LastReplaces(v: seq<nat>, pri: seq<nat>, pos: seq<nat>, n: nat, i: nat)
    requires Slots(v, n, |pri|) && |pri| == |pos| && HeapOrdered(v, pri, n) && Indexed(v, pos, n, 0)
    requires 1 <= i < n
    ensures var w := v[i := v[n - 1]];
            && Slots(w, n - 1, |pri|) && Elems(w, n - 1) == Elems(v, n) - {v[i]}
            && Indexed(w, pos, n - 1, i)
            && (i == n - 1 ==> Indexed(w, pos, n - 1, 0) && HeapOrdered(w, pri, n - 1))
            && (i < n - 1 && CmpPri(pri[v[i]], pri[w[i]]) ==> UpOrdered(w, pri, n - 1, i))
            && (i < n - 1 && !CmpPri(pri[v[i]], pri[w[i]]) ==> DownOrdered(w, pri, n - 1, i))
  {
    hide Elems, HeapOrdered, UpOrdered, DownOrdered, CmpPri;
    LastReplacesElems(v, |pri|, n, i);
    LastReplacesOrder(v, pri, n, i);
  }

  // ----- The queue in memory ----------------------------------------------------

  class PQueue {
    var d: array<nat>      // heap slots
    var size: nat          // first unused slot
    const step: nat        // growth step
    const pri: array<nat>  // what getpri and setpri reach
    const pos: array<nat>  // what getpos and setpos reach

    ghost predicate Shape()
      reads this, d
    {
      && d != pri && d != pos && pri != pos
      && 1 <= step && pri.Length == pos.Length
      && Slots(d[..], size, pri.Length)
    }

    ghost predicate Valid()
      reads this, d, pri, pos
    {
      Shape() && Indexed(d[..], pos[..], size, 0) && HeapOrdered(d[..], pri[..], size)
    }

    ghost function Elements(): set<nat>
      requires size <= d.Length
      reads this, d
    {
      Elems(d[..], size)
    }

    constructor (n: nat, pri: array<nat>, pos: array<nat>)
      requires pri.Length == pos.Length && pri != pos
      ensures Valid() && Elements() == {} && fresh(d)
      ensures this.pri == pri && this.pos == pos && size == 1
    {
      this.d := new nat[n + 1];
      this.size := 1;
      this.step := n + 1;
      this.pri := pri;
      this.pos := pos;
    }

    /** `bubble_up`: moves a hole towards the root until d[i0] fits into it. */
    method BubbleUp(i0: nat)
      requires Shape() && 1 <= i0 < size
      requires Indexed(d[..], pos[..], size, i0) && UpOrdered(d[..], pri[..], size, i0)
      modifies d, pos
      ensures Valid() && Elements() == old(Elements())
      ensures OnlyMoved(pos[..], old(pos[..]), Elements())
    {
      hide UpOrdered, HeapOrdered, Indexed, Elems, Swap;
      var i := i0;
      var moving := d[i];
      var movingPri := pri[moving];
      var parent := i / 2;
      ghost var v := d[..];  // the heap with the moving element in the hole
      SiftStart(d[..], pos[..], size, i);
      while i > 1 && CmpPri(pri[d[parent]], movingPri)
        invariant 1 <= i < size && parent == i / 2
        invariant Sifting(d[..], pos[..], old(d[..]), old(pos[..]), v, size, i)
        invariant v[i] == moving && UpOrdered(v, pri[..], size, i)
      {
        SiftUp(d[..], pos[..], old(d[..]), old(pos[..]), v, pri[..], size, i);
        v := Swap(v, i, parent);
        MoveUp(i, parent);
        i := parent;
        parent := i / 2;
      }
      SiftEnd(d[..], pos[..], old(d[..]), old(pos[..]), v, size, i);
      UpDone(v, pri[..], size, i);
      d[i] := moving;
      pos[moving] := i;
      assert d[..] == v;
    }

    /** `percolate_down`: moves a hole towards the leaves until d[i0] fits into it. */
    method PercolateDown(i0: nat)
      requires Shape() && 1 <= i0 < size
      requires Indexed(d[..], pos[..], size, i0) && DownOrdered(d[..], pri[..], size, i0)
      modifies d, pos
      ensures Valid() && Elements() == old(Elements())
      ensures OnlyMoved(pos[..], old(pos[..]), Elements())
    {
      hide DownOrdered, HeapOrdered, Indexed, Elems, Swap, MaxChild;
      var i := i0;
      var moving := d[i];
      var movingPri := pri[moving];
      ghost var v := d[..];
      SiftStart(d[..], pos[..], size, i);
      var child := MaxChild(d[..], pri[..], size, i);
      while child != 0 && CmpPri(movingPri, pri[d[child]])
        invariant 1 <= i < size
        invariant Sifting(d[..], pos[..], old(d[..]), old(pos[..]), v, size, i)
        invariant child == MaxChild(v, pri[..], size, i)
        invariant v[i] == moving && DownOrdered(v, pri[..], size, i)
        decreases size - i
      {
        SiftDown(d[..], pos[..], old(d[..]), old(pos[..]), v, pri[..], size, i, child);
        v := Swap(v, i, child);
        MoveUp(i, child);
        i := child;
        HoleKeepsChildren(d[..], v, pri[..], size, i);
        child := MaxChild(d[..], pri[..], size, i);
      }
      SiftEnd(d[..], pos[..], old(d[..]), old(pos[..]), v, size, i);
      DownDone(v, pri[..], size, i, child);
      d[i] := moving;
      pos[moving] := i;
      assert d[..] == v;
    }

    /** The loop body both sifts share: fill slot i from slot k. */
    method MoveUp(i: nat, k: nat)
      requires i < d.Length && k < d.Length && d[k] < pos.Length && d != pos
      modifies d, pos
      ensures d[..] == old(d[..])[i := old(d[k])]
      ensures pos[..] == old(pos[..])[old(d[k]) := i]
    {
      d[i] := d[k];
      pos[d[i]] := i;
    }

    /** `pqueue_insert`, growing the slot array by `step` when it is full. */
    method Insert(e: nat)
      requires Valid() && e < pos.Length && e !in Elements()
      modifies this`d, this`size, d, pos
      ensures Valid() && Elements() == old(Elements()) + {e} && size == old(size) + 1
      ensures d == old(d) || fresh(d)
      ensures OnlyMoved(pos[..], old(pos[..]), Elements())
    {
      if size >= d.Length {
        Grow();
      }
      InsertLast(d[..], pri[..], pos[..], size, e);
      d[size] := e;
      size := size + 1;
      BubbleUp(size - 1);
    }

    /** The `realloc` of pqueue_insert. */
    method Grow()
      requires Valid() && size == d.Length
      modifies this`d
      ensures Valid() && fresh(d) && d.Length == size + step
      ensures Elements() == old(Elements())
    {
      var tmp := new nat[size + step];
      for k := 0 to size
        invariant d == old(d)
        invariant forall j :: 0 <= j < k ==> tmp[j] == d[j]
      {
        tmp[k] := d[k];
      }
      PrefixDecides(d[..], tmp[..], pri[..], pos[..], size);
      d := tmp;
    }

    /** `pqueue_change_priority`. */
    method ChangePriority(newPri: nat, e: nat)
      requires Valid() && e in Elements()
      modifies d, pos, pri
      ensures Valid() && Elements() == old(Elements())
      ensures e < pri.Length && pri[..] == old(pri[..])[e := newPri]
      ensures OnlyMoved(pos[..], old(pos[..]), Elements())
    {
      PriorityChanged(d[..], pri[..], pos[..], size, e, newPri);
      var oldPri := pri[e];
      pri[e] := newPri;
      var i := pos[e];
      if CmpPri(oldPri, newPri) {
        BubbleUp(i);
      } else {
        PercolateDown(i);
      }
    }

    /** `pqueue_remove`: the last element takes the place of the one removed. */
    method Remove(e: nat)
      requires Valid() && e in Elements()
      modifies this`size, d, pos
      ensures Valid() && Elements() == old(Elements()) - {e} && size == old(size) - 1
      ensures OnlyMoved(pos[..], old(pos[..]), old(Elements()))
    {
      PositionOf(d[..], pos[..], size, e);
      var i := pos[e];
      LastReplaces(d[..], pri[..], pos[..], size, i);
      ghost var w := d[..][i := d[size - 1]];
      size := size - 1;
      d[i] := d[size];
      assert d[..] == w;
      if i == size {
        pos[e] := i;  // no child below the last slot: the sift writes the element back
      } else if CmpPri(pri[e], pri[d[i]]) {
        BubbleUp(i);
      } else {
        PercolateDown(i);
      }
    }

    /** `pqueue_peek`: an element of least priority, if there is one. */
    method Peek() returns (found: bool, e: nat)
      requires Valid()
      ensures found <==> Elements() != {}
      ensures found ==> e == d[1] && e in Elements() && e < pri.Length
      ensures found ==> forall x :: x in Elements() ==> x < pri.Length && pri[e] <= pri[x]
    {
      if size == 1 {
        return false, 0;
      }
      found, e := true, d[1];
      assert d[..][1] in Elements();
      forall x | x in Elements() ensures x < pri.Length && pri[e] <= pri[x] {
        var k :| 1 <= k < size && d[..][k] == x;
        RootIsMinimum(d[..], pri[..], size, k);
      }
    }

    /** `pqueue_pop`: takes out an element of least priority, if there is one. */
    method Pop() returns (found: bool, e: nat)
      requires Valid()
      modifies this`size, d, pos
      ensures Valid() && (found <==> old(Elements()) != {})
      ensures !found ==> Elements() == {} && pos[..] == old(pos[..])
      ensures d == old(d) && (found ==> e == old(d[1]) && size == old(size) - 1)
      ensures found ==> e in old(Elements()) && Elements() == old(Elements()) - {e}
      ensures found ==> forall x :: x in old(Elements()) ==> x < pri.Length && e < pri.Length && pri[e] <= pri[x]
      ensures OnlyMoved(pos[..], old(pos[..]), old(Elements()))
    {
      found, e := Peek();
      if !found {
        return;
      }
      LastReplaces(d[..], pri[..], pos[..], size, 1);
      size := size - 1;
      d[1] := d[size];
      if size == 1 {
        pos[d[1]] := 1;  // the sift of an empty heap writes the element back
      } else {
        PercolateDown(1);
      }
    }
  }
}
