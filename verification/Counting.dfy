/**
 * Reference counts of an object graph: who holds references to whom, when the counts agree with that, and which
 * sets of objects support themselves.
 */
module Counting {

  /** An object's address; 0 is NULL. */
  type Ref = nat

  type Refs = multiset<Ref>

  /** The references that each holder (an object, or a thread) accounts for. */
  type Holdings = map<nat, Refs>

  // ---------------------------------------------------------------------------
  // Sums of holdings
  // ---------------------------------------------------------------------------

  /** All references held by anyone. */
  ghost function Total(m: Holdings): Refs {
    if m == map[] then multiset{} else
      var k :| k in m;
      m[k] + Total(m - {k})
  }

  lemma {:induction false} TotalWithout(m: Holdings, k: nat)
    requires k in m
    ensures Total(m) == m[k] + Total(m - {k})
    decreases |m|
  {
    var j :| j in m && Total(m) == m[j] + Total(m - {j});
    if j != k {
      TotalWithout(m - {j}, k);
      TotalWithout(m - {k}, j);
      assert m - {j} - {k} == m - {k} - {j};
    }
  }

  lemma Cancel(a: Refs, b: Refs, c: Refs)
    requires a + c == b + c
    ensures a == b
  {
    forall o ensures a[o] == b[o] {
      assert (a + c)[o] == (b + c)[o];
    }
  }

  lemma TotalUpdate(m: Holdings, k: nat, v: Refs)
    requires k in m
    ensures Total(m[k := v]) + m[k] == Total(m) + v
  {
    TotalWithout(m, k);
    TotalWithout(m[k := v], k);
    assert m[k := v] - {k} == m - {k};
  }

  lemma TotalGains(m: Holdings, k: nat, c: Ref)
    requires k in m
    ensures Total(m[k := m[k] + multiset{c}]) == Total(m) + multiset{c}
  {
    var x := m[k];
    TotalUpdate(m, k, x + multiset{c});
    assert Total(m) + (x + multiset{c}) == Total(m) + multiset{c} + x;
    Cancel(Total(m[k := x + multiset{c}]), Total(m) + multiset{c}, x);
  }

  lemma TotalLoses(m: Holdings, k: nat, c: Ref)
    requires k in m && c in m[k]
    ensures Total(m[k := m[k] - multiset{c}]) + multiset{c} == Total(m)
  {
    var less := m[k := m[k] - multiset{c}];
    TotalGains(less, k, c);
    assert m[k] - multiset{c} + multiset{c} == m[k];
    assert less[k := less[k] + multiset{c}] == m;
  }

  lemma TotalInsert(m: Holdings, k: nat, v: Refs)
    requires k !in m
    ensures Total(m[k := v]) == Total(m) + v
  {
    TotalWithout(m[k := v], k);
    assert m[k := v] - {k} == m;
  }

  lemma HeldIsInTotal(m: Holdings, k: nat, o: Ref)
    requires k in m
    ensures m[k][o] <= Total(m)[o]
  {
    TotalWithout(m, k);
  }

  lemma {:induction false} HolderOf(m: Holdings, o: Ref) returns (k: nat)
    requires o in Total(m)
    ensures k in m && o in m[k]
    decreases |m|
  {
    k :| k in m && Total(m) == m[k] + Total(m - {k});
    if o !in m[k] {
      k := HolderOf(m - {k}, o);
    }
  }

  // ---------------------------------------------------------------------------
  // Objects
  // ---------------------------------------------------------------------------

  /** What an object refers to. An array retains its items only if it was made with the object callbacks. */
  datatype Body =
    | Page(length: nat)
    | Array(items: seq<Ref>, isMutable: bool, owning: bool)
    | Group(pages: Ref)
    | File(pageGroup: Ref)
    | Str

  datatype Object = Object(isStack: bool, count: int, body: Body)

  type Heap = map<Ref, Object>

  /** `EFRetain`: objects on the stack are not counted. */
  function Raised(h: Heap, r: Ref): Heap
    requires r in h
  {
    if h[r].isStack then h else h[r := h[r].(count := h[r].count + 1)]
  }

  /** The references that the class's `deinit` handler releases, in its order. */
  function Children(body: Body): seq<Ref> {
    match body
    case Array(items, _, owning) => if owning then items else []
    case Group(pages) => [pages]
    case File(pageGroup) => if pageGroup == 0 then [] else [pageGroup]
    case _ => []
  }

  /** An object whose count has dropped to zero and whose `deinit` is still running. */
  predicate IsDying(object_: Object) {
    !object_.isStack && object_.count == 0
  }

  /** All references there are: the outstanding external ones, and those objects account for. */
  ghost function AllRefs(holds: Holdings, ext: Refs): Refs {
    ext + Total(holds)
  }

  /** Every reference designates an allocated object, and counts are numbers of references. */
  ghost predicate Counted(heap: Heap, refs: Refs) {
    && (forall o :: o in refs ==> o in heap)
    && (forall o :: o in heap && !heap[o].isStack ==> heap[o].count == refs[o])
  }

  /**
   * The count of every heap object is the number of its outstanding external references plus the number of references
   * to it that objects account for (for an object in mid-deinit, in its slots not yet released).
   */
  ghost predicate Balanced(heap: Heap, holds: Holdings, ext: Refs) {
    holds.Keys == heap.Keys && Counted(heap, AllRefs(holds, ext))
  }

  lemma BalancedRetain(heap: Heap, holds: Holdings, ext: Refs, r: Ref)
    requires Balanced(heap, holds, ext) && r in heap
    ensures heap[r].isStack ==> Balanced(heap, holds, ext + multiset{r})
    ensures !heap[r].isStack ==> Balanced(heap[r := heap[r].(count := heap[r].count + 1)], holds, ext + multiset{r})
  {
    assert AllRefs(holds, ext + multiset{r}) == AllRefs(holds, ext) + multiset{r};
  }

  lemma CountedDrop(heap: Heap, refs: Refs, r: Ref)
    requires Counted(heap, refs) && r in refs
    ensures r in heap
    ensures heap[r].isStack ==> Counted(heap, refs - multiset{r})
    ensures !heap[r].isStack ==>
              heap[r].count >= 1 && Counted(heap[r := heap[r].(count := heap[r].count - 1)], refs - multiset{r})
  {
    assert forall o :: o != r ==> (refs - multiset{r})[o] == refs[o];
  }

  lemma BalancedDrop(heap: Heap, holds: Holdings, ext: Refs, r: Ref)
    requires Balanced(heap, holds, ext) && r in ext
    ensures r in heap
    ensures heap[r].isStack ==> Balanced(heap, holds, ext - multiset{r})
    ensures !heap[r].isStack ==> heap[r].count >= 1
    ensures !heap[r].isStack ==> Balanced(heap[r := heap[r].(count := heap[r].count - 1)], holds, ext - multiset{r})
  {
    assert AllRefs(holds, ext - multiset{r}) == AllRefs(holds, ext) - multiset{r};
    CountedDrop(heap, AllRefs(holds, ext), r);
  }

  lemma MoveRef(from: Refs, to: Refs, c: Ref)
    requires c in from
    ensures from - multiset{c} + (to + multiset{c}) == from + to
  {
  }

  /** An external reference is stored in an object. */
  lemma BalancedStore(heap: Heap, holds: Holdings, ext: Refs, d: Ref, c: Ref)
    requires Balanced(heap, holds, ext) && d in heap && c in ext
    ensures Balanced(heap, holds[d := holds[d] + multiset{c}], ext - multiset{c})
  {
    var stored := holds[d := holds[d] + multiset{c}];
    TotalGains(holds, d, c);
    MoveRef(ext, Total(holds), c);
    assert AllRefs(stored, ext - multiset{c}) == AllRefs(holds, ext);
  }

  /** A reference is taken out of an object. */
  lemma BalancedTake(heap: Heap, holds: Holdings, ext: Refs, d: Ref, c: Ref)
    requires Balanced(heap, holds, ext) && d in heap && c in holds[d]
    ensures Balanced(heap, holds[d := holds[d] - multiset{c}], ext + multiset{c})
  {
    var taken := holds[d := holds[d] - multiset{c}];
    TotalLoses(holds, d, c);
    assert ext + multiset{c} + Total(taken) == ext + (Total(taken) + multiset{c});
    assert AllRefs(taken, ext + multiset{c}) == AllRefs(holds, ext);
  }

  lemma CountedNew(h: Heap, refs: Refs, r: Ref, body: Body, h': Heap)
    requires Counted(h, refs) && r !in h && h' == h[r := Object(false, 1, body)]
    ensures Counted(h', refs + multiset{r})
  {
  }

  /** A new object takes over external references and gets one itself. */
  lemma BalancedNew(h: Heap, m: Holdings, ext: Refs, held: Refs, r: Ref, body: Body, h': Heap, m': Holdings)
    requires Balanced(h, m, ext + held) && r !in h
    requires h' == h[r := Object(false, 1, body)] && m' == m[r := held]
    ensures Balanced(h', m', ext + multiset{r})
  {
    TotalInsert(m, r, held);
    var refs := AllRefs(m, ext + held);
    assert r !in refs;
    assert ext + multiset{r} + (Total(m) + held) == ext + held + Total(m) + multiset{r};
    assert AllRefs(m', ext + multiset{r}) == refs + multiset{r};
    CountedNew(h, refs, r, body, h');
  }

  lemma BalancedFree(heap: Heap, holds: Holdings, ext: Refs, d: Ref)
    requires Balanced(heap, holds, ext) && d in heap && IsDying(heap[d]) && holds[d] == multiset{}
    ensures Balanced(heap - {d}, holds - {d}, ext)
  {
    TotalWithout(holds, d);
    assert Total(holds - {d}) == Total(holds);
    assert d !in AllRefs(holds, ext);
  }

  // ---------------------------------------------------------------------------
  // Sets of objects that support themselves
  // ---------------------------------------------------------------------------

  ghost predicate HeldWithin(s: set<Ref>, holds: Holdings, o: Ref) {
    exists k :: k in s && k in holds && o in holds[k]
  }

  /**
   * Each member is on the stack, in mid-deinit, externally referenced, or referenced by another member. (Stack objects
   * are never freed, and an object in mid-deinit is freed by whoever runs its deinit.)
   */
  ghost predicate Supported(s: set<Ref>, heap: Heap, holds: Holdings, ext: Refs) {
    forall o :: o in s ==> o in heap && (heap[o].isStack || IsDying(heap[o]) || o in ext || HeldWithin(s, holds, o))
  }

  /** When the counts balance, all allocated objects together support themselves. */
  lemma HeapSupported(heap: Heap, holds: Holdings, ext: Refs)
    requires Balanced(heap, holds, ext)
    ensures Supported(heap.Keys, heap, holds, ext)
  {
    forall o | o in heap && !heap[o].isStack && !IsDying(heap[o]) && o !in ext
      ensures HeldWithin(heap.Keys, holds, o)
    {
      assert AllRefs(holds, ext)[o] == heap[o].count;
      var k := HolderOf(holds, o);
    }
  }
}
