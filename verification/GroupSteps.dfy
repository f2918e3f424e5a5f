/** The steps of page groups and file handles on the object graph. */
module GroupSteps {
  import opened Cascade
  import opened Counting
  import opened Removal
  import opened Soundness
  import opened Steps

  /** An array with the object callbacks. */
  predicate Retains(object_: Object) {
    object_.body.Array? && object_.body.owning
  }

  /** All items are pages. */
  predicate AllPages(h: Heap, items: seq<Ref>) {
    forall i :: 0 <= i < |items| ==> items[i] in h && h[items[i]].body.Page?
  }

  // ---------------------------------------------------------------------------
  // Removing an item
  // ---------------------------------------------------------------------------

  ghost function TakenOutHoldings(s: Graph, a: Ref, index: nat): Holdings
    requires a in s.heap && a in s.holds && s.heap[a].body.Array? && index < |s.heap[a].body.items|
  {
    s.holds[a := s.holds[a] - multiset{s.heap[a].body.items[index]}]
  }

  /** The slot is closed, and whatever the item's reference alone kept alive is gone. */
  ghost predicate ItemRemoved(s0: Graph, s: Graph, a: Ref, index: nat)
    requires s0.heap.Keys == s0.holds.Keys
    requires a in s0.heap && s0.heap[a].body.Array? && index < |s0.heap[a].body.items|
  {
    && s.holds.Keys == s.heap.Keys && s.ext == s0.ext
    && TakenOut(s0.heap, a, index).Keys == s0.heap.Keys
    && Cascaded(TakenOut(s0.heap, a, index), TakenOutHoldings(s0, a, index), s.heap, s.holds, s.ext, {})
  }

  lemma ReferencedIsAllocated(h: Heap, m: Holdings, base: Refs, r: Ref)
    requires Balanced(h, m, base) && r in base
    ensures r in h
  {
    assert AllRefs(m, base)[r] > 0;
  }

  /** The item is gone, and the items behind it have moved down. */
  lemma TakenOutItems(h: Heap, a: Ref, index: nat)
    requires a in h && h[a].body.Array? && index < |h[a].body.items|
    ensures a in TakenOut(h, a, index) && TakenOut(h, a, index)[a].body.Array?
    ensures var before, after := h[a].body, TakenOut(h, a, index)[a].body;
            && after.isMutable == before.isMutable && after.owning == before.owning
            && |after.items| == |before.items| - 1
            && (forall k :: 0 <= k < index ==> after.items[k] == before.items[k])
            && (forall k :: index <= k < |after.items| ==> after.items[k] == before.items[k + 1])
  {
    var items := h[a].body.items;
    assert TakenOut(h, a, index)[a].body.items == items[..index] + items[index + 1..];
  }

  /** So it is when the array, which the caller has a reference to, has been released an item of. */
  lemma ItemsClosed(s0: SoundGraph, s: SoundGraph, a: Ref, index: nat)
    requires a in s.ext && a in s0.heap && s0.heap[a].body.Array? && index < |s0.heap[a].body.items|
    requires ItemRemoved(s0, s, a, index)
    ensures a in s.heap && s.heap[a].body == TakenOut(s0.heap, a, index)[a].body
  {
    ReferencedIsAllocated(s.heap, s.holds, s.ext, a);
    hide Counted, Quiet, Typed, TakenOut, KeepsSupported;
  }

  lemma RemovalStep(s0: SoundGraph, a: Ref, index: nat, s1: Graph) returns (s: SoundGraph)
    requires a in s0.heap && s0.heap[a].body.Array? && s0.heap[a].body.owning && index < |s0.heap[a].body.items|
    requires ItemRemoved(s0, s1, a, index) && Balanced(s1.heap, s1.holds, s1.ext)
    ensures s == s1
  {
    hide Counted, Quiet, Typed, TakenOut;
    var v := s0.heap[a].body.items[index];
    var h0, m0 := TakenOut(s0.heap, a, index), TakenOutHoldings(s0, a, index);
    SoundTakenOut(s0.heap, s0.holds, s0.ext, a, index, v, h0, m0);
    SoundAfterCascade(h0, m0, s0.ext + multiset{v}, s1.heap, s1.holds, s1.ext);
    s := s1;
  }

  lemma RemovedAndClosed(s0: SoundGraph, a: Ref, index: nat, h: Heap, m: Holdings) returns (s: SoundGraph)
    requires a in s0.ext && a in s0.heap && s0.heap[a].body.Array? && s0.heap[a].body.owning
    requires index < |s0.heap[a].body.items| && Balanced(h, m, s0.ext) && a in TakenOut(s0.heap, a, index)
    requires TakenOut(s0.heap, a, index).Keys == s0.heap.Keys
    requires Cascaded(TakenOut(s0.heap, a, index), TakenOutHoldings(s0, a, index), h, m, s0.ext, {})
    ensures s == Graph(h, m, s0.ext) && ItemRemoved(s0, s, a, index)
    ensures a in s.heap && s.heap[a].body == TakenOut(s0.heap, a, index)[a].body
  {
    hide Counted, Quiet, Typed, TakenOut, Cascaded;
    s := RemovalStep(s0, a, index, Graph(h, m, s0.ext));
    ItemsClosed(s0, s, a, index);
  }

  /** The caller takes over the reference of an array that it keeps alive. */
  lemma ItemTaken(h: Heap, m: Holdings, base: Refs, a: Ref, v: Ref, m': Holdings)
    requires Balanced(h, m, base) && Settled(h, m, base) && a in base && a in h && v in m[a]
    requires m' == m[a := m[a] - multiset{v}]
    ensures Balanced(h, m', base + multiset{v}) && Settled(h, m', base)
  {
    BalancedTake(h, m, base, a, v);
  }

  /** The slot is closed when the item's release is over. */
  lemma SlotClosed(h0: Heap, m0: Holdings, h: Heap, m: Holdings, base: Refs, a: Ref, index: nat) returns (h': Heap)
    requires Balanced(h, m, base) && m0.Keys == h0.Keys && Cascaded(h0, m0, h, m, base, {}) && a in base
    requires a in h0 && !h0[a].isStack && !IsDying(h0[a]) && h0[a].body.Array? && index < |h0[a].body.items|
    ensures a in h && h[a].body == h0[a].body && h' == TakenOut(h, a, index)
    ensures Balanced(h', m, base) && TakenOut(h0, a, index).Keys == h0.Keys
    ensures Cascaded(TakenOut(h0, a, index), m0, h', m, base, {})
  {
    hide Counted, TakenOut, Shrunk, KeepsSupported;
    ReferencedIsAllocated(h, m, base, a);
    CascadeCommutes(h0, m0, h, m, base, a, index);
    h' := TakenOut(h, a, index);
    TakenOutCounts(h, a, index, h');
    BalancedSameCounts(h, h', m, base);
  }

  /** What an array that retains its items accounts for. */
  lemma ItemIsHeld(s: SoundGraph, a: Ref, index: nat)
    requires a in s.heap && s.heap[a].body.Array? && s.heap[a].body.owning && index < |s.heap[a].body.items|
    ensures !s.heap[a].isStack && !IsDying(s.heap[a]) && s.heap[a].body.items[index] in s.holds[a]
  {
    assert WellTyped(s.heap, s.heap[a]);
    assert s.holds[a] == multiset(s.heap[a].body.items);
  }

  /** The caller borrows the group's reference to its array, to change the array. */
  lemma LendStep(s: SoundGraph, g: Ref, a: Ref) returns (lent: Holdings, base: Refs)
    requires g in s.ext && g in s.heap && s.heap[g].body == Group(a)
    ensures lent == s.holds[g := multiset{}] && base == s.ext + multiset{a}
    ensures Balanced(s.heap, lent, base) && Settled(s.heap, lent, base) && a in base
  {
    lent, base := s.holds[g := multiset{}], s.ext + multiset{a};
    assert s.holds[g] == multiset{a};
    Lend(s.heap, s.holds, s.ext, g, a);
    assert g in base;
  }

  lemma GroupHolds(s: SoundGraph, g: Ref, a: Ref)
    requires g in s.heap && s.heap[g].body == Group(a)
    ensures s.holds[g] == multiset{a}
  {
  }

  lemma LentHoldsNothing(h0: Heap, m0: Holdings, h: Heap, m: Holdings, base: Refs, g: Ref)
    requires m0.Keys == h0.Keys && m.Keys == h.Keys && Cascaded(h0, m0, h, m, base, {})
    requires g in m0 && g in m && m0[g] == multiset{}
    ensures m[g] == multiset{}
  {
  }

  lemma LentTakenOut(m: Holdings, g: Ref, a: Ref, v: Ref, lent: Holdings, m': Holdings)
    requires g in m && a in m && g != a
    requires lent == m[g := multiset{}] && m' == m[a := m[a] - multiset{v}]
    ensures m'[g := multiset{}] == lent[a := lent[a] - multiset{v}]
    ensures m'[g] == m[g]
  {
    SameMap(m'[g := multiset{}], lent[a := lent[a] - multiset{v}]);
  }

  lemma ReturnStep(s0: SoundGraph, g: Ref, a: Ref, index: nat, lent: Holdings, base: Refs, h: Heap, m: Holdings)
      returns (s: SoundGraph)
    requires g in s0.ext && g in s0.heap && s0.heap[g].body == Group(a)
    requires a in s0.heap && s0.heap[a].body.Array? && s0.heap[a].body.owning && index < |s0.heap[a].body.items|
    requires lent == s0.holds[g := multiset{}] && base == s0.ext + multiset{a}
    requires Balanced(h, m, base) && TakenOut(s0.heap, a, index).Keys == s0.heap.Keys
    requires var v := s0.heap[a].body.items[index];
             Cascaded(TakenOut(s0.heap, a, index), lent[a := lent[a] - multiset{v}], h, m, base, {})
    ensures s == Graph(h, m[g := multiset{a}], s0.ext) && ItemRemoved(s0, s, a, index)
  {
    hide Counted, Typed, Quiet, TakenOut, Shrunk, KeepsSupported;
    var v := s0.heap[a].body.items[index];
    var h0, m0 := TakenOut(s0.heap, a, index), TakenOutHoldings(s0, a, index);
    GroupHolds(s0, g, a);
    LentTakenOut(s0.holds, g, a, v, lent, m0);
    ReferencedIsAllocated(h, m, base, g);
    CascadeOnLoan(h0, m0, h, m, s0.ext, g, a);
    LentHoldsNothing(h0, m0[g := multiset{}], h, m, base, g);
    Return(h, m, s0.ext, g, a);
    s := RemovalStep(s0, a, index, Graph(h, m[g := multiset{a}], s0.ext));
  }

  lemma PageIsLeaf(s: SoundGraph, p: Ref)
    requires p in s.heap && s.heap[p].body.Page?
    ensures !s.heap[p].isStack && s.holds[p] == multiset{}
  {
    assert WellTyped(s.heap, s.heap[p]);
  }

  lemma NoneDying(s: SoundGraph)
    ensures forall o :: o in s.heap ==> !IsDying(s.heap[o])
  {
  }

  /** When the item is a page, only that page and the array have changed. */
  lemma PageRemoved(s0: SoundGraph, a: Ref, index: nat, s: SoundGraph)
    requires a in s0.heap && s0.heap[a].body.Array? && s0.heap[a].body.owning && index < |s0.heap[a].body.items|
    requires ItemRemoved(s0, s, a, index)
    requires var v := s0.heap[a].body.items[index]; v in s0.heap && s0.heap[v].body.Page?
    ensures var v := s0.heap[a].body.items[index]; var h := TakenOut(s0.heap, a, index);
            v in h && s.heap == LeafDropped(h, v)
  {
    var v := s0.heap[a].body.items[index];
    var h0, m0 := TakenOut(s0.heap, a, index), TakenOutHoldings(s0, a, index);
    SoundTakenOut(s0.heap, s0.holds, s0.ext, a, index, v, h0, m0);
    PageIsLeaf(s0, v);
    NoneDying(s);
    assert v != a;
    LeafReleased(h0, m0, s.ext, v, s.heap, s.holds);
  }

  // ---------------------------------------------------------------------------
  // New groups
  // ---------------------------------------------------------------------------

  /** A new group and its new array of pages, each with count 1; of the old objects only counts may have been raised. */
  ghost predicate GroupAdded(s0: Graph, s: Graph, g: Ref, r: Ref, items: seq<Ref>, owning: bool)
    requires s0.heap.Keys == s0.holds.Keys && s.heap.Keys == s.holds.Keys
  {
    && Extends(s0.heap, s0.holds, s.heap, s.holds)
    && g !in s0.heap && r !in s0.heap && g != r && g in s.heap && r in s.heap
    && s.heap[g] == NewObject(Group(r)) && s.heap[r] == NewObject(Array(items, true, owning))
    && (forall o :: o in s.heap ==> o in s0.heap || o == g || o == r)
    && s.ext == s0.ext + multiset{g}
  }

  lemma ExtendsInsert(h0: Heap, m0: Holdings, h: Heap, m: Holdings, r: Ref, object_: Object, held: Refs)
    requires h0.Keys == m0.Keys && h.Keys == m.Keys && Extends(h0, m0, h, m) && r !in h0
    ensures h[r := object_].Keys == m[r := held].Keys && Extends(h0, m0, h[r := object_], m[r := held])
  {
  }

  lemma GroupIsAdded(s0: Graph, s1: Graph, r: Ref, items: seq<Ref>, owning: bool, g: Ref, s: Graph)
    requires s0.heap.Keys == s0.holds.Keys && s1.heap.Keys == s1.holds.Keys
    requires Added(s0.heap, s0.holds, s1.heap, s1.holds, r, Array(items, true, owning)) && g !in s1.heap
    requires s == Graph(s1.heap[g := NewObject(Group(r))], s1.holds[g := multiset{r}], s0.ext + multiset{g})
    ensures s.heap.Keys == s.holds.Keys && GroupAdded(s0, s, g, r, items, owning)
  {
    assert g !in s0.heap;
    hide Extends;
    ExtendsInsert(s0.heap, s0.holds, s1.heap, s1.holds, g, NewObject(Group(r)), multiset{r});
  }

  lemma IsArrayOfPages(s0: SoundGraph, s1: SoundGraph, r: Ref, items: seq<Ref>, owning: bool)
    requires Added(s0.heap, s0.holds, s1.heap, s1.holds, r, Array(items, true, owning)) && AllPages(s0.heap, items)
    ensures IsGroupArray(s1.heap, r)
  {
  }

  lemma GroupStep(s0: SoundGraph, s1: SoundGraph, r: Ref, items: seq<Ref>, owning: bool, g: Ref) returns (s: SoundGraph)
    requires Added(s0.heap, s0.holds, s1.heap, s1.holds, r, Array(items, true, owning)) && AllPages(s0.heap, items)
    requires s1.ext == s0.ext + multiset{r} && g !in s1.heap
    ensures s == Graph(s1.heap[g := NewObject(Group(r))], s1.holds[g := multiset{r}], s0.ext + multiset{g})
    ensures GroupAdded(s0, s, g, r, items, owning)
  {
    hide Counted, Quiet, Typed, Added, GroupAdded, IsGroupArray;
    var h, m := s1.heap[g := NewObject(Group(r))], s1.holds[g := multiset{r}];
    IsArrayOfPages(s0, s1, r, items, owning);
    SoundNewGroup(s1.heap, s1.holds, s0.ext, g, r, h, m);
    s := Graph(h, m, s0.ext + multiset{g});
    GroupIsAdded(s0, s1, r, items, owning, g, s);
  }

  /** One of several references is dropped. */
  lemma SharedDropStep(s0: SoundGraph, r: Ref) returns (s: SoundGraph)
    requires r in s0.ext && r in s0.heap && !s0.heap[r].isStack && s0.heap[r].count > 1 && s0.heap[r].body.Page?
    ensures s == Graph(Lowered(s0.heap, r), s0.holds, s0.ext - multiset{r})
  {
    var h, ext := Lowered(s0.heap, r), s0.ext - multiset{r};
    hide Counted;
    BalancedDrop(s0.heap, s0.holds, s0.ext, r);
    CascadeDecrements(s0.heap, s0.holds, r, ext);
    SoundAfterCascade(s0.heap, s0.holds, s0.ext, h, s0.holds, ext);
    s := Graph(h, s0.holds, ext);
  }

  /** The graph with a new page, and an array for it, each with count 1. */
  function WithArray(h: Heap, p: Ref, n: nat, r: Ref): Heap {
    h[p := NewObject(Page(n))][r := NewObject(Array([p], true, true))]
  }

  ghost function WithArrayHoldings(m: Holdings, p: Ref, r: Ref): Holdings {
    m[p := multiset{}][r := multiset{p}]
  }

  /** And with a group of the array. */
  function WithGroup(h: Heap, p: Ref, n: nat, r: Ref, g: Ref): Heap {
    WithArray(h, p, n, r)[g := NewObject(Group(r))]
  }

  ghost function WithGroupHoldings(m: Holdings, p: Ref, r: Ref, g: Ref): Holdings {
    WithArrayHoldings(m, p, r)[g := multiset{r}]
  }

  /** Written out: three objects more, each with count 1, and all others as they were. */
  ghost predicate NewChain(h: Heap, p: Ref, n: nat, r: Ref, g: Ref, h': Heap) {
    && p in h' && h'[p] == Object(false, 1, Page(n))
    && r in h' && h'[r] == Object(false, 1, Array([p], true, true))
    && g in h' && h'[g] == Object(false, 1, Group(r))
    && forall o :: o in h ==> o in h' && h'[o] == h[o]
  }

  lemma GroupIsNew(h: Heap, p: Ref, n: nat, r: Ref, g: Ref)
    requires p !in h && r !in h && g !in h && p != r && p != g && r != g
    ensures NewChain(h, p, n, r, g, WithGroup(h, p, n, r, g))
    ensures WithGroup(h, p, n, r, g).Keys == h.Keys + {p, r, g}
  {
  }

  lemma ArrayOfPage(h: Heap, p: Ref, n: nat, r: Ref)
    requires p != r
    ensures IsGroupArray(WithArray(h, p, n, r), r)
  {
  }

  lemma DirectHeap(h0: Heap, p: Ref, n: nat, r: Ref, h2: Heap, h3: Heap)
    requires p != r && h2 == h0[r := NewObject(Array([], true, true))][p := NewObject(Page(n))]
    requires h3 == StoredHeap(h2, r, 0, p)
    ensures p in h3 && h3[p] == NewObject(Page(n)).(count := 2)
    ensures Lowered(h3, p) == WithArray(h0, p, n, r)
  {
    assert Inserted([], 0, p) == [p];
    SameMap(Lowered(h3, p), WithArray(h0, p, n, r));
  }

  lemma DirectHoldings(m0: Holdings, p: Ref, r: Ref, h2: Heap, m2: Holdings, m3: Holdings)
    requires p != r && r in h2 && h2[r].body.Array? && h2[r].body.owning
    requires m2 == m0[r := multiset{}][p := multiset{}] && m3 == StoredHoldings(h2, m2, r, p)
    ensures m3 == WithArrayHoldings(m0, p, r)
  {
    assert multiset{} + multiset{p} == multiset{p};
    SameMap(m3, WithArrayHoldings(m0, p, r));
  }

  /** After the page is stored in the array, it remains to drop the caller's reference. */
  lemma StoredDirectly(s0: Graph, p: Ref, n: nat, r: Ref, s2: Graph, s3: Graph)
    requires p != r && s2 == WithObject(WithObject(s0, r, Array([], true, true)), p, Page(n))
    requires s3 == Graph(StoredHeap(s2.heap, r, 0, p), StoredHoldings(s2.heap, s2.holds, r, p), s2.ext)
    ensures p in s3.heap && s3.heap[p] == NewObject(Page(n)).(count := 2) && p in s3.ext
    ensures Graph(Lowered(s3.heap, p), s3.holds, s3.ext - multiset{p}) ==
            Graph(WithArray(s0.heap, p, n, r), WithArrayHoldings(s0.holds, p, r), s0.ext + multiset{r})
  {
    hide WithArray, WithArrayHoldings, StoredHeap, StoredHoldings, Lowered;
    DirectHeap(s0.heap, p, n, r, s2.heap, s3.heap);
    DirectHoldings(s0.holds, p, r, s2.heap, s2.holds, s3.holds);
    assert s0.ext + multiset{r} + multiset{p} - multiset{p} == s0.ext + multiset{r};
  }

  /** What a caller refers to is accessible. */
  lemma NewestAccessible(s: SoundGraph, r: Ref)
    requires r in s.ext
    ensures Accessible(s.heap, r)
  {
    ExternalIsAccessible(s.heap, s.holds, s.ext, r);
  }

  lemma DirectArray(s0: SoundGraph, p: Ref, n: nat, r: Ref) returns (s: SoundGraph)
    requires p !in s0.heap && r !in s0.heap && p != r && p != 0
    ensures s == Graph(WithArray(s0.heap, p, n, r), WithArrayHoldings(s0.holds, p, r), s0.ext + multiset{r})
  {
    hide Counted, Quiet, Typed, StoredHeap, StoredHoldings, Lowered, Accessible, WithArray, WithArrayHoldings;
    var s1 := AllocateStep(s0, r, Array([], true, true));
    var s2 := AllocateStep(s1, p, Page(n));
    NewestAccessible(s2, r);
    NewestAccessible(s2, p);
    var s3 := StoreStep(s2, r, 0, p);
    StoredDirectly(s0, p, n, r, s2, s3);
    s := SharedDropStep(s3, p);
  }

  /** Such a graph is sound: it is what building the three objects in place would give. */
  lemma DirectGroup(s0: SoundGraph, p: Ref, n: nat, r: Ref, g: Ref) returns (s: SoundGraph)
    requires p !in s0.heap && r !in s0.heap && g !in s0.heap && p != r && p != g && r != g && p != 0
    ensures s == Graph(WithGroup(s0.heap, p, n, r, g), WithGroupHoldings(s0.holds, p, r, g), s0.ext + multiset{g})
  {
    hide Counted, Quiet, Typed, IsGroupArray;
    var s1 := DirectArray(s0, p, n, r);
    var h, m := s1.heap[g := NewObject(Group(r))], s1.holds[g := multiset{r}];
    ArrayOfPage(s0.heap, p, n, r);
    SoundNewGroup(s1.heap, s1.holds, s0.ext, g, r, h, m);
    s := Graph(h, m, s0.ext + multiset{g});
  }

  lemma ItemsAreAllocated(s: SoundGraph, a: Ref)
    requires a in s.heap && s.heap[a].body.Array? && s.heap[a].body.owning
    ensures forall i :: 0 <= i < |s.heap[a].body.items| ==> s.heap[a].body.items[i] in s.heap
  {
    forall i | 0 <= i < |s.heap[a].body.items|
      ensures s.heap[a].body.items[i] in s.heap
    {
      SourceItem(s.heap, s.holds, s.ext, a, i);
    }
  }

  lemma FullCopyNotSelfHeld(s0: SoundGraph, s: SoundGraph, source: Ref, r: Ref)
    requires source in s0.heap && s0.heap[source].body.Array? && s.ext == s0.ext + multiset{r}
    requires Added(s0.heap, s0.holds, s.heap, s.holds, r,
                   Array(s0.heap[source].body.items, true, s0.heap[source].body.owning))
    ensures r !in s.holds[r]
  {
    hide Counted, Quiet, Typed, Extends;
    var items := s0.heap[source].body.items;
    assert items[..|items|] == items;
    CopiedNotSelfHeld(s0.heap, s0.holds, s0.ext, source, r, |items|, s.heap, s.holds);
  }

  lemma PointerRemovalStep(s0: SoundGraph, a: Ref, index: nat) returns (s: SoundGraph)
    requires a in s0.ext && a in s0.heap && s0.heap[a].body.Array? && !s0.heap[a].body.owning
    requires index < |s0.heap[a].body.items|
    ensures s == Graph(TakenOut(s0.heap, a, index), s0.holds, s0.ext)
  {
    assert WellTyped(s0.heap, s0.heap[a]);
    RemovedItems(s0.heap[a].body.items, index);
    SoundStorePointer(s0.heap, s0.holds, s0.ext, a, Removed(s0.heap[a].body.items, index),
                      TakenOut(s0.heap, a, index));
    s := Graph(TakenOut(s0.heap, a, index), s0.holds, s0.ext);
  }

  lemma ArrayHasPage(h0: Heap, p: Ref, n: nat, r: Ref, h: Heap)
    requires p != r && h == WithArray(h0, p, n, r)
    ensures p in h && r in h && h[r] == NewObject(Array([p], true, true)) && AllPages(h, [p])
  {
  }

  lemma ExtendsRefl(h: Heap, m: Holdings)
    requires m.Keys == h.Keys
    ensures Extends(h, m, h, m)
  {
  }

  lemma ExtendsWithArray(s0: SoundGraph, p: Ref, n: nat, r: Ref)
    requires p !in s0.heap && r !in s0.heap && p != r
    ensures var h, m := WithArray(s0.heap, p, n, r), WithArrayHoldings(s0.holds, p, r);
            && m.Keys == h.Keys && Extends(s0.heap, s0.holds, h, m)
            && (forall o :: o in h ==> o in s0.heap || o == p || o == r)
            && r in h && !h[r].isStack && m[r] == multiset{p} && p in h && !h[p].isStack && m[p] == multiset{}
  {
    hide Extends, Counted, Quiet, Typed;
    ExtendsRefl(s0.heap, s0.holds);
    ExtendsInsert(s0.heap, s0.holds, s0.heap, s0.holds, p, NewObject(Page(n)), multiset{});
    ExtendsInsert(s0.heap, s0.holds, s0.heap[p := NewObject(Page(n))], s0.holds[p := multiset{}], r,
                  NewObject(Array([p], true, true)), multiset{p});
  }

  /** No group could be made: with the array its page goes too. */
  lemma OwnArrayGivenUp(s0: SoundGraph, s1: SoundGraph, p: Ref, n: nat, r: Ref, s: SoundGraph)
    requires p !in s0.heap && r !in s0.heap && p != r
    requires s1 == Graph(WithArray(s0.heap, p, n, r), WithArrayHoldings(s0.holds, p, r), s0.ext + multiset{r})
    requires s.ext == s1.ext - multiset{r} && Cascaded(s1.heap, s1.holds, s.heap, s.holds, s.ext, {})
    ensures s == s0
  {
    assert s0.ext + multiset{r} - multiset{r} == s0.ext;
    ExtendsWithArray(s0, p, n, r);
    RollbackTwo(s0.heap, s0.holds, s0.ext, s1.heap, s1.holds, r, p, s.heap, s.holds);
  }

  lemma GroupHoldings(s: SoundGraph, g: Ref, r: Ref, p: Ref)
    requires g in s.heap && s.heap[g].body == Group(r) && r in s.heap && s.heap[r].body == Array([p], true, true)
    ensures s.holds[g] == multiset{r} && s.holds[r] == multiset{p}
  {
    assert multiset(Children(s.heap[g].body)) == multiset{r};
  }

  lemma WithArrayShape(h0: Heap, m0: Holdings, p: Ref, n: nat, r: Ref, h: Heap, m: Holdings)
    requires m0.Keys == h0.Keys && p !in h0 && r !in h0 && p != r
    requires h == WithArray(h0, p, n, r) && m == WithArrayHoldings(m0, p, r)
    ensures m.Keys == h.Keys && forall o :: o in h <==> o in h0 || o == p || o == r
    ensures forall o :: o in h0 ==> h[o] == h0[o] && m[o] == m0[o]
    ensures h[p] == NewObject(Page(n)) && h[r] == NewObject(Array([p], true, true))
    ensures m[p] == multiset{} && m[r] == multiset{p}
  {
  }

  lemma WithGroupShape(h0: Heap, m0: Holdings, p: Ref, n: nat, r: Ref, g: Ref, h: Heap, m: Holdings)
    requires m0.Keys == h0.Keys && p !in h0 && r !in h0 && g !in h0 && p != r && p != g && r != g
    requires h == WithGroup(h0, p, n, r, g) && m == WithGroupHoldings(m0, p, r, g)
    ensures m.Keys == h.Keys && forall o :: o in h <==> o in h0 || o == p || o == r || o == g
    ensures forall o :: o in h0 ==> h[o] == h0[o] && m[o] == m0[o]
    ensures h[p] == NewObject(Page(n)) && h[r] == NewObject(Array([p], true, true)) && h[g] == NewObject(Group(r))
    ensures m[p] == multiset{} && m[r] == multiset{p} && m[g] == multiset{r}
  {
    hide WithArray, WithArrayHoldings;
    WithArrayShape(h0, m0, p, n, r, WithArray(h0, p, n, r), WithArrayHoldings(m0, p, r));
  }

  lemma AreKept(h0: Heap, m0: Holdings, h: Heap, m: Holdings)
    requires m0.Keys == h0.Keys && m.Keys == h.Keys
    requires forall o :: o in h0 ==> o in h && m[o] == m0[o] && h[o].isStack == h0[o].isStack && h[o].body == h0[o].body
    requires forall o :: o in h0 && h0[o].isStack ==> h[o] == h0[o]
    ensures Extends(h0, m0, h, m)
  {
  }

  /** What the group keeps is as if the array that was released had never been. */
  lemma KeptByGroup(s0: SoundGraph, s1: SoundGraph, p: Ref, n: nat, r0: Ref, s2: SoundGraph, r: Ref, g: Ref,
                    t: SoundGraph, o: Ref)
    requires p !in s0.heap && r0 !in s0.heap && p != r0
    requires s1 == Graph(WithArray(s0.heap, p, n, r0), WithArrayHoldings(s0.holds, p, r0), s0.ext + multiset{r0})
    requires GroupAdded(s1, s2, g, r, [p], true)
    requires t == Graph(WithGroup(s0.heap, p, n, r, g), WithGroupHoldings(s0.holds, p, r, g), s0.ext + multiset{g})
    requires o in t.heap
    ensures o in s2.heap && s2.holds[o] == t.holds[o]
    ensures s2.heap[o].isStack == t.heap[o].isStack && s2.heap[o].body == t.heap[o].body
    ensures o in s0.heap && t.heap[o].isStack ==> s2.heap[o] == t.heap[o]
  {
    hide Counted, Typed, Quiet, WithGroup, WithArray, WithGroupHoldings, WithArrayHoldings;
    WithArrayShape(s0.heap, s0.holds, p, n, r0, s1.heap, s1.holds);
    WithGroupShape(s0.heap, s0.holds, p, n, r, g, t.heap, t.holds);
    GroupHoldings(s2, g, r, p);
    assert o in s0.heap || o == p ==> o in s1.heap;
  }

  lemma ExtendsWithGroup(s0: SoundGraph, s1: SoundGraph, p: Ref, n: nat, r0: Ref, s2: SoundGraph, r: Ref, g: Ref,
                         t: SoundGraph)
    requires p !in s0.heap && r0 !in s0.heap && p != r0
    requires s1 == Graph(WithArray(s0.heap, p, n, r0), WithArrayHoldings(s0.holds, p, r0), s0.ext + multiset{r0})
    requires GroupAdded(s1, s2, g, r, [p], true)
    requires t == Graph(WithGroup(s0.heap, p, n, r, g), WithGroupHoldings(s0.holds, p, r, g), s0.ext + multiset{g})
    ensures Extends(t.heap, t.holds, s2.heap, s2.holds) && r0 !in t.heap
    ensures forall o :: o in s2.heap ==> o in t.heap || o == r0
    ensures r0 in s2.heap && !s2.heap[r0].isStack && r0 !in s2.holds[r0]
  {
    hide Counted, Typed, Quiet, WithGroup, WithArray, WithGroupHoldings, WithArrayHoldings;
    WithArrayShape(s0.heap, s0.holds, p, n, r0, s1.heap, s1.holds);
    WithGroupShape(s0.heap, s0.holds, p, n, r, g, t.heap, t.holds);
    assert r0 in s1.heap && s1.holds[r0] == s2.holds[r0];
    assert forall o :: o in s2.heap ==> o in t.heap || o == r0;
    hide Extends;
    forall o | o in t.heap
      ensures o in s2.heap && s2.holds[o] == t.holds[o]
      ensures s2.heap[o].isStack == t.heap[o].isStack && s2.heap[o].body == t.heap[o].body
      ensures t.heap[o].isStack ==> s2.heap[o] == t.heap[o]
    {
      KeptByGroup(s0, s1, p, n, r0, s2, r, g, t, o);
    }
    AreKept(t.heap, t.holds, s2.heap, s2.holds);
  }

  /** The array made first is released when the group has its own: what is left is what the group needs. */
  lemma OwnArrayReleased(s0: SoundGraph, s1: SoundGraph, p: Ref, n: nat, r0: Ref, s2: SoundGraph, r: Ref, g: Ref,
                         s: SoundGraph)
    requires p !in s0.heap && r0 !in s0.heap && p != r0 && p != 0
    requires s1 == Graph(WithArray(s0.heap, p, n, r0), WithArrayHoldings(s0.holds, p, r0), s0.ext + multiset{r0})
    requires GroupAdded(s1, s2, g, r, [p], true)
    requires s.ext == s2.ext - multiset{r0} && Cascaded(s2.heap, s2.holds, s.heap, s.holds, s.ext, {})
    ensures r !in s0.heap && g !in s0.heap && p != r && p != g && r != g
    ensures s == Graph(WithGroup(s0.heap, p, n, r, g), WithGroupHoldings(s0.holds, p, r, g), s0.ext + multiset{g})
  {
    hide Counted, Quiet, Typed, Cascaded;
    ExtendsWithArray(s0, p, n, r0);
    var t := DirectGroup(s0, p, n, r, g);
    assert s0.ext + multiset{r0} + multiset{g} - multiset{r0} == s0.ext + multiset{g};
    ExtendsWithGroup(s0, s1, p, n, r0, s2, r, g, t);
    RollbackOne(t.heap, t.holds, t.ext, s2.heap, s2.holds, r0, s.heap, s.holds);
  }

  // ---------------------------------------------------------------------------
  // Extending and merging
  // ---------------------------------------------------------------------------

  /** The graph after a new page with count 1 is put at the end of the array. */
  function WithPage(h: Heap, a: Ref, p: Ref, n: nat): Heap
    requires a in h && h[a].body.Array?
  {
    h[p := NewObject(Page(n))][a := WithItems(h[a], h[a].body.items + [p])]
  }

  ghost function WithPageHoldings(m: Holdings, a: Ref, p: Ref): Holdings
    requires a in m
  {
    m[p := multiset{}][a := m[a] + multiset{p}]
  }

  /** The graph after a pointer is put at the end of an array that does not retain its items. */
  function WithPointer(h: Heap, a: Ref, p: Ref): Heap
    requires a in h && h[a].body.Array?
  {
    h[a := WithItems(h[a], h[a].body.items + [p])]
  }

  /**
   * The graph after a group with the array `a` is extended by the page `p`: a page that the array does not retain is
   * freed at once, and the array keeps pointing there.
   */
  ghost function GroupExtended(s: Graph, a: Ref, p: Ref, n: nat): (s': Graph)
    requires a in s.heap && a in s.holds && s.heap[a].body.Array?
    ensures p !in s.heap ==> (p in s'.heap <==> s.heap[a].body.owning)
  {
    if s.heap[a].body.owning then Graph(WithPage(s.heap, a, p, n), WithPageHoldings(s.holds, a, p), s.ext)
    else Graph(WithPointer(s.heap, a, p), s.holds, s.ext)
  }

  /** The new page is the last of the array's items; what the array's callbacks decide is only whether it lives. */
  lemma ExtendedItems(s: Graph, a: Ref, p: Ref, n: nat)
    requires a in s.heap && a in s.holds && s.heap[a].body.Array? && p !in s.heap
    ensures var h, h' := s.heap, GroupExtended(s, a, p, n).heap;
            && a in h' && h'[a].body.Array? && h'[a].count == h[a].count
            && h'[a].body.isMutable == h[a].body.isMutable && h'[a].body.owning == h[a].body.owning
            && |h'[a].body.items| == |h[a].body.items| + 1
            && (forall k :: 0 <= k < |h[a].body.items| ==> h'[a].body.items[k] == h[a].body.items[k])
            && h'[a].body.items[|h[a].body.items|] == p
            && (forall o :: o in h && o != a ==> o in h' && h'[o] == h[o])
            && (p in h' ==> h'[p] == Object(false, 1, Page(n)))
  {
  }

  /** The array of a group. */
  lemma GroupArrayShape(s: SoundGraph, g: Ref, a: Ref)
    requires g in s.heap && s.heap[g].body == Group(a)
    ensures g != a && IsGroupArray(s.heap, a)
    ensures s.heap[a].body.owning ==> AllPages(s.heap, s.heap[a].body.items)
  {
    assert WellTyped(s.heap, s.heap[g]);
  }

  lemma AppendedHeap(h0: Heap, a: Ref, p: Ref, n: nat, h1: Heap, h2: Heap)
    requires a in h0 && h0[a].body.Array? && h0[a].body.owning && p !in h0
    requires h1 == h0[p := NewObject(Page(n))] && h2 == StoredHeap(h1, a, |h0[a].body.items|, p)
    ensures p in h2 && h2[p] == NewObject(Page(n)).(count := 2) && Lowered(h2, p) == WithPage(h0, a, p, n)
  {
    assert Inserted(h0[a].body.items, |h0[a].body.items|, p) == h0[a].body.items + [p];
    SameMap(Lowered(h2, p), WithPage(h0, a, p, n));
  }

  lemma AppendedHoldings(m0: Holdings, a: Ref, p: Ref, h1: Heap, m1: Holdings, m2: Holdings)
    requires a in m0 && p !in m0 && a in h1 && h1[a].body.Array? && h1[a].body.owning
    requires m1 == m0[p := multiset{}] && m2 == StoredHoldings(h1, m1, a, p)
    ensures m2 == WithPageHoldings(m0, a, p)
  {
  }

  lemma PointerHeap(h0: Heap, a: Ref, p: Ref, n: nat, h1: Heap, h2: Heap)
    requires a in h0 && h0[a].body.Array? && !h0[a].body.owning && p !in h0
    requires h1 == h0[p := NewObject(Page(n))] && h2 == StoredHeap(h1, a, |h0[a].body.items|, p)
    ensures p in h2 && h2[p] == NewObject(Page(n)) && h2 - {p} == WithPointer(h0, a, p)
  {
    assert Inserted(h0[a].body.items, |h0[a].body.items|, p) == h0[a].body.items + [p];
    SameMap(h2 - {p}, WithPointer(h0, a, p));
  }

  lemma PointerHoldings(m0: Holdings, a: Ref, p: Ref, h1: Heap, m1: Holdings, m2: Holdings)
    requires a in m0 && p !in m0 && a in h1 && h1[a].body.Array? && !h1[a].body.owning
    requires m1 == m0[p := multiset{}] && m2 == StoredHoldings(h1, m1, a, p)
    ensures p in m2 && m2[p] == multiset{} && m2 - {p} == m0
  {
    SameMap(m2 - {p}, m0);
  }

  /** The release of the caller's reference frees the page that only a pointer was kept of. */
  lemma PageLost(s0: SoundGraph, a: Ref, p: Ref, n: nat, s1: Graph, s2: SoundGraph, s: SoundGraph)
    requires a in s0.heap && s0.heap[a].body.Array? && !s0.heap[a].body.owning && p !in s0.heap
    requires s1 == WithObject(s0, p, Page(n))
    requires s2 == Graph(StoredHeap(s1.heap, a, |s0.heap[a].body.items|, p),
                         StoredHoldings(s1.heap, s1.holds, a, p), s1.ext)
    requires s.ext == s2.ext - multiset{p} && Cascaded(s2.heap, s2.holds, s.heap, s.holds, s.ext, {})
    ensures s == GroupExtended(s0, a, p, n)
  {
    PointerHeap(s0.heap, a, p, n, s1.heap, s2.heap);
    PointerHoldings(s0.holds, a, p, s1.heap, s1.holds, s2.holds);
    NoneDying(s);
    hide Counted, Quiet, Typed, Cascaded, StoredHeap, StoredHoldings, WithPointer;
    assert s0.ext + multiset{p} - multiset{p} == s0.ext;
    LeafReleased(s2.heap, s2.holds, s0.ext, p, s.heap, s.holds);
  }

  /** What the release leaves in either case. */
  lemma PutAndReleased(s0: SoundGraph, a: Ref, p: Ref, n: nat, s1: Graph, s2: SoundGraph, s: SoundGraph)
    requires a in s0.heap && s0.heap[a].body.Array? && p !in s0.heap && s1 == WithObject(s0, p, Page(n))
    requires s2 == Graph(StoredHeap(s1.heap, a, |s0.heap[a].body.items|, p),
                         StoredHoldings(s1.heap, s1.holds, a, p), s1.ext)
    requires s.ext == s2.ext - multiset{p} && Cascaded(s2.heap, s2.holds, s.heap, s.holds, s.ext, {})
    requires p in s2.heap
    requires s2.heap[p].count > 1 && !s2.heap[p].isStack ==> s.heap == Lowered(s2.heap, p) && s.holds == s2.holds
    ensures s == GroupExtended(s0, a, p, n)
  {
    hide Counted, Quiet, Typed, Cascaded, StoredHeap, StoredHoldings, WithPage, WithPageHoldings, WithPointer;
    if s0.heap[a].body.owning {
      AppendedHeap(s0.heap, a, p, n, s1.heap, s2.heap);
      AppendedHoldings(s0.holds, a, p, s1.heap, s1.holds, s2.holds);
      assert s0.ext + multiset{p} - multiset{p} == s0.ext;
    } else {
      PageLost(s0, a, p, n, s1, s2, s);
    }
  }

  /** The first `i` pages of the array are out of it: each has one reference less or is freed, all else is the same. */
  ghost predicate Emptied(s1: Graph, s: Graph, a: Ref, i: nat)
    requires a in s1.heap && s1.heap[a].body.Array? && i <= |s1.heap[a].body.items|
  {
    && s.ext == s1.ext && a in s.heap && s.heap[a] == WithItems(s1.heap[a], s1.heap[a].body.items[i..])
    && (forall o :: o in s.heap ==> o in s1.heap && (o != a ==> s.heap[o].body == s1.heap[o].body))
    && (forall o :: o in s1.heap && o != a && o !in s1.heap[a].body.items[..i] ==>
          o in s.heap && s.heap[o] == s1.heap[o])
  }

  lemma EmptiedNone(s1: Graph, a: Ref)
    requires a in s1.heap && s1.heap[a].body.Array?
    ensures Emptied(s1, s1, a, 0)
  {
    assert s1.heap[a].body.items[0..] == s1.heap[a].body.items;
  }

  lemma EmptiedFirst(s1: Graph, s: Graph, a: Ref, i: nat) returns (v: Ref)
    requires a in s1.heap && s1.heap[a].body.Array? && i < |s1.heap[a].body.items| && Emptied(s1, s, a, i)
    requires AllPages(s.heap, s.heap[a].body.items)
    ensures s.heap[a].body.Array? && |s.heap[a].body.items| > 0 && v == s.heap[a].body.items[0]
    ensures v == s1.heap[a].body.items[i] && v in s.heap && s.heap[v].body.Page? && v != a
  {
    v := s.heap[a].body.items[0];
  }

  lemma StillNotIn(items: seq<Ref>, i: nat, o: Ref)
    requires i < |items| && o !in items[..i + 1]
    ensures o !in items[..i] && o != items[i]
  {
    assert items[..i + 1] == items[..i] + [items[i]];
  }

  lemma LeafDroppedShape(h: Heap, v: Ref, h': Heap)
    requires v in h && h' == LeafDropped(h, v)
    ensures forall o :: o in h && o != v ==> o in h' && h'[o] == h[o]
    ensures forall o :: o in h' ==> o in h && h'[o].body == h[o].body
  {
  }

  /** Of the objects that are not to be emptied, those of the first graph are as they were. */
  lemma RestKept(s1: Graph, s: Graph, a: Ref, i: nat, v: Ref, h: Heap, h': Heap, o: Ref)
    requires a in s1.heap && s1.heap[a].body.Array? && i < |s1.heap[a].body.items| && Emptied(s1, s, a, i)
    requires s.heap[a].body.Array? && |s.heap[a].body.items| > 0
    requires v == s1.heap[a].body.items[i] && v in h && h == TakenOut(s.heap, a, 0) && h' == LeafDropped(h, v)
    requires o in s1.heap && o != a && o !in s1.heap[a].body.items[..i + 1]
    ensures o in h' && h'[o] == s1.heap[o]
  {
    hide LeafDropped;
    LeafDroppedShape(h, v, h');
    StillNotIn(s1.heap[a].body.items, i, o);
  }

  lemma BodiesKept(s1: Graph, s: Graph, a: Ref, i: nat, v: Ref, h: Heap, h': Heap)
    requires a in s1.heap && s1.heap[a].body.Array? && i < |s1.heap[a].body.items| && Emptied(s1, s, a, i)
    requires s.heap[a].body.Array? && |s.heap[a].body.items| > 0
    requires v in h && v != a && h == TakenOut(s.heap, a, 0) && h' == LeafDropped(h, v)
    ensures a in h' && h'[a] == WithItems(s1.heap[a], s1.heap[a].body.items[i + 1..])
    ensures forall o :: o in h' ==> o in s1.heap && (o != a ==> h'[o].body == s1.heap[o].body)
  {
    hide LeafDropped;
    LeafDroppedShape(h, v, h');
    assert Removed(s1.heap[a].body.items[i..], 0) == s1.heap[a].body.items[i + 1..];
  }

  lemma EmptiedMore(s1: Graph, s: Graph, a: Ref, i: nat, v: Ref, h: Heap, s': Graph)
    requires a in s1.heap && s1.heap[a].body.Array? && i < |s1.heap[a].body.items| && Emptied(s1, s, a, i)
    requires v == s1.heap[a].body.items[i] && v in h && v != a && h == TakenOut(s.heap, a, 0)
    requires s'.heap == LeafDropped(h, v) && s'.ext == s.ext
    ensures Emptied(s1, s', a, i + 1)
  {
    hide LeafDropped, TakenOut;
    BodiesKept(s1, s, a, i, v, h, s'.heap);
    var items := s1.heap[a].body.items;
    forall o | o in s1.heap && o != a && o !in items[..i + 1]
      ensures o in s'.heap && s'.heap[o] == s1.heap[o]
    {
      RestKept(s1, s, a, i, v, h, s'.heap, o);
    }
  }

  lemma EmptiedNext(s1: Graph, s: SoundGraph, a: Ref, i: nat, s': SoundGraph)
    requires a in s1.heap && s1.heap[a].body.Array? && i < |s1.heap[a].body.items| && Emptied(s1, s, a, i)
    requires s.heap[a].body.owning && ItemRemoved(s, s', a, 0) && AllPages(s.heap, s.heap[a].body.items)
    ensures Emptied(s1, s', a, i + 1)
  {
    hide Counted, Quiet, Typed, Cascaded, LeafDropped, Emptied;
    var v := EmptiedFirst(s1, s, a, i);
    PageRemoved(s, a, 0, s');
    EmptiedMore(s1, s, a, i, v, TakenOut(s.heap, a, 0), s');
  }

  /** The group has one page, of the total length; the pages it had are as released by it. */
  ghost predicate Merged(s0: Graph, s: Graph, a: Ref, huge: Ref, total: nat)
    requires a in s0.heap && s0.heap[a].body.Array?
  {
    && huge !in s0.heap && huge in s.heap && s.heap[huge] == NewObject(Page(total))
    && s.ext == s0.ext && a in s.heap && s.heap[a] == WithItems(s0.heap[a], [huge])
    && (forall o :: o in s.heap && o != huge ==> o in s0.heap && (o != a ==> s.heap[o].body == s0.heap[o].body))
    && (forall o :: o in s0.heap && o != a && o !in s0.heap[a].body.items ==> o in s.heap && s.heap[o] == s0.heap[o])
  }

  lemma WithPageShape(h: Heap, a: Ref, p: Ref, n: nat, h': Heap)
    requires a in h && h[a].body.Array? && p !in h && h' == WithPage(h, a, p, n)
    ensures p in h' && a in h' && h'[p] == NewObject(Page(n)) && h'[a] == WithItems(h[a], h[a].body.items + [p])
    ensures forall o :: o in h' <==> o in h || o == p
    ensures forall o :: o in h && o != a ==> h'[o] == h[o]
  {
  }

  lemma MergedAtEnd(s0: SoundGraph, s1: Graph, s: Graph, a: Ref, huge: Ref, total: nat)
    requires a in s0.heap && s0.heap[a].body.Array? && huge !in s0.heap && AllPages(s0.heap, s0.heap[a].body.items)
    requires s1.heap == WithPage(s0.heap, a, huge, total) && s1.ext == s0.ext
    requires Emptied(s1, s, a, |s0.heap[a].body.items|)
    ensures Merged(s0, s, a, huge, total)
  {
    WithPageShape(s0.heap, a, huge, total, s1.heap);
    hide Counted, Quiet, Typed, WithPage;
    var items := s0.heap[a].body.items;
    assert (items + [huge])[..|items|] == items && (items + [huge])[|items|..] == [huge];
    assert huge !in items;
  }

  /** The sum of the pages' lengths. */
  function TotalLength(h: Heap, items: seq<Ref>): nat
    requires AllPages(h, items)
  {
    if items == [] then 0 else TotalLength(h, items[..|items| - 1]) + h[items[|items| - 1]].body.length
  }

  /** Nothing for no pages, and each page adds its length. */
  lemma {:induction false} TotalLengthAdds(h: Heap, xs: seq<Ref>, p: Ref, ys: seq<Ref>)
    requires AllPages(h, xs) && AllPages(h, ys) && p in h && h[p].body.Page?
    ensures AllPages(h, xs + [p] + ys) && AllPages(h, xs + ys)
    ensures TotalLength(h, []) == 0
    ensures TotalLength(h, xs + [p] + ys) == TotalLength(h, xs + ys) + h[p].body.length
  {
    if ys == [] {
      assert xs + [p] + ys == xs + [p] && xs + ys == xs;
      assert (xs + [p])[..|xs|] == xs;
    } else {
      var n := |ys| - 1;
      TotalLengthAdds(h, xs, p, ys[..n]);
      assert (xs + [p] + ys)[..|xs| + 1 + n] == xs + [p] + ys[..n];
      assert (xs + ys)[..|xs| + n] == xs + ys[..n];
    }
  }

  // ---------------------------------------------------------------------------
  // File handles
  // ---------------------------------------------------------------------------

  /** The graph with a new file handle and its group, array and page, each with count 1. */
  function WithFile(h: Heap, p: Ref, n: nat, r: Ref, g: Ref, f: Ref): Heap {
    WithGroup(h[f := NewObject(File(0))], p, n, r, g)[f := NewObject(File(g))]
  }

  /** The same with a file handle. */
  ghost predicate NewFileChain(h: Heap, p: Ref, n: nat, r: Ref, g: Ref, f: Ref, h': Heap) {
    && NewChain(h, p, n, r, g, h') && h'.Keys == h.Keys + {p, r, g, f}
    && h'[f] == Object(false, 1, File(g))
  }

  lemma FileIsNew(h: Heap, p: Ref, n: nat, r: Ref, g: Ref, f: Ref)
    requires p !in h && r !in h && g !in h && f !in h
    requires p != r && p != g && p != f && r != g && r != f && g != f
    ensures NewFileChain(h, p, n, r, g, f, WithFile(h, p, n, r, g, f))
  {
  }

  ghost function WithFileHoldings(m: Holdings, p: Ref, r: Ref, g: Ref, f: Ref): Holdings {
    WithGroupHoldings(m[f := multiset{}], p, r, g)[f := multiset{g}]
  }

  lemma BlankFileHolds(s: SoundGraph, f: Ref)
    requires f in s.heap && s.heap[f].body == File(0)
    ensures s.holds[f] == multiset{} && multiset(Children(File(0))) == multiset{}
  {
  }

  lemma TypedAttached(h: Heap, f: Ref, g: Ref, h': Heap)
    requires Typed(h) && f in h && h[f] == NewObject(File(0)) && g in h && h[g].body.Group?
    requires h' == h[f := NewObject(File(g))]
    ensures Typed(h')
  {
    forall o | o in h'
      ensures WellTyped(h', h'[o])
    {
      assert WellTyped(h, h[o]);
    }
  }

  /** The new file handle takes over the caller's reference to the group. */
  lemma AttachStep(s0: SoundGraph, f: Ref, g: Ref) returns (s: SoundGraph)
    requires f in s0.heap && s0.heap[f] == NewObject(File(0)) && g in s0.ext && f in s0.ext
    requires g in s0.heap && s0.heap[g].body.Group? && g != 0
    ensures s == Graph(s0.heap[f := NewObject(File(g))], s0.holds[f := multiset{g}], s0.ext - multiset{g})
  {
    hide Counted, Typed, Quiet;
    BlankFileHolds(s0, f);
    var h, m, ext := s0.heap[f := NewObject(File(g))], s0.holds[f := multiset{g}], s0.ext - multiset{g};
    assert multiset{} + multiset{g} == multiset{g};
    BalancedStore(s0.heap, s0.holds, s0.ext, f, g);
    BalancedSameCounts(s0.heap, h, m, ext);
    QuietChanged(s0.heap, s0.holds, f, NewObject(File(g)), multiset{g}, h, m);
    TypedAttached(s0.heap, f, g, h);
    s := Graph(h, m, ext);
  }

  lemma WithGroupKeeps(h: Heap, p: Ref, n: nat, r: Ref, g: Ref, f: Ref)
    requires f in h && f != p && f != r && f != g && g != p && g != r
    ensures var h' := WithGroup(h, p, n, r, g); f in h' && h'[f] == h[f] && g in h' && h'[g].body.Group?
  {
  }

  /** Attaching the new group to the new file handle completes the handle. */
  lemma FileAttached(s0: Graph, s1: Graph, f: Ref, p: Ref, n: nat, r: Ref, g: Ref, s2: Graph)
    requires f !in s0.heap && s1 == WithObject(s0, f, File(0))
    requires p !in s1.heap && r !in s1.heap && g !in s1.heap && p != r && p != g && r != g
    requires s2 == Graph(WithGroup(s1.heap, p, n, r, g), WithGroupHoldings(s1.holds, p, r, g), s1.ext + multiset{g})
    ensures f in s2.heap && s2.heap[f] == NewObject(File(0)) && g in s2.heap && s2.heap[g].body.Group?
    ensures g in s2.ext && f in s2.ext
    ensures p !in s0.heap && r !in s0.heap && g !in s0.heap && p != f && r != f && g != f
    ensures Graph(s2.heap[f := NewObject(File(g))], s2.holds[f := multiset{g}], s2.ext - multiset{g}) ==
            Graph(WithFile(s0.heap, p, n, r, g, f), WithFileHoldings(s0.holds, p, r, g, f), s0.ext + multiset{f})
  {
    WithGroupKeeps(s1.heap, p, n, r, g, f);
    hide WithGroup, WithGroupHoldings;
    assert s0.ext + multiset{f} + multiset{g} - multiset{g} == s0.ext + multiset{f};
  }

  lemma ExtendsUpdated(h0: Heap, m0: Holdings, h: Heap, m: Holdings, f: Ref, object_: Object, held: Refs)
    requires m0.Keys == h0.Keys && m.Keys == h.Keys && f !in h0
    requires forall o :: o in h0 ==> o in h && h[o] == h0[o] && m[o] == m0[o]
    ensures m[f := held].Keys == h[f := object_].Keys && Extends(h0, m0, h[f := object_], m[f := held])
  {
  }

  lemma WithFileShape(h0: Heap, m0: Holdings, p: Ref, n: nat, r: Ref, g: Ref, f: Ref, h: Heap, m: Holdings)
    requires m0.Keys == h0.Keys && p !in h0 && r !in h0 && g !in h0 && f !in h0
    requires p != r && p != g && p != f && r != g && r != f && g != f
    requires h == WithFile(h0, p, n, r, g, f) && m == WithFileHoldings(m0, p, r, g, f)
    ensures m.Keys == h.Keys && Extends(h0, m0, h, m)
    ensures forall o :: o in h <==> o in h0 || o == p || o == r || o == g || o == f
    ensures h[p] == NewObject(Page(n)) && h[r] == NewObject(Array([p], true, true))
    ensures h[g] == NewObject(Group(r)) && h[f] == NewObject(File(g))
    ensures m[p] == multiset{} && m[r] == multiset{p} && m[g] == multiset{r} && m[f] == multiset{g}
  {
    hide WithGroup, WithGroupHoldings, Extends;
    var h1, m1 := h0[f := NewObject(File(0))], m0[f := multiset{}];
    var h2, m2 := WithGroup(h1, p, n, r, g), WithGroupHoldings(m1, p, r, g);
    WithGroupShape(h1, m1, p, n, r, g, h2, m2);
    assert forall o :: o in h0 ==> o in h1 && h1[o] == h0[o] && m1[o] == m0[o];
    ExtendsUpdated(h0, m0, h2, m2, f, NewObject(File(g)), multiset{g});
  }

  /** Of four new objects, `f` alone holds `g`, `g` alone holds `r`, and `r` alone holds `p`. */
  ghost predicate IsChain(s0: Graph, s1: Graph, p: Ref, r: Ref, g: Ref, f: Ref)
    requires s0.heap.Keys == s0.holds.Keys && s1.heap.Keys == s1.holds.Keys
  {
    && Extends(s0.heap, s0.holds, s1.heap, s1.holds)
    && p !in s0.heap && r !in s0.heap && g !in s0.heap && f !in s0.heap
    && p != r && p != g && p != f && r != g && r != f && g != f
    && (forall o :: o in s1.heap <==> o in s0.heap || o == p || o == r || o == g || o == f)
    && !s1.heap[p].isStack && !s1.heap[r].isStack && !s1.heap[g].isStack && !s1.heap[f].isStack
    && s1.holds[p] == multiset{} && s1.holds[r] == multiset{p}
    && s1.holds[g] == multiset{r} && s1.holds[f] == multiset{g}
  }

  lemma NewFileIsChain(s0: SoundGraph, p: Ref, n: nat, r: Ref, g: Ref, f: Ref, s1: SoundGraph)
    requires p !in s0.heap && r !in s0.heap && g !in s0.heap && f !in s0.heap
    requires p != r && p != g && p != f && r != g && r != f && g != f
    requires s1 == Graph(WithFile(s0.heap, p, n, r, g, f), WithFileHoldings(s0.holds, p, r, g, f), s0.ext + multiset{f})
    ensures IsChain(s0, s1, p, r, g, f) && Extends(s0.heap, s0.holds, s1.heap, s1.holds)
  {
    hide Counted, Quiet, Typed, WithFile, WithFileHoldings, Extends;
    WithFileShape(s0.heap, s0.holds, p, n, r, g, f, s1.heap, s1.holds);
  }

  lemma FewerLeft(s0: SoundGraph, s1: Graph, p: Ref, r: Ref, g: Ref, f: Ref, s: SoundGraph)
    requires s1.heap.Keys == s1.holds.Keys && IsChain(s0, s1, p, r, g, f)
    requires Shrunk(s1.heap, s1.holds, s.heap, s.holds, {})
    ensures forall o :: o in s.heap ==> o in s0.heap || o == p || o == r || o == g || o == f
  {
  }

  lemma OnlyUpwards(s0: SoundGraph, s1: Graph, p: Ref, r: Ref, g: Ref, f: Ref, k: Ref)
    requires s1.heap.Keys == s1.holds.Keys && IsChain(s0, s1, p, r, g, f) && k in s1.heap && k !in s0.heap
    ensures f !in s1.holds[k] && (k != f ==> g !in s1.holds[k]) && (k != g ==> r !in s1.holds[k])
    ensures k != r ==> p !in s1.holds[k]
  {
  }

  lemma LinkIsFreed(s0: SoundGraph, s1: Graph, p: Ref, r: Ref, g: Ref, f: Ref, s: SoundGraph, o: Ref)
    requires s1.heap.Keys == s1.holds.Keys && IsChain(s0, s1, p, r, g, f)
    requires s.ext == s0.ext && Shrunk(s1.heap, s1.holds, s.heap, s.holds, {})
    requires o == f || (o == g && f !in s.heap) || (o == r && g !in s.heap) || (o == p && r !in s.heap)
    ensures o !in s.heap
  {
    hide Counted, Quiet, Typed, Extends;
    assert o !in s0.heap && o in s1.heap && !s1.heap[o].isStack && Extends(s0.heap, s0.holds, s1.heap, s1.holds);
    assert s.heap.Keys <= s1.heap.Keys;
    hide IsChain, Shrunk;
    forall k | k in s.heap && k !in s0.heap
      ensures o !in s1.holds[k]
    {
      OnlyUpwards(s0, s1, p, r, g, f, k);
    }
    NewIsFreed(s0.heap, s0.holds, s0.ext, s1.heap, s1.holds, o, s.heap, s.holds);
  }

  lemma ChainIsFreed(s0: SoundGraph, p: Ref, r: Ref, g: Ref, f: Ref, s1: Graph, s: SoundGraph)
    requires s1.heap.Keys == s1.holds.Keys && IsChain(s0, s1, p, r, g, f)
    requires s.ext == s0.ext && Cascaded(s1.heap, s1.holds, s.heap, s.holds, s.ext, {})
    ensures forall o :: o in s.heap ==> o in s0.heap
  {
    FewerLeft(s0, s1, p, r, g, f, s);
    hide Counted, Quiet, Typed, IsChain, Shrunk, KeepsSupported;
    LinkIsFreed(s0, s1, p, r, g, f, s, f);
    LinkIsFreed(s0, s1, p, r, g, f, s, g);
    LinkIsFreed(s0, s1, p, r, g, f, s, r);
    LinkIsFreed(s0, s1, p, r, g, f, s, p);
  }

  /** Releasing a file handle that no one else retained frees it, its group, its array and its page: nothing is left. */
  lemma FileReleased(s0: SoundGraph, p: Ref, n: nat, r: Ref, g: Ref, f: Ref, s1: SoundGraph, s: SoundGraph)
    requires p !in s0.heap && r !in s0.heap && g !in s0.heap && f !in s0.heap
    requires p != r && p != g && p != f && r != g && r != f && g != f
    requires s1 == Graph(WithFile(s0.heap, p, n, r, g, f), WithFileHoldings(s0.holds, p, r, g, f), s0.ext + multiset{f})
    requires s.ext == s1.ext - multiset{f} && Cascaded(s1.heap, s1.holds, s.heap, s.holds, s.ext, {})
    ensures s == s0
  {
    hide Counted, Quiet, Typed, WithFile, WithFileHoldings, Extends, Cascaded, IsChain;
    assert s0.ext + multiset{f} - multiset{f} == s0.ext;
    NewFileIsChain(s0, p, n, r, g, f, s1);
    ChainIsFreed(s0, p, r, g, f, s1, s);
    Restored(s0.heap, s0.holds, s0.ext, s1.heap, s1.holds, s.heap, s.holds);
  }
}
