/** The object runtime: retain, release with its cascading deinit, and the containers built on them. */
module ObjectRuntime {
  import opened Allocation
  import opened Cascade
  import opened Counting
  import opened Soundness
  import opened Steps

  /** What a release leaves, for all objects together. */
  lemma ReleaseLeaves(s0: SoundGraph, s: SoundGraph)
    requires Cascaded(s0.heap, s0.holds, s.heap, s.holds, s.ext, {})
    ensures forall o :: o in s0.heap && !s0.heap[o].isStack ==>
              (o in s.heap <==> exists p :: Explains(s0.holds, s.ext, p, o))
    ensures s.ext == multiset{} ==> ((forall o :: o in s.heap ==> s.heap[o].isStack) <==> Acyclic(s0.holds))
  {
    hide Counted, Quiet, Typed, Explains, Acyclic, Shrunk, KeepsSupported, AtRest;
    SoundIsAtRest(s0.heap, s0.holds, s0.ext);
    SoundIsAtRest(s.heap, s.holds, s.ext);
    forall o | o in s0.heap && !s0.heap[o].isStack
      ensures o in s.heap <==> exists p :: Explains(s0.holds, s.ext, p, o)
    {
      SurvivorsExactly(s0.heap, s0.holds, s0.ext, s.heap, s.holds, s.ext, o);
    }
    if s.ext == multiset{} {
      NothingLeftExactly(s0.heap, s0.holds, s0.ext, s.heap, s.holds);
    }
  }

  lemma {:induction false} UpperBound(used: set<Ref>) returns (bound: nat)
    ensures forall r :: r in used ==> r <= bound
  {
    if used == {} {
      bound := 0;
    } else {
      var r :| r in used;
      var rest := used - {r};
      bound := UpperBound(rest);
      if bound < r {
        bound := r;
      }
      assert forall o :: o in used ==> o == r || o in rest;
    }
  }

  lemma SomeAddressIsFree(used: set<Ref>)
    ensures exists r: Ref :: r !in used && r != 0
  {
    var bound := UpperBound(used);
    assert bound + 1 !in used;
  }

  class Runtime {
    /** The allocated objects. A freed object is no longer in the map, so that it cannot be accessed. */
    var heap: Heap

    /** The references each object accounts for: its children, or in mid-deinit the slots not yet released. */
    ghost var holds: Holdings

    /** The references that clients have outstanding. */
    ghost var ext: Refs

    /** The state is the given one. */
    ghost predicate At(h: Heap, m: Holdings, base: Refs)
      reads this
    {
      heap == h && holds == m && ext == base
    }

    /** `atomic_fetch_sub` on the count: the old value is returned. */
    method FetchSub(r: Ref) returns (old_: int)
      requires r in heap
      modifies this`heap
      ensures old_ == old(heap)[r].count && heap == Lowered(old(heap), r)
    {
      old_ := heap[r].count;
      heap := Lowered(heap, r);
    }

    /** `EFObjectDealloc`, when the deinit is over. */
    method Dealloc(r: Ref, ghost base: Refs, ghost h0: Heap, ghost m0: Holdings)
        returns (ghost h: Heap, ghost m: Holdings)
      requires At(h0, m0, base) && Balanced(h0, m0, base) && Settled(h0, m0, base)
      requires r in h0 && IsDying(h0[r]) && m0[r] == multiset{}
      modifies this
      ensures At(h, m, base) && h == h0 - {r} && m == m0 - {r}
      ensures Balanced(h, m, base) && Settled(h, m, base)
    {
      BalancedFree(h0, m0, base, r);
      SettledFreed(h0, m0, base, r);
      h, m := h0 - {r}, m0 - {r};
      var rest := heap - {r};
      assert rest == h;
      heap := rest;
      holds := m;
    }

    /** Releases a reference that was just taken out of a slot. */
    method DropTaken(c: Ref, ghost base: Refs, ghost h1: Heap, ghost m1: Holdings)
        returns (ghost h: Heap, ghost m: Holdings)
      requires heap == h1 && ext == base
      requires Balanced(h1, m1, base + multiset{c}) && Settled(h1, m1, base)
      modifies this
      ensures At(h, m, base)
      ensures Balanced(h, m, base) && Settled(h, m, base) && Cascaded(h1, m1, h, m, base, {})
      decreases |Alive(h1)|, 1, 1
    {
      hide Counted, Settled, Cascaded, Alive;
      holds := m1;
      ext := base + multiset{c};
      h, m := Drop(c, base, h1, m1);
    }

    /** Releases one slot of an object whose deinit started in the state `(h0, m0)`. */
    method ReleaseSlot(d: Ref, c: Ref, ghost rest: seq<Ref>, ghost base: Refs, ghost h1: Heap, ghost m1: Holdings,
                       ghost h0: Heap, ghost m0: Holdings)
        returns (ghost h: Heap, ghost m: Holdings)
      requires At(h1, m1, base) && Balanced(h1, m1, base) && Settled(h1, m1, base)
      requires d in h1 && IsDying(h1[d]) && m1[d] == multiset([c] + rest)
      requires m0.Keys == h0.Keys && Cascaded(h0, m0, h1, m1, base, {d})
      modifies this
      ensures At(h, m, base) && Balanced(h, m, base) && Settled(h, m, base)
      ensures Cascaded(h0, m0, h, m, base, {d}) && d in h && h[d] == h1[d] && m[d] == multiset(rest)
      ensures |Alive(h)| <= |Alive(h1)|
      decreases |Alive(h1)|, 1, 2
    {
      ghost var less := multiset(rest);
      ghost var m1' := m1[d := less];
      SlotTaken(h1, m1, base, d, c, rest);
      h, m := DropTaken(c, base, h1, m1');
      SlotReleased(h0, m0, h1, m1, d, less, h, m, base);
    }

    /** Releases the slots of an object in mid-deinit one after the other. */
    method ReleaseAll(d: Ref, items: seq<Ref>, ghost base: Refs, ghost h0: Heap, ghost m0: Holdings)
        returns (ghost h: Heap, ghost m: Holdings)
      requires At(h0, m0, base) && Balanced(h0, m0, base) && Settled(h0, m0, base)
      requires d in h0 && IsDying(h0[d]) && m0[d] == multiset(items)
      modifies this
      ensures At(h, m, base) && Balanced(h, m, base) && Settled(h, m, base)
      ensures Cascaded(h0, m0, h, m, base, {d}) && d in h && h[d] == h0[d] && m[d] == multiset{}
      decreases |Alive(h0)|, 2, 0
    {
      CascadedRefl(h0, m0, base, {d});
      assert items[0..] == items;
      h, m := h0, m0;
      var index := 0;
      while index < |items|
        invariant 0 <= index <= |items|
        invariant At(h, m, base) && Balanced(h, m, base) && Settled(h, m, base)
        invariant Cascaded(h0, m0, h, m, base, {d}) && d in h && h[d] == h0[d] && m[d] == multiset(items[index..])
        invariant |Alive(h)| <= |Alive(h0)|
      {
        HeadAndRest(items, index);
        h, m := ReleaseSlot(d, items[index], items[index + 1..], base, h, m, h0, m0);
        index := index + 1;
      }
    }

    /** The `deinit` handler of the object's class: releases every child, in order. */
    method Deinit(d: Ref, ghost base: Refs, ghost h0: Heap, ghost m0: Holdings)
        returns (ghost h: Heap, ghost m: Holdings)
      requires At(h0, m0, base) && Balanced(h0, m0, base) && Settled(h0, m0, base)
      requires d in h0 && IsDying(h0[d]) && m0[d] == multiset(Children(h0[d].body))
      modifies this
      ensures At(h, m, base) && Balanced(h, m, base) && Settled(h, m, base)
      ensures Cascaded(h0, m0, h, m, base, {d}) && d in h && h[d] == h0[d] && m[d] == multiset{}
      decreases |Alive(h0)|, 3, 0
    {
      CascadedRefl(h0, m0, base, {d});
      h, m := h0, m0;
      match heap[d].body
      case Array(items, _, owning) =>
        if owning {
          h, m := ReleaseAll(d, items, base, h0, m0);
        }
      case Group(pages) =>
        h, m := ReleaseSlot(d, pages, [], base, h0, m0, h0, m0);
      case File(pageGroup) =>
        if pageGroup != 0 {
          h, m := ReleaseSlot(d, pageGroup, [], base, h0, m0, h0, m0);
        }
      case _ =>
    }

    /** What the release of the last reference goes on to do: the deinit handler, then the deallocation. */
    method Destroy(r: Ref, ghost base: Refs, ghost h0: Heap, ghost m0: Holdings, ghost h1: Heap)
        returns (ghost h: Heap, ghost m: Holdings)
      requires r in h0 && !h0[r].isStack && h0[r].count == 1 && m0.Keys == h0.Keys
      requires h1 == Lowered(h0, r) && m0[r] == multiset(Children(h0[r].body))
      requires At(h1, m0, base) && Balanced(h1, m0, base) && Settled(h1, m0, base)
      modifies this
      ensures At(h, m, base)
      ensures Balanced(h, m, base) && Settled(h, m, base) && Cascaded(h0, m0, h, m, base, {})
      decreases |Alive(h1)|, 4, 0
    {
      h, m := Deinit(r, base, h1, m0);
      CascadeFrees(h0, m0, r, h, m, base);
      h, m := Dealloc(r, base, h, m);
    }

    /**
     * `EFRelease`, at any point of a run: from the state `(h0, m0)` with one reference to `r` more than `base` to the
     * state `(h, m)`, where that reference, and every object that it alone kept alive, is gone.
     */
    method Drop(r: Ref, ghost base: Refs, ghost h0: Heap, ghost m0: Holdings) returns (ghost h: Heap, ghost m: Holdings)
      requires At(h0, m0, base + multiset{r})
      requires Balanced(h0, m0, base + multiset{r}) && Settled(h0, m0, base)
      modifies this
      ensures At(h, m, base)
      ensures Balanced(h, m, base) && Settled(h, m, base) && Cascaded(h0, m0, h, m, base, {})
      ensures r in h0 && (h0[r].count > 1 && !h0[r].isStack ==> h == Lowered(h0, r) && m == m0)
      decreases |Alive(h0)|, 1, 0
    {
      hide Counted, Settled, Cascaded, Alive;
      OneLess(h0, m0, base, r);
      h, m := h0, m0;
      if heap[r].isStack {
        CascadedRefl(h0, m0, base, {});
        ext := base;
        return;
      }
      var old_ := FetchSub(r);
      assert old_ >= 1;  // the underflow branch of the source is not reachable
      ext := base;
      h := Lowered(h0, r);
      if old_ == 1 {
        h, m := Destroy(r, base, h0, m0, h);
      }
    }

    // -------------------------------------------------------------------------
    // Retain and release
    // -------------------------------------------------------------------------

    /** The invariant between calls. */
    ghost predicate Valid()
      reads this
    {
      Sound(heap, holds, ext)
    }

    ghost predicate Is(s: Graph)
      reads this
    {
      heap == s.heap && holds == s.holds && ext == s.ext
    }

    ghost function State(): (s: SoundGraph)
      requires Valid()
      reads this
      ensures Is(s)
    {
      Graph(heap, holds, ext)
    }

    /** `atomic_fetch_add` on the count of an object that is counted. */
    method FetchAdd(r: Ref)
      requires r in heap
      modifies this`heap
      ensures heap == Raised(old(heap), r)
    {
      if !heap[r].isStack {
        heap := heap[r := heap[r].(count := heap[r].count + 1)];
      }
    }

    /** `EFRetain` of an object the caller has a pointer to. */
    method Retain(r: Ref, ghost s0: SoundGraph) returns (ghost s: SoundGraph)
      requires Is(s0) && Accessible(s0.heap, r)
      modifies this
      ensures Is(s) && s == Graph(Raised(s0.heap, r), s0.holds, s0.ext + multiset{r})
    {
      hide Counted, Quiet, Typed;
      s := RetainStep(s0, r);
      FetchAdd(r);
      ext := s.ext;
    }

    /** `EFRelease` between calls. */
    method ReleaseAt(r: Ref, ghost s0: SoundGraph) returns (ghost s: SoundGraph)
      requires Is(s0) && r in s0.ext
      modifies this
      ensures Is(s) && s.ext == s0.ext - multiset{r}
      ensures Cascaded(s0.heap, s0.holds, s.heap, s.holds, s.ext, {})
      ensures r in s0.heap
      ensures s0.heap[r].count > 1 && !s0.heap[r].isStack ==> s.heap == Lowered(s0.heap, r) && s.holds == s0.holds
    {
      hide Counted, Quiet, Typed, KeepsSupported;
      ghost var base := s0.ext - multiset{r};
      assert s0.ext == base + multiset{r};
      QuietIsSettled(s0.heap, s0.holds, base);
      ghost var h, m := Drop(r, base, s0.heap, s0.holds);
      SoundAfterCascade(s0.heap, s0.holds, s0.ext, h, m, base);
      s := Graph(h, m, base);
    }

    /**
     * `EFRelease` of a reference that the caller owns: what is left allocated is the greatest set of objects that
     * supports itself without that reference. On the heap that is exactly what was reached from a remaining reference
     * or from a cycle; after the last reference, nothing if and only if there was no cycle.
     */
    method Release(r: Ref)
      requires Valid() && r in ext
      modifies this
      ensures Valid() && ext == old(ext) - multiset{r}
      ensures old(holds).Keys == old(heap).Keys && Shrunk(old(heap), old(holds), heap, holds, {})
      ensures Supported(heap.Keys, heap, holds, ext)
      ensures KeepsSupported(old(heap), old(holds), heap, ext, {})
      ensures forall o :: o in old(heap) && !old(heap)[o].isStack ==>
                (o in heap <==> exists p :: Explains(old(holds), ext, p, o))
      ensures ext == multiset{} ==> ((forall o :: o in heap ==> heap[o].isStack) <==> Acyclic(old(holds)))
    {
      hide Counted, Quiet, Typed, Explains, Acyclic, Shrunk, KeepsSupported;
      ghost var s0 := State();
      ghost var s := ReleaseAt(r, s0);
      HeapSupported(s.heap, s.holds, s.ext);
      ReleaseLeaves(s0, s);
    }

    // -------------------------------------------------------------------------
    // Allocation
    // -------------------------------------------------------------------------

    /** Some address that is not in use. */
    method FreshAddress() returns (r: Ref)
      ensures r !in heap && r != 0
    {
      SomeAddressIsFree(heap.Keys);
      r :| r !in heap && r != 0;
    }

    /** A cleared object appears in memory. */
    method Install(r: Ref, body: Body, ghost s: Graph)
      requires s.heap == heap[r := NewObject(body)]
      modifies this
      ensures Is(s)
    {
      heap := heap[r := NewObject(body)];
      holds := s.holds;
      ext := s.ext;
    }

    /** `EFObjectAlloc`: a cleared object with count 1, or NULL. */
    method Allocate(a: Allocator, body: Body, ghost s0: SoundGraph) returns (r: Ref, ghost s: SoundGraph)
      requires Is(s0) && IsBlank(body)
      modifies this, a
      ensures Is(s)
      ensures r == 0 ==> s == s0 && a.failures > old(a.failures)
      ensures r != 0 ==> a.failures == old(a.failures) && r !in s0.heap
      ensures r != 0 ==>
                s == WithObject(s0, r, body)
    {
      hide Counted, Quiet, Typed;
      s := s0;
      var granted := a.Request();
      if !granted {
        return 0, s;
      }
      r := FreshAddress();
      s := AllocateStep(s0, r, body);
      Install(r, body, s);
    }

    /** Gives up the only object that was added: nothing has changed. */
    method GiveUp(r: Ref, ghost s0: SoundGraph, ghost s1: SoundGraph, ghost body: Body)
      requires Is(s1) && s1.ext == s0.ext + multiset{r}
      requires Added(s0.heap, s0.holds, s1.heap, s1.holds, r, body) && r !in s1.holds[r]
      modifies this
      ensures Is(s0)
    {
      hide Counted, Quiet, Typed, Extends, Cascaded;
      ghost var s := ReleaseAt(r, s1);
      assert s0.ext + multiset{r} - multiset{r} == s0.ext;
      GiveUpStep(s0, s1, r, body, s);
    }

    /** `EFPageCreateWithOptions` with an anonymous mapping: when there is no memory to map, the object is released. */
    method CreatePage(a: Allocator, length: nat, ghost s0: SoundGraph) returns (r: Ref, ghost s: SoundGraph)
      requires Is(s0)
      modifies this, a
      ensures Is(s) && a.failures >= old(a.failures)
      ensures r == 0 ==> s == s0 && (a.failures > old(a.failures) || length == 0)
      ensures r != 0 ==> a.failures == old(a.failures) && length > 0 && r !in s0.heap
      ensures r != 0 ==>
                s == WithObject(s0, r, Page(length))
    {
      hide Counted, Quiet, Typed, Extends;
      r, s := Allocate(a, Page(length), s0);
      if r == 0 {
        return;
      }
      var mapped := length > 0;
      if mapped {
        mapped := a.Request();
      }
      if !mapped {
        AddedBlank(s0.heap, s0.holds, r, Page(length), s.heap, s.holds);
        GiveUp(r, s0, s, Page(length));
        return 0, s0;
      }
    }

    // -------------------------------------------------------------------------
    // Arrays
    // -------------------------------------------------------------------------

    /** `EFArrayCreateMutable`. */
    method CreateArray(a: Allocator, capacity: nat, owning: bool, ghost s0: SoundGraph)
        returns (r: Ref, ghost s: SoundGraph)
      requires Is(s0)
      modifies this, a
      ensures Is(s)
      ensures r == 0 ==> s == s0 && a.failures > old(a.failures)
      ensures r != 0 ==> a.failures == old(a.failures) && r !in s0.heap
      ensures r != 0 ==> s == WithObject(s0, r, Array([], true, owning))
      ensures r != 0 ==> Added(s0.heap, s0.holds, s.heap, s.holds, r, Array([], true, owning))
    {
      hide Counted, Quiet, Typed, Extends;
      s := s0;
      if capacity > 0 {
        var granted := a.Request();
        if !granted {
          return 0, s;
        }
      }
      r, s := Allocate(a, Array([], true, owning), s0);
      if r != 0 {
        AddedBlank(s0.heap, s0.holds, r, Array([], true, owning), s.heap, s.holds);
      }
    }

    /** Room for one more item: whether the buffer is full is decided in `Arrays`. */
    method ResizeIfNeeded(a: Allocator) returns (ok: bool)
      modifies a
      ensures a.failures >= old(a.failures)
      ensures ok <==> a.failures == old(a.failures)
    {
      var full: bool := *;
      ok := true;
      if full {
        ok := a.Request();
      }
    }

    /** The `append` callback and the store into the buffer. */
    method RetainThenPut(array_: Ref, index: nat, v: Ref)
      requires array_ in heap && heap[array_].body.Array? && index <= |heap[array_].body.items|
      requires heap[array_].body.owning ==> v in heap
      modifies this`heap
      ensures heap == StoredHeap(old(heap), array_, index, v)
    {
      RaisedBodies(heap, array_, v);
      if heap[array_].body.owning {
        FetchAdd(v);
      }
      heap := PutIn(heap, array_, index, v);
    }

    /** `EFArrayAppendValue` (at the end) and `EFArrayInsertValueAtIndex` on an array that exists. */
    method StoreAt(a: Allocator, array_: Ref, index: nat, v: Ref, ghost s0: SoundGraph)
        returns (ok: bool, ghost s: SoundGraph)
      requires Is(s0) && array_ in s0.heap && s0.heap[array_].body.Array?
      requires Accessible(s0.heap, array_) || (v in s0.heap && s0.heap[v].body.Page?)
      requires v != 0 && s0.heap[array_].body.owning ==> Accessible(s0.heap, v)
      modifies this, a
      ensures Is(s) && a.failures >= old(a.failures)
      ensures !ok ==> s == s0
      ensures ok ==> v != 0 && index <= |s0.heap[array_].body.items| && s0.heap[array_].body.isMutable
      ensures ok ==> a.failures == old(a.failures)
      ensures v != 0 && index <= |s0.heap[array_].body.items| && s0.heap[array_].body.isMutable && !ok ==>
                a.failures > old(a.failures)
      ensures ok ==> s == Graph(StoredHeap(s0.heap, array_, index, v),
                                StoredHoldings(s0.heap, s0.holds, array_, v), s0.ext)
      ensures ok ==> array_ in s.heap && s.heap[array_].body.Array?
      ensures ok ==>
                var before, after := s0.heap[array_].body, s.heap[array_].body;
                && after.isMutable == before.isMutable && after.owning == before.owning
                && |after.items| == |before.items| + 1 && after.items[index] == v
                && (forall k :: 0 <= k < index ==> after.items[k] == before.items[k])
                && (forall k :: index <= k < |before.items| ==> after.items[k + 1] == before.items[k])
    {
      hide Counted, Quiet, Typed, StoredHeap;
      s := s0;
      if v == 0 || !heap[array_].body.isMutable || index > |heap[array_].body.items| {
        return false, s;
      }
      ok := ResizeIfNeeded(a);
      if !ok {
        return;
      }
      s := StoreStep(s0, array_, index, v);
      StoredItems(s0.heap, array_, index, v);
      RetainThenPut(array_, index, v);
      holds := s.holds;
    }

    /** One round of the copying loop; when the append fails the copy is released. */
    method CopyItem(a: Allocator, source: Ref, r: Ref, index: nat, items: seq<Ref>, owning: bool,
                    ghost s0: SoundGraph, ghost s1: SoundGraph)
        returns (ok: bool, ghost s: SoundGraph)
      requires source in s0.heap && s0.heap[source].body.Array?
      requires items == s0.heap[source].body.items && owning == s0.heap[source].body.owning && index < |items|
      requires Is(s1) && s1.ext == s0.ext + multiset{r}
      requires Added(s0.heap, s0.holds, s1.heap, s1.holds, r, Array(items[..index], true, owning))
      modifies this, a
      ensures Is(s)
      ensures !ok ==> s == s0 && a.failures > old(a.failures)
      ensures ok ==> a.failures == old(a.failures) && s.ext == s0.ext + multiset{r}
      ensures ok ==> Added(s0.heap, s0.holds, s.heap, s.holds, r, Array(items[..index + 1], true, owning))
    {
      hide Counted, Quiet, Typed, Extends;
      SourceItem(s0.heap, s0.holds, s0.ext, source, index);
      AddedAccessible(s0.heap, s0.holds, s0.ext, s1.heap, s1.holds, r, Array(items[..index], true, owning));
      ok, s := StoreAt(a, r, index, items[index], s1);
      if ok {
        AddedItem(s0.heap, s0.holds, s1.heap, s1.holds, r, owning, items, index, s.heap, s.holds);
      } else {
        CopiedNotSelfHeld(s0.heap, s0.holds, s0.ext, source, r, index, s1.heap, s1.holds);
        GiveUp(r, s0, s1, Array(items[..index], true, owning));
        s := s0;
      }
    }

    /** The copying loop. */
    method CopyItems(a: Allocator, source: Ref, r: Ref, items: seq<Ref>, owning: bool,
                     ghost s0: SoundGraph, ghost s1: SoundGraph)
        returns (ok: bool, ghost s: SoundGraph)
      requires source in s0.heap && s0.heap[source].body.Array?
      requires items == s0.heap[source].body.items && owning == s0.heap[source].body.owning
      requires Is(s1) && s1.ext == s0.ext + multiset{r}
      requires Added(s0.heap, s0.holds, s1.heap, s1.holds, r, Array([], true, owning))
      modifies this, a
      ensures Is(s)
      ensures !ok ==> s == s0 && a.failures > old(a.failures)
      ensures ok ==> a.failures == old(a.failures) && s.ext == s0.ext + multiset{r}
      ensures ok ==> Added(s0.heap, s0.holds, s.heap, s.holds, r, Array(items, true, owning))
    {
      hide Counted, Quiet, Typed, Extends;
      ok, s := true, s1;
      assert items[..0] == [];
      var index := 0;
      while index < |items|
        invariant 0 <= index <= |items|
        invariant ok && a.failures == old(a.failures)
        invariant Is(s) && s.ext == s0.ext + multiset{r}
        invariant Added(s0.heap, s0.holds, s.heap, s.holds, r, Array(items[..index], true, owning))
      {
        ok, s := CopyItem(a, source, r, index, items, owning, s0, s);
        if !ok {
          return;
        }
        index := index + 1;
      }
      assert items[..index] == items;
    }

    /** `isMutable` of the copy is set last. */
    method SetMutable(r: Ref, isMutable: bool, ghost items: seq<Ref>, ghost owning: bool,
                      ghost s0: SoundGraph, ghost s1: SoundGraph) returns (ghost s: SoundGraph)
      requires Is(s1) && Added(s0.heap, s0.holds, s1.heap, s1.holds, r, Array(items, true, owning))
      modifies this`heap
      ensures Is(s) && s.ext == s1.ext
      ensures Added(s0.heap, s0.holds, s.heap, s.holds, r, Array(items, isMutable, owning))
    {
      hide Counted, Quiet, Typed, Extends;
      s := FreezeStep(s0, s1, r, items, owning, isMutable);
      heap := Frozen(heap, r, isMutable);
    }

    /** `__EFArrayCreateCopy`: all items, each retained by the copy if the array retains items, or nothing at all. */
    method CopyArray(a: Allocator, source: Ref, isMutable: bool, ghost s0: SoundGraph)
        returns (r: Ref, ghost s: SoundGraph)
      requires Is(s0) && source in s0.heap && s0.heap[source].body.Array?
      modifies this, a
      ensures Is(s)
      ensures r == 0 ==> s == s0 && a.failures > old(a.failures)
      ensures r != 0 ==> a.failures == old(a.failures) && s.ext == s0.ext + multiset{r}
      ensures r != 0 ==>
                var body := s0.heap[source].body;
                Added(s0.heap, s0.holds, s.heap, s.holds, r, Array(body.items, isMutable, body.owning))
    {
      hide Counted, Quiet, Typed, Extends;
      var items, owning := heap[source].body.items, heap[source].body.owning;
      r, s := CreateArray(a, |items|, owning, s0);
      if r == 0 {
        return;
      }
      var ok;
      ok, s := CopyItems(a, source, r, items, owning, s0, s);
      if !ok {
        return 0, s;
      }
      s := SetMutable(r, isMutable, items, owning, s0, s);
    }
  }
}
