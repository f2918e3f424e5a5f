/** Containers built on the runtime: removal from arrays, page groups and file handles. No failure leaks anything. */
module Groups {
  import opened Allocation
  import opened Cascade
  import opened Counting
  import opened GroupSteps
  import opened ObjectRuntime
  import opened Removal
  import opened Soundness
  import opened Steps

  // ---------------------------------------------------------------------------
  // Removal
  // ---------------------------------------------------------------------------

  /** Closes the gap with `memmove`. */
  method CloseSlot(rt: Runtime, array_: Ref, index: nat)
    requires array_ in rt.heap && rt.heap[array_].body.Array? && index < |rt.heap[array_].body.items|
    modifies rt`heap
    ensures rt.heap == TakenOut(old(rt.heap), array_, index)
  {
    rt.heap := TakenOut(rt.heap, array_, index);
  }

  /**
   * Releases an item and then closes its slot. `base` are the references of the caller, among them one to the array;
   * during the release the array no longer accounts for the item, although the item is still in the slot.
   */
  method ReleaseItem(rt: Runtime, array_: Ref, index: nat, ghost base: Refs, ghost h0: Heap, ghost m0: Holdings)
      returns (ghost h: Heap, ghost m: Holdings)
    requires rt.At(h0, m0, base) && Balanced(h0, m0, base) && Settled(h0, m0, base) && array_ in base
    requires array_ in h0 && !h0[array_].isStack && !IsDying(h0[array_]) && h0[array_].body.Array?
    requires index < |h0[array_].body.items| && h0[array_].body.items[index] in m0[array_]
    modifies rt
    ensures rt.At(h, m, base) && Balanced(h, m, base)
    ensures var v := h0[array_].body.items[index];
            TakenOut(h0, array_, index).Keys == h0.Keys &&
            Cascaded(TakenOut(h0, array_, index), m0[array_ := m0[array_] - multiset{v}], h, m, base, {})
  {
    hide Counted, TakenOut, Settled, Shrunk, KeepsSupported;
    var v := rt.heap[array_].body.items[index];
    ghost var m1 := m0[array_ := m0[array_] - multiset{v}];
    ItemTaken(h0, m0, base, array_, v, m1);
    h, m := rt.DropTaken(v, base, h0, m1);
    h := SlotClosed(h0, m1, h, m, base, array_, index);
    CloseSlot(rt, array_, index);
  }

  /** The case of an array that retains its items. */
  method RemoveItem(rt: Runtime, array_: Ref, index: nat, ghost s0: SoundGraph) returns (ghost s: SoundGraph)
    requires rt.Is(s0) && array_ in s0.ext && array_ in s0.heap && s0.heap[array_].body.Array?
    requires s0.heap[array_].body.owning && index < |s0.heap[array_].body.items|
    modifies rt
    ensures rt.Is(s) && ItemRemoved(s0, s, array_, index)
    ensures array_ in TakenOut(s0.heap, array_, index)
    ensures array_ in s.heap && s.heap[array_].body == TakenOut(s0.heap, array_, index)[array_].body
  {
    hide Counted, Quiet, Typed, TakenOut, Settled, Cascaded, ItemRemoved;
    QuietIsSettled(s0.heap, s0.holds, s0.ext);
    ItemIsHeld(s0, array_, index);
    TakenOutItems(s0.heap, array_, index);
    ghost var h, m := ReleaseItem(rt, array_, index, s0.ext, s0.heap, s0.holds);
    s := RemovedAndClosed(s0, array_, index, h, m);
  }

  /** `EFArrayRemoveValueAtIndex` on an array that the caller has a reference to. */
  method RemoveValueAtIndex(rt: Runtime, array_: Ref, index: nat, ghost s0: SoundGraph) returns (ghost s: SoundGraph)
    requires rt.Is(s0)
    requires array_ == 0 || (array_ in s0.ext && array_ in s0.heap && s0.heap[array_].body.Array?)
    modifies rt
    ensures rt.Is(s)
    ensures var removes := array_ != 0 && s0.heap[array_].body.isMutable && index < |s0.heap[array_].body.items|;
            && (!removes ==> s == s0)
            && (removes && s0.heap[array_].body.owning ==> ItemRemoved(s0, s, array_, index))
            && (removes && !s0.heap[array_].body.owning ==>
                  s == Graph(TakenOut(s0.heap, array_, index), s0.holds, s0.ext))
    ensures array_ != 0 && s0.heap[array_].body.isMutable && index < |s0.heap[array_].body.items| ==>
              && array_ in s.heap && s.heap[array_].body.Array?
              && var items, items' := s0.heap[array_].body.items, s.heap[array_].body.items;
                 && |items'| == |items| - 1
                 && (forall k :: 0 <= k < index ==> items'[k] == items[k])
                 && (forall k :: index <= k < |items'| ==> items'[k] == items[k + 1])
  {
    hide Counted, Quiet, Typed, TakenOut, ItemRemoved;
    s := s0;
    if array_ == 0 || !rt.heap[array_].body.isMutable || index >= |rt.heap[array_].body.items| {
      return;
    }
    TakenOutItems(s0.heap, array_, index);
    if rt.heap[array_].body.owning {
      s := RemoveItem(rt, array_, index, s0);
    } else {
      s := PointerRemovalStep(s0, array_, index);
      CloseSlot(rt, array_, index);
    }
  }

  /** The same for the array of a group that the caller has a reference to. */
  method RemoveFromGroup(rt: Runtime, group: Ref, array_: Ref, index: nat, ghost s0: SoundGraph)
      returns (ghost s: SoundGraph)
    requires rt.Is(s0) && group in s0.ext && group in s0.heap && s0.heap[group].body == Group(array_)
    requires array_ in s0.heap && s0.heap[array_].body.Array? && index < |s0.heap[array_].body.items|
    requires s0.heap[array_].body.owning
    modifies rt
    ensures rt.Is(s) && ItemRemoved(s0, s, array_, index)
  {
    hide Counted, Quiet, Typed, TakenOut, Settled, Cascaded, ItemRemoved;
    ghost var lent, base := LendStep(s0, group, array_);
    ItemIsHeld(s0, array_, index);
    rt.holds, rt.ext := lent, base;
    ghost var h, m := ReleaseItem(rt, array_, index, base, s0.heap, lent);
    s := ReturnStep(s0, group, array_, index, lent, base, h, m);
    rt.holds, rt.ext := s.holds, s.ext;
  }

  // ---------------------------------------------------------------------------
  // Page groups
  // ---------------------------------------------------------------------------

  /** The check at the head of `EFPageGroupCreateWithPages`. */
  method AreAllPages(rt: Runtime, items: seq<Ref>) returns (ok: bool)
    requires forall i :: 0 <= i < |items| ==> items[i] in rt.heap
    ensures ok <==> AllPages(rt.heap, items)
  {
    var i := 0;
    while i < |items|
      invariant 0 <= i <= |items|
      invariant forall k :: 0 <= k < i ==> items[k] in rt.heap && rt.heap[items[k]].body.Page?
    {
      if !rt.heap[items[i]].body.Page? {
        return false;
      }
      i := i + 1;
    }
    return true;
  }

  /** The copy of the array and the group for it. */
  method GroupOfCopy(rt: Runtime, a: Allocator, pages: Ref, ghost items: seq<Ref>, ghost s0: SoundGraph)
      returns (g: Ref, ghost r: Ref, ghost s: SoundGraph)
    requires rt.Is(s0) && pages in s0.heap && s0.heap[pages].body.Array?
    requires items == s0.heap[pages].body.items && AllPages(s0.heap, items)
    modifies rt, a
    ensures rt.Is(s)
    ensures g == 0 ==> s == s0 && a.failures > old(a.failures)
    ensures g != 0 ==> a.failures == old(a.failures) && GroupAdded(s0, s, g, r, items, s0.heap[pages].body.owning)
  {
    hide Counted, Quiet, Typed, Extends;
    var copy;
    copy, s := rt.CopyArray(a, pages, true, s0);
    r := copy;
    if copy == 0 {
      return 0, r, s;
    }
    var granted := a.Request();
    if !granted {
      FullCopyNotSelfHeld(s0, s, pages, copy);
      rt.GiveUp(copy, s0, s, Array(items, true, s0.heap[pages].body.owning));
      return 0, r, s0;
    }
    g := rt.FreshAddress();
    s := GroupStep(s0, s, copy, items, s0.heap[pages].body.owning, g);
    rt.Install(g, Group(copy), s);
  }

  /**
   * `EFPageGroupCreateWithPages`: the group has its own array of the same pages, with the same callbacks. The items are
   * looked at, so those of an array that does not retain them must not have been freed.
   */
  method PageGroupCreateWithPages(rt: Runtime, a: Allocator, pages: Ref, ghost s0: SoundGraph)
      returns (g: Ref, ghost r: Ref, ghost s: SoundGraph)
    requires rt.Is(s0)
    requires pages == 0 || (pages in s0.heap && s0.heap[pages].body.Array?)
    requires pages != 0 && !s0.heap[pages].body.owning ==> forall p :: p in s0.heap[pages].body.items ==> p in s0.heap
    modifies rt, a
    ensures rt.Is(s) && a.failures >= old(a.failures)
    ensures g == 0 ==> s == s0
    ensures g == 0 ==> pages == 0 || !AllPages(s0.heap, s0.heap[pages].body.items) || a.failures > old(a.failures)
    ensures g != 0 ==> pages != 0 && AllPages(s0.heap, s0.heap[pages].body.items) && a.failures == old(a.failures)
    ensures g != 0 ==> GroupAdded(s0, s, g, r, s0.heap[pages].body.items, s0.heap[pages].body.owning)
  {
    hide Counted, Quiet, Typed, Extends;
    s, r := s0, 0;
    if pages == 0 {
      return 0, r, s;
    }
    var items := rt.heap[pages].body.items;
    if rt.heap[pages].body.owning {
      ItemsAreAllocated(s0, pages);
    }
    var ok := AreAllPages(rt, items);
    if !ok {
      return 0, r, s;
    }
    g, r, s := GroupOfCopy(rt, a, pages, items, s0);
  }

  /** The new page is appended to the new array, and the caller's reference to the page is released either way. */
  method AppendAndRelease(rt: Runtime, a: Allocator, pages: Ref, page: Ref, ghost n: nat,
                          ghost s0: SoundGraph, ghost s1: SoundGraph, ghost s2: SoundGraph)
      returns (ok: bool, ghost s: SoundGraph)
    requires rt.Is(s2) && pages !in s0.heap && page !in s1.heap && page != 0 && pages in s1.heap
    requires s1 == WithObject(s0, pages, Array([], true, true))
    requires s2 == WithObject(s1, page, Page(n))
    modifies rt, a
    ensures rt.Is(s) && (ok <==> a.failures == old(a.failures)) && a.failures >= old(a.failures)
    ensures !ok ==> s == s1
    ensures ok ==> s == Graph(WithArray(s0.heap, page, n, pages), WithArrayHoldings(s0.holds, page, pages),
                              s0.ext + multiset{pages})
  {
    hide Counted, Quiet, Typed, Extends, WithArray, WithArrayHoldings, StoredHeap, StoredHoldings, Accessible, Cascaded;
    NewestAccessible(s2, pages);
    NewestAccessible(s2, page);
    ok, s := rt.StoreAt(a, pages, 0, page, s2);
    if !ok {
      AddedBlank(s1.heap, s1.holds, page, Page(n), s2.heap, s2.holds);
      rt.GiveUp(page, s1, s2, Page(n));
      return false, s1;
    }
    StoredDirectly(s0, page, n, pages, s2, s);
    s := rt.ReleaseAt(page, s);
  }

  /** The first half of `EFPageGroupCreate`: an array with one new page. */
  method ArrayOfNewPage(rt: Runtime, a: Allocator, n: nat, ghost s0: SoundGraph)
      returns (pages: Ref, ghost page: Ref, ghost s: SoundGraph)
    requires rt.Is(s0)
    modifies rt, a
    ensures rt.Is(s) && a.failures >= old(a.failures)
    ensures pages == 0 ==> s == s0 && (a.failures > old(a.failures) || n == 0)
    ensures pages != 0 ==> a.failures == old(a.failures) && n > 0
    ensures pages != 0 ==> page !in s0.heap && page != 0 && pages !in s0.heap && pages != page
    ensures pages != 0 ==>
              s == Graph(WithArray(s0.heap, page, n, pages), WithArrayHoldings(s0.holds, page, pages),
                         s0.ext + multiset{pages})
  {
    hide Counted, Quiet, Typed, Extends, WithArray, WithArrayHoldings;
    pages, s := rt.CreateArray(a, 1, true, s0);
    if pages == 0 {
      return 0, 0, s;
    }
    ghost var s1 := s;
    var p, ok;
    p, s := rt.CreatePage(a, n, s1);
    page := p;
    if p == 0 {
      rt.GiveUp(pages, s0, s1, Array([], true, true));
      return 0, 0, s0;
    }
    ok, s := AppendAndRelease(rt, a, pages, p, n, s0, s1, s);
    if !ok {
      rt.GiveUp(pages, s0, s1, Array([], true, true));
      return 0, 0, s0;
    }
  }

  /** The second half of `EFPageGroupCreate`: the group, and then the array is released either way. */
  method GroupOfOwnArray(rt: Runtime, a: Allocator, pages: Ref, ghost page: Ref, ghost n: nat,
                         ghost s0: SoundGraph, ghost s1: SoundGraph)
      returns (g: Ref, ghost r: Ref, ghost s: SoundGraph)
    requires rt.Is(s1) && page !in s0.heap && page != 0 && pages != 0 && pages !in s0.heap && pages != page
    requires s1 == Graph(WithArray(s0.heap, page, n, pages), WithArrayHoldings(s0.holds, page, pages),
                         s0.ext + multiset{pages})
    modifies rt, a
    ensures rt.Is(s) && a.failures >= old(a.failures)
    ensures g == 0 ==> s == s0 && a.failures > old(a.failures)
    ensures g != 0 ==> a.failures == old(a.failures)
    ensures g != 0 ==> r !in s0.heap && g !in s0.heap && page != r && page != g && r != g
    ensures g != 0 ==>
              s == Graph(WithGroup(s0.heap, page, n, r, g), WithGroupHoldings(s0.holds, page, r, g),
                         s0.ext + multiset{g})
  {
    hide Counted, Quiet, Typed, Extends, WithGroup, WithGroupHoldings, Cascaded, WithArray, WithArrayHoldings;
    ArrayHasPage(s0.heap, page, n, pages, s1.heap);
    g, r, s := PageGroupCreateWithPages(rt, a, pages, s1);
    ghost var s2 := s;
    s := rt.ReleaseAt(pages, s2);
    if g == 0 {
      OwnArrayGivenUp(s0, s1, page, n, pages, s);
    } else {
      OwnArrayReleased(s0, s1, page, n, pages, s2, r, g, s);
    }
  }

  /** `EFPageGroupCreate`: on success exactly the group, its array and its page are new, each with count 1. */
  method PageGroupCreate(rt: Runtime, a: Allocator, n: nat, ghost s0: SoundGraph)
      returns (g: Ref, ghost page: Ref, ghost r: Ref, ghost s: SoundGraph)
    requires rt.Is(s0)
    modifies rt, a
    ensures rt.Is(s) && a.failures >= old(a.failures)
    ensures g == 0 ==> s == s0 && (a.failures > old(a.failures) || n == 0)
    ensures g != 0 ==> a.failures == old(a.failures) && n > 0
    ensures g != 0 ==> page !in s0.heap && r !in s0.heap && g !in s0.heap && page != r && page != g && r != g
    ensures g != 0 ==>
              s == Graph(WithGroup(s0.heap, page, n, r, g), WithGroupHoldings(s0.holds, page, r, g),
                         s0.ext + multiset{g})
    ensures g != 0 ==> NewChain(s0.heap, page, n, r, g, s.heap) && s.heap.Keys == s0.heap.Keys + {page, r, g}
  {
    hide Counted, Quiet, Typed, Extends, WithGroup, WithGroupHoldings, Cascaded, NewChain;
    var pages;
    pages, page, s := ArrayOfNewPage(rt, a, n, s0);
    r := 0;
    if pages == 0 {
      return 0, page, r, s;
    }
    g, r, s := GroupOfOwnArray(rt, a, pages, page, n, s0, s);
    if g != 0 {
      GroupIsNew(s0.heap, page, n, r, g);
    }
  }

  /** `EFPageGroupCopyPages`: an immutable array of the same pages. */
  method PageGroupCopyPages(rt: Runtime, a: Allocator, group: Ref, ghost s0: SoundGraph)
      returns (r: Ref, ghost s: SoundGraph)
    requires rt.Is(s0) && (group == 0 || (group in s0.heap && s0.heap[group].body.Group?))
    modifies rt, a
    ensures rt.Is(s)
    ensures r == 0 ==> s == s0 && (group == 0 || a.failures > old(a.failures))
    ensures r != 0 ==> group != 0 && a.failures == old(a.failures) && s.ext == s0.ext + multiset{r}
    ensures r != 0 ==>
              var array_ := s0.heap[group].body.pages;
              && array_ in s0.heap && s0.heap[array_].body.Array?
              && var body := s0.heap[array_].body;
                 Added(s0.heap, s0.holds, s.heap, s.holds, r, Array(body.items, false, body.owning))
  {
    hide Counted, Quiet, Typed, Extends;
    s := s0;
    if group == 0 {
      return 0, s;
    }
    GroupArrayShape(s0, group, s0.heap[group].body.pages);
    r, s := rt.CopyArray(a, rt.heap[group].body.pages, false, s0);
  }

  /** A new page is put at the end of a group's array, and the caller's reference to it is released either way. */
  method PutPage(rt: Runtime, a: Allocator, group: Ref, array_: Ref, p: Ref, ghost n: nat,
                 ghost s0: SoundGraph, ghost s1: SoundGraph)
      returns (ok: bool, ghost s: SoundGraph)
    requires rt.Is(s1) && group in s0.heap && s0.heap[group].body == Group(array_) && p != 0 && p !in s0.heap
    requires array_ in s0.heap && s0.heap[array_].body.Array? && s1 == WithObject(s0, p, Page(n))
    modifies rt, a
    ensures rt.Is(s) && a.failures >= old(a.failures) && (ok <==> a.failures == old(a.failures))
    ensures !ok ==> s == s0
    ensures ok ==> s == GroupExtended(s0, array_, p, n)
  {
    hide Counted, Quiet, Typed, Extends, Cascaded, StoredHeap, StoredHoldings, Accessible, WithPage, WithPageHoldings;
    hide WithPointer;
    GroupArrayShape(s0, group, array_);
    NewestAccessible(s1, p);
    ok, s := rt.StoreAt(a, array_, |rt.heap[array_].body.items|, p, s1);
    assert s0.ext + multiset{p} - multiset{p} == s0.ext;
    if !ok {
      AddedBlank(s0.heap, s0.holds, p, Page(n), s1.heap, s1.holds);
      rt.GiveUp(p, s0, s1, Page(n));
      return false, s0;
    }
    ghost var s2 := s;
    s := rt.ReleaseAt(p, s2);
    PutAndReleased(s0, array_, p, n, s1, s2, s);
  }

  /** A new page at the end of a group's array: created, appended, and released. */
  method AppendPage(rt: Runtime, a: Allocator, group: Ref, array_: Ref, n: nat, ghost s0: SoundGraph)
      returns (ok: bool, ghost page: Ref, ghost s: SoundGraph)
    requires rt.Is(s0) && group in s0.heap && s0.heap[group].body == Group(array_)
    requires array_ in s0.heap && s0.heap[array_].body.Array?
    modifies rt, a
    ensures rt.Is(s) && a.failures >= old(a.failures)
    ensures !ok ==> s == s0 && (a.failures > old(a.failures) || n == 0)
    ensures ok ==> a.failures == old(a.failures) && n > 0 && page !in s0.heap
    ensures ok ==> s == GroupExtended(s0, array_, page, n)
  {
    hide Counted, Quiet, Typed, WithPage, WithPageHoldings, WithPointer;
    var p;
    p, s := rt.CreatePage(a, n, s0);
    page := p;
    if p == 0 {
      return false, page, s;
    }
    GroupArrayShape(s0, group, array_);
    ok, s := PutPage(rt, a, group, array_, p, n, s0, s);
  }

  /**
   * `EFPageGroupExtend`; `n` is the system's page length. The new page stays allocated if and only if the group's array
   * has the object callbacks.
   */
  method PageGroupExtend(rt: Runtime, a: Allocator, group: Ref, n: nat, ghost s0: SoundGraph)
      returns (ok: bool, ghost page: Ref, ghost s: SoundGraph)
    requires rt.Is(s0) && (group == 0 || (group in s0.heap && s0.heap[group].body.Group?))
    modifies rt, a
    ensures rt.Is(s) && a.failures >= old(a.failures)
    ensures !ok ==> s == s0 && (group == 0 || n == 0 || a.failures > old(a.failures))
    ensures ok ==> group != 0 && n > 0 && page !in s0.heap && a.failures == old(a.failures)
    ensures ok ==>
              var array_ := s0.heap[group].body.pages;
              && array_ in s0.heap && s0.heap[array_].body.Array?
              && s == GroupExtended(s0, array_, page, n)
              && (page in s.heap <==> s0.heap[array_].body.owning)
              && array_ in s.heap && s.heap[array_].body.Array?
              && s.heap[array_].body.items == s0.heap[array_].body.items + [page]
              && (page in s.heap ==> s.heap[page] == Object(false, 1, Page(n)))
  {
    hide Counted, Quiet, Typed, WithPage, WithPageHoldings, WithPointer;
    s, page := s0, 0;
    if group == 0 {
      return false, page, s;
    }
    GroupArrayShape(s0, group, s0.heap[group].body.pages);
    ok, page, s := AppendPage(rt, a, group, rt.heap[group].body.pages, n, s0);
    if ok {
      ExtendedItems(s0, s0.heap[group].body.pages, page, n);
    }
  }

  /** The first `count` pages are removed, one after the other. */
  method RemoveFirstPages(rt: Runtime, group: Ref, array_: Ref, count: nat, ghost s1: SoundGraph)
      returns (ghost s: SoundGraph)
    requires rt.Is(s1) && group in s1.ext && group in s1.heap && s1.heap[group].body == Group(array_)
    requires array_ in s1.heap && s1.heap[array_].body.Array? && count <= |s1.heap[array_].body.items|
    requires s1.heap[array_].body.owning
    modifies rt
    ensures rt.Is(s) && Emptied(s1, s, array_, count)
  {
    hide Counted, Quiet, Typed, ItemRemoved;
    s := s1;
    EmptiedNone(s1, array_);
    GroupArrayShape(s1, group, array_);
    var i := 0;
    while i < count
      invariant 0 <= i <= count
      invariant rt.Is(s) && Emptied(s1, s, array_, i) && group in s.heap && s.heap[group].body == Group(array_)
    {
      GroupArrayShape(s, group, array_);
      ghost var s' := RemoveFromGroup(rt, group, array_, 0, s);
      EmptiedNext(s1, s, array_, i, s');
      ReferencedIsAllocated(s'.heap, s'.holds, s'.ext, group);
      s := s';
      i := i + 1;
    }
  }

  /** The total length, as `EFPageGroupGetLength` adds it up. */
  method SumLengths(rt: Runtime, items: seq<Ref>) returns (total: nat)
    requires AllPages(rt.heap, items)
    ensures total == TotalLength(rt.heap, items)
  {
    total := 0;
    var i := 0;
    while i < |items|
      invariant 0 <= i <= |items| && total == TotalLength(rt.heap, items[..i])
    {
      assert items[..i + 1][..i] == items[..i];
      total := total + rt.heap[items[i]].body.length;
      i := i + 1;
    }
    assert items[..i] == items;
  }

  /** `EFPageGroupMerge`: one page of the total length takes the place of all; what is copied is in `PageGroup`. */
  method PageGroupMerge(rt: Runtime, a: Allocator, group: Ref, ghost s0: SoundGraph)
      returns (ok: bool, ghost huge: Ref, ghost s: SoundGraph)
    requires rt.Is(s0)
    requires group == 0 || (group in s0.ext && group in s0.heap && s0.heap[group].body.Group?)
    requires group != 0 ==> var array_ := s0.heap[group].body.pages; array_ in s0.heap ==> Retains(s0.heap[array_])
    modifies rt, a
    ensures rt.Is(s) && a.failures >= old(a.failures) && (group == 0 ==> !ok)
    ensures !ok ==> s == s0
    ensures ok ==> a.failures == old(a.failures)
    ensures group != 0 ==>
              var array_ := s0.heap[group].body.pages;
              && array_ in s0.heap && s0.heap[array_].body.Array? && AllPages(s0.heap, s0.heap[array_].body.items)
              && var items := s0.heap[array_].body.items;
                 && (items == [] ==> ok && s == s0)
                 && (!ok ==> a.failures > old(a.failures) || TotalLength(s0.heap, items) == 0)
                 && (ok && items != [] ==> TotalLength(s0.heap, items) > 0)
                 && (ok && items != [] ==> Merged(s0, s, array_, huge, TotalLength(s0.heap, items)))
  {
    hide Counted, Quiet, Typed, Merged, Emptied;
    s, huge := s0, 0;
    if group == 0 {
      return false, huge, s;
    }
    var array_ := rt.heap[group].body.pages;
    GroupArrayShape(s0, group, array_);
    var items := rt.heap[array_].body.items;
    if items == [] {
      return true, huge, s;
    }
    var total := SumLengths(rt, items);
    ok, huge, s := AppendPage(rt, a, group, array_, total, s0);
    if ok {
      ghost var s1 := s;
      s := RemoveFirstPages(rt, group, array_, |items|, s1);
      MergedAtEnd(s0, s1, s, array_, huge, total);
    }
  }

  /** A group of an empty array with the default callbacks. */
  method GroupOfPointers(rt: Runtime, a: Allocator, ghost s0: SoundGraph)
      returns (group: Ref, ghost array_: Ref, ghost s: SoundGraph)
    requires rt.Is(s0)
    modifies rt, a
    ensures rt.Is(s) && a.failures >= old(a.failures) && (group != 0 <==> a.failures == old(a.failures))
    ensures group != 0 ==>
              && group in s.heap && s.heap[group].body == Group(array_)
              && array_ in s.heap && s.heap[array_].body == Array([], true, false)
  {
    hide Counted, Quiet, Typed, Extends;
    var items;
    items, s := rt.CreateArray(a, 0, false, s0);
    if items == 0 {
      return 0, 0, s;
    }
    group, array_, s := PageGroupCreateWithPages(rt, a, items, s);
  }

  lemma OnlyAPointer(s: Graph, group: Ref, array_: Ref, page: Ref, n: nat, s': Graph)
    requires array_ in s.heap && array_ in s.holds && s.heap[array_].body == Array([], true, false)
    requires group in s.heap && s.heap[group].body == Group(array_) && page !in s.heap
    requires s' == GroupExtended(s, array_, page, n)
    ensures group in s'.heap && s'.heap[group].body == Group(array_)
    ensures array_ in s'.heap && s'.heap[array_].body == Array([page], true, false)
  {
    assert [] + [page] == [page];
  }

  /** Extending can be in vain: such a group is extended by a page that is freed at once. */
  method ExtendInVain(rt: Runtime, a: Allocator, n: nat, ghost s0: SoundGraph)
      returns (group: Ref, ok: bool, ghost array_: Ref, ghost page: Ref, ghost s: SoundGraph)
    requires rt.Is(s0)
    modifies rt, a
    ensures rt.Is(s)
    ensures ok <==> a.failures == old(a.failures) && n > 0
    ensures ok ==>
              && group in s.heap && s.heap[group].body == Group(array_)
              && array_ in s.heap && s.heap[array_].body == Array([page], true, false) && page !in s.heap
  {
    hide Counted, Quiet, Typed, GroupExtended;
    ok, page := false, 0;
    group, array_, s := GroupOfPointers(rt, a, s0);
    if group != 0 {
      ghost var s1 := s;
      ok, page, s := PageGroupExtend(rt, a, group, n, s1);
      if ok {
        OnlyAPointer(s1, group, array_, page, n, s);
      }
    }
  }

  // ---------------------------------------------------------------------------
  // File handles
  // ---------------------------------------------------------------------------

  /** The page group is stored in the file handle. */
  method Attach(rt: Runtime, f: Ref, g: Ref, ghost s0: SoundGraph) returns (ghost s: SoundGraph)
    requires rt.Is(s0) && f in s0.heap && s0.heap[f] == NewObject(File(0)) && g in s0.ext && f in s0.ext
    requires g in s0.heap && s0.heap[g].body.Group? && g != 0
    modifies rt
    ensures rt.Is(s)
    ensures s == Graph(s0.heap[f := NewObject(File(g))], s0.holds[f := multiset{g}], s0.ext - multiset{g})
  {
    hide Counted, Quiet, Typed;
    s := AttachStep(s0, f, g);
    rt.heap := rt.heap[f := NewObject(File(g))];
    rt.holds, rt.ext := s.holds, s.ext;
  }

  /** The group of a new file handle; without it the handle is released. */
  method GroupForFile(rt: Runtime, a: Allocator, f: Ref, n: nat, ghost s0: SoundGraph, ghost s1: SoundGraph)
      returns (g: Ref, ghost page: Ref, ghost r: Ref, ghost s: SoundGraph)
    requires rt.Is(s1) && f !in s0.heap && s1 == WithObject(s0, f, File(0))
    modifies rt, a
    ensures rt.Is(s) && a.failures >= old(a.failures)
    ensures g == 0 ==> s == s0 && (a.failures > old(a.failures) || n == 0)
    ensures g != 0 ==> a.failures == old(a.failures) && n > 0
    ensures g != 0 ==> page !in s1.heap && r !in s1.heap && g !in s1.heap && page != r && page != g && r != g
    ensures g != 0 ==>
              s == Graph(WithGroup(s1.heap, page, n, r, g), WithGroupHoldings(s1.holds, page, r, g),
                         s1.ext + multiset{g})
  {
    hide Counted, Quiet, Typed, Extends, WithGroup, WithGroupHoldings;
    g, page, r, s := PageGroupCreate(rt, a, n, s1);
    if g == 0 {
      AddedBlank(s0.heap, s0.holds, f, File(0), s1.heap, s1.holds);
      rt.GiveUp(f, s0, s1, File(0));
      s := s0;
    }
  }

  /** And is stored in it. */
  method GroupAttached(rt: Runtime, f: Ref, g: Ref, ghost page: Ref, ghost n: nat, ghost r: Ref,
                       ghost s0: SoundGraph, ghost s1: SoundGraph, ghost s2: SoundGraph)
      returns (ghost s: SoundGraph)
    requires rt.Is(s2) && f !in s0.heap && s1 == WithObject(s0, f, File(0)) && g != 0
    requires page !in s1.heap && r !in s1.heap && g !in s1.heap && page != r && page != g && r != g
    requires s2 == Graph(WithGroup(s1.heap, page, n, r, g), WithGroupHoldings(s1.holds, page, r, g),
                         s1.ext + multiset{g})
    modifies rt
    ensures rt.Is(s)
    ensures page !in s0.heap && r !in s0.heap && g !in s0.heap && page != f && r != f && g != f
    ensures s == Graph(WithFile(s0.heap, page, n, r, g, f), WithFileHoldings(s0.holds, page, r, g, f),
                       s0.ext + multiset{f})
    ensures NewFileChain(s0.heap, page, n, r, g, f, s.heap)
  {
    hide Counted, Quiet, Typed, WithGroup, WithGroupHoldings, WithFile, WithFileHoldings, NewFileChain;
    FileAttached(s0, s1, f, page, n, r, g, s2);
    FileIsNew(s0.heap, page, n, r, g, f);
    s := Attach(rt, f, g, s2);
  }

  /** `EFFileHandleCreate`: on success the handle, its group, array and page are new, each with count 1. */
  method FileHandleCreate(rt: Runtime, a: Allocator, n: nat, ghost s0: SoundGraph)
      returns (f: Ref, ghost page: Ref, ghost r: Ref, ghost g: Ref, ghost s: SoundGraph)
    requires rt.Is(s0)
    modifies rt, a
    ensures rt.Is(s) && a.failures >= old(a.failures)
    ensures f == 0 ==> s == s0 && (a.failures > old(a.failures) || n == 0)
    ensures f != 0 ==> a.failures == old(a.failures) && n > 0
    ensures f != 0 ==> page !in s0.heap && r !in s0.heap && g !in s0.heap && f !in s0.heap
    ensures f != 0 ==> page != r && page != g && page != f && r != g && r != f && g != f
    ensures f != 0 ==>
              s == Graph(WithFile(s0.heap, page, n, r, g, f), WithFileHoldings(s0.holds, page, r, g, f),
                         s0.ext + multiset{f})
    ensures f != 0 ==> NewFileChain(s0.heap, page, n, r, g, f, s.heap)
  {
    hide Counted, Quiet, Typed, Extends, WithGroup, WithGroupHoldings, WithFile, WithFileHoldings, NewFileChain;
    hide WithObject;
    page, r, g := 0, 0, 0;
    f, s := rt.Allocate(a, File(0), s0);
    if f == 0 {
      return;
    }
    ghost var s1 := s;
    var group;
    group, page, r, s := GroupForFile(rt, a, f, n, s0, s1);
    g := group;
    if group == 0 {
      f := 0;
      return;
    }
    s := GroupAttached(rt, f, group, page, n, r, s0, s1, s);
  }
}
