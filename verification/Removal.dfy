/** Taking an item out of an array that retains its items, while the release of the item may cascade. */
module Removal {
  import opened Cascade
  import opened Counting
  import opened Soundness
  import opened Steps

  function WithoutItem(object_: Object, index: nat): Object
    requires object_.body.Array? && index < |object_.body.items|
  {
    WithItems(object_, Removed(object_.body.items, index))
  }

  /** The heap after the slot is closed. */
  function TakenOut(h: Heap, a: Ref, index: nat): Heap
    requires a in h && h[a].body.Array? && index < |h[a].body.items|
  {
    h[a := WithoutItem(h[a], index)]
  }

  lemma TakenOutCounts(h: Heap, a: Ref, index: nat, h': Heap)
    requires a in h && h[a].body.Array? && index < |h[a].body.items| && h' == TakenOut(h, a, index)
    ensures h'.Keys == h.Keys
    ensures forall o :: o in h ==> h'[o].count == h[o].count && h'[o].isStack == h[o].isStack
  {
  }

  lemma QuietTakenOut(h: Heap, m: Holdings, a: Ref, index: nat, v: Ref, h': Heap, m': Holdings)
    requires m.Keys == h.Keys && Quiet(h, m)
    requires a in h && h[a].body.Array? && h[a].body.owning && index < |h[a].body.items|
    requires v == h[a].body.items[index] && h' == TakenOut(h, a, index) && m' == m[a := m[a] - multiset{v}]
    ensures v in m[a] && m'.Keys == h'.Keys && Quiet(h', m')
  {
    assert m[a] == multiset(h[a].body.items);
    RemovedItems(h[a].body.items, index);
    QuietChanged(h, m, a, WithoutItem(h[a], index), m[a] - multiset{v}, h', m');
  }

  lemma TypedTakenOut(h: Heap, a: Ref, index: nat, h': Heap)
    requires Typed(h) && a in h && h[a].body.Array? && index < |h[a].body.items| && h' == TakenOut(h, a, index)
    ensures Typed(h')
  {
    assert WellTyped(h, h[a]);
    RemovedItems(h[a].body.items, index);
    TypedNewItems(h, a, Removed(h[a].body.items, index), h');
  }

  /** The item's reference passes from the array to whoever releases it. */
  lemma SoundTakenOut(h: Heap, m: Holdings, ext: Refs, a: Ref, index: nat, v: Ref, h': Heap, m': Holdings)
    requires Sound(h, m, ext) && a in h && h[a].body.Array? && h[a].body.owning && index < |h[a].body.items|
    requires v == h[a].body.items[index] && h' == TakenOut(h, a, index) && m' == m[a := m[a] - multiset{v}]
    ensures v in m[a] && Balanced(h, m', ext + multiset{v}) && Sound(h', m', ext + multiset{v})
  {
    hide Counted, Typed, Quiet, TakenOut;
    QuietTakenOut(h, m, a, index, v, h', m');
    TakenOutCounts(h, a, index, h');
    BalancedTake(h, m, ext, a, v);
    BalancedSameCounts(h, h', m', ext + multiset{v});
    TypedTakenOut(h, a, index, h');
  }

  /** Where the two heaps agreed, they still do. */
  lemma TakenOutAgree(h0: Heap, h: Heap, a: Ref, index: nat, o: Ref)
    requires a in h0 && a in h && h0[a].body.Array? && index < |h0[a].body.items| && h[a].body == h0[a].body
    requires o in h0 && o in h
    ensures var h0', h' := TakenOut(h0, a, index), TakenOut(h, a, index);
            && h'[o].isStack == h[o].isStack && h0'[o].isStack == h0[o].isStack
            && IsDying(h'[o]) == IsDying(h[o]) && IsDying(h0'[o]) == IsDying(h0[o])
            && (h[o].body == h0[o].body ==> h'[o].body == h0'[o].body) && (h[o] == h0[o] ==> h'[o] == h0'[o])
  {
  }

  lemma ShrunkCommutes(h0: Heap, m0: Holdings, h: Heap, m: Holdings, a: Ref, index: nat, h0': Heap, h': Heap)
    requires m0.Keys == h0.Keys && m.Keys == h.Keys && Shrunk(h0, m0, h, m, {})
    requires a in h0 && a in h && !h0[a].isStack && h0[a].body.Array? && index < |h0[a].body.items|
    requires !IsDying(h0[a]) && h[a].body == h0[a].body
    requires h0' == TakenOut(h0, a, index) && h' == TakenOut(h, a, index)
    ensures h0'.Keys == h0.Keys && h'.Keys == h.Keys && Shrunk(h0', m0, h', m, {})
  {
    TakenOutCounts(h0, a, index, h0');
    TakenOutCounts(h, a, index, h');
    hide TakenOut, IsDying;
    forall o | o in h
      ensures h'[o].isStack == h0'[o].isStack && h'[o].body == h0'[o].body
      ensures IsDying(h'[o]) ==> IsDying(h0'[o])
      ensures h0'[o].isStack || IsDying(h0'[o]) ==> h'[o] == h0'[o]
    {
      TakenOutAgree(h0, h, a, index, o);
    }
    forall o | o in h0' && (h0'[o].isStack || IsDying(h0'[o]))
      ensures o in h'
    {
      TakenOutAgree(h0, h0, a, index, o);
    }
  }

  /** Support depends on counts and holdings only. */
  lemma SupportedUnchanged(h0: Heap, h0': Heap, m0: Holdings, h: Heap, h': Heap, base: Refs)
    requires h0'.Keys == h0.Keys && h'.Keys == h.Keys && m0.Keys == h0.Keys && KeepsSupported(h0, m0, h, base, {})
    requires forall o :: o in h0 ==> h0'[o].isStack == h0[o].isStack && h0'[o].count == h0[o].count
    ensures KeepsSupported(h0', m0, h', base, {})
  {
    forall s: set<Ref> | s <= h0'.Keys && s !! {} && Supported(s, h0', m0, base)
      ensures s <= h'.Keys
    {
      assert Supported(s, h0, m0, base);
    }
  }

  /** Closing the slot after the release, as the source does, or before it, comes to the same. */
  lemma CascadeCommutes(h0: Heap, m0: Holdings, h: Heap, m: Holdings, base: Refs, a: Ref, index: nat)
    requires m0.Keys == h0.Keys && m.Keys == h.Keys && Cascaded(h0, m0, h, m, base, {})
    requires a in h0 && a in h && !h0[a].isStack && h0[a].body.Array? && index < |h0[a].body.items|
    requires !IsDying(h0[a])
    ensures h[a].body == h0[a].body
    ensures TakenOut(h0, a, index).Keys == h0.Keys && TakenOut(h, a, index).Keys == h.Keys
    ensures Cascaded(TakenOut(h0, a, index), m0, TakenOut(h, a, index), m, base, {})
  {
    ShrunkCommutes(h0, m0, h, m, a, index, TakenOut(h0, a, index), TakenOut(h, a, index));
    SupportedUnchanged(h0, TakenOut(h0, a, index), m0, h, TakenOut(h, a, index), base);
  }

  // ---------------------------------------------------------------------------
  // A group's array while the group is emptied
  // ---------------------------------------------------------------------------

  /**
   * While the array `a` of a group is being changed, its reference counts as the caller's: a loan that changes neither
   * the objects nor the counts.
   */
  lemma Lend(h: Heap, m: Holdings, ext: Refs, g: Ref, a: Ref)
    requires Balanced(h, m, ext) && g in h && m[g] == multiset{a}
    ensures Balanced(h, m[g := multiset{}], ext + multiset{a})
  {
    assert multiset{a} - multiset{a} == multiset{};
    BalancedTake(h, m, ext, g, a);
  }

  lemma Return(h: Heap, m: Holdings, ext: Refs, g: Ref, a: Ref)
    requires Balanced(h, m, ext + multiset{a}) && g in h && m[g] == multiset{}
    ensures Balanced(h, m[g := multiset{a}], ext)
  {
    assert ext + multiset{a} - multiset{a} == ext;
    assert multiset{} + multiset{a} == multiset{a};
    BalancedStore(h, m, ext + multiset{a}, g, a);
  }

  lemma SupportedOnLoan(s: set<Ref>, h0: Heap, m0: Holdings, base: Refs, g: Ref, a: Ref)
    requires g in m0 && m0[g] == multiset{a} && Supported(s, h0, m0, base)
    ensures Supported(s, h0, m0[g := multiset{}], base + multiset{a})
  {
    var lent := m0[g := multiset{}];
    forall o | o in s && o != a && HeldWithin(s, m0, o)
      ensures HeldWithin(s, lent, o)
    {
      var k :| k in s && k in m0 && o in m0[k];
      assert k in lent && o in lent[k];
    }
  }

  /** A cascade during the loan is one without it. */
  lemma CascadeOnLoan(h0: Heap, m0: Holdings, h: Heap, m: Holdings, base: Refs, g: Ref, a: Ref)
    requires m0.Keys == h0.Keys && m.Keys == h.Keys && g in h && g in h0 && m0[g] == multiset{a}
    requires Cascaded(h0, m0[g := multiset{}], h, m, base + multiset{a}, {})
    ensures Cascaded(h0, m0, h, m[g := multiset{a}], base, {})
  {
    var lent := m0[g := multiset{}];
    forall s: set<Ref> | s <= h0.Keys && s !! {} && Supported(s, h0, m0, base)
      ensures s <= h.Keys
    {
      SupportedOnLoan(s, h0, m0, base, g, a);
      assert Supported(s, h0, lent, base + multiset{a});
    }
  }

  // ---------------------------------------------------------------------------
  // Releasing an object without children
  // ---------------------------------------------------------------------------

  /** The heap after a reference to a childless object on the heap is released. */
  function LeafDropped(h: Heap, r: Ref): Heap
    requires r in h
  {
    if h[r].count == 1 then h - {r} else Lowered(h, r)
  }

  lemma LeafOthers(h0: Heap, m0: Holdings, base: Refs, r: Ref, h: Heap, m: Holdings)
    requires Balanced(h0, m0, base + multiset{r}) && Balanced(h, m, base) && Shrunk(h0, m0, h, m, {})
    requires AllRefs(m0, base + multiset{r}) == AllRefs(m, base) + multiset{r}
    ensures forall o :: o in h && o != r ==> h[o] == h0[o] && m[o] == m0[o]
  {
    var refs0, refs := AllRefs(m0, base + multiset{r}), AllRefs(m, base);
    forall o | o in h && o != r
      ensures h[o] == h0[o] && m[o] == m0[o]
    {
      assert h[o].isStack == h0[o].isStack && h[o].body == h0[o].body;
      assert refs[o] == refs0[o];
    }
  }

  lemma OthersSurvive(h0: Heap, m0: Holdings, base: Refs, r: Ref, h: Heap, m: Holdings)
    requires Balanced(h0, m0, base + multiset{r}) && r in h0 && m0[r] == multiset{}
    requires m.Keys == h.Keys && Cascaded(h0, m0, h, m, base, {})
    ensures forall o :: o in h0 && o != r ==> o in h
  {
    HeapSupported(h0, m0, base + multiset{r});
    var s := h0.Keys - {r};
    forall o | o in s && HeldWithin(h0.Keys, m0, o)
      ensures HeldWithin(s, m0, o)
    {
      var k :| k in h0.Keys && k in m0 && o in m0[k];
      assert k in s;
    }
    assert Supported(s, h0, m0, base);
    assert s <= h0.Keys && s !! {};
  }

  lemma LeafCount(h0: Heap, h: Heap, refs: Refs, r: Ref)
    requires r in h0 && Counted(h0, refs + multiset{r}) && !h0[r].isStack && Counted(h, refs)
    requires r in h ==> !IsDying(h[r]) && h[r].isStack == h0[r].isStack && h[r].body == h0[r].body
    ensures r in h <==> h0[r].count != 1
    ensures r in h ==> h[r] == Lowered(h0, r)[r]
  {
  }

  lemma LeafTotal(h0: Heap, m0: Holdings, r: Ref, h: Heap, m: Holdings)
    requires m0.Keys == h0.Keys && m.Keys == h.Keys && Shrunk(h0, m0, h, m, {})
    requires r in h0 && m0[r] == multiset{} && forall o :: o in h0 && o != r ==> o in h
    ensures Total(m) == Total(m0)
  {
    TotalWithout(m0, r);
    SameMap(m - {r}, m0 - {r});
    if r in m {
      TotalWithout(m, r);
    } else {
      SameMap(m, m - {r});
    }
  }

  lemma LeafRefs(h0: Heap, m0: Holdings, base: Refs, r: Ref, h: Heap, m: Holdings)
    requires Balanced(h0, m0, base + multiset{r}) && r in h0 && !h0[r].isStack && m0[r] == multiset{}
    requires Balanced(h, m, base) && Shrunk(h0, m0, h, m, {})
    requires forall o :: o in h0 && o != r ==> o in h
    requires r in h ==> !IsDying(h[r])
    ensures AllRefs(m0, base + multiset{r}) == AllRefs(m, base) + multiset{r}
    ensures r in h <==> h0[r].count != 1
    ensures r in h ==> h[r] == Lowered(h0, r)[r]
  {
    LeafTotal(h0, m0, r, h, m);
    var refs := AllRefs(m, base);
    assert AllRefs(m0, base + multiset{r}) == refs + multiset{r};
    LeafCount(h0, h, refs, r);
  }

  /** Such a release changes that object and nothing else. */
  lemma LeafReleased(h0: Heap, m0: Holdings, base: Refs, r: Ref, h: Heap, m: Holdings)
    requires Balanced(h0, m0, base + multiset{r}) && r in h0 && !h0[r].isStack && m0[r] == multiset{}
    requires Balanced(h, m, base) && Cascaded(h0, m0, h, m, base, {})
    requires forall o :: o in h ==> !IsDying(h[o])
    ensures h == LeafDropped(h0, r) && m == if h0[r].count == 1 then m0 - {r} else m0
  {
    hide Counted, KeepsSupported;
    OthersSurvive(h0, m0, base, r, h, m);
    LeafRefs(h0, m0, base, r, h, m);
    LeafOthers(h0, m0, base, r, h, m);
    SameMap(h, LeafDropped(h0, r));
    SameMap(m, if h0[r].count == 1 then m0 - {r} else m0);
  }
}
