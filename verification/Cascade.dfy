/** What a release does to the object graph, however far it cascades. */
module Cascade {
  import opened Counting

  /** Every object accounts for exactly its children, unless it is in mid-deinit or kept alive from outside. */
  ghost predicate Settled(heap: Heap, holds: Holdings, base: Refs)
    requires holds.Keys == heap.Keys
  {
    forall o :: o in heap ==> holds[o] == multiset(Children(heap[o].body)) || IsDying(heap[o]) || o in base
  }

  /** Objects that a cascade may still free. */
  ghost function Alive(heap: Heap): set<Ref> {
    set o | o in heap && !heap[o].isStack && heap[o].count > 0
  }

  /**
   * From `(h0, m0)` to `(h, m)` objects were only freed and counts only changed: the survivors keep their bodies and
   * what they hold, and stack objects and objects in mid-deinit are untouched. The objects in `except` are being
   * emptied by the caller.
   */
  ghost predicate Shrunk(h0: Heap, m0: Holdings, h: Heap, m: Holdings, except: set<Ref>)
    requires m0.Keys == h0.Keys && m.Keys == h.Keys
  {
    && h.Keys <= h0.Keys
    && (forall o :: o in h && o !in except ==> m[o] == m0[o])
    && (forall o :: o in h ==> h[o].isStack == h0[o].isStack && h[o].body == h0[o].body)
    && (forall o :: o in h && IsDying(h[o]) ==> IsDying(h0[o]))
    && (forall o :: o in h0 && (h0[o].isStack || IsDying(h0[o])) ==> o in h && h[o] == h0[o])
  }

  /** Every set of objects that supports itself survives. */
  ghost predicate KeepsSupported(h0: Heap, m0: Holdings, h: Heap, base: Refs, except: set<Ref>) {
    forall s: set<Ref> {:trigger Supported(s, h0, m0, base)} ::
      s <= h0.Keys && s !! except && Supported(s, h0, m0, base) ==> s <= h.Keys
  }

  ghost predicate Cascaded(h0: Heap, m0: Holdings, h: Heap, m: Holdings, base: Refs, except: set<Ref>)
    requires m0.Keys == h0.Keys && m.Keys == h.Keys
  {
    Shrunk(h0, m0, h, m, except) && KeepsSupported(h0, m0, h, base, except)
  }

  lemma CascadedRefl(h: Heap, m: Holdings, base: Refs, except: set<Ref>)
    requires m.Keys == h.Keys
    ensures Cascaded(h, m, h, m, base, except)
  {
  }

  lemma {:induction false} SubsetSize(s: set<Ref>, t: set<Ref>)
    requires s <= t
    ensures |s| <= |t|
  {
    if s != {} {
      var o :| o in s;
      SubsetSize(s - {o}, t - {o});
    }
  }

  lemma CascadeShrinksAlive(h0: Heap, m0: Holdings, h: Heap, m: Holdings, base: Refs, except: set<Ref>)
    requires m0.Keys == h0.Keys && m.Keys == h.Keys && Cascaded(h0, m0, h, m, base, except)
    requires forall o :: o in h0 && !h0[o].isStack ==> h0[o].count >= 0
    ensures Alive(h) <= Alive(h0) && |Alive(h)| <= |Alive(h0)|
  {
    assert Alive(h) <= Alive(h0);
    SubsetSize(Alive(h), Alive(h0));
  }

  /** Support survives a cascade. */
  lemma SupportedAfter(s: set<Ref>, h0: Heap, m0: Holdings, h: Heap, m: Holdings, base: Refs, except: set<Ref>)
    requires m0.Keys == h0.Keys && m.Keys == h.Keys && Cascaded(h0, m0, h, m, base, except)
    requires s <= h0.Keys && s !! except && Supported(s, h0, m0, base)
    ensures s <= h.Keys && Supported(s, h, m, base)
  {
    forall o | o in s
      ensures h[o].isStack || IsDying(h[o]) || o in base || HeldWithin(s, m, o)
    {
      if HeldWithin(s, m0, o) {
        var k :| k in s && k in m0 && o in m0[k];
        assert k in m && o in m[k];
      }
    }
  }

  lemma SupportedElsewhere(s: set<Ref>, h: Heap, m: Holdings, base: Refs, d: Ref, less: Refs)
    requires Supported(s, h, m, base) && d !in s
    ensures Supported(s, h, m[d := less], base)
  {
    forall o | o in s && HeldWithin(s, m, o)
      ensures HeldWithin(s, m[d := less], o)
    {
      var k :| k in s && k in m && o in m[k];
      assert k in m[d := less] && o in m[d := less][k];
    }
  }

  /** One more slot of `d` released: cascades compose. */
  lemma CascadeThenSlot(h0: Heap, m0: Holdings, h1: Heap, m1: Holdings, d: Ref, less: Refs,
                        h2: Heap, m2: Holdings, base: Refs)
    requires m0.Keys == h0.Keys && m1.Keys == h1.Keys && m2.Keys == h2.Keys && d in h1
    requires Cascaded(h0, m0, h1, m1, base, {d})
    requires Cascaded(h1, m1[d := less], h2, m2, base, {})
    ensures Cascaded(h0, m0, h2, m2, base, {d})
  {
    var m1' := m1[d := less];
    forall s: set<Ref> | s <= h0.Keys && s !! {d} && Supported(s, h0, m0, base)
      ensures s <= h2.Keys
    {
      SupportedAfter(s, h0, m0, h1, m1, base, {d});
      SupportedElsewhere(s, h1, m1, base, d, less);
      assert s <= h1.Keys && s !! {};
    }
  }

  /** The last reference to `r` is dropped: no set that supports itself contains `r`. */
  lemma UnreferencedNotSupported(s: set<Ref>, h: Heap, m: Holdings, base: Refs, r: Ref)
    requires m.Keys == h.Keys && r in h && !h[r].isStack && !IsDying(h[r])
    requires AllRefs(m, base)[r] == 0
    requires Supported(s, h, m, base)
    ensures r !in s
  {
    if r in s {
      assert HeldWithin(s, m, r);
      var k :| k in s && k in m && r in m[k];
      HeldIsInTotal(m, k, r);
      assert false;
    }
  }

  lemma FreeShrinks(h0: Heap, m0: Holdings, r: Ref, h2: Heap, m2: Holdings)
    requires m0.Keys == h0.Keys && m2.Keys == h2.Keys && r in h2 && r in h0
    requires !h0[r].isStack && h0[r].count == 1
    requires Shrunk(h0[r := h0[r].(count := 0)], m0, h2, m2, {r})
    ensures Shrunk(h0, m0, h2 - {r}, m2 - {r}, {})
  {
    var h1, h3, m3 := h0[r := h0[r].(count := 0)], h2 - {r}, m2 - {r};
    assert h1.Keys == h0.Keys;
    forall o | o in h3
      ensures m3[o] == m0[o] && h3[o].isStack == h0[o].isStack && h3[o].body == h0[o].body
      ensures IsDying(h3[o]) ==> IsDying(h0[o])
    {
      assert o in h2 && o != r && h1[o] == h0[o] && h3[o] == h2[o];
    }
    forall o | o in h0 && (h0[o].isStack || IsDying(h0[o]))
      ensures o in h3 && h3[o] == h0[o]
    {
      assert o != r && h1[o] == h0[o];
    }
  }

  lemma SupportedSurvives(s: set<Ref>, h0: Heap, m0: Holdings, r: Ref, h2: Heap, m2: Holdings, base: Refs)
    requires m0.Keys == h0.Keys && m2.Keys == h2.Keys && r in h2 && r in h0
    requires !h0[r].isStack && h0[r].count == 1 && AllRefs(m0, base)[r] == 0
    requires Cascaded(h0[r := h0[r].(count := 0)], m0, h2, m2, base, {r})
    requires s <= h0.Keys && Supported(s, h0, m0, base)
    ensures s <= h2.Keys && r !in s
  {
    var h1 := h0[r := h0[r].(count := 0)];
    UnreferencedNotSupported(s, h0, m0, base, r);
    assert Supported(s, h1, m0, base);
    assert s <= h1.Keys && s !! {r};
  }

  /** The whole release of a last reference: decrement, deinit, free. */
  lemma CascadeFrees(h0: Heap, m0: Holdings, r: Ref, h2: Heap, m2: Holdings, base: Refs)
    requires m0.Keys == h0.Keys && m2.Keys == h2.Keys && r in h2 && r in h0
    requires !h0[r].isStack && h0[r].count == 1 && AllRefs(m0, base)[r] == 0
    requires Cascaded(h0[r := h0[r].(count := 0)], m0, h2, m2, base, {r})
    ensures Cascaded(h0, m0, h2 - {r}, m2 - {r}, base, {})
  {
    forall s: set<Ref> | s <= h0.Keys && s !! {} && Supported(s, h0, m0, base)
      ensures s <= (h2 - {r}).Keys
    {
      SupportedSurvives(s, h0, m0, r, h2, m2, base);
    }
    FreeShrinks(h0, m0, r, h2, m2);
  }

  lemma CascadeDecrements(h0: Heap, m0: Holdings, r: Ref, base: Refs)
    requires m0.Keys == h0.Keys && r in h0 && !h0[r].isStack && h0[r].count > 1
    ensures Cascaded(h0, m0, h0[r := h0[r].(count := h0[r].count - 1)], m0, base, {})
  {
  }

  lemma SettledFreed(h: Heap, m: Holdings, base: Refs, r: Ref)
    requires m.Keys == h.Keys && Settled(h, m, base)
    ensures Settled(h - {r}, m - {r}, base)
  {
    forall o | o in h - {r}
      ensures (m - {r})[o] == multiset(Children((h - {r})[o].body)) || IsDying((h - {r})[o]) || o in base
    {
      assert o in h;
    }
  }

  lemma SettledDecremented(h: Heap, m: Holdings, base: Refs, r: Ref, n: int)
    requires m.Keys == h.Keys && r in h && !h[r].isStack && h[r].count > 0 && Settled(h, m, base)
    ensures Settled(h[r := h[r].(count := n)], m, base)
  {
  }

  /** A slot of `d` is taken out, to be released. */
  lemma SlotTaken(h: Heap, m: Holdings, ext: Refs, d: Ref, c: Ref, rest: seq<Ref>)
    requires Balanced(h, m, ext) && d in h && IsDying(h[d]) && Settled(h, m, ext)
    requires m[d] == multiset([c] + rest)
    ensures Balanced(h, m[d := multiset(rest)], ext + multiset{c})
    ensures ext + multiset{c} - multiset{c} == ext
    ensures Settled(h, m[d := multiset(rest)], ext)
  {
    assert multiset([c] + rest) == multiset{c} + multiset(rest);
    assert m[d] - multiset{c} == multiset(rest);
    BalancedTake(h, m, ext, d, c);
    forall o | o in h && o != d
      ensures m[d := multiset(rest)][o] == multiset(Children(h[o].body)) || IsDying(h[o]) || o in ext
    {
    }
  }

  /** What is known of `d` and of the measure when the release of its slot is over. */
  lemma SlotReleased(h0: Heap, m0: Holdings, h1: Heap, m1: Holdings, d: Ref, less: Refs,
                     h2: Heap, m2: Holdings, base: Refs)
    requires m0.Keys == h0.Keys && m1.Keys == h1.Keys && m2.Keys == h2.Keys
    requires Balanced(h1, m1, base) && d in h1 && IsDying(h1[d])
    requires Cascaded(h0, m0, h1, m1, base, {d})
    requires Cascaded(h1, m1[d := less], h2, m2, base, {})
    ensures Cascaded(h0, m0, h2, m2, base, {d})
    ensures d in h2 && h2[d] == h1[d] && m2[d] == less
    ensures |Alive(h2)| <= |Alive(h1)|
  {
    CascadeThenSlot(h0, m0, h1, m1, d, less, h2, m2, base);
    CascadeShrinksAlive(h1, m1[d := less], h2, m2, base, {});
  }

  lemma HeadAndRest(items: seq<Ref>, index: nat)
    requires index < |items|
    ensures items[index..] == [items[index]] + items[index + 1..]
  {
  }

  function Lowered(h: Heap, r: Ref): Heap
    requires r in h
  {
    h[r := h[r].(count := h[r].count - 1)]
  }

  lemma OnlyReference(h: Heap, m: Holdings, base: Refs, r: Ref)
    requires Balanced(h, m, base + multiset{r}) && Settled(h, m, base)
    requires r in h && !h[r].isStack && h[r].count == 1
    ensures m[r] == multiset(Children(h[r].body))
  {
    assert AllRefs(m, base + multiset{r})[r] == 1;
    assert r !in base;
  }

  lemma LoweredAlive(h: Heap, r: Ref)
    requires r in h && !h[r].isStack && h[r].count == 1
    ensures |Alive(Lowered(h, r))| < |Alive(h)|
  {
    assert Alive(h) == Alive(Lowered(h, r)) + {r};
  }

  /** Dropping one reference to `r`, before anything is freed. */
  lemma OneLess(h: Heap, m: Holdings, base: Refs, r: Ref)
    requires Balanced(h, m, base + multiset{r}) && Settled(h, m, base)
    ensures r in h
    ensures h[r].isStack ==> Balanced(h, m, base)
    ensures !h[r].isStack ==> h[r].count >= 1 && Balanced(Lowered(h, r), m, base) && Settled(Lowered(h, r), m, base)
    ensures !h[r].isStack && h[r].count > 1 ==> Cascaded(h, m, Lowered(h, r), m, base, {})
    ensures !h[r].isStack && h[r].count == 1 ==>
              m[r] == multiset(Children(h[r].body)) && |Alive(Lowered(h, r))| < |Alive(h)|
  {
    hide Counted, Settled, Cascaded, Alive;
    assert base + multiset{r} - multiset{r} == base;
    BalancedDrop(h, m, base + multiset{r}, r);
    if !h[r].isStack {
      SettledDecremented(h, m, base, r, h[r].count - 1);
      if h[r].count > 1 {
        CascadeDecrements(h, m, r, base);
      } else {
        LoweredAlive(h, r);
        OnlyReference(h, m, base, r);
      }
    }
  }
}
