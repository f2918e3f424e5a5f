/** The single steps of the runtime's operations, as functions on the object graph that keep it sound. */
module Steps {
  import opened Cascade
  import opened Counting
  import opened Soundness

  function NewObject(body: Body): Object {
    Object(false, 1, body)
  }

  /** The graph after an object is allocated. */
  ghost function WithObject(s: Graph, r: Ref, body: Body): Graph {
    Graph(s.heap[r := NewObject(body)], s.holds[r := multiset{}], s.ext + multiset{r})
  }

  /** One object more, with count 1 and referring to nothing; the caller has the reference to it. */
  lemma ObjectAdded(s: Graph, r: Ref, body: Body)
    requires r !in s.heap
    ensures var s' := WithObject(s, r, body);
            && s'.heap.Keys == s.heap.Keys + {r} && s'.heap[r] == Object(false, 1, body)
            && s'.ext[r] == s.ext[r] + 1 && s'.ext - multiset{r} == s.ext
            && (forall o :: o in s.heap ==> s'.heap[o] == s.heap[o])
  {
  }

  function WithItems(object_: Object, items: seq<Ref>): Object
    requires object_.body.Array?
  {
    object_.(body := object_.body.(items := items))
  }

  function Inserted(items: seq<Ref>, index: nat, v: Ref): seq<Ref>
    requires index <= |items|
  {
    items[..index] + [v] + items[index..]
  }

  function Removed(items: seq<Ref>, index: nat): seq<Ref>
    requires index < |items|
  {
    items[..index] + items[index + 1..]
  }

  // ---------------------------------------------------------------------------

  lemma QuietRaised(h: Heap, m: Holdings, r: Ref)
    requires m.Keys == h.Keys && Quiet(h, m) && r in h && (!h[r].isStack ==> h[r].count >= 0)
    ensures m.Keys == Raised(h, r).Keys && Quiet(Raised(h, r), m)
  {
  }

  lemma TypedRaised(h: Heap, r: Ref)
    requires Typed(h) && Accessible(h, r)
    ensures Typed(Raised(h, r))
  {
    var h' := Raised(h, r);
    forall o | o in h'
      ensures WellTyped(h', h'[o])
    {
      assert WellTyped(h, h[o]);
    }
  }

  lemma SoundRetain(h: Heap, m: Holdings, ext: Refs, r: Ref)
    requires Sound(h, m, ext) && Accessible(h, r)
    ensures Sound(Raised(h, r), m, ext + multiset{r})
  {
    BalancedRetain(h, m, ext, r);
    TypedRaised(h, r);
    QuietRaised(h, m, r);
  }

  /** The body of a freshly allocated object, before it refers to anything. */
  predicate IsBlank(body: Body) {
    body.Page? || body.Str? || body == File(0) || (body.Array? && body.items == [])
  }

  lemma QuietGrows(h: Heap, m: Holdings, r: Ref, object_: Object, held: Refs, h': Heap, m': Holdings)
    requires m.Keys == h.Keys && Quiet(h, m) && r !in h
    requires held == multiset(Children(object_.body)) && !IsDying(object_)
    requires h' == h[r := object_] && m' == m[r := held]
    ensures m'.Keys == h'.Keys && Quiet(h', m')
  {
  }

  lemma TypedGrows(h: Heap, h': Heap, r: Ref, object_: Object)
    requires Typed(h) && r !in h && h' == h[r := object_] && WellTyped(h', object_)
    ensures Typed(h')
  {
    forall o | o in h'
      ensures WellTyped(h', h'[o])
    {
      assert o != r ==> WellTyped(h, h[o]);
    }
  }

  lemma SoundGrown(h: Heap, m: Holdings, ext: Refs, r: Ref, object_: Object, held: Refs,
                   h': Heap, m': Holdings, ext': Refs)
    requires Sound(h, m, ext) && r !in h
    requires h' == h[r := object_] && m' == m[r := held] && Balanced(h', m', ext')
    requires held == multiset(Children(object_.body)) && !IsDying(object_) && WellTyped(h', object_)
    ensures Sound(h', m', ext')
  {
    QuietGrows(h, m, r, object_, held, h', m');
    TypedGrows(h, h', r, object_);
  }

  lemma SoundAllocate(h: Heap, m: Holdings, ext: Refs, r: Ref, body: Body, h': Heap, m': Holdings)
    requires Sound(h, m, ext) && r !in h && IsBlank(body)
    requires h' == h[r := NewObject(body)] && m' == m[r := multiset{}]
    ensures Sound(h', m', ext + multiset{r})
  {
    assert ext + multiset{} == ext;
    BalancedNew(h, m, ext, multiset{}, r, body, h', m');
    SoundGrown(h, m, ext, r, NewObject(body), multiset{}, h', m', ext + multiset{r});
  }

  /** A group is allocated and takes over the caller's reference to its array. */
  lemma SoundNewGroup(h: Heap, m: Holdings, ext: Refs, g: Ref, a: Ref, h': Heap, m': Holdings)
    requires Sound(h, m, ext + multiset{a}) && g !in h && IsGroupArray(h, a)
    requires h' == h[g := NewObject(Group(a))] && m' == m[g := multiset{a}]
    ensures Sound(h', m', ext + multiset{g})
  {
    BalancedNew(h, m, ext, multiset{a}, g, Group(a), h', m');
    SoundGrown(h, m, ext + multiset{a}, g, NewObject(Group(a)), multiset{a}, h', m', ext + multiset{g});
  }

  /** An object gets other children, and accounts for them. */
  lemma QuietChanged(h: Heap, m: Holdings, a: Ref, object_: Object, held: Refs, h': Heap, m': Holdings)
    requires m.Keys == h.Keys && Quiet(h, m) && a in h
    requires held == multiset(Children(object_.body)) && !IsDying(object_)
    requires h' == h[a := object_] && m' == m[a := held]
    ensures m'.Keys == h'.Keys && Quiet(h', m')
  {
  }

  lemma QuietReplaced(h: Heap, m: Holdings, a: Ref, object_: Object, h': Heap)
    requires m.Keys == h.Keys && Quiet(h, m) && a in h
    requires m[a] == multiset(Children(object_.body)) && !IsDying(object_)
    requires h' == h[a := object_]
    ensures m.Keys == h'.Keys && Quiet(h', m)
  {
  }

  lemma InsertedItems(items: seq<Ref>, index: nat, v: Ref)
    requires index <= |items|
    ensures multiset(Inserted(items, index, v)) == multiset(items) + multiset{v}
    ensures forall p :: p in Inserted(items, index, v) && p !in items ==> p == v
  {
    assert items == items[..index] + items[index..];
  }

  lemma RemovedItems(items: seq<Ref>, index: nat)
    requires index < |items|
    ensures multiset(Removed(items, index)) == multiset(items) - multiset{items[index]}
    ensures forall p :: p in Removed(items, index) ==> p in items
  {
    assert items == items[..index] + [items[index]] + items[index + 1..];
  }

  lemma TypedNewItems(h: Heap, a: Ref, items: seq<Ref>, h': Heap)
    requires Typed(h) && a in h && h[a].body.Array?
    requires Accessible(h, a) || !h[a].body.owning ||
             forall p :: p in items && p !in h[a].body.items ==> p in h && h[p].body.Page?
    requires 0 !in items && h' == h[a := WithItems(h[a], items)]
    ensures Typed(h')
  {
    forall o | o in h'
      ensures WellTyped(h', h'[o])
    {
      assert WellTyped(h, h[o]);
    }
  }

  lemma StoredShape(h: Heap, m: Holdings, a: Ref, index: nat, v: Ref, items: seq<Ref>, h': Heap, m': Holdings)
    requires m.Keys == h.Keys && Quiet(h, m) && Typed(h)
    requires a in h && h[a].body.Array? && index <= |h[a].body.items| && h[a].body.owning && v != 0
    requires Accessible(h, a) || (v in h && h[v].body.Page?)
    requires items == Inserted(h[a].body.items, index, v) && h' == h[a := WithItems(h[a], items)]
    requires m' == m[a := m[a] + multiset{v}]
    ensures m'.Keys == h'.Keys && Quiet(h', m') && Typed(h')
  {
    assert WellTyped(h, h[a]);
    InsertedItems(h[a].body.items, index, v);
    TypedNewItems(h, a, items, h');
    QuietChanged(h, m, a, WithItems(h[a], items), m[a] + multiset{v}, h', m');
  }

  lemma BalancedSameCounts(h: Heap, h': Heap, m: Holdings, ext: Refs)
    requires Balanced(h, m, ext) && h'.Keys == h.Keys
    requires forall o :: o in h ==> h'[o].count == h[o].count && h'[o].isStack == h[o].isStack
    ensures Balanced(h', m, ext)
  {
  }

  /** An external reference moves into a slot of an array that retains its items. */
  lemma SoundStoreOwned(h: Heap, m: Holdings, ext: Refs, a: Ref, index: nat, v: Ref, items: seq<Ref>,
                        h': Heap, m': Holdings, ext': Refs)
    requires Sound(h, m, ext) && a in h && h[a].body.Array? && index <= |h[a].body.items|
    requires Accessible(h, a) || (v in h && h[v].body.Page?)
    requires h[a].body.owning && v in ext && v != 0
    requires items == Inserted(h[a].body.items, index, v) && h' == h[a := WithItems(h[a], items)]
    requires m' == m[a := m[a] + multiset{v}] && ext' == ext - multiset{v}
    ensures Sound(h', m', ext')
  {
    BalancedStore(h, m, ext, a, v);
    BalancedSameCounts(h, h', m', ext');
    StoredShape(h, m, a, index, v, items, h', m');
  }

  /** A pointer is stored in an array that does not retain its items. */
  lemma SoundStorePointer(h: Heap, m: Holdings, ext: Refs, a: Ref, items: seq<Ref>, h': Heap)
    requires Sound(h, m, ext) && a in h && h[a].body.Array? && !h[a].body.owning
    requires 0 !in items && h' == h[a := WithItems(h[a], items)]
    ensures Sound(h', m, ext)
  {
    TypedNewItems(h, a, items, h');
    QuietReplaced(h, m, a, WithItems(h[a], items), h');
    BalancedSameCounts(h, h', m, ext);
  }

  // ---------------------------------------------------------------------------
  // Who can be reached, and what a failure gives up
  // ---------------------------------------------------------------------------

  /** Holders refer to allocated objects only. */
  lemma HoldersStayInside(h: Heap, m: Holdings, ext: Refs, r: Ref)
    requires Balanced(h, m, ext) && r !in h
    ensures r !in ext && forall k :: k in m ==> r !in m[k]
  {
    assert AllRefs(m, ext)[r] == 0;
    forall k | k in m
      ensures r !in m[k]
    {
      HeldIsInTotal(m, k, r);
    }
  }

  /** No group of the extended graph has a new object for its array. */
  lemma NewIsAccessible(h0: Heap, m0: Holdings, ext: Refs, h: Heap, m: Holdings, r: Ref)
    requires Sound(h0, m0, ext) && m.Keys == h.Keys && Extends(h0, m0, h, m)
    requires r in h && r !in h0 && forall o :: o in h && o !in h0 ==> !h[o].body.Group?
    ensures Accessible(h, r)
  {
    forall g | g in h && h[g].body.Group?
      ensures h[g].body.pages != r
    {
      assert g in h0 && WellTyped(h0, h0[g]);
    }
  }

  /** The items an array retains are accessible. */
  lemma ItemsAreAccessible(h: Heap, m: Holdings, ext: Refs, a: Ref, v: Ref)
    requires Sound(h, m, ext) && a in h && h[a].body.Array? && h[a].body.owning && v in h[a].body.items
    ensures Accessible(h, v)
  {
    assert v in m[a];
    HeldIsReferenced(h, m, ext, a, v);
    forall g | g in h && h[g].body.Group?
      ensures h[g].body.pages != v
    {
      GroupArrayNotExternal(h, m, ext, g);
    }
  }

  lemma ExternalIsAccessible(h: Heap, m: Holdings, ext: Refs, r: Ref)
    requires Sound(h, m, ext) && r in ext
    ensures Accessible(h, r)
  {
    assert AllRefs(m, ext)[r] > 0;
    forall g | g in h && h[g].body.Group?
      ensures h[g].body.pages != r
    {
      GroupArrayNotExternal(h, m, ext, g);
    }
  }

  /** A new object that no surviving new object refers to is freed. */
  lemma NewIsFreed(h0: Heap, m0: Holdings, ext: Refs, h1: Heap, m1: Holdings, r: Ref, h: Heap, m: Holdings)
    requires Balanced(h0, m0, ext) && r !in h0
    requires m1.Keys == h1.Keys && Extends(h0, m0, h1, m1) && r in h1 && !h1[r].isStack
    requires Balanced(h, m, ext) && Quiet(h, m) && Shrunk(h1, m1, h, m, {})
    requires forall k :: k in h && k !in h0 ==> r !in m1[k]
    ensures r !in h
  {
    HoldersStayInside(h0, m0, ext, r);
    forall k | k in h
      ensures r !in m[k]
    {
      assert m[k] == m1[k] && (k in h0 ==> m1[k] == m0[k]);
    }
    UnreferencedIsGone(h, m, ext, r);
  }

  lemma OnlyOldLeft(h0: Heap, h1: Heap, new_: set<Ref>, h: Heap)
    requires h.Keys <= h1.Keys && h.Keys !! new_
    requires forall o :: o in h1 ==> o in h0 || o in new_
    ensures forall o :: o in h ==> o in h0
  {
  }

  /** Releasing the only new object, which does not refer to itself, restores the state. */
  lemma RollbackOne(h0: Heap, m0: Holdings, ext: Refs, h1: Heap, m1: Holdings, r: Ref, h: Heap, m: Holdings)
    requires Balanced(h0, m0, ext) && Quiet(h0, m0) && r !in h0
    requires m1.Keys == h1.Keys && Extends(h0, m0, h1, m1) && forall o :: o in h1 ==> o in h0 || o == r
    requires r in h1 && !h1[r].isStack && r !in m1[r]
    requires Balanced(h, m, ext) && Quiet(h, m) && Cascaded(h1, m1, h, m, ext, {})
    ensures h == h0 && m == m0
  {
    NewIsFreed(h0, m0, ext, h1, m1, r, h, m);
    OnlyOldLeft(h0, h1, {r}, h);
    Restored(h0, m0, ext, h1, m1, h, m);
  }

  lemma LastIsFreed(h0: Heap, m0: Holdings, ext: Refs, h1: Heap, m1: Holdings, r: Ref, p: Ref, h: Heap, m: Holdings)
    requires Balanced(h0, m0, ext) && p !in h0
    requires m1.Keys == h1.Keys && Extends(h0, m0, h1, m1) && forall o :: o in h1 ==> o in h0 || o == r || o == p
    requires p in h1 && !h1[p].isStack && m1[p] == multiset{}
    requires Balanced(h, m, ext) && Quiet(h, m) && Shrunk(h1, m1, h, m, {}) && r !in h
    ensures p !in h
  {
    hide Counted, Quiet, Extends;
    NewIsFreed(h0, m0, ext, h1, m1, p, h, m);
  }

  lemma TwoAreFreed(h0: Heap, m0: Holdings, ext: Refs, h1: Heap, m1: Holdings, r: Ref, p: Ref, h: Heap, m: Holdings)
    requires Balanced(h0, m0, ext) && r !in h0 && p !in h0 && r != p
    requires m1.Keys == h1.Keys && Extends(h0, m0, h1, m1) && forall o :: o in h1 ==> o in h0 || o == r || o == p
    requires r in h1 && !h1[r].isStack && r !in m1[r]
    requires p in h1 && !h1[p].isStack && m1[p] == multiset{}
    requires Balanced(h, m, ext) && Quiet(h, m) && Shrunk(h1, m1, h, m, {})
    ensures forall o :: o in h ==> o in h0
  {
    hide Counted, Quiet, Extends;
    assert r !in h by {
      NewIsFreed(h0, m0, ext, h1, m1, r, h, m);
    }
    assert p !in h by {
      LastIsFreed(h0, m0, ext, h1, m1, r, p, h, m);
    }
  }

  /** Releasing a new object that alone refers to another new one restores the state. */
  lemma RollbackTwo(h0: Heap, m0: Holdings, ext: Refs, h1: Heap, m1: Holdings, r: Ref, p: Ref, h: Heap, m: Holdings)
    requires Balanced(h0, m0, ext) && Quiet(h0, m0) && r !in h0 && p !in h0 && r != p
    requires m1.Keys == h1.Keys && Extends(h0, m0, h1, m1) && forall o :: o in h1 ==> o in h0 || o == r || o == p
    requires r in h1 && !h1[r].isStack && r !in m1[r]
    requires p in h1 && !h1[p].isStack && m1[p] == multiset{}
    requires Balanced(h, m, ext) && Quiet(h, m) && Cascaded(h1, m1, h, m, ext, {})
    ensures h == h0 && m == m0
  {
    TwoAreFreed(h0, m0, ext, h1, m1, r, p, h, m);
    Restored(h0, m0, ext, h1, m1, h, m);
  }

  function PutIn(h: Heap, a: Ref, index: nat, v: Ref): Heap
    requires a in h && h[a].body.Array? && index <= |h[a].body.items|
  {
    h[a := WithItems(h[a], Inserted(h[a].body.items, index, v))]
  }

  lemma RaisedBodies(h: Heap, a: Ref, v: Ref)
    requires a in h
    ensures v in h ==> a in Raised(h, v) && Raised(h, v)[a].body == h[a].body && Raised(h, v)[v].body == h[v].body
  {
  }

  /** The graph after a value is stored in an array: one that retains its items retains the value first. */
  function StoredHeap(h: Heap, a: Ref, index: nat, v: Ref): Heap
    requires a in h && h[a].body.Array? && index <= |h[a].body.items|
    requires h[a].body.owning ==> v in h
  {
    RaisedBodies(h, a, v);
    PutIn(if h[a].body.owning then Raised(h, v) else h, a, index, v)
  }

  /** The value is at its index, and the items from there on have moved up. */
  lemma StoredItems(h: Heap, a: Ref, index: nat, v: Ref)
    requires a in h && h[a].body.Array? && index <= |h[a].body.items|
    requires h[a].body.owning ==> v in h
    ensures a in StoredHeap(h, a, index, v) && StoredHeap(h, a, index, v)[a].body.Array?
    ensures var before, after := h[a].body, StoredHeap(h, a, index, v)[a].body;
            && after.isMutable == before.isMutable && after.owning == before.owning
            && |after.items| == |before.items| + 1 && after.items[index] == v
            && (forall k :: 0 <= k < index ==> after.items[k] == before.items[k])
            && (forall k :: index <= k < |before.items| ==> after.items[k + 1] == before.items[k])
    ensures StoredHeap(h, a, index, v).Keys == h.Keys
    ensures forall o :: o in h && o != a ==>
              StoredHeap(h, a, index, v)[o] == if o == v && h[a].body.owning then Raised(h, v)[v] else h[o]
  {
    RaisedBodies(h, a, v);
    var items := h[a].body.items;
    assert StoredHeap(h, a, index, v)[a].body.items == items[..index] + [v] + items[index..];
  }

  ghost function StoredHoldings(h: Heap, m: Holdings, a: Ref, v: Ref): Holdings
    requires a in h && a in m && h[a].body.Array?
  {
    if h[a].body.owning then m[a := m[a] + multiset{v}] else m
  }

  lemma StoredPointer(h: Heap, m: Holdings, ext: Refs, a: Ref, index: nat, v: Ref, h': Heap)
    requires Sound(h, m, ext) && a in h && h[a].body.Array? && index <= |h[a].body.items| && v != 0
    requires !h[a].body.owning && h' == PutIn(h, a, index, v)
    ensures Sound(h', m, ext)
  {
    var items := Inserted(h[a].body.items, index, v);
    assert WellTyped(h, h[a]);
    InsertedItems(h[a].body.items, index, v);
    SoundStorePointer(h, m, ext, a, items, h');
  }

  lemma AccessibleRaised(h: Heap, v: Ref, a: Ref)
    requires v in h && a in h
    ensures Accessible(Raised(h, v), a) <==> Accessible(h, a)
  {
    var h' := Raised(h, v);
    assert forall g :: g in h ==> h'[g].body == h[g].body;
  }

  lemma StoredOwned(h: Heap, m: Holdings, ext: Refs, a: Ref, index: nat, v: Ref, h1: Heap, h': Heap, m': Holdings)
    requires Sound(h, m, ext) && a in h && h[a].body.Array? && index <= |h[a].body.items| && v != 0
    requires Accessible(h, a) || (v in h && h[v].body.Page?)
    requires h[a].body.owning && Accessible(h, v)
    requires h1 == Raised(h, v) && a in h1 && h1[a].body == h[a].body && h' == PutIn(h1, a, index, v)
    requires m' == m[a := m[a] + multiset{v}]
    ensures Sound(h', m', ext)
  {
    var ext1 := ext + multiset{v};
    assert ext1 - multiset{v} == ext && v in ext1;
    SoundRetain(h, m, ext, v);
    AccessibleRaised(h, v, a);
    RaisedBodies(h, a, v);
    SoundStoreOwned(h1, m, ext1, a, index, v, Inserted(h1[a].body.items, index, v), h', m', ext);
  }

  lemma SoundStored(h: Heap, m: Holdings, ext: Refs, a: Ref, index: nat, v: Ref, h': Heap, m': Holdings)
    requires Sound(h, m, ext) && a in h && h[a].body.Array? && index <= |h[a].body.items| && v != 0
    requires Accessible(h, a) || (v in h && h[v].body.Page?)
    requires h[a].body.owning ==> Accessible(h, v)
    requires h' == StoredHeap(h, a, index, v) && m' == StoredHoldings(h, m, a, v)
    ensures Sound(h', m', ext)
  {
    if h[a].body.owning {
      RaisedBodies(h, a, v);
      StoredOwned(h, m, ext, a, index, v, Raised(h, v), h', m');
    } else {
      StoredPointer(h, m, ext, a, index, v, h');
    }
  }

  // ---------------------------------------------------------------------------
  // New containers
  // ---------------------------------------------------------------------------

  /** One new object `r` with count 1; of the old ones only counts may have been raised. */
  ghost predicate Added(h0: Heap, m0: Holdings, h: Heap, m: Holdings, r: Ref, body: Body)
    requires m0.Keys == h0.Keys && m.Keys == h.Keys
  {
    && Extends(h0, m0, h, m)
    && r !in h0 && r in h && h[r] == NewObject(body)
    && forall o :: o in h ==> o in h0 || o == r
  }

  lemma AddedBlank(h0: Heap, m0: Holdings, r: Ref, body: Body, h: Heap, m: Holdings)
    requires m0.Keys == h0.Keys && r !in h0 && h == h0[r := NewObject(body)] && m == m0[r := multiset{}]
    ensures m.Keys == h.Keys && Added(h0, m0, h, m, r, body)
  {
  }

  lemma AddedRaised(h0: Heap, m0: Holdings, h: Heap, m: Holdings, r: Ref, body: Body, v: Ref)
    requires m0.Keys == h0.Keys && m.Keys == h.Keys && Added(h0, m0, h, m, r, body) && v in h0
    ensures Raised(h, v).Keys == h.Keys && Added(h0, m0, Raised(h, v), m, r, body)
  {
  }

  lemma ExtendsPut(h0: Heap, m0: Holdings, h: Heap, m: Holdings, r: Ref, object_: Object, held: Refs,
                   h': Heap, m': Holdings)
    requires m0.Keys == h0.Keys && m.Keys == h.Keys && Extends(h0, m0, h, m) && r !in h0
    requires h' == h[r := object_] && m' == m[r := held]
    ensures m'.Keys == h'.Keys && Extends(h0, m0, h', m')
  {
  }

  lemma AddedPut(h0: Heap, m0: Holdings, h: Heap, m: Holdings, r: Ref, body: Body, body': Body, held: Refs,
                 h': Heap, m': Holdings)
    requires m0.Keys == h0.Keys && m.Keys == h.Keys && Added(h0, m0, h, m, r, body)
    requires h' == h[r := NewObject(body')] && m' == m[r := held]
    ensures m'.Keys == h'.Keys && Added(h0, m0, h', m', r, body')
  {
    ExtendsPut(h0, m0, h, m, r, NewObject(body'), held, h', m');
    hide Extends;
  }

  /** Appending one more item of the source to the copy. */
  lemma AddedItem(h0: Heap, m0: Holdings, h: Heap, m: Holdings, r: Ref, owning: bool, items: seq<Ref>, k: nat,
                  h': Heap, m': Holdings)
    requires m0.Keys == h0.Keys && m.Keys == h.Keys && k < |items|
    requires Added(h0, m0, h, m, r, Array(items[..k], true, owning)) && (owning ==> items[k] in h0)
    requires h' == StoredHeap(h, r, k, items[k]) && m' == StoredHoldings(h, m, r, items[k])
    ensures m'.Keys == h'.Keys && Added(h0, m0, h', m', r, Array(items[..k + 1], true, owning))
  {
    var v, body, body' := items[k], Array(items[..k], true, owning), Array(items[..k + 1], true, owning);
    assert Inserted(items[..k], k, v) == items[..k + 1];
    if owning {
      AddedRaised(h0, m0, h, m, r, body, v);
      AddedPut(h0, m0, Raised(h, v), m, r, body, body', m[r] + multiset{v}, h', m');
    } else {
      assert m[r := m[r]] == m;
      AddedPut(h0, m0, h, m, r, body, body', m[r], h', m');
    }
  }

  /** The source's items are allocated, are not NULL, and are accessible, if the array retains them. */
  lemma SourceItem(h: Heap, m: Holdings, ext: Refs, a: Ref, k: nat)
    requires Sound(h, m, ext) && a in h && h[a].body.Array? && k < |h[a].body.items|
    ensures h[a].body.items[k] != 0
    ensures h[a].body.owning ==> h[a].body.items[k] in h && Accessible(h, h[a].body.items[k])
  {
    assert WellTyped(h, h[a]);
    assert h[a].body.items[k] in h[a].body.items;
    if h[a].body.owning {
      ItemsAreAccessible(h, m, ext, a, h[a].body.items[k]);
    }
  }

  /** The new object is accessible, and so is what was. */
  lemma AddedAccessible(h0: Heap, m0: Holdings, ext: Refs, h: Heap, m: Holdings, r: Ref, body: Body)
    requires Sound(h0, m0, ext) && m.Keys == h.Keys && Added(h0, m0, h, m, r, body) && !body.Group?
    ensures Accessible(h, r)
    ensures forall v :: Accessible(h0, v) ==> Accessible(h, v)
  {
    NewIsAccessible(h0, m0, ext, h, m, r);
  }

  function Frozen(h: Heap, r: Ref, isMutable: bool): Heap
    requires r in h && h[r].body.Array?
  {
    h[r := h[r].(body := h[r].body.(isMutable := isMutable))]
  }

  lemma TypedFrozen(h: Heap, r: Ref, isMutable: bool, h': Heap)
    requires Typed(h) && Accessible(h, r) && h[r].body.Array?
    requires h' == Frozen(h, r, isMutable)
    ensures Typed(h')
  {
    forall o | o in h'
      ensures WellTyped(h', h'[o])
    {
      assert WellTyped(h, h[o]);
    }
  }

  lemma SoundFreeze(h: Heap, m: Holdings, ext: Refs, r: Ref, isMutable: bool, h': Heap)
    requires Sound(h, m, ext) && Accessible(h, r) && h[r].body.Array?
    requires h' == Frozen(h, r, isMutable)
    ensures Sound(h', m, ext)
  {
    QuietReplaced(h, m, r, h'[r], h');
    BalancedSameCounts(h, h', m, ext);
    TypedFrozen(h, r, isMutable, h');
  }

  lemma AddedFrozen(h0: Heap, m0: Holdings, h: Heap, m: Holdings, r: Ref, items: seq<Ref>, owning: bool,
                    isMutable: bool, h': Heap)
    requires m0.Keys == h0.Keys && m.Keys == h.Keys && Added(h0, m0, h, m, r, Array(items, true, owning))
    requires h' == Frozen(h, r, isMutable)
    ensures m.Keys == h'.Keys && Added(h0, m0, h', m, r, Array(items, isMutable, owning))
  {
    assert m[r := m[r]] == m;
    AddedPut(h0, m0, h, m, r, Array(items, true, owning), Array(items, isMutable, owning), m[r], h', m);
  }

  /** A partial copy does not contain itself. */
  lemma CopiedNotSelfHeld(h0: Heap, m0: Holdings, ext: Refs, source: Ref, r: Ref, index: nat, h: Heap, m: Holdings)
    requires Sound(h0, m0, ext) && source in h0 && h0[source].body.Array? && index <= |h0[source].body.items|
    requires Sound(h, m, ext + multiset{r})
    requires Added(h0, m0, h, m, r, Array(h0[source].body.items[..index], true, h0[source].body.owning))
    ensures r !in m[r]
  {
    var items, owning := h0[source].body.items[..index], h0[source].body.owning;
    assert m[r] == multiset(Children(h[r].body));
    if owning {
      forall v | v in items
        ensures v in h0
      {
        assert v in m0[source];
        HeldIsReferenced(h0, m0, ext, source, v);
      }
    }
  }

  // ---------------------------------------------------------------------------
  // Steps between sound states
  // ---------------------------------------------------------------------------

  lemma AllocateStep(s0: SoundGraph, r: Ref, body: Body) returns (s: SoundGraph)
    requires r !in s0.heap && IsBlank(body)
    ensures s == WithObject(s0, r, body)
  {
    hide Counted, Quiet, Typed;
    var h, m := s0.heap[r := NewObject(body)], s0.holds[r := multiset{}];
    SoundAllocate(s0.heap, s0.holds, s0.ext, r, body, h, m);
    s := Graph(h, m, s0.ext + multiset{r});
  }

  lemma RetainStep(s0: SoundGraph, r: Ref) returns (s: SoundGraph)
    requires Accessible(s0.heap, r)
    ensures s == Graph(Raised(s0.heap, r), s0.holds, s0.ext + multiset{r})
  {
    SoundRetain(s0.heap, s0.holds, s0.ext, r);
    s := Graph(Raised(s0.heap, r), s0.holds, s0.ext + multiset{r});
  }

  lemma StoreStep(s0: SoundGraph, a: Ref, index: nat, v: Ref) returns (s: SoundGraph)
    requires a in s0.heap && s0.heap[a].body.Array? && index <= |s0.heap[a].body.items| && v != 0
    requires Accessible(s0.heap, a) || (v in s0.heap && s0.heap[v].body.Page?)
    requires s0.heap[a].body.owning ==> Accessible(s0.heap, v)
    ensures s == Graph(StoredHeap(s0.heap, a, index, v), StoredHoldings(s0.heap, s0.holds, a, v), s0.ext)
  {
    var h, m := StoredHeap(s0.heap, a, index, v), StoredHoldings(s0.heap, s0.holds, a, v);
    SoundStored(s0.heap, s0.holds, s0.ext, a, index, v, h, m);
    s := Graph(h, m, s0.ext);
  }

  lemma FreezeStep(s0: SoundGraph, s1: SoundGraph, r: Ref, items: seq<Ref>, owning: bool, isMutable: bool)
      returns (s: SoundGraph)
    requires Added(s0.heap, s0.holds, s1.heap, s1.holds, r, Array(items, true, owning))
    ensures s == Graph(Frozen(s1.heap, r, isMutable), s1.holds, s1.ext)
    ensures Added(s0.heap, s0.holds, s.heap, s.holds, r, Array(items, isMutable, owning))
  {
    var h := Frozen(s1.heap, r, isMutable);
    AddedAccessible(s0.heap, s0.holds, s0.ext, s1.heap, s1.holds, r, Array(items, true, owning));
    SoundFreeze(s1.heap, s1.holds, s1.ext, r, isMutable, h);
    AddedFrozen(s0.heap, s0.holds, s1.heap, s1.holds, r, items, owning, isMutable, h);
    s := Graph(h, s1.holds, s1.ext);
  }

  /** Giving up the new object restores the state of before. */
  lemma GiveUpStep(s0: SoundGraph, s1: SoundGraph, r: Ref, body: Body, s: SoundGraph)
    requires Added(s0.heap, s0.holds, s1.heap, s1.holds, r, body) && r !in s1.holds[r]
    requires s.ext == s0.ext && Cascaded(s1.heap, s1.holds, s.heap, s.holds, s.ext, {})
    ensures s == s0
  {
    RollbackOne(s0.heap, s0.holds, s0.ext, s1.heap, s1.holds, r, s.heap, s.holds);
  }
}
