/** The states between two calls into the runtime, and what they say about leaks. */
module Soundness {
  import opened Cascade
  import opened Counting

  /** No deinit is running and every object accounts for exactly its children. */
  ghost predicate Quiet(heap: Heap, holds: Holdings)
    requires holds.Keys == heap.Keys
  {
    forall o {:trigger heap[o]} {:trigger holds[o]} :: o in heap ==>
      holds[o] == multiset(Children(heap[o].body)) && !IsDying(heap[o])
  }

  /** The array inside a page group: mutable and held by the group only; the items that it retains are pages. */
  ghost predicate IsGroupArray(heap: Heap, a: Ref) {
    && a in heap && !heap[a].isStack && heap[a].count == 1
    && heap[a].body.Array? && heap[a].body.isMutable
    && (heap[a].body.owning ==> forall p :: p in heap[a].body.items ==> p in heap && heap[p].body.Page?)
  }

  ghost predicate WellTyped(heap: Heap, object_: Object) {
    && (object_.isStack ==> object_.body.Str?)
    && (object_.body.Array? ==> 0 !in object_.body.items)
    && (object_.body.Group? ==> IsGroupArray(heap, object_.body.pages))
    && (object_.body.File? && object_.body.pageGroup != 0 ==>
          object_.body.pageGroup in heap && heap[object_.body.pageGroup].body.Group?)
  }

  ghost predicate Typed(heap: Heap) {
    forall o {:trigger WellTyped(heap, heap[o])} :: o in heap ==> WellTyped(heap, heap[o])
  }

  /** The invariant of the runtime between calls. */
  ghost predicate Sound(heap: Heap, holds: Holdings, ext: Refs) {
    Balanced(heap, holds, ext) && Quiet(heap, holds) && Typed(heap)
  }

  /** The whole state: the objects, what they hold, and the callers' references. */
  datatype Graph = Graph(heap: Heap, holds: Holdings, ext: Refs)

  /** A state between two calls. */
  type SoundGraph = g: Graph | Sound(g.heap, g.holds, g.ext)
    ghost witness Graph(map[], map[], multiset{})

  /** An object a caller can have a pointer to: any but the arrays inside page groups. */
  ghost predicate Accessible(heap: Heap, r: Ref) {
    r in heap && forall g :: g in heap && heap[g].body.Group? ==> heap[g].body.pages != r
  }

  // ---------------------------------------------------------------------------
  // Monotonicity of sums
  // ---------------------------------------------------------------------------

  lemma {:induction false} TotalOfFewer(m: Holdings, m0: Holdings, o: Ref)
    requires m.Keys <= m0.Keys && forall k :: k in m ==> m[k] == m0[k]
    ensures Total(m)[o] <= Total(m0)[o]
    decreases |m|
  {
    if m != map[] {
      var k :| k in m && Total(m) == m[k] + Total(m - {k});
      TotalOfFewer(m - {k}, m0 - {k}, o);
      TotalWithout(m0, k);
    }
  }

  lemma HeldIsReferenced(heap: Heap, holds: Holdings, ext: Refs, k: Ref, o: Ref)
    requires Balanced(heap, holds, ext) && k in holds && o in holds[k]
    ensures o in heap && AllRefs(holds, ext)[o] >= 1
  {
    HeldIsInTotal(holds, k, o);
  }

  /** The references an external holder and a group both have are different ones. */
  lemma GroupArrayNotExternal(heap: Heap, holds: Holdings, ext: Refs, g: Ref)
    requires Sound(heap, holds, ext) && g in heap && heap[g].body.Group?
    ensures heap[g].body.pages !in ext
    ensures forall k :: k in heap && k != g ==> heap[g].body.pages !in holds[k]
  {
    var a := heap[g].body.pages;
    assert WellTyped(heap, heap[g]);
    assert holds[g] == multiset{a};
    TotalWithout(holds, g);
    forall k | k in heap && k != g
      ensures a !in holds[k]
    {
      HeldIsInTotal(holds - {g}, k, a);
      assert AllRefs(holds, ext)[a] == 1;
    }
  }

  // ---------------------------------------------------------------------------
  // Releases
  // ---------------------------------------------------------------------------

  lemma QuietIsSettled(heap: Heap, holds: Holdings, base: Refs)
    requires holds.Keys == heap.Keys && Quiet(heap, holds)
    ensures Settled(heap, holds, base)
  {
  }

  lemma GroupTypedAfter(h0: Heap, m0: Holdings, ext0: Refs, h: Heap, m: Holdings, base: Refs, o: Ref)
    requires Sound(h0, m0, ext0) && base <= ext0
    requires Balanced(h, m, base) && Shrunk(h0, m0, h, m, {}) && Quiet(h, m)
    requires o in h && h[o].body.Group? && WellTyped(h0, h0[o])
    ensures WellTyped(h, h[o])
  {
    var a := h[o].body.pages;
    assert a in m[o];
    HeldIsReferenced(h, m, base, o, a);
    TotalOfFewer(m, m0, a);
    assert AllRefs(m, base)[a] <= AllRefs(m0, ext0)[a];
    if h[a].body.owning {
      forall p | p in h[a].body.items
        ensures p in h && h[p].body.Page?
      {
        assert p in m[a];
        HeldIsReferenced(h, m, base, a, p);
      }
    }
  }

  lemma TypedAfter(h0: Heap, m0: Holdings, ext0: Refs, h: Heap, m: Holdings, base: Refs, o: Ref)
    requires Sound(h0, m0, ext0) && base <= ext0
    requires Balanced(h, m, base) && Shrunk(h0, m0, h, m, {}) && Quiet(h, m)
    requires o in h && WellTyped(h0, h0[o])
    ensures WellTyped(h, h[o])
  {
    hide Counted;
    if h[o].body.Group? {
      GroupTypedAfter(h0, m0, ext0, h, m, base, o);
    } else if h[o].body.File? && h[o].body.pageGroup != 0 {
      assert h[o].body.pageGroup in m[o];
      HeldIsReferenced(h, m, base, o, h[o].body.pageGroup);
    }
  }

  lemma QuietAfter(h0: Heap, m0: Holdings, h: Heap, m: Holdings)
    requires m0.Keys == h0.Keys && m.Keys == h.Keys && Quiet(h0, m0) && Shrunk(h0, m0, h, m, {})
    ensures Quiet(h, m)
  {
    forall o | o in h
      ensures m[o] == multiset(Children(h[o].body)) && !IsDying(h[o])
    {
      assert o in h0;
    }
  }

  /** A release, however far it cascades, leads from a sound state to a sound state. */
  lemma SoundAfterCascade(h0: Heap, m0: Holdings, ext0: Refs, h: Heap, m: Holdings, base: Refs)
    requires Sound(h0, m0, ext0) && base <= ext0
    requires Balanced(h, m, base) && Shrunk(h0, m0, h, m, {})
    ensures Sound(h, m, base)
  {
    QuietAfter(h0, m0, h, m);
    assert h.Keys <= h0.Keys;
    hide Counted, Quiet, Shrunk;
    forall o | o in h
      ensures WellTyped(h, h[o])
    {
      assert WellTyped(h0, h0[o]);
      TypedAfter(h0, m0, ext0, h, m, base, o);
    }
  }

  /** An object no one refers to is not allocated in a sound state (unless it is on the stack). */
  lemma UnreferencedIsGone(h: Heap, m: Holdings, base: Refs, r: Ref)
    requires Balanced(h, m, base) && Quiet(h, m)
    requires r !in base && (r in h ==> !h[r].isStack)
    requires forall k :: k in h ==> r !in m[k]
    ensures r !in h
  {
    HeapSupported(h, m, base);
  }

  lemma SameMap<T>(a: map<nat, T>, b: map<nat, T>)
    requires a.Keys == b.Keys && forall k :: k in a ==> a[k] == b[k]
    ensures a == b
  {
  }

  /** New objects may have been added and counts raised; nothing else has changed. */
  ghost predicate Extends(h0: Heap, m0: Holdings, h1: Heap, m1: Holdings)
    requires m0.Keys == h0.Keys && m1.Keys == h1.Keys
  {
    && h0.Keys <= h1.Keys
    && (forall o :: o in h0 ==> m1[o] == m0[o] && h1[o].isStack == h0[o].isStack && h1[o].body == h0[o].body)
    && (forall o :: o in h0 && h0[o].isStack ==> h1[o] == h0[o])
  }

  lemma SupportedInExtension(h0: Heap, m0: Holdings, base: Refs, h1: Heap, m1: Holdings)
    requires m0.Keys == h0.Keys && m1.Keys == h1.Keys && Extends(h0, m0, h1, m1)
    requires Quiet(h0, m0) && Supported(h0.Keys, h0, m0, base)
    ensures Supported(h0.Keys, h1, m1, base)
  {
    forall o | o in h0.Keys && HeldWithin(h0.Keys, m0, o)
      ensures HeldWithin(h0.Keys, m1, o)
    {
      var k :| k in h0.Keys && k in m0 && o in m0[k];
      assert o in m1[k];
    }
  }

  lemma RestoredKeys(h0: Heap, m0: Holdings, base: Refs, h1: Heap, m1: Holdings, h: Heap, m: Holdings)
    requires Balanced(h0, m0, base) && Quiet(h0, m0)
    requires m1.Keys == h1.Keys && Extends(h0, m0, h1, m1)
    requires m.Keys == h.Keys && Cascaded(h1, m1, h, m, base, {})
    requires forall o :: o in h ==> o in h0
    ensures h.Keys == h0.Keys
    ensures forall o :: o in h ==> m[o] == m0[o]
  {
    HeapSupported(h0, m0, base);
    SupportedInExtension(h0, m0, base, h1, m1);
    assert h0.Keys <= h1.Keys && h0.Keys !! {};
  }

  lemma RestoredObjects(h0: Heap, m0: Holdings, base: Refs, h1: Heap, m1: Holdings, h: Heap, m: Holdings)
    requires Balanced(h0, m0, base) && Balanced(h, m, base) && m == m0
    requires m1.Keys == h1.Keys && Extends(h0, m0, h1, m1) && Shrunk(h1, m1, h, m, {})
    ensures forall o :: o in h && o in h0 ==> h[o] == h0[o]
  {
    forall o | o in h && o in h0
      ensures h[o] == h0[o]
    {
      assert h[o].isStack == h1[o].isStack && h[o].body == h1[o].body;
    }
  }

  /**
   * Giving up new objects restores the state: if a release leads from a state that only added objects and counts to a
   * state without those objects, it is the state of before.
   */
  lemma Restored(h0: Heap, m0: Holdings, base: Refs, h1: Heap, m1: Holdings, h: Heap, m: Holdings)
    requires Balanced(h0, m0, base) && Quiet(h0, m0)
    requires m1.Keys == h1.Keys && Extends(h0, m0, h1, m1)
    requires Balanced(h, m, base) && Cascaded(h1, m1, h, m, base, {})
    requires forall o :: o in h ==> o in h0
    ensures h == h0 && m == m0
  {
    RestoredKeys(h0, m0, base, h1, m1, h, m);
    SameMap(m, m0);
    RestoredObjects(h0, m0, base, h1, m1, h, m);
    SameMap(h, h0);
  }

  // ---------------------------------------------------------------------------
  // What can be leaked
  // ---------------------------------------------------------------------------

  /** Each object on the path holds a reference to the next. */
  ghost predicate IsPath(holds: Holdings, p: seq<Ref>) {
    && p != []
    && forall i :: 0 <= i < |p| - 1 ==> p[i] in holds && p[i + 1] in holds[p[i]]
  }

  /** A path whose first object occurs on it again: it starts on a cycle of references. */
  ghost predicate StartsOnCycle(p: seq<Ref>) {
    exists j :: 0 < j < |p| && p[j] == p[0]
  }

  /** Why an object may be allocated. */
  ghost predicate Explains(holds: Holdings, ext: Refs, p: seq<Ref>, o: Ref) {
    IsPath(holds, p) && p[|p| - 1] == o && (p[0] in ext || StartsOnCycle(p))
  }

  lemma PathUp(holds: Holdings, k: Ref, up: seq<Ref>)
    requires IsPath(holds, up) && k in holds && up[0] in holds[k]
    ensures IsPath(holds, [k] + up)
  {
    var p := [k] + up;
    forall i | 0 <= i < |p| - 1
      ensures p[i] in holds && p[i + 1] in holds[p[i]]
    {
      assert i > 0 ==> p[i] == up[i - 1] && p[i + 1] == up[i];
    }
  }

  /** Distinct allocated objects. */
  ghost predicate IsSimple(p: seq<Ref>, s: set<Ref>) {
    && (forall i :: 0 <= i < |p| ==> p[i] in s)
    && (forall i, j :: 0 <= i < j < |p| ==> p[i] != p[j])
  }

  lemma {:induction false} DistinctFit(p: seq<Ref>, s: set<Ref>)
    requires IsSimple(p, s)
    ensures |p| <= |s|
  {
    if p != [] {
      var last := p[|p| - 1];
      DistinctFit(p[..|p| - 1], s - {last});
    }
  }

  lemma SimpleUp(p: seq<Ref>, s: set<Ref>, k: Ref)
    requires IsSimple(p, s) && k in s && k !in p
    ensures IsSimple([k] + p, s)
  {
    var up := [k] + p;
    assert forall i :: 0 < i < |up| ==> up[i] == p[i - 1];
  }

  /** A path of distinct heap objects down to `o`. */
  ghost predicate IsClimb(heap: Heap, holds: Holdings, o: Ref, up: seq<Ref>) {
    IsPath(holds, up) && up[|up| - 1] == o && IsSimple(up, heap.Keys) && !heap[up[0]].isStack
  }

  lemma ClimbHigher(heap: Heap, holds: Holdings, o: Ref, k: Ref, up: seq<Ref>)
    requires IsClimb(heap, holds, o, up) && k !in up
    requires k in heap && !heap[k].isStack && k in holds && up[0] in holds[k]
    ensures IsClimb(heap, holds, o, [k] + up) && |[k] + up| <= |heap.Keys|
  {
    PathUp(holds, k, up);
    SimpleUp(up, heap.Keys, k);
    DistinctFit([k] + up, heap.Keys);
  }

  lemma CycleFound(holds: Holdings, ext: Refs, o: Ref, k: Ref, up: seq<Ref>)
    requires IsPath(holds, up) && up[|up| - 1] == o && k in up && k in holds && up[0] in holds[k]
    ensures Explains(holds, ext, [k] + up, o)
  {
    PathUp(holds, k, up);
    var j :| 0 <= j < |up| && up[j] == k;
    assert ([k] + up)[j + 1] == ([k] + up)[0];
  }

  /** No deinit is running, the counts agree, and objects on the stack refer to nothing. */
  ghost predicate AtRest(heap: Heap, holds: Holdings, ext: Refs) {
    && Balanced(heap, holds, ext) && Quiet(heap, holds)
    && forall o :: o in heap && heap[o].isStack ==> holds[o] == multiset{}
  }

  lemma SoundIsAtRest(heap: Heap, holds: Holdings, ext: Refs)
    requires Sound(heap, holds, ext)
    ensures AtRest(heap, holds, ext)
  {
    forall o | o in heap && heap[o].isStack
      ensures holds[o] == multiset{}
    {
      assert WellTyped(heap, heap[o]);
    }
  }

  /** An object without external reference has a holder, on the heap like itself. */
  lemma HasHolder(heap: Heap, holds: Holdings, ext: Refs, o: Ref) returns (k: Ref)
    requires AtRest(heap, holds, ext) && o in heap && !heap[o].isStack && o !in ext
    ensures k in heap && k in holds && !heap[k].isStack && o in holds[k]
  {
    HeapSupported(heap, holds, ext);
    assert o in heap.Keys && HeldWithin(heap.Keys, holds, o);
    k :| k in heap && o in holds[k];
  }

  lemma {:induction false} ClimbToOrigin(heap: Heap, holds: Holdings, ext: Refs, o: Ref, up: seq<Ref>)
      returns (p: seq<Ref>)
    requires AtRest(heap, holds, ext) && IsClimb(heap, holds, o, up)
    ensures Explains(holds, ext, p, o)
    decreases |heap.Keys| - |up|
  {
    if up[0] in ext {
      p := up;
    } else {
      var k := HasHolder(heap, holds, ext, up[0]);
      p := [k] + up;
      if k in up {
        CycleFound(holds, ext, o, k, up);
      } else {
        ClimbHigher(heap, holds, o, k, up);
        p := ClimbToOrigin(heap, holds, ext, o, p);
      }
    }
  }

  /** Every allocated heap object is reached from an external reference or from a cycle of references. */
  lemma AllocatedIsExplained(heap: Heap, holds: Holdings, ext: Refs, o: Ref) returns (p: seq<Ref>)
    requires AtRest(heap, holds, ext) && o in heap && !heap[o].isStack
    ensures Explains(holds, ext, p, o)
  {
    p := ClimbToOrigin(heap, holds, ext, o, [o]);
  }

  /** And what is reached from an external reference is allocated. */
  lemma {:induction false} ReachableIsAllocated(heap: Heap, holds: Holdings, ext: Refs, p: seq<Ref>)
    requires Balanced(heap, holds, ext) && IsPath(holds, p) && p[0] in ext
    ensures p[|p| - 1] in heap
  {
    if |p| == 1 {
      assert AllRefs(holds, ext)[p[0]] > 0;
    } else {
      var k, o := p[|p| - 2], p[|p| - 1];
      assert k in holds && o in holds[k];
      HeldIsReferenced(heap, holds, ext, k, o);
    }
  }

  /** No path returns to where it started. */
  ghost predicate Acyclic(holds: Holdings) {
    forall p :: IsPath(holds, p) ==> !StartsOnCycle(p)
  }

  /**
   * Without cycles of references, exactly what external references reach is allocated; so once all of them are
   * released, nothing is left on the heap.
   */
  lemma NoLeakWithoutCycle(heap: Heap, holds: Holdings, ext: Refs, o: Ref)
    requires AtRest(heap, holds, ext) && Acyclic(holds) && (o in heap ==> !heap[o].isStack)
    ensures o in heap <==> exists p :: IsPath(holds, p) && p[|p| - 1] == o && p[0] in ext
    ensures ext == multiset{} ==> o !in heap
  {
    if o in heap {
      var p := AllocatedIsExplained(heap, holds, ext, o);
    }
    if p :| IsPath(holds, p) && p[|p| - 1] == o && p[0] in ext {
      ReachableIsAllocated(heap, holds, ext, p);
    }
  }

  // ---------------------------------------------------------------------------
  // What a release leaves
  // ---------------------------------------------------------------------------

  /** The objects on a cycle of references keep each other alive. */
  lemma CycleSurvives(h0: Heap, m0: Holdings, h: Heap, m: Holdings, base: Refs, p: seq<Ref>)
    requires m0.Keys == h0.Keys && m.Keys == h.Keys && Cascaded(h0, m0, h, m, base, {})
    requires IsPath(m0, p) && StartsOnCycle(p)
    ensures p[0] in h
  {
    var j :| 0 < j < |p| && p[j] == p[0];
    var cycle := set i | 0 <= i < j :: p[i];
    forall o | o in cycle
      ensures o in h0 && HeldWithin(cycle, m0, o)
    {
      var i :| 0 <= i < j && p[i] == o;
      var k := if i == 0 then j - 1 else i - 1;
      assert p[k] in m0 && p[k + 1] in m0[p[k]] && p[k] in cycle;
    }
    assert Supported(cycle, h0, m0, base);
    assert cycle <= h0.Keys && cycle !! {} && p[0] in cycle;
  }

  /** A path that starts at a survivor is all survivors. */
  lemma {:induction false} PathSurvives(h0: Heap, m0: Holdings, h: Heap, m: Holdings, base: Refs, p: seq<Ref>)
    requires m0.Keys == h0.Keys && Balanced(h, m, base) && Shrunk(h0, m0, h, m, {})
    requires IsPath(m0, p) && p[0] in h
    ensures p[|p| - 1] in h && IsPath(m, p)
    decreases |p|
  {
    if |p| > 1 {
      var q, k, o := p[..|p| - 1], p[|p| - 2], p[|p| - 1];
      PathSurvives(h0, m0, h, m, base, q);
      assert k in m0 && o in m0[k] && q[|q| - 1] == k;
      HeldIsReferenced(h, m, base, k, o);
    }
  }

  lemma PathBefore(h0: Heap, m0: Holdings, h: Heap, m: Holdings, p: seq<Ref>)
    requires m0.Keys == h0.Keys && m.Keys == h.Keys && Shrunk(h0, m0, h, m, {}) && IsPath(m, p)
    ensures IsPath(m0, p)
  {
    forall i | 0 <= i < |p| - 1
      ensures p[i] in m0 && p[i + 1] in m0[p[i]]
    {
      assert p[i] in m && p[i + 1] in m[p[i]];
    }
  }

  lemma ExplainedStays(h0: Heap, m0: Holdings, h: Heap, m: Holdings, base: Refs, p: seq<Ref>)
    requires m0.Keys == h0.Keys && Balanced(h, m, base) && Cascaded(h0, m0, h, m, base, {})
    requires IsPath(m0, p) && (p[0] in base || StartsOnCycle(p))
    ensures p[|p| - 1] in h
  {
    if p[0] in base {
      assert AllRefs(m, base)[p[0]] > 0;
    } else {
      CycleSurvives(h0, m0, h, m, base, p);
    }
    PathSurvives(h0, m0, h, m, base, p);
  }

  /**
   * After a release exactly those heap objects are left that were reached, before it, from a remaining external
   * reference or from a cycle of references.
   */
  lemma SurvivorsExactly(h0: Heap, m0: Holdings, ext0: Refs, h: Heap, m: Holdings, base: Refs, o: Ref)
    requires AtRest(h0, m0, ext0) && AtRest(h, m, base) && Cascaded(h0, m0, h, m, base, {})
    requires o in h0 && !h0[o].isStack
    ensures o in h <==> exists p :: Explains(m0, base, p, o)
  {
    if o in h {
      var p := AllocatedIsExplained(h, m, base, o);
      PathBefore(h0, m0, h, m, p);
      assert Explains(m0, base, p, o);
    }
    if p :| Explains(m0, base, p, o) {
      ExplainedStays(h0, m0, h, m, base, p);
    }
  }

  lemma HolderIsOnHeap(heap: Heap, holds: Holdings, ext: Refs, k: Ref, o: Ref)
    requires AtRest(heap, holds, ext) && k in holds && o in holds[k]
    ensures k in heap && !heap[k].isStack
  {
  }

  /** Once the last external reference is released, nothing is left on the heap if and only if there was no cycle. */
  lemma NothingLeftExactly(h0: Heap, m0: Holdings, ext0: Refs, h: Heap, m: Holdings)
    requires AtRest(h0, m0, ext0) && AtRest(h, m, multiset{}) && Cascaded(h0, m0, h, m, multiset{}, {})
    ensures (forall o :: o in h ==> h[o].isStack) <==> Acyclic(m0)
  {
    if Acyclic(m0) {
      forall o | o in h
        ensures h[o].isStack
      {
        if !h[o].isStack {
          var p := AllocatedIsExplained(h, m, multiset{}, o);
          PathBefore(h0, m0, h, m, p);
          assert false;
        }
      }
    } else {
      var p :| IsPath(m0, p) && StartsOnCycle(p);
      CycleSurvives(h0, m0, h, m, multiset{}, p);
      HolderIsOnHeap(h0, m0, ext0, p[0], p[1]);
      assert h[p[0]].isStack == h0[p[0]].isStack;
    }
  }

  /** Without external references, what is allocated is what cycles keep, and nothing else. */
  lemma OnlyCyclesLeak(heap: Heap, holds: Holdings)
    requires AtRest(heap, holds, multiset{})
    ensures (forall o :: o in heap ==> heap[o].isStack) <==> Acyclic(holds)
  {
    CascadedRefl(heap, holds, multiset{}, {});
    NothingLeftExactly(heap, holds, multiset{}, heap, holds);
  }

  /** Two arrays that contain each other. */
  function CycleHeap(): Heap {
    map[1 := Object(false, 1, Array([2], true, true)), 2 := Object(false, 1, Array([1], true, true))]
  }

  function CycleHoldings(): Holdings {
    map[1 := multiset{2}, 2 := multiset{1}]
  }

  lemma CycleQuiet()
    ensures CycleHoldings().Keys == CycleHeap().Keys && Quiet(CycleHeap(), CycleHoldings())
  {
    assert multiset(Children(CycleHeap()[1].body)) == multiset{2};
    assert multiset(Children(CycleHeap()[2].body)) == multiset{1};
  }

  lemma CycleTyped()
    ensures Typed(CycleHeap())
  {
  }

  lemma CycleBalanced()
    ensures CycleHoldings().Keys == CycleHeap().Keys && Counted(CycleHeap(), multiset{1, 2})
  {
  }

  lemma CycleTotal()
    ensures Total(CycleHoldings()) == multiset{1, 2}
  {
    var m0: Holdings := map[];
    var m1: Holdings := m0[1 := multiset{2}];
    TotalInsert(m0, 1, multiset{2});
    TotalInsert(m1, 2, multiset{1});
    assert m1[2 := multiset{1}] == CycleHoldings();
  }

  /** The condition is needed: the two arrays stay allocated although no caller refers to them. */
  lemma CycleLeaks()
    ensures Sound(CycleHeap(), CycleHoldings(), multiset{}) && CycleHeap() != map[]
  {
    CycleTotal();
    assert AllRefs(CycleHoldings(), multiset{}) == multiset{1, 2};
    CycleBalanced();
    CycleQuiet();
    CycleTyped();
  }
}
