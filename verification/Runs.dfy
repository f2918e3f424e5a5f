/** Any sequential run of calls into the runtime, by a client that uses only references it has. */
module Runs {
  import opened Allocation
  import opened Cascade
  import opened Counting
  import opened Groups
  import opened GroupSteps
  import opened ObjectRuntime
  import opened Removal
  import opened Soundness
  import opened Steps

  /** A call and its arguments; NULL and wrong arguments are allowed where the functions handle them. */
  datatype Call =
    | CallRetain(object_: Ref)
    | CallRetainItem(array_: Ref, index: nat)
    | CallRelease(object_: Ref)
    | CallStringCreate
    | CallPageCreate(length: nat)
    | CallArrayCreate(capacity: nat, objectCallbacks: bool)
    | CallArrayStore(array_: Ref, index: nat, value: Ref)
    | CallArrayRemove(array_: Ref, index: nat)
    | CallArrayCopy(array_: Ref, isMutable: bool)
    | CallGroupCreate(pageLength: nat)
    | CallGroupCreateWithPages(array_: Ref)
    | CallGroupCopyPages(group: Ref)
    | CallGroupExtend(group: Ref, pageLength: nat)
    | CallGroupMerge(group: Ref)
    | CallFileCreate(pageLength: nat)

  predicate OwnsArray(heap: Heap, owned: Refs, r: Ref) {
    r != 0 && r in owned && r in heap && heap[r].body.Array?
  }

  predicate OwnsGroup(heap: Heap, owned: Refs, r: Ref) {
    r != 0 && r in owned && r in heap && heap[r].body.Group?
  }

  /** The items are retained by their array or owned by the client, so that they may be looked at. */
  predicate ItemsStay(body: Body, owned: Refs)
    requires body.Array?
  {
    body.owning || forall p :: p in body.items ==> p in owned
  }

  /** What a creating function returned is the client's. */
  function Acquired(owned: Refs, r: Ref): Refs {
    if r == 0 then owned else owned + multiset{r}
  }

  // ---------------------------------------------------------------------------
  // What the calls do
  // ---------------------------------------------------------------------------

  /** Nothing happened, and nothing was returned. */
  predicate Unchanged(s0: Graph, s: Graph, r: Ref) {
    s == s0 && r == 0
  }

  ghost predicate RetainEffect(s0: Graph, s: Graph, x: Ref, r: Ref)
    requires x in s0.heap
  {
    r == x && s == Graph(Raised(s0.heap, x), s0.holds, s0.ext + multiset{x})
  }

  /** Retain, also of an item fetched from an array of objects, and release. */
  ghost predicate CountEffect(call: Call, s0: SoundGraph, s: SoundGraph, r: Ref)
    requires call.CallRetain? || call.CallRetainItem? || call.CallRelease?
  {
    if call.CallRetainItem? then
      if OwnsArray(s0.heap, s0.ext, call.array_) && s0.heap[call.array_].body.owning &&
         call.index < |s0.heap[call.array_].body.items|
      then
        var x := s0.heap[call.array_].body.items[call.index];
        x in s0.heap && RetainEffect(s0, s, x, r)
      else Unchanged(s0, s, r)
    else if call.object_ !in s0.ext then Unchanged(s0, s, r)
    else if call.CallRetain? then call.object_ in s0.heap && RetainEffect(s0, s, call.object_, r)
    else
      && r == 0 && s.ext == s0.ext - multiset{call.object_}
      && Cascaded(s0.heap, s0.holds, s.heap, s.holds, s.ext, {})
  }

  /** The new object, alone, with count 1; or nothing if memory was refused. */
  ghost predicate CreateEffect(call: Call, s0: Graph, s: Graph, r: Ref, refused: bool)
    requires call.CallStringCreate? || call.CallPageCreate? || call.CallArrayCreate?
  {
    if refused || (call.CallPageCreate? && call.length == 0) then Unchanged(s0, s, r)
    else
      var body := if call.CallPageCreate? then Page(call.length)
                  else if call.CallArrayCreate? then Array([], true, call.objectCallbacks)
                  else Str;
      r != 0 && r !in s0.heap && s == WithObject(s0, r, body)
  }

  ghost predicate StoreEffect(s0: SoundGraph, s: Graph, a: Ref, index: nat, v: Ref, refused: bool)
    requires a in s0.heap && s0.heap[a].body.Array?
  {
    var body := s0.heap[a].body;
    if v == 0 || !body.isMutable || index > |body.items| || refused || (body.owning && v !in s0.ext) then s == s0
    else
      && (body.owning ==> v in s0.heap)
      && s == Graph(StoredHeap(s0.heap, a, index, v), StoredHoldings(s0.heap, s0.holds, a, v), s0.ext)
      && a in s.heap && s.heap[a].body.Array?
      && var items, items' := body.items, s.heap[a].body.items;
         && |items'| == |items| + 1 && items'[index] == v
         && (forall k :: 0 <= k < index ==> items'[k] == items[k])
         && (forall k :: index <= k < |items| ==> items'[k + 1] == items[k])
  }

  ghost predicate RemoveEffect(s0: SoundGraph, s: Graph, a: Ref, index: nat)
    requires a in s0.heap && s0.heap[a].body.Array?
  {
    if !s0.heap[a].body.isMutable || index >= |s0.heap[a].body.items| then s == s0
    else
      && (if s0.heap[a].body.owning then ItemRemoved(s0, s, a, index)
          else s == Graph(TakenOut(s0.heap, a, index), s0.holds, s0.ext))
      && a in s.heap && s.heap[a].body.Array?
      && var items, items' := s0.heap[a].body.items, s.heap[a].body.items;
         && |items'| == |items| - 1
         && (forall k :: 0 <= k < index ==> items'[k] == items[k])
         && (forall k :: index <= k < |items'| ==> items'[k] == items[k + 1])
  }

  /** A copy of the array, or nothing if memory was refused. */
  ghost predicate CopyEffect(s0: SoundGraph, s: SoundGraph, a: Ref, isMutable: bool, r: Ref, refused: bool)
    requires a in s0.heap && s0.heap[a].body.Array?
  {
    if refused then Unchanged(s0, s, r)
    else
      && r != 0 && s.ext == s0.ext + multiset{r}
      && Added(s0.heap, s0.holds, s.heap, s.holds, r, Array(s0.heap[a].body.items, isMutable, s0.heap[a].body.owning))
  }

  ghost predicate ArrayEffect(call: Call, s0: SoundGraph, s: SoundGraph, r: Ref, refused: bool)
    requires call.CallArrayStore? || call.CallArrayRemove? || call.CallArrayCopy?
  {
    if !OwnsArray(s0.heap, s0.ext, call.array_) then Unchanged(s0, s, r)
    else if call.CallArrayStore? then r == 0 && StoreEffect(s0, s, call.array_, call.index, call.value, refused)
    else if call.CallArrayRemove? then r == 0 && RemoveEffect(s0, s, call.array_, call.index)
    else CopyEffect(s0, s, call.array_, call.isMutable, r, refused)
  }

  /** A group, its array and its page are new, each with count 1. */
  ghost predicate NewGroup(s0: Graph, s: Graph, n: nat, p: Ref, a: Ref, g: Ref) {
    && p !in s0.heap && a !in s0.heap && g !in s0.heap && p != a && p != g && a != g
    && s == Graph(WithGroup(s0.heap, p, n, a, g), WithGroupHoldings(s0.holds, p, a, g), s0.ext + multiset{g})
  }

  /** A file handle and what it needs are new, each with count 1. */
  ghost predicate NewFile(s0: Graph, s: Graph, n: nat, p: Ref, a: Ref, g: Ref, f: Ref) {
    && p !in s0.heap && a !in s0.heap && g !in s0.heap && f !in s0.heap
    && p != a && p != g && p != f && a != g && a != f && g != f
    && s == Graph(WithFile(s0.heap, p, n, a, g, f), WithFileHoldings(s0.holds, p, a, g, f), s0.ext + multiset{f})
  }

  ghost predicate GroupCreateEffect(call: Call, s0: SoundGraph, s: SoundGraph, r: Ref, refused: bool)
    requires call.CallGroupCreate? || call.CallGroupCreateWithPages? || call.CallFileCreate?
  {
    if refused then Unchanged(s0, s, r)
    else if call.CallGroupCreateWithPages? then
      if OwnsArray(s0.heap, s0.ext, call.array_) && ItemsStay(s0.heap[call.array_].body, s0.ext) &&
         AllPages(s0.heap, s0.heap[call.array_].body.items)
      then
        var body := s0.heap[call.array_].body;
        r != 0 && exists a :: GroupAdded(s0, s, r, a, body.items, body.owning)
      else Unchanged(s0, s, r)
    else if call.pageLength == 0 then Unchanged(s0, s, r)
    else if call.CallGroupCreate? then r != 0 && exists p, a :: NewGroup(s0, s, call.pageLength, p, a, r)
    else r != 0 && exists p, a, g :: NewFile(s0, s, call.pageLength, p, a, g, r)
  }

  /** The group's array has one more page. */
  ghost predicate PageAppended(s0: Graph, s: Graph, a: Ref, p: Ref, n: nat)
    requires a in s0.heap && a in s0.holds && s0.heap[a].body.Array?
  {
    p !in s0.heap && s == GroupExtended(s0, a, p, n)
  }

  ghost predicate GroupEffect(call: Call, s0: SoundGraph, s: SoundGraph, r: Ref, refused: bool)
    requires call.CallGroupCopyPages? || call.CallGroupExtend? || call.CallGroupMerge?
  {
    if !OwnsGroup(s0.heap, s0.ext, call.group) then Unchanged(s0, s, r)
    else
      var a := s0.heap[call.group].body.pages;
      GroupArrayShape(s0, call.group, a);
      var items := s0.heap[a].body.items;
      if call.CallGroupCopyPages? then CopyEffect(s0, s, a, false, r, refused)
      else if call.CallGroupExtend? then
        && r == 0
        && if refused || call.pageLength == 0 then s == s0 else exists p :: PageAppended(s0, s, a, p, call.pageLength)
      else if !s0.heap[a].body.owning then Unchanged(s0, s, r)
      else
        && r == 0
        && if refused || TotalLength(s0.heap, items) == 0 || items == [] then s == s0
           else exists huge :: Merged(s0, s, a, huge, TotalLength(s0.heap, items))
  }

  /** What each call does to the graph, and what it returns; a call that the client may not make does not happen. */
  ghost predicate Effect(call: Call, s0: SoundGraph, s: SoundGraph, r: Ref, refused: bool) {
    if call.CallRetain? || call.CallRetainItem? || call.CallRelease? then CountEffect(call, s0, s, r)
    else if call.CallStringCreate? || call.CallPageCreate? || call.CallArrayCreate? then
      CreateEffect(call, s0, s, r, refused)
    else if call.CallArrayStore? || call.CallArrayRemove? || call.CallArrayCopy? then
      ArrayEffect(call, s0, s, r, refused)
    else if call.CallGroupCreate? || call.CallGroupCreateWithPages? || call.CallFileCreate? then
      GroupCreateEffect(call, s0, s, r, refused)
    else GroupEffect(call, s0, s, r, refused)
  }

  // ---------------------------------------------------------------------------
  // The calls
  // ---------------------------------------------------------------------------

  method Count(rt: Runtime, call: Call, owned: Refs, ghost s0: SoundGraph)
      returns (r: Ref, owned': Refs, ghost s: SoundGraph)
    requires rt.Is(s0) && owned == s0.ext && (call.CallRetain? || call.CallRetainItem? || call.CallRelease?)
    modifies rt
    ensures rt.Is(s) && owned' == s.ext && CountEffect(call, s0, s, r)
  {
    hide Counted, Quiet, Typed, Shrunk, KeepsSupported;
    r, owned', s := 0, owned, s0;
    if call.CallRetainItem? {
      if OwnsArray(rt.heap, owned, call.array_) && rt.heap[call.array_].body.owning &&
         call.index < |rt.heap[call.array_].body.items| {
        r := rt.heap[call.array_].body.items[call.index];
        SourceItem(s0.heap, s0.holds, s0.ext, call.array_, call.index);
        s := rt.Retain(r, s0);
        owned' := owned + multiset{r};
      }
    } else if call.object_ in owned {
      NewestAccessible(s0, call.object_);
      if call.CallRetain? {
        r := call.object_;
        s := rt.Retain(r, s0);
        owned' := owned + multiset{r};
      } else {
        s := rt.ReleaseAt(call.object_, s0);
        owned' := owned - multiset{call.object_};
      }
    }
  }

  /** Creation of objects that refer to nothing. */
  method Create(rt: Runtime, a: Allocator, call: Call, owned: Refs, ghost s0: SoundGraph)
      returns (r: Ref, owned': Refs, ghost s: SoundGraph)
    requires rt.Is(s0) && owned == s0.ext
    requires call.CallStringCreate? || call.CallPageCreate? || call.CallArrayCreate?
    modifies rt, a
    ensures rt.Is(s) && owned' == s.ext && a.failures >= old(a.failures)
    ensures CreateEffect(call, s0, s, r, a.failures > old(a.failures))
  {
    hide Counted, Quiet, Typed, Extends;
    if call.CallPageCreate? {
      r, s := rt.CreatePage(a, call.length, s0);
    } else if call.CallArrayCreate? {
      r, s := rt.CreateArray(a, call.capacity, call.objectCallbacks, s0);
    } else {
      r, s := rt.Allocate(a, Str, s0);
    }
    owned' := Acquired(owned, r);
  }

  /** A value that the array would retain must be the client's. */
  method Store(rt: Runtime, a: Allocator, array_: Ref, index: nat, value: Ref, owned: Refs, ghost s0: SoundGraph)
      returns (ghost s: SoundGraph)
    requires rt.Is(s0) && owned == s0.ext && OwnsArray(s0.heap, s0.ext, array_)
    modifies rt, a
    ensures rt.Is(s) && s.ext == s0.ext && a.failures >= old(a.failures)
    ensures StoreEffect(s0, s, array_, index, value, a.failures > old(a.failures))
  {
    hide Counted, Quiet, Typed, StoredHeap, StoredHoldings, Accessible;
    s := s0;
    NewestAccessible(s0, array_);
    if value in owned || value == 0 || !rt.heap[array_].body.owning {
      if value in owned {
        NewestAccessible(s0, value);
        ReferencedIsAllocated(s0.heap, s0.holds, s0.ext, value);
      }
      var stored;
      stored, s := rt.StoreAt(a, array_, index, value, s0);
    }
  }

  method Remove(rt: Runtime, array_: Ref, index: nat, ghost s0: SoundGraph) returns (ghost s: SoundGraph)
    requires rt.Is(s0) && OwnsArray(s0.heap, s0.ext, array_)
    modifies rt
    ensures rt.Is(s) && s.ext == s0.ext && RemoveEffect(s0, s, array_, index)
  {
    hide Counted, Quiet, Typed, Cascaded, TakenOut;
    s := RemoveValueAtIndex(rt, array_, index, s0);
  }

  /** Calls on arrays. */
  method UseArray(rt: Runtime, a: Allocator, call: Call, owned: Refs, ghost s0: SoundGraph)
      returns (r: Ref, owned': Refs, ghost s: SoundGraph)
    requires rt.Is(s0) && owned == s0.ext
    requires call.CallArrayStore? || call.CallArrayRemove? || call.CallArrayCopy?
    modifies rt, a
    ensures rt.Is(s) && owned' == s.ext && a.failures >= old(a.failures)
    ensures ArrayEffect(call, s0, s, r, a.failures > old(a.failures))
  {
    hide Counted, Quiet, Typed, Extends, StoreEffect, RemoveEffect;
    r, owned', s := 0, owned, s0;
    if OwnsArray(rt.heap, owned, call.array_) {
      NewestAccessible(s0, call.array_);
      if call.CallArrayStore? {
        s := Store(rt, a, call.array_, call.index, call.value, owned, s0);
      } else if call.CallArrayRemove? {
        s := Remove(rt, call.array_, call.index, s0);
      } else {
        r, s := rt.CopyArray(a, call.array_, call.isMutable, s0);
        owned' := Acquired(owned, r);
      }
    }
  }

  /** A group of one new page. */
  method CreateGroup(rt: Runtime, a: Allocator, call: Call, owned: Refs, ghost s0: SoundGraph)
      returns (r: Ref, owned': Refs, ghost s: SoundGraph)
    requires rt.Is(s0) && owned == s0.ext && call.CallGroupCreate?
    modifies rt, a
    ensures rt.Is(s) && owned' == s.ext && a.failures >= old(a.failures)
    ensures GroupCreateEffect(call, s0, s, r, a.failures > old(a.failures))
  {
    hide Counted, Quiet, Typed, Extends, WithGroup, WithGroupHoldings;
    ghost var page, array_;
    r, page, array_, s := PageGroupCreate(rt, a, call.pageLength, s0);
    assert r != 0 ==> NewGroup(s0, s, call.pageLength, page, array_, r);
    owned' := Acquired(owned, r);
  }

  /** A file handle. */
  method CreateFile(rt: Runtime, a: Allocator, call: Call, owned: Refs, ghost s0: SoundGraph)
      returns (r: Ref, owned': Refs, ghost s: SoundGraph)
    requires rt.Is(s0) && owned == s0.ext && call.CallFileCreate?
    modifies rt, a
    ensures rt.Is(s) && owned' == s.ext && a.failures >= old(a.failures)
    ensures GroupCreateEffect(call, s0, s, r, a.failures > old(a.failures))
  {
    hide Counted, Quiet, Typed, Extends, WithFile, WithFileHoldings;
    ghost var page, array_, group;
    r, page, array_, group, s := FileHandleCreate(rt, a, call.pageLength, s0);
    assert r != 0 ==> NewFile(s0, s, call.pageLength, page, array_, group, r);
    owned' := Acquired(owned, r);
  }

  lemma OwnedAreAllocated(s: SoundGraph)
    ensures forall r :: r in s.ext ==> r in s.heap
  {
    forall r | r in s.ext
      ensures r in s.heap
    {
      ReferencedIsAllocated(s.heap, s.holds, s.ext, r);
    }
  }

  /** A group of the pages of an array. */
  method CreateGroupWithPages(rt: Runtime, a: Allocator, call: Call, owned: Refs, ghost s0: SoundGraph)
      returns (r: Ref, owned': Refs, ghost s: SoundGraph)
    requires rt.Is(s0) && owned == s0.ext && call.CallGroupCreateWithPages?
    modifies rt, a
    ensures rt.Is(s) && owned' == s.ext && a.failures >= old(a.failures)
    ensures GroupCreateEffect(call, s0, s, r, a.failures > old(a.failures))
  {
    hide Counted, Quiet, Typed, Extends, NewObject;
    r, owned', s := 0, owned, s0;
    ghost var array_;
    if OwnsArray(rt.heap, owned, call.array_) && ItemsStay(rt.heap[call.array_].body, owned) {
      OwnedAreAllocated(s0);
      r, array_, s := PageGroupCreateWithPages(rt, a, call.array_, s0);
      owned' := Acquired(owned, r);
    }
  }

  /** Calls on groups. */
  method UseGroup(rt: Runtime, a: Allocator, call: Call, owned: Refs, ghost s0: SoundGraph)
      returns (r: Ref, owned': Refs, ghost s: SoundGraph)
    requires rt.Is(s0) && owned == s0.ext
    requires call.CallGroupCopyPages? || call.CallGroupExtend? || call.CallGroupMerge?
    modifies rt, a
    ensures rt.Is(s) && owned' == s.ext && a.failures >= old(a.failures)
    ensures GroupEffect(call, s0, s, r, a.failures > old(a.failures))
  {
    hide Counted, Quiet, Typed, Extends, WithPage, WithPageHoldings, WithPointer;
    r, owned', s := 0, owned, s0;
    if OwnsGroup(rt.heap, owned, call.group) {
      GroupArrayShape(s0, call.group, s0.heap[call.group].body.pages);
      var ok;
      ghost var page;
      if call.CallGroupExtend? {
        ok, page, s := PageGroupExtend(rt, a, call.group, call.pageLength, s0);
        assert ok ==> PageAppended(s0, s, s0.heap[call.group].body.pages, page, call.pageLength);
      } else if call.CallGroupMerge? && !rt.heap[rt.heap[call.group].body.pages].body.owning {
        // a client does not merge a group whose pages may have been freed
      } else if call.CallGroupMerge? {
        ok, page, s := PageGroupMerge(rt, a, call.group, s0);
      } else {
        r, s := PageGroupCopyPages(rt, a, call.group, s0);
        owned' := Acquired(owned, r);
      }
    }
  }

  /** One call: its effect, and its result, which is the client's. */
  method Perform(rt: Runtime, a: Allocator, call: Call, owned: Refs, ghost s0: SoundGraph)
      returns (r: Ref, owned': Refs, ghost s: SoundGraph)
    requires rt.Is(s0) && owned == s0.ext
    modifies rt, a
    ensures rt.Is(s) && owned' == s.ext && a.failures >= old(a.failures)
    ensures Effect(call, s0, s, r, a.failures > old(a.failures))
  {
    hide Counted, Quiet, Typed, CountEffect, CreateEffect, ArrayEffect, GroupCreateEffect, GroupEffect;
    if call.CallRetain? || call.CallRetainItem? || call.CallRelease? {
      r, owned', s := Count(rt, call, owned, s0);
    } else if call.CallStringCreate? || call.CallPageCreate? || call.CallArrayCreate? {
      r, owned', s := Create(rt, a, call, owned, s0);
    } else if call.CallArrayStore? || call.CallArrayRemove? || call.CallArrayCopy? {
      r, owned', s := UseArray(rt, a, call, owned, s0);
    } else if call.CallGroupCreate? {
      r, owned', s := CreateGroup(rt, a, call, owned, s0);
    } else if call.CallFileCreate? {
      r, owned', s := CreateFile(rt, a, call, owned, s0);
    } else if call.CallGroupCreateWithPages? {
      r, owned', s := CreateGroupWithPages(rt, a, call, owned, s0);
    } else {
      r, owned', s := UseGroup(rt, a, call, owned, s0);
    }
  }

  // ---------------------------------------------------------------------------
  // Runs
  // ---------------------------------------------------------------------------

  /** What a call returned, how many requests had been refused when it was over, and the state it left. */
  datatype Answer = Answer(result: Ref, failures: nat, state: SoundGraph)

  /** The state, and the number of refused requests, before the `k`-th call. */
  ghost function StateBefore(s0: SoundGraph, answers: seq<Answer>, k: nat): SoundGraph
    requires k <= |answers|
  {
    if k == 0 then s0 else answers[k - 1].state
  }

  function FailuresBefore(start: nat, answers: seq<Answer>, k: nat): nat
    requires k <= |answers|
  {
    if k == 0 then start else answers[k - 1].failures
  }

  /** The call had its effect on the state the calls before it left; for lack of memory only if it was refused some. */
  ghost predicate AnswerOk(calls: seq<Call>, s0: SoundGraph, start: nat, answers: seq<Answer>, k: nat)
    requires k < |calls| == |answers|
  {
    var before, after := FailuresBefore(start, answers, k), answers[k].failures;
    && before <= after
    && Effect(calls[k], StateBefore(s0, answers, k), answers[k].state, answers[k].result, after > before)
  }

  ghost predicate IsTrace(calls: seq<Call>, s0: SoundGraph, start: nat, answers: seq<Answer>) {
    |answers| == |calls| && forall k :: 0 <= k < |calls| ==> AnswerOk(calls, s0, start, answers, k)
  }

  lemma TraceMore(calls: seq<Call>, i: nat, s0: SoundGraph, start: nat, answers: seq<Answer>, answer: Answer)
    requires i < |calls| && IsTrace(calls[..i], s0, start, answers)
    requires FailuresBefore(start, answers, i) <= answer.failures
    requires Effect(calls[i], StateBefore(s0, answers, i), answer.state, answer.result,
                    answer.failures > FailuresBefore(start, answers, i))
    ensures IsTrace(calls[..i + 1], s0, start, answers + [answer])
  {
    hide Effect, Sound;
    var more, answers' := calls[..i + 1], answers + [answer];
    forall k | 0 <= k < |more|
      ensures AnswerOk(more, s0, start, answers', k)
    {
      assert StateBefore(s0, answers', k) == StateBefore(s0, answers, k);
      assert FailuresBefore(start, answers', k) == FailuresBefore(start, answers, k);
      if k < i {
        assert calls[..i][k] == more[k];
        assert AnswerOk(calls[..i], s0, start, answers, k);
      }
    }
  }

  // ---------------------------------------------------------------------------
  // The client's references
  // ---------------------------------------------------------------------------

  /** How a call changes the number of references that the client has to `x`. */
  function Change(call: Call, had: Refs, result: Ref, x: Ref): int {
    if call.CallRetain? then (if call.object_ == x && x in had then 1 else 0)
    else if call.CallRelease? then (if call.object_ == x && x in had then -1 else 0)
    else if result == x && x != 0 then 1 else 0
  }

  ghost predicate ChangesRefs(call: Call, s0: Graph, s: Graph, r: Ref) {
    forall x :: s.ext[x] == s0.ext[x] + Change(call, s0.ext, r, x)
  }

  lemma CountRefs(call: Call, s0: SoundGraph, s: SoundGraph, r: Ref)
    requires call.CallRetain? || call.CallRetainItem? || call.CallRelease?
    requires CountEffect(call, s0, s, r)
    ensures ChangesRefs(call, s0, s, r)
  {
    hide Counted, Quiet, Typed, Cascaded;
    if call.CallRetainItem? && s != s0 {
      SourceItem(s0.heap, s0.holds, s0.ext, call.array_, call.index);
    }
  }

  lemma CreateRefs(call: Call, s0: SoundGraph, s: SoundGraph, r: Ref, refused: bool)
    requires call.CallStringCreate? || call.CallPageCreate? || call.CallArrayCreate?
    requires CreateEffect(call, s0, s, r, refused)
    ensures s.ext == Acquired(s0.ext, r)
  {
    hide Sound;
  }

  lemma ArrayRefs(call: Call, s0: SoundGraph, s: SoundGraph, r: Ref, refused: bool)
    requires call.CallArrayStore? || call.CallArrayRemove? || call.CallArrayCopy?
    requires ArrayEffect(call, s0, s, r, refused)
    ensures s.ext == Acquired(s0.ext, r)
  {
    hide Sound, Extends, StoredHeap, StoredHoldings, TakenOut, Cascaded;
  }

  lemma GroupCreateRefs(call: Call, s0: SoundGraph, s: SoundGraph, r: Ref, refused: bool)
    requires call.CallGroupCreate? || call.CallGroupCreateWithPages? || call.CallFileCreate?
    requires GroupCreateEffect(call, s0, s, r, refused)
    ensures s.ext == Acquired(s0.ext, r)
  {
    hide Sound, Extends, WithGroup, WithGroupHoldings, WithFile, WithFileHoldings;
  }

  lemma GroupRefs(call: Call, s0: SoundGraph, s: SoundGraph, r: Ref, refused: bool)
    requires call.CallGroupCopyPages? || call.CallGroupExtend? || call.CallGroupMerge?
    requires GroupEffect(call, s0, s, r, refused)
    ensures s.ext == Acquired(s0.ext, r)
  {
    hide Sound, Extends, WithPage, WithPageHoldings, WithPointer;
    if OwnsGroup(s0.heap, s0.ext, call.group) {
      GroupArrayShape(s0, call.group, s0.heap[call.group].body.pages);
    }
  }

  /** What is returned is the client's. */
  lemma NewRefs(call: Call, s0: SoundGraph, s: SoundGraph, r: Ref, refused: bool)
    requires Effect(call, s0, s, r, refused) && !call.CallRetain? && !call.CallRetainItem? && !call.CallRelease?
    ensures ChangesRefs(call, s0, s, r)
  {
    hide Sound, CreateEffect, ArrayEffect, GroupCreateEffect, GroupEffect;
    if call.CallStringCreate? || call.CallPageCreate? || call.CallArrayCreate? {
      CreateRefs(call, s0, s, r, refused);
    } else if call.CallArrayStore? || call.CallArrayRemove? || call.CallArrayCopy? {
      ArrayRefs(call, s0, s, r, refused);
    } else if call.CallGroupCreate? || call.CallGroupCreateWithPages? || call.CallFileCreate? {
      GroupCreateRefs(call, s0, s, r, refused);
    } else {
      GroupRefs(call, s0, s, r, refused);
    }
  }

  /** A retain adds one reference, a release takes one, and whatever else returns something adds one to that. */
  lemma EffectRefs(call: Call, s0: SoundGraph, s: SoundGraph, r: Ref, refused: bool)
    requires Effect(call, s0, s, r, refused)
    ensures ChangesRefs(call, s0, s, r)
  {
    hide CountEffect, CreateEffect, ArrayEffect, GroupCreateEffect, GroupEffect, ChangesRefs, Sound;
    if call.CallRetain? || call.CallRetainItem? || call.CallRelease? {
      CountRefs(call, s0, s, r);
    } else {
      NewRefs(call, s0, s, r, refused);
    }
  }

  /** The changes of the first `k` calls. */
  ghost function Changes(calls: seq<Call>, s0: SoundGraph, answers: seq<Answer>, k: nat, x: Ref): int
    requires k <= |calls| == |answers|
  {
    if k == 0 then 0 else
      Changes(calls, s0, answers, k - 1, x) +
      Change(calls[k - 1], StateBefore(s0, answers, k - 1).ext, answers[k - 1].result, x)
  }

  /** In any run the client has what it had at first and what the calls added, less what they took. */
  lemma {:induction false} RefsAddUp(calls: seq<Call>, s0: SoundGraph, start: nat, answers: seq<Answer>, k: nat, x: Ref)
    requires IsTrace(calls, s0, start, answers) && k <= |calls|
    ensures StateBefore(s0, answers, k).ext[x] == s0.ext[x] + Changes(calls, s0, answers, k, x)
  {
    hide Effect, Sound;
    if k > 0 {
      RefsAddUp(calls, s0, start, answers, k - 1, x);
      assert AnswerOk(calls, s0, start, answers, k - 1);
      var before, after := FailuresBefore(start, answers, k - 1), answers[k - 1].failures;
      EffectRefs(calls[k - 1], StateBefore(s0, answers, k - 1), answers[k - 1].state, answers[k - 1].result,
                 after > before);
      assert ChangesRefs(calls[k - 1], StateBefore(s0, answers, k - 1), answers[k - 1].state, answers[k - 1].result);
    }
  }

  /** The calls that cannot fail but for lack of memory. */
  predicate Creates(call: Call, s0: Graph) {
    match call
    case CallStringCreate | CallArrayCreate(_, _) => true
    case CallPageCreate(n) => n > 0
    case CallGroupCreate(n) => n > 0
    case CallFileCreate(n) => n > 0
    case CallArrayCopy(a, _) => a != 0 && a in s0.ext && a in s0.heap && s0.heap[a].body.Array?
    case CallGroupCopyPages(g) => g != 0 && g in s0.ext && g in s0.heap && s0.heap[g].body.Group?
    case _ => false
  }

  ghost predicate IsOfKind(call: Call, body: Body) {
    match call
    case CallStringCreate => body == Str
    case CallPageCreate(n) => body == Page(n)
    case CallGroupCreate(_) => body.Group?
    case CallFileCreate(_) => body.File?
    case _ => body.Array?
  }

  ghost predicate NewObjectOf(call: Call, s0: Graph, s: Graph, r: Ref) {
    r != 0 && r !in s0.heap && r in s.heap && s.heap[r].count == 1 && IsOfKind(call, s.heap[r].body)
  }

  lemma GroupIsMade(call: Call, s0: SoundGraph, s: SoundGraph, r: Ref)
    requires (call.CallGroupCreate? || call.CallFileCreate?) && call.pageLength > 0
    requires GroupCreateEffect(call, s0, s, r, false)
    ensures NewObjectOf(call, s0, s, r)
  {
    hide Sound;
  }

  lemma CopyIsMade(call: Call, s0: SoundGraph, s: SoundGraph, a: Ref, isMutable: bool, r: Ref)
    requires (call.CallArrayCopy? || call.CallGroupCopyPages?) && a in s0.heap && s0.heap[a].body.Array?
    requires CopyEffect(s0, s, a, isMutable, r, false)
    ensures NewObjectOf(call, s0, s, r)
  {
    hide Sound, Extends;
  }

  lemma ObjectIsMade(call: Call, s0: SoundGraph, s: SoundGraph, r: Ref)
    requires call.CallStringCreate? || (call.CallPageCreate? && call.length > 0) || call.CallArrayCreate?
    requires CreateEffect(call, s0, s, r, false)
    ensures NewObjectOf(call, s0, s, r)
  {
    hide Sound;
  }

  /** They return a new object with count 1. */
  lemma CreatesUnlessRefused(call: Call, s0: SoundGraph, s: SoundGraph, r: Ref)
    requires Effect(call, s0, s, r, false) && Creates(call, s0)
    ensures NewObjectOf(call, s0, s, r)
  {
    hide Sound, GroupCreateEffect, CopyEffect, NewObjectOf;
    if call.CallGroupCreate? || call.CallFileCreate? {
      GroupIsMade(call, s0, s, r);
    } else if call.CallArrayCopy? {
      CopyIsMade(call, s0, s, call.array_, call.isMutable, r);
    } else if call.CallGroupCopyPages? {
      GroupArrayShape(s0, call.group, s0.heap[call.group].body.pages);
      CopyIsMade(call, s0, s, s0.heap[call.group].body.pages, false, r);
    } else {
      ObjectIsMade(call, s0, s, r);
    }
  }

  /** An item fetched from an array of objects is the one at its index. */
  lemma RetainsTheItem(s0: SoundGraph, s: SoundGraph, a: Ref, index: nat, r: Ref, refused: bool)
    requires a != 0 && a in s0.ext && a in s0.heap && s0.heap[a].body.Array? && s0.heap[a].body.owning
    requires index < |s0.heap[a].body.items| && Effect(CallRetainItem(a, index), s0, s, r, refused)
    ensures r == s0.heap[a].body.items[index] && r in s0.heap
    ensures s.heap.Keys == s0.heap.Keys
  {
  }

  /**
   * Any run of calls, with any failures of allocation in between: each call has its effect, and the counts stay those
   * of the outstanding references and the containers. Once the client has released all it has, something is left on the
   * heap if and only if there are cycles of references.
   */
  method Run(rt: Runtime, a: Allocator, calls: seq<Call>, owned: Refs)
      returns (owned': Refs, ghost answers: seq<Answer>)
    requires rt.Valid() && owned == rt.ext
    modifies rt, a
    ensures rt.Valid() && owned' == rt.ext
    ensures IsTrace(calls, old(rt.State()), old(a.failures), answers)
    ensures rt.Is(StateBefore(old(rt.State()), answers, |calls|))
    ensures old(a.failures) <= a.failures == FailuresBefore(old(a.failures), answers, |calls|)
    ensures owned' == multiset{} ==> ((forall o :: o in rt.heap ==> rt.heap[o].isStack) <==> Acyclic(rt.holds))
  {
    hide Counted, Quiet, Typed, Effect, Acyclic;
    ghost var s0, start := rt.State(), a.failures;
    ghost var s := s0;
    owned', answers := owned, [];
    var i := 0;
    while i < |calls|
      invariant 0 <= i <= |calls| && rt.Is(s) && owned' == s.ext
      invariant IsTrace(calls[..i], s0, start, answers) && s == StateBefore(s0, answers, i)
      invariant start <= a.failures == FailuresBefore(start, answers, i)
    {
      var r;
      r, owned', s := Perform(rt, a, calls[i], owned', s);
      ghost var answer := Answer(r, a.failures, s);
      TraceMore(calls, i, s0, start, answers, answer);
      answers := answers + [answer];
      i := i + 1;
    }
    assert calls[..i] == calls;
    if s.ext == multiset{} {
      SoundIsAtRest(s.heap, s.holds, s.ext);
      OnlyCyclesLeak(s.heap, s.holds);
    }
  }
}
