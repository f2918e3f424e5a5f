/** Retain and release by any number of threads, in any interleaving of their atomic steps. */
module Threads {
  import opened Counting

  type Thread = nat

  /** A deinit in progress: the slots from `next` on are still to be released. */
  datatype Frame = Frame(object_: Ref, next: nat)

  /** A thread read the old count 1 from an object, or freed it. */
  datatype Event = Event(thread: Thread, object_: Ref)

  /**
   * `owned` are the references that each thread may use. Each thread has a stack of the deinits that its releases have
   * started. `last` records who saw the old count 1 of what, `freed` who freed what.
   */
  datatype State = State(heap: Heap, holds: Holdings, owned: Holdings, stacks: map<Thread, seq<Frame>>,
                         last: seq<Event>, freed: seq<Event>)

  /**
   * One atomic step of a thread: an increment, a decrement, the same on the next slot of the innermost deinit, the
   * deallocation that ends it, the making of an object out of references the thread owns, an append to an array, or the
   * handing of a reference to another thread.
   */
  datatype Step =
    | Retain(thread: Thread, object_: Ref)
    | Release(thread: Thread, object_: Ref)
    | ReleaseSlot(thread: Thread)
    | Free(thread: Thread)
    | Make(thread: Thread, object_: Ref, body: Body)
    | Store(thread: Thread, array_: Ref, object_: Ref)
    | Pass(thread: Thread, object_: Ref, to: Thread)

  /** What comes of a step. */
  datatype Outcome = Running(state: State) | Underflow | UseAfterFree

  ghost predicate WasFreed(s: State, r: Ref) {
    exists i :: 0 <= i < |s.freed| && s.freed[i].object_ == r
  }

  function Top(stack: seq<Frame>): Frame
    requires stack != []
  {
    stack[|stack| - 1]
  }

  function Below(stack: seq<Frame>): seq<Frame>
    requires stack != []
  {
    stack[..|stack| - 1]
  }

  /** The discipline: a thread uses the references it owns; a deinit that it runs goes on before anything else. */
  ghost predicate Allowed(s: State, step: Step) {
    && step.thread in s.owned && step.thread in s.stacks
    && match step
       case Retain(t, r) => r in s.owned[t]
       case Release(t, r) => s.stacks[t] == [] && r in s.owned[t]
       case ReleaseSlot(t) =>
         && s.stacks[t] != []
         && var frame := Top(s.stacks[t]);
            frame.object_ in s.heap ==> frame.next < |Children(s.heap[frame.object_].body)|
       case Free(t) =>
         && s.stacks[t] != []
         && var frame := Top(s.stacks[t]);
            frame.object_ in s.heap ==> frame.next >= |Children(s.heap[frame.object_].body)|
       case Make(t, r, body) =>
         s.stacks[t] == [] && r !in s.heap && !WasFreed(s, r) && multiset(Children(body)) <= s.owned[t]
       case Store(t, a, r) => s.stacks[t] == [] && a in s.owned[t] && r in s.owned[t]
       case Pass(t, r, to) => s.stacks[t] == [] && r in s.owned[t] && to in s.owned
  }

  /** `atomic_fetch_sub` and what follows at once: the thread that reads 1 starts the deinit. */
  ghost function Dropped(s: State, t: Thread, r: Ref): Outcome
    requires t in s.stacks
  {
    if r !in s.heap then UseAfterFree
    else if s.heap[r].isStack then Running(s)
    else
      var old_ := s.heap[r].count;
      var lowered := s.(heap := s.heap[r := s.heap[r].(count := old_ - 1)]);
      if old_ == 1 then
        Running(lowered.(stacks := s.stacks[t := s.stacks[t] + [Frame(r, 0)]], last := s.last + [Event(t, r)]))
      else if old_ <= 0 then Underflow
      else Running(lowered)
  }

  ghost function Gains(owned: Holdings, t: Thread, r: Ref): Holdings
    requires t in owned
  {
    owned[t := owned[t] + multiset{r}]
  }

  ghost function Loses(owned: Holdings, t: Thread, r: Ref): Holdings
    requires t in owned
  {
    owned[t := owned[t] - multiset{r}]
  }

  /** The array with one more item, which it holds. */
  ghost function Appended(s: State, a: Ref, r: Ref): State
    requires a in s.heap && a in s.holds && s.heap[a].body.Array?
  {
    s.(heap := s.heap[a := s.heap[a].(body := s.heap[a].body.(items := s.heap[a].body.items + [r]))],
       holds := s.holds[a := s.holds[a] + multiset{r}])
  }

  /** What the code does. */
  ghost function Next(s: State, step: Step): Outcome
    requires Allowed(s, step)
  {
    match step
    case Retain(t, r) =>
      if r !in s.heap then UseAfterFree else Running(s.(heap := Raised(s.heap, r), owned := Gains(s.owned, t, r)))
    case Release(t, r) => Dropped(s.(owned := Loses(s.owned, t, r)), t, r)
    case ReleaseSlot(t) =>
      var d, next := Top(s.stacks[t]).object_, Top(s.stacks[t]).next;
      if d !in s.heap || d !in s.holds then UseAfterFree
      else
        var c := Children(s.heap[d].body)[next];
        Dropped(s.(stacks := s.stacks[t := Below(s.stacks[t]) + [Frame(d, next + 1)]],
                   holds := s.holds[d := s.holds[d] - multiset{c}]), t, c)
    case Free(t) =>
      var d := Top(s.stacks[t]).object_;
      if d !in s.heap then UseAfterFree
      else Running(s.(heap := s.heap - {d}, holds := s.holds - {d}, stacks := s.stacks[t := Below(s.stacks[t])],
                      freed := s.freed + [Event(t, d)]))
    case Make(t, r, body) =>
      var held := multiset(Children(body));
      Running(s.(heap := s.heap[r := Object(false, 1, body)], holds := s.holds[r := held],
                 owned := s.owned[t := s.owned[t] - held + multiset{r}]))
    case Store(t, a, r) =>
      if a !in s.heap || a !in s.holds || r !in s.heap then UseAfterFree
      else if s.heap[a].body.Array? && s.heap[a].body.isMutable && s.heap[a].body.owning then
        Running(Appended(s.(heap := Raised(s.heap, r)), a, r))
      else Running(s)
    case Pass(t, r, to) => Running(s.(owned := Gains(Loses(s.owned, t, r), to, r)))
  }

  // ---------------------------------------------------------------------------
  // The invariant
  // ---------------------------------------------------------------------------

  ghost predicate Saw(log: seq<Event>, t: Thread, d: Ref) {
    Event(t, d) in log
  }

  /** No object occurs twice in the log. */
  ghost predicate OncePerObject(log: seq<Event>) {
    forall i, j :: 0 <= i < j < |log| ==> log[i].object_ != log[j].object_
  }

  /** The object is in mid-deinit and still holds exactly the slots from `next` on. */
  ghost predicate FrameOk(heap: Heap, holds: Holdings, frame: Frame) {
    var d := frame.object_;
    && d in heap && d in holds && IsDying(heap[d]) && frame.next <= |Children(heap[d].body)|
    && holds[d] == multiset(Children(heap[d].body)[frame.next..])
  }

  /** No object is in two deinits of a thread. */
  ghost predicate OncePerFrame(stack: seq<Frame>) {
    forall i, j :: 0 <= i < j < |stack| ==> stack[i].object_ != stack[j].object_
  }

  ghost predicate StackOk(heap: Heap, holds: Holdings, last: seq<Event>, t: Thread, stack: seq<Frame>) {
    && (forall i :: 0 <= i < |stack| ==> FrameOk(heap, holds, stack[i]) && Saw(last, t, stack[i].object_))
    && OncePerFrame(stack)
  }

  ghost predicate Frames(s: State) {
    && s.heap.Keys == s.holds.Keys && s.owned.Keys == s.stacks.Keys
    && (forall t :: t in s.stacks ==> StackOk(s.heap, s.holds, s.last, t, s.stacks[t]))
    && (forall o :: o in s.heap && !IsDying(s.heap[o]) ==> s.holds[o] == multiset(Children(s.heap[o].body)))
  }

  ghost predicate OnStack(stack: seq<Frame>, d: Ref) {
    exists i :: 0 <= i < |stack| && stack[i].object_ == d
  }

  /** Why a thread that saw the old count 1 is in the log: it runs the deinit, or has freed the object. */
  ghost predicate Explained(s: State, e: Event) {
    e in s.freed || (e.thread in s.stacks && OnStack(s.stacks[e.thread], e.object_))
  }

  ghost predicate Logged(s: State) {
    && OncePerObject(s.last) && OncePerObject(s.freed)
    && (forall e :: e in s.last ==> Explained(s, e))
    && (forall e :: e in s.freed ==> e in s.last && e.object_ !in s.heap)
    && (forall o :: o in s.heap && IsDying(s.heap[o]) ==> exists t :: Saw(s.last, t, o))
  }

  /** The counts agree with what threads own and objects hold, and `extra` more references. */
  ghost predicate Inv(s: State, extra: Refs) {
    Balanced(s.heap, s.holds, Total(s.owned) + extra) && Frames(s) && Logged(s)
  }

  /** An object that is not in mid-deinit is in no log. */
  lemma LiveIsNotLogged(s: State, r: Ref)
    requires Frames(s) && Logged(s) && r in s.heap && !IsDying(s.heap[r])
    ensures forall e :: e in s.last || e in s.freed ==> e.object_ != r
  {
    forall e | e in s.last
      ensures e.object_ != r
    {
      assert Explained(s, e);
      if e !in s.freed {
        var i :| 0 <= i < |s.stacks[e.thread]| && s.stacks[e.thread][i].object_ == e.object_;
        assert StackOk(s.heap, s.holds, s.last, e.thread, s.stacks[e.thread]);
        assert FrameOk(s.heap, s.holds, s.stacks[e.thread][i]);
      }
    }
  }

  // ---------------------------------------------------------------------------
  // The decrement
  // ---------------------------------------------------------------------------

  /** The count of an object not in mid-deinit changes, but not to zero. */
  lemma RecountedFrames(s: State, r: Ref, n: int, s': State)
    requires Frames(s) && r in s.heap && !s.heap[r].isStack && s.heap[r].count > 0 && n > 0
    requires s' == s.(heap := s.heap[r := s.heap[r].(count := n)])
    ensures Frames(s')
  {
    forall t | t in s'.stacks
      ensures StackOk(s'.heap, s'.holds, s'.last, t, s'.stacks[t])
    {
      assert StackOk(s.heap, s.holds, s.last, t, s.stacks[t]);
    }
  }

  lemma RecountedLog(s: State, r: Ref, n: int, s': State)
    requires Logged(s) && r in s.heap && !s.heap[r].isStack && s.heap[r].count > 0 && n > 0
    requires s' == s.(heap := s.heap[r := s.heap[r].(count := n)])
    ensures Logged(s')
  {
    assert forall e :: Explained(s, e) ==> Explained(s', e);
  }

  /** The state after the last reference to `r` is dropped by `t`. */
  ghost predicate IsLastDrop(s: State, t: Thread, r: Ref, s': State)
    requires t in s.stacks && r in s.heap
  {
    s' == s.(heap := s.heap[r := s.heap[r].(count := 0)], stacks := s.stacks[t := s.stacks[t] + [Frame(r, 0)]],
             last := s.last + [Event(t, r)])
  }

  lemma StackPushed(s: State, t: Thread, r: Ref, s': State, u: Thread)
    requires Frames(s) && t in s.stacks && r in s.heap && !s.heap[r].isStack && s.heap[r].count == 1
    requires IsLastDrop(s, t, r, s') && FrameOk(s'.heap, s'.holds, Frame(r, 0)) && u in s.stacks
    ensures StackOk(s'.heap, s'.holds, s'.last, u, s'.stacks[u])
  {
    assert StackOk(s.heap, s.holds, s.last, u, s.stacks[u]);
    forall i | 0 <= i < |s.stacks[u]|
      ensures FrameOk(s'.heap, s'.holds, s.stacks[u][i]) && Saw(s'.last, u, s.stacks[u][i].object_)
      ensures s.stacks[u][i].object_ != r
    {
      assert FrameOk(s.heap, s.holds, s.stacks[u][i]);
      assert Saw(s.last, u, s.stacks[u][i].object_);
    }
    assert s'.last[|s.last|] == Event(t, r);
    assert Saw(s'.last, t, r);
  }

  lemma LastFrames(s: State, t: Thread, r: Ref, s': State)
    requires Frames(s) && t in s.stacks && r in s.heap && !s.heap[r].isStack && s.heap[r].count == 1
    requires IsLastDrop(s, t, r, s')
    ensures Frames(s')
  {
    assert Children(s.heap[r].body)[0..] == Children(s.heap[r].body);
    assert FrameOk(s'.heap, s'.holds, Frame(r, 0));
    forall u | u in s'.stacks
      ensures StackOk(s'.heap, s'.holds, s'.last, u, s'.stacks[u])
    {
      StackPushed(s, t, r, s', u);
    }
  }

  lemma KeptOnStack(stacks: map<Thread, seq<Frame>>, t: Thread, frame: Frame, e: Event)
    requires t in stacks
    ensures e.thread in stacks && OnStack(stacks[e.thread], e.object_) ==>
              OnStack(stacks[t := stacks[t] + [frame]][e.thread], e.object_)
  {
    if e.thread in stacks && OnStack(stacks[e.thread], e.object_) {
      var i :| 0 <= i < |stacks[e.thread]| && stacks[e.thread][i].object_ == e.object_;
      assert stacks[t := stacks[t] + [frame]][e.thread][i].object_ == e.object_;
    }
  }

  lemma LastLog(s: State, t: Thread, r: Ref, s': State)
    requires Frames(s) && Logged(s) && t in s.stacks && r in s.heap && !s.heap[r].isStack && s.heap[r].count == 1
    requires IsLastDrop(s, t, r, s')
    ensures Logged(s')
  {
    LiveIsNotLogged(s, r);
    forall e | e in s'.last
      ensures Explained(s', e)
    {
      if e in s.last {
        assert Explained(s, e);
        KeptOnStack(s.stacks, t, Frame(r, 0), e);
      } else {
        assert s'.stacks[t][|s.stacks[t]|] == Frame(r, 0);
      }
    }
    forall o | o in s'.heap && IsDying(s'.heap[o])
      ensures exists u :: Saw(s'.last, u, o)
    {
      if o == r {
        assert s'.last[|s.last|] == Event(t, r);
        assert Saw(s'.last, t, o);
      } else {
        var u :| Saw(s.last, u, o);
        assert Saw(s'.last, u, o);
      }
    }
  }

  /** A decrement by someone who has a reference cannot go wrong, and keeps the invariant. */
  lemma DropKeeps(s: State, t: Thread, r: Ref)
    requires Inv(s, multiset{r}) && t in s.stacks
    ensures Dropped(s, t, r).Running? && Inv(Dropped(s, t, r).state, multiset{})
  {
    hide Frames, Logged, Counted;
    var ext := Total(s.owned);
    assert ext + multiset{r} - multiset{r} == ext && ext + multiset{} == ext;
    BalancedDrop(s.heap, s.holds, ext + multiset{r}, r);
    if !s.heap[r].isStack {
      var lowered := s.(heap := s.heap[r := s.heap[r].(count := s.heap[r].count - 1)]);
      if s.heap[r].count > 1 {
        RecountedFrames(s, r, s.heap[r].count - 1, lowered);
        RecountedLog(s, r, s.heap[r].count - 1, lowered);
      } else {
        LastFrames(s, t, r, Dropped(s, t, r).state);
        LastLog(s, t, r, Dropped(s, t, r).state);
      }
    }
  }

  // ---------------------------------------------------------------------------
  // The other steps
  // ---------------------------------------------------------------------------

  /** What a thread owns, and the slots of a deinit, are allocated. */
  lemma OwnedIsAllocated(s: State, extra: Refs, t: Thread, r: Ref)
    requires Inv(s, extra) && t in s.owned && r in s.owned[t]
    ensures r in s.heap && (!s.heap[r].isStack ==> s.heap[r].count > 0)
  {
    HeldIsInTotal(s.owned, t, r);
    assert AllRefs(s.holds, Total(s.owned) + extra)[r] > 0;
  }

  /** Frames and logs do not depend on who owns what. */
  lemma SameButOwned(s: State, s': State)
    requires Frames(s) && Logged(s) && s' == s.(owned := s'.owned) && s'.owned.Keys == s.owned.Keys
    ensures Frames(s') && Logged(s')
  {
    assert forall e :: Explained(s, e) ==> Explained(s', e);
  }

  lemma OwnedMoves(s: State, t: Thread, r: Ref, s': State)
    requires Inv(s, multiset{}) && t in s.owned && r in s.owned[t] && s' == s.(owned := Loses(s.owned, t, r))
    ensures Inv(s', multiset{r})
  {
    hide Counted;
    TotalLoses(s.owned, t, r);
    assert Total(s.owned) + multiset{} == Total(s'.owned) + multiset{r};
    SameButOwned(s, s');
  }

  /** An increment by someone who has a reference makes one more. */
  lemma RaiseKeeps(s: State, r: Ref, s': State)
    requires Inv(s, multiset{}) && r in s.heap && (!s.heap[r].isStack ==> s.heap[r].count > 0)
    requires s' == s.(heap := Raised(s.heap, r))
    ensures Inv(s', multiset{r})
  {
    hide Counted, Frames, Logged;
    assert Total(s.owned) + multiset{} == Total(s.owned);
    BalancedRetain(s.heap, s.holds, Total(s.owned), r);
    if !s.heap[r].isStack {
      RecountedFrames(s, r, s.heap[r].count + 1, s');
      RecountedLog(s, r, s.heap[r].count + 1, s');
    }
  }

  lemma RetainKeeps(s: State, t: Thread, r: Ref)
    requires Inv(s, multiset{}) && Allowed(s, Retain(t, r))
    ensures Next(s, Retain(t, r)).Running? && Inv(Next(s, Retain(t, r)).state, multiset{})
  {
    hide Counted, Frames, Logged, Raised;
    OwnedIsAllocated(s, multiset{}, t, r);
    var s1 := s.(heap := Raised(s.heap, r));
    var s' := Next(s, Retain(t, r)).state;
    RaiseKeeps(s, r, s1);
    TotalGains(s.owned, t, r);
    assert Total(s'.owned) + multiset{} == Total(s.owned) + multiset{r};
    SameButOwned(s1, s');
  }

  lemma OwnedStaysLive(s: State, t: Thread, a: Ref, r: Ref)
    requires Inv(s, multiset{}) && t in s.owned && a in s.owned[t] && r in s.heap
    ensures a in s.heap && a in Raised(s.heap, r) && a in s.holds
    ensures Raised(s.heap, r)[a].body == s.heap[a].body && !IsDying(Raised(s.heap, r)[a])
  {
    OwnedIsAllocated(s, multiset{}, t, a);
  }

  lemma AppendedCounts(s: State, a: Ref, r: Ref, ext: Refs)
    requires a in s.heap && a in s.holds && s.heap[a].body.Array?
    requires Balanced(s.heap, s.holds[a := s.holds[a] + multiset{r}], ext)
    ensures Balanced(Appended(s, a, r).heap, Appended(s, a, r).holds, ext)
  {
  }

  lemma FrameElsewhere(heap: Heap, holds: Holdings, heap': Heap, holds': Holdings, frame: Frame)
    requires FrameOk(heap, holds, frame)
    requires var d := frame.object_; d in heap' && d in holds' && heap'[d] == heap[d] && holds'[d] == holds[d]
    ensures FrameOk(heap', holds', frame)
  {
  }

  lemma AppendedFrames(s: State, a: Ref, r: Ref, s': State)
    requires Frames(s) && a in s.heap && a in s.holds && !IsDying(s.heap[a])
    requires s.heap[a].body.Array? && s.heap[a].body.owning && s' == Appended(s, a, r)
    ensures Frames(s')
  {
    var items := s.heap[a].body.items;
    assert s.holds[a] == multiset(items);
    assert multiset(items + [r]) == multiset(items) + multiset{r};
    forall t | t in s'.stacks
      ensures StackOk(s'.heap, s'.holds, s'.last, t, s'.stacks[t])
    {
      assert StackOk(s.heap, s.holds, s.last, t, s.stacks[t]);
      forall i | 0 <= i < |s.stacks[t]|
        ensures FrameOk(s'.heap, s'.holds, s.stacks[t][i])
      {
        FrameElsewhere(s.heap, s.holds, s'.heap, s'.holds, s.stacks[t][i]);
      }
    }
  }

  lemma AppendedLog(s: State, a: Ref, r: Ref, s': State)
    requires Logged(s) && a in s.heap && a in s.holds && s.heap[a].body.Array? && s' == Appended(s, a, r)
    ensures Logged(s')
  {
    assert forall e :: Explained(s, e) ==> Explained(s', e);
  }

  lemma AppendKeeps(s: State, a: Ref, r: Ref)
    requires Inv(s, multiset{r}) && a in s.heap && a in s.holds && !IsDying(s.heap[a])
    requires s.heap[a].body.Array? && s.heap[a].body.owning
    ensures Inv(Appended(s, a, r), multiset{})
  {
    hide Frames, Logged, Counted;
    var ext := Total(s.owned) + multiset{r};
    assert ext - multiset{r} == Total(s.owned) && Total(s.owned) + multiset{} == Total(s.owned);
    BalancedStore(s.heap, s.holds, ext, a, r);
    AppendedCounts(s, a, r, Total(s.owned));
    AppendedFrames(s, a, r, Appended(s, a, r));
    AppendedLog(s, a, r, Appended(s, a, r));
  }

  /** An append: the array takes over the reference that the increment made. */
  lemma StoreKeeps(s: State, t: Thread, a: Ref, r: Ref)
    requires Inv(s, multiset{}) && Allowed(s, Store(t, a, r))
    ensures Next(s, Store(t, a, r)).Running? && Inv(Next(s, Store(t, a, r)).state, multiset{})
  {
    hide Counted, Frames, Logged, Raised, Appended;
    OwnedIsAllocated(s, multiset{}, t, a);
    OwnedIsAllocated(s, multiset{}, t, r);
    var body := s.heap[a].body;
    if body.Array? && body.isMutable && body.owning {
      var s1 := s.(heap := Raised(s.heap, r));
      RaiseKeeps(s, r, s1);
      OwnedStaysLive(s, t, a, r);
      AppendKeeps(s1, a, r);
    }
  }

  lemma ReleaseKeeps(s: State, t: Thread, r: Ref)
    requires Inv(s, multiset{}) && Allowed(s, Release(t, r))
    ensures Next(s, Release(t, r)).Running? && Inv(Next(s, Release(t, r)).state, multiset{})
  {
    hide Counted, Frames, Logged, Dropped;
    var s1 := s.(owned := Loses(s.owned, t, r));
    OwnedMoves(s, t, r, s1);
    DropKeeps(s1, t, r);
  }

  /** The innermost deinit of a thread. */
  lemma TopFrame(s: State, t: Thread)
    requires Frames(s) && t in s.stacks && s.stacks[t] != []
    ensures FrameOk(s.heap, s.holds, Top(s.stacks[t])) && Saw(s.last, t, Top(s.stacks[t]).object_)
  {
    assert StackOk(s.heap, s.holds, s.last, t, s.stacks[t]);
  }

  /** No other frame, on any stack, is about the object of the innermost frame of `t`. */
  lemma OtherFrames(s: State, t: Thread, u: Thread, i: nat)
    requires Frames(s) && Logged(s) && t in s.stacks && s.stacks[t] != []
    requires u in s.stacks && i < |s.stacks[u]| && (u != t || i < |s.stacks[t]| - 1)
    ensures s.stacks[u][i].object_ != Top(s.stacks[t]).object_
  {
    assert StackOk(s.heap, s.holds, s.last, t, s.stacks[t]);
    assert StackOk(s.heap, s.holds, s.last, u, s.stacks[u]);
    if u != t {
      assert Saw(s.last, t, Top(s.stacks[t]).object_) && Saw(s.last, u, s.stacks[u][i].object_);
    }
  }

  lemma FrameAdvanced(heap: Heap, holds: Holdings, d: Ref, next: nat, c: Ref)
    requires FrameOk(heap, holds, Frame(d, next)) && next < |Children(heap[d].body)|
    requires holds[d] - multiset{c} == multiset(Children(heap[d].body)[next + 1..])
    ensures FrameOk(heap, holds[d := holds[d] - multiset{c}], Frame(d, next + 1))
  {
  }

  /** The object of any other frame is another one, and allocated. */
  lemma FrameIsElsewhere(s: State, t: Thread, u: Thread, i: nat)
    requires Frames(s) && Logged(s) && t in s.stacks && s.stacks[t] != []
    requires u in s.stacks && i < |s.stacks[u]| && (u != t || i < |s.stacks[t]| - 1)
    ensures var d := s.stacks[u][i].object_; d != Top(s.stacks[t]).object_ && d in s.heap && d in s.holds
    ensures FrameOk(s.heap, s.holds, s.stacks[u][i])
  {
    OtherFrames(s, t, u, i);
    assert StackOk(s.heap, s.holds, s.last, u, s.stacks[u]);
    assert FrameOk(s.heap, s.holds, s.stacks[u][i]);
  }

  /** All frames but the innermost one of `t` are about other objects. */
  lemma FramesElsewhere(s: State, t: Thread, d: Ref, holds': Holdings, u: Thread, n: nat)
    requires Frames(s) && Logged(s) && t in s.stacks && s.stacks[t] != [] && Top(s.stacks[t]).object_ == d
    requires forall o :: o in s.holds && o != d ==> o in holds' && holds'[o] == s.holds[o]
    requires u in s.stacks && n <= |s.stacks[u]| && (u != t || n < |s.stacks[t]|)
    ensures forall i :: 0 <= i < n ==> FrameOk(s.heap, holds', s.stacks[u][i])
  {
    hide FrameOk, Frames, Logged;
    forall i | 0 <= i < n
      ensures FrameOk(s.heap, holds', s.stacks[u][i])
    {
      FrameIsElsewhere(s, t, u, i);
      FrameElsewhere(s.heap, s.holds, s.heap, holds', s.stacks[u][i]);
    }
  }

  lemma SameObjects(stack: seq<Frame>, stack': seq<Frame>)
    requires |stack'| == |stack| && OncePerFrame(stack)
    requires forall i :: 0 <= i < |stack| ==> stack'[i].object_ == stack[i].object_
    ensures OncePerFrame(stack')
  {
  }

  lemma TopAdvanced(heap: Heap, holds: Holdings, last: seq<Event>, t: Thread, stack: seq<Frame>, frame: Frame)
    requires stack != [] && frame.object_ == Top(stack).object_ && FrameOk(heap, holds, frame) && OncePerFrame(stack)
    requires forall i :: 0 <= i < |stack| - 1 ==> FrameOk(heap, holds, stack[i])
    requires forall i :: 0 <= i < |stack| ==> Saw(last, t, stack[i].object_)
    ensures StackOk(heap, holds, last, t, Below(stack) + [frame])
  {
    hide FrameOk, Saw;
    SameObjects(stack, Below(stack) + [frame]);
  }

  lemma SlotStack(s: State, t: Thread, d: Ref, next: nat, holds': Holdings, u: Thread)
    requires Frames(s) && Logged(s) && t in s.stacks && s.stacks[t] != [] && Top(s.stacks[t]) == Frame(d, next)
    requires forall o :: o in s.holds && o != d ==> o in holds' && holds'[o] == s.holds[o]
    requires FrameOk(s.heap, holds', Frame(d, next + 1)) && u in s.stacks
    ensures StackOk(s.heap, holds', s.last, u,
                    if u == t then Below(s.stacks[t]) + [Frame(d, next + 1)] else s.stacks[u])
  {
    assert StackOk(s.heap, s.holds, s.last, u, s.stacks[u]);
    hide FrameOk, Frames, Logged, OncePerFrame, Saw;
    if u == t {
      FramesElsewhere(s, t, d, holds', t, |s.stacks[t]| - 1);
      TopAdvanced(s.heap, holds', s.last, t, s.stacks[t], Frame(d, next + 1));
    } else {
      FramesElsewhere(s, t, d, holds', u, |s.stacks[u]|);
    }
  }

  lemma SlotFrames(s: State, t: Thread, d: Ref, next: nat, c: Ref, s': State)
    requires Frames(s) && Logged(s) && t in s.stacks && s.stacks[t] != [] && Top(s.stacks[t]) == Frame(d, next)
    requires FrameOk(s.heap, s.holds, Frame(d, next)) && next < |Children(s.heap[d].body)|
    requires s.holds[d] - multiset{c} == multiset(Children(s.heap[d].body)[next + 1..])
    requires s' == s.(stacks := s.stacks[t := Below(s.stacks[t]) + [Frame(d, next + 1)]],
                      holds := s.holds[d := s.holds[d] - multiset{c}])
    ensures Frames(s')
  {
    FrameAdvanced(s.heap, s.holds, d, next, c);
    forall u | u in s'.stacks
      ensures StackOk(s'.heap, s'.holds, s'.last, u, s'.stacks[u])
    {
      SlotStack(s, t, d, next, s'.holds, u);
    }
  }

  lemma SlotLog(s: State, t: Thread, d: Ref, next: nat, s': State)
    requires Logged(s) && t in s.stacks && s.stacks[t] != [] && Top(s.stacks[t]) == Frame(d, next)
    requires s' == s.(stacks := s.stacks[t := Below(s.stacks[t]) + [Frame(d, next + 1)]], holds := s'.holds)
    ensures Logged(s')
  {
    forall e | e in s'.last
      ensures Explained(s', e)
    {
      assert Explained(s, e);
      if e !in s.freed {
        var i :| 0 <= i < |s.stacks[e.thread]| && s.stacks[e.thread][i].object_ == e.object_;
        assert s'.stacks[e.thread][i].object_ == e.object_;
      }
    }
  }

  /** The slot is taken out of the object in mid-deinit, to be released. */
  lemma SlotKeeps(s: State, t: Thread, d: Ref, next: nat, c: Ref, s': State)
    requires Inv(s, multiset{}) && t in s.stacks && s.stacks[t] != [] && Top(s.stacks[t]) == Frame(d, next)
    requires d in s.heap && d in s.holds && next < |Children(s.heap[d].body)| && c == Children(s.heap[d].body)[next]
    requires s' == s.(stacks := s.stacks[t := Below(s.stacks[t]) + [Frame(d, next + 1)]],
                      holds := s.holds[d := s.holds[d] - multiset{c}])
    ensures Inv(s', multiset{c})
  {
    hide Counted, Frames, Logged;
    TopFrame(s, t);
    var items := Children(s.heap[d].body);
    assert items[next..] == [c] + items[next + 1..];
    assert c in s.holds[d] && s.holds[d] - multiset{c} == multiset(items[next + 1..]);
    assert Total(s.owned) + multiset{} + multiset{c} == Total(s.owned) + multiset{c};
    BalancedTake(s.heap, s.holds, Total(s.owned) + multiset{}, d, c);
    SlotFrames(s, t, d, next, c, s');
    SlotLog(s, t, d, next, s');
  }

  lemma ReleaseSlotKeeps(s: State, t: Thread)
    requires Inv(s, multiset{}) && Allowed(s, ReleaseSlot(t))
    ensures Next(s, ReleaseSlot(t)).Running? && Inv(Next(s, ReleaseSlot(t)).state, multiset{})
  {
    TopFrame(s, t);
    hide Counted, Frames, Logged, Dropped;
    var d, next := Top(s.stacks[t]).object_, Top(s.stacks[t]).next;
    var c := Children(s.heap[d].body)[next];
    var s1 := s.(stacks := s.stacks[t := Below(s.stacks[t]) + [Frame(d, next + 1)]],
                 holds := s.holds[d := s.holds[d] - multiset{c}]);
    SlotKeeps(s, t, d, next, c, s1);
    DropKeeps(s1, t, c);
  }

  lemma FreeFrames(s: State, t: Thread, d: Ref, s': State)
    requires Frames(s) && Logged(s) && t in s.stacks && s.stacks[t] != [] && Top(s.stacks[t]).object_ == d
    requires s' == s.(heap := s.heap - {d}, holds := s.holds - {d}, stacks := s.stacks[t := Below(s.stacks[t])],
                      freed := s.freed + [Event(t, d)])
    ensures Frames(s')
  {
    hide FrameOk, Logged;
    forall u | u in s'.stacks
      ensures StackOk(s'.heap, s'.holds, s'.last, u, s'.stacks[u])
    {
      assert StackOk(s.heap, s.holds, s.last, u, s.stacks[u]);
      forall i | 0 <= i < |s'.stacks[u]|
        ensures FrameOk(s'.heap, s'.holds, s.stacks[u][i])
      {
        FrameIsElsewhere(s, t, u, i);
        FrameElsewhere(s.heap, s.holds, s'.heap, s'.holds, s.stacks[u][i]);
      }
    }
  }

  lemma FreeExplained(s: State, t: Thread, d: Ref, s': State, e: Event)
    requires Logged(s) && t in s.stacks && s.stacks[t] != [] && Top(s.stacks[t]).object_ == d
    requires s'.stacks == s.stacks[t := Below(s.stacks[t])] && s'.freed == s.freed + [Event(t, d)]
    requires e in s.last && Saw(s.last, t, d)
    ensures Explained(s', e)
  {
    assert Explained(s, e) && s'.freed[|s.freed|] == Event(t, d);
    if e !in s.freed && e != Event(t, d) {
      var i :| 0 <= i < |s.stacks[e.thread]| && s.stacks[e.thread][i].object_ == e.object_;
      assert e.object_ != d;
      assert s'.stacks[e.thread][i].object_ == e.object_;
    }
  }

  lemma FreeLog(s: State, t: Thread, d: Ref, s': State)
    requires Frames(s) && Logged(s) && d in s.heap
    requires t in s.stacks && s.stacks[t] != [] && Top(s.stacks[t]).object_ == d
    requires s' == s.(heap := s.heap - {d}, holds := s.holds - {d}, stacks := s.stacks[t := Below(s.stacks[t])],
                      freed := s.freed + [Event(t, d)])
    ensures Logged(s')
  {
    TopFrame(s, t);
    assert s'.freed[|s.freed|] == Event(t, d);
    forall e | e in s'.last
      ensures Explained(s', e)
    {
      FreeExplained(s, t, d, s', e);
    }
    forall e | e in s'.freed
      ensures e in s'.last && e.object_ !in s'.heap
    {
      assert e in s.freed || e == Event(t, d);
    }
  }

  /** The deinit is over: nothing refers to the object any more, and it is freed by the thread that ran the deinit. */
  lemma FreeKeeps(s: State, t: Thread)
    requires Inv(s, multiset{}) && Allowed(s, Free(t))
    ensures Next(s, Free(t)).Running? && Inv(Next(s, Free(t)).state, multiset{})
    ensures AllRefs(s.holds, Total(s.owned))[Top(s.stacks[t]).object_] == 0
  {
    TopFrame(s, t);
    var d, s' := Top(s.stacks[t]).object_, Next(s, Free(t)).state;
    assert Total(s.owned) + multiset{} == Total(s.owned);
    assert AllRefs(s.holds, Total(s.owned))[d] == 0;
    hide Counted, Frames, Logged;
    BalancedFree(s.heap, s.holds, Total(s.owned) + multiset{}, d);
    FreeFrames(s, t, d, s');
    FreeLog(s, t, d, s');
  }

  lemma MakeBalanced(s: State, r: Ref, body: Body, held: Refs, less: Refs, s': State)
    requires Balanced(s.heap, s.holds, Total(s.owned) + multiset{}) && r !in s.heap
    requires Total(s.owned) == less + held && Total(s'.owned) == less + multiset{r}
    requires s'.heap == s.heap[r := Object(false, 1, body)] && s'.holds == s.holds[r := held]
    ensures Balanced(s'.heap, s'.holds, Total(s'.owned) + multiset{})
  {
    hide Counted;
    assert Total(s.owned) + multiset{} == Total(s.owned) && Total(s'.owned) + multiset{} == Total(s'.owned);
    BalancedNew(s.heap, s.holds, less, held, r, body, s'.heap, s'.holds);
  }

  lemma FramesAgree(s: State)
    requires Frames(s)
    ensures s.heap.Keys == s.holds.Keys && s.owned.Keys == s.stacks.Keys
  {
  }

  lemma Reordered(a: Refs, b: Refs, c: Refs)
    ensures a + b + c == a + c + b
  {
  }

  lemma GivenBack(a: Refs, held: Refs)
    requires held <= a
    ensures a - held + held == a
  {
  }

  /** The maker gives up the references the new object takes over, and gets one to it. */
  lemma OwnedMade(owned: Holdings, t: Thread, held: Refs, r: Ref, owned': Holdings) returns (less: Refs)
    requires t in owned && held <= owned[t] && owned' == owned[t := owned[t] - held + multiset{r}]
    ensures Total(owned) == less + held && Total(owned') == less + multiset{r}
  {
    var kept, rest := owned[t] - held, owned - {t};
    less := kept + Total(rest);
    assert Total(owned) == less + held by {
      TotalWithout(owned, t);
      GivenBack(owned[t], held);
      Reordered(kept, held, Total(rest));
    }
    assert Total(owned') == less + multiset{r} by {
      TotalWithout(owned', t);
      assert owned' - {t} == rest;
      Reordered(kept, multiset{r}, Total(rest));
    }
  }

  lemma MakeFrames(s: State, t: Thread, r: Ref, body: Body, s': State)
    requires Frames(s) && r !in s.heap && t in s.owned
    requires s' == s.(heap := s.heap[r := Object(false, 1, body)], holds := s.holds[r := multiset(Children(body))],
                      owned := s'.owned) && s'.owned.Keys == s.owned.Keys
    ensures Frames(s')
  {
    forall u | u in s'.stacks
      ensures StackOk(s'.heap, s'.holds, s'.last, u, s'.stacks[u])
    {
      assert StackOk(s.heap, s.holds, s.last, u, s.stacks[u]);
    }
  }

  lemma MakeLog(s: State, r: Ref, body: Body, s': State)
    requires Logged(s) && r !in s.heap && !WasFreed(s, r)
    requires s' == s.(heap := s.heap[r := Object(false, 1, body)], holds := s'.holds, owned := s'.owned)
    ensures Logged(s')
  {
    assert forall e :: Explained(s, e) ==> Explained(s', e);
  }

  lemma MadeKeeps(s: State, t: Thread, r: Ref, body: Body, s': State)
    requires Inv(s, multiset{}) && t in s.owned && r !in s.heap && !WasFreed(s, r)
    requires multiset(Children(body)) <= s.owned[t]
    requires s' == s.(heap := s.heap[r := Object(false, 1, body)], holds := s.holds[r := multiset(Children(body))],
                      owned := s.owned[t := s.owned[t] - multiset(Children(body)) + multiset{r}])
    ensures Inv(s', multiset{})
  {
    hide Counted, Frames, Logged, WasFreed, Children;
    FramesAgree(s);
    MakeFrames(s, t, r, body, s');
    MakeLog(s, r, body, s');
    var held := multiset(Children(body));
    var less := OwnedMade(s.owned, t, held, r, s'.owned);
    MakeBalanced(s, r, body, held, less, s');
  }

  lemma MakeKeeps(s: State, t: Thread, r: Ref, body: Body)
    requires Inv(s, multiset{}) && Allowed(s, Make(t, r, body))
    ensures Next(s, Make(t, r, body)).Running? && Inv(Next(s, Make(t, r, body)).state, multiset{})
  {
    hide Counted, Frames, Logged, WasFreed;
    MadeKeeps(s, t, r, body, Next(s, Make(t, r, body)).state);
  }

  lemma PassKeeps(s: State, t: Thread, r: Ref, to: Thread)
    requires Inv(s, multiset{}) && Allowed(s, Pass(t, r, to))
    ensures Next(s, Pass(t, r, to)).Running? && Inv(Next(s, Pass(t, r, to)).state, multiset{})
  {
    hide Counted, Frames, Logged;
    var s1 := s.(owned := Loses(s.owned, t, r));
    var s' := Next(s, Pass(t, r, to)).state;
    OwnedMoves(s, t, r, s1);
    TotalGains(s1.owned, to, r);
    assert Total(s'.owned) + multiset{} == Total(s1.owned) + multiset{r};
    SameButOwned(s1, s');
  }

  // ---------------------------------------------------------------------------
  // Runs
  // ---------------------------------------------------------------------------

  lemma StepKeeps(s: State, step: Step)
    requires Inv(s, multiset{}) && Allowed(s, step)
    ensures Next(s, step).Running? && Inv(Next(s, step).state, multiset{})
  {
    hide Inv, Next, Allowed;
    match step
    case Retain(t, r) => RetainKeeps(s, t, r);
    case Release(t, r) => ReleaseKeeps(s, t, r);
    case ReleaseSlot(t) => ReleaseSlotKeeps(s, t);
    case Free(t) => FreeKeeps(s, t);
    case Make(t, r, body) => MakeKeeps(s, t, r, body);
    case Store(t, a, r) => StoreKeeps(s, t, a, r);
    case Pass(t, r, to) => PassKeeps(s, t, r, to);
  }

  /** Before anything is made. */
  function Initial(threads: set<Thread>): State {
    State(map[], map[], map t | t in threads :: multiset{}, map t | t in threads :: [], [], [])
  }

  /** A run in which every step is allowed when it is taken; it ends where a step goes wrong, if one does. */
  ghost predicate IsRun(s: State, steps: seq<Step>)
    decreases |steps|
  {
    steps == [] || (Allowed(s, steps[0]) && (Next(s, steps[0]).Running? ==> IsRun(Next(s, steps[0]).state, steps[1..])))
  }

  ghost function Final(s: State, steps: seq<Step>): Outcome
    requires IsRun(s, steps)
    decreases |steps|
  {
    if steps == [] then Running(s)
    else if Next(s, steps[0]).Running? then Final(Next(s, steps[0]).state, steps[1..])
    else Next(s, steps[0])
  }

  lemma {:induction false} RunKeeps(s: State, steps: seq<Step>)
    requires Inv(s, multiset{}) && IsRun(s, steps)
    ensures Final(s, steps).Running? && Inv(Final(s, steps).state, multiset{})
    decreases |steps|
  {
    hide Inv, Next, Allowed;
    if steps != [] {
      StepKeeps(s, steps[0]);
      RunKeeps(Next(s, steps[0]).state, steps[1..]);
    }
  }

  lemma {:induction false} NothingOwned(owned: Holdings)
    requires forall t :: t in owned ==> owned[t] == multiset{}
    ensures Total(owned) == multiset{}
    decreases |owned|
  {
    if owned != map[] {
      var t :| t in owned && Total(owned) == owned[t] + Total(owned - {t});
      NothingOwned(owned - {t});
    }
  }

  lemma InitialHolds(threads: set<Thread>)
    ensures Inv(Initial(threads), multiset{})
  {
    var s := Initial(threads);
    NothingOwned(s.owned);
    assert Total(s.holds) == multiset{};
    assert AllRefs(s.holds, Total(s.owned) + multiset{}) == multiset{};
  }

  /** How many events in the log are about an object. */
  function Occurrences(log: seq<Event>, r: Ref): nat {
    if log == [] then 0 else Occurrences(log[..|log| - 1], r) + if log[|log| - 1].object_ == r then 1 else 0
  }

  lemma {:induction false} AtMostOnce(log: seq<Event>, r: Ref)
    requires OncePerObject(log)
    ensures Occurrences(log, r) <= 1
    ensures Occurrences(log, r) == 1 <==> exists t :: Saw(log, t, r)
  {
    if log != [] {
      var rest, e := log[..|log| - 1], log[|log| - 1];
      AtMostOnce(rest, r);
      if e.object_ == r {
        assert Saw(log, e.thread, r);
      }
      forall t
        ensures Saw(log, t, r) <==> Saw(rest, t, r) || e == Event(t, r)
      {
        assert log == rest + [e];
      }
    }
  }

  /** What is allocated stays so until it is freed. */
  lemma StaysOrFreed(s: State, step: Step, r: Ref)
    requires Allowed(s, step) && Next(s, step).Running? && (r in s.heap || WasFreed(s, r))
    ensures r in Next(s, step).state.heap || WasFreed(Next(s, step).state, r)
  {
    var s' := Next(s, step).state;
    if WasFreed(s, r) {
      var i :| 0 <= i < |s.freed| && s.freed[i].object_ == r;
      assert s'.freed[i] == s.freed[i];
    } else if r !in s'.heap {
      assert s'.freed[|s.freed|].object_ == r;
    }
  }

  lemma {:induction false} StaysInRun(s: State, steps: seq<Step>, r: Ref)
    requires Inv(s, multiset{}) && IsRun(s, steps) && (r in s.heap || WasFreed(s, r))
    ensures Final(s, steps).Running?
    ensures r in Final(s, steps).state.heap || WasFreed(Final(s, steps).state, r)
    decreases |steps|
  {
    hide Inv, Next, Allowed, WasFreed;
    if steps != [] {
      StepKeeps(s, steps[0]);
      StaysOrFreed(s, steps[0], r);
      StaysInRun(Next(s, steps[0]).state, steps[1..], r);
    }
  }

  /** What a run makes is allocated at its end, or was freed. */
  lemma {:induction false} MadeInRun(s: State, steps: seq<Step>, i: nat)
    requires Inv(s, multiset{}) && IsRun(s, steps) && i < |steps| && steps[i].Make?
    ensures Final(s, steps).Running?
    ensures steps[i].object_ in Final(s, steps).state.heap || WasFreed(Final(s, steps).state, steps[i].object_)
    decreases |steps|
  {
    hide Inv, Allowed, WasFreed;
    StepKeeps(s, steps[0]);
    if i == 0 {
      StaysInRun(Next(s, steps[0]).state, steps[1..], steps[0].object_);
    } else {
      MadeInRun(Next(s, steps[0]).state, steps[1..], i - 1);
    }
  }

  /** The state before a step of a run. */
  ghost function StateAt(s: State, steps: seq<Step>, k: nat): State
    requires IsRun(s, steps) && k <= |steps|
    decreases |steps|
  {
    if k == 0 || !Next(s, steps[0]).Running? then s else StateAt(Next(s, steps[0]).state, steps[1..], k - 1)
  }

  /** The thread frees the object whose deinit it has finished, and no reference to that object is left. */
  ghost predicate FreesUnreferenced(before: State, after: State, t: Thread) {
    && t in before.stacks && before.stacks[t] != []
    && var d := Top(before.stacks[t]).object_;
       && AllRefs(before.holds, Total(before.owned))[d] == 0
       && after.freed == before.freed + [Event(t, d)]
  }

  lemma FreeStep(s: State, t: Thread)
    requires Inv(s, multiset{}) && Allowed(s, Free(t))
    ensures Next(s, Free(t)).Running? && FreesUnreferenced(s, Next(s, Free(t)).state, t)
  {
    hide Inv;
    FreeKeeps(s, t);
  }

  /** Whenever a thread frees an object, no reference to it is left, with any thread or in any object. */
  lemma {:induction false} FreedUnreferenced(s: State, steps: seq<Step>, k: nat)
    requires Inv(s, multiset{}) && IsRun(s, steps) && k < |steps| && steps[k].Free?
    ensures FreesUnreferenced(StateAt(s, steps, k), StateAt(s, steps, k + 1), steps[k].thread)
    decreases |steps|
  {
    hide Inv, Allowed, FreesUnreferenced;
    StepKeeps(s, steps[0]);
    if k == 0 {
      FreeStep(s, steps[0].thread);
    } else {
      FreedUnreferenced(Next(s, steps[0]).state, steps[1..], k - 1);
    }
  }

  /** The object is allocated and was not freed, or exactly one thread saw the old count 1 and freed it, each once. */
  ghost predicate FreedOnceOrAllocated(s: State, r: Ref) {
    if r in s.heap then Occurrences(s.freed, r) == 0
    else
      && Occurrences(s.last, r) == 1 && Occurrences(s.freed, r) == 1
      && exists t :: Saw(s.last, t, r) && Saw(s.freed, t, r)
  }

  lemma LogsOnce(s: State, r: Ref)
    requires Inv(s, multiset{})
    ensures Occurrences(s.last, r) <= 1 && Occurrences(s.freed, r) <= 1
    ensures Occurrences(s.last, r) == 1 <==> exists t :: Saw(s.last, t, r)
  {
    AtMostOnce(s.last, r);
    AtMostOnce(s.freed, r);
  }

  lemma LoggedAt(s: State, t: Thread, r: Ref)
    requires Frames(s) && Logged(s) && Saw(s.last, t, r)
    ensures if r in s.heap then t in s.stacks && OnStack(s.stacks[t], r) && IsDying(s.heap[r]) else Saw(s.freed, t, r)
  {
    var e := Event(t, r);
    assert Explained(s, e);
    if e !in s.freed {
      var i :| 0 <= i < |s.stacks[t]| && s.stacks[t][i].object_ == r;
      assert StackOk(s.heap, s.holds, s.last, t, s.stacks[t]);
      assert FrameOk(s.heap, s.holds, s.stacks[t][i]);
    }
  }

  lemma OnceAt(s: State, r: Ref)
    requires Inv(s, multiset{})
    ensures forall t :: Saw(s.freed, t, r) ==> Saw(s.last, t, r) && r !in s.heap
    ensures forall t :: Saw(s.last, t, r) ==>
              if r in s.heap then t in s.stacks && OnStack(s.stacks[t], r) else Saw(s.freed, t, r)
    ensures r in s.heap && !s.heap[r].isStack ==> s.heap[r].count == AllRefs(s.holds, Total(s.owned))[r]
    ensures r !in s.heap ==> AllRefs(s.holds, Total(s.owned))[r] == 0
    ensures r in s.heap && !s.heap[r].isStack ==> (s.heap[r].count == 0 <==> exists t :: Saw(s.last, t, r))
  {
    assert Total(s.owned) + multiset{} == Total(s.owned);
    forall t | Saw(s.last, t, r)
      ensures if r in s.heap then t in s.stacks && OnStack(s.stacks[t], r) && IsDying(s.heap[r]) else Saw(s.freed, t, r)
    {
      LoggedAt(s, t, r);
    }
  }

  lemma AllocatedOrFreedOnce(s: State, r: Ref)
    requires Inv(s, multiset{}) && (r in s.heap || WasFreed(s, r))
    ensures FreedOnceOrAllocated(s, r)
  {
    OnceAt(s, r);
    AtMostOnce(s.last, r);
    AtMostOnce(s.freed, r);
    if WasFreed(s, r) {
      var i :| 0 <= i < |s.freed| && s.freed[i].object_ == r;
      assert Saw(s.freed, s.freed[i].thread, r);
    }
  }

  /**
   * However the threads' steps interleave: no count underflows and no freed object is accessed. Of every object at most
   * one thread reads the old count 1, once, and it is that thread that frees the object, once. Every object that was
   * made is still allocated or has been freed like that, and when it was, no reference to it was left.
   */
  lemma ExactlyOnce(threads: set<Thread>, steps: seq<Step>, r: Ref)
    requires IsRun(Initial(threads), steps)
    ensures Final(Initial(threads), steps).Running?
    ensures var s := Final(Initial(threads), steps).state;
            && Occurrences(s.last, r) <= 1 && Occurrences(s.freed, r) <= 1
            && (forall t :: Saw(s.freed, t, r) ==> Saw(s.last, t, r) && r !in s.heap)
            && (forall t :: Saw(s.last, t, r) ==>
                  if r in s.heap then t in s.stacks && OnStack(s.stacks[t], r) else Saw(s.freed, t, r))
            && (r in s.heap && !s.heap[r].isStack ==>
                  s.heap[r].count == AllRefs(s.holds, Total(s.owned))[r] &&
                  (s.heap[r].count == 0 <==> Occurrences(s.last, r) == 1))
            && (r !in s.heap ==> AllRefs(s.holds, Total(s.owned))[r] == 0)
            && (forall i :: 0 <= i < |steps| && steps[i].Make? ==> FreedOnceOrAllocated(s, steps[i].object_))
    ensures forall k :: 0 <= k < |steps| && steps[k].Free? ==>
              FreesUnreferenced(StateAt(Initial(threads), steps, k), StateAt(Initial(threads), steps, k + 1),
                                steps[k].thread)
  {
    hide Inv, IsRun, Next, StateAt, FreedOnceOrAllocated, FreesUnreferenced;
    InitialHolds(threads);
    RunKeeps(Initial(threads), steps);
    var s := Final(Initial(threads), steps).state;
    LogsOnce(s, r);
    OnceAt(s, r);
    forall i | 0 <= i < |steps| && steps[i].Make?
      ensures FreedOnceOrAllocated(s, steps[i].object_)
    {
      MadeInRun(Initial(threads), steps, i);
      OnceAt(s, steps[i].object_);
      AllocatedOrFreedOnce(s, steps[i].object_);
    }
    forall k | 0 <= k < |steps| && steps[k].Free?
      ensures FreesUnreferenced(StateAt(Initial(threads), steps, k), StateAt(Initial(threads), steps, k + 1),
                                steps[k].thread)
    {
      FreedUnreferenced(Initial(threads), steps, k);
    }
  }
}
