/** What runs of threads add up to: who owns what, what objects become, that deinits end, and what is left. */
module ThreadRuns {
  import opened Cascade
  import opened Counting
  import opened Soundness
  import opened Threads

  // ---------------------------------------------------------------------------
  // Who owns what
  // ---------------------------------------------------------------------------

  /** How many references to `r` the step gives to thread `u`: one retained, made, or passed to it. */
  function Gain(step: Step, u: Thread, r: Ref): nat {
    match step
    case Retain(t, x) => if t == u && x == r then 1 else 0
    case Make(t, x, _) => if t == u && x == r then 1 else 0
    case Pass(_, x, to) => if to == u && x == r then 1 else 0
    case _ => 0
  }

  /** How many it takes from thread `u`: one released, one passed on, or those that a new object takes over. */
  function Loss(step: Step, u: Thread, r: Ref): nat {
    match step
    case Release(t, x) => if t == u && x == r then 1 else 0
    case Make(t, _, body) => if t == u then multiset(Children(body))[r] else 0
    case Pass(t, x, _) => if t == u && x == r then 1 else 0
    case _ => 0
  }

  function Gained(steps: seq<Step>, u: Thread, r: Ref): nat {
    if steps == [] then 0 else Gain(steps[0], u, r) + Gained(steps[1..], u, r)
  }

  function Lost(steps: seq<Step>, u: Thread, r: Ref): nat {
    if steps == [] then 0 else Loss(steps[0], u, r) + Lost(steps[1..], u, r)
  }

  /** The same objects, with the same bodies; only counts differ. */
  ghost predicate SameBodies(h: Heap, h': Heap) {
    h'.Keys == h.Keys && forall o :: o in h ==> h'[o].isStack == h[o].isStack && h'[o].body == h[o].body
  }

  /** The other threads' deinits go on where they were. */
  ghost predicate OthersWait(s: State, t: Thread, s': State) {
    s'.stacks.Keys == s.stacks.Keys && forall u :: u in s.stacks && u != t ==> s'.stacks[u] == s.stacks[u]
  }

  /** A decrement changes a count, and what the thread has to do; not what is owned, allocated or held. */
  lemma DroppedOnly(s: State, t: Thread, x: Ref)
    requires t in s.stacks && Dropped(s, t, x).Running?
    ensures var s' := Dropped(s, t, x).state;
            && s'.owned == s.owned && s'.holds == s.holds && s'.freed == s.freed
            && OthersWait(s, t, s') && SameBodies(s.heap, s'.heap)
  {
  }

  lemma RaisedOnly(h: Heap, r: Ref)
    requires r in h
    ensures SameBodies(h, Raised(h, r))
  {
  }

  lemma SameThreads(s: State)
    requires Inv(s, multiset{})
    ensures s.owned.Keys == s.stacks.Keys && s.heap.Keys == s.holds.Keys
  {
  }

  lemma RetainDoes(s: State, t: Thread, x: Ref)
    requires Allowed(s, Retain(t, x)) && Next(s, Retain(t, x)).Running?
    ensures t in s.owned && t in s.stacks
    ensures var s' := Next(s, Retain(t, x)).state;
            && s'.owned == Gains(s.owned, t, x) && s'.stacks == s.stacks && s'.holds == s.holds && s'.freed == s.freed
            && SameBodies(s.heap, s'.heap)
  {
    hide Raised;
    RaisedOnly(s.heap, x);
  }

  lemma ReleaseDoes(s: State, t: Thread, x: Ref)
    requires Allowed(s, Release(t, x)) && Next(s, Release(t, x)).Running?
    ensures t in s.owned && t in s.stacks && x in s.owned[t]
    ensures var s' := Next(s, Release(t, x)).state;
            && s'.owned == Loses(s.owned, t, x) && s'.holds == s.holds && s'.freed == s.freed
            && OthersWait(s, t, s') && SameBodies(s.heap, s'.heap)
  {
    hide Dropped;
    DroppedOnly(s.(owned := Loses(s.owned, t, x)), t, x);
  }

  lemma TopSlot(s: State, t: Thread) returns (d: Ref, c: Ref)
    requires Inv(s, multiset{}) && Allowed(s, ReleaseSlot(t))
    ensures t in s.stacks && s.stacks[t] != [] && d == Top(s.stacks[t]).object_ && d in s.heap && d in s.holds
    ensures Top(s.stacks[t]).next < |Children(s.heap[d].body)| && c == Children(s.heap[d].body)[Top(s.stacks[t]).next]
    ensures c in s.holds[d]
  {
    TopFrame(s, t);
    hide Inv;
    d := Top(s.stacks[t]).object_;
    c := Children(s.heap[d].body)[Top(s.stacks[t]).next];
    assert Children(s.heap[d].body)[Top(s.stacks[t]).next..][0] == c;
  }

  /** The state in which a slot has been taken out of the object in mid-deinit, but not yet released. */
  ghost function SlotTaken(s: State, t: Thread, d: Ref, c: Ref): (s': State)
    requires t in s.stacks && s.stacks[t] != [] && d in s.holds
    ensures OthersWait(s, t, s')
  {
    s.(stacks := s.stacks[t := Below(s.stacks[t]) + [Frame(d, Top(s.stacks[t]).next + 1)]],
       holds := s.holds[d := s.holds[d] - multiset{c}])
  }

  lemma SlotDoes(s: State, t: Thread) returns (d: Ref, c: Ref)
    requires Inv(s, multiset{}) && Allowed(s, ReleaseSlot(t)) && Next(s, ReleaseSlot(t)).Running?
    ensures t in s.stacks && s.stacks[t] != [] && d == Top(s.stacks[t]).object_ && d in s.heap && d in s.holds
    ensures c in s.holds[d]
    ensures var s' := Next(s, ReleaseSlot(t)).state;
            && s'.owned == s.owned && s'.holds == s.holds[d := s.holds[d] - multiset{c}] && s'.freed == s.freed
            && OthersWait(s, t, s') && SameBodies(s.heap, s'.heap)
  {
    d, c := TopSlot(s, t);
    hide Inv, Dropped;
    var s1 := SlotTaken(s, t, d, c);
    assert Next(s, ReleaseSlot(t)) == Dropped(s1, t, c);
    hide Next, Allowed;
    DroppedOnly(s1, t, c);
  }

  lemma FreeDoes(s: State, t: Thread) returns (d: Ref)
    requires Inv(s, multiset{}) && Allowed(s, Free(t)) && Next(s, Free(t)).Running?
    ensures t in s.stacks && s.stacks[t] != [] && d == Top(s.stacks[t]).object_ && d in s.heap && d in s.holds
    ensures s.holds[d] == multiset{}
    ensures var s' := Next(s, Free(t)).state;
            && s'.owned == s.owned && s'.heap == s.heap - {d} && s'.holds == s.holds - {d}
            && s'.stacks == s.stacks[t := Below(s.stacks[t])] && s'.freed == s.freed + [Event(t, d)]
  {
    TopFrame(s, t);
    hide Inv;
    d := Top(s.stacks[t]).object_;
  }

  lemma MakeDoes(s: State, t: Thread, r: Ref, body: Body)
    requires Allowed(s, Make(t, r, body)) && Next(s, Make(t, r, body)).Running?
    ensures t in s.owned && t in s.stacks && multiset(Children(body)) <= s.owned[t] && r !in s.heap
    ensures var s' := Next(s, Make(t, r, body)).state;
            && s'.owned == s.owned[t := s.owned[t] - multiset(Children(body)) + multiset{r}]
            && s'.heap == s.heap[r := Object(false, 1, body)] && s'.stacks == s.stacks && s'.freed == s.freed
  {
  }

  /** Storing puts the value behind the items of an array that takes it. */
  lemma StoreDoes(s: State, t: Thread, a: Ref, x: Ref)
    requires Allowed(s, Store(t, a, x)) && Next(s, Store(t, a, x)).Running?
    ensures t in s.stacks && a in s.heap
    ensures var s', body := Next(s, Store(t, a, x)).state, s.heap[a].body;
            && s'.owned == s.owned && s'.stacks == s.stacks && s'.freed == s.freed && s'.heap.Keys == s.heap.Keys
            && (forall o :: o in s.heap ==> s'.heap[o].isStack == s.heap[o].isStack)
            && (forall o :: o in s.heap && o != a ==> s'.heap[o].body == s.heap[o].body)
            && s'.heap[a].body == if body.Array? && body.isMutable && body.owning
                                  then body.(items := body.items + [x]) else body
  {
    hide Raised;
    RaisedOnly(s.heap, x);
  }

  lemma PassDoes(s: State, t: Thread, x: Ref, to: Thread)
    requires Allowed(s, Pass(t, x, to))
    ensures t in s.owned && to in s.owned && x in s.owned[t]
    ensures Next(s, Pass(t, x, to)) == Running(s.(owned := Gains(Loses(s.owned, t, x), to, x)))
  {
  }

  lemma KeysStay(owned: Holdings, t: Thread, x: Ref)
    requires t in owned
    ensures Gains(owned, t, x).Keys == owned.Keys && Loses(owned, t, x).Keys == owned.Keys
  {
  }

  lemma OwnedCounts(owned: Holdings, t: Thread, x: Ref, u: Thread, r: Ref)
    requires t in owned && u in owned
    ensures Gains(owned, t, x).Keys == owned.Keys && Loses(owned, t, x).Keys == owned.Keys
    ensures Gains(owned, t, x)[u][r] == owned[u][r] + if t == u && x == r then 1 else 0
    ensures x in owned[t] ==> Loses(owned, t, x)[u][r] == owned[u][r] - if t == u && x == r then 1 else 0
  {
  }

  lemma MadeCounts(owned: Holdings, t: Thread, held: Refs, x: Ref, u: Thread, r: Ref)
    requires t in owned && u in owned && held <= owned[t]
    ensures owned[t := owned[t] - held + multiset{x}][u][r] ==
            owned[u][r] + (if t == u && x == r then 1 else 0) - (if t == u then held[r] else 0)
  {
  }

  /** The step moved the references it should have moved, and left the others where they were. */
  ghost predicate OwnedAsDue(s: State, step: Step, s': State) {
    && s'.owned.Keys == s.owned.Keys
    && forall u, r :: u in s.owned ==> s'.owned[u][r] == s.owned[u][r] + Gain(step, u, r) - Loss(step, u, r)
  }

  lemma RetainOwned(s: State, t: Thread, x: Ref)
    requires Allowed(s, Retain(t, x)) && Next(s, Retain(t, x)).Running?
    ensures OwnedAsDue(s, Retain(t, x), Next(s, Retain(t, x)).state)
  {
    hide Allowed, Next, Gains, SameBodies;
    RetainDoes(s, t, x);
    KeysStay(s.owned, t, x);
    forall u, r | u in s.owned
      ensures Gains(s.owned, t, x)[u][r] == s.owned[u][r] + Gain(Retain(t, x), u, r)
    {
      OwnedCounts(s.owned, t, x, u, r);
    }
  }

  lemma ReleaseOwned(s: State, t: Thread, x: Ref)
    requires Allowed(s, Release(t, x)) && Next(s, Release(t, x)).Running?
    ensures OwnedAsDue(s, Release(t, x), Next(s, Release(t, x)).state)
  {
    hide Allowed, Next, Loses, SameBodies;
    ReleaseDoes(s, t, x);
    KeysStay(s.owned, t, x);
    forall u, r | u in s.owned
      ensures Loses(s.owned, t, x)[u][r] == s.owned[u][r] - Loss(Release(t, x), u, r)
    {
      OwnedCounts(s.owned, t, x, u, r);
    }
  }

  lemma MakeOwned(s: State, t: Thread, x: Ref, body: Body)
    requires Allowed(s, Make(t, x, body)) && Next(s, Make(t, x, body)).Running?
    ensures OwnedAsDue(s, Make(t, x, body), Next(s, Make(t, x, body)).state)
  {
    hide Allowed, Next, Children;
    MakeDoes(s, t, x, body);
    var held := multiset(Children(body));
    var owned' := s.owned[t := s.owned[t] - held + multiset{x}];
    forall u, r | u in s.owned
      ensures owned'[u][r] == s.owned[u][r] + Gain(Make(t, x, body), u, r) - Loss(Make(t, x, body), u, r)
    {
      MadeCounts(s.owned, t, held, x, u, r);
    }
  }

  lemma PassOwned(s: State, t: Thread, x: Ref, to: Thread)
    requires Allowed(s, Pass(t, x, to)) && Next(s, Pass(t, x, to)).Running?
    ensures OwnedAsDue(s, Pass(t, x, to), Next(s, Pass(t, x, to)).state)
  {
    hide Allowed, Next, Gains, Loses;
    PassDoes(s, t, x, to);
    KeysStay(s.owned, t, x);
    KeysStay(Loses(s.owned, t, x), to, x);
    forall u, r | u in s.owned
      ensures Gains(Loses(s.owned, t, x), to, x)[u][r] ==
              s.owned[u][r] + Gain(Pass(t, x, to), u, r) - Loss(Pass(t, x, to), u, r)
    {
      OwnedCounts(s.owned, t, x, u, r);
      OwnedCounts(Loses(s.owned, t, x), to, x, u, r);
    }
  }

  lemma NobodyGains(s: State, step: Step)
    requires Inv(s, multiset{}) && Allowed(s, step) && Next(s, step).Running?
    requires step.ReleaseSlot? || step.Free? || step.Store?
    ensures OwnedAsDue(s, step, Next(s, step).state)
  {
    hide Inv, Next, Allowed, SameBodies, OthersWait;
    match step
    case ReleaseSlot(t) => var _, _ := SlotDoes(s, t);
    case Free(t) => var _ := FreeDoes(s, t);
    case Store(t, a, x) => StoreDoes(s, t, a, x);
  }

  /** Every step does: a release takes one reference from its thread, a retain gives it one, and so on. */
  lemma OwnedStep(s: State, step: Step)
    requires Inv(s, multiset{}) && Allowed(s, step)
    ensures Next(s, step).Running? && OwnedAsDue(s, step, Next(s, step).state)
  {
    hide Inv, Next, Allowed, OwnedAsDue;
    StepKeeps(s, step);
    match step
    case Retain(t, x) => RetainOwned(s, t, x);
    case Release(t, x) => ReleaseOwned(s, t, x);
    case ReleaseSlot(t) => NobodyGains(s, step);
    case Free(t) => NobodyGains(s, step);
    case Make(t, x, body) => MakeOwned(s, t, x, body);
    case Store(t, a, x) => NobodyGains(s, step);
    case Pass(t, x, to) => PassOwned(s, t, x, to);
  }

  lemma {:induction false} OwnedInRun(s: State, steps: seq<Step>, u: Thread, r: Ref)
    requires Inv(s, multiset{}) && IsRun(s, steps) && u in s.owned
    ensures Final(s, steps).Running? && Final(s, steps).state.owned.Keys == s.owned.Keys
    ensures Final(s, steps).state.owned[u][r] == s.owned[u][r] + Gained(steps, u, r) - Lost(steps, u, r)
    decreases |steps|
  {
    hide Inv, Next, Allowed;
    if steps != [] {
      StepKeeps(s, steps[0]);
      OwnedStep(s, steps[0]);
      OwnedInRun(Next(s, steps[0]).state, steps[1..], u, r);
    }
  }

  /**
   * In every interleaving, the references that a thread owns are those it retained, made and was passed, less those it
   * released, passed on and gave into objects.
   */
  lemma OwnedAddsUp(threads: set<Thread>, steps: seq<Step>, u: Thread, r: Ref)
    requires IsRun(Initial(threads), steps) && u in threads
    ensures Final(Initial(threads), steps).Running? && u in Final(Initial(threads), steps).state.owned
    ensures Final(Initial(threads), steps).state.owned[u][r] == Gained(steps, u, r) - Lost(steps, u, r)
  {
    InitialHolds(threads);
    OwnedInRun(Initial(threads), steps, u, r);
  }

  // ---------------------------------------------------------------------------
  // What objects become
  // ---------------------------------------------------------------------------

  /** The items of an array that takes items, with those that the steps store in it behind them, in order. */
  function ItemsAfter(items: seq<Ref>, o: Ref, steps: seq<Step>): seq<Ref>
    decreases |steps|
  {
    if steps == [] then items
    else
      ItemsAfter(if steps[0].Store? && steps[0].array_ == o then items + [steps[0].object_] else items, o, steps[1..])
  }

  /** An object of which the body is `body` before the steps. */
  function BodyAfter(body: Body, o: Ref, steps: seq<Step>): Body {
    if body.Array? && body.isMutable && body.owning then body.(items := ItemsAfter(body.items, o, steps)) else body
  }

  lemma NoSteps(body: Body, o: Ref)
    ensures BodyAfter(body, o, []) == body
  {
    if body.Array? {
      assert body == Array(body.items, body.isMutable, body.owning);
    }
  }

  lemma OneStored(body: Body, o: Ref, step: Step)
    ensures BodyAfter(body, o, [step]) ==
            if step.Store? && step.array_ == o && body.Array? && body.isMutable && body.owning
            then body.(items := body.items + [step.object_]) else body
  {
    if body.Array? {
      assert body == Array(body.items, body.isMutable, body.owning);
      var items := if step.Store? && step.array_ == o then body.items + [step.object_] else body.items;
      assert [step][1..] == [];
      assert ItemsAfter(body.items, o, [step]) == ItemsAfter(items, o, [step][1..]);
    }
  }

  /** Bodies change by storing only; only `Make` makes an object, and only `Free` takes one away. */
  ghost predicate ObjectsAsDue(s: State, step: Step, s': State) {
    && (forall o :: o in s.heap && o in s'.heap ==>
          s'.heap[o].isStack == s.heap[o].isStack && s'.heap[o].body == BodyAfter(s.heap[o].body, o, [step]))
    && (forall o :: o in s'.heap && o !in s.heap ==> step.Make? && step.object_ == o)
    && (step.Make? ==> step.object_ in s'.heap && s'.heap[step.object_] == Object(false, 1, step.body))
    && (forall o :: o in s.heap && o !in s'.heap ==>
          && step.Free? && step.thread in s.stacks && s.stacks[step.thread] != []
          && Top(s.stacks[step.thread]).object_ == o)
  }

  lemma NothingStored(h: Heap, step: Step)
    requires !step.Store?
    ensures forall o :: o in h ==> BodyAfter(h[o].body, o, [step]) == h[o].body
  {
    forall o | o in h
      ensures BodyAfter(h[o].body, o, [step]) == h[o].body
    {
      OneStored(h[o].body, o, step);
    }
  }

  lemma BodiesStay(s: State, step: Step)
    requires Inv(s, multiset{}) && Allowed(s, step) && Next(s, step).Running?
    requires step.Retain? || step.Release? || step.ReleaseSlot? || step.Pass?
    ensures ObjectsAsDue(s, step, Next(s, step).state)
  {
    hide Inv, Next, Allowed, BodyAfter, OthersWait, Gains, Loses;
    NothingStored(s.heap, step);
    match step
    case Retain(t, x) => RetainDoes(s, t, x);
    case Release(t, x) => ReleaseDoes(s, t, x);
    case ReleaseSlot(t) => var _, _ := SlotDoes(s, t);
    case Pass(t, x, to) => PassDoes(s, t, x, to);
  }

  lemma FreeTakesOne(s: State, t: Thread)
    requires Inv(s, multiset{}) && Allowed(s, Free(t)) && Next(s, Free(t)).Running?
    ensures ObjectsAsDue(s, Free(t), Next(s, Free(t)).state)
  {
    hide Inv, Next, Allowed, BodyAfter;
    NothingStored(s.heap, Free(t));
    var _ := FreeDoes(s, t);
  }

  lemma MakeMakesOne(s: State, t: Thread, r: Ref, body: Body)
    requires Allowed(s, Make(t, r, body)) && Next(s, Make(t, r, body)).Running?
    ensures ObjectsAsDue(s, Make(t, r, body), Next(s, Make(t, r, body)).state)
  {
    hide Next, Allowed, BodyAfter, Children;
    NothingStored(s.heap, Make(t, r, body));
    MakeDoes(s, t, r, body);
  }

  lemma StoreAddsOne(s: State, t: Thread, a: Ref, x: Ref)
    requires Allowed(s, Store(t, a, x)) && Next(s, Store(t, a, x)).Running?
    ensures ObjectsAsDue(s, Store(t, a, x), Next(s, Store(t, a, x)).state)
  {
    hide Next, Allowed, BodyAfter;
    StoreDoes(s, t, a, x);
    forall o | o in s.heap
      ensures Next(s, Store(t, a, x)).state.heap[o].body == BodyAfter(s.heap[o].body, o, [Store(t, a, x)])
    {
      OneStored(s.heap[o].body, o, Store(t, a, x));
    }
  }

  lemma ObjectsStep(s: State, step: Step)
    requires Inv(s, multiset{}) && Allowed(s, step)
    ensures Next(s, step).Running? && ObjectsAsDue(s, step, Next(s, step).state)
  {
    hide Inv, Next, Allowed, ObjectsAsDue;
    StepKeeps(s, step);
    match step
    case Free(t) => FreeTakesOne(s, t);
    case Make(t, x, body) => MakeMakesOne(s, t, x, body);
    case Store(t, a, x) => StoreAddsOne(s, t, a, x);
    case _ => BodiesStay(s, step);
  }

  lemma BodyAfterMore(body: Body, o: Ref, steps: seq<Step>)
    requires steps != []
    ensures BodyAfter(BodyAfter(body, o, [steps[0]]), o, steps[1..]) == BodyAfter(body, o, steps)
  {
    OneStored(body, o, steps[0]);
  }

  /** The log of freed objects grows with every deallocation, and only then. */
  ghost predicate FreedAsDue(s: State, step: Step, s': State) {
    if step.Free? then |s'.freed| == |s.freed| + 1 && s.freed <= s'.freed else s'.freed == s.freed
  }

  lemma FreedStep(s: State, step: Step)
    requires Inv(s, multiset{}) && Allowed(s, step)
    ensures Next(s, step).Running? && FreedAsDue(s, step, Next(s, step).state)
  {
    hide Inv, Next, Allowed, OthersWait, SameBodies, Gains, Loses, Children;
    StepKeeps(s, step);
    match step
    case Retain(t, x) => RetainDoes(s, t, x);
    case Release(t, x) => ReleaseDoes(s, t, x);
    case ReleaseSlot(t) => var _, _ := SlotDoes(s, t);
    case Free(t) => var _ := FreeDoes(s, t);
    case Make(t, x, body) => MakeDoes(s, t, x, body);
    case Store(t, a, x) => StoreDoes(s, t, a, x);
    case Pass(t, x, to) => PassDoes(s, t, x, to);
  }

  lemma StillFreed(s: State, step: Step, o: Ref)
    requires Inv(s, multiset{}) && Allowed(s, step) && WasFreed(s, o)
    ensures Next(s, step).Running? && WasFreed(Next(s, step).state, o)
  {
    hide Inv, Next, Allowed;
    FreedStep(s, step);
    var i :| 0 <= i < |s.freed| && s.freed[i].object_ == o;
    assert Next(s, step).state.freed[i] == s.freed[i];
  }

  lemma {:induction false} FreedStays(s: State, steps: seq<Step>, o: Ref)
    requires Inv(s, multiset{}) && IsRun(s, steps) && WasFreed(s, o)
    ensures Final(s, steps).Running? && WasFreed(Final(s, steps).state, o)
    decreases |steps|
  {
    hide Inv, Allowed, Next, WasFreed;
    if steps != [] {
      StepKeeps(s, steps[0]);
      StillFreed(s, steps[0], o);
      FreedStays(Next(s, steps[0]).state, steps[1..], o);
    }
  }

  lemma FreedIsGone(s: State, o: Ref)
    requires Inv(s, multiset{}) && o in s.heap
    ensures !WasFreed(s, o)
  {
    forall i | 0 <= i < |s.freed|
      ensures s.freed[i].object_ != o
    {
      assert s.freed[i] in s.freed;
    }
  }

  lemma {:induction false} BodyInRun(s: State, steps: seq<Step>, o: Ref)
    requires Inv(s, multiset{}) && IsRun(s, steps) && o in s.heap
    ensures Final(s, steps).Running?
    ensures var s' := Final(s, steps).state;
            o in s'.heap ==>
              s'.heap[o].isStack == s.heap[o].isStack && s'.heap[o].body == BodyAfter(s.heap[o].body, o, steps)
    decreases |steps|
  {
    hide Inv, Next, Allowed, BodyAfter, WasFreed;
    RunKeeps(s, steps);
    if steps == [] {
      assert BodyAfter(s.heap[o].body, o, []) == s.heap[o].body by {
        NoSteps(s.heap[o].body, o);
      }
    } else {
      StepKeeps(s, steps[0]);
      ObjectsStep(s, steps[0]);
      var s1 := Next(s, steps[0]).state;
      if o in s1.heap {
        BodyInRun(s1, steps[1..], o);
        BodyAfterMore(s.heap[o].body, o, steps);
      } else {
        StaysOrFreed(s, steps[0], o);
        FreedStays(s1, steps[1..], o);
        if o in Final(s, steps).state.heap {
          FreedIsGone(Final(s, steps).state, o);
          assert false;
        }
      }
    }
  }

  /** What a run makes and does not free is as it was made, with what was stored in it since. */
  lemma {:induction false} MadeIsKept(s: State, steps: seq<Step>, i: nat)
    requires Inv(s, multiset{}) && IsRun(s, steps) && i < |steps| && steps[i].Make?
    ensures Final(s, steps).Running?
    ensures var s', o := Final(s, steps).state, steps[i].object_;
            o in s'.heap ==> !s'.heap[o].isStack && s'.heap[o].body == BodyAfter(steps[i].body, o, steps[i + 1..])
    decreases |steps|
  {
    hide Inv, Allowed, BodyAfter, WasFreed, Next;
    RunKeeps(s, steps);
    StepKeeps(s, steps[0]);
    var s1, o := Next(s, steps[0]).state, steps[i].object_;
    if i == 0 {
      ObjectsStep(s, steps[0]);
      BodyInRun(s1, steps[1..], o);
    } else {
      MadeIsKept(s1, steps[1..], i - 1);
      assert steps[1..][i..] == steps[i + 1..];
    }
  }

  // ---------------------------------------------------------------------------
  // Deinits end
  // ---------------------------------------------------------------------------

  /** What deinits may still have to do: the references that objects hold, and the objects there are. */
  ghost function Load(s: State): nat {
    |Total(s.holds)| + |s.heap|
  }

  predicate IsDeinitStep(step: Step, t: Thread) {
    step == ReleaseSlot(t) || step == Free(t)
  }

  lemma TakenSize(m: Holdings, d: Ref, c: Ref)
    requires d in m && c in m[d]
    ensures |Total(m[d := m[d] - multiset{c}])| == |Total(m)| - 1
  {
    TotalLoses(m, d, c);
    assert |Total(m[d := m[d] - multiset{c}]) + multiset{c}| == |Total(m[d := m[d] - multiset{c}])| + 1;
  }

  lemma SameSize(h: Heap, h': Heap)
    requires SameBodies(h, h')
    ensures |h'| == |h|
  {
    assert |h'| == |h'.Keys| && |h| == |h.Keys|;
  }

  lemma OneFewer(h: Heap, d: Ref)
    requires d in h
    ensures |h - {d}| == |h| - 1
  {
    assert (h - {d}).Keys == h.Keys - {d};
    assert |h - {d}| == |(h - {d}).Keys| && |h| == |h.Keys|;
  }

  lemma SlotIsLess(s: State, t: Thread)
    requires Inv(s, multiset{}) && Allowed(s, ReleaseSlot(t)) && Next(s, ReleaseSlot(t)).Running?
    ensures Load(Next(s, ReleaseSlot(t)).state) == Load(s) - 1
    ensures Next(s, ReleaseSlot(t)).state.owned == s.owned && OthersWait(s, t, Next(s, ReleaseSlot(t)).state)
  {
    hide Inv, Next, Allowed, SameBodies, OthersWait;
    var d, c := SlotDoes(s, t);
    TakenSize(s.holds, d, c);
    SameSize(s.heap, Next(s, ReleaseSlot(t)).state.heap);
  }

  lemma FreeIsLess(s: State, t: Thread)
    requires Inv(s, multiset{}) && Allowed(s, Free(t)) && Next(s, Free(t)).Running?
    ensures Load(Next(s, Free(t)).state) == Load(s) - 1
    ensures Next(s, Free(t)).state.owned == s.owned && OthersWait(s, t, Next(s, Free(t)).state)
  {
    hide Inv, Next, Allowed;
    var d := FreeDoes(s, t);
    TotalWithout(s.holds, d);
    assert Total(s.holds - {d}) == Total(s.holds);
    OneFewer(s.heap, d);
  }

  /** Each step of a deinit leaves one thing less to do, and concerns its thread only. */
  lemma DeinitStep(s: State, step: Step, t: Thread)
    requires Inv(s, multiset{}) && Allowed(s, step) && IsDeinitStep(step, t)
    ensures Next(s, step).Running? && Load(Next(s, step).state) == Load(s) - 1
    ensures Next(s, step).state.owned == s.owned && OthersWait(s, t, Next(s, step).state)
  {
    hide Inv, Next, Allowed, Load, OthersWait;
    StepKeeps(s, step);
    if step == Free(t) {
      FreeIsLess(s, t);
    } else {
      SlotIsLess(s, t);
    }
  }

  /** A thread in a deinit has a next step, whatever the others do. */
  lemma DeinitGoesOn(s: State, t: Thread) returns (step: Step)
    requires Inv(s, multiset{}) && t in s.stacks && s.stacks[t] != []
    ensures IsDeinitStep(step, t) && Allowed(s, step)
  {
    SameThreads(s);
    TopFrame(s, t);
    hide Inv;
    var frame := Top(s.stacks[t]);
    step := if frame.next < |Children(s.heap[frame.object_].body)| then ReleaseSlot(t) else Free(t);
  }

  /** And it has ended after no more steps than there was to do. */
  lemma {:induction false} DeinitEnds(s: State, t: Thread) returns (steps: seq<Step>)
    requires Inv(s, multiset{}) && t in s.stacks
    ensures IsRun(s, steps) && |steps| <= Load(s) && forall i :: 0 <= i < |steps| ==> IsDeinitStep(steps[i], t)
    ensures Final(s, steps).Running?
    ensures var s' := Final(s, steps).state; OthersWait(s, t, s') && s'.stacks[t] == [] && s'.owned == s.owned
    decreases Load(s)
  {
    hide Inv, Next, Allowed, Load;
    if s.stacks[t] == [] {
      steps := [];
    } else {
      var step := DeinitGoesOn(s, t);
      StepKeeps(s, step);
      DeinitStep(s, step, t);
      var s1 := Next(s, step).state;
      var rest := DeinitEnds(s1, t);
      steps := [step] + rest;
      assert steps[1..] == rest;
    }
  }

  /** No deinits, of however many threads, go on for longer than that. */
  lemma {:induction false} DeinitsAreBounded(s: State, steps: seq<Step>)
    requires Inv(s, multiset{}) && IsRun(s, steps)
    requires forall i :: 0 <= i < |steps| ==> IsDeinitStep(steps[i], steps[i].thread)
    ensures |steps| <= Load(s)
    decreases |steps|
  {
    hide Inv, Next, Allowed, Load;
    if steps != [] {
      StepKeeps(s, steps[0]);
      DeinitStep(s, steps[0], steps[0].thread);
      DeinitsAreBounded(Next(s, steps[0]).state, steps[1..]);
    }
  }

  // ---------------------------------------------------------------------------
  // What is left
  // ---------------------------------------------------------------------------

  lemma {:induction false} RunsJoin(s: State, steps: seq<Step>, more: seq<Step>)
    requires IsRun(s, steps) && Final(s, steps).Running? && IsRun(Final(s, steps).state, more)
    ensures IsRun(s, steps + more) && Final(s, steps + more) == Final(Final(s, steps).state, more)
    decreases |steps|
  {
    hide Next, Allowed;
    if steps == [] {
      assert steps + more == more;
    } else {
      RunsJoin(Next(s, steps[0]).state, steps[1..], more);
      assert (steps + more)[1..] == steps[1..] + more;
    }
  }

  /** No thread is in a deinit. */
  predicate Idle(s: State) {
    forall t :: t in s.stacks ==> s.stacks[t] == []
  }

  /** No thread owns a reference. */
  predicate OwnsNothing(s: State) {
    forall t :: t in s.owned ==> s.owned[t] == multiset{}
  }

  /** The threads that are in a deinit finish it. */
  lemma {:induction false} AllFinish(s: State, ts: set<Thread>) returns (steps: seq<Step>)
    requires Inv(s, multiset{}) && ts <= s.stacks.Keys && forall t :: t in s.stacks && t !in ts ==> s.stacks[t] == []
    ensures IsRun(s, steps) && Final(s, steps).Running? && Inv(Final(s, steps).state, multiset{})
    ensures Idle(Final(s, steps).state) && Final(s, steps).state.owned == s.owned
    decreases ts
  {
    hide Inv, Next, Allowed, Load;
    if ts == {} {
      steps := [];
    } else {
      var t :| t in ts;
      var first := DeinitEnds(s, t);
      RunKeeps(s, first);
      var s1 := Final(s, first).state;
      var rest := AllFinish(s1, ts - {t});
      RunsJoin(s, first, rest);
      RunKeeps(s, first + rest);
      steps := first + rest;
    }
  }

  lemma SomeOwner(s: State) returns (t: Thread, r: Ref)
    requires !OwnsNothing(s)
    ensures t in s.owned && r in s.owned[t]
  {
    t :| t in s.owned && s.owned[t] != multiset{};
    r :| r in s.owned[t];
  }

  lemma ReleaseIsLess(s: State, t: Thread, r: Ref)
    requires Inv(s, multiset{}) && Idle(s) && t in s.owned && r in s.owned[t]
    ensures Allowed(s, Release(t, r)) && Next(s, Release(t, r)).Running?
    ensures var s' := Next(s, Release(t, r)).state;
            |Total(s'.owned)| == |Total(s.owned)| - 1 && s'.stacks.Keys == s.stacks.Keys
  {
    SameThreads(s);
    StepKeeps(s, Release(t, r));
    hide Inv, Next;
    ReleaseDoes(s, t, r);
    TakenSize(s.owned, t, r);
  }

  /** From every state the threads can release all they own, and finish. */
  lemma {:induction false} AllReleased(s: State) returns (steps: seq<Step>)
    requires Inv(s, multiset{}) && Idle(s)
    ensures IsRun(s, steps) && Final(s, steps).Running? && Inv(Final(s, steps).state, multiset{})
    ensures Idle(Final(s, steps).state) && OwnsNothing(Final(s, steps).state)
    decreases |Total(s.owned)|
  {
    hide Inv, Next, Allowed, Idle, OwnsNothing;
    if OwnsNothing(s) {
      steps := [];
    } else {
      var t, r := SomeOwner(s);
      ReleaseIsLess(s, t, r);
      StepKeeps(s, Release(t, r));
      var s1 := Next(s, Release(t, r)).state;
      var finish := AllFinish(s1, s1.stacks.Keys);
      var rest := AllReleased(Final(s1, finish).state);
      RunsJoin(s1, finish, rest);
      RunKeeps(s1, finish + rest);
      steps := [Release(t, r)] + (finish + rest);
      assert steps[1..] == finish + rest;
    }
  }

  /** Threads make objects on the heap only. */
  ghost predicate NoneOnStack(s: State) {
    forall o :: o in s.heap ==> !s.heap[o].isStack
  }

  lemma {:induction false} NoneEverOnStack(s: State, steps: seq<Step>)
    requires Inv(s, multiset{}) && IsRun(s, steps) && NoneOnStack(s)
    ensures Final(s, steps).Running? && NoneOnStack(Final(s, steps).state)
    decreases |steps|
  {
    hide Inv, Next, Allowed, BodyAfter;
    if steps != [] {
      StepKeeps(s, steps[0]);
      var s1 := Next(s, steps[0]).state;
      ObjectsStep(s, steps[0]);
      NoneEverOnStack(s1, steps[1..]);
    }
  }

  lemma LastIsGone(s: State, t: Thread, o: Ref)
    requires Inv(s, multiset{}) && Idle(s) && Saw(s.last, t, o)
    ensures o !in s.heap
  {
    assert Explained(s, Event(t, o));
  }

  /** When no deinit is running, every object accounts for exactly its children. */
  lemma IdleIsAtRest(s: State)
    requires Inv(s, multiset{}) && Idle(s) && NoneOnStack(s)
    ensures AtRest(s.heap, s.holds, Total(s.owned))
  {
    assert Total(s.owned) + multiset{} == Total(s.owned);
    forall o, t | Saw(s.last, t, o)
      ensures o !in s.heap
    {
      LastIsGone(s, t, o);
    }
    hide Counted;
  }

  /**
   * In every interleaving: once no deinit is running and no thread owns a reference, what is left are objects that are
   * on cycles of references or held from them; nothing, if and only if there are no cycles.
   */
  lemma OnlyCyclesAreLeft(threads: set<Thread>, steps: seq<Step>)
    requires IsRun(Initial(threads), steps) && Final(Initial(threads), steps).Running?
    requires Idle(Final(Initial(threads), steps).state) && OwnsNothing(Final(Initial(threads), steps).state)
    ensures var s := Final(Initial(threads), steps).state;
            && (forall o :: o in s.heap ==> exists p :: Explains(s.holds, multiset{}, p, o))
            && (s.heap == map[] <==> Acyclic(s.holds))
            && s.holds.Keys == s.heap.Keys
            && (forall o :: o in s.heap ==> s.holds[o] == multiset(Children(s.heap[o].body)))
  {
    InitialHolds(threads);
    RunKeeps(Initial(threads), steps);
    NoneEverOnStack(Initial(threads), steps);
    var s := Final(Initial(threads), steps).state;
    IdleIsAtRest(s);
    NothingOwned(s.owned);
    hide Inv, IsRun, Final, Idle, OwnsNothing, Explains, Acyclic, Counted;
    OnlyCyclesLeak(s.heap, s.holds);
    assert s.heap == map[] <==> forall o :: o in s.heap ==> s.heap[o].isStack;
    forall o | o in s.heap
      ensures exists p :: Explains(s.holds, multiset{}, p, o)
    {
      var p := AllocatedIsExplained(s.heap, s.holds, multiset{}, o);
    }
  }

  /** And every run can be continued to that point. */
  lemma CanBeGivenUp(threads: set<Thread>, steps: seq<Step>) returns (more: seq<Step>)
    requires IsRun(Initial(threads), steps)
    ensures IsRun(Initial(threads), steps + more) && Final(Initial(threads), steps + more).Running?
    ensures var s := Final(Initial(threads), steps + more).state; Idle(s) && OwnsNothing(s)
  {
    InitialHolds(threads);
    RunKeeps(Initial(threads), steps);
    var s := Final(Initial(threads), steps).state;
    hide Inv, Idle, OwnsNothing;
    var finish := AllFinish(s, s.stacks.Keys);
    var release := AllReleased(Final(s, finish).state);
    RunsJoin(s, finish, release);
    RunsJoin(Initial(threads), steps, finish + release);
    more := finish + release;
  }

  /** A thread that is not in a deinit may do what it likes with the references it owns. */
  lemma OwnerMay(s: State, t: Thread, r: Ref, a: Ref, to: Thread)
    requires t in s.owned && t in s.stacks && s.stacks[t] == [] && r in s.owned[t] && a in s.owned[t] && to in s.owned
    ensures Allowed(s, Retain(t, r)) && Allowed(s, Release(t, r)) && Allowed(s, Pass(t, r, to))
    ensures Allowed(s, Store(t, a, r))
    ensures forall o :: o !in s.heap && !WasFreed(s, o) ==> Allowed(s, Make(t, o, Array([r], true, true)))
  {
    assert multiset([r]) <= s.owned[t];
  }
}
