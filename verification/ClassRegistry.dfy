/** The class table under concurrent registrations. */
module ClassRegistry {

  /** `EF_MAX_CLASSES`. */
  const MAX_CLASSES: nat := 1024

  /** `kEFNotATypeID`. */
  const NOT_A_TYPE_ID: nat := 0

  /** A class record, by its address. */
  type Class = nat

  /** How far the registration of a class has come. */
  datatype Progress = NotStarted | GotID(id: nat) | Stamped(id: nat) | Returned(id: nat)

  /** The next ID, the published slots, the IDs written into the class records, and each class's registration. */
  datatype Registry = Registry(next: nat, table: map<nat, Class>, typeIDs: map<Class, nat>,
                               progress: map<Class, Progress>)

  function Initial(classes: set<Class>): Registry {
    Registry(1, map[], map c | c in classes :: NOT_A_TYPE_ID, map c | c in classes :: NotStarted)
  }

  /**
   * The next atomic step of the registration of `c` by `EFClassRegister`: fetch and increment the counter, write the
   * ID into the class, publish the class. Each class is registered once, by one thread.
   */
  function Step(s: Registry, c: Class): Registry
    requires c in s.progress
  {
    match s.progress[c]
    case NotStarted =>
      var id := s.next;
      s.(next := s.next + 1,
         progress := s.progress[c := if id >= MAX_CLASSES then Returned(NOT_A_TYPE_ID) else GotID(id)])
    case GotID(id) => s.(typeIDs := s.typeIDs[c := id], progress := s.progress[c := Stamped(id)])
    case Stamped(id) => s.(table := s.table[id := c], progress := s.progress[c := Returned(id)])
    case Returned(_) => s
  }

  /** Any interleaving of the registrations: which class's registration goes on next. */
  function Run(s: Registry, steps: seq<Class>): Registry
    requires forall c :: c in steps ==> c in s.progress
    decreases |steps|
  {
    if steps == [] then s else Run(Step(s, steps[0]), steps[1..])
  }

  datatype Lookup = Nothing | Found(class_: Class)

  /** `EFClassGetByID`. */
  function GetByID(s: Registry, id: nat): Lookup {
    if id == NOT_A_TYPE_ID || id >= MAX_CLASSES then Nothing
    else if id in s.table then Found(s.table[id]) else Nothing
  }

  // ---------------------------------------------------------------------------
  // The invariant
  // ---------------------------------------------------------------------------

  /** The ID a registration works with, if it has one. */
  function IDOf(p: Progress): nat {
    match p
    case NotStarted => NOT_A_TYPE_ID
    case GotID(id) => id
    case Stamped(id) => id
    case Returned(id) => id
  }

  ghost predicate ClassOk(s: Registry, c: Class)
    requires c in s.progress
  {
    var id := IDOf(s.progress[c]);
    && id < s.next && id < MAX_CLASSES
    && (s.progress[c].GotID? || s.progress[c].Stamped? ==> id >= 1)
    && (s.progress[c].Stamped? || s.progress[c].Returned? ==> c in s.typeIDs && s.typeIDs[c] == id)
    && (s.progress[c].Returned? && id >= 1 ==> id in s.table && s.table[id] == c)
  }

  ghost predicate ClassesOk(s: Registry) {
    forall c :: c in s.progress ==> ClassOk(s, c)
  }

  ghost predicate Distinct(s: Registry) {
    forall c, d :: c in s.progress && d in s.progress && c != d && IDOf(s.progress[c]) != NOT_A_TYPE_ID ==>
      IDOf(s.progress[c]) != IDOf(s.progress[d])
  }

  ghost predicate TableOk(s: Registry) {
    forall id :: id in s.table ==> id >= 1 && s.table[id] in s.progress && s.progress[s.table[id]] == Returned(id)
  }

  ghost predicate UnstampedOk(s: Registry) {
    forall c :: c in s.progress && (s.progress[c].NotStarted? || s.progress[c].GotID?) ==>
      c in s.typeIDs && s.typeIDs[c] == NOT_A_TYPE_ID
  }

  ghost predicate Inv(s: Registry) {
    && s.next >= 1 && s.typeIDs.Keys == s.progress.Keys
    && ClassesOk(s) && Distinct(s) && TableOk(s) && UnstampedOk(s)
  }

  lemma InitialHolds(classes: set<Class>)
    ensures Inv(Initial(classes))
  {
  }

  /** A slot that is published is not written again. */
  lemma SlotsStay(s: Registry, c: Class)
    requires Inv(s) && c in s.progress
    ensures forall id :: id in s.table ==> id in Step(s, c).table && Step(s, c).table[id] == s.table[id]
  {
    assert ClassOk(s, c);
  }

  lemma StepClasses(s: Registry, c: Class)
    requires Inv(s) && c in s.progress
    ensures ClassesOk(Step(s, c))
  {
    var s' := Step(s, c);
    SlotsStay(s, c);
    assert ClassOk(s, c);
    hide Distinct, TableOk;
    forall d | d in s'.progress
      ensures ClassOk(s', d)
    {
      assert ClassOk(s, d);
    }
  }

  lemma StepDistinct(s: Registry, c: Class)
    requires Inv(s) && c in s.progress
    ensures Distinct(Step(s, c))
  {
    hide TableOk, UnstampedOk;
    var s' := Step(s, c);
    forall d, e | d in s'.progress && e in s'.progress && d != e && IDOf(s'.progress[d]) != NOT_A_TYPE_ID
      ensures IDOf(s'.progress[d]) != IDOf(s'.progress[e])
    {
      assert ClassOk(s, d) && ClassOk(s, e);
    }
  }

  lemma StepTable(s: Registry, c: Class)
    requires Inv(s) && c in s.progress
    ensures TableOk(Step(s, c))
  {
    hide Distinct, UnstampedOk;
    assert ClassOk(s, c);
  }

  lemma StepUnstamped(s: Registry, c: Class)
    requires Inv(s) && c in s.progress
    ensures UnstampedOk(Step(s, c)) && Step(s, c).typeIDs.Keys == Step(s, c).progress.Keys
  {
    hide Distinct, TableOk;
    assert ClassOk(s, c);
  }

  lemma StepKeeps(s: Registry, c: Class)
    requires Inv(s) && c in s.progress
    ensures Inv(Step(s, c)) && Step(s, c).progress.Keys == s.progress.Keys
    ensures forall id :: id in s.table ==> id in Step(s, c).table && Step(s, c).table[id] == s.table[id]
  {
    SlotsStay(s, c);
    StepClasses(s, c);
    StepDistinct(s, c);
    StepTable(s, c);
    StepUnstamped(s, c);
    hide ClassesOk, Distinct, TableOk, UnstampedOk;
  }

  /** The invariant holds in every run, and what is published stays. */
  lemma {:induction false} RunKeeps(s: Registry, steps: seq<Class>)
    requires Inv(s) && forall c :: c in steps ==> c in s.progress
    ensures Inv(Run(s, steps)) && Run(s, steps).progress.Keys == s.progress.Keys
    ensures forall id :: id in s.table ==> id in Run(s, steps).table && Run(s, steps).table[id] == s.table[id]
    decreases |steps|
  {
    hide Inv, Step;
    if steps != [] {
      StepKeeps(s, steps[0]);
      RunKeeps(Step(s, steps[0]), steps[1..]);
    }
  }

  // ---------------------------------------------------------------------------
  // What callers rely on
  // ---------------------------------------------------------------------------

  lemma LookupAnswers(s: Registry, id: nat)
    requires Inv(s)
    ensures match GetByID(s, id)
            case Nothing => forall c :: c in s.progress ==> s.progress[c] != Returned(id) || id == NOT_A_TYPE_ID
            case Found(c) =>
              && c in s.progress && s.typeIDs[c] == id && 1 <= id < MAX_CLASSES
              && forall d :: d in s.progress && s.typeIDs[d] == id ==> d == c
  {
    if id in s.table {
      var c := s.table[id];
      assert s.progress[c] == Returned(id) && ClassOk(s, c);
      forall d | d in s.progress && s.typeIDs[d] == id
        ensures d == c
      {
        assert ClassOk(s, d);
      }
    } else {
      assert forall c :: c in s.progress && s.progress[c] == Returned(id) ==> ClassOk(s, c);
    }
  }

  /** In every interleaving, a lookup finds nothing, or the one class that carries the ID. */
  lemma LookupFindsTheClass(classes: set<Class>, steps: seq<Class>, id: nat)
    requires forall c :: c in steps ==> c in classes
    ensures var s := Run(Initial(classes), steps);
            s.typeIDs.Keys == classes && s.progress.Keys == classes &&
            match GetByID(s, id)
            case Nothing => forall c :: c in classes ==> s.progress[c] != Returned(id) || id == NOT_A_TYPE_ID
            case Found(c) =>
              && c in classes && s.typeIDs[c] == id && 1 <= id < MAX_CLASSES
              && forall d :: d in classes && s.typeIDs[d] == id ==> d == c
  {
    InitialHolds(classes);
    RunKeeps(Initial(classes), steps);
    var s := Run(Initial(classes), steps);
    hide Inv;
    LookupAnswers(s, id);
  }

  /** Classes that were given an ID have different ones, in the range of the table. */
  lemma AssignedIDsAreDistinct(classes: set<Class>, steps: seq<Class>, c: Class, d: Class)
    requires forall e :: e in steps ==> e in classes
    requires c in classes && d in classes && c != d
    ensures var s := Run(Initial(classes), steps);
            && c in s.typeIDs && d in s.typeIDs && s.typeIDs[c] < MAX_CLASSES
            && (s.typeIDs[c] == s.typeIDs[d] ==> s.typeIDs[c] == NOT_A_TYPE_ID)
  {
    InitialHolds(classes);
    RunKeeps(Initial(classes), steps);
    var s := Run(Initial(classes), steps);
    assert ClassOk(s, c) && ClassOk(s, d);
  }

  // ---------------------------------------------------------------------------
  // The limit
  // ---------------------------------------------------------------------------

  function Started(s: Registry): set<Class> {
    set c | c in s.progress && !s.progress[c].NotStarted?
  }

  /** Every start takes one number, and only starts beyond the limit get no ID. */
  ghost predicate Numbered(s: Registry) {
    && s.next == 1 + |Started(s)|
    && forall c :: c in s.progress && s.progress[c] == Returned(NOT_A_TYPE_ID) ==> s.next > MAX_CLASSES
  }

  lemma StepStarts(s: Registry, c: Class)
    requires c in s.progress
    ensures Started(Step(s, c)) == Started(s) + {c}
    ensures c in Started(s) <==> !s.progress[c].NotStarted?
  {
  }

  lemma StepNumbers(s: Registry, c: Class)
    requires Inv(s) && Numbered(s) && c in s.progress
    ensures Numbered(Step(s, c))
  {
    assert ClassOk(s, c);
    hide Inv;
    StepStarts(s, c);
    var s' := Step(s, c);
    assert s'.next == 1 + |Started(s')|;
    forall d | d in s'.progress && s'.progress[d] == Returned(NOT_A_TYPE_ID)
      ensures s'.next > MAX_CLASSES
    {
      assert d != c ==> s.progress[d] == Returned(NOT_A_TYPE_ID);
    }
  }

  lemma {:induction false} RunNumbers(s: Registry, steps: seq<Class>)
    requires Inv(s) && Numbered(s) && forall c :: c in steps ==> c in s.progress
    ensures Numbered(Run(s, steps))
    decreases |steps|
  {
    hide Inv, Step, Numbered;
    if steps != [] {
      StepKeeps(s, steps[0]);
      StepNumbers(s, steps[0]);
      RunNumbers(Step(s, steps[0]), steps[1..]);
    }
  }

  lemma {:induction false} FewerStarted(s: set<Class>, t: set<Class>)
    requires s <= t
    ensures |s| <= |t|
  {
    if s != {} {
      var c :| c in s;
      FewerStarted(s - {c}, t - {c});
    }
  }

  /** With no more classes than the table has slots for, every registration that returns has published its class. */
  lemma NoneIsTurnedAway(classes: set<Class>, steps: seq<Class>, c: Class)
    requires forall e :: e in steps ==> e in classes
    requires |classes| < 1024 && c in classes
    ensures var s := Run(Initial(classes), steps);
            c in s.progress && (s.progress[c].Returned? ==> GetByID(s, s.progress[c].id) == Found(c))
  {
    var s0 := Initial(classes);
    var s := Run(s0, steps);
    InitialHolds(classes);
    assert Started(s0) == {};
    RunKeeps(s0, steps);
    RunNumbers(s0, steps);
    FewerStarted(Started(s), classes);
    assert ClassOk(s, c);
  }

  // ---------------------------------------------------------------------------
  // Who gets which ID
  // ---------------------------------------------------------------------------

  /** The classes in the order in which their registrations incremented the counter. */
  function StartOrder(steps: seq<Class>): seq<Class> {
    if steps == [] then [] else
      var before, c := StartOrder(steps[..|steps| - 1]), steps[|steps| - 1];
      if c in before then before else before + [c]
  }

  lemma {:induction false} RunThenStep(s: Registry, steps: seq<Class>, c: Class)
    requires Inv(s) && c in s.progress && forall d :: d in steps ==> d in s.progress
    ensures c in Run(s, steps).progress && Run(s, steps + [c]) == Step(Run(s, steps), c)
    decreases |steps|
  {
    hide Inv, Step;
    if steps == [] {
      assert (steps + [c])[1..] == [];
    } else {
      StepKeeps(s, steps[0]);
      assert (steps + [c])[1..] == steps[1..] + [c];
      RunThenStep(Step(s, steps[0]), steps[1..], c);
    }
  }

  /** The registration that came `number`-th works with that number, or was turned away because of it. */
  ghost predicate HasNumber(p: Progress, number: nat) {
    if number < MAX_CLASSES then !p.NotStarted? && IDOf(p) == number else p == Returned(NOT_A_TYPE_ID)
  }

  /** The registrations started so far have the numbers of their places in the order. */
  ghost predicate Ordered(s: Registry, order: seq<Class>) {
    && s.next == 1 + |order|
    && (forall i :: 0 <= i < |order| ==> order[i] in s.progress && HasNumber(s.progress[order[i]], i + 1))
    && forall c :: c in s.progress && c !in order ==> s.progress[c] == NotStarted
  }

  lemma StepOrders(s: Registry, order: seq<Class>, c: Class)
    requires Inv(s) && Ordered(s, order) && c in s.progress
    ensures Ordered(Step(s, c), if c in order then order else order + [c])
  {
    assert ClassOk(s, c);
    hide Inv;
    var s', order' := Step(s, c), if c in order then order else order + [c];
    forall i | 0 <= i < |order'|
      ensures order'[i] in s'.progress && HasNumber(s'.progress[order'[i]], i + 1)
    {
      if i < |order| {
        assert order'[i] == order[i] && HasNumber(s.progress[order[i]], i + 1);
      }
    }
  }

  lemma InitialOrdered(classes: set<Class>)
    ensures Ordered(Initial(classes), []) && Initial(classes).progress.Keys == classes
  {
  }

  lemma {:induction false} RunOrders(classes: set<Class>, steps: seq<Class>)
    requires forall c :: c in steps ==> c in classes
    ensures Inv(Run(Initial(classes), steps)) && Run(Initial(classes), steps).progress.Keys == classes
    ensures Ordered(Run(Initial(classes), steps), StartOrder(steps))
  {
    hide Inv, Step, Ordered;
    InitialHolds(classes);
    InitialOrdered(classes);
    RunKeeps(Initial(classes), steps);
    if steps != [] {
      var before, c := steps[..|steps| - 1], steps[|steps| - 1];
      RunOrders(classes, before);
      RunThenStep(Initial(classes), before, c);
      assert steps == before + [c];
      StepOrders(Run(Initial(classes), before), StartOrder(before), c);
    }
  }

  /** The order has each class that took a step once, where it took its first. */
  lemma {:induction false} StartOrderIsOrder(steps: seq<Class>)
    ensures forall c :: c in StartOrder(steps) <==> c in steps
    ensures forall i, j :: 0 <= i < j < |StartOrder(steps)| ==> StartOrder(steps)[i] != StartOrder(steps)[j]
  {
    if steps != [] {
      var before, c := steps[..|steps| - 1], steps[|steps| - 1];
      StartOrderIsOrder(before);
      assert steps == before + [c];
    }
  }

  /**
   * In every interleaving IDs are given out in the order of the increments, and a registration is turned away if and
   * only if its number is past the limit.
   */
  lemma IDsInOrder(classes: set<Class>, steps: seq<Class>, c: Class)
    requires (forall e :: e in steps ==> e in classes) && c in steps
    ensures exists i :: 0 <= i < |StartOrder(steps)| && StartOrder(steps)[i] == c
    ensures forall i :: 0 <= i < |StartOrder(steps)| && StartOrder(steps)[i] == c ==>
              var s := Run(Initial(classes), steps);
              && c in s.progress
              && (s.progress[c] == Returned(NOT_A_TYPE_ID) <==> i + 1 >= MAX_CLASSES)
              && (i + 1 < MAX_CLASSES ==> IDOf(s.progress[c]) == i + 1)
  {
    RunOrders(classes, steps);
    StartOrderIsOrder(steps);
    var s, order := Run(Initial(classes), steps), StartOrder(steps);
    hide Inv;
    forall i | 0 <= i < |order| && order[i] == c
      ensures c in s.progress && HasNumber(s.progress[c], i + 1)
    {
    }
  }

  lemma {:induction false} StartOrderGrows(steps: seq<Class>, k: nat)
    requires k <= |steps|
    ensures StartOrder(steps[..k]) <= StartOrder(steps)
  {
    if k == |steps| {
      assert steps[..k] == steps;
    } else {
      StartOrderGrows(steps[..|steps| - 1], k);
      assert steps[..|steps| - 1][..k] == steps[..k];
    }
  }

  /** The classes that took a step. */
  ghost function Seen(steps: seq<Class>): set<Class> {
    set c | c in steps
  }

  lemma SeenMore(steps: seq<Class>, c: Class)
    ensures Seen(steps + [c]) == Seen(steps) + {c}
  {
  }

  lemma {:induction false} StartOrderSize(steps: seq<Class>)
    ensures |StartOrder(steps)| == |Seen(steps)|
  {
    if steps == [] {
      assert Seen(steps) == {};
    } else {
      var before, c := steps[..|steps| - 1], steps[|steps| - 1];
      StartOrderSize(before);
      StartOrderIsOrder(before);
      assert steps == before + [c] && (c in Seen(before) <==> c in before);
      SeenMore(before, c);
      hide Seen;
    }
  }

  /** The place of a class in the order is the number of those that took a step before its first. */
  lemma PlaceOf(steps: seq<Class>, k: nat) returns (i: nat)
    requires k < |steps| && steps[k] !in steps[..k]
    ensures i == |Seen(steps[..k])| < |StartOrder(steps)| && StartOrder(steps)[i] == steps[k]
  {
    i := |StartOrder(steps[..k])|;
    StartOrderSize(steps[..k]);
    StartOrderIsOrder(steps[..k]);
    StartOrderGrows(steps, k + 1);
    assert steps[..k + 1][..k] == steps[..k] && steps[..k + 1][k] == steps[k];
  }

  /** So its number is one more. */
  lemma IDsByRank(classes: set<Class>, steps: seq<Class>, k: nat)
    requires (forall e :: e in steps ==> e in classes) && k < |steps| && steps[k] !in steps[..k]
    ensures var s, number := Run(Initial(classes), steps), 1 + |Seen(steps[..k])|;
            && steps[k] in s.progress
            && var progress := s.progress[steps[k]];
               if number < 1024 then
                 progress == GotID(number) || progress == Stamped(number) || progress == Returned(number)
               else progress == Returned(0)
  {
    var i := PlaceOf(steps, k);
    RunOrders(classes, steps);
    hide Inv, Step, Run, StartOrder, Seen;
    assert HasNumber(Run(Initial(classes), steps).progress[StartOrder(steps)[i]], i + 1);
  }

  // ---------------------------------------------------------------------------
  // Registrations come to an end
  // ---------------------------------------------------------------------------

  /** How many steps of a run the registration of `c` has taken. */
  function Times(steps: seq<Class>, c: Class): nat {
    if steps == [] then 0 else (if steps[0] == c then 1 else 0) + Times(steps[1..], c)
  }

  /** How many of its three steps a registration has behind it. */
  function Stage(p: Progress): (stage: nat)
    ensures stage <= 3
  {
    match p
    case NotStarted => 0
    case GotID(_) => 1
    case Stamped(_) => 2
    case Returned(_) => 3
  }

  lemma StepAdvances(s: Registry, c: Class, d: Class)
    requires c in s.progress && d in s.progress
    ensures d in Step(s, c).progress
    ensures c != d || s.progress[c].Returned? ==> Step(s, c).progress[d] == s.progress[d]
    ensures c == d && Step(s, c).progress[c] != Returned(NOT_A_TYPE_ID) && Stage(s.progress[c]) < 3 ==>
              Stage(Step(s, c).progress[c]) == Stage(s.progress[c]) + 1
  {
  }

  /** A registration that is not turned away takes exactly three steps of its own. */
  lemma {:induction false} RunAdvances(s: Registry, steps: seq<Class>, c: Class)
    requires Inv(s) && c in s.progress && forall d :: d in steps ==> d in s.progress
    ensures var p, n := s.progress[c], Stage(s.progress[c]) + Times(steps, c);
            && c in Run(s, steps).progress
            && (p.Returned? ==> Run(s, steps).progress[c] == p)
            && (Run(s, steps).progress[c] == Returned(NOT_A_TYPE_ID) ||
                Stage(Run(s, steps).progress[c]) == if n < 3 then n else 3)
    decreases |steps|
  {
    if steps != [] {
      StepKeeps(s, steps[0]);
      StepAdvances(s, steps[0], c);
      assert steps[0] in steps;
      hide Inv, Step;
      RunAdvances(Step(s, steps[0]), steps[1..], c);
    }
  }

  lemma {:induction false} TimesMeansIn(steps: seq<Class>, c: Class)
    requires Times(steps, c) > 0
    ensures c in steps
  {
    if steps[0] != c {
      TimesMeansIn(steps[1..], c);
    }
  }

  /** What a registration that has returned leaves. */
  lemma ReturnedIsPublished(s: Registry, c: Class, number: nat)
    requires Inv(s) && c in s.progress && s.progress[c].Returned? && number >= 1
    requires s.progress[c] == Returned(NOT_A_TYPE_ID) <==> number >= MAX_CLASSES
    requires number < MAX_CLASSES ==> IDOf(s.progress[c]) == number
    ensures c in s.typeIDs
    ensures if number < 1024 then GetByID(s, number) == Found(c) && s.typeIDs[c] == number else s.typeIDs[c] == 0
  {
    assert ClassOk(s, c);
  }

  /**
   * In every interleaving a registration that has taken three steps has returned; and if it came below the limit, its
   * class is found by the ID that is its place in the order, which is written into the class.
   */
  lemma RegistrationReturns(classes: set<Class>, steps: seq<Class>, c: Class)
    requires (forall d :: d in steps ==> d in classes) && Times(steps, c) >= 3 && c in classes
    ensures var s := Run(Initial(classes), steps);
            && c in s.progress && s.progress[c].Returned? && c in s.typeIDs
            && exists i :: 0 <= i < |StartOrder(steps)| && StartOrder(steps)[i] == c &&
                 if i + 1 < 1024 then GetByID(s, i + 1) == Found(c) && s.typeIDs[c] == i + 1 else s.typeIDs[c] == 0
  {
    hide Inv, Step, GetByID, Ordered, StartOrder;
    TimesMeansIn(steps, c);
    RunOrders(classes, steps);
    InitialHolds(classes);
    RunAdvances(Initial(classes), steps, c);
    IDsInOrder(classes, steps, c);
    var i :| 0 <= i < |StartOrder(steps)| && StartOrder(steps)[i] == c;
    ReturnedIsPublished(Run(Initial(classes), steps), c, i + 1);
  }
}
