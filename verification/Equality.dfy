/** `EFEqual` decides equality of the trees that two objects unfold to, whatever pointers they share. */
module Equality {
  import opened Counting
  import opened Utf8

  /** What equality looks at. A leaf is an object of a class without an `equal` handler. */
  datatype Node =
    | Text(bytes: seq<UInt8>)
    | List(items: seq<Ref>, objectCallbacks: bool)
    | Leaf(typeID: nat)

  type Graph = map<Ref, Node>

  /**
   * What an object stands for. An array with the default callbacks, which have no `equal`, stands for no more than its
   * number of items.
   */
  datatype Tree =
    | Null
    | TextTree(bytes: seq<UInt8>)
    | ListTree(items: seq<Tree>)
    | CountTree(count: nat)
    | LeafTree(object_: Ref)

  ghost predicate IsObject(g: Graph, r: Ref) {
    r == 0 || r in g
  }

  /** The objects are finitely nested: an array ranks above the items it compares. */
  ghost predicate Ranked(g: Graph, rank: map<Ref, nat>) {
    && g.Keys <= rank.Keys
    && forall r, i :: r in g && g[r].List? && g[r].objectCallbacks && 0 <= i < |g[r].items| ==>
         IsObject(g, g[r].items[i]) && (g[r].items[i] in g ==> rank[g[r].items[i]] < rank[r])
  }

  ghost function RankOf(g: Graph, rank: map<Ref, nat>, r: Ref): nat
    requires g.Keys <= rank.Keys
  {
    if r in g then rank[r] + 1 else 0
  }

  ghost function Unfold(g: Graph, rank: map<Ref, nat>, r: Ref): Tree
    requires Ranked(g, rank) && IsObject(g, r)
    decreases RankOf(g, rank, r)
  {
    if r == 0 || r !in g then Null else
      match g[r]
      case Text(bytes) => TextTree(bytes)
      case Leaf(_) => LeafTree(r)
      case List(items, objectCallbacks) =>
        if objectCallbacks then ListTree(seq(|items|, i requires 0 <= i < |items| => Unfold(g, rank, items[i])))
        else CountTree(|items|)
  }

  /** The type IDs of strings, arrays and the rest are different. */
  predicate SameType(x: Node, y: Node) {
    match x
    case Text(_) => y.Text?
    case List(_, _) => y.List?
    case Leaf(typeID) => y == Leaf(typeID)
  }

  /** The items are equal one by one: the same pointers, or objects that unfold to the same tree. */
  ghost predicate SameItems(g: Graph, rank: map<Ref, nat>, xs: seq<Ref>, ys: seq<Ref>)
    requires Ranked(g, rank)
  {
    && |xs| == |ys|
    && forall i :: 0 <= i < |xs| ==>
         || xs[i] == ys[i]
         || (IsObject(g, xs[i]) && IsObject(g, ys[i]) && Unfold(g, rank, xs[i]) == Unfold(g, rank, ys[i]))
  }

  /** Two arrays with object callbacks unfold to the same tree when their items do, one by one. */
  lemma UnfoldList(g: Graph, rank: map<Ref, nat>, r1: Ref, r2: Ref)
    requires Ranked(g, rank) && r1 in g && r2 in g && g[r1].List? && g[r2].List? && 0 !in g
    ensures g[r1].objectCallbacks && g[r2].objectCallbacks ==>
              (Unfold(g, rank, r1) == Unfold(g, rank, r2) <==> SameItems(g, rank, g[r1].items, g[r2].items))
    ensures g[r1].objectCallbacks != g[r2].objectCallbacks ==> Unfold(g, rank, r1) != Unfold(g, rank, r2)
  {
    var t1, t2 := Unfold(g, rank, r1), Unfold(g, rank, r2);
    if g[r1].objectCallbacks && g[r2].objectCallbacks && t1 == t2 {
      forall i | 0 <= i < |g[r1].items|
        ensures IsObject(g, g[r1].items[i]) && IsObject(g, g[r2].items[i])
        ensures Unfold(g, rank, g[r1].items[i]) == Unfold(g, rank, g[r2].items[i])
      {
        assert t1.items[i] == t2.items[i];
      }
    }
  }

  /**
   * `__EFArrayClassEqual`. With the object callbacks it compares the items; with the default ones, which have no
   * `equal`, only how many there are.
   */
  method ArrayEqual(g: Graph, ghost rank: map<Ref, nat>, ref1: Ref, ref2: Ref) returns (equal: bool)
    requires Ranked(g, rank) && ref1 in g && ref2 in g && g[ref1].List? && g[ref2].List? && 0 !in g
    ensures equal <==> Unfold(g, rank, ref1) == Unfold(g, rank, ref2)
    ensures equal <==>
              && g[ref1].objectCallbacks == g[ref2].objectCallbacks
              && if g[ref1].objectCallbacks then SameItems(g, rank, g[ref1].items, g[ref2].items)
                 else |g[ref1].items| == |g[ref2].items|
    decreases RankOf(g, rank, ref1), 0
  {
    var list1, list2 := g[ref1], g[ref2];
    if list1.objectCallbacks != list2.objectCallbacks || |list1.items| != |list2.items| {
      UnfoldList(g, rank, ref1, ref2);
      return false;
    }
    var index := 0;
    while index < |list1.items|
      invariant 0 <= index <= |list1.items|
      invariant list1.objectCallbacks ==> SameItems(g, rank, list1.items[..index], list2.items[..index])
    {
      if list1.items[index] == list2.items[index] {
      } else if list1.objectCallbacks {
        var same := EFEqual(g, rank, list1.items[index], list2.items[index]);
        if !same {
          UnfoldList(g, rank, ref1, ref2);
          return false;
        }
      }
      index := index + 1;
    }
    if list1.objectCallbacks {
      assert list1.items[..index] == list1.items && list2.items[..index] == list2.items;
      UnfoldList(g, rank, ref1, ref2);
    }
    return true;
  }

  /** `EFEqual`. That strings are equal when their bytes are is shown in `Strings`. */
  method EFEqual(g: Graph, ghost rank: map<Ref, nat>, ref1: Ref, ref2: Ref) returns (equal: bool)
    requires Ranked(g, rank) && IsObject(g, ref1) && IsObject(g, ref2) && 0 !in g
    ensures equal <==> Unfold(g, rank, ref1) == Unfold(g, rank, ref2)
    ensures ref1 == 0 || ref2 == 0 ==> (equal <==> ref1 == ref2)
    ensures ref1 in g && ref2 in g && g[ref1].Text? ==> (equal <==> g[ref2].Text? && g[ref1].bytes == g[ref2].bytes)
    ensures ref1 in g && ref2 in g && g[ref1].Leaf? ==> (equal <==> ref1 == ref2)
    ensures ref1 in g && ref2 in g && g[ref1].List? && equal ==>
              g[ref2].List? && g[ref1].objectCallbacks == g[ref2].objectCallbacks &&
              |g[ref1].items| == |g[ref2].items|
    decreases RankOf(g, rank, ref1), 1
  {
    if ref1 == ref2 {
      return true;
    }
    if ref1 == 0 || ref2 == 0 {
      return false;
    }
    if !SameType(g[ref1], g[ref2]) {
      return false;
    }
    match g[ref1]
    case Text(bytes) => equal := bytes == g[ref2].bytes;
    case List(_, _) => equal := ArrayEqual(g, rank, ref1, ref2);
    case Leaf(_) => equal := false;
  }

  /** The tree does not depend on how the nesting is ranked, so neither does equality. */
  lemma {:induction false} UnfoldIndependent(g: Graph, rank: map<Ref, nat>, rank': map<Ref, nat>, r: Ref)
    requires Ranked(g, rank) && Ranked(g, rank') && IsObject(g, r)
    ensures Unfold(g, rank, r) == Unfold(g, rank', r)
    decreases RankOf(g, rank, r)
  {
    if r != 0 && r in g && g[r].List? && g[r].objectCallbacks {
      var items := g[r].items;
      forall i | 0 <= i < |items|
        ensures Unfold(g, rank, items[i]) == Unfold(g, rank', items[i])
      {
        UnfoldIndependent(g, rank, rank', items[i]);
      }
      assert Unfold(g, rank, r).items == Unfold(g, rank', r).items;
    }
  }

  // ---------------------------------------------------------------------------
  // What equality is
  // ---------------------------------------------------------------------------

  /** Which pairs of objects are equal, looking no further than at their items. */
  ghost predicate LooksEqual(g: Graph, eq: (Ref, Ref) -> bool, r1: Ref, r2: Ref) {
    || r1 == r2
    || (r1 in g && r2 in g &&
        match (g[r1], g[r2])
        case (Text(bytes1), Text(bytes2)) => bytes1 == bytes2
        case (List(items1, true), List(items2, true)) =>
          |items1| == |items2| && forall i :: 0 <= i < |items1| ==> eq(items1[i], items2[i])
        case (List(items1, false), List(items2, false)) => |items1| == |items2|
        case _ => false)
  }

  /** The relation is equality of objects: same pointers, same bytes, or lists of equal items or of equal length. */
  ghost predicate IsEquality(g: Graph, eq: (Ref, Ref) -> bool) {
    forall r1: Ref, r2: Ref :: IsObject(g, r1) && IsObject(g, r2) ==> (eq(r1, r2) <==> LooksEqual(g, eq, r1, r2))
  }

  lemma UnfoldLooksEqual(g: Graph, rank: map<Ref, nat>, eq: (Ref, Ref) -> bool, r1: Ref, r2: Ref)
    requires Ranked(g, rank) && IsObject(g, r1) && IsObject(g, r2) && 0 !in g
    requires forall x: Ref, y: Ref :: IsObject(g, x) && IsObject(g, y) ==>
               (eq(x, y) <==> Unfold(g, rank, x) == Unfold(g, rank, y))
    ensures eq(r1, r2) <==> LooksEqual(g, eq, r1, r2)
  {
    if r1 in g && r2 in g && g[r1].List? && g[r2].List? {
      UnfoldList(g, rank, r1, r2);
      if g[r1].objectCallbacks && g[r2].objectCallbacks && |g[r1].items| == |g[r2].items| {
        forall i | 0 <= i < |g[r1].items|
          ensures eq(g[r1].items[i], g[r2].items[i]) <==>
                  Unfold(g, rank, g[r1].items[i]) == Unfold(g, rank, g[r2].items[i])
        {
        }
      }
    }
  }

  /** Equality of the unfolded trees is such a relation. */
  lemma UnfoldIsEquality(g: Graph, rank: map<Ref, nat>) returns (eq: (Ref, Ref) -> bool)
    requires Ranked(g, rank) && 0 !in g
    ensures IsEquality(g, eq)
    ensures forall x: Ref, y: Ref :: IsObject(g, x) && IsObject(g, y) ==>
              (eq(x, y) <==> Unfold(g, rank, x) == Unfold(g, rank, y))
  {
    eq := (x: Ref, y: Ref) => IsObject(g, x) && IsObject(g, y) && Unfold(g, rank, x) == Unfold(g, rank, y);
    forall r1: Ref, r2: Ref | IsObject(g, r1) && IsObject(g, r2)
      ensures eq(r1, r2) <==> LooksEqual(g, eq, r1, r2)
    {
      UnfoldLooksEqual(g, rank, eq, r1, r2);
    }
  }

  /** And it is the only one: what objects are equal is decided by their own bytes, items and callbacks. */
  lemma {:induction false} EqualityIsUnique(g: Graph, rank: map<Ref, nat>, eq: (Ref, Ref) -> bool, r1: Ref, r2: Ref)
    requires Ranked(g, rank) && IsObject(g, r1) && IsObject(g, r2) && 0 !in g && IsEquality(g, eq)
    ensures eq(r1, r2) <==> Unfold(g, rank, r1) == Unfold(g, rank, r2)
    decreases RankOf(g, rank, r1)
  {
    var tree := UnfoldIsEquality(g, rank);
    assert eq(r1, r2) <==> LooksEqual(g, eq, r1, r2);
    assert tree(r1, r2) <==> LooksEqual(g, tree, r1, r2);
    if r1 in g && r2 in g && g[r1].List? && g[r2].List? && g[r1].objectCallbacks && g[r2].objectCallbacks {
      if |g[r1].items| == |g[r2].items| {
        forall i | 0 <= i < |g[r1].items|
          ensures eq(g[r1].items[i], g[r2].items[i]) <==> tree(g[r1].items[i], g[r2].items[i])
        {
          EqualityIsUnique(g, rank, eq, g[r1].items[i], g[r2].items[i]);
        }
      }
    }
  }

  ghost predicate IsListOf(g: Graph, r: Ref, objectCallbacks: bool, n: nat) {
    r in g && g[r].List? && g[r].objectCallbacks == objectCallbacks && |g[r].items| == n
  }

  /** For arrays with these callbacks and so many items, equality of the arrays is equality of the items. */
  ghost predicate DecidesItems(objectCallbacks: bool, n: nat) {
    forall g: Graph, rank: map<Ref, nat>, r1: Ref, r2: Ref ::
      Ranked(g, rank) && 0 !in g && IsListOf(g, r1, objectCallbacks, n) && IsListOf(g, r2, objectCallbacks, n) ==>
      (Unfold(g, rank, r1) == Unfold(g, rank, r2) <==> SameItems(g, rank, g[r1].items, g[r2].items))
  }

  /** Arrays of `n` equal leaves, of which the first differ from the second. */
  lemma DifferentItems(n: nat)
    requires n > 0
    ensures !DecidesItems(false, n)
  {
    var xs, ys := seq(n, _ => 1), seq(n, _ => 2);
    var g: Graph := map[1 := Leaf(7), 2 := Leaf(7), 3 := List(xs, false), 4 := List(ys, false)];
    var rank: map<Ref, nat> := map[1 := 0, 2 := 0, 3 := 1, 4 := 1];
    assert Ranked(g, rank) && IsListOf(g, 3, false, n) && IsListOf(g, 4, false, n);
    assert Unfold(g, rank, 1) != Unfold(g, rank, 2) && xs[0] == 1 && ys[0] == 2;
    assert !SameItems(g, rank, g[3].items, g[4].items);
    assert Unfold(g, rank, 3) == Unfold(g, rank, 4);
  }

  /** That is so exactly with the object callbacks, or when there is nothing to compare. */
  lemma DecidesItemsExactly(objectCallbacks: bool, n: nat)
    ensures DecidesItems(objectCallbacks, n) <==> objectCallbacks || n == 0
  {
    if objectCallbacks {
      forall g: Graph, rank: map<Ref, nat>, r1: Ref, r2: Ref |
        Ranked(g, rank) && 0 !in g && IsListOf(g, r1, true, n) && IsListOf(g, r2, true, n)
        ensures Unfold(g, rank, r1) == Unfold(g, rank, r2) <==> SameItems(g, rank, g[r1].items, g[r2].items)
      {
        UnfoldList(g, rank, r1, r2);
      }
    } else if n > 0 {
      DifferentItems(n);
    }
  }

  /** Two leaves, and an array of each. */
  function TwoLists(objectCallbacks: bool): Graph {
    map[1 := Leaf(7), 2 := Leaf(7), 3 := List([1], objectCallbacks), 4 := List([2], objectCallbacks)]
  }

  /** Two such arrays of different leaves are equal; with the object callbacks they are not. */
  lemma DefaultCallbacksIgnoreItems(objectCallbacks: bool)
    ensures var g, rank := TwoLists(objectCallbacks), map[1 := 0, 2 := 0, 3 := 1, 4 := 1];
            Ranked(g, rank) && (Unfold(g, rank, 3) == Unfold(g, rank, 4) <==> !objectCallbacks)
  {
    var g, rank := TwoLists(objectCallbacks), map[1 := 0, 2 := 0, 3 := 1, 4 := 1];
    UnfoldList(g, rank, 3, 4);
    if objectCallbacks {
      assert g[3].items[0] == 1 && g[4].items[0] == 2;
      assert Unfold(g, rank, 1) != Unfold(g, rank, 2);
    }
  }
}
