/** `EFStringComponentsSplitBySeparator`. */
module Split {
  import opened Allocation
  import opened Arrays
  import opened Encoding
  import opened Strings
  import opened Utf8

  type Bytes = seq<UInt8>

  // ---------------------------------------------------------------------------
  // What splitting means
  // ---------------------------------------------------------------------------

  predicate MatchAt(s: Bytes, i: nat, sep: Bytes) {
    i <= |s| && sep <= s[i..]
  }

  ghost predicate SeparatorFree(s: Bytes, sep: Bytes) {
    forall i: nat :: i < |s| ==> !MatchAt(s, i, sep)
  }

  /** The position of the leftmost match, or the length of the string when there is none. */
  function FirstMatch(s: Bytes, sep: Bytes): (j: nat)
    ensures j <= |s| && (j < |s| ==> j + |sep| <= |s|)
  {
    if s == [] || sep <= s then 0 else 1 + FirstMatch(s[1..], sep)
  }

  /** The components: cut at leftmost matches, with no empty component at the end. */
  function Components(s: Bytes, sep: Bytes): seq<Bytes>
    requires sep != []
    decreases |s|
  {
    var j := FirstMatch(s, sep);
    if j < |s| then [s[..j]] + Components(s[j + |sep|..], sep)
    else if s != [] then [s]
    else []
  }

  /** Whether the last match that the scan finds ends the string. */
  predicate EndsInMatch(s: Bytes, sep: Bytes)
    requires sep != []
    decreases |s|
  {
    var j := FirstMatch(s, sep);
    j < |s| && (j + |sep| == |s| || EndsInMatch(s[j + |sep|..], sep))
  }

  function Join(parts: seq<Bytes>, sep: Bytes): Bytes {
    if parts == [] then []
    else if |parts| == 1 then parts[0]
    else parts[0] + sep + Join(parts[1..], sep)
  }

  /** The number of positions where the separator matches, overlapping matches included. */
  function CountMatches(s: Bytes, sep: Bytes): nat {
    if s == [] then 0 else (if sep <= s then 1 else 0) + CountMatches(s[1..], sep)
  }

  // ---------------------------------------------------------------------------
  // The leftmost match
  // ---------------------------------------------------------------------------

  lemma {:induction false} FirstMatchFound(s: Bytes, sep: Bytes)
    ensures var j := FirstMatch(s, sep); j < |s| ==> j + |sep| <= |s| && s[j..j + |sep|] == sep && MatchAt(s, j, sep)
  {
    if s == [] {
    } else if sep <= s {
      assert s[0..] == s;
    } else {
      FirstMatchFound(s[1..], sep);
      var j := FirstMatch(s[1..], sep);
      assert s[1..][j..] == s[j + 1..];
    }
  }

  lemma {:induction false} NoEarlierMatch(s: Bytes, sep: Bytes, k: nat)
    requires k < FirstMatch(s, sep)
    ensures !MatchAt(s, k, sep)
  {
    if k == 0 {
      assert s[0..] == s;
    } else {
      NoEarlierMatch(s[1..], sep, k - 1);
      assert s[1..][k - 1..] == s[k..];
    }
  }

  /** A position that matches, and before which nothing does, is the leftmost match. */
  lemma FirstMatchIs(s: Bytes, sep: Bytes, j: nat)
    requires j <= |s| && (j < |s| ==> MatchAt(s, j, sep))
    requires forall k: nat :: k < j ==> !MatchAt(s, k, sep)
    ensures FirstMatch(s, sep) == j
  {
    FirstMatchFound(s, sep);
    if j < FirstMatch(s, sep) {
      NoEarlierMatch(s, sep, j);
    }
  }

  /** The separator is found there, and at no position before. */
  lemma FirstMatchIsLeftmost(s: Bytes, sep: Bytes)
    ensures var j := FirstMatch(s, sep); j < |s| ==> sep <= s[j..]
    ensures forall k: nat :: k < FirstMatch(s, sep) ==> !(sep <= s[k..])
  {
    FirstMatchFound(s, sep);
    forall k: nat | k < FirstMatch(s, sep)
      ensures !(sep <= s[k..])
    {
      NoEarlierMatch(s, sep, k);
    }
  }

  lemma MatchInPrefix(s: Bytes, t: Bytes, k: nat, sep: Bytes)
    requires k + |sep| <= |s|
    ensures MatchAt(s + t, k, sep) <==> MatchAt(s, k, sep)
  {
    assert (s + t)[k..] == s[k..] + t;
    assert (s + t)[k..][..|sep|] == s[k..][..|sep|];
  }

  /** The text before the leftmost match holds no match. */
  lemma HeadSeparatorFree(s: Bytes, sep: Bytes)
    requires sep != []
    ensures SeparatorFree(s[..FirstMatch(s, sep)], sep)
  {
    var j := FirstMatch(s, sep);
    var head := s[..j];
    assert s == head + s[j..];
    forall k: nat | k < j
      ensures !MatchAt(head, k, sep)
    {
      NoEarlierMatch(s, sep, k);
      if k + |sep| <= j {
        MatchInPrefix(head, s[j..], k, sep);
      }
    }
  }

  /** The leftmost match of a text is found again when the text goes on behind it, or stops right behind it. */
  lemma FirstMatchOfPrefix(s: Bytes, t: Bytes, sep: Bytes, j: nat)
    requires sep != [] && j + |sep| <= |s|
    ensures FirstMatch(s + t, sep) == j <==> FirstMatch(s, sep) == j
  {
    FirstMatchFound(s, sep);
    FirstMatchFound(s + t, sep);
    forall k: nat | k <= j
      ensures MatchAt(s + t, k, sep) <==> MatchAt(s, k, sep)
    {
      MatchInPrefix(s, t, k, sep);
    }
    if FirstMatch(s + t, sep) == j {
      forall k: nat | k < j ensures !MatchAt(s, k, sep) { NoEarlierMatch(s + t, sep, k); }
      FirstMatchIs(s, sep, j);
    }
    if FirstMatch(s, sep) == j {
      forall k: nat | k < j ensures !MatchAt(s + t, k, sep) { NoEarlierMatch(s, sep, k); }
      FirstMatchIs(s + t, sep, j);
    }
  }

  // ---------------------------------------------------------------------------
  // Laws of splitting
  // ---------------------------------------------------------------------------

  lemma InThree(s: Bytes, j: nat, k: nat)
    requires j <= k <= |s|
    ensures s == s[..j] + s[j..k] + s[k..]
  {
  }

  lemma SliceOfPrefix(s: Bytes, n: nat, j: nat, k: nat)
    requires j <= k <= n <= |s|
    ensures s[..n][..j] == s[..j] && s[..n][j..k] == s[j..k] && s[..n][k..] == s[k..][..n - k]
  {
  }

  lemma SliceOfSuffix(s: Bytes, j: nat, k: nat)
    requires j + k <= |s|
    ensures s[j..][k..] == s[j + k..]
  {
  }

  lemma CutAtFirstMatch(s: Bytes, sep: Bytes)
    requires sep != [] && FirstMatch(s, sep) < |s|
    ensures var j := FirstMatch(s, sep); j + |sep| <= |s| && s == s[..j] + sep + s[j + |sep|..]
  {
    FirstMatchFound(s, sep);
    InThree(s, FirstMatch(s, sep), FirstMatch(s, sep) + |sep|);
  }

  lemma JoinCons(head: Bytes, tail: seq<Bytes>, sep: Bytes)
    requires tail != []
    ensures Join([head] + tail, sep) == head + sep + Join(tail, sep)
  {
    assert ([head] + tail)[1..] == tail;
  }

  /**
   * Joining the components gives back the string, with one more separator exactly when the last match ends the
   * string (the code emits no empty component there).
   */
  lemma {:induction false} JoinOfSplit(s: Bytes, sep: Bytes)
    requires sep != [] && s != []
    ensures Components(s, sep) != []
    ensures s == Join(Components(s, sep), sep) + if EndsInMatch(s, sep) then sep else []
    decreases |s|
  {
    var j := FirstMatch(s, sep);
    if j < |s| {
      CutAtFirstMatch(s, sep);
      var rest := s[j + |sep|..];
      if rest != [] {
        JoinOfSplit(rest, sep);
        JoinCons(s[..j], Components(rest, sep), sep);
      } else {
        assert Components(s, sep) == [s[..j]];
      }
    } else {
      assert Components(s, sep) == [s];
    }
  }

  /** No component contains the separator. */
  lemma {:induction false} ComponentsSeparatorFree(s: Bytes, sep: Bytes)
    requires sep != []
    ensures forall k :: 0 <= k < |Components(s, sep)| ==> SeparatorFree(Components(s, sep)[k], sep)
    decreases |s|
  {
    HeadSeparatorFree(s, sep);
    var j := FirstMatch(s, sep);
    if j < |s| {
      CutAtFirstMatch(s, sep);
      ComponentsSeparatorFree(s[j + |sep|..], sep);
    } else {
      assert s[..j] == s;
    }
  }

  /** The separator is found at no position of any component. */
  lemma NotInComponents(s: Bytes, sep: Bytes, k: nat, i: nat)
    requires sep != [] && k < |Components(s, sep)| && i < |Components(s, sep)[k]|
    ensures !(sep <= Components(s, sep)[k][i..])
  {
    ComponentsSeparatorFree(s, sep);
    assert !MatchAt(Components(s, sep)[k], i, sep);
  }

  ghost predicate AllComply(encoding: StringEncoding, texts: seq<Bytes>) {
    forall k :: 0 <= k < |texts| ==> Complies(encoding, texts[k])
  }

  /** Splitting never cuts a character in two: every component complies to the encoding of the string. */
  lemma {:induction false} ComponentsComply(encoding: StringEncoding, s: Bytes, sep: Bytes)
    requires sep != [] && Complies(encoding, s) && Complies(encoding, sep)
    ensures AllComply(encoding, Components(s, sep))
    decreases |s|
  {
    var j := FirstMatch(s, sep);
    if j < |s| {
      FirstMatchFound(s, sep);
      CutAroundComplies(encoding, s, j, sep);
      ComponentsComply(encoding, s[j + |sep|..], sep);
    }
  }

  /**
   * The lists of parts of strings that do not end in a match: no separator is seen earlier than where one was put in,
   * and the last part is non-empty and holds none.
   */
  ghost predicate Splittable(parts: seq<Bytes>, sep: Bytes) {
    && parts != []
    && (if |parts| == 1 then parts[0] != [] && SeparatorFree(parts[0], sep)
        else FirstMatch(parts[0] + sep, sep) == |parts[0]| && Splittable(parts[1..], sep))
  }

  /** What splitting returns is such a list, unless the string ends in a match. */
  lemma {:induction false} ComponentsSplittable(s: Bytes, sep: Bytes)
    requires sep != [] && s != [] && !EndsInMatch(s, sep)
    ensures Splittable(Components(s, sep), sep)
    decreases |s|
  {
    var j := FirstMatch(s, sep);
    if j < |s| {
      CutAtFirstMatch(s, sep);
      var rest := s[j + |sep|..];
      ComponentsSplittable(rest, sep);
      FirstMatchOfPrefix(s[..j] + sep, rest, sep, j);
      assert Components(s, sep)[1..] == Components(rest, sep);
    } else {
      HeadSeparatorFree(s, sep);
      assert s[..j] == s;
    }
  }

  lemma CutComponents(rest: Bytes, sep: Bytes, head: Bytes, tail: Bytes)
    requires sep != [] && FirstMatch(rest, sep) < |rest|
    requires head == rest[..FirstMatch(rest, sep)] && tail == rest[FirstMatch(rest, sep) + |sep|..]
    ensures Components(rest, sep) == [head] + Components(tail, sep)
  {
  }

  lemma CutEnd(rest: Bytes, sep: Bytes, tail: Bytes)
    requires sep != [] && FirstMatch(rest, sep) < |rest|
    requires tail == rest[FirstMatch(rest, sep) + |sep|..]
    ensures EndsInMatch(rest, sep) <==> tail == [] || EndsInMatch(tail, sep)
  {
    hide FirstMatch;
  }

  /** What is left when there is no match. */
  lemma NoCut(rest: Bytes, sep: Bytes)
    requires sep != [] && FirstMatch(rest, sep) == |rest|
    ensures Components(rest, sep) == if rest == [] then [] else [rest]
    ensures !EndsInMatch(rest, sep)
  {
  }

  /** One part and a separator in front of a text are cut off again. */
  lemma SplitOfPrefixed(head: Bytes, rest: Bytes, sep: Bytes)
    requires sep != [] && FirstMatch(head + sep, sep) == |head| && rest != []
    ensures Components(head + sep + rest, sep) == [head] + Components(rest, sep)
    ensures EndsInMatch(head + sep + rest, sep) <==> EndsInMatch(rest, sep)
  {
    var s := head + sep + rest;
    FirstMatchOfPrefix(head + sep, rest, sep, |head|);
    assert s[..|head|] == head && s[|head| + |sep|..] == rest;
    CutComponents(s, sep, head, rest);
    CutEnd(s, sep, rest);
  }

  /** Splitting undoes joining. */
  lemma {:induction false} SplitOfJoin(parts: seq<Bytes>, sep: Bytes)
    requires sep != [] && Splittable(parts, sep)
    ensures Components(Join(parts, sep), sep) == parts && !EndsInMatch(Join(parts, sep), sep)
    ensures Join(parts, sep) != []
  {
    if |parts| == 1 {
      FirstMatchIs(parts[0], sep, |parts[0]|);
    } else {
      SplitOfJoin(parts[1..], sep);
      SplitOfPrefixed(parts[0], Join(parts[1..], sep), sep);
      assert parts == [parts[0]] + parts[1..];
    }
  }

  /** The lists of parts of strings that end in a match: no separator is seen earlier than behind each part. */
  ghost predicate Terminated(parts: seq<Bytes>, sep: Bytes) {
    && parts != []
    && forall k :: 0 <= k < |parts| ==> FirstMatch(parts[k] + sep, sep) == |parts[k]|
  }

  lemma {:induction false} ComponentsTerminated(s: Bytes, sep: Bytes)
    requires sep != [] && EndsInMatch(s, sep)
    ensures Terminated(Components(s, sep), sep)
    decreases |s|
  {
    var j := FirstMatch(s, sep);
    var rest := s[j + |sep|..];
    CutAtFirstMatch(s, sep);
    FirstMatchOfPrefix(s[..j] + sep, rest, sep, j);
    if rest != [] {
      ComponentsTerminated(rest, sep);
    }
  }

  lemma JoinTerminated(parts: seq<Bytes>, sep: Bytes)
    requires |parts| > 1
    ensures Join(parts, sep) + sep == parts[0] + sep + (Join(parts[1..], sep) + sep)
  {
  }

  /** Splitting undoes joining with a separator behind the last part, too. */
  lemma {:induction false} SplitOfTerminated(parts: seq<Bytes>, sep: Bytes)
    requires sep != [] && Terminated(parts, sep)
    ensures Components(Join(parts, sep) + sep, sep) == parts && EndsInMatch(Join(parts, sep) + sep, sep)
  {
    if |parts| == 1 {
      var s := parts[0] + sep;
      assert s[..|parts[0]|] == parts[0] && s[|parts[0]| + |sep|..] == [];
    } else {
      SplitOfTerminated(parts[1..], sep);
      JoinTerminated(parts, sep);
      hide Components, EndsInMatch, FirstMatch, Join;
      SplitOfPrefixed(parts[0], Join(parts[1..], sep) + sep, sep);
      assert parts == [parts[0]] + parts[1..];
    }
  }

  /** These two kinds of lists are all that splitting returns, and all of them are returned. */
  lemma SplitResults(parts: seq<Bytes>, sep: Bytes)
    requires sep != []
    ensures (exists s :: s != [] && Components(s, sep) == parts) <==> Splittable(parts, sep) || Terminated(parts, sep)
  {
    if s :| s != [] && Components(s, sep) == parts {
      if EndsInMatch(s, sep) {
        ComponentsTerminated(s, sep);
      } else {
        ComponentsSplittable(s, sep);
      }
    }
    if Splittable(parts, sep) {
      SplitOfJoin(parts, sep);
    }
    if Terminated(parts, sep) {
      SplitOfTerminated(parts, sep);
      assert Join(parts, sep) + sep != [];
    }
  }

  // ---------------------------------------------------------------------------
  // What the scan finds in memory
  // ---------------------------------------------------------------------------

  /** How many of the `n` bytes of the string are left behind the first `k`. */
  function Left(n: nat, k: nat): nat {
    if k < n then n - k else 0
  }

  /**
   * What the code cuts out of the memory at the string's address. It tests the string's `n` positions, but each test
   * may read on behind the string; behind a match that goes past the string's end nothing is left to cut.
   */
  function Pieces(mem: Bytes, n: nat, sep: Bytes): (pieces: seq<Bytes>)
    requires sep != [] && n <= |mem|
    ensures n > 0 ==> pieces != []
    decreases n
  {
    var j := FirstMatch(mem, sep);
    if j < n then [mem[..j]] + Pieces(mem[j + |sep|..], Left(n, j + |sep|), sep)
    else if n > 0 then [mem[..n]]
    else []
  }

  /** Whether the last match that the scan reaches ends the string, or goes past its end. */
  predicate Finishes(mem: Bytes, n: nat, sep: Bytes)
    requires sep != [] && n <= |mem|
    decreases n
  {
    var j := FirstMatch(mem, sep);
    j < n && (Left(n, j + |sep|) == 0 || Finishes(mem[j + |sep|..], Left(n, j + |sep|), sep))
  }

  /** Whether the scan reaches a match that goes past the end of the string. */
  predicate Overruns(mem: Bytes, n: nat, sep: Bytes)
    requires sep != [] && n <= |mem|
    decreases n
  {
    var j := FirstMatch(mem, sep);
    j < n && (j + |sep| > n || Overruns(mem[j + |sep|..], Left(n, j + |sep|), sep))
  }

  /** The number of the string's positions at which the separator is found in memory. */
  function Hits(mem: Bytes, n: nat, sep: Bytes): (hits: nat)
    requires n <= |mem|
    ensures hits <= n
  {
    if n == 0 then 0 else (if sep <= mem then 1 else 0) + Hits(mem[1..], n - 1, sep)
  }

  lemma {:induction false} HitsMore(mem: Bytes, n: nat, sep: Bytes)
    requires n < |mem|
    ensures Hits(mem, n + 1, sep) == Hits(mem, n, sep) + if sep <= mem[n..] then 1 else 0
  {
    if n == 0 {
      assert mem[0..] == mem;
    } else {
      HitsMore(mem[1..], n - 1, sep);
      assert mem[1..][n - 1..] == mem[n..];
    }
  }

  ghost function Positions(mem: Bytes, n: nat, sep: Bytes): set<nat>
    requires n <= |mem|
  {
    set i: nat | i < n && sep <= mem[i..]
  }

  lemma OneMorePosition(mem: Bytes, n: nat, sep: Bytes)
    requires n < |mem|
    ensures Positions(mem, n + 1, sep) == Positions(mem, n, sep) + if sep <= mem[n..] then {n} else {}
  {
  }

  lemma {:induction false} HitsArePositions(mem: Bytes, n: nat, sep: Bytes)
    requires n <= |mem|
    ensures Hits(mem, n, sep) == |Positions(mem, n, sep)|
  {
    if n == 0 {
      assert Positions(mem, 0, sep) == {};
    } else {
      HitsArePositions(mem, n - 1, sep);
      HitsMore(mem, n - 1, sep);
      OneMorePosition(mem, n - 1, sep);
      assert n - 1 !in Positions(mem, n - 1, sep);
      hide Positions, Hits;
    }
  }

  lemma {:induction false} HitsDrop(mem: Bytes, n: nat, sep: Bytes, k: nat)
    requires n <= |mem| && k <= |mem|
    ensures Hits(mem[k..], Left(n, k), sep) <= Hits(mem, n, sep)
  {
    if k == 0 {
      assert mem[0..] == mem;
    } else if n > 0 {
      HitsDrop(mem[1..], n - 1, sep, k - 1);
      SliceOfSuffix(mem, 1, k - 1);
    }
  }

  lemma {:induction false} HitsAtMatch(mem: Bytes, n: nat, sep: Bytes, j: nat, tail: Bytes)
    requires sep != [] && j < n <= |mem| && MatchAt(mem, j, sep) && tail == mem[j + |sep|..]
    ensures Hits(mem, n, sep) >= 1 + Hits(tail, Left(n, j + |sep|), sep)
  {
    var t := mem[1..];
    if j == 0 {
      assert mem[0..] == mem;
      SliceOfSuffix(mem, 1, |sep| - 1);
      HitsDrop(t, n - 1, sep, |sep| - 1);
    } else {
      SliceOfSuffix(mem, 1, j - 1);
      SliceOfSuffix(mem, 1, j - 1 + |sep|);
      HitsAtMatch(t, n - 1, sep, j - 1, tail);
    }
  }

  /** What cutting at the first match does to the pieces, to the number of hits, and to the end. */
  lemma CutPiece(mem: Bytes, n: nat, sep: Bytes, head: Bytes, tail: Bytes, left: nat)
    requires sep != [] && FirstMatch(mem, sep) < n <= |mem|
    requires head == mem[..FirstMatch(mem, sep)] && tail == mem[FirstMatch(mem, sep) + |sep|..]
    requires left == Left(n, FirstMatch(mem, sep) + |sep|)
    ensures left <= |tail| && Pieces(mem, n, sep) == [head] + Pieces(tail, left, sep)
    ensures Hits(mem, n, sep) >= 1 + Hits(tail, left, sep)
    ensures Finishes(mem, n, sep) <==> left == 0 || Finishes(tail, left, sep)
  {
    hide Hits;
    FirstMatchFound(mem, sep);
    HitsAtMatch(mem, n, sep, FirstMatch(mem, sep), tail);
  }

  /** The count of the first loop is room enough for every component but the one behind the last match. */
  lemma {:induction false} CountCoversComponents(mem: Bytes, n: nat, sep: Bytes)
    requires sep != [] && n <= |mem|
    ensures |Pieces(mem, n, sep)| <= Hits(mem, n, sep) + if n > 0 && !Finishes(mem, n, sep) then 1 else 0
    decreases n
  {
    var j := FirstMatch(mem, sep);
    if j < n {
      var tail, left := mem[j + |sep|..], Left(n, j + |sep|);
      CutPiece(mem, n, sep, mem[..j], tail, left);
      CountCoversComponents(tail, left, sep);
    }
  }

  /** In the string alone there is no match, if in memory there is none or only one that goes past the end. */
  lemma NoMatchInside(mem: Bytes, n: nat, sep: Bytes)
    requires sep != [] && n <= |mem| && FirstMatch(mem, sep) + |sep| > n
    ensures FirstMatch(mem[..n], sep) == n
  {
    var s := mem[..n];
    assert mem == s + mem[n..];
    forall k: nat | k < n
      ensures !MatchAt(s, k, sep)
    {
      if k + |sep| <= n {
        NoEarlierMatch(mem, sep, k);
        MatchInPrefix(s, mem[n..], k, sep);
      }
    }
    FirstMatchIs(s, sep, n);
  }

  /** A match inside the string is the string's own first match. */
  lemma MatchInside(mem: Bytes, n: nat, sep: Bytes)
    requires sep != [] && n <= |mem| && FirstMatch(mem, sep) + |sep| <= n
    ensures FirstMatch(mem[..n], sep) == FirstMatch(mem, sep)
    ensures var k := FirstMatch(mem, sep) + |sep|; mem[..n][k..] == mem[k..][..n - k]
  {
    hide FirstMatch;
    var j := FirstMatch(mem, sep);
    SliceOfPrefix(mem, n, j, j + |sep|);
    assert mem == mem[..n] + mem[n..];
    FirstMatchOfPrefix(mem[..n], mem[n..], sep, j);
  }

  lemma CutInside(mem: Bytes, n: nat, sep: Bytes, head: Bytes, tail: Bytes, left: nat)
    requires sep != [] && n <= |mem| && FirstMatch(mem, sep) + |sep| <= n
    requires head == mem[..FirstMatch(mem, sep)] && tail == mem[FirstMatch(mem, sep) + |sep|..]
    requires left == Left(n, FirstMatch(mem, sep) + |sep|)
    ensures left <= |tail| && Components(mem[..n], sep) == [head] + Components(tail[..left], sep)
    ensures EndsInMatch(mem[..n], sep) <==> left == 0 || EndsInMatch(tail[..left], sep)
    ensures Overruns(mem, n, sep) <==> Overruns(tail, left, sep)
  {
    hide FirstMatch;
    MatchInside(mem, n, sep);
    hide Components, EndsInMatch;
    CutComponents(mem[..n], sep, head, tail[..left]);
    CutEnd(mem[..n], sep, tail[..left]);
  }

  lemma SameTail(head: Bytes, xs: seq<Bytes>, ys: seq<Bytes>)
    ensures [head] + xs == [head] + ys <==> xs == ys
  {
    assert ([head] + xs)[1..] == xs && ([head] + ys)[1..] == ys;
  }

  lemma NothingLeft(mem: Bytes, sep: Bytes)
    requires sep != []
    ensures Pieces(mem, 0, sep) == [] && !Finishes(mem, 0, sep) && !Overruns(mem, 0, sep)
  {
  }

  lemma LastPiece(mem: Bytes, n: nat, sep: Bytes)
    requires sep != [] && n <= |mem| && FirstMatch(mem, sep) + |sep| > n
    ensures var j := FirstMatch(mem, sep);
            && Pieces(mem, n, sep) == (if n == 0 then [] else [mem[..if j < n then j else n]])
            && (Finishes(mem, n, sep) <==> j < n) && (Overruns(mem, n, sep) <==> j < n)
  {
    var j := FirstMatch(mem, sep);
    if j < n {
      NothingLeft(mem[j + |sep|..], sep);
    }
  }

  /**
   * The code cuts the string into its components if and only if the scan reaches no match that goes past the string's
   * end. If it does, the last component is cut off at that match.
   */
  lemma {:induction false} PiecesExactly(mem: Bytes, n: nat, sep: Bytes)
    requires sep != [] && n <= |mem|
    ensures Pieces(mem, n, sep) == Components(mem[..n], sep) <==> !Overruns(mem, n, sep)
    ensures |Pieces(mem, n, sep)| == |Components(mem[..n], sep)|
    ensures Finishes(mem, n, sep) <==> EndsInMatch(mem[..n], sep) || Overruns(mem, n, sep)
    decreases n
  {
    hide Pieces, Components, Finishes, EndsInMatch, Overruns, FirstMatch, Hits;
    var j := FirstMatch(mem, sep);
    if j + |sep| <= n {
      var tail, left := mem[j + |sep|..], Left(n, j + |sep|);
      PiecesExactly(tail, left, sep);
      CutInside(mem, n, sep, mem[..j], tail, left);
      CutPiece(mem, n, sep, mem[..j], tail, left);
      SameTail(mem[..j], Pieces(tail, left, sep), Components(tail[..left], sep));
    } else {
      NoMatchInside(mem, n, sep);
      NoCut(mem[..n], sep);
      LastPiece(mem, n, sep);
    }
  }

  /** Only the last component loses something then: the bytes with which it starts to match. */
  ghost predicate CutShort(pieces: seq<Bytes>, components: seq<Bytes>, sep: Bytes) {
    && |pieces| == |components| > 0
    && pieces[..|pieces| - 1] == components[..|pieces| - 1]
    && var last := pieces[|pieces| - 1];
    && last < components[|pieces| - 1] < last + sep
  }

  lemma CutShortLater(head: Bytes, xs: seq<Bytes>, ys: seq<Bytes>, sep: Bytes)
    requires CutShort(xs, ys, sep)
    ensures CutShort([head] + xs, [head] + ys, sep)
  {
    var n := |xs|;
    assert ([head] + xs)[..n] == [head] + xs[..n - 1];
    assert ([head] + ys)[..n] == [head] + ys[..n - 1];
  }

  lemma CutShortHere(mem: Bytes, n: nat, j: nat, sep: Bytes)
    requires j < n < j + |sep| <= |mem| && mem[j..j + |sep|] == sep
    ensures CutShort([mem[..j]], [mem[..n]], sep)
  {
    assert mem[..j] + sep == mem[..j + |sep|];
  }

  lemma {:induction false} PiecesCutShort(mem: Bytes, n: nat, sep: Bytes)
    requires sep != [] && n <= |mem| && Overruns(mem, n, sep)
    ensures CutShort(Pieces(mem, n, sep), Components(mem[..n], sep), sep)
    decreases n
  {
    hide Pieces, Components, Finishes, EndsInMatch, Overruns, FirstMatch, Hits, CutShort;
    var j := FirstMatch(mem, sep);
    if j + |sep| <= n {
      var tail, left := mem[j + |sep|..], Left(n, j + |sep|);
      CutInside(mem, n, sep, mem[..j], tail, left);
      CutPiece(mem, n, sep, mem[..j], tail, left);
      PiecesCutShort(tail, left, sep);
      CutShortLater(mem[..j], Pieces(tail, left, sep), Components(tail[..left], sep), sep);
    } else {
      NoMatchInside(mem, n, sep);
      NoCut(mem[..n], sep);
      LastPiece(mem, n, sep);
      FirstMatchFound(mem, sep);
      CutShortHere(mem, n, j, sep);
    }
  }

  lemma HeadComplies(encoding: StringEncoding, mem: Bytes, n: nat, sep: Bytes, j: nat)
    requires sep != [] && j < n <= |mem| && j + |sep| <= |mem| && mem[j..j + |sep|] == sep
    requires Complies(encoding, mem[..n]) && Complies(encoding, sep)
    ensures Complies(encoding, mem[..j])
  {
    hide Complies;
    assert mem[j] == mem[j..j + |sep|][0];
    CutBeforeStart(encoding, mem[..n], j, sep);
    SliceOfPrefix(mem, n, j, j);
  }

  lemma TailComplies(encoding: StringEncoding, mem: Bytes, n: nat, sep: Bytes, j: nat)
    requires sep != [] && j + |sep| <= n <= |mem| && mem[j..j + |sep|] == sep
    requires Complies(encoding, mem[..n]) && Complies(encoding, sep)
    ensures Complies(encoding, mem[j + |sep|..][..Left(n, j + |sep|)])
  {
    hide Complies;
    SliceOfPrefix(mem, n, j, j + |sep|);
    CutAroundComplies(encoding, mem[..n], j, sep);
    assert mem[..n][j + |sep|..] == mem[j + |sep|..][..Left(n, j + |sep|)];
  }

  /** Every piece complies to the encoding of the string, even when a match goes past the end. */
  lemma {:induction false} PiecesComply(encoding: StringEncoding, mem: Bytes, n: nat, sep: Bytes)
    requires sep != [] && n <= |mem| && Complies(encoding, mem[..n]) && Complies(encoding, sep)
    ensures AllComply(encoding, Pieces(mem, n, sep))
    decreases n
  {
    var j := FirstMatch(mem, sep);
    if j < n {
      var head, tail, left := mem[..j], mem[j + |sep|..], Left(n, j + |sep|);
      CutPiece(mem, n, sep, head, tail, left);
      FirstMatchFound(mem, sep);
      hide Complies, FirstMatch;
      HeadComplies(encoding, mem, n, sep, j);
      if left > 0 {
        TailComplies(encoding, mem, n, sep, j);
        PiecesComply(encoding, tail, left, sep);
      } else {
        NothingLeft(tail, sep);
      }
    }
  }

  /** `strncmp` at a position does not read behind the caller's memory: it ends there, or at a difference before. */
  ghost predicate Readable(mem: Bytes, i: nat, sep: Bytes) {
    i + |sep| <= |mem| || exists k: nat :: k < |sep| && i + k < |mem| && mem[i + k] != sep[k]
  }

  /** And so at all positions of the string. */
  ghost predicate AllReadable(mem: Bytes, n: nat, sep: Bytes) {
    forall i: nat :: i < n ==> Readable(mem, i, sep)
  }

  /** A NUL at the string's end, or anywhere behind it, stops all of them. */
  lemma NulStops(mem: Bytes, n: nat, sep: Bytes, z: nat)
    requires NulFree(sep) && n <= z < |mem| && mem[z] == 0
    ensures AllReadable(mem, n, sep)
  {
    forall i: nat | i < n && i + |sep| > |mem|
      ensures Readable(mem, i, sep)
    {
      assert sep[z - i] in sep && mem[i + (z - i)] != sep[z - i];
    }
  }

  lemma NoMatchOverNul(mem: Bytes, n: nat, sep: Bytes)
    requires NulFree(sep) && n < |mem| && mem[n] == 0
    ensures forall j: nat :: j <= n && MatchAt(mem, j, sep) ==> j + |sep| <= n
  {
    forall j: nat | j <= n && j + |sep| > n
      ensures !MatchAt(mem, j, sep)
    {
      assert sep[n - j] in sep && mem[j..][n - j] == 0;
    }
  }

  lemma {:induction false} TerminatedHits(mem: Bytes, n: nat, sep: Bytes)
    requires NulFree(sep) && n < |mem| && mem[n] == 0
    ensures Hits(mem, n, sep) == CountMatches(mem[..n], sep)
  {
    if n > 0 {
      var s := mem[..n];
      assert s[1..] == mem[1..][..n - 1];
      TerminatedHits(mem[1..], n - 1, sep);
      NoMatchOverNul(mem, n, sep);
      assert mem[0..] == mem && (MatchAt(mem, 0, sep) <==> sep <= mem);
      if |sep| <= n {
        assert mem[..|sep|] == s[..|sep|];
      }
    }
  }

  lemma {:induction false} TerminatedStays(mem: Bytes, n: nat, sep: Bytes)
    requires sep != [] && NulFree(sep) && n < |mem| && mem[n] == 0
    ensures !Overruns(mem, n, sep)
    decreases n
  {
    hide Overruns, FirstMatch, Pieces, Finishes, Components, EndsInMatch;
    FirstMatchFound(mem, sep);
    NoMatchOverNul(mem, n, sep);
    var j := FirstMatch(mem, sep);
    if j + |sep| <= n {
      var tail, left := mem[j + |sep|..], Left(n, j + |sep|);
      TerminatedStays(tail, left, sep);
      CutInside(mem, n, sep, mem[..j], tail, left);
    } else {
      LastPiece(mem, n, sep);
    }
  }

  /** For a terminated string all this is about its text. */
  lemma TerminatedIsText(mem: Bytes, n: nat, sep: Bytes)
    requires sep != [] && NulFree(sep) && n < |mem| && mem[n] == 0
    ensures AllReadable(mem, n, sep) && Hits(mem, n, sep) == CountMatches(mem[..n], sep)
    ensures Pieces(mem, n, sep) == Components(mem[..n], sep)
    ensures Finishes(mem, n, sep) <==> EndsInMatch(mem[..n], sep)
  {
    NulStops(mem, n, sep, n);
    TerminatedHits(mem, n, sep);
    TerminatedStays(mem, n, sep);
    PiecesExactly(mem, n, sep);
  }

  /** Where the scan goes on after position `i`: `i += length - 1` in the body and `i++` in the loop header. */
  function ScanNext(mem: Bytes, sep: Bytes, i: nat): int {
    if MatchAt(mem, i, sep) then i + (|sep| - 1) + 1 else i + 1
  }

  /** The scan makes progress from every position exactly when the separator is not empty. */
  lemma ScanProgress(s: Bytes, sep: Bytes)
    requires s != []
    ensures (forall i: nat :: i < |s| ==> ScanNext(s, sep, i) > i) <==> sep != []
  {
    if sep == [] {
      assert ScanNext(s, sep, 0) == 0;
    }
  }

  // ---------------------------------------------------------------------------
  // The scan
  // ---------------------------------------------------------------------------

  /**
   * NULL, the failed assertion of `EFRelease(NULL)`, or the array of components. A component is an immutable string
   * with bytes of its own, so the model's array holds its text by value; all share one encoding.
   */
  datatype SplitResult = Null | Aborted | Parts(texts: EFArray<Bytes>, encoding: StringEncoding)

  /** `strncmp(&mem[i], sep, length) == 0`: with a separator without NUL, this is a match. */
  method Strncmp(mem: Bytes, i: nat, sep: Bytes) returns (equal: bool)
    requires i <= |mem| && Readable(mem, i, sep)
    ensures equal <==> MatchAt(mem, i, sep)
    ensures equal <==> sep <= mem[i..]
  {
    var k := 0;
    while k < |sep|
      invariant k <= |sep| && i + k <= |mem|
      invariant forall j :: 0 <= j < k ==> mem[i + j] == sep[j]
    {
      if mem[i + k] != sep[k] {
        assert mem[i..][k] != sep[k];
        return false;
      }
      k := k + 1;
    }
    assert mem[i..][..k] == sep;
    return true;
  }

  /** The first loop: how many positions match. */
  method CountComponents(mem: Bytes, n: nat, sep: Bytes) returns (count: nat)
    requires n <= |mem| && AllReadable(mem, n, sep)
    ensures count == Hits(mem, n, sep)
    ensures count == |set i: nat | i < n && sep <= mem[i..]|
  {
    HitsArePositions(mem, n, sep);
    count := 0;
    var i := 0;
    assert mem[0..] == mem;
    while i < n
      invariant i <= n && count <= i
      invariant count + Hits(mem[i..], n - i, sep) == Hits(mem, n, sep)
    {
      var equal := Strncmp(mem, i, sep);
      assert mem[i..][1..] == mem[i + 1..];
      if equal {
        count := count + 1;
      }
      i := i + 1;
    }
  }

  /** One step of the scan: the first match in the rest is at the position reached, or further on. */
  lemma ScanStep(mem: Bytes, sep: Bytes, last: nat, i: nat, rest: Bytes)
    requires last <= i < |mem| && rest == mem[last..]
    requires sep != [] && FirstMatch(rest, sep) >= i - last
    ensures MatchAt(mem, i, sep) ==> FirstMatch(rest, sep) == i - last
    ensures !MatchAt(mem, i, sep) ==> FirstMatch(rest, sep) >= i + 1 - last
  {
    FirstMatchFound(rest, sep);
    assert rest[i - last..] == mem[i..];
    if FirstMatch(rest, sep) > i - last {
      NoEarlierMatch(rest, sep, i - last);
    }
  }

  lemma SliceOfRest(s: Bytes, last: nat, j: nat, k: nat)
    requires last <= |s| && j <= k <= |s| - last
    ensures s[last..][..j] == s[last..last + j] && s[last..][k..] == s[last + k..]
  {
  }

  /** The loops run only on a separator that is shorter than the string and complies to its encoding. */
  ghost predicate Scans(string_: EFString, sep: EFString)
    requires string_.Valid() && sep.Valid()
    reads string_, string_.buffer, sep, sep.buffer
  {
    sep.length < string_.length && Complies(string_.encoding, sep.Contents())
  }

  /** Creates one component and appends it. */
  method AppendComponent(a: Allocator, parts: EFArray<Bytes>, bytes: Bytes, encoding: StringEncoding)
      returns (created: bool, success: bool)
    requires parts.Valid() && parts.isMutable && parts.items.Length + GROWTH <= LONG_MAX
    requires Complies(encoding, bytes) && NulFree(bytes)
    modifies a, parts, parts.items
    ensures parts.Valid() && parts.isMutable
    ensures parts.items == old(parts.items) || fresh(parts.items)
    ensures success <==> a.failures == old(a.failures)
    ensures a.failures >= old(a.failures)
    ensures a.history ==
            old(a.history) + if created && old(parts.items.Length <= parts.count) then [true, success] else [success]
    ensures created <==> a.history[|old(a.history)|]
    ensures success ==> created && parts.Contents() == old(parts.Contents()) + [bytes]
    ensures old(parts.count < parts.items.Length) ==> parts.items == old(parts.items)
    ensures success && old(parts.count == parts.items.Length) ==> parts.items.Length == old(parts.items.Length) + GROWTH
  {
    BeforeNulAt(bytes, |bytes|);
    var component := CreateOwned(a, bytes, encoding, false);
    created := component.Created?;
    if created {
      var text := component.string_.buffer[..component.string_.length];
      assert text == component.string_.Contents() == bytes;
      success := parts.AppendValue(a, Some(text));
    } else {
      success := parts.AppendValue(a, None);
    }
  }

  /** What holds when the pieces of the string before `rest` are in the array; `left` bytes of the string are left. */
  ghost predicate CutSoFar(mem: Bytes, n: nat, sep: Bytes, texts: seq<Bytes>, rest: Bytes, left: nat, room: nat)
    requires sep != [] && n <= |mem| && left <= |rest|
  {
    && texts + Pieces(rest, left, sep) == Pieces(mem, n, sep)
    && |texts| + Hits(rest, left, sep) <= room
    && (Finishes(mem, n, sep) <==> left == 0 || Finishes(rest, left, sep))
  }

  lemma MoveOne(done: seq<Bytes>, head: Bytes, todo: seq<Bytes>, rest: seq<Bytes>, all: seq<Bytes>)
    requires rest == [head] + todo && done + rest == all
    ensures done + [head] + todo == all && |done| < |all| && all[|done|] == head
  {
  }

  lemma CutOnce(mem: Bytes, n: nat, sep: Bytes, texts: seq<Bytes>, rest: Bytes, left: nat, room: nat,
                head: Bytes, tail: Bytes, left': nat)
    requires sep != [] && n <= |mem| && left <= |rest| && CutSoFar(mem, n, sep, texts, rest, left, room)
    requires FirstMatch(rest, sep) < left && left' == Left(left, FirstMatch(rest, sep) + |sep|)
    requires head == rest[..FirstMatch(rest, sep)] && tail == rest[FirstMatch(rest, sep) + |sep|..]
    ensures left' <= |tail| && CutSoFar(mem, n, sep, texts + [head], tail, left', room)
    ensures |texts| < |Pieces(mem, n, sep)| && head == Pieces(mem, n, sep)[|texts|] && |texts| < room
  {
    CutPiece(rest, left, sep, head, tail, left');
    MoveOne(texts, head, Pieces(tail, left', sep), Pieces(rest, left, sep), Pieces(mem, n, sep));
  }

  /** The scan has reached position `i`; the last match it found ended at `last`, perhaps past the end. */
  ghost predicate ScanState(mem: Bytes, n: nat, sep: Bytes, texts: seq<Bytes>, last: nat, i: nat, room: nat)
    requires sep != [] && n <= |mem|
  {
    && last <= i <= |mem| && (i <= n || i == last)
    && CutSoFar(mem, n, sep, texts, mem[last..], Left(n, last), room)
    && FirstMatch(mem[last..], sep) >= i - last
  }

  lemma ScanMiss(mem: Bytes, n: nat, sep: Bytes, texts: seq<Bytes>, last: nat, i: nat, room: nat)
    requires sep != [] && n <= |mem| && ScanState(mem, n, sep, texts, last, i, room)
    requires i < n && !MatchAt(mem, i, sep)
    ensures ScanState(mem, n, sep, texts, last, i + 1, room)
  {
    ScanStep(mem, sep, last, i, mem[last..]);
  }

  lemma ScanHit(mem: Bytes, n: nat, sep: Bytes, texts: seq<Bytes>, last: nat, i: nat, room: nat)
    requires sep != [] && n <= |mem| && ScanState(mem, n, sep, texts, last, i, room)
    requires i < n && MatchAt(mem, i, sep)
    ensures ScanState(mem, n, sep, texts + [mem[last..i]], i + |sep|, i + |sep|, room)
    ensures |texts| < |Pieces(mem, n, sep)| && mem[last..i] == Pieces(mem, n, sep)[|texts|] && |texts| < room
  {
    var rest, head, tail := mem[last..], mem[last..i], mem[i + |sep|..];
    ScanStep(mem, sep, last, i, rest);
    SliceOfRest(mem, last, i - last, i - last + |sep|);
    CutOnce(mem, n, sep, texts, rest, Left(n, last), room, head, tail, Left(n, i + |sep|));
  }

  lemma ScanEnd(mem: Bytes, n: nat, sep: Bytes, texts: seq<Bytes>, last: nat, i: nat, room: nat)
    requires sep != [] && n <= |mem| && ScanState(mem, n, sep, texts, last, i, room) && i >= n
    ensures last >= n <==> Finishes(mem, n, sep)
    ensures Pieces(mem, n, sep) == texts + (if last >= n then [] else [mem[last..n]])
  {
    if last < n {
      assert mem[last..][..n - last] == mem[last..n];
    }
  }

  /** As long as no match finishes the string, there is one more component to come. */
  lemma TailRemains(mem: Bytes, n: nat, sep: Bytes, texts: seq<Bytes>, last: nat, i: nat, room: nat)
    requires sep != [] && n <= |mem| && ScanState(mem, n, sep, texts, last, i, room)
    ensures !Finishes(mem, n, sep) ==> |texts| < |Pieces(mem, n, sep)|
  {
  }

  /** The array holds the texts cut so far and may hold more. */
  ghost predicate Collects(parts: EFArray<Bytes>, texts: seq<Bytes>)
    reads parts, parts.items
  {
    && parts.Valid() && parts.isMutable && parts.items.Length + GROWTH <= LONG_MAX
    && parts.Contents() == texts
  }

  /** The text since the last match becomes a component. */
  method CutHere(a: Allocator, parts: EFArray<Bytes>, encoding: StringEncoding, bytes: Bytes, ghost texts: seq<Bytes>)
      returns (ok: bool, ghost texts': seq<Bytes>)
    requires NulFree(bytes) && Complies(encoding, bytes)
    requires Collects(parts, texts) && |texts| < parts.items.Length
    modifies a, parts, parts.items
    ensures parts.items == old(parts.items)
    ensures ok <==> a.failures == old(a.failures)
    ensures a.failures >= old(a.failures) && a.history == old(a.history) + [ok]
    ensures texts' == texts + [bytes]
    ensures ok ==> Collects(parts, texts')
  {
    texts' := texts + [bytes];
    var created;
    created, ok := AppendComponent(a, parts, bytes, encoding);
  }

  lemma SliceNulFree(mem: Bytes, n: nat, j: nat, k: nat)
    requires j <= k <= n <= |mem| && NulFree(mem[..n])
    ensures NulFree(mem[j..k])
  {
    forall i | 0 <= i < k - j
      ensures mem[j..k][i] != 0
    {
      assert mem[..n][j + i] != 0;
    }
  }

  /**
   * The body of the loop that cuts at matches: at a match, the text since the last one becomes a component and the
   * scan skips the separator (`i += length - 1` in the body and `i++` in the header of the loop).
   */
  method ScanOnce(a: Allocator, parts: EFArray<Bytes>, encoding: StringEncoding, mem: Bytes, n: nat, sep: Bytes,
                  last: nat, i: nat, ghost texts: seq<Bytes>)
      returns (ok: bool, last': nat, i': nat, ghost texts': seq<Bytes>)
    requires i < n <= |mem| && NulFree(mem[..n]) && sep != [] && Readable(mem, i, sep)
    requires AllComply(encoding, Pieces(mem, n, sep))
    requires ScanState(mem, n, sep, texts, last, i, parts.items.Length) && Collects(parts, texts)
    modifies a, parts, parts.items
    ensures parts.items == old(parts.items)
    ensures ok <==> a.failures == old(a.failures)
    ensures a.failures >= old(a.failures)
    ensures a.history == old(a.history) + if MatchAt(mem, i, sep) then [ok] else []
    ensures !ok ==> MatchAt(mem, i, sep)
    ensures |texts'| == |texts| + if MatchAt(mem, i, sep) then 1 else 0
    ensures i' > i && i' == ScanNext(mem, sep, i) && ScanState(mem, n, sep, texts', last', i', parts.items.Length)
    ensures ok ==> Collects(parts, texts')
  {
    hide Finishes, Hits, Complies, FirstMatch;
    var equal := Strncmp(mem, i, sep);
    if !equal {
      ScanMiss(mem, n, sep, texts, last, i, parts.items.Length);
      return true, last, i + 1, texts;
    }
    ScanHit(mem, n, sep, texts, last, i, parts.items.Length);
    SliceNulFree(mem, n, last, i);
    last' := i + |sep|;
    i' := last';
    ok, texts' := CutHere(a, parts, encoding, mem[last..i], texts);
  }

  /**
   * The loop that cuts at matches. It appends one component for each match that it finds, never needing more room
   * than the first loop has counted, and returns where the last match ended.
   */
  method CutAtMatches(a: Allocator, parts: EFArray<Bytes>, encoding: StringEncoding, mem: Bytes, n: nat, sep: Bytes)
      returns (ok: bool, last: nat, ghost texts: seq<Bytes>)
    requires 0 < n <= |mem| && NulFree(mem[..n]) && sep != [] && AllReadable(mem, n, sep)
    requires AllComply(encoding, Pieces(mem, n, sep))
    requires Collects(parts, []) && parts.items.Length == Hits(mem, n, sep)
    modifies a, parts, parts.items
    ensures parts.items == old(parts.items)
    ensures ok <==> a.failures == old(a.failures)
    ensures a.failures >= old(a.failures)
    ensures ok ==> a.history == old(a.history) + Granted(|texts|)
    ensures !ok ==> |texts| > 0 && a.history == old(a.history) + Granted(|texts| - 1) + [false]
    ensures !ok && !Finishes(mem, n, sep) ==> |texts| < |Pieces(mem, n, sep)|
    ensures ok ==>
              && (last >= n <==> Finishes(mem, n, sep))
              && Pieces(mem, n, sep) == texts + (if last >= n then [] else [mem[last..n]])
              && Collects(parts, texts)
  {
    hide Pieces, Finishes, Hits, AllComply, NulFree, ScanNext, FirstMatch;
    texts, last, ok := [], 0, true;
    assert mem[0..] == mem;
    var i := 0;
    while i < n
      invariant ScanState(mem, n, sep, texts, last, i, parts.items.Length)
      invariant parts.items == old(parts.items)
      invariant Collects(parts, texts)
      invariant ok && a.failures == old(a.failures) && a.history == old(a.history) + Granted(|texts|)
      decreases n - i
    {
      GrantedMore(|texts|);
      ok, last, i, texts := ScanOnce(a, parts, encoding, mem, n, sep, last, i, texts);
      if !ok {
        TailRemains(mem, n, sep, texts, last, i, parts.items.Length);
        return;
      }
    }
    ScanEnd(mem, n, sep, texts, last, i, parts.items.Length);
  }

  /**
   * No match finishes the string, all requests for the array and for the components before the tail were granted, and
   * the one for the tail was refused: then NULL is appended, which fails, and released, which is an assertion.
   */
  ghost predicate AbortsAfter(mem: Bytes, n: nat, sep: Bytes, before: seq<bool>, after: seq<bool>)
    requires sep != [] && 0 < n <= |mem|
  {
    && !Finishes(mem, n, sep)
    && after == before + Granted(CreationRequests(Hits(mem, n, sep)) + |Pieces(mem, n, sep)| - 1) + [false]
  }

  /** What is left behind the last match becomes the last component. */
  method AppendTail(a: Allocator, parts: EFArray<Bytes>, encoding: StringEncoding, tail: Bytes, ghost texts: seq<Bytes>,
                    ghost before: nat, ghost start: seq<bool>) returns (r: SplitResult, ghost granted: nat)
    requires Collects(parts, texts) && Complies(encoding, tail) && NulFree(tail)
    requires a.history == start + Granted(before)
    modifies a, parts, parts.items
    ensures a.failures >= old(a.failures) && (r.Parts? <==> a.failures == old(a.failures))
    ensures a.history == start + Granted(granted) + if !r.Parts? then [false] else []
    ensures r.Aborted? <==> !r.Parts? && granted == before
    ensures r.Parts? ==> r == Parts(parts, encoding) && parts.Valid() && parts.Contents() == texts + [tail]
    ensures parts.items == old(parts.items) || fresh(parts.items)
    ensures r.Parts? ==> parts.items.Length == old(parts.items.Length) +
                                               if old(parts.count == parts.items.Length) then GROWTH else 0
  {
    hide Complies, NulFree;
    var created, success := AppendComponent(a, parts, tail, encoding);
    GrantedMore(before);
    GrantedMore(before + 1);
    if !created {
      return Aborted, before;
    }
    if !success {
      assert a.history == start + Granted(before + 1) + [false];
      return Null, before + 1;
    }
    granted := |a.history| - |start|;
    return Parts(parts, encoding), granted;
  }

  lemma TailIsComponent(encoding: StringEncoding, mem: Bytes, n: nat, sep: Bytes, texts: seq<Bytes>, last: nat)
    requires sep != [] && last < n <= |mem| && Pieces(mem, n, sep) == texts + [mem[last..n]] && NulFree(mem[..n])
    requires AllComply(encoding, Pieces(mem, n, sep))
    ensures Complies(encoding, mem[last..n]) && NulFree(mem[last..n])
  {
    assert mem[last..n] == Pieces(mem, n, sep)[|texts|];
    SliceNulFree(mem, n, last, n);
  }

  /** What is done when the array has been made. */
  method CutAll(a: Allocator, parts: EFArray<Bytes>, encoding: StringEncoding, mem: Bytes, n: nat, sep: Bytes,
                ghost start: seq<bool>) returns (r: SplitResult, ghost granted: nat)
    requires 0 < n <= |mem| && NulFree(mem[..n]) && sep != [] && AllReadable(mem, n, sep)
    requires AllComply(encoding, Pieces(mem, n, sep))
    requires |Pieces(mem, n, sep)| <= Hits(mem, n, sep) + if Finishes(mem, n, sep) then 0 else 1
    requires Collects(parts, []) && parts.items.Length == Hits(mem, n, sep)
    requires a.history == start + Granted(CreationRequests(Hits(mem, n, sep)))
    modifies a, parts, parts.items
    ensures a.failures >= old(a.failures) && (r.Parts? <==> a.failures == old(a.failures))
    ensures a.history == start + Granted(granted) + if !r.Parts? then [false] else []
    ensures r.Aborted? <==> !r.Parts? && !Finishes(mem, n, sep) &&
                            granted == CreationRequests(Hits(mem, n, sep)) + |Pieces(mem, n, sep)| - 1
    ensures parts.items == old(parts.items) || fresh(parts.items)
    ensures r.Parts? ==>
              && r == Parts(parts, encoding) && parts.Valid() && parts.Contents() == Pieces(mem, n, sep)
              && parts.items.Length ==
                 Hits(mem, n, sep) + if |Pieces(mem, n, sep)| > Hits(mem, n, sep) then GROWTH else 0
  {
    hide Pieces, Finishes, Hits, Granted, AllComply, NulFree, Complies, AllReadable;
    ghost var requests := CreationRequests(Hits(mem, n, sep));
    var ok, last, texts := CutAtMatches(a, parts, encoding, mem, n, sep);
    if !ok {
      GrantedBoth(requests, |texts| - 1);
      return Null, requests + |texts| - 1;
    }
    GrantedBoth(requests, |texts|);
    if n <= last {
      return Parts(parts, encoding), requests + |texts|;
    }
    TailIsComponent(encoding, mem, n, sep, texts, last);
    r, granted := AppendTail(a, parts, encoding, mem[last..n], texts, requests + |texts|, start);
  }

  /** The part of the function behind its guards. */
  method ScanAndCut(a: Allocator, encoding: StringEncoding, mem: Bytes, n: nat, sep: Bytes)
      returns (r: SplitResult, ghost granted: nat)
    requires 0 < |sep| < n <= |mem| && n <= LONG_MAX - GROWTH && NulFree(mem[..n]) && AllReadable(mem, n, sep)
    requires Complies(encoding, mem[..n]) && Complies(encoding, sep)
    modifies a
    ensures a.failures >= old(a.failures)
    ensures r.Parts? <==> a.failures == old(a.failures)
    ensures a.history == old(a.history) + Granted(granted) + if !r.Parts? then [false] else []
    ensures r.Aborted? <==> !r.Parts? && !Finishes(mem, n, sep) &&
                            granted == CreationRequests(Hits(mem, n, sep)) + |Pieces(mem, n, sep)| - 1
    ensures r.Parts? ==>
              && r.encoding == encoding && r.texts.Valid() && fresh(r.texts) && fresh(r.texts.items)
              && r.texts.Contents() == Pieces(mem, n, sep)
              && r.texts.items.Length ==
                 Hits(mem, n, sep) + if |Pieces(mem, n, sep)| > Hits(mem, n, sep) then GROWTH else 0
  {
    PiecesComply(encoding, mem, n, sep);
    CountCoversComponents(mem, n, sep);
    var componentCount := CountComponents(mem, n, sep);
    var parts := CreateMutable(a, componentCount);
    if parts == null {
      granted :| 0 <= granted < CreationRequests(componentCount) &&
                 a.history == old(a.history) + Granted(granted) + [false];
      return Null, granted;
    }
    hide Pieces, Finishes, Hits, Granted, AllReadable;
    r, granted := CutAll(a, parts, encoding, mem, n, sep, old(a.history));
  }

  /** The same, with what it comes to said in terms of the string and of the requests. */
  method SplitMemory(a: Allocator, encoding: StringEncoding, mem: Bytes, n: nat, sep: Bytes) returns (r: SplitResult)
    requires 0 < |sep| < n <= |mem| && n <= LONG_MAX - GROWTH && NulFree(mem[..n]) && AllReadable(mem, n, sep)
    requires Complies(encoding, mem[..n]) && Complies(encoding, sep)
    modifies a
    ensures a.failures >= old(a.failures) && (r.Parts? <==> a.failures == old(a.failures))
    ensures r.Aborted? <==> AbortsAfter(mem, n, sep, old(a.history), a.history)
    ensures r.Parts? ==>
              && r.encoding == encoding && r.texts.Valid() && fresh(r.texts) && fresh(r.texts.items)
              && r.texts.Contents() == Pieces(mem, n, sep)
              && (r.texts.Contents() == Components(mem[..n], sep) <==> !Overruns(mem, n, sep))
              && r.texts.items.Length ==
                 Hits(mem, n, sep) + if |Pieces(mem, n, sep)| > Hits(mem, n, sep) then GROWTH else 0
  {
    hide Pieces, Finishes, Hits, Granted, AllReadable, Components, Overruns, NulFree, Complies;
    ghost var granted;
    r, granted := ScanAndCut(a, encoding, mem, n, sep);
    PiecesExactly(mem, n, sep);
    RefusedAfter(old(a.history), granted, CreationRequests(Hits(mem, n, sep)) + |Pieces(mem, n, sep)| - 1, !r.Parts?);
  }

  /**
   * `EFStringComponentsSplitBySeparator`. The tests read on behind a string that is not terminated; they may not leave
   * the caller's memory.
   */
  method ComponentsSplitBySeparator(a: Allocator, string_: EFString?, separator: EFString?) returns (r: SplitResult)
    requires string_ != null ==> string_.Valid() && string_.length + GROWTH <= LONG_MAX
    requires separator != null ==> separator.Valid()
    requires string_ != null && separator != null && separator.length == 0 ==> string_.length == 0
    requires string_ != null && separator != null && Scans(string_, separator) ==>
               AllReadable(string_.buffer[..], string_.length, separator.Contents())
    modifies a
    ensures a.failures >= old(a.failures)
    ensures string_ == null || separator == null || !Scans(string_, separator) ==>
              r == Null && a.failures == old(a.failures)
    ensures string_ != null && separator != null && Scans(string_, separator) ==>
              var mem, n, sep := string_.buffer[..], string_.length, separator.Contents();
              && (r.Parts? <==> a.failures == old(a.failures))
              && (r.Aborted? <==> AbortsAfter(mem, n, sep, old(a.history), a.history))
    ensures r.Parts? ==>
              var mem, n, sep := string_.buffer[..], string_.length, separator.Contents();
              && r.encoding == string_.encoding && r.texts.Valid() && fresh(r.texts) && fresh(r.texts.items)
              && r.texts.Contents() == Pieces(mem, n, sep)
              && (r.texts.Contents() == Components(string_.Contents(), sep) <==> !Overruns(mem, n, sep))
              && r.texts.items.Length ==
                 Hits(mem, n, sep) + if |Pieces(mem, n, sep)| > Hits(mem, n, sep) then GROWTH else 0
  {
    if string_ == null || separator == null {
      return Null;
    }
    var mem, n, sep := string_.buffer[..], string_.length, separator.buffer[..separator.length];
    assert mem[..n] == string_.Contents();
    if string_.encoding != separator.encoding {
      var complies := ValidateEncoding(string_.encoding, sep);
      if !complies {
        return Null;
      }
    }
    if separator.length >= string_.length {
      return Null;
    }
    hide Pieces, Finishes, Hits, Granted, AllReadable, Components, Overruns, AbortsAfter, Complies;
    r := SplitMemory(a, string_.encoding, mem, n, sep);
  }

  lemma NoComma()
    ensures CountMatches([0x61, 0x62], [0x2C]) == 0 && Components([0x61, 0x62], [0x2C]) == [[0x61, 0x62]]
    ensures !EndsInMatch([0x61, 0x62], [0x2C])
  {
    var s: Bytes, sep: Bytes := [0x61, 0x62], [0x2C];
    assert s[1..] == [0x62] && s[1..][1..] == [];
    assert sep[0] != s[0] && sep[0] != s[1];
    assert !(sep <= s) && !(sep <= s[1..]);
    assert FirstMatch(s[1..], sep) == 1 + FirstMatch(s[1..][1..], sep);
  }

  lemma SecondRequestAborts(mem: Bytes, before: seq<bool>, after: seq<bool>)
    requires |mem| > 2 && mem[..2] == [0x61, 0x62] && mem[2] == 0
    ensures AbortsAfter(mem, 2, [0x2C], before, after) <==> after == before + [true, false]
  {
    NoComma();
    TerminatedIsText(mem, 2, [0x2C]);
    GrantedMore(0);
    assert before + Granted(1) + [false] == before + [true, false];
  }

  /** A string of ASCII characters, as the compiler lays it out. */
  method Literal(bytes: Bytes) returns (s: EFString)
    requires IsAscii(bytes) && NulFree(bytes)
    ensures fresh(s) && fresh(s.buffer) && s.encoding == UTF8 && s.Valid() && s.Contents() == bytes
    ensures s.length == |bytes| < s.buffer.Length && s.buffer[|bytes|] == 0
  {
    var buffer := new UInt8[|bytes| + 1](i => if 0 <= i < |bytes| then bytes[i] else 0);
    assert buffer[..|bytes|] == bytes;
    AsciiIsUtf8(bytes);
    s := new EFString(buffer, |bytes|, UTF8, true, false);
  }

  /** The abort is real: "ab" has no comma, and its only component is refused after the array was made. */
  method AbortsOnSecondRequest(a: Allocator) returns (r: SplitResult)
    modifies a
    ensures r.Aborted? <==> a.history == old(a.history) + [true, false]
  {
    var string_ := Literal([0x61, 0x62]);
    var separator := Literal([0x2C]);
    AsciiIsUtf8([0x2C]);
    ghost var mem := string_.buffer[..];
    assert mem[..2] == string_.Contents();
    NulStops(mem, 2, [0x2C], 2);
    hide AbortsAfter, Components, IsUtf8, AllReadable;
    r := ComponentsSplitBySeparator(a, string_, separator);
    SecondRequestAborts(mem, old(a.history), a.history);
  }

  /** In the memory "ab,x", the string "ab," ends within a match of ",x". */
  lemma CutInsideMatch(mem: Bytes)
    requires mem == [0x61, 0x62, 0x2C, 0x78, 0]
    ensures Pieces(mem, 3, [0x2C, 0x78]) == [[0x61, 0x62]]
    ensures Components([0x61, 0x62, 0x2C], [0x2C, 0x78]) == [[0x61, 0x62, 0x2C]]
    ensures AllReadable(mem, 3, [0x2C, 0x78])
  {
    var sep: Bytes := [0x2C, 0x78];
    assert mem[2..][..2] == sep && mem[0..][0] == 0x61 && mem[1..][0] == 0x62;
    FirstMatchIs(mem, sep, 2);
    assert mem[..2] == [0x61, 0x62] && mem[..3] == [0x61, 0x62, 0x2C];
    NoMatchInside(mem, 3, sep);
    NulStops(mem, 3, sep, 4);
  }

  /** `EFStringCreateWithCBufferNoCopy` of the first three bytes of "ab,x". */
  method BorrowThree(a: Allocator) returns (r: Creation)
    modifies a
    ensures r.Created? <==> a.failures == old(a.failures)
    ensures r.Created? ==>
              var s := r.string_;
              && s.Valid() && s.encoding == UTF8 && s.length == 3 && s.buffer[..] == [0x61, 0x62, 0x2C, 0x78, 0]
    ensures a.failures >= old(a.failures)
  {
    var buffer := new UInt8[5][0x61, 0x62, 0x2C, 0x78, 0];
    assert buffer[..3] == [0x61, 0x62, 0x2C];
    AsciiIsUtf8(buffer[..3]);
    BeforeNulAt(buffer[..3], 3);
    r := CreateString(a, buffer, 3, UTF8, false, false);
  }

  /** The condition is needed: such a string loses its comma. */
  method SplitsBehindTheEnd(a: Allocator) returns (r: SplitResult)
    modifies a
    ensures a.failures == old(a.failures) ==> r.Parts? && r.texts.Valid() && r.texts.Contents() == [[0x61, 0x62]]
    ensures Components([0x61, 0x62, 0x2C], [0x2C, 0x78]) == [[0x61, 0x62, 0x2C]]
  {
    CutInsideMatch([0x61, 0x62, 0x2C, 0x78, 0]);
    AsciiIsUtf8([0x2C, 0x78]);
    hide AbortsAfter, Components, IsUtf8, AllReadable, Pieces, Overruns, Finishes, Hits;
    r := Null;
    var string_ := BorrowThree(a);
    if string_.Created? {
      var separator := Literal([0x2C, 0x78]);
      r := ComponentsSplitBySeparator(a, string_.string_, separator);
    }
  }
}
