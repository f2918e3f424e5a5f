/** UTF-8 as RFC 3629 defines it: encoding, well-formedness, unique decoding and self-synchronisation. */
module Utf8 {

  /** The source's `unsigned char` / `UInt8`. */
  type UInt8 = x: int | 0 <= x < 0x100

  /** A Unicode scalar value: section 3 of RFC 3629 excludes the surrogates D800-DFFF. */
  type Scalar = v: int | 0 <= v <= 0x10FFFF && !(0xD800 <= v <= 0xDFFF)

  /** The shortest-form encoding of one scalar value (the table in section 3 of RFC 3629), with div and mod. */
  function Encode(v: Scalar): (s: seq<UInt8>)
    ensures |s| == if v < 0x80 then 1 else if v < 0x800 then 2 else if v < 0x10000 then 3 else 4
  {
    if v < 0x80 then
      [v]
    else if v < 0x800 then
      [0xC0 + v / 0x40, 0x80 + v % 0x40]
    else if v < 0x10000 then
      [0xE0 + v / 0x1000, 0x80 + v / 0x40 % 0x40, 0x80 + v % 0x40]
    else
      [0xF0 + v / 0x40000, 0x80 + v / 0x1000 % 0x40, 0x80 + v / 0x40 % 0x40, 0x80 + v % 0x40]
  }

  function EncodeAll(vs: seq<Scalar>): seq<UInt8> {
    if vs == [] then [] else Encode(vs[0]) + EncodeAll(vs[1..])
  }

  /** A byte string is UTF-8 when it is the concatenation of the encodings of some scalar values. */
  ghost predicate IsUtf8(s: seq<UInt8>) {
    exists vs :: EncodeAll(vs) == s
  }

  predicate IsAscii(s: seq<UInt8>) {
    forall i :: 0 <= i < |s| ==> s[i] < 0x80
  }

  predicate IsContinuation(b: UInt8) {
    0x80 <= b < 0xC0
  }

  // ---------------------------------------------------------------------------
  // The first character of a byte string
  // ---------------------------------------------------------------------------

  /** The sequence length a lead byte announces; 0 for a byte that cannot lead. */
  function LeadLength(c: UInt8): nat {
    if c < 0x80 then 1
    else if 0xC0 <= c < 0xE0 then 2
    else if 0xE0 <= c < 0xF0 then 3
    else if 0xF0 <= c < 0xF8 then 4
    else 0
  }

  /** The payload of a lead byte. */
  function LeadValue(c: UInt8): int {
    match LeadLength(c)
    case 2 => c as int - 0xC0
    case 3 => c as int - 0xE0
    case 4 => c as int - 0xF0
    case _ => c
  }

  /** The value gathered from the lead byte and the `k - 1` continuation bytes after it. */
  function Gathered(s: seq<UInt8>, k: nat): int
    requires 1 <= k <= |s|
  {
    if k == 1 then LeadValue(s[0]) else Gathered(s, k - 1) * 0x40 + (s[k - 1] as int - 0x80)
  }

  /** The least value that needs `n` bytes. */
  function MinValue(n: nat): int {
    match n
    case 2 => 0x80
    case 3 => 0x800
    case 4 => 0x10000
    case _ => 0
  }

  /** The tests the validator makes on the first character of `s`. */
  predicate HeadAccepted(s: seq<UInt8>) {
    && s != []
    && var n := LeadLength(s[0]);
    && 0 < n <= |s|
    && (forall k :: 1 <= k < n ==> IsContinuation(s[k]))
    && var v := Gathered(s, n);
    && MinValue(n) <= v <= 0x10FFFF
    && !(0xD800 <= v <= 0xDFFF)
  }

  /** `Gathered` written out in base 64. */
  lemma GatheredUnfolded(s: seq<UInt8>, k: nat, a: int, b: int, c: int, d: int)
    requires 1 <= k <= |s| && k <= 4
    requires LeadValue(s[0]) == a
    requires k > 1 ==> s[1] as int == 0x80 + b
    requires k > 2 ==> s[2] as int == 0x80 + c
    requires k > 3 ==> s[3] as int == 0x80 + d
    ensures Gathered(s, k) ==
            if k == 1 then a else if k == 2 then 0x40 * a + b
            else if k == 3 then 0x1000 * a + 0x40 * b + c
            else 0x40000 * a + 0x1000 * b + 0x40 * c + d
  {
    if k > 1 {
      GatheredUnfolded(s, k - 1, a, b, c, d);
    }
  }

  /** The digits of a number in base 64 are its quotients and remainders. */
  lemma Digits(a: int, b: int, c: int, d: int)
    requires 0 <= a && 0 <= b < 0x40 && 0 <= c < 0x40 && 0 <= d < 0x40
    ensures var v := 0x40000 * a + 0x1000 * b + 0x40 * c + d;
            && v / 0x40000 == a && v / 0x1000 == 0x40 * a + b && v / 0x40 == 0x1000 * a + 0x40 * b + c
            && v / 0x1000 % 0x40 == b && v / 0x40 % 0x40 == c && v % 0x40 == d
  {
  }

  /** `Encode` in terms of base-64 digits. */
  lemma EncodeDigits(a: int, b: int, c: int, d: int)
    requires 0 <= a && 0 <= b < 0x40 && 0 <= c < 0x40 && 0 <= d < 0x40
    ensures var v := 0x40000 * a + 0x1000 * b + 0x40 * c + d;
            0 <= v <= 0x10FFFF && !(0xD800 <= v <= 0xDFFF) ==>
              Encode(v) == if v < 0x80 then [v]
                           else if v < 0x800 then [0xC0 + c, 0x80 + d]
                           else if v < 0x10000 then [0xE0 + b, 0x80 + c, 0x80 + d]
                           else [0xF0 + a, 0x80 + b, 0x80 + c, 0x80 + d]
  {
    Digits(a, b, c, d);
  }

  lemma HeadSound2(s: seq<UInt8>, v: int)
    requires HeadAccepted(s) && LeadLength(s[0]) == 2 && v == Gathered(s, 2)
    ensures Encode(v) == [s[0], s[1]]
  {
    var a, b := s[0] as int - 0xC0, s[1] as int - 0x80;
    assert IsContinuation(s[1]);
    GatheredUnfolded(s, 2, a, b, 0, 0);
    EncodeDigits(0, 0, a, b);
  }

  lemma HeadSound3(s: seq<UInt8>, v: int)
    requires HeadAccepted(s) && LeadLength(s[0]) == 3 && v == Gathered(s, 3)
    ensures Encode(v) == [s[0], s[1], s[2]]
  {
    var a, b, c := s[0] as int - 0xE0, s[1] as int - 0x80, s[2] as int - 0x80;
    assert IsContinuation(s[1]) && IsContinuation(s[2]);
    GatheredUnfolded(s, 3, a, b, c, 0);
    EncodeDigits(0, a, b, c);
  }

  lemma HeadSound4(s: seq<UInt8>, v: int)
    requires HeadAccepted(s) && LeadLength(s[0]) == 4 && v == Gathered(s, 4)
    ensures Encode(v) == [s[0], s[1], s[2], s[3]]
  {
    var a, b, c, d := s[0] as int - 0xF0, s[1] as int - 0x80, s[2] as int - 0x80, s[3] as int - 0x80;
    assert IsContinuation(s[1]) && IsContinuation(s[2]) && IsContinuation(s[3]);
    GatheredUnfolded(s, 4, a, b, c, d);
    EncodeDigits(a, b, c, d);
  }

  /** What passes the tests is the encoding of the value gathered. */
  lemma HeadSound(s: seq<UInt8>)
    requires HeadAccepted(s)
    ensures Encode(Gathered(s, LeadLength(s[0]))) == s[..LeadLength(s[0])]
  {
    var n := LeadLength(s[0]);
    assert forall k :: 1 <= k < n ==> IsContinuation(s[k]);
    if n == 2 {
      HeadSound2(s, Gathered(s, n));
    } else if n == 3 {
      HeadSound3(s, Gathered(s, n));
    } else if n == 4 {
      HeadSound4(s, Gathered(s, n));
    }
  }

  lemma EncodedLead(v: Scalar)
    ensures var e := Encode(v);
            && LeadLength(e[0]) == |e|
            && !IsContinuation(e[0])
            && (forall k :: 1 <= k < |e| ==> IsContinuation(e[k]))
            && (v < 0x80 <==> e[0] < 0x80)
  {
  }

  lemma EncodedGathered(v: Scalar)
    ensures Gathered(Encode(v), |Encode(v)|) == v
  {
    var p, q, r := v / 0x40, v / 0x40 / 0x40, v / 0x40 / 0x40 / 0x40;
    EncodeDigits(r, q % 0x40, p % 0x40, v % 0x40);
    var e, n := Encode(v), |Encode(v)|;
    if n == 2 {
      GatheredUnfolded(e, n, p, v % 0x40, 0, 0);
    } else if n == 3 {
      GatheredUnfolded(e, n, q, p % 0x40, v % 0x40, 0);
    } else if n == 4 {
      GatheredUnfolded(e, n, r, q % 0x40, p % 0x40, v % 0x40);
    }
  }

  lemma GatheredPrefix(e: seq<UInt8>, s: seq<UInt8>, k: nat)
    requires 1 <= k <= |e| && e <= s
    ensures Gathered(s, k) == Gathered(e, k)
  {
    if k > 1 {
      GatheredPrefix(e, s, k - 1);
    }
  }

  /** Every encoding passes the tests, and the value gathered is the scalar that was encoded. */
  lemma HeadComplete(s: seq<UInt8>, v: Scalar)
    requires Encode(v) <= s
    ensures HeadAccepted(s) && LeadLength(s[0]) == |Encode(v)| && Gathered(s, LeadLength(s[0])) == v
  {
    EncodedLead(v);
    var e := Encode(v);
    assert forall k :: 0 <= k < |e| ==> s[k] == e[k];
    EncodedGathered(v);
    GatheredPrefix(e, s, |e|);
  }

  // ---------------------------------------------------------------------------
  // The grammar in section 4 of RFC 3629
  // ---------------------------------------------------------------------------

  predicate IsTail(s: seq<UInt8>, k: nat) {
    k < |s| && 0x80 <= s[k] <= 0xBF
  }

  /** `UTF8-1`, `UTF8-2`, `UTF8-3` and `UTF8-4`. */
  predicate IsUtf8Char(s: seq<UInt8>) {
    match |s|
    case 1 => s[0] <= 0x7F
    case 2 => 0xC2 <= s[0] <= 0xDF && IsTail(s, 1)
    case 3 =>
      && IsTail(s, 2)
      && (|| (s[0] == 0xE0 && 0xA0 <= s[1] <= 0xBF)
          || (0xE1 <= s[0] <= 0xEC && IsTail(s, 1))
          || (s[0] == 0xED && 0x80 <= s[1] <= 0x9F)
          || (0xEE <= s[0] <= 0xEF && IsTail(s, 1)))
    case 4 =>
      && IsTail(s, 2) && IsTail(s, 3)
      && (|| (s[0] == 0xF0 && 0x90 <= s[1] <= 0xBF)
          || (0xF1 <= s[0] <= 0xF3 && IsTail(s, 1))
          || (s[0] == 0xF4 && 0x80 <= s[1] <= 0x8F))
    case _ => false
  }

  /** The tests of the validator on lead byte, value and continuation bytes come to the ranges of the grammar. */
  lemma HeadIsUtf8Char(s: seq<UInt8>, n: nat)
    requires 0 < n <= |s|
    ensures IsUtf8Char(s[..n]) <==> HeadAccepted(s) && LeadLength(s[0]) == n
  {
    assert forall k :: 1 <= k < n ==> s[..n][k] == s[k];
    if HeadAccepted(s) && LeadLength(s[0]) == n {
      assert forall k :: 1 <= k < n ==> IsContinuation(s[k]);
    }
    if LeadLength(s[0]) == n && forall k :: 1 <= k < n ==> IsContinuation(s[k]) {
      var b := if n > 1 then s[1] as int - 0x80 else 0;
      var c := if n > 2 then s[2] as int - 0x80 else 0;
      var d := if n > 3 then s[3] as int - 0x80 else 0;
      GatheredUnfolded(s, n, LeadValue(s[0]), b, c, d);
    }
  }

  /** The characters of the examples in section 7 of RFC 3629. */
  lemma Examples()
    ensures Encode(0x41) == [0x41] && Encode(0x0391) == [0xCE, 0x91] && Encode(0x2262) == [0xE2, 0x89, 0xA2]
    ensures Encode(0x65E5) == [0xE6, 0x97, 0xA5] && Encode(0x233B4) == [0xF0, 0xA3, 0x8E, 0xB4]
  {
  }

  /** The encodings of the scalar values are the characters of the grammar. */
  lemma EncodingsAreUtf8Chars(s: seq<UInt8>)
    ensures (exists v :: Encode(v) == s) <==> IsUtf8Char(s)
  {
    if v :| Encode(v) == s {
      HeadComplete(s, v);
      HeadIsUtf8Char(s, |s|);
      assert s[..|s|] == s;
    }
    if IsUtf8Char(s) {
      assert s[..|s|] == s;
      HeadIsUtf8Char(s, |s|);
      HeadSound(s);
    }
  }

  /** No encoding is a proper prefix of another: the first character of a byte string is determined. */
  lemma EncodePrefixFree(v: Scalar, w: Scalar, x: seq<UInt8>, y: seq<UInt8>)
    requires Encode(v) + x == Encode(w) + y
    ensures v == w && x == y
  {
    var s := Encode(v) + x;
    HeadComplete(s, v);
    HeadComplete(s, w);
    assert x == s[|Encode(v)|..] && y == s[|Encode(w)|..];
  }

  // ---------------------------------------------------------------------------
  // Whole byte strings
  // ---------------------------------------------------------------------------

  lemma Assoc(a: seq<UInt8>, b: seq<UInt8>, c: seq<UInt8>)
    ensures a + b + c == a + (b + c)
  {
  }

  lemma {:induction false} EncodeAllConcat(vs: seq<Scalar>, ws: seq<Scalar>)
    ensures EncodeAll(vs + ws) == EncodeAll(vs) + EncodeAll(ws)
  {
    if vs == [] {
      assert vs + ws == ws;
    } else {
      EncodeAllConcat(vs[1..], ws);
      assert (vs + ws)[1..] == vs[1..] + ws;
      assert (vs + ws)[0] == vs[0];
      var e := Encode(vs[0]);
      assert EncodeAll(vs + ws) == e + EncodeAll(vs[1..] + ws);
      Assoc(e, EncodeAll(vs[1..]), EncodeAll(ws));
    }
  }

  /** A well-formed prefix of a well-formed string can be cut off, scalar by scalar. */
  lemma {:induction false} DecodePrefix(us: seq<Scalar>, t: seq<UInt8>, ws: seq<Scalar>)
    requires EncodeAll(us) + t == EncodeAll(ws)
    ensures us <= ws && t == EncodeAll(ws[|us|..])
  {
    if us == [] {
      assert EncodeAll(us) + t == t;
    } else {
      assert EncodeAll(us) + t == Encode(us[0]) + (EncodeAll(us[1..]) + t);
      assert ws != [];
      EncodePrefixFree(us[0], ws[0], EncodeAll(us[1..]) + t, EncodeAll(ws[1..]));
      DecodePrefix(us[1..], t, ws[1..]);
      assert ws[1..][|us[1..]|..] == ws[|us|..];
    }
  }

  /** The decomposition into scalar values is unique. */
  lemma DecodeUnique(vs: seq<Scalar>, ws: seq<Scalar>)
    requires EncodeAll(vs) == EncodeAll(ws)
    ensures vs == ws
  {
    assert EncodeAll(vs) + [] == EncodeAll(ws);
    DecodePrefix(vs, [], ws);
    assert ws[|vs|..] == [];
  }

  lemma ConcatIsUtf8(s: seq<UInt8>, t: seq<UInt8>)
    requires IsUtf8(s) && IsUtf8(t)
    ensures IsUtf8(s + t)
  {
    var vs :| EncodeAll(vs) == s;
    var ws :| EncodeAll(ws) == t;
    EncodeAllConcat(vs, ws);
  }

  lemma ConcatSlices(s: seq<UInt8>, n: nat, i: nat)
    requires n <= i <= |s| && IsUtf8(s[..n]) && IsUtf8(s[n..][..i - n])
    ensures IsUtf8(s[..i])
  {
    ConcatIsUtf8(s[..n], s[n..][..i - n]);
    assert s[..n] + s[n..][..i - n] == s[..i];
  }

  /** Dropping a well-formed prefix leaves the string as well formed as it was. */
  lemma SuffixIsUtf8(s: seq<UInt8>, t: seq<UInt8>)
    requires IsUtf8(s)
    ensures IsUtf8(s + t) <==> IsUtf8(t)
  {
    if IsUtf8(s + t) {
      var us :| EncodeAll(us) == s;
      var ws :| EncodeAll(ws) == s + t;
      DecodePrefix(us, t, ws);
    }
    if IsUtf8(t) {
      ConcatIsUtf8(s, t);
    }
  }

  lemma SingletonIsUtf8(v: Scalar)
    ensures EncodeAll([v]) == Encode(v) && IsUtf8(Encode(v))
  {
    assert [v][1..] == [];
    assert EncodeAll([v][1..]) == [];
    assert EncodeAll([v]) == Encode(v);
  }

  lemma HeadIsUtf8(s: seq<UInt8>)
    requires HeadAccepted(s)
    ensures IsUtf8(s[..LeadLength(s[0])])
  {
    HeadSound(s);
    SingletonIsUtf8(Gathered(s, LeadLength(s[0])));
  }

  /** A non-empty string is UTF-8 exactly when its first character is accepted and the rest is UTF-8. */
  lemma HeadAndTail(s: seq<UInt8>)
    requires s != []
    ensures IsUtf8(s) <==> HeadAccepted(s) && IsUtf8(s[LeadLength(s[0])..])
  {
    if IsUtf8(s) {
      var vs :| EncodeAll(vs) == s;
      assert vs != [];
      HeadComplete(s, vs[0]);
      assert s[LeadLength(s[0])..] == EncodeAll(vs[1..]);
    }
    if HeadAccepted(s) && IsUtf8(s[LeadLength(s[0])..]) {
      HeadIsUtf8(s);
      var n := LeadLength(s[0]);
      ConcatIsUtf8(s[..n], s[n..]);
      assert s[..n] + s[n..] == s;
    }
  }

  /** `UTF8-octets`: any number of characters. */
  predicate IsUtf8Octets(s: seq<UInt8>) {
    s == [] || exists n :: 0 < n <= |s| && IsUtf8Char(s[..n]) && IsUtf8Octets(s[n..])
  }

  /** The concatenations of encodings are what the grammar produces. */
  lemma {:induction false} IsUtf8ByGrammar(s: seq<UInt8>)
    ensures IsUtf8(s) <==> IsUtf8Octets(s)
    decreases |s|
  {
    if s == [] {
      assert EncodeAll([]) == s;
    } else {
      HeadAndTail(s);
      forall n | 0 < n <= |s|
        ensures IsUtf8Char(s[..n]) <==> HeadAccepted(s) && LeadLength(s[0]) == n
        ensures IsUtf8(s[n..]) <==> IsUtf8Octets(s[n..])
      {
        HeadIsUtf8Char(s, n);
        IsUtf8ByGrammar(s[n..]);
      }
    }
  }

  lemma {:induction false} AsciiIsUtf8(s: seq<UInt8>)
    requires IsAscii(s)
    ensures IsUtf8(s)
  {
    if s == [] {
      assert EncodeAll([]) == s;
    } else {
      AsciiIsUtf8(s[1..]);
      assert Gathered(s, 1) == s[0];
      HeadAndTail(s);
    }
  }

  /** The first character of a non-empty UTF-8 string: `n` bytes, of which only the first is not a continuation. */
  lemma FirstCharacter(s: seq<UInt8>) returns (n: nat)
    requires IsUtf8(s) && s != []
    ensures 0 < n <= |s| && IsUtf8(s[..n]) && IsUtf8(s[n..])
    ensures forall k :: 1 <= k < n ==> IsContinuation(s[k])
  {
    HeadAndTail(s);
    HeadIsUtf8(s);
    n := LeadLength(s[0]);
  }

  /**
   * Self-synchronisation: a byte that is not a continuation byte starts a character, so the string can
   * be cut before it.
   */
  lemma {:induction false} CutBeforeLead(s: seq<UInt8>, i: nat)
    requires IsUtf8(s) && i <= |s|
    requires i < |s| ==> !IsContinuation(s[i])
    ensures IsUtf8(s[..i]) && IsUtf8(s[i..])
  {
    if i == 0 {
      AsciiIsUtf8(s[..0]);
      assert s[0..] == s;
    } else {
      var n := FirstCharacter(s);
      CutBeforeLead(s[n..], i - n);
      assert s[n..][i - n..] == s[i..];
      ConcatSlices(s, n, i);
    }
  }

  lemma StartsWithLead(s: seq<UInt8>)
    requires IsUtf8(s) && s != []
    ensures !IsContinuation(s[0])
  {
    HeadAndTail(s);
  }

  /** Cutting a whole UTF-8 substring out of a UTF-8 string leaves UTF-8 on both sides. */
  lemma CutAroundMatch(s: seq<UInt8>, i: nat, sep: seq<UInt8>)
    requires IsUtf8(s) && IsUtf8(sep) && sep != []
    requires i + |sep| <= |s| && s[i..i + |sep|] == sep
    ensures IsUtf8(s[..i]) && IsUtf8(s[i + |sep|..])
  {
    StartsWithLead(sep);
    assert s[i] == sep[0];
    CutBeforeLead(s, i);
    assert s[i..] == sep + s[i + |sep|..];
    SuffixIsUtf8(sep, s[i + |sep|..]);
  }
}
