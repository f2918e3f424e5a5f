/** The formatter's growing buffer, and formatting with literals and `%%` only. */
module FormatBuffer {
  import opened Allocation
  import opened Arrays
  import opened Encoding
  import opened Memory
  import opened Strings
  import opened Utf8

  /** The first capacity. */
  const INITIAL: nat := 64

  const PERCENT: UInt8 := 0x25

  function Pow2(k: nat): nat {
    if k == 0 then 1 else 2 * Pow2(k - 1)
  }

  ghost predicate IsDoubling(cap: nat) {
    exists k: nat :: cap == INITIAL * Pow2(k)
  }

  lemma {:induction false} PowPositive(k: nat)
    ensures Pow2(k) >= 1
  {
    if k > 0 {
      PowPositive(k - 1);
    }
  }

  lemma DoublingDoubles(cap: nat)
    requires IsDoubling(cap)
    ensures IsDoubling(2 * cap) && cap >= INITIAL
  {
    var k: nat :| cap == INITIAL * Pow2(k);
    assert 2 * cap == INITIAL * Pow2(k + 1);
    PowPositive(k);
  }

  class FmtBuf {
    var data: array<UInt8>
    var length: nat
    var cap: nat
    var failed: bool

    /** The sum of all capacities the buffer had before: what `realloc` has copied at most. */
    ghost var copied: nat

    /**
     * The capacity is 0 or 64 times a power of two, has room for a terminator, and is less than twice what is needed;
     * all that `realloc` ever copied is less than the capacity, so that the cost of appending is linear.
     */
    ghost predicate Valid()
      reads this, data
    {
      && data.Length == cap
      && (cap == 0 ==> length == 0 && copied == 0)
      && (cap > 0 ==> IsDoubling(cap) && copied < cap)
      && (cap > 0 ==> length + 1 <= cap && (cap == INITIAL || cap < 2 * (length + 1)))
    }

    ghost function Contents(): seq<UInt8>
      requires length <= data.Length
      reads this, data
    {
      data[..length]
    }

    constructor ()
      ensures Valid() && fresh(data) && Contents() == [] && !failed && cap == 0
    {
      data := new UInt8[0];
      length, cap, failed, copied := 0, 0, false, 0;
    }

    /** The capacity `__evfb_ensure` asks for. */
    method NewCapacity(extra: nat) returns (nc: nat)
      requires Valid() && length + extra + 1 > cap
      ensures IsDoubling(nc) && length + extra + 1 <= nc
      ensures nc == INITIAL || nc < 2 * (length + extra + 1)
      ensures nc >= 2 * cap
    {
      nc := if cap != 0 then cap else INITIAL;
      assert INITIAL == INITIAL * Pow2(0);
      while nc < length + extra + 1
        invariant IsDoubling(nc) && nc >= cap && nc > 0
        invariant nc == INITIAL || nc == cap || nc < 2 * (length + extra + 1)
        invariant nc == cap || nc >= 2 * cap
        decreases length + extra + 1 - nc
      {
        DoublingDoubles(nc);
        nc := nc * 2;
      }
    }

    /** `__evfb_ensure`. */
    method Ensure(a: Allocator, extra: nat)
      requires Valid()
      modifies this, data, a
      ensures a.failures >= old(a.failures)
      ensures length <= cap == data.Length && length == old(length) && Contents() == old(Contents())
      ensures data == old(data) || fresh(data)
      ensures old(failed) ==> failed && a.failures == old(a.failures)
      ensures !old(failed) ==> (failed <==> a.failures > old(a.failures))
      ensures failed ==> Valid()
      ensures !failed ==> length + extra + 1 <= cap && IsDoubling(cap) && copied < cap
      ensures !failed ==> cap == 64 || cap < 2 * (length + extra + 1)
    {
      if failed {
        return;
      }
      if length + extra + 1 > cap {
        var nc := NewCapacity(extra);
        var granted := a.Request();
        if !granted {
          failed := true;
          return;
        }
        ghost var text := data[..length];
        var p := Realloc(a, data, nc, 0);
        assert p[..length] == text;
        copied := copied + cap;
        data := p;
        cap := nc;
      }
    }

    /** `__evfb_bytes`. */
    method Bytes(a: Allocator, s: seq<UInt8>)
      requires Valid()
      modifies this, data, a
      ensures a.failures >= old(a.failures) && (data == old(data) || fresh(data))
      ensures Valid() && Contents() == if failed then old(Contents()) else old(Contents()) + s
      ensures old(failed) ==> failed && a.failures == old(a.failures)
      ensures !old(failed) ==> (failed <==> a.failures > old(a.failures))
    {
      Ensure(a, |s|);
      if failed {
        return;
      }
      ghost var before := Contents();
      forall i | 0 <= i < |s| {
        data[length + i] := s[i];
      }
      length := length + |s|;
      assert Contents() == before + s;
    }

    /** `__evfb_char`. */
    method Char(a: Allocator, c: UInt8)
      requires Valid()
      modifies this, data, a
      ensures a.failures >= old(a.failures) && (data == old(data) || fresh(data))
      ensures Valid() && Contents() == if failed then old(Contents()) else old(Contents()) + [c]
      ensures old(failed) ==> failed && a.failures == old(a.failures)
      ensures !old(failed) ==> (failed <==> a.failures > old(a.failures))
    {
      Ensure(a, 1);
      if failed {
        return;
      }
      ghost var before := Contents();
      data[length] := c;
      length := length + 1;
      assert Contents() == before + [c];
    }
  }

  // ---------------------------------------------------------------------------
  // Formatting without arguments
  // ---------------------------------------------------------------------------

  function Prefixed(c: UInt8, rest: Option<seq<UInt8>>): Option<seq<UInt8>> {
    match rest
    case Some(s) => Some([c] + s)
    case None => None
  }

  /** What a format without conversions stands for; a `%` that ends the format stands for itself. */
  function Expanded(fmt: seq<UInt8>): Option<seq<UInt8>> {
    if fmt == [] then Some([])
    else if fmt[0] != PERCENT then Prefixed(fmt[0], Expanded(fmt[1..]))
    else if |fmt| == 1 then Some([PERCENT])
    else if fmt[1] == PERCENT then Prefixed(PERCENT, Expanded(fmt[2..]))
    else None
  }

  /** Every `%` doubled. */
  function Doubled(s: seq<UInt8>): seq<UInt8> {
    if s == [] then []
    else if s[0] == PERCENT then [PERCENT, PERCENT] + Doubled(s[1..])
    else [s[0]] + Doubled(s[1..])
  }

  lemma {:induction false} DoubledExpands(s: seq<UInt8>)
    ensures Expanded(Doubled(s)) == Some(s)
    ensures NulFree(s) ==> NulFree(Doubled(s))
  {
    if s != [] {
      DoubledExpands(s[1..]);
      var d := Doubled(s);
      if s[0] == PERCENT {
        assert d[2..] == Doubled(s[1..]);
      } else {
        assert d[1..] == Doubled(s[1..]);
      }
      assert s == [s[0]] + s[1..];
    }
  }

  /** `Doubled` from the other end. */
  lemma {:induction false} DoubledMore(s: seq<UInt8>, c: UInt8)
    ensures Doubled([]) == []
    ensures Doubled(s + [c]) == Doubled(s) + if c == 0x25 then [0x25, 0x25] else [c]
  {
    if s == [] {
      assert s + [c] == [c] && [c][1..] == [];
    } else {
      DoubledMore(s[1..], c);
      assert (s + [c])[1..] == s[1..] + [c];
    }
  }

  /** What a format without conversions stands for: its text with every `%` doubled, but for one that ends it. */
  predicate StandsFor(fmt: seq<UInt8>, s: seq<UInt8>) {
    fmt == Doubled(s) || (s != [] && s[|s| - 1] == 0x25 && fmt == Doubled(s[..|s| - 1]) + [0x25])
  }

  lemma {:induction false} PercentAtEnd(s: seq<UInt8>)
    ensures Expanded(Doubled(s) + [PERCENT]) == Some(s + [PERCENT])
  {
    if s == [] {
      assert Doubled(s) + [PERCENT] == [PERCENT];
    } else {
      var rest := Doubled(s[1..]) + [PERCENT];
      PercentAtEnd(s[1..]);
      assert s + [PERCENT] == [s[0]] + (s[1..] + [PERCENT]);
      assert Doubled(s) + [PERCENT] == (if s[0] == PERCENT then [PERCENT, PERCENT] else [s[0]]) + rest;
    }
  }

  lemma StandsForMore(c: UInt8, rest: seq<UInt8>, s: seq<UInt8>)
    requires StandsFor(rest, s)
    ensures StandsFor((if c == 0x25 then [0x25, 0x25] else [c]) + rest, [c] + s)
  {
    var t := [c] + s;
    assert t[1..] == s;
    if rest != Doubled(s) {
      assert t[..|t| - 1] == [c] + s[..|s| - 1];
      assert ([c] + s[..|s| - 1])[1..] == s[..|s| - 1];
    }
  }

  lemma {:induction false} ExpansionStands(fmt: seq<UInt8>)
    requires Expanded(fmt).Some?
    ensures StandsFor(fmt, Expanded(fmt).value)
    decreases |fmt|
  {
    if fmt == [] {
      assert Doubled([]) == [];
    } else if fmt[0] != PERCENT {
      ExpansionStands(fmt[1..]);
      StandsForMore(fmt[0], fmt[1..], Expanded(fmt[1..]).value);
      assert fmt == [fmt[0]] + fmt[1..];
    } else if |fmt| == 1 {
      assert Doubled([PERCENT][..0]) + [PERCENT] == fmt;
    } else {
      ExpansionStands(fmt[2..]);
      StandsForMore(PERCENT, fmt[2..], Expanded(fmt[2..]).value);
      assert fmt == [PERCENT, PERCENT] + fmt[2..];
    }
  }

  /** And those are all the formats without conversions. */
  lemma ExpandedExactly(fmt: seq<UInt8>, s: seq<UInt8>)
    ensures Expanded(fmt) == Some(s) <==> StandsFor(fmt, s)
  {
    if Expanded(fmt) == Some(s) {
      ExpansionStands(fmt);
    }
    if StandsFor(fmt, s) {
      if fmt == Doubled(s) {
        DoubledExpands(s);
      } else {
        PercentAtEnd(s[..|s| - 1]);
        assert s == s[..|s| - 1] + [PERCENT];
      }
    }
  }

  /** Text without `%` stands for itself. */
  lemma {:induction false} ExpandedLiteral(text: seq<UInt8>, rest: seq<UInt8>)
    requires PERCENT !in text
    ensures Expanded(text + rest) == match Expanded(rest) case Some(s) => Some(text + s) case None => None
    decreases |text|
  {
    if text == [] {
      assert text + rest == rest;
      match Expanded(rest)
      case Some(s) => assert text + s == s;
      case None =>
    } else {
      ExpandedLiteral(text[1..], rest);
      assert (text + rest)[1..] == text[1..] + rest;
      match Expanded(rest)
      case Some(s) => assert text + s == [text[0]] + (text[1..] + s);
      case None =>
    }
  }

  lemma {:induction false} DoubledLiteral(text: seq<UInt8>, rest: seq<UInt8>)
    requires PERCENT !in text
    ensures Doubled(text + rest) == text + Doubled(rest)
    decreases |text|
  {
    if text == [] {
      assert text + rest == rest;
    } else {
      var s, more := text + rest, text[1..] + rest;
      assert s[1..] == more && s[0] == text[0];
      assert Doubled(s) == [s[0]] + Doubled(more);
      hide Doubled;
      DoubledLiteral(text[1..], rest);
      assert text + Doubled(rest) == [text[0]] + (text[1..] + Doubled(rest));
    }
  }

  /** A string either starts with `%` or with a character that has no `%` byte. */
  lemma FirstLiteral(s: seq<UInt8>) returns (n: nat)
    requires IsUtf8(s) && s != [] && s[0] != PERCENT
    ensures 0 < n <= |s| && IsUtf8(s[..n]) && IsUtf8(s[n..]) && PERCENT !in s[..n] && s == s[..n] + s[n..]
  {
    n := FirstCharacter(s);
    assert forall k :: 1 <= k < n ==> s[k] != PERCENT;
  }

  lemma PercentIsUtf8()
    ensures IsUtf8([PERCENT]) && IsUtf8([PERCENT, PERCENT])
  {
    AsciiIsUtf8([PERCENT]);
    AsciiIsUtf8([PERCENT, PERCENT]);
  }

  lemma CutPercents(fmt: seq<UInt8>)
    requires IsUtf8(fmt) && |fmt| > 1 && fmt[0] == PERCENT && fmt[1] == PERCENT
    ensures IsUtf8(fmt[2..])
  {
    CutAfterAscii(UTF8, fmt, 1);
  }

  /** Expansion never cuts a character in two. */
  lemma {:induction false} ExpandedIsUtf8(fmt: seq<UInt8>)
    requires IsUtf8(fmt) && NulFree(fmt) && Expanded(fmt).Some?
    ensures IsUtf8(Expanded(fmt).value) && NulFree(Expanded(fmt).value)
    decreases |fmt|
  {
    if fmt == [] {
    } else if fmt[0] == PERCENT {
      PercentIsUtf8();
      if |fmt| > 1 {
        CutPercents(fmt);
        ExpandedIsUtf8(fmt[2..]);
        ConcatIsUtf8([PERCENT], Expanded(fmt[2..]).value);
      }
    } else {
      var n := FirstLiteral(fmt);
      ExpandedLiteral(fmt[..n], fmt[n..]);
      ExpandedIsUtf8(fmt[n..]);
      ConcatIsUtf8(fmt[..n], Expanded(fmt[n..]).value);
    }
  }

  lemma {:induction false} DoubledIsUtf8(s: seq<UInt8>)
    requires IsUtf8(s)
    ensures IsUtf8(Doubled(s))
    decreases |s|
  {
    if s == [] {
    } else if s[0] == PERCENT {
      PercentIsUtf8();
      CutAfterAscii(UTF8, s, 0);
      DoubledIsUtf8(s[1..]);
      ConcatIsUtf8([PERCENT, PERCENT], Doubled(s[1..]));
    } else {
      var n := FirstLiteral(s);
      DoubledLiteral(s[..n], s[n..]);
      DoubledIsUtf8(s[n..]);
      ConcatIsUtf8(s[..n], Doubled(s[n..]));
    }
  }

  /** What the next round of the loop adds. */
  lemma ExpandedFrom(text: seq<UInt8>, p: nat)
    requires p < |text| && Expanded(text[p..]).Some?
    ensures text[p] != PERCENT ==>
              && Expanded(text[p + 1..]).Some?
              && Expanded(text[p..]).value == [text[p]] + Expanded(text[p + 1..]).value
    ensures text[p] == PERCENT && p + 1 < |text| ==>
              && text[p + 1] == PERCENT && Expanded(text[p + 2..]).Some?
              && Expanded(text[p..]).value == [PERCENT] + Expanded(text[p + 2..]).value
    ensures text[p] == PERCENT && p + 1 == |text| ==>
              Expanded(text[p..]).value == [PERCENT] && Expanded(text[p + 1..]) == Some([])
  {
    var rest := text[p..];
    assert rest[1..] == text[p + 1..];
    if |rest| > 1 {
      assert rest[2..] == text[p + 2..];
    }
  }

  /** Whatever a string's encoding is, its bytes are UTF-8. */
  lemma AlwaysUtf8(encoding: StringEncoding, s: seq<UInt8>)
    requires Complies(encoding, s)
    ensures Complies(UTF8, s)
  {
    if encoding == UTF7 {
      AsciiIsUtf8(s);
    }
  }

  /** What follows a percent sign. */
  method ScanPercent(a: Allocator, b: FmtBuf, fmt: array<UInt8>, ghost text: seq<UInt8>, p: nat) returns (q: nat)
    requires b.Valid() && b.data != fmt && p < |text| < fmt.Length && text == fmt[..|text|] && fmt[|text|] == 0
    requires fmt[p] == PERCENT && Expanded(text[p..]).Some?
    modifies b, b.data, a
    ensures b.Valid() && (b.data == old(b.data) || fresh(b.data))
    ensures old(b.failed) ==> b.failed && a.failures == old(a.failures)
    ensures !old(b.failed) ==> (b.failed <==> a.failures > old(a.failures))
    ensures a.failures >= old(a.failures)
    ensures p < q <= |text| && Expanded(text[q..]).Some?
    ensures !b.failed ==> b.Contents() + Expanded(text[q..]).value == old(b.Contents()) + Expanded(text[p..]).value
  {
    ExpandedFrom(text, p);
    hide Expanded;
    q := p + 1;
    if fmt[q] == PERCENT {
      b.Char(a, PERCENT);
      q := q + 1;
    } else {
      assert q == |text|;  // any other byte would start a conversion
      b.Bytes(a, [PERCENT]);
    }
  }

  /** One round of the scanning loop. */
  method ScanOnce(a: Allocator, b: FmtBuf, fmt: array<UInt8>, ghost text: seq<UInt8>, p: nat) returns (q: nat)
    requires b.Valid() && b.data != fmt && p < |text| < fmt.Length && text == fmt[..|text|] && fmt[|text|] == 0
    requires Expanded(text[p..]).Some?
    modifies b, b.data, a
    ensures b.Valid() && (b.data == old(b.data) || fresh(b.data))
    ensures old(b.failed) ==> b.failed && a.failures == old(a.failures)
    ensures !old(b.failed) ==> (b.failed <==> a.failures > old(a.failures))
    ensures a.failures >= old(a.failures)
    ensures p < q <= |text| && Expanded(text[q..]).Some?
    ensures !b.failed ==> b.Contents() + Expanded(text[q..]).value == old(b.Contents()) + Expanded(text[p..]).value
  {
    ExpandedFrom(text, p);
    hide Expanded;
    if fmt[p] != PERCENT {
      b.Char(a, fmt[p]);
      q := p + 1;
    } else {
      q := ScanPercent(a, b, fmt, text, p);
    }
  }

  /**
   * The scanning loop of `EFStringCreateWithFormatAndArguments`, for formats without conversions. `fmt` is what the
   * pointer designates, up to and with the terminator.
   */
  method Scan(a: Allocator, fmt: array<UInt8>, length: nat) returns (b: FmtBuf)
    requires length < fmt.Length && fmt[length] == 0 && NulFree(fmt[..length]) && Expanded(fmt[..length]).Some?
    modifies a
    ensures fresh(b) && fresh(b.data) && b.Valid() && a.failures >= old(a.failures)
    ensures b.failed <==> a.failures > old(a.failures)
    ensures !b.failed ==> b.Contents() == Expanded(fmt[..length]).value
  {
    assert Expanded([]) == Some([]);
    hide Expanded;
    b := new FmtBuf();
    ghost var text := fmt[..length];
    var p := 0;
    assert text[p..] == text;
    while fmt[p] != 0
      invariant p <= length
      invariant fresh(b) && fresh(b.data) && b.Valid() && a.failures >= old(a.failures)
      invariant b.failed <==> a.failures > old(a.failures)
      invariant Expanded(text[p..]).Some?
      invariant !b.failed ==> b.Contents() + Expanded(text[p..]).value == Expanded(text).value
      decreases length - p
    {
      p := ScanOnce(a, b, fmt, text, p);
    }
    assert text[p..] == [];
  }

  /**
   * `EFStringCreateWithFormat` with a format without conversions. Only a lack of memory makes it fail: what the
   * buffer holds is valid.
   */
  method CreateWithFormat(a: Allocator, format: EFString?) returns (r: EFString?)
    requires format != null ==> format.Valid() && format.length < format.buffer.Length
    requires format != null ==> format.buffer[format.length] == 0 && Expanded(format.Contents()).Some?
    modifies a
    ensures format == null ==> r == null
    ensures format != null ==> (r != null <==> a.failures == old(a.failures))
    ensures r != null ==> fresh(r) && r.Valid() && r.Contents() == Expanded(format.Contents()).value
  {
    if format == null {
      return null;
    }
    var complies := ValidateEncoding(UTF8, format.buffer[..format.length]);
    if !complies {
      AlwaysUtf8(format.encoding, format.Contents());
      return null;
    }
    var b := Scan(a, format.buffer, format.length);
    if b.failed {
      return null;
    }
    ExpandedIsUtf8(format.Contents());
    BeforeNulAt(b.data[..b.length], b.length);
    assert b.data[..b.length][..b.length] == b.Contents();
    var result := CreateOwned(a, b.data[..b.length], UTF8, false);
    r := if result.Created? then result.string_ else null;
  }

  /** Doubling every `%` of a string and formatting the result gives the string back. */
  method FormatDoubled(a: Allocator, text: seq<UInt8>) returns (format: EFString?, r: EFString?)
    requires IsUtf8(text) && NulFree(text)
    modifies a
    ensures r != null <==> a.failures == old(a.failures)
    ensures r != null ==> r.Valid() && r.Contents() == text
  {
    DoubledIsUtf8(text);
    DoubledExpands(text);
    BeforeNulAt(Doubled(text), |Doubled(text)|);
    assert Doubled(text)[..|Doubled(text)|] == Doubled(text);
    var result := CreateOwned(a, Doubled(text), UTF8, false);
    if !result.Created? {
      return null, null;
    }
    format := result.string_;
    r := CreateWithFormat(a, format);
  }
}
