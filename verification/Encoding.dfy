/** `__EFStringValidateEncoding`: the encodings of a string and the check that bytes comply to one. */
module Encoding {
  import opened Utf8

  /** `kEFStringEncoding`; ASCII is an alias of `UTF7`, and any other code falls through the `switch`. */
  datatype StringEncoding = UTF7 | UTF8 | Unknown(code: nat)

  ghost predicate Complies(encoding: StringEncoding, s: seq<UInt8>) {
    match encoding
    case UTF7 => IsAscii(s)
    case UTF8 => IsUtf8(s)
    case Unknown(_) => false
  }

  lemma ConcatComplies(encoding: StringEncoding, s: seq<UInt8>, t: seq<UInt8>)
    requires Complies(encoding, s) && Complies(encoding, t)
    ensures Complies(encoding, s + t)
  {
    if encoding == UTF8 {
      ConcatIsUtf8(s, t);
    }
  }

  /** A string may be cut before any position that holds an ASCII byte, and before its end. */
  lemma CutBeforeAscii(encoding: StringEncoding, s: seq<UInt8>, i: nat)
    requires Complies(encoding, s) && i <= |s|
    requires i < |s| ==> s[i] < 0x80
    ensures Complies(encoding, s[..i]) && Complies(encoding, s[i..])
  {
    if encoding == UTF8 {
      CutBeforeLead(s, i);
    }
  }

  /** A string may be cut after any ASCII byte. */
  lemma CutAfterAscii(encoding: StringEncoding, s: seq<UInt8>, i: nat)
    requires Complies(encoding, s) && i < |s| && s[i] < 0x80
    ensures Complies(encoding, s[..i + 1]) && Complies(encoding, s[i + 1..])
  {
    if encoding == UTF8 {
      var c := [s[i]];
      AsciiIsUtf8(c);
      assert s[i..i + |c|] == c;
      CutAroundMatch(s, i, c);
      ConcatIsUtf8(s[..i], c);
      assert s[..i] + c == s[..i + 1];
    }
  }

  /** A string may be cut before any position that holds the first byte of something that complies. */
  lemma CutBeforeStart(encoding: StringEncoding, s: seq<UInt8>, i: nat, sep: seq<UInt8>)
    requires Complies(encoding, s) && Complies(encoding, sep) && sep != []
    requires i < |s| && s[i] == sep[0]
    ensures Complies(encoding, s[..i])
  {
    if encoding == UTF8 {
      StartsWithLead(sep);
      CutBeforeLead(s, i);
    }
  }

  /** What is left on both sides of a non-empty substring that complies by itself complies. */
  lemma CutAroundComplies(encoding: StringEncoding, s: seq<UInt8>, i: nat, sep: seq<UInt8>)
    requires Complies(encoding, s) && Complies(encoding, sep) && sep != []
    requires i + |sep| <= |s| && s[i..i + |sep|] == sep
    ensures Complies(encoding, s[..i]) && Complies(encoding, s[i + |sep|..])
  {
    if encoding == UTF8 {
      CutAroundMatch(s, i, sep);
    }
  }

  // ---------------------------------------------------------------------------
  // Masks and shifts
  // ---------------------------------------------------------------------------

  /** The source's 32-bit `unsigned int`. */
  type UInt32 = x: int | 0 <= x < 0x1_0000_0000

  lemma ShiftOneBit(b: bv8)
    requires b as int < 0x80
    ensures (b << 1) as int == b as int * 2
    ensures ((b << 1) | 1) as int == b as int * 2 + 1
  {
  }

  /**
   * The bits of a byte: C's implicit conversion. Building them from the binary expansion is a device of the proof,
   * since the verifier does not relate a cast to arithmetic.
   */
  method ByteBits(n: UInt8) returns (b: bv8)
    ensures b as int == n
  {
    if n == 0 {
      return 0;
    }
    b := ByteBits(n / 2);
    ShiftOneBit(b);
    b := if n % 2 == 0 then b << 1 else (b << 1) | 1;
  }

  lemma ShiftOneBit32(b: bv32)
    requires b as int < 0x8000_0000
    ensures (b << 1) as int == b as int * 2
    ensures ((b << 1) | 1) as int == b as int * 2 + 1
  {
  }

  /** The same for an `unsigned int`. */
  method IntBits(n: UInt32) returns (b: bv32)
    ensures b as int == n
  {
    if n == 0 {
      return 0;
    }
    b := IntBits(n / 2);
    ShiftOneBit32(b);
    b := if n % 2 == 0 then b << 1 else (b << 1) | 1;
  }

  lemma LeadMasks(b: bv8)
    ensures b & 0xE0 == 0xC0 <==> 0xC0 <= b as int < 0xE0
    ensures b & 0xF0 == 0xE0 <==> 0xE0 <= b as int < 0xF0
    ensures b & 0xF8 == 0xF0 <==> 0xF0 <= b as int < 0xF8
    ensures b & 0xC0 == 0x80 <==> 0x80 <= b as int < 0xC0
  {
  }

  lemma Payload5(b: bv8)
    ensures (b & 0x1F) as int == b as int % 0x20
  {
  }

  lemma Payload4(b: bv8)
    ensures (b & 0x0F) as int == b as int % 0x10
  {
  }

  lemma Payload3(b: bv8)
    ensures (b & 0x07) as int == b as int % 0x08
  {
  }

  /** Appending six payload bits multiplies by 64 and adds. */
  lemma ShiftIn(cp: bv32, b: bv8)
    requires cp as int < 0x8000
    ensures ((cp << 6) | (b & 0x3F) as bv32) as int == cp as int * 0x40 + b as int % 0x40
  {
  }

  // ---------------------------------------------------------------------------
  // The validator
  // ---------------------------------------------------------------------------

  /** The sequence length announced by the lead byte and its payload; length 0 if the byte cannot lead. */
  method ReadLead(lead: UInt8) returns (seqlen: nat, cp: UInt32)
    ensures seqlen == LeadLength(lead)
    ensures seqlen > 0 ==> cp == LeadValue(lead)
  {
    var c := ByteBits(lead);
    LeadMasks(c);
    Payload5(c);
    Payload4(c);
    Payload3(c);
    if lead < 0x80 {
      return 1, lead;
    } else if c & 0xE0 == 0xC0 {
      return 2, (c & 0x1F) as int;
    } else if c & 0xF0 == 0xE0 {
      return 3, (c & 0x0F) as int;
    } else if c & 0xF8 == 0xF0 {
      return 4, (c & 0x07) as int;
    } else {
      return 0, 0;
    }
  }

  /** `k` bytes of a character announced as `n` bytes long hold a value below this bound. */
  ghost function Bound(n: nat, k: nat): nat {
    match n
    case 1 => 0x80
    case 2 => if k == 1 then 0x20 else 0x800
    case 3 => if k == 1 then 0x10 else if k == 2 then 0x400 else 0x10000
    case _ => if k == 1 then 0x08 else if k == 2 then 0x200 else if k == 3 then 0x8000 else 0x200000
  }

  /** Checks one continuation byte and shifts its payload in. */
  method ReadContinuation(gathered: UInt32, byte: UInt8) returns (ok: bool, cp: UInt32)
    requires gathered < 0x8000
    ensures ok <==> IsContinuation(byte)
    ensures ok ==> cp == gathered * 0x40 + (byte as int - 0x80)
  {
    var cc := ByteBits(byte);
    LeadMasks(cc);
    var bits := IntBits(gathered);
    ShiftIn(bits, cc);
    ok := cc & 0xC0 == 0x80;
    cp := ((bits << 6) | (cc & 0x3F) as bv32) as int;
  }

  /** Gathers the continuation bytes of the character that starts at `buffer[i]`. */
  method ReadContinuations(buffer: seq<UInt8>, i: nat, seqlen: nat, lead: UInt32) returns (ok: bool, cp: UInt32)
    requires i < |buffer| && 1 <= seqlen == LeadLength(buffer[i]) && i + seqlen <= |buffer|
    requires lead == LeadValue(buffer[i])
    ensures ok <==> forall j :: 1 <= j < seqlen ==> IsContinuation(buffer[i..][j])
    ensures ok ==> cp == Gathered(buffer[i..], seqlen)
  {
    ghost var s := buffer[i..];
    cp := lead;
    ok := true;
    var k := 1;
    while k < seqlen
      invariant 1 <= k <= seqlen
      invariant forall j :: 1 <= j < k ==> IsContinuation(s[j])
      invariant ok && cp == Gathered(s, k) < Bound(seqlen, k)
    {
      assert s[k] == buffer[i + k];
      ok, cp := ReadContinuation(cp, buffer[i + k]);
      if !ok {
        return;
      }
      k := k + 1;
    }
  }

  /** The UTF-8 case: sections 3 and 4 of RFC 3629. */
  method ValidateUtf8(buffer: seq<UInt8>) returns (ok: bool)
    ensures ok <==> IsUtf8(buffer)
  {
    var i := 0;
    while i < |buffer|
      invariant i <= |buffer|
      invariant IsUtf8(buffer) <==> IsUtf8(buffer[i..])
    {
      HeadAndTail(buffer[i..]);
      var seqlen, cp := ReadLead(buffer[i]);
      if seqlen == 0 || i + seqlen > |buffer| {
        return false;
      }
      var continued;
      continued, cp := ReadContinuations(buffer, i, seqlen, cp);
      if !continued {
        return false;
      }
      if cp < MinValue(seqlen) {
        return false;
      }
      if cp > 0x10FFFF {
        return false;
      }
      if cp >= 0xD800 && cp <= 0xDFFF {
        return false;
      }
      assert buffer[i..][seqlen..] == buffer[i + seqlen..];
      i := i + seqlen;
    }
    AsciiIsUtf8(buffer[i..]);
    return true;
  }

  /** `__EFStringValidateEncoding`. */
  method ValidateEncoding(encoding: StringEncoding, buffer: seq<UInt8>) returns (ok: bool)
    ensures ok <==> Complies(encoding, buffer)
    ensures encoding == UTF7 ==> (ok <==> forall i :: 0 <= i < |buffer| ==> buffer[i] <= 0x7F)
    ensures encoding == UTF8 ==> (ok <==> IsUtf8Octets(buffer))
    ensures encoding.Unknown? ==> !ok
  {
    match encoding
    case UTF7 =>
      var i := 0;
      while i < |buffer|
        invariant i <= |buffer|
        invariant forall j :: 0 <= j < i ==> buffer[j] < 0x80
      {
        if buffer[i] > 0x7F {
          return false;
        }
        i := i + 1;
      }
      return true;
    case UTF8 =>
      IsUtf8ByGrammar(buffer);
      ok := ValidateUtf8(buffer);
    case Unknown(_) =>
      return false;
  }
}
