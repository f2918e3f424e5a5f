/** `EFString`: creation, copying, equality, and the in-place edits of a mutable string. */
module Strings {
  import opened Allocation
  import opened Encoding
  import opened Memory
  import opened Utf8

  // ---------------------------------------------------------------------------
  // Specification functions on byte strings
  // ---------------------------------------------------------------------------

  predicate NulFree(s: seq<UInt8>) {
    0 !in s
  }

  /** The bytes before the first NUL: what `strnlen` measures. */
  function BeforeNul(s: seq<UInt8>): (r: seq<UInt8>)
    ensures r <= s && 0 !in r
    ensures |r| < |s| ==> s[|r|] == 0
  {
    if s == [] || s[0] == 0 then [] else
      var r := BeforeNul(s[1..]);
      [s[0]] + r
  }

  predicate IsWhitespace(c: UInt8) {
    c == 0x20 || c == 0x09 || c == 0x0A || c == 0x0D || c == 0x0B || c == 0x0C
  }

  /** The six bytes that `isspace` accepts in the C locale. */
  lemma WhitespaceBytes(c: UInt8)
    ensures IsWhitespace(c) <==> c == 0x20 || 0x09 <= c <= 0x0D
  {
  }

  predicate AllWhitespace(s: seq<UInt8>) {
    forall i :: 0 <= i < |s| ==> IsWhitespace(s[i])
  }

  /** No whitespace at either edge. */
  predicate EdgesBlack(s: seq<UInt8>) {
    s != [] ==> !IsWhitespace(s[0]) && !IsWhitespace(s[|s| - 1])
  }

  function Trimmed(s: seq<UInt8>): seq<UInt8> {
    if s == [] then []
    else if IsWhitespace(s[0]) then Trimmed(s[1..])
    else if IsWhitespace(s[|s| - 1]) then Trimmed(s[..|s| - 1])
    else s
  }

  /** `Trimmed` is the only middle part whose edges are black and whose surroundings are whitespace. */
  lemma {:induction false} TrimUnique(before: seq<UInt8>, middle: seq<UInt8>, after: seq<UInt8>)
    requires AllWhitespace(before) && AllWhitespace(after) && EdgesBlack(middle)
    ensures Trimmed(before + middle + after) == middle
    decreases |before| + |after|
  {
    var s := before + middle + after;
    if before != [] {
      TrimUnique(before[1..], middle, after);
      assert s[1..] == before[1..] + middle + after;
    } else if after != [] {
      assert IsWhitespace(s[|s| - 1]);
      if middle == [] {
        assert s[1..] == before + middle + after[1..];
        TrimUnique(before, middle, after[1..]);
      } else {
        assert s[..|s| - 1] == before + middle + after[..|after| - 1];
        TrimUnique(before, middle, after[..|after| - 1]);
      }
    } else {
      assert s == middle;
    }
  }

  /** Such a decomposition exists for every byte string. */
  lemma {:induction false} TrimDecomposition(s: seq<UInt8>) returns (before: seq<UInt8>, after: seq<UInt8>)
    ensures AllWhitespace(before) && AllWhitespace(after) && EdgesBlack(Trimmed(s))
    ensures s == before + Trimmed(s) + after
  {
    if s == [] {
      before, after := [], [];
    } else if IsWhitespace(s[0]) {
      before, after := TrimDecomposition(s[1..]);
      before := [s[0]] + before;
    } else if IsWhitespace(s[|s| - 1]) {
      before, after := TrimDecomposition(s[..|s| - 1]);
      after := after + [s[|s| - 1]];
    } else {
      before, after := [], [];
    }
  }

  lemma TrimSlice(s: seq<UInt8>, start: nat, end: nat)
    requires start <= end < |s| && !IsWhitespace(s[start]) && !IsWhitespace(s[end])
    requires AllWhitespace(s[..start]) && AllWhitespace(s[end + 1..])
    ensures Trimmed(s) == s[start..end + 1]
    ensures NulFree(s) ==> NulFree(Trimmed(s))
  {
    TrimUnique(s[..start], s[start..end + 1], s[end + 1..]);
    assert s[..start] + s[start..end + 1] + s[end + 1..] == s;
  }

  lemma TrimAll(s: seq<UInt8>)
    requires AllWhitespace(s)
    ensures Trimmed(s) == []
  {
    TrimUnique(s, [], []);
    assert s + [] + [] == s;
  }

  lemma TrimIdempotent(s: seq<UInt8>)
    ensures Trimmed(Trimmed(s)) == Trimmed(s)
  {
    var before, after := TrimDecomposition(s);
    TrimUnique([], Trimmed(s), []);
    assert [] + Trimmed(s) + [] == Trimmed(s);
  }

  /** Trimming never cuts a character in two. */
  lemma {:induction false} TrimComplies(encoding: StringEncoding, s: seq<UInt8>)
    requires Complies(encoding, s)
    ensures Complies(encoding, Trimmed(s))
    decreases |s|
  {
    if s == [] {
    } else if IsWhitespace(s[0]) {
      CutAfterAscii(encoding, s, 0);
      TrimComplies(encoding, s[1..]);
    } else if IsWhitespace(s[|s| - 1]) {
      CutBeforeAscii(encoding, s, |s| - 1);
      TrimComplies(encoding, s[..|s| - 1]);
    }
  }

  lemma {:induction false} BeforeNulAt(s: seq<UInt8>, n: nat)
    requires n <= |s| && NulFree(s[..n])
    requires n < |s| ==> s[n] == 0
    ensures BeforeNul(s) == s[..n]
  {
    if n > 0 {
      assert s[..n][0] == s[0];
      assert s[1..][..n - 1] == s[..n][1..];
      BeforeNulAt(s[1..], n - 1);
    }
  }

  /** A successful edit of a mutable string. */
  datatype Edit = Append(bytes: seq<UInt8>) | Trim

  function Edited(text: seq<UInt8>, edits: seq<Edit>): seq<UInt8> {
    if edits == [] then text else
      var before := Edited(text, edits[..|edits| - 1]);
      match edits[|edits| - 1]
      case Append(bytes) => before + bytes
      case Trim => Trimmed(before)
  }

  lemma TrimNulFree(s: seq<UInt8>)
    requires NulFree(s)
    ensures NulFree(Trimmed(s))
  {
    var before, after := TrimDecomposition(s);
    assert forall i :: 0 <= i < |Trimmed(s)| ==> Trimmed(s)[i] == s[|before| + i];
  }

  /** No run of edits with text that complies can make a string invalid, or bring a NUL into it. */
  lemma {:induction false} EditsComply(encoding: StringEncoding, text: seq<UInt8>, edits: seq<Edit>)
    requires Complies(encoding, text) && NulFree(text)
    requires forall e :: e in edits && e.Append? ==> Complies(encoding, e.bytes) && NulFree(e.bytes)
    ensures Complies(encoding, Edited(text, edits)) && NulFree(Edited(text, edits))
  {
    if edits != [] {
      EditsComply(encoding, text, edits[..|edits| - 1]);
      var before, last := Edited(text, edits[..|edits| - 1]), edits[|edits| - 1];
      assert last in edits;
      if last.Append? {
        ConcatComplies(encoding, before, last.bytes);
      } else {
        TrimComplies(encoding, before);
        TrimNulFree(before);
      }
    }
  }

  // ---------------------------------------------------------------------------
  // The string object
  // ---------------------------------------------------------------------------

  class EFString {
    const encoding: StringEncoding
    const isMutable: bool
    const isInlined: bool
    var buffer: array<UInt8>
    var length: nat

    /**
     * The text complies to the declared encoding and holds no NUL. A string that owns its bytes is terminated;
     * one made without copying points into the caller's buffer and need not be.
     */
    ghost predicate Valid()
      reads this, buffer
    {
      && length <= buffer.Length && (isMutable ==> !isInlined)
      && Complies(encoding, buffer[..length])
      && NulFree(buffer[..length])
      && (isMutable || isInlined ==> length < buffer.Length && buffer[length] == 0)
    }

    ghost function Contents(): seq<UInt8>
      requires length <= buffer.Length
      reads this, buffer
    {
      buffer[..length]
    }

    constructor (buffer: array<UInt8>, length: nat, encoding: StringEncoding, isInlined: bool, isMutable: bool)
      ensures this.buffer == buffer && this.length == length && this.encoding == encoding
      ensures this.isInlined == isInlined && this.isMutable == isMutable
    {
      this.buffer := buffer;
      this.length := length;
      this.encoding := encoding;
      this.isInlined := isInlined;
      this.isMutable := isMutable;
    }

    method ScanStart() returns (start: nat)
      requires Valid()
      ensures start <= length && AllWhitespace(Contents()[..start])
      ensures start < length ==> !IsWhitespace(buffer[start])
    {
      start := 0;
      while start < length && IsWhitespace(buffer[start])
        invariant start <= length
        invariant AllWhitespace(Contents()[..start])
      {
        start := start + 1;
      }
    }

    method ScanEnd(start: nat) returns (end: nat)
      requires Valid() && start < length && !IsWhitespace(buffer[start])
      ensures start <= end < length && !IsWhitespace(buffer[end])
      ensures AllWhitespace(Contents()[end + 1..])
    {
      end := length - 1;
      while end > start && IsWhitespace(buffer[end])
        invariant start <= end < length
        invariant AllWhitespace(Contents()[end + 1..])
      {
        end := end - 1;
      }
    }

    /** Moves the kept bytes to the front and terminates them. */
    method KeepSlice(start: nat, newLen: nat)
      requires start + newLen <= length < buffer.Length
      modifies this, buffer
      ensures buffer == old(buffer) && length == newLen && buffer[length] == 0
      ensures buffer[..length] == old(buffer[start..start + newLen])
    {
      if start != 0 {
        Memmove(buffer, 0, buffer, start, newLen);
      }
      assert buffer[..newLen] == old(buffer[start..start + newLen]);
      buffer[newLen] := 0;
      length := newLen;
    }

    /** The case of a text that is not all whitespace. */
    method TrimFrom(start: nat)
      requires Valid() && isMutable && start < length && !IsWhitespace(buffer[start])
      requires AllWhitespace(Contents()[..start])
      modifies this, buffer
      ensures buffer == old(buffer) && length < buffer.Length && buffer[length] == 0
      ensures Contents() == Trimmed(old(Contents())) && NulFree(Contents())
    {
      hide Complies, Trimmed, AllWhitespace, NulFree;
      ghost var text := Contents();
      var end := ScanEnd(start);
      var newLen := end - start + 1;
      TrimSlice(text, start, end);
      assert text[start..end + 1] == buffer[start..start + newLen];
      KeepSlice(start, newLen);
    }

    /** `EFStringTrimWhitespace`. */
    method TrimWhitespace() returns (ok: bool)
      requires Valid()
      modifies this, buffer
      ensures Valid() && buffer == old(buffer)
      ensures ok == isMutable
      ensures Contents() == if ok then Trimmed(old(Contents())) else old(Contents())
      ensures !ok ==> buffer[..] == old(buffer[..])
    {
      if !isMutable {
        return false;
      }
      hide Complies, Trimmed, AllWhitespace, NulFree;
      ghost var text := Contents();
      TrimComplies(encoding, text);
      var start := ScanStart();
      if start == length {
        assert text[..start] == text;
        TrimAll(text);
        buffer[0] := 0;
        length := 0;
      } else {
        TrimFrom(start);
      }
      return true;
    }

    /** Another string whose pointer is the receiver's: an immutable copy that was not inlined. */
    ghost predicate SharesWith(other: EFString?)
      reads this, other
    {
      other != null && other != this && other.buffer == buffer
    }

    /** Reallocates the buffer and copies the other string behind the text. */
    method ExtendWith(a: Allocator, other: EFString, totalNewLength: nat)
      requires length <= buffer.Length && other.length <= other.buffer.Length
      requires totalNewLength == length + other.length + 1
      modifies this, buffer, a`freed
      ensures fresh(buffer) && length == totalNewLength - 1 < buffer.Length && buffer[length] == 0
      ensures a.freed == old(a.freed) + {old(buffer)}
      ensures Contents()[..old(length)] == old(Contents())
      ensures !old(SharesWith(other)) ==> Contents() == old(Contents()) + old(other.Contents())
    {
      ghost var mine, appended := Contents(), other.Contents();
      ghost var dangling := SharesWith(other);
      var newp := Realloc(a, buffer, totalNewLength, 0);
      assert newp[..length] == mine;
      buffer := newp;
      assert !dangling ==> other.buffer[..other.length] == appended;
      Memcpy(newp, length, other.buffer, 0, other.length);
      newp[totalNewLength - 1] := 0;
      length := totalNewLength - 1;
      assert !dangling ==> buffer[..length] == mine + appended;
    }

    /**
     * `EFStringAppendString`. The argument may be the receiver itself. If it is another string that shares the
     * receiver's buffer, the appended bytes are read from the block that `realloc` has given back, and the contract
     * says no more than that the old text is still there.
     */
    method AppendString(a: Allocator, other: EFString?) returns (ok: bool)
      requires Valid() && (other != null ==> other.Valid())
      modifies this, buffer, a
      ensures ok <==> isMutable && other != null && Complies(encoding, old(other.Contents())) &&
                      a.history == old(a.history) + [true]
      ensures !old(SharesWith(other)) ==> Valid()
      ensures ok && !old(SharesWith(other)) ==> Contents() == old(Contents()) + old(other.Contents())
      ensures ok ==> other != null && fresh(buffer) && a.freed == old(a.freed) + {old(buffer)}
      ensures ok ==> length == old(length) + old(other.length) < buffer.Length && buffer[length] == 0
      ensures ok ==> Contents()[..old(length)] == old(Contents())
      ensures !ok ==> buffer == old(buffer) && length == old(length) && buffer[..] == old(buffer[..]) && Valid()
      ensures !ok ==> a.freed == old(a.freed)
      ensures a.failures >= old(a.failures)
      ensures if isMutable && other != null && Complies(encoding, old(other.Contents())) then
                ok <==> a.failures == old(a.failures)
              else a.history == old(a.history) && a.failures == old(a.failures)
    {
      if !isMutable || other == null {
        return false;
      }
      var complies := ValidateEncoding(encoding, other.buffer[..other.length]);
      if !complies {
        return false;
      }
      var totalNewLength := length + other.length + 1;
      var granted := a.Request();
      assert a.history[|old(a.history)|] == granted;
      if !granted {
        return false;
      }
      ghost var mine, appended := Contents(), other.Contents();
      ConcatComplies(encoding, mine, appended);
      ExtendWith(a, other, totalNewLength);
      return true;
    }
  }

  // ---------------------------------------------------------------------------
  // Runs of edits
  // ---------------------------------------------------------------------------

  /** A call that edits a string. */
  datatype EditCall = TrimCall | AppendCall(other: EFString?)

  /** What a call works with: the bytes of its argument, or those that the string itself has when the call is made. */
  datatype Input = TrimInput | NullInput | SelfInput | TextInput(bytes: seq<UInt8>)

  ghost function InputOf(s: EFString, call: EditCall): Input
    requires call.AppendCall? && call.other != null ==> call.other.length <= call.other.buffer.Length
    reads if call.AppendCall? && call.other != null then {call.other, call.other.buffer} else {}
  {
    if call.TrimCall? then TrimInput
    else if call.other == null then NullInput
    else if call.other == s then SelfInput
    else TextInput(call.other.Contents())
  }

  /** Whether the string takes the edit, if there is memory for it. */
  ghost predicate Takes(isMutable: bool, encoding: StringEncoding, input: Input) {
    isMutable && !input.NullInput? && (input.TextInput? ==> Complies(encoding, input.bytes))
  }

  function EditOf(input: Input, text: seq<UInt8>): Edit {
    match input
    case TextInput(bytes) => Append(bytes)
    case SelfInput => Append(text)
    case _ => Trim
  }

  /** Whether a call succeeded, and how many requests had been refused when it was over. */
  datatype EditMade = EditMade(ok: bool, failures: nat)

  /** An edit that the string does not take fails and asks for nothing; only an append asks for memory. */
  ghost predicate EditDone(isMutable: bool, encoding: StringEncoding, input: Input, before: nat, made: EditMade) {
    if !Takes(isMutable, encoding, input) then made == EditMade(false, before)
    else if input.TrimInput? then made == EditMade(true, before)
    else made.failures >= before && (made.ok <==> made.failures == before)
  }

  /** The edits that succeeded. */
  function Successes(text: seq<UInt8>, inputs: seq<Input>, log: seq<EditMade>): seq<Edit>
    requires |log| <= |inputs|
    decreases |log|
  {
    if log == [] then [] else
      var n := |log| - 1;
      var before := Successes(text, inputs, log[..n]);
      if log[n].ok then before + [EditOf(inputs[n], Edited(text, before))] else before
  }

  function FailuresAt(log: seq<EditMade>, k: nat, first: nat): nat
    requires k <= |log|
  {
    if k == 0 then first else log[k - 1].failures
  }

  ghost predicate IsEditLog(isMutable: bool, encoding: StringEncoding, inputs: seq<Input>, first: nat,
                            log: seq<EditMade>)
    requires |log| <= |inputs|
  {
    forall k :: 0 <= k < |log| ==> EditDone(isMutable, encoding, inputs[k], FailuresAt(log, k, first), log[k])
  }

  lemma EditLogMore(isMutable: bool, encoding: StringEncoding, inputs: seq<Input>, first: nat, log: seq<EditMade>,
                    made: EditMade)
    requires |log| < |inputs| && IsEditLog(isMutable, encoding, inputs, first, log)
    requires EditDone(isMutable, encoding, inputs[|log|], FailuresAt(log, |log|, first), made)
    ensures IsEditLog(isMutable, encoding, inputs, first, log + [made])
  {
    hide EditDone;
    forall k | 0 <= k <= |log|
      ensures EditDone(isMutable, encoding, inputs[k], FailuresAt(log + [made], k, first), (log + [made])[k])
    {
      assert FailuresAt(log + [made], k, first) == FailuresAt(log, k, first);
    }
  }

  lemma NoEdits(isMutable: bool, encoding: StringEncoding, text: seq<UInt8>, inputs: seq<Input>, first: nat)
    ensures Edited(text, Successes(text, inputs, [])) == text && IsEditLog(isMutable, encoding, inputs, first, [])
  {
  }

  lemma EditedMore(text: seq<UInt8>, edits: seq<Edit>, edit: Edit)
    ensures Edited(text, edits + [edit]) ==
            match edit case Append(bytes) => Edited(text, edits) + bytes case Trim => Trimmed(Edited(text, edits))
  {
    assert (edits + [edit])[..|edits|] == edits;
  }

  lemma SuccessesMore(text: seq<UInt8>, inputs: seq<Input>, log: seq<EditMade>, made: EditMade)
    requires |log| < |inputs|
    ensures var before := Successes(text, inputs, log);
            Successes(text, inputs, log + [made]) ==
            if made.ok then before + [EditOf(inputs[|log|], Edited(text, before))] else before
  {
    assert (log + [made])[..|log|] == log;
  }

  /** The argument is the string itself, or one with a buffer of its own. */
  ghost predicate Usable(s: EFString, call: EditCall)
    reads s, if call.AppendCall? && call.other != null then {call.other, call.other.buffer} else {}
  {
    call.AppendCall? && call.other != null ==> call.other.Valid() && (call.other != s ==> call.other.buffer != s.buffer)
  }

  /** Makes one call. */
  method EditOnce(a: Allocator, s: EFString, call: EditCall) returns (ok: bool, ghost made: EditMade)
    requires s.Valid() && Usable(s, call)
    modifies s, s.buffer, a
    ensures s.Valid() && (s.buffer == old(s.buffer) || fresh(s.buffer))
    ensures EditDone(s.isMutable, s.encoding, old(InputOf(s, call)), old(a.failures), made)
    ensures made == EditMade(ok, a.failures)
    ensures s.Contents() == if !made.ok then old(s.Contents())
                            else match EditOf(old(InputOf(s, call)), old(s.Contents()))
                                 case Append(bytes) => old(s.Contents()) + bytes
                                 case Trim => Trimmed(old(s.Contents()))
  {
    if call.TrimCall? {
      ok := s.TrimWhitespace();
    } else {
      ok := s.AppendString(a, call.other);
    }
    made := EditMade(ok, a.failures);
  }

  /** Makes the next call of a run. */
  method EditNext(a: Allocator, s: EFString, call: EditCall, ghost inputs: seq<Input>, ghost text: seq<UInt8>,
                  ghost first: nat, ghost log: seq<EditMade>) returns (ghost log': seq<EditMade>)
    requires s.Valid() && Usable(s, call) && |log| < |inputs| && inputs[|log|] == InputOf(s, call)
    requires s.Contents() == Edited(text, Successes(text, inputs, log))
    requires IsEditLog(s.isMutable, s.encoding, inputs, first, log) && a.failures == FailuresAt(log, |log|, first)
    modifies s, s.buffer, a
    ensures s.Valid() && (s.buffer == old(s.buffer) || fresh(s.buffer)) && |log'| == |log| + 1
    ensures s.Contents() == Edited(text, Successes(text, inputs, log'))
    ensures IsEditLog(s.isMutable, s.encoding, inputs, first, log') && a.failures == FailuresAt(log', |log'|, first)
  {
    hide EditDone, Edited, Successes, Complies, NulFree;
    ghost var before := s.Contents();
    var _, made := EditOnce(a, s, call);
    EditLogMore(s.isMutable, s.encoding, inputs, first, log, made);
    SuccessesMore(text, inputs, log, made);
    EditedMore(text, Successes(text, inputs, log), EditOf(inputs[|log|], before));
    log' := log + [made];
  }

  /**
   * Makes the calls on one string, one after the other: the string ends as its text with the successful edits made on
   * it, in order, and each call succeeds exactly if the string takes the edit and memory was not refused to it.
   */
  method RunEdits(a: Allocator, s: EFString, calls: seq<EditCall>, ghost inputs: seq<Input>)
      returns (ghost log: seq<EditMade>)
    requires s.Valid() && |inputs| == |calls|
    requires forall k :: 0 <= k < |calls| ==> Usable(s, calls[k]) && inputs[k] == InputOf(s, calls[k])
    modifies s, s.buffer, a
    ensures s.Valid() && |log| == |calls|
    ensures s.Contents() == Edited(old(s.Contents()), Successes(old(s.Contents()), inputs, log))
    ensures IsEditLog(s.isMutable, s.encoding, inputs, old(a.failures), log)
    ensures a.failures == FailuresAt(log, |calls|, old(a.failures))
  {
    hide IsEditLog, Edited, Successes, Complies, NulFree;
    ghost var text, first := s.Contents(), a.failures;
    log := [];
    NoEdits(s.isMutable, s.encoding, text, inputs, first);
    var i := 0;
    while i < |calls|
      invariant 0 <= i <= |calls| && |log| == i && s.Valid() && (s.buffer == old(s.buffer) || fresh(s.buffer))
      invariant forall k :: 0 <= k < |calls| ==> Usable(s, calls[k]) && inputs[k] == InputOf(s, calls[k])
      invariant s.Contents() == Edited(text, Successes(text, inputs, log))
      invariant IsEditLog(s.isMutable, s.encoding, inputs, first, log) && a.failures == FailuresAt(log, i, first)
    {
      log := EditNext(a, s, calls[i], inputs, text, first, log);
      i := i + 1;
    }
  }

  method StrnLen(bytes: seq<UInt8>) returns (n: nat)
    ensures n <= |bytes| && bytes[..n] == BeforeNul(bytes)
  {
    n := 0;
    while n < |bytes| && bytes[n] != 0
      invariant n <= |bytes|
      invariant NulFree(bytes[..n])
    {
      n := n + 1;
    }
    BeforeNulAt(bytes, n);
  }

  /**
   * What creation comes to: NULL, a string, or a write through the NULL that `malloc` returned for the bytes of a
   * mutable string, which the code does not check.
   */
  datatype Creation = NotCreated | Crashed | Created(string_: EFString)

  /** The requests creation makes, and what it comes to by how they are answered. */
  ghost predicate CreationAnswers(complies: bool, isMutable: bool, before: seq<bool>, after: seq<bool>, r: Creation) {
    if !complies then r == NotCreated && after == before
    else match r
         case NotCreated => after == before + [false]
         case Crashed => isMutable && after == before + [true, false]
         case Created(_) => after == before + if isMutable then [true, true] else [true]
  }

  /**
   * `__EFStringCreate` when it copies: `bytes` are the bytes the caller's pointer and length designate.
   * `EFStringCreateWithCBuffer` is this with `isMutable` false.
   */
  method CreateOwned(a: Allocator, bytes: seq<UInt8>, encoding: StringEncoding, isMutable: bool)
      returns (r: Creation)
    modifies a
    ensures a.failures >= old(a.failures) && a.freed == old(a.freed)
    ensures CreationAnswers(Complies(encoding, BeforeNul(bytes)), isMutable, old(a.history), a.history, r)
    ensures r.Created? <==> Complies(encoding, BeforeNul(bytes)) && a.failures == old(a.failures)
    ensures r.Created? ==>
              var s := r.string_;
              && fresh(s) && fresh(s.buffer) && s.Valid()
              && s.Contents() == BeforeNul(bytes)
              && s.encoding == encoding && s.isMutable == isMutable && s.isInlined == !isMutable
  {
    var length := StrnLen(bytes);
    var complies := ValidateEncoding(encoding, bytes[..length]);
    if !complies {
      return NotCreated;
    }
    var granted := a.Request();
    if !granted {
      return NotCreated;
    }
    if isMutable {
      granted := a.Request();
      if !granted {
        assert a.history == old(a.history) + [true, false];
        return Crashed;
      }
      assert a.history == old(a.history) + [true, true];
    }
    var copy := new UInt8[length + 1];
    forall i | 0 <= i < length {
      copy[i] := bytes[i];
    }
    copy[length] := 0;
    assert copy[..length] == bytes[..length];
    var s := new EFString(copy, length, encoding, !isMutable, isMutable);
    return Created(s);
  }

  /** `__EFStringCreate`. An immutable string that is not inlined keeps pointing at the caller's bytes. */
  method CreateString(a: Allocator, buffer: array?<UInt8>, limit: nat, encoding: StringEncoding,
                      isInlined: bool, isMutable: bool) returns (r: Creation)
    requires buffer != null ==> limit <= buffer.Length
    modifies a
    ensures a.failures >= old(a.failures) && a.freed == old(a.freed)
    ensures buffer == null ==> r == NotCreated && a.history == old(a.history)
    ensures buffer != null ==>
              var complies := Complies(encoding, BeforeNul(buffer[..limit]));
              && CreationAnswers(complies, isMutable, old(a.history), a.history, r)
              && (r.Created? <==> complies && a.failures == old(a.failures))
    ensures r.Created? ==>
              var s := r.string_;
              && fresh(s) && s.Valid()
              && s.Contents() == BeforeNul(buffer[..limit])
              && s.encoding == encoding && s.isMutable == isMutable && s.isInlined == (isInlined && !isMutable)
              && (if isMutable || isInlined then fresh(s.buffer) else s.buffer == buffer)
  {
    if buffer == null {
      return NotCreated;
    }
    if isMutable || isInlined {
      r := CreateOwned(a, buffer[..limit], encoding, isMutable);
      return;
    }
    var length := StrnLen(buffer[..limit]);
    assert buffer[..limit][..length] == buffer[..length];
    var complies := ValidateEncoding(encoding, buffer[..length]);
    if !complies {
      return NotCreated;
    }
    var granted := a.Request();
    if !granted {
      return NotCreated;
    }
    var s := new EFString(buffer, length, encoding, false, false);
    return Created(s);
  }

  /**
   * `__EFStringCreateCopy`. The copy of an already valid string can only fail for lack of memory. Only a mutable
   * copy, or the copy of an inlined string, has bytes of its own: the immutable copy of a mutable string shares
   * the buffer of its original.
   */
  method CreateCopy(a: Allocator, source: EFString?, isMutable: bool) returns (r: Creation)
    requires source != null ==> source.Valid()
    modifies a
    ensures a.failures >= old(a.failures) && a.freed == old(a.freed)
    ensures source == null ==> r == NotCreated && a.history == old(a.history)
    ensures source != null ==> CreationAnswers(true, isMutable, old(a.history), a.history, r)
    ensures source != null ==> (r.Created? <==> a.failures == old(a.failures))
    ensures r.Created? ==>
              var s := r.string_;
              && fresh(s) && s.Valid() && s.Contents() == source.Contents()
              && s.encoding == source.encoding && s.isMutable == isMutable
              && (fresh(s.buffer) <==> isMutable || source.isInlined)
              && (s.buffer == source.buffer <==> !isMutable && !source.isInlined)
  {
    if source == null {
      return NotCreated;
    }
    BeforeNulAt(source.buffer[..source.length], source.length);
    assert source.buffer[..source.length][..source.length] == source.Contents();
    r := CreateString(a, source.buffer, source.length, source.encoding, source.isInlined, isMutable);
  }

  // ---------------------------------------------------------------------------
  // Copies that share a buffer
  // ---------------------------------------------------------------------------

  lemma TrimShorter(s: seq<UInt8>)
    ensures |Trimmed(s)| <= |s| && (|Trimmed(s)| == |s| ==> Trimmed(s) == s)
  {
    var before, after := TrimDecomposition(s);
  }

  /**
   * Trims a mutable string of which an immutable copy was made before: the copy stays valid if and only if there was
   * nothing to trim, for its bytes are the trimmed ones and a NUL.
   */
  method CopyThenTrim(a: Allocator, s: EFString) returns (r: Creation)
    requires s.Valid() && s.isMutable
    modifies a, s, s.buffer
    ensures s.Valid() && s.Contents() == if r.Created? then Trimmed(old(s.Contents())) else old(s.Contents())
    ensures r.Created? ==>
              var c := r.string_;
              && !c.isMutable && c.buffer == s.buffer && c.length == old(s.length)
              && (c.Valid() <==> Trimmed(old(s.Contents())) == old(s.Contents()))
  {
    r := CreateCopy(a, s, false);
    if r.Created? {
      var text := s.buffer[..s.length];
      var c := r.string_;
      assert |c.Contents()| == c.length;
      var _ := s.TrimWhitespace();
      TrimShorter(text);
      assert s.length < c.length ==> c.buffer[..c.length][s.length] == 0;
    }
  }

  /** Appends to such a string: when that succeeds, the copy's pointer dangles. */
  method CopyThenAppend(a: Allocator, s: EFString, other: EFString?) returns (r: Creation, ok: bool)
    requires s.Valid() && s.isMutable && (other != null ==> other.Valid())
    requires !s.SharesWith(other) && s.buffer !in a.freed
    modifies a, s, s.buffer
    ensures r.Created? ==> s.Valid() && (r.string_.buffer in a.freed <==> ok)
    ensures r.Created? && !ok ==> r.string_.Valid() && r.string_.Contents() == old(s.Contents())
  {
    ok := false;
    r := CreateCopy(a, s, false);
    if r.Created? {
      ok := s.AppendString(a, other);
    }
  }

  /** `__EFStringEqual`: for well-formed strings the cross-encoding checks never decide, and equality is of bytes. */
  method EqualStrings(s1: EFString, s2: EFString) returns (equal: bool)
    requires s1.Valid() && s2.Valid()
    ensures equal <==> s1.Contents() == s2.Contents()
  {
    if s1.length != s2.length {
      return false;
    }
    if s1.encoding != s2.encoding {
      var complies1 := ValidateEncoding(s2.encoding, s1.buffer[..s1.length]);
      var complies2 := ValidateEncoding(s1.encoding, s2.buffer[..s2.length]);
      if !complies1 || !complies2 {
        return false;
      }
    }
    equal := s1.buffer[..s1.length] == s2.buffer[..s2.length];
  }
}
