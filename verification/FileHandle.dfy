/** The virtual file handle: a page group with an offset and an end refines a flat, zero-padded file. */
module FileHandle {
  import opened Allocation
  import opened Arrays
  import opened Memory
  import opened PageGroup
  import opened Utf8

  // ---------------------------------------------------------------------------
  // The file as a value
  // ---------------------------------------------------------------------------

  /** The bytes up to the end of the file, and the offset, which may be past the end. */
  datatype File = File(text: seq<UInt8>, offset: nat)

  /** Bytes past the end read as zero. */
  function ByteAt(text: seq<UInt8>, i: nat): UInt8 {
    if i < |text| then text[i] else 0
  }

  function Padded(text: seq<UInt8>, n: nat): (r: seq<UInt8>)
    ensures |r| == if n > |text| then n else |text|
    ensures forall i: nat :: ByteAt(r, i) == ByteAt(text, i)
  {
    if n > |text| then text + Zeros(n - |text|) else text
  }

  /** The file after a write: bytes between the old end and the start of the write are zero. */
  function Written(file: File, bytes: seq<UInt8>): (r: File)
    ensures |r.text| == if file.offset + |bytes| > |file.text| then file.offset + |bytes| else |file.text|
  {
    File(Splice(Padded(file.text, file.offset + |bytes|), file.offset, bytes), file.offset + |bytes|)
  }

  /** What `EFFileHandleTruncate` does: it clears, but the file keeps its end. */
  function Cleared(file: File, n: nat): (r: File)
    ensures |r.text| == |file.text|
  {
    if n < |file.text| then file.(text := file.text[..n] + Zeros(|file.text| - n)) else file
  }

  lemma WrittenAt(file: File, bytes: seq<UInt8>, i: nat)
    ensures ByteAt(Written(file, bytes).text, i) ==
            if file.offset <= i < file.offset + |bytes| then bytes[i - file.offset] else ByteAt(file.text, i)
  {
    var padded := Padded(file.text, file.offset + |bytes|);
    assert ByteAt(padded, i) == ByteAt(file.text, i);
  }

  lemma BytesWritten(file: File, bytes: seq<UInt8>)
    ensures forall i: nat ::
              ByteAt(Written(file, bytes).text, i) ==
              if file.offset <= i < file.offset + |bytes| then bytes[i - file.offset] else ByteAt(file.text, i)
    ensures Written(file, bytes).offset == file.offset + |bytes|
  {
    forall i: nat
      ensures ByteAt(Written(file, bytes).text, i) ==
              if file.offset <= i < file.offset + |bytes| then bytes[i - file.offset] else ByteAt(file.text, i)
    {
      WrittenAt(file, bytes, i);
    }
  }

  lemma ClearedAt(file: File, n: nat, i: nat)
    ensures ByteAt(Cleared(file, n).text, i) == if i < n then ByteAt(file.text, i) else 0
  {
  }

  // ---------------------------------------------------------------------------
  // Memory and file
  // ---------------------------------------------------------------------------

  /** Everything stored at or past the end is zero. */
  ghost predicate ZeroFrom(flat: seq<UInt8>, end: nat) {
    forall i :: end <= i < |flat| ==> flat[i] == 0
  }

  /** The memory grew by zeros. */
  ghost predicate Grown(flat0: seq<UInt8>, flat: seq<UInt8>) {
    && |flat0| <= |flat| && flat[..|flat0|] == flat0 && ZeroFrom(flat, |flat0|)
  }

  /** The capacity after extending page by page until there is enough. */
  function Extended(capacity: nat, needed: int, pageLength: nat): nat
    requires pageLength > 0
    decreases needed - capacity
  {
    if needed <= capacity then capacity else Extended(capacity + pageLength, needed, pageLength)
  }

  lemma ExtendedNext(capacity: nat, needed: int, pageLength: nat)
    requires pageLength > 0 && needed > capacity
    ensures Extended(capacity, needed, pageLength) == Extended(capacity + pageLength, needed, pageLength)
  {
  }

  lemma {:induction false} ExtendedIsEnough(capacity: nat, needed: int, pageLength: nat)
    requires pageLength > 0
    ensures var r := Extended(capacity, needed, pageLength);
            && capacity <= r && needed <= r && (r == capacity || r < needed + pageLength)
            && exists pages: nat :: r == capacity + pages * pageLength
    decreases needed - capacity
  {
    if needed > capacity {
      ExtendedIsEnough(capacity + pageLength, needed, pageLength);
      var r := Extended(capacity, needed, pageLength);
      var rest: nat :| r == capacity + pageLength + rest * pageLength;
      assert r == capacity + (rest + 1) * pageLength;
    } else {
      assert capacity == capacity + 0 * pageLength;
    }
  }

  lemma GrownNone(flat: seq<UInt8>)
    ensures Grown(flat, flat)
  {
  }

  lemma GrownTwice(flat0: seq<UInt8>, flat1: seq<UInt8>, flat2: seq<UInt8>)
    requires Grown(flat0, flat1) && Grown(flat1, flat2)
    ensures Grown(flat0, flat2) && |flat0| <= |flat1| <= |flat2|
  {
    assert flat2[..|flat0|] == flat2[..|flat1|][..|flat0|];
    assert forall i :: 0 <= i < |flat1| ==> flat2[i] == flat2[..|flat1|][i];
  }

  lemma GrownMore(flat0: seq<UInt8>, flat1: seq<UInt8>, n: nat)
    requires Grown(flat0, flat1)
    ensures Grown(flat0, flat1 + Zeros(n))
  {
  }

  /** Growing does not change the file. */
  lemma GrownSame(flat0: seq<UInt8>, flat: seq<UInt8>, end: nat)
    requires Grown(flat0, flat) && end <= |flat0| && ZeroFrom(flat0, end)
    ensures end <= |flat0| <= |flat| && flat[..end] == flat0[..end] && ZeroFrom(flat, end)
  {
    assert forall i :: 0 <= i < |flat0| ==> flat[i] == flat[..|flat0|][i];
  }

  /** The memory after a write holds the written file. */
  lemma WriteRefines(flat: seq<UInt8>, end: nat, start: nat, bytes: seq<UInt8>, flat': seq<UInt8>)
    requires end <= |flat| && ZeroFrom(flat, end) && start + |bytes| <= |flat|
    requires flat' == Splice(flat, start, bytes)
    ensures var end' := if start + |bytes| > end then start + |bytes| else end;
            File(flat'[..end'], start + |bytes|) == Written(File(flat[..end], start), bytes) && ZeroFrom(flat', end')
  {
    var end' := if start + |bytes| > end then start + |bytes| else end;
    var padded := Padded(flat[..end], start + |bytes|);
    assert padded == flat[..end'];
  }

  /** What a read returns are bytes of the file. */
  lemma ReadRefines(flat: seq<UInt8>, end: nat, start: nat, n: nat, buf0: seq<UInt8>, buf: seq<UInt8>)
    requires end <= |flat| && ZeroFrom(flat, end) && n <= |buf0|
    requires n > 0 ==> start + n <= |flat|
    requires buf == if n > 0 then Splice(buf0, 0, flat[start..start + n]) else buf0
    ensures |buf| == |buf0| && forall i :: 0 <= i < n ==> buf[i] == ByteAt(flat[..end], start + i)
    ensures buf[n..] == buf0[n..]
  {
  }

  /** `flat` is `flat0` with zeros from `n` up to `pos`. */
  ghost predicate ZeroedRange(flat0: seq<UInt8>, n: nat, pos: nat, flat: seq<UInt8>) {
    && |flat| == |flat0|
    && forall i :: 0 <= i < |flat| ==> flat[i] == if n <= i < pos then 0 else flat0[i]
  }

  /** Zeroing one more chunk. */
  lemma ClearMore(flat0: seq<UInt8>, n: nat, pos: nat, chunk: nat, flat: seq<UInt8>, flat': seq<UInt8>)
    requires n <= pos && pos + chunk <= |flat0| && ZeroedRange(flat0, n, pos, flat)
    requires flat' == Splice(flat, pos, Zeros(chunk))
    ensures ZeroedRange(flat0, n, pos + chunk, flat')
  {
  }

  lemma ClearRefines(flat0: seq<UInt8>, n: nat, end: nat, offset: nat, flat: seq<UInt8>)
    requires n <= end <= |flat0| && ZeroFrom(flat0, end) && ZeroedRange(flat0, n, end, flat)
    ensures flat[..end] == Cleared(File(flat0[..end], offset), n).text && ZeroFrom(flat, end)
  {
  }

  datatype SeekType = Set | Cur | End

  /** Where a seek goes, if it can. */
  function Target(file: File, delta: int, seekType: SeekType): int {
    delta + match seekType case Set => 0 case Cur => file.offset case End => |file.text|
  }

  lemma ZeroFromLater(flat: seq<UInt8>, end: nat, later: nat)
    requires ZeroFrom(flat, end) && end <= later
    ensures ZeroFrom(flat, later)
  {
  }

  class FileHandle {
    var offset: int
    var endOffset: int
    const group: EFPageGroup

    ghost predicate Valid()
      reads this, group.pagesArray, group.pagesArray.items
      reads if group.pagesArray.Valid() then Mems(group.Pages()) else {}
    {
      && group.Valid()
      && 0 <= offset <= LONG_MAX && 0 <= endOffset <= |group.Flat()| <= LONG_MAX
      && ZeroFrom(group.Flat(), endOffset)
    }

    /** The file that the handle stands for. */
    ghost function Model(): File
      requires Valid()
      reads this, group.pagesArray, group.pagesArray.items, Mems(group.Pages())
    {
      File(group.Flat()[..endOffset], offset)
    }

    constructor (group: EFPageGroup)
      ensures this.group == group && offset == 0 && endOffset == 0
    {
      this.group := group;
      offset, endOffset := 0, 0;
    }

    /**
     * Adds a page. No address space has more than `LONG_MAX` bytes: a page that would exceed
     * that is not mapped.
     */
    method AddPage(a: Allocator, pageLength: nat, total: nat) returns (ok: bool, total': nat)
      requires group.Valid() && pageLength > 0 && total == |group.Flat()| <= LONG_MAX
      modifies group.pagesArray, group.pagesArray.items, a
      ensures group.Valid() && a.failures >= old(a.failures)
      ensures group.pagesArray.items == old(group.pagesArray.items) || fresh(group.pagesArray.items)
      ensures group.pagesArray.items.Length >= old(group.pagesArray.items.Length)
      ensures Mems(old(group.Pages())) <= Mems(group.Pages())
      ensures fresh(Mems(group.Pages()) - Mems(old(group.Pages())))
      ensures total' == |group.Flat()| <= LONG_MAX && total' == total + if ok then pageLength else 0
      ensures Grown(old(group.Flat()), group.Flat())
      ensures if ok then a.failures == old(a.failures)
              else a.failures > old(a.failures) || group.pagesArray.items.Length + GROWTH > LONG_MAX
    {
      hide Concat, Distinct, Zeros, Grown, EFArray.Contents, EFArray.Valid;
      GrownNone(group.Flat());
      GrownMore(group.Flat(), group.Flat(), pageLength);
      if total + pageLength > LONG_MAX {
        a.Refuse();
        assert Images(group.Pages()) == old(Images(group.Pages()));
        return false, total;
      }
      ok := group.Extend(a, pageLength);
      total' := group.GetLength();
    }

    /** One round of the loops that make room. */
    method ExtendOnce(a: Allocator, pageLength: nat, total: nat, ghost needed: int, ghost enough: nat)
        returns (ok: bool, total': nat)
      requires group.Valid() && pageLength > 0 && total == |group.Flat()| <= LONG_MAX
      requires needed > total && enough == Extended(total, needed, pageLength)
      modifies group.pagesArray, group.pagesArray.items, a
      ensures group.Valid() && a.failures >= old(a.failures)
      ensures group.pagesArray.items == old(group.pagesArray.items) || fresh(group.pagesArray.items)
      ensures group.pagesArray.items.Length >= old(group.pagesArray.items.Length)
      ensures Mems(old(group.Pages())) <= Mems(group.Pages())
      ensures fresh(Mems(group.Pages()) - Mems(old(group.Pages())))
      ensures total' == |group.Flat()| <= LONG_MAX && total' == total + if ok then pageLength else 0
      ensures Grown(old(group.Flat()), group.Flat())
      ensures ok ==> enough == Extended(total', needed, pageLength)
      ensures if ok then a.failures == old(a.failures)
              else a.failures > old(a.failures) || group.pagesArray.items.Length + GROWTH > LONG_MAX
    {
      ExtendedNext(total, needed, pageLength);
      hide Concat, Distinct, Images, Grown, Mems, Extended, EFArray.Contents, EFArray.Valid;
      ok, total' := AddPage(a, pageLength, total);
    }

    /** The loops that make room in `EFFileHandleWrite` and `EFFileHandleTruncate`. */
    method ExtendTo(a: Allocator, pageLength: nat, needed: int) returns (ok: bool)
      requires group.Valid() && pageLength > 0 && |group.Flat()| <= LONG_MAX
      modifies group.pagesArray, group.pagesArray.items, a
      ensures group.Valid() && a.failures >= old(a.failures)
      ensures group.pagesArray.items == old(group.pagesArray.items) || fresh(group.pagesArray.items)
      ensures group.pagesArray.items.Length >= old(group.pagesArray.items.Length)
      ensures Mems(old(group.Pages())) <= Mems(group.Pages())
      ensures fresh(Mems(group.Pages()) - Mems(old(group.Pages())))
      ensures Grown(old(group.Flat()), group.Flat()) && |group.Flat()| <= LONG_MAX
      ensures ok ==> needed <= |group.Flat()| == Extended(|old(group.Flat())|, needed, pageLength)
      ensures !ok ==> |group.Flat()| < needed
      ensures if ok then a.failures == old(a.failures)
              else a.failures > old(a.failures) || group.pagesArray.items.Length + GROWTH > LONG_MAX
      ensures needed <= |old(group.Flat())| ==> group.Flat() == old(group.Flat())
    {
      ghost var flat0 := group.Flat();
      ghost var mems0 := Mems(group.Pages());
      ghost var enough := Extended(|flat0|, needed, pageLength);
      assert forall total: nat :: needed <= total ==> Extended(total, needed, pageLength) == total;
      GrownNone(flat0);
      hide Concat, Distinct, Images, Grown, Zeros, Mems, Extended, EFArray.Contents, EFArray.Valid;
      var total := group.GetLength();
      ok := true;
      while needed > total
        invariant ok && group.Valid() && total == |group.Flat()| <= LONG_MAX && a.failures == old(a.failures)
        invariant group.pagesArray.items == old(group.pagesArray.items) || fresh(group.pagesArray.items)
        invariant group.pagesArray.items.Length >= old(group.pagesArray.items.Length)
        invariant mems0 <= Mems(group.Pages()) && fresh(Mems(group.Pages()) - mems0)
        invariant Grown(flat0, group.Flat())
        invariant needed <= |flat0| ==> group.Flat() == flat0
        invariant enough == Extended(total, needed, pageLength)
        decreases needed - total
      {
        ghost var mems, flat := Mems(group.Pages()), group.Flat();
        ok, total := ExtendOnce(a, pageLength, total, needed, enough);
        GrownTwice(flat0, flat, group.Flat());
        assert Mems(group.Pages()) - mems0 <= (Mems(group.Pages()) - mems) + (mems - mems0);
        if !ok {
          return;
        }
      }
    }

    /**
     * `EFFileHandleRead`: bytes of the file from the offset on. Reading stops where the memory ends, which is not
     * before the end of the file but may be past it.
     */
    method Read(buffer: array<UInt8>, length: int) returns (vret: int)
      requires Valid() && length <= buffer.Length && buffer !in Mems(group.Pages())
      modifies this, buffer
      ensures Valid() && endOffset == old(endOffset) && group.Flat() == old(group.Flat())
      ensures 0 <= vret <= buffer.Length
      ensures length < 0 || old(offset) >= |group.Flat()| ==> vret == 0
      ensures 0 <= length && old(offset) < |group.Flat()| ==>
                vret == if old(offset) + length <= |group.Flat()| then length else |group.Flat()| - old(offset)
      ensures group.Pages() == old(group.Pages()) && Model() == old(Model()).(offset := old(offset) + vret)
      ensures forall i :: 0 <= i < vret ==> buffer[i] == ByteAt(old(Model()).text, old(offset) + i)
      ensures buffer[vret..] == old(buffer[..])[vret..]
      ensures 0 <= length && old(offset) + length <= old(endOffset) ==> vret == length
    {
      hide Concat, ZeroFrom, Distinct, Splice, ByteAt, EFArray.Contents, EFArray.Valid;
      var start := offset;
      vret := group.Transfer(offset, buffer, length, Xfer.Read);
      assert Images(group.Pages()) == old(Images(group.Pages()));
      if vret > 0 {
        offset := offset + vret;
      }
      assert Images(group.Pages()) == old(Images(group.Pages()));
      ReadRefines(group.Flat(), endOffset, start, vret, old(buffer[..]), buffer[..]);
    }

    /** The offset moves, and the end with it when it is passed. */
    method Advance(to: nat)
      requires group.Valid() && 0 <= offset && 0 <= endOffset && to <= LONG_MAX && |group.Flat()| <= LONG_MAX
      requires ZeroFrom(group.Flat(), if to > endOffset then to else endOffset)
      modifies this
      ensures group.Flat() == old(group.Flat()) && offset == to
      ensures endOffset == if to > old(endOffset) then to else old(endOffset)
      ensures Valid() <==> endOffset <= |group.Flat()|
    {
      hide Concat, ZeroFrom, Distinct;
      offset := to;
      if offset > endOffset {
        endOffset := offset;
      }
      assert Images(group.Pages()) == old(Images(group.Pages()));
    }

    /** The part of a write behind the extension of the memory. */
    method WriteThrough(start: nat, buffer: array<UInt8>, length: EFIndex) returns (vret: int)
      requires Valid() && length <= buffer.Length && buffer !in Mems(group.Pages())
      requires start == offset && start + length <= LONG_MAX && start + length <= |group.Flat()|
      modifies this, Mems(group.Pages())
      ensures group.Valid() && group.Pages() == old(group.Pages()) && |group.Flat()| == |old(group.Flat())|
      ensures vret == if length < 0 then 0 else length
      ensures length >= 0 ==> Valid() && Model() == Written(old(Model()), buffer[..length])
      ensures length < 0 ==>
                && offset == start && endOffset == (if start > old(endOffset) then start else old(endOffset))
                && (Valid() <==> start <= |group.Flat()|)
    {
      hide Concat, ZeroFrom, Written, Splice, Images, Distinct, EFArray.Contents, EFArray.Valid;
      ghost var flat := group.Flat();
      var done := group.Transfer(start, buffer, length, Xfer.Write);
      if length >= 0 {
        SpliceNothing(flat, start, buffer[..0]);
        WriteRefines(flat, endOffset, start, buffer[..length], group.Flat());
      } else {
        ZeroFromLater(flat, endOffset, if start > endOffset then start else endOffset);
      }
      vret := done;
      Advance(start + done);
    }

    /**
     * `EFFileHandleWrite`: all bytes, or nothing but zeroed memory. A write after seeking past the end leaves a hole
     * of zeros. A negative length, which the code does not check, writes nothing; but it may move the end past the
     * memory, and does so if and only if the offset is past what the sum of offset and length makes room for.
     */
    method Write(a: Allocator, pageLength: nat, buffer: array<UInt8>, length: EFIndex) returns (vret: int)
      requires Valid() && pageLength > 0 && length <= buffer.Length && buffer !in Mems(group.Pages())
      requires offset + length <= LONG_MAX
      modifies this, group.pagesArray, group.pagesArray.items, Mems(group.Pages()), a
      ensures a.failures >= old(a.failures)
      ensures group.pagesArray.items == old(group.pagesArray.items) || fresh(group.pagesArray.items)
      ensures group.pagesArray.items.Length >= old(group.pagesArray.items.Length)
      ensures group.Valid() && fresh(Mems(group.Pages()) - Mems(old(group.Pages())))
      ensures vret == -1 || vret == if length < 0 then 0 else length
      ensures vret == -1 ==> a.failures > old(a.failures) || group.pagesArray.items.Length + GROWTH > LONG_MAX
      ensures vret == -1 ==> |old(group.Flat())| <= |group.Flat()| < old(offset) + length
      ensures vret != -1 ==>
                && a.failures == old(a.failures)
                && |group.Flat()| == Extended(|old(group.Flat())|, old(offset) + length, pageLength)
      ensures vret == -1 || length >= 0 ==> Valid()
      ensures vret == -1 ==> Model() == old(Model())
      ensures length >= 0 && vret == length ==> Model() == Written(old(Model()), buffer[..length])
      ensures length >= 0 && vret == length ==>
                && offset == old(offset) + length
                && endOffset == (if old(offset) + length > old(endOffset) then old(offset) + length else old(endOffset))
                && forall i: nat ::
                     ByteAt(Model().text, i) == if old(offset) <= i < old(offset) + length then buffer[i - old(offset)]
                                                else ByteAt(old(Model()).text, i)
      ensures length < 0 && vret == 0 ==>
                && offset == old(offset) && endOffset == (if offset > old(endOffset) then offset else old(endOffset))
                && (Valid() <==> old(offset) <= Extended(|old(group.Flat())|, old(offset) + length, pageLength))
    {
      hide Concat, Grown, ZeroFrom, Written, Splice, Images, Distinct, EFArray.Contents, EFArray.Valid;
      var start := offset;
      var end := start + length;
      ghost var flat0 := group.Flat();
      var ok := ExtendTo(a, pageLength, end);
      ghost var flat := group.Flat();
      GrownSame(flat0, flat, endOffset);
      if !ok {
        return -1;
      }
      ghost var file := Model();
      vret := WriteThrough(start, buffer, length);
      if length >= 0 {
        BytesWritten(file, buffer[..length]);
      }
    }

    /** The chunk loop of `EFFileHandleTruncate`. */
    method ClearRange(pageSize: nat, newlen: nat)
      requires Valid() && pageSize > 0 && newlen < endOffset
      modifies Mems(group.Pages())
      ensures Valid() && Model() == Cleared(old(Model()), newlen) && |group.Flat()| == |old(group.Flat())|
    {
      var oldlen := endOffset;
      var zeros := new UInt8[pageSize](_ => 0);
      ghost var flat0 := group.Flat();
      var pos := newlen;
      while pos < oldlen
        invariant newlen <= pos <= oldlen && group.Valid() && group.Pages() == old(group.Pages())
        invariant zeros !in Mems(group.Pages()) && zeros[..] == Zeros(pageSize)
        invariant ZeroedRange(flat0, newlen, pos, group.Flat())
      {
        var chunk := oldlen - pos;
        if chunk > zeros.Length {
          chunk := zeros.Length;
        }
        ghost var flat := group.Flat();
        assert zeros[..chunk] == Zeros(chunk);
        ClearMore(flat0, newlen, pos, chunk, flat, Splice(flat, pos, Zeros(chunk)));
        var _ := group.Transfer(pos, zeros, chunk, Xfer.Write);
        pos := pos + chunk;
      }
      ClearRefines(flat0, newlen, endOffset, offset, group.Flat());
    }

    /**
     * `EFFileHandleTruncate`: the file reads as zero from `length` on. Its end stays where it is, and the result is
     * always -1.
     */
    method Truncate(a: Allocator, pageLength: nat, length: EFIndex) returns (r: int)
      requires Valid() && pageLength > 0
      modifies group.pagesArray, group.pagesArray.items, Mems(group.Pages()), a
      ensures Valid() && r == -1 && offset == old(offset) && endOffset == old(endOffset)
      ensures group.pagesArray.items == old(group.pagesArray.items) || fresh(group.pagesArray.items)
      ensures group.pagesArray.items.Length >= old(group.pagesArray.items.Length)
      ensures fresh(Mems(group.Pages()) - Mems(old(group.Pages())))
      ensures Model() == if length < 0 then old(Model()) else Cleared(old(Model()), length)
      ensures length >= 0 ==>
                forall i :: 0 <= i < endOffset ==>
                  Model().text[i] == if i < length then old(Model()).text[i] else 0
      ensures |old(group.Flat())| <= |group.Flat()| && a.failures >= old(a.failures)
      ensures if length <= |group.Flat()| then
                |group.Flat()| == Extended(|old(group.Flat())|, length, pageLength) && a.failures == old(a.failures)
              else a.failures > old(a.failures) || group.pagesArray.items.Length + GROWTH > LONG_MAX
    {
      if length < 0 {
        return -1;
      }
      var ok := ExtendTo(a, pageLength, length);
      GrownSame(old(group.Flat()), group.Flat(), endOffset);
      if !ok {
        return -1;
      }
      if length < endOffset {
        ClearRange(pageLength, length);
      }
      return -1;
    }

    /** `EFFileHandleSeek`; the sum must be an `EFIndex` and not negative. */
    method Seek(delta: EFIndex, seekType: SeekType) returns (r: int)
      requires Valid()
      modifies this`offset
      ensures Valid() && group.Flat() == old(group.Flat()) && group.Pages() == old(group.Pages())
      ensures Model().text == old(Model()).text && endOffset == old(endOffset) && (r < 0 ==> r == -1)
      ensures seekType == Set ==> r == if 0 <= delta then delta else -1
      ensures seekType == Cur ==>
                r == if 0 <= old(offset) + delta <= LONG_MAX then old(offset) + delta else -1
      ensures seekType == End ==>
                r == if 0 <= endOffset + delta <= LONG_MAX then endOffset + delta else -1
      ensures offset == if r == -1 then old(offset) else r
    {
      var base := match seekType case Set => 0 case Cur => offset case End => endOffset;
      var newOffset := base + delta;
      if newOffset > LONG_MAX || newOffset < -LONG_MAX - 1 {
        return -1;
      }
      if newOffset < 0 {
        return -1;
      }
      offset := newOffset;
      assert Images(group.Pages()) == old(Images(group.Pages()));
      return newOffset;
    }

    /** `EFFileHandleGetLength`. */
    method GetLength() returns (r: int)
      requires Valid()
      ensures Valid() && r == |Model().text|
    {
      r := endOffset;
    }
  }

  /** `EFFileHandleCreate`: an empty file. */
  method Create(a: Allocator, pageLength: nat) returns (f: FileHandle?)
    modifies a
    ensures f != null <==> pageLength > 0 && a.failures == old(a.failures)
    ensures f != null ==> fresh(f) && fresh(f.group) && fresh(f.group.pagesArray) && fresh(f.group.pagesArray.items)
    ensures f != null ==> f.group.Valid() && fresh(Mems(f.group.Pages()))
    ensures f != null ==> f.Valid() && f.Model() == File([], 0) && |f.group.Flat()| == pageLength
    ensures a.failures >= old(a.failures)
  {
    var granted := a.Request();
    if !granted {
      return null;
    }
    var group := CreateGroup(a, pageLength);
    if group == null {
      return null;
    }
    f := new FileHandle(group);
  }

  // ---------------------------------------------------------------------------
  // Seeks
  // ---------------------------------------------------------------------------

  /** Seeking to the end gives the length of the file. */
  method SeekToEnd(f: FileHandle) returns (r: int, length: int)
    requires f.Valid()
    modifies f
    ensures f.Valid() && r == length == f.offset && f.Model().text == old(f.Model()).text
  {
    length := f.GetLength();
    assert Images(f.group.Pages()) == old(Images(f.group.Pages()));
    r := f.Seek(0, End);
  }

  /** Seeks from the current offset add up, as long as they stay in range. */
  method SeekTwice(f: FileHandle, d1: EFIndex, d2: EFIndex) returns (r: int)
    requires f.Valid() && 0 <= f.offset + d1 <= LONG_MAX && 0 <= f.offset + d1 + d2 <= LONG_MAX
    modifies f
    ensures f.Valid() && r == f.offset == old(f.offset) + d1 + d2 && f.Model().text == old(f.Model()).text
  {
    r := f.Seek(d1, Cur);
    r := f.Seek(d2, Cur);
  }

  lemma BytesAtEnd(text: seq<UInt8>, n: nat, bytes: seq<UInt8>)
    requires n <= |text| && n <= |bytes|
    requires forall i :: 0 <= i < n ==> bytes[i] == ByteAt(text, |text| - n + i)
    ensures bytes[..n] == text[|text| - n..]
  {
  }

  /** Seeking back from the end and reading as much gives the last bytes of the file. */
  method ReadLast(f: FileHandle, buffer: array<UInt8>, n: EFIndex) returns (r: int)
    requires f.Valid() && 0 <= n <= f.endOffset && n <= buffer.Length && buffer !in Mems(f.group.Pages())
    modifies f, buffer
    ensures f.Valid() && r == n && f.Model().text == old(f.Model()).text && f.offset == |f.Model().text|
    ensures buffer[..n] == f.Model().text[|f.Model().text| - n..]
  {
    hide Concat, ZeroFrom, Images, Distinct, ByteAt, EFArray.Contents, EFArray.Valid;
    ghost var text := f.Model().text;
    var _ := f.Seek(-n, End);
    r := f.Read(buffer, n);
    BytesAtEnd(text, n, buffer[..]);
    assert buffer[..n] == buffer[..][..n];
  }

  // ---------------------------------------------------------------------------
  // Runs
  // ---------------------------------------------------------------------------

  /** What calls do to the file: nothing, a seek, a read of `n` bytes, a write, a truncation. */
  datatype Op = Stay | Move(offset: nat) | Skip(n: nat) | Put(bytes: seq<UInt8>) | Clear(length: nat)

  function Apply(file: File, op: Op): File {
    match op
    case Stay => file
    case Move(offset) => file.(offset := offset)
    case Skip(n) => file.(offset := file.offset + n)
    case Put(bytes) => Written(file, bytes)
    case Clear(length) => Cleared(file, length)
  }

  /** The file after a run of calls on a new handle. */
  function Run(ops: seq<Op>): File {
    if ops == [] then File([], 0) else Apply(Run(ops[..|ops| - 1]), ops[|ops| - 1])
  }

  /** Bytes put somewhere. */
  datatype Patch = Patch(at: nat, bytes: seq<UInt8>)

  function PatchOf(file: File, op: Op): Patch {
    match op
    case Put(bytes) => Patch(file.offset, bytes)
    case Clear(length) => Patch(length, if length < |file.text| then Zeros(|file.text| - length) else [])
    case _ => Patch(0, [])
  }

  /** What the calls of a run put where, in order. */
  function Patches(ops: seq<Op>): seq<Patch> {
    if ops == [] then [] else
      var rest := ops[..|ops| - 1];
      Patches(rest) + [PatchOf(Run(rest), ops[|ops| - 1])]
  }

  predicate Covers(patch: Patch, i: nat) {
    patch.at <= i < patch.at + |patch.bytes|
  }

  /** The byte that the last patch covering a position put there; zero if there is none. */
  function LastByte(patches: seq<Patch>, i: nat): UInt8 {
    if patches == [] then 0 else
      var patch := patches[|patches| - 1];
      if Covers(patch, i) then patch.bytes[i - patch.at] else LastByte(patches[..|patches| - 1], i)
  }

  /** After any run, each position holds what was last put there, wherever the offset has been in between. */
  lemma {:induction false} RunHoldsLastByte(ops: seq<Op>, i: nat)
    ensures ByteAt(Run(ops).text, i) == LastByte(Patches(ops), i)
  {
    if ops != [] {
      var rest, op := ops[..|ops| - 1], ops[|ops| - 1];
      RunHoldsLastByte(rest, i);
      assert Patches(ops)[..|Patches(ops)| - 1] == Patches(rest);
      match op
      case Put(bytes) => WrittenAt(Run(rest), bytes, i);
      case Clear(length) => ClearedAt(Run(rest), length, i);
      case _ =>
    }
  }

  /** Where the `k`-th call of a run ended, if it was a write. */
  function EndOf(ops: seq<Op>, k: nat): nat
    requires k < |ops| && ops[k].Put?
  {
    Run(ops[..k]).offset + |ops[k].bytes|
  }

  /** The file ends where the furthest write ended, empty writes included. */
  lemma {:induction false} RunEndsAtFurthestWrite(ops: seq<Op>)
    ensures forall k :: 0 <= k < |ops| && ops[k].Put? ==> EndOf(ops, k) <= |Run(ops).text|
    ensures |Run(ops).text| > 0 ==> exists k :: 0 <= k < |ops| && ops[k].Put? && EndOf(ops, k) == |Run(ops).text|
  {
    if ops != [] {
      var n := |ops| - 1;
      var rest := ops[..n];
      RunEndsAtFurthestWrite(rest);
      forall k | 0 <= k < n
        ensures rest[k] == ops[k] && (ops[k].Put? ==> EndOf(rest, k) == EndOf(ops, k))
      {
        assert rest[..k] == ops[..k];
      }
      if |Run(ops).text| > |Run(rest).text| {
        assert ops[n].Put? && EndOf(ops, n) == |Run(ops).text|;
      } else if |Run(rest).text| > 0 {
        var k :| 0 <= k < n && rest[k].Put? && EndOf(rest, k) == |Run(rest).text|;
        assert ops[k].Put? && EndOf(ops, k) == |Run(ops).text|;
      }
    }
  }

  // ---------------------------------------------------------------------------
  // Runs of calls
  // ---------------------------------------------------------------------------

  /** A call on a file handle. */
  datatype Call =
    | SeekCall(delta: EFIndex, seekType: SeekType)
    | ReadCall(amount: EFIndex)
    | WriteCall(bytes: seq<UInt8>)
    | TruncateCall(length: EFIndex)

  /** What came of a call: what it did to the file, the capacity it found, and whether memory was refused to it. */
  datatype Made = Made(op: Op, capacity: nat, refused: bool)

  /** The bytes a read returns. */
  function Clipped(offset: nat, amount: int, capacity: nat): nat {
    if amount < 0 || offset >= capacity then 0
    else if amount > capacity - offset then capacity - offset
    else amount
  }

  /** A call that writes beyond the greatest index is the caller's error, and not made. */
  predicate IsMade(call: Call, file: File) {
    call.WriteCall? ==> file.offset + |call.bytes| <= LONG_MAX
  }

  /** How much memory a call asks for. */
  function Needed(call: Call, file: File): int {
    match call
    case WriteCall(bytes) => if IsMade(call, file) then file.offset + |bytes| else 0
    case TruncateCall(length) => length
    case _ => 0
  }

  /** What the call must do to the file: only a write depends on whether it gets its memory. */
  ghost predicate Does(call: Call, file: File, made: Made) {
    match call
    case SeekCall(delta, seekType) =>
      var target := Target(file, delta, seekType);
      made.op == if 0 <= target <= LONG_MAX then Move(target) else Stay
    case ReadCall(amount) => made.op == Skip(Clipped(file.offset, amount, made.capacity))
    case WriteCall(bytes) => made.op == if IsMade(call, file) && !made.refused then Put(bytes) else Stay
    case TruncateCall(length) => made.op == if length >= 0 then Clear(length) else Stay
  }

  lemma SeekDoes(delta: EFIndex, seekType: SeekType, file: File, made: Made)
    requires Does(SeekCall(delta, seekType), file, made)
    ensures var from := if seekType == Set then 0 else if seekType == Cur then file.offset else |file.text|;
            Apply(file, made.op) == File(file.text, if 0 <= from + delta <= LONG_MAX then from + delta else file.offset)
  {
  }

  lemma ReadDoes(amount: EFIndex, file: File, made: Made)
    requires Does(ReadCall(amount), file, made)
    ensures var file' := Apply(file, made.op);
            && file'.text == file.text
            && (amount >= 0 && file.offset + amount <= made.capacity ==> file'.offset == file.offset + amount)
            && (amount >= 0 && file.offset <= made.capacity < file.offset + amount ==> file'.offset == made.capacity)
            && (amount < 0 || made.capacity < file.offset ==> file'.offset == file.offset)
  {
  }

  lemma WriteDoes(bytes: seq<UInt8>, file: File, made: Made, i: nat)
    requires Does(WriteCall(bytes), file, made)
    ensures var file' := Apply(file, made.op);
            if file.offset + |bytes| <= LONG_MAX && !made.refused then
              && file'.offset == file.offset + |bytes|
              && |file'.text| == (if file'.offset > |file.text| then file'.offset else |file.text|)
              && ByteAt(file'.text, i) ==
                 if file.offset <= i < file'.offset then bytes[i - file.offset] else ByteAt(file.text, i)
            else file' == file
  {
    WrittenAt(file, bytes, i);
  }

  lemma TruncateDoes(length: EFIndex, file: File, made: Made, i: nat)
    requires Does(TruncateCall(length), file, made)
    ensures var file' := Apply(file, made.op);
            && file'.offset == file.offset && |file'.text| == |file.text|
            && ByteAt(file'.text, i) == if 0 <= length <= i then 0 else ByteAt(file.text, i)
  {
    if length >= 0 {
      ClearedAt(file, length, i);
    }
  }

  /** The capacity a call leaves: by whole pages just enough, or too little if memory was refused. */
  ghost predicate Leaves(call: Call, file: File, made: Made, pageLength: nat, capacity: nat)
    requires pageLength > 0
  {
    if made.refused then made.capacity <= capacity < Needed(call, file)
    else capacity == Extended(made.capacity, Needed(call, file), pageLength)
  }

  /** Makes a call that only moves the offset. */
  method Travel(f: FileHandle, call: Call) returns (ghost made: Made)
    requires f.Valid() && (call.SeekCall? || call.ReadCall?)
    modifies f
    ensures f.Valid() && f.group.Pages() == old(f.group.Pages()) && f.group.Flat() == old(f.group.Flat())
    ensures made.capacity == |f.group.Flat()| && !made.refused
    ensures Does(call, old(f.Model()), made) && f.Model() == Apply(old(f.Model()), made.op)
  {
    hide Concat, ZeroFrom, Written, Cleared, Images, Distinct;
    made := Made(Stay, |f.group.Flat()|, false);
    if call.ReadCall? {
      var buffer := new UInt8[if call.amount < 0 then 0 else call.amount](_ => 0);
      assert Images(f.group.Pages()) == old(Images(f.group.Pages()));
      var r := f.Read(buffer, call.amount);
      made := made.(op := Skip(r));
    } else {
      var r := f.Seek(call.delta, call.seekType);
      made := made.(op := if r >= 0 then Move(r) else Stay);
    }
  }

  lemma CutFollows(length: EFIndex, file: File, pageLength: nat, made: Made, file': File, capacity: nat)
    requires pageLength > 0 && file' == if length < 0 then file else Cleared(file, length)
    requires made == Made(if length >= 0 then Clear(length) else Stay, made.capacity, capacity < length)
    requires made.capacity <= capacity
    requires length <= capacity ==> capacity == Extended(made.capacity, length, pageLength)
    ensures Does(TruncateCall(length), file, made) && file' == Apply(file, made.op)
    ensures Leaves(TruncateCall(length), file, made, pageLength, capacity)
  {
  }

  lemma PutFollows(bytes: seq<UInt8>, file: File, pageLength: nat, made: Made, file': File, capacity: nat)
    requires pageLength > 0 && file.offset + |bytes| <= LONG_MAX
    requires made.op == (if made.refused then Stay else Put(bytes))
    requires file' == if made.refused then file else Written(file, bytes)
    requires if made.refused then made.capacity <= capacity < file.offset + |bytes|
             else capacity == Extended(made.capacity, file.offset + |bytes|, pageLength)
    ensures Does(WriteCall(bytes), file, made) && file' == Apply(file, made.op)
    ensures Leaves(WriteCall(bytes), file, made, pageLength, capacity)
  {
    hide Written;
  }

  lemma NothingFollows(bytes: seq<UInt8>, file: File, pageLength: nat, capacity: nat)
    requires pageLength > 0 && file.offset + |bytes| > LONG_MAX
    ensures var made := Made(Stay, capacity, false);
            && Does(WriteCall(bytes), file, made) && file == Apply(file, made.op)
            && Leaves(WriteCall(bytes), file, made, pageLength, capacity)
  {
  }

  /** Makes a write that does not pass the greatest index. */
  method WriteAll(f: FileHandle, a: Allocator, pageLength: nat, bytes: seq<UInt8>) returns (ghost made: Made)
    requires f.Valid() && pageLength > 0 && f.offset + |bytes| <= LONG_MAX
    modifies f, f.group.pagesArray, f.group.pagesArray.items, Mems(f.group.Pages()), a
    ensures f.Valid() && a.failures >= old(a.failures)
    ensures f.group.pagesArray.items == old(f.group.pagesArray.items) || fresh(f.group.pagesArray.items)
    ensures f.group.pagesArray.items.Length >= old(f.group.pagesArray.items.Length)
    ensures fresh(Mems(f.group.Pages()) - Mems(old(f.group.Pages())))
    ensures made.capacity == |old(f.group.Flat())|
    ensures Does(WriteCall(bytes), old(f.Model()), made) && f.Model() == Apply(old(f.Model()), made.op)
    ensures Leaves(WriteCall(bytes), old(f.Model()), made, pageLength, |f.group.Flat()|)
    ensures if made.refused then a.failures > old(a.failures) || f.group.pagesArray.items.Length + GROWTH > LONG_MAX
            else a.failures == old(a.failures)
  {
    hide Concat, ZeroFrom, Written, Images, Distinct, Does, Leaves, Apply, Extended;
    ghost var file := f.Model();
    made := Made(Stay, |f.group.Flat()|, false);
    var buffer := new UInt8[|bytes|](i requires 0 <= i < |bytes| => bytes[i]);
    assert buffer[..|bytes|] == bytes;
    var r := f.Write(a, pageLength, buffer, |bytes|);
    made := Made(if r >= 0 then Put(bytes) else Stay, made.capacity, r < 0);
    PutFollows(bytes, file, pageLength, made, f.Model(), |f.group.Flat()|);
  }

  /** Makes a call that changes the file. */
  method Change(f: FileHandle, a: Allocator, pageLength: nat, call: Call) returns (ghost made: Made)
    requires f.Valid() && pageLength > 0 && (call.WriteCall? || call.TruncateCall?)
    modifies f, f.group.pagesArray, f.group.pagesArray.items, Mems(f.group.Pages()), a
    ensures f.Valid() && a.failures >= old(a.failures)
    ensures f.group.pagesArray.items == old(f.group.pagesArray.items) || fresh(f.group.pagesArray.items)
    ensures f.group.pagesArray.items.Length >= old(f.group.pagesArray.items.Length)
    ensures fresh(Mems(f.group.Pages()) - Mems(old(f.group.Pages())))
    ensures made.capacity == |old(f.group.Flat())|
    ensures Does(call, old(f.Model()), made) && f.Model() == Apply(old(f.Model()), made.op)
    ensures Leaves(call, old(f.Model()), made, pageLength, |f.group.Flat()|)
    ensures if made.refused then a.failures > old(a.failures) || f.group.pagesArray.items.Length + GROWTH > LONG_MAX
            else a.failures == old(a.failures)
  {
    hide Concat, ZeroFrom, Written, Cleared, Images, Distinct, Does, Leaves, Apply, Extended;
    ghost var file := f.Model();
    made := Made(Stay, |f.group.Flat()|, false);
    if call.TruncateCall? {
      var _ := f.Truncate(a, pageLength, call.length);
      made := made.(op := if call.length >= 0 then Clear(call.length) else Stay,
                    refused := |f.group.Flat()| < call.length);
      CutFollows(call.length, file, pageLength, made, f.Model(), |f.group.Flat()|);
    } else if f.offset + |call.bytes| <= LONG_MAX {
      made := WriteAll(f, a, pageLength, call.bytes);
    } else {
      NothingFollows(call.bytes, file, pageLength, |f.group.Flat()|);
    }
  }

  /** Makes one call. */
  method Perform(f: FileHandle, a: Allocator, pageLength: nat, call: Call) returns (ghost made: Made)
    requires f.Valid() && pageLength > 0
    modifies f, f.group.pagesArray, f.group.pagesArray.items, Mems(f.group.Pages()), a
    ensures f.Valid() && a.failures >= old(a.failures)
    ensures f.group.pagesArray.items == old(f.group.pagesArray.items) || fresh(f.group.pagesArray.items)
    ensures f.group.pagesArray.items.Length >= old(f.group.pagesArray.items.Length)
    ensures fresh(Mems(f.group.Pages()) - Mems(old(f.group.Pages())))
    ensures made.capacity == |old(f.group.Flat())|
    ensures Does(call, old(f.Model()), made) && f.Model() == Apply(old(f.Model()), made.op)
    ensures Leaves(call, old(f.Model()), made, pageLength, |f.group.Flat()|)
    ensures if made.refused then a.failures > old(a.failures) || f.group.pagesArray.items.Length + GROWTH > LONG_MAX
            else a.failures == old(a.failures)
  {
    hide Concat, ZeroFrom, Apply, Does, Images, Distinct;
    if call.SeekCall? || call.ReadCall? {
      made := Travel(f, call);
    } else {
      made := Change(f, a, pageLength, call);
    }
  }

  /** A call of a run: what came of it, and how many requests had been refused when it was over. */
  datatype Entry = Entry(made: Made, failures: nat)

  /** What the calls of a log did to the file. */
  function Ops(log: seq<Entry>): (ops: seq<Op>)
    ensures |ops| == |log| && forall k :: 0 <= k < |log| ==> ops[k] == log[k].made.op
  {
    seq(|log|, k requires 0 <= k < |log| => log[k].made.op)
  }

  /** The capacity before the `k`-th call of a log, or at its end. */
  function CapacityAt(log: seq<Entry>, k: nat, last: nat): nat {
    if k < |log| then log[k].made.capacity else last
  }

  /** The number of refused requests before the `k`-th call of a log, or at its end. */
  function FailuresAt(log: seq<Entry>, k: nat, first: nat): nat
    requires k <= |log|
  {
    if k == 0 then first else log[k - 1].failures
  }

  /** A call fails only because a request was refused to it, or because the array of pages can have no more slots. */
  ghost predicate RefusedFor(made: Made, before: nat, after: nat, slots: nat) {
    if made.refused then after > before || slots + GROWTH > LONG_MAX else after == before
  }

  /** What surrounds a log: the page length, and at its ends the capacity, the refused requests, and the slots. */
  datatype Setting = Setting(pageLength: nat, failures: nat, capacity: nat, slots: nat)

  /** The call did what it must, on the file and with the memory that the calls before it left. */
  ghost predicate EntryOk(calls: seq<Call>, log: seq<Entry>, setting: Setting, k: nat)
    requires setting.pageLength > 0 && k < |log| == |calls|
  {
    && Does(calls[k], Run(Ops(log)[..k]), log[k].made)
    && Leaves(calls[k], Run(Ops(log)[..k]), log[k].made, setting.pageLength, CapacityAt(log, k + 1, setting.capacity))
    && RefusedFor(log[k].made, FailuresAt(log, k, setting.failures), log[k].failures, setting.slots)
  }

  ghost predicate IsLog(calls: seq<Call>, log: seq<Entry>, setting: Setting)
    requires setting.pageLength > 0
  {
    && |log| == |calls| && CapacityAt(log, 0, setting.capacity) == setting.pageLength
    && forall k :: 0 <= k < |log| ==> EntryOk(calls, log, setting, k)
  }

  ghost predicate AnyRefused(log: seq<Entry>) {
    exists k :: 0 <= k < |log| && log[k].made.refused
  }

  lemma NothingRun(calls: seq<Call>, setting: Setting)
    requires setting.pageLength > 0 && setting.capacity == setting.pageLength
    ensures Ops([]) == [] && Run([]) == File([], 0) && !AnyRefused([])
    ensures IsLog(calls[..0], [], setting)
  {
  }

  /** The entries of a log stand when it grows. */
  lemma EntryKept(calls: seq<Call>, i: nat, log: seq<Entry>, before: Setting, entry: Entry, after: Setting, k: nat)
    requires i < |calls| && i == |log| && k < |log| && entry.made.capacity == before.capacity
    requires before.pageLength == after.pageLength > 0 && before.failures == after.failures
    requires before.slots <= after.slots && EntryOk(calls[..i], log, before, k)
    ensures EntryOk(calls[..i + 1], log + [entry], after, k)
  {
    hide Does, Leaves, Run;
    assert Ops(log + [entry])[..k] == Ops(log)[..k] && calls[..i][k] == calls[..i + 1][k];
    assert CapacityAt(log + [entry], k + 1, after.capacity) == CapacityAt(log, k + 1, before.capacity);
    assert FailuresAt(log + [entry], k, after.failures) == FailuresAt(log, k, before.failures);
  }

  /** What the next call must come to. */
  ghost predicate Continues(call: Call, log: seq<Entry>, before: Setting, entry: Entry, after: Setting)
    requires after.pageLength > 0
  {
    && before.pageLength == after.pageLength && before.failures == after.failures && before.slots <= after.slots
    && entry.made.capacity == before.capacity
    && Does(call, Run(Ops(log)), entry.made)
    && Leaves(call, Run(Ops(log)), entry.made, after.pageLength, after.capacity)
    && RefusedFor(entry.made, FailuresAt(log, |log|, before.failures), entry.failures, after.slots)
  }

  lemma EntryNew(calls: seq<Call>, i: nat, log: seq<Entry>, before: Setting, entry: Entry, after: Setting)
    requires i < |calls| && i == |log| && after.pageLength > 0 && Continues(calls[i], log, before, entry, after)
    ensures EntryOk(calls[..i + 1], log + [entry], after, i)
  {
    hide Does, Leaves, Run;
    assert Ops(log + [entry])[..i] == Ops(log);
  }

  lemma OpsMore(log: seq<Entry>, entry: Entry)
    ensures Ops(log + [entry]) == Ops(log) + [entry.made.op]
    ensures Run(Ops(log + [entry])) == Apply(Run(Ops(log)), entry.made.op)
    ensures AnyRefused(log + [entry]) <==> AnyRefused(log) || entry.made.refused
  {
    hide Apply;
    var ops := Ops(log + [entry]);
    assert ops == Ops(log) + [entry.made.op];
    assert ops[..|ops| - 1] == Ops(log);
    assert (log + [entry])[|log|] == entry;
    if AnyRefused(log) {
      var k :| 0 <= k < |log| && log[k].made.refused;
      assert (log + [entry])[k].made.refused;
    }
  }

  lemma LogMore(calls: seq<Call>, i: nat, log: seq<Entry>, before: Setting, entry: Entry, after: Setting)
    requires i < |calls| && after.pageLength == before.pageLength > 0 && IsLog(calls[..i], log, before)
    requires i == |log| && Continues(calls[i], log, before, entry, after)
    ensures IsLog(calls[..i + 1], log + [entry], after)
  {
    hide Does, Leaves, Run, EntryOk;
    var calls', log' := calls[..i + 1], log + [entry];
    forall k | 0 <= k < i
      ensures EntryOk(calls', log', after, k)
    {
      EntryKept(calls, i, log, before, entry, after, k);
    }
    EntryNew(calls, i, log, before, entry, after);
  }

  lemma LastBytes(ops: seq<Op>)
    ensures forall i: nat :: ByteAt(Run(ops).text, i) == LastByte(Patches(ops), i)
  {
    forall i: nat
      ensures ByteAt(Run(ops).text, i) == LastByte(Patches(ops), i)
    {
      RunHoldsLastByte(ops, i);
    }
  }

  /** The surroundings of a log that ends now. */
  ghost function SettingNow(f: FileHandle, pageLength: nat, failures: nat): Setting
    requires f.group.Valid()
    reads f, f.group, f.group.pagesArray, f.group.pagesArray.items, Mems(f.group.Pages())
  {
    Setting(pageLength, failures, |f.group.Flat()|, f.group.pagesArray.items.Length)
  }

  /** The next call of a run. */
  method PerformNext(f: FileHandle, a: Allocator, pageLength: nat, calls: seq<Call>, i: nat, ghost start: nat,
                     ghost log: seq<Entry>) returns (ghost log': seq<Entry>)
    requires f.Valid() && pageLength > 0 && i < |calls| && i == |log| && f.Model() == Run(Ops(log))
    requires IsLog(calls[..i], log, SettingNow(f, pageLength, start)) && a.failures == FailuresAt(log, i, start)
    modifies f, f.group.pagesArray, f.group.pagesArray.items, Mems(f.group.Pages()), a
    ensures f.Valid() && a.failures >= old(a.failures) && f.Model() == Run(Ops(log'))
    ensures IsLog(calls[..i + 1], log', SettingNow(f, pageLength, start))
    ensures |log'| == i + 1 && a.failures == FailuresAt(log', i + 1, start)
    ensures f.group.pagesArray.items == old(f.group.pagesArray.items) || fresh(f.group.pagesArray.items)
    ensures f.group.pagesArray.items.Length >= old(f.group.pagesArray.items.Length)
    ensures fresh(Mems(f.group.Pages()) - Mems(old(f.group.Pages())))
    ensures AnyRefused(log) ==> AnyRefused(log')
    ensures AnyRefused(log') && !AnyRefused(log) ==>
              a.failures > old(a.failures) || f.group.pagesArray.items.Length + GROWTH > LONG_MAX
    ensures !AnyRefused(log') ==> a.failures == old(a.failures)
  {
    hide Run, Does, Leaves, Apply, Concat, Images, IsLog, AnyRefused;
    ghost var before := SettingNow(f, pageLength, start);
    var made := Perform(f, a, pageLength, calls[i]);
    ghost var entry := Entry(made, a.failures);
    LogMore(calls, i, log, before, entry, SettingNow(f, pageLength, start));
    OpsMore(log, entry);
    log' := log + [entry];
  }

  /** Makes the calls on a new handle, one after the other. */
  method RunCalls(f: FileHandle, a: Allocator, pageLength: nat, calls: seq<Call>) returns (ghost log: seq<Entry>)
    requires f.Valid() && pageLength > 0 && f.Model() == File([], 0) && |f.group.Flat()| == pageLength
    modifies f, f.group.pagesArray, f.group.pagesArray.items, Mems(f.group.Pages()), a
    ensures f.Valid() && f.Model() == Run(Ops(log)) && IsLog(calls, log, SettingNow(f, pageLength, old(a.failures)))
    ensures |log| == |calls| && a.failures == FailuresAt(log, |calls|, old(a.failures))
    ensures if AnyRefused(log) then
              a.failures > old(a.failures) || f.group.pagesArray.items.Length + GROWTH > LONG_MAX
            else a.failures == old(a.failures)
  {
    hide Run, Does, Leaves, Apply, Concat, Images, IsLog, AnyRefused, Distinct, ZeroFrom;
    log := [];
    ghost var start := a.failures;
    NothingRun(calls, SettingNow(f, pageLength, start));
    var i := 0;
    while i < |calls|
      invariant 0 <= i <= |calls| && i == |log| && f.Valid() && f.Model() == Run(Ops(log))
      invariant IsLog(calls[..i], log, SettingNow(f, pageLength, start)) && a.failures == FailuresAt(log, i, start)
      invariant f.group.pagesArray.items == old(f.group.pagesArray.items) || fresh(f.group.pagesArray.items)
      invariant fresh(Mems(f.group.Pages()) - Mems(old(f.group.Pages())))
      invariant a.failures >= old(a.failures)
      invariant if AnyRefused(log) then
                  a.failures > old(a.failures) || f.group.pagesArray.items.Length + GROWTH > LONG_MAX
                else a.failures == old(a.failures)
    {
      log := PerformNext(f, a, pageLength, calls, i, start, log);
      i := i + 1;
    }
    assert calls[..i] == calls;
  }

  /**
   * A new handle and any run of calls on it. Each call does what it must to the file that the calls before it left, and
   * a call fails only for memory that was refused to it, or for lack of slots; at the end the pages hold, at each
   * position, what was last put there.
   */
  method CreateAndRun(a: Allocator, pageLength: nat, calls: seq<Call>) returns (f: FileHandle?, ghost log: seq<Entry>)
    modifies a
    ensures f == null ==> pageLength == 0 || a.failures > old(a.failures)
    ensures f != null ==> pageLength > 0 && f.Valid() && f.Model() == Run(Ops(log))
    ensures f != null ==> IsLog(calls, log, SettingNow(f, pageLength, old(a.failures)))
    ensures f != null ==> |log| == |calls| && a.failures == FailuresAt(log, |calls|, old(a.failures))
    ensures f != null ==> forall i: nat :: ByteAt(f.Model().text, i) == LastByte(Patches(Ops(log)), i)
    ensures f != null ==>
              if AnyRefused(log) then
                a.failures > old(a.failures) || f.group.pagesArray.items.Length + GROWTH > LONG_MAX
              else a.failures == old(a.failures)
  {
    hide Run, Concat, Images, IsLog, AnyRefused, Distinct, ZeroFrom, ByteAt, LastByte, Patches;
    log := [];
    f := Create(a, pageLength);
    if f != null {
      log := RunCalls(f, a, pageLength, calls);
      LastBytes(Ops(log));
    }
  }

  /** A new handle with the offset past its memory. */
  method CreateAtOffset(a: Allocator, pageLength: nat, offset: nat) returns (f: FileHandle?)
    requires offset <= LONG_MAX
    modifies a
    ensures f != null <==> pageLength > 0 && a.failures == old(a.failures)
    ensures f != null ==> fresh(f) && fresh(f.group.pagesArray) && fresh(f.group.pagesArray.items)
    ensures f != null ==> f.group.Valid() && fresh(Mems(f.group.Pages()))
    ensures f != null ==> f.Valid() && f.Model() == File([], offset) && |f.group.Flat()| == pageLength
  {
    hide Concat, Images, ZeroFrom, Distinct, Extended, Written;
    f := Create(a, pageLength);
    if f != null {
      var _ := f.Seek(offset, Set);
    }
  }

  /**
   * The condition of `Write` matters: on a new handle with a page of 4096 bytes, a write of length -1 at offset 4097
   * moves the end to 4097, past the memory.
   */
  method NegativeWrite(a: Allocator) returns (f: FileHandle?)
    modifies a
    ensures f != null && a.failures == old(a.failures) ==>
              f.group.Valid() && f.endOffset == 4097 && |f.group.Flat()| == 4096 && !f.Valid()
  {
    assert Extended(4096, 4096, 4096) == 4096;
    hide Concat, Images, ZeroFrom, Distinct, Extended, Written;
    var buffer := new UInt8[0];
    f := CreateAtOffset(a, 4096, 4097);
    if f != null {
      assert f.offset == 4097 && f.endOffset == 0;
      var _ := f.Write(a, 4096, buffer, -1);
    }
  }
}
