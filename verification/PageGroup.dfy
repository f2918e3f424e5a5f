/** Page groups: a list of pages of any sizes that behaves like one flat array of bytes. */
module PageGroup {
  import opened Allocation
  import opened Arrays
  import opened Memory
  import opened Utf8

  // ---------------------------------------------------------------------------
  // Pages as values
  // ---------------------------------------------------------------------------

  /** The pages laid end to end. */
  function Concat(images: seq<seq<UInt8>>): seq<UInt8> {
    if images == [] then [] else images[0] + Concat(images[1..])
  }

  lemma {:induction false} ConcatAppend(xs: seq<seq<UInt8>>, ys: seq<seq<UInt8>>)
    ensures Concat(xs + ys) == Concat(xs) + Concat(ys)
  {
    if xs == [] {
      assert xs + ys == ys;
    } else {
      var x, more, all := xs[0], xs[1..], xs + ys;
      assert all[0] == x && all[1..] == more + ys;
      assert Concat(all) == x + Concat(more + ys) && Concat(xs) == x + Concat(more);
      hide Concat;
      ConcatAppend(more, ys);
      Assoc(x, Concat(more), Concat(ys));
    }
  }

  /** Where a page starts. */
  function Base(images: seq<seq<UInt8>>, index: nat): nat
    requires index <= |images|
  {
    |Concat(images[..index])|
  }

  lemma ConcatOne(image: seq<UInt8>)
    ensures Concat([image]) == image
  {
    assert Concat([image]) == image + [];
  }

  /** A page in its place. */
  lemma ConcatAround(images: seq<seq<UInt8>>, index: nat)
    requires index < |images|
    ensures Concat(images) == Concat(images[..index]) + images[index] + Concat(images[index + 1..])
    ensures Base(images, index + 1) == Base(images, index) + |images[index]| <= |Concat(images)|
  {
    assert images == images[..index] + [images[index]] + images[index + 1..];
    ConcatAppend(images[..index], [images[index]]);
    ConcatAppend(images[..index] + [images[index]], images[index + 1..]);
    ConcatOne(images[index]);
    assert images[..index + 1] == images[..index] + [images[index]];
  }

  lemma BaseAtEnd(images: seq<seq<UInt8>>)
    ensures Base(images, |images|) == |Concat(images)| && Base(images, 0) == 0
  {
    assert images[..|images|] == images;
  }

  lemma {:induction false} SameLengths(xs: seq<seq<UInt8>>, ys: seq<seq<UInt8>>)
    requires |xs| == |ys| && forall i :: 0 <= i < |xs| ==> |xs[i]| == |ys[i]|
    ensures |Concat(xs)| == |Concat(ys)|
  {
    if xs != [] {
      SameLengths(xs[1..], ys[1..]);
    }
  }

  lemma SameBases(images: seq<seq<UInt8>>, written: seq<seq<UInt8>>)
    requires |written| == |images| && forall i :: 0 <= i < |images| ==> |written[i]| == |images[i]|
    ensures forall k :: 0 <= k <= |images| ==> Base(written, k) == Base(images, k)
  {
    forall k | 0 <= k <= |images|
      ensures Base(written, k) == Base(images, k)
    {
      SameLengths(written[..k], images[..k]);
    }
  }

  lemma SpliceMiddle(before: seq<UInt8>, page: seq<UInt8>, after: seq<UInt8>, at: nat, block: seq<UInt8>)
    requires at + |block| <= |page|
    ensures before + Splice(page, at, block) + after == Splice(before + page + after, |before| + at, block)
  {
  }

  /** Writing a block into a page is writing it into the flat array. */
  lemma WriteInPage(images: seq<seq<UInt8>>, index: nat, at: nat, block: seq<UInt8>)
    requires index < |images| && at + |block| <= |images[index]|
    ensures Base(images, index) + at + |block| <= |Concat(images)|
    ensures Concat(images[index := Splice(images[index], at, block)]) ==
            Splice(Concat(images), Base(images, index) + at, block)
    ensures forall k :: 0 <= k <= |images| ==>
              Base(images[index := Splice(images[index], at, block)], k) == Base(images, k)
  {
    var page := Splice(images[index], at, block);
    var written := images[index := page];
    ConcatAround(images, index);
    ConcatAround(written, index);
    assert written[..index] == images[..index] && written[index + 1..] == images[index + 1..];
    SpliceMiddle(Concat(images[..index]), images[index], Concat(images[index + 1..]), at, block);
    SameBases(images, written);
  }

  /** Reading from a page is reading from the flat array. */
  lemma ReadInPage(images: seq<seq<UInt8>>, index: nat, at: nat, n: nat)
    requires index < |images| && at + n <= |images[index]|
    ensures var from := Base(images, index) + at;
            from + n <= |Concat(images)| && Concat(images)[from..from + n] == images[index][at..at + n]
  {
    ConcatAround(images, index);
  }

  /** Two adjacent blocks. */
  lemma SpliceTwice(s: seq<UInt8>, at: nat, x: seq<UInt8>, y: seq<UInt8>)
    requires at + |x| + |y| <= |s|
    ensures Splice(Splice(s, at, x), at + |x|, y) == Splice(s, at, x + y)
  {
  }

  lemma SpliceNothing(s: seq<UInt8>, at: nat, block: seq<UInt8>)
    requires at <= |s| && block == []
    ensures Splice(s, at, block) == s
  {
  }

  lemma SplicePrefix(s: seq<UInt8>, at: nat, block: seq<UInt8>, r: seq<UInt8>)
    requires at + |block| <= |s| && r == Splice(s, at, block)
    ensures r[..at + |block|] == s[..at] + block
  {
  }

  /** What was written is read back, and everything else is as it was. */
  lemma SpliceReadBack(s: seq<UInt8>, at: nat, block: seq<UInt8>)
    requires at + |block| <= |s|
    ensures Splice(s, at, block)[at..at + |block|] == block
    ensures Splice(s, at, block)[..at] == s[..at] && Splice(s, at, block)[at + |block|..] == s[at + |block|..]
  {
  }

  // ---------------------------------------------------------------------------
  // Pages and groups as objects
  // ---------------------------------------------------------------------------

  class EFPage {
    const mem: array<UInt8>

    /** `mmap` of anonymous memory: all zero. */
    constructor (length: nat)
      requires length > 0
      ensures fresh(mem) && mem.Length == length && forall i :: 0 <= i < length ==> mem[i] == 0
    {
      mem := new UInt8[length](_ => 0);
    }
  }

  function Zeros(n: nat): (s: seq<UInt8>)
    ensures |s| == n && forall i :: 0 <= i < n ==> s[i] == 0
  {
    seq(n, _ => 0)
  }

  /**
   * `EFPageCreateWithOptions`, which fails for a length of zero, or without memory for the object or the mapping. No
   * address space has more than `LONG_MAX` bytes.
   */
  method CreatePage(a: Allocator, length: nat) returns (page: EFPage?)
    modifies a
    ensures a.failures >= old(a.failures)
    ensures page != null <==> length > 0 && a.failures == old(a.failures)
    ensures page != null ==> length <= LONG_MAX
    ensures page != null ==> fresh(page) && fresh(page.mem) && page.mem[..] == Zeros(length)
  {
    var granted := a.Request();
    if !granted || length == 0 {
      return null;
    }
    if length > LONG_MAX {
      a.Refuse();
      return null;
    }
    granted := a.Request();
    if !granted {
      return null;
    }
    page := new EFPage(length);
  }

  function Mems(pages: seq<EFPage>): set<array<UInt8>> {
    set p | p in pages :: p.mem
  }

  ghost function Images(pages: seq<EFPage>): (images: seq<seq<UInt8>>)
    reads Mems(pages)
    ensures |images| == |pages|
    ensures forall i :: 0 <= i < |pages| ==> images[i] == pages[i].mem[..]
  {
    seq(|pages|, i requires 0 <= i < |pages| reads Mems(pages) => pages[i].mem[..])
  }

  /** No page occurs twice. */
  ghost predicate Distinct(pages: seq<EFPage>) {
    forall i, j :: 0 <= i < j < |pages| ==> pages[i].mem != pages[j].mem
  }

  /** Copies a page's contents behind what is already in a buffer. */
  method CopyBehind(dst: array<UInt8>, loc: nat, page: EFPage)
    requires loc + page.mem.Length <= dst.Length && dst != page.mem
    modifies dst
    ensures dst[..loc + page.mem.Length] == old(dst[..loc]) + page.mem[..]
  {
    ghost var before := dst[..];
    assert page.mem[0..page.mem.Length] == page.mem[..];
    Memcpy(dst, loc, page.mem, 0, page.mem.Length);
    SplicePrefix(before, loc, page.mem[..], dst[..]);
  }

  datatype Xfer = Read | Write

  // ---------------------------------------------------------------------------
  // Transfers
  // ---------------------------------------------------------------------------

  ghost predicate ChunkDone(xfer: Xfer, before: seq<seq<UInt8>>, after: seq<seq<UInt8>>, buf0: seq<UInt8>,
                            buf: seq<UInt8>, index: nat, pageOff: nat, done: nat, n: nat)
    requires index < |before| && pageOff + n <= |before[index]| && done + n <= |buf0|
  {
    if xfer == Write then
      buf == buf0 && after == before[index := Splice(before[index], pageOff, buf[done..done + n])]
    else
      after == before && buf == Splice(buf0, done, before[index][pageOff..pageOff + n])
  }

  /** One `memcpy` between the buffer and a page. */
  method TransferChunk(ghost pages: seq<EFPage>, index: nat, page: EFPage, pageOff: nat, b: array<UInt8>, done: nat,
                       n: nat, xfer: Xfer) returns (ghost images: seq<seq<UInt8>>)
    requires Distinct(pages) && b !in Mems(pages) && index < |pages| && page == pages[index]
    requires pageOff + n <= page.mem.Length && done + n <= b.Length
    modifies if xfer == Write then {page.mem} else {b}
    ensures images == Images(pages)
    ensures ChunkDone(xfer, old(Images(pages)), images, old(b[..]), b[..], index, pageOff, done, n)
  {
    ghost var before := Images(pages);
    if xfer == Write {
      Memcpy(page.mem, pageOff, b, done, n);
      images := Images(pages);
      assert images == before[index := Splice(before[index], pageOff, b[..][done..done + n])];
    } else {
      Memcpy(b, done, page.mem, pageOff, n);
      images := Images(pages);
      assert images == before;
    }
  }

  /** The state of a transfer when `done` bytes have been copied. */
  ghost predicate Transferred(xfer: Xfer, images0: seq<seq<UInt8>>, images: seq<seq<UInt8>>, start: nat,
                              buf0: seq<UInt8>, buf: seq<UInt8>, done: nat)
  {
    && start + done <= |Concat(images0)| && done <= |buf0|
    && |images| == |images0| && |buf| == |buf0|
    && if xfer == Write then
         buf == buf0 && Concat(images) == Splice(Concat(images0), start, buf[..done])
       else
         images == images0 && buf == Splice(buf0, 0, Concat(images0)[start..start + done])
  }

  lemma TransferredMeans(xfer: Xfer, images0: seq<seq<UInt8>>, images: seq<seq<UInt8>>, start: nat,
                         buf0: seq<UInt8>, buf: seq<UInt8>, done: nat)
    requires Transferred(xfer, images0, images, start, buf0, buf, done)
    ensures start + done <= |Concat(images0)| && done <= |buf0| == |buf|
    ensures Concat(images) == if xfer == Write then Splice(Concat(images0), start, buf[..done]) else Concat(images0)
    ensures buf == if xfer == Read then Splice(buf0, 0, Concat(images0)[start..start + done]) else buf0
  {
  }

  lemma StartTransfer(images: seq<seq<UInt8>>, start: nat, buf: seq<UInt8>)
    requires start <= |Concat(images)|
    ensures forall xfer :: Transferred(xfer, images, images, start, buf, buf, 0)
  {
    assert Splice(Concat(images), start, buf[..0]) == Concat(images);
    assert Splice(buf, 0, Concat(images)[start..start + 0]) == buf;
  }

  lemma WriteMore(images0: seq<seq<UInt8>>, before: seq<seq<UInt8>>, after: seq<seq<UInt8>>, start: nat,
                  buf: seq<UInt8>, done: nat, index: nat, pageOff: nat, n: nat)
    requires Transferred(Write, images0, before, start, buf, buf, done)
    requires index < |before| && pageOff + n <= |before[index]| && done + n <= |buf|
    requires Base(before, index) + pageOff == start + done
    requires after == before[index := Splice(before[index], pageOff, buf[done..done + n])]
    ensures Transferred(Write, images0, after, start, buf, buf, done + n)
    ensures Base(after, index + 1) == Base(before, index) + |before[index]|
  {
    hide Concat, Base, Splice;
    WriteInPage(before, index, pageOff, buf[done..done + n]);
    ConcatAround(before, index);
    SpliceTwice(Concat(images0), start, buf[..done], buf[done..done + n]);
    assert buf[..done] + buf[done..done + n] == buf[..done + n];
  }

  lemma ReadMore(images: seq<seq<UInt8>>, start: nat, buf0: seq<UInt8>, buf1: seq<UInt8>, buf: seq<UInt8>, done: nat,
                 index: nat, pageOff: nat, n: nat)
    requires Transferred(Read, images, images, start, buf0, buf1, done)
    requires index < |images| && pageOff + n <= |images[index]| && done + n <= |buf0|
    requires Base(images, index) + pageOff == start + done
    requires buf == Splice(buf1, done, images[index][pageOff..pageOff + n])
    ensures Transferred(Read, images, images, start, buf0, buf, done + n)
    ensures Base(images, index + 1) == Base(images, index) + |images[index]|
  {
    hide Concat, Base, Splice;
    ReadInPage(images, index, pageOff, n);
    ConcatAround(images, index);
    var flat := Concat(images);
    SpliceTwice(buf0, 0, flat[start..start + done], flat[start + done..start + done + n]);
    assert flat[start..start + done] + flat[start + done..start + done + n] == flat[start..start + done + n];
  }

  lemma TransferMore(xfer: Xfer, images0: seq<seq<UInt8>>, before: seq<seq<UInt8>>, after: seq<seq<UInt8>>, start: nat,
                     buf0: seq<UInt8>, buf1: seq<UInt8>, buf: seq<UInt8>, done: nat, index: nat, pageOff: nat, n: nat)
    requires Transferred(xfer, images0, before, start, buf0, buf1, done)
    requires index < |before| && pageOff + n <= |before[index]| && done + n <= |buf0|
    requires Base(before, index) + pageOff == start + done
    requires ChunkDone(xfer, before, after, buf1, buf, index, pageOff, done, n)
    ensures Transferred(xfer, images0, after, start, buf0, buf, done + n)
    ensures Base(after, index + 1) == Base(before, index) + |before[index]|
  {
    if xfer == Write {
      WriteMore(images0, before, after, start, buf, done, index, pageOff, n);
    } else {
      ReadMore(images0, start, buf0, buf1, buf, done, index, pageOff, n);
    }
  }

  /** The loop does not run out of pages before it is done. */
  lemma EndTransfer(xfer: Xfer, images0: seq<seq<UInt8>>, images: seq<seq<UInt8>>, start: nat, buf0: seq<UInt8>,
                    buf: seq<UInt8>, done: nat, index: nat, base: nat, length: nat)
    requires Transferred(xfer, images0, images, start, buf0, buf, done) && start + done + length <= |Concat(images0)|
    requires index <= |images| && base == Base(images, index) && (length > 0 ==> base <= start + done)
    ensures index == |images| ==> length == 0
  {
    BaseAtEnd(images);
  }

  // ---------------------------------------------------------------------------
  // Lists of pages
  // ---------------------------------------------------------------------------

  lemma DistinctAppend(pages: seq<EFPage>, page: EFPage)
    requires Distinct(pages) && page.mem !in Mems(pages)
    ensures Distinct(pages + [page])
  {
  }

  lemma MemsAppend(pages: seq<EFPage>, page: EFPage)
    ensures Mems(pages + [page]) == Mems(pages) + {page.mem}
  {
    var all := pages + [page];
    forall m | m in Mems(pages) + {page.mem}
      ensures m in Mems(all)
    {
      if m != page.mem {
        var p :| p in pages && p.mem == m;
        assert p in all;
      } else {
        assert all[|pages|] == page;
      }
    }
  }

  lemma FlatOfOne(page: EFPage)
    ensures Concat(Images([page])) == page.mem[..]
  {
    ConcatOne(page.mem[..]);
    assert Images([page]) == [page.mem[..]];
  }

  lemma ImagesAppend(pages: seq<EFPage>, page: EFPage)
    ensures Images(pages + [page]) == Images(pages) + [page.mem[..]]
    ensures Concat(Images(pages + [page])) == Concat(Images(pages)) + page.mem[..]
  {
    assert Images(pages + [page]) == Images(pages) + [page.mem[..]];
    ConcatAppend(Images(pages), [page.mem[..]]);
    ConcatOne(page.mem[..]);
  }

  /** A group that has pages has bytes. */
  lemma NotEmpty(pages: seq<EFPage>)
    requires pages != [] && pages[0].mem.Length > 0
    ensures |Concat(Images(pages))| > 0
  {
    ConcatAround(Images(pages), 0);
  }

  lemma CopyMore(images: seq<seq<UInt8>>, i: nat)
    requires i < |images|
    ensures Concat(images[..i + 1]) == Concat(images[..i]) + images[i]
  {
    assert images[..i + 1] == images[..i] + [images[i]];
    ConcatAppend(images[..i], [images[i]]);
    ConcatOne(images[i]);
  }

  class EFPageGroup {
    const pagesArray: EFArray<EFPage>

    ghost predicate Valid()
      reads pagesArray, pagesArray.items
    {
      && pagesArray.Valid() && pagesArray.isMutable && Distinct(pagesArray.Contents())
      && forall p :: p in pagesArray.Contents() ==> p.mem.Length > 0
    }

    ghost function Pages(): seq<EFPage>
      requires pagesArray.Valid()
      reads pagesArray, pagesArray.items
    {
      pagesArray.Contents()
    }

    /** The group's memory as one array. */
    ghost function Flat(): seq<UInt8>
      requires pagesArray.Valid()
      reads pagesArray, pagesArray.items, Mems(Pages())
    {
      Concat(Images(Pages()))
    }

    constructor (pagesArray: EFArray<EFPage>)
      ensures this.pagesArray == pagesArray
    {
      this.pagesArray := pagesArray;
    }

    /** `EFPageGroupGetLength`. */
    method GetLength() returns (size: nat)
      requires Valid()
      ensures Images(Pages()) == old(Images(Pages())) && size == |Flat()|
    {
      size := 0;
      ghost var images := Images(Pages());
      BaseAtEnd(images);
      var i := 0;
      while i < pagesArray.count
        invariant i <= pagesArray.count == |images| && images == Images(Pages())
        invariant size == Base(images, i)
      {
        var page := pagesArray.GetValueAtIndex(i);
        size := size + page.value.mem.Length;
        ConcatAround(images, i);
        i := i + 1;
      }
    }

    /** The walk to the page that contains the offset. */
    method Walk(off: nat) returns (index: nat, base: nat)
      requires Valid() && off < |Flat()|
      ensures index < |Pages()| && base == Base(Images(Pages()), index)
      ensures base <= off < base + Pages()[index].mem.Length
    {
      ghost var images := Images(Pages());
      BaseAtEnd(images);
      index, base := 0, 0;
      while index < pagesArray.count
        invariant index <= pagesArray.count == |images| && images == Images(Pages())
        invariant base == Base(images, index) && base <= off
      {
        var page := pagesArray.GetValueAtIndex(index);
        var pageSize := page.value.mem.Length;
        if !(base + pageSize <= off) {
          assert images == Images(Pages()) && page.value == Pages()[index];
          return;
        }
        ConcatAround(images, index);
        base := base + pageSize;
        index := index + 1;
      }
      assert false;
    }

    /** What is transferred: nothing when the arguments are out of range, and never more than there is. */
    ghost function Amount(off: int, length: int): nat
      requires pagesArray.Valid()
      reads pagesArray, pagesArray.items, Mems(Pages())
    {
      if off < 0 || length < 0 || off >= |Flat()| then 0
      else if length > |Flat()| - off then |Flat()| - off
      else length
    }

    /** The transfer loop, from the page that contains the offset. */
    method TransferFrom(start: nat, b: array<UInt8>, amount: nat, xfer: Xfer, index0: nat, base0: nat)
        returns (done: nat)
      requires Valid() && amount <= b.Length && b !in Mems(Pages()) && start + amount <= |Flat()|
      requires index0 < |Pages()| && base0 == Base(Images(Pages()), index0)
      requires base0 <= start < base0 + Pages()[index0].mem.Length
      modifies if xfer == Write then Mems(Pages()) else {b}
      ensures done == amount
      ensures Transferred(xfer, old(Images(Pages())), Images(Pages()), start, old(b[..]), b[..], done)
    {
      hide Splice, Concat, Base, Transferred, ChunkDone, Distinct, Images, EFArray.Contents, EFArray.Valid;
      var off, index, base, length := start, index0, base0, amount;
      ghost var pages, images0, buf0 := Pages(), Images(Pages()), b[..];
      ghost var images := images0;
      StartTransfer(images0, start, buf0);
      done := 0;
      while length > 0 && index < pagesArray.count
        invariant pages == Pages() && images == Images(pages)
        invariant 0 <= length && done + length == amount && off == start + done && index <= |pages|
        invariant Transferred(xfer, images0, images, start, buf0, b[..], done)
        invariant base == Base(images, index)
        invariant length > 0 ==> base <= off && (index < |pages| ==> off <= base + |images[index]|)
        decreases |pages| - index
      {
        var page := pagesArray.GetValueAtIndex(index);
        var pageSize := page.value.mem.Length;
        var pageOff := off - base;
        var avail := pageSize - pageOff;
        var n := if length < avail then length else avail;
        ghost var before, buf := images, b[..];
        images := TransferChunk(pages, index, page.value, pageOff, b, done, n, xfer);
        TransferMore(xfer, images0, before, images, start, buf0, buf, b[..], done, index, pageOff, n);
        done := done + n;
        length := length - n;
        off := off + n;
        base := base + pageSize;
        index := index + 1;
      }
      EndTransfer(xfer, images0, images, start, buf0, b[..], done, index, base, length);
    }

    /** The transfer of a range that is inside the memory. */
    method TransferRange(off: nat, b: array<UInt8>, todo: nat, xfer: Xfer) returns (done: nat)
      requires Valid() && off < |Flat()| && off + todo <= |Flat()| && todo <= b.Length && b !in Mems(Pages())
      modifies if xfer == Write then Mems(Pages()) else {b}
      ensures done == todo && |Flat()| == |old(Flat())|
      ensures Flat() == if xfer == Write && done > 0 then Splice(old(Flat()), off, b[..done]) else old(Flat())
      ensures b[..] == if xfer == Read && done > 0 then Splice(old(b[..]), 0, old(Flat())[off..off + done])
                       else old(b[..])
    {
      hide Splice, Concat, Base, Transferred;
      var index, base := Walk(off);
      SpliceNothing(Flat(), off, b[..0]);
      SpliceNothing(b[..], 0, Flat()[off..off + 0]);
      ghost var images0, buf0 := Images(Pages()), b[..];
      done := TransferFrom(off, b, todo, xfer, index, base);
      TransferredMeans(xfer, images0, Images(Pages()), off, buf0, b[..], done);
    }

    /**
     * `__EFPageGroupXfer`: the group's memory behaves as one array, whatever the sizes of its pages. A write replaces
     * exactly the transferred range, a read copies exactly it.
     */
    method Transfer(off: int, b: array<UInt8>, length: int, xfer: Xfer) returns (done: nat)
      requires Valid() && length <= b.Length && b !in Mems(Pages())
      modifies if xfer == Write then Mems(Pages()) else {b}
      ensures done <= b.Length
      ensures off < 0 || length < 0 || off >= |old(Flat())| ==> done == 0
      ensures 0 <= off < |old(Flat())| && 0 <= length ==>
                done == if off + length <= |old(Flat())| then length else |old(Flat())| - off
      ensures done > 0 ==> 0 <= off && off + done <= |old(Flat())|
      ensures Flat() == if xfer == Write && done > 0 then Splice(old(Flat()), off, b[..done]) else old(Flat())
      ensures b[..] == if xfer == Read && done > 0 then Splice(old(b[..]), 0, old(Flat())[off..off + done])
                       else old(b[..])
    {
      hide Splice, Concat, Base, Transferred;
      if off < 0 || length < 0 {
        return 0;
      }
      var total := GetLength();
      if off >= total {
        return 0;
      }
      var todo := if length > total - off then total - off else length;
      done := TransferRange(off, b, todo, xfer);
    }

    // -------------------------------------------------------------------------
    // Extending and merging
    // -------------------------------------------------------------------------

    /** Appends a page; without memory nothing changes. */
    method AppendPage(a: Allocator, page: EFPage) returns (ok: bool)
      requires Valid() && page.mem.Length > 0 && page.mem !in Mems(Pages())
      modifies pagesArray, pagesArray.items, a
      ensures Valid() && a.failures >= old(a.failures)
      ensures pagesArray.items == old(pagesArray.items) || fresh(pagesArray.items)
      ensures Pages() == if ok then old(Pages()) + [page] else old(Pages())
      ensures ok ==> a.failures == old(a.failures)
      ensures pagesArray.items.Length >= old(pagesArray.items.Length)
      ensures !ok ==> a.failures > old(a.failures) || old(pagesArray.items.Length) + GROWTH > LONG_MAX
    {
      ghost var pages := Pages();
      ok := pagesArray.AppendValue(a, Some(page));
      DistinctAppend(pages, page);
    }

    /** `EFPageGroupExtend`: a zeroed page at the end. */
    method Extend(a: Allocator, pageLength: nat) returns (ok: bool)
      requires Valid()
      modifies pagesArray, pagesArray.items, a
      ensures Valid() && a.failures >= old(a.failures)
      ensures pagesArray.items == old(pagesArray.items) || fresh(pagesArray.items)
      ensures Mems(old(Pages())) <= Mems(Pages()) && fresh(Mems(Pages()) - Mems(old(Pages())))
      ensures !ok ==> Pages() == old(Pages())
      ensures Flat() == if ok then old(Flat()) + Zeros(pageLength) else old(Flat())
      ensures ok ==> pageLength > 0 && a.failures == old(a.failures)
      ensures !ok ==> a.failures > old(a.failures) || pageLength == 0 ||
                      old(pagesArray.items.Length) + GROWTH > LONG_MAX
      ensures pagesArray.items.Length >= old(pagesArray.items.Length)
    {
      hide Concat, Distinct;
      ghost var pages := Pages();
      ghost var images := Images(pages);
      var page := CreatePage(a, pageLength);
      assert Images(pages) == images;
      if page == null {
        return false;
      }
      ok := AppendPage(a, page);
      assert Images(pages) == images && page.mem[..] == Zeros(pageLength);
      ImagesAppend(pages, page);
      MemsAppend(pages, page);
    }

    /** The copying loop of `EFPageGroupMerge`. */
    method CopyInto(hugePtr: array<UInt8>)
      requires Valid() && hugePtr !in Mems(Pages()) && hugePtr.Length == |Flat()|
      modifies hugePtr
      ensures hugePtr[..] == Flat()
    {
      ghost var pages := Pages();
      ghost var images := Images(pages);
      BaseAtEnd(images);
      assert Concat(images[..0]) == [];
      hide Concat, Base, Splice, Distinct;
      var loc, i := 0, 0;
      while i < pagesArray.count
        invariant i <= pagesArray.count == |images| && images == Images(pages) && pages == Pages()
        invariant loc == Base(images, i) && loc <= hugePtr.Length && hugePtr[..loc] == Concat(images[..i])
      {
        var page := pagesArray.GetValueAtIndex(i);
        assert page.value == pages[i];
        ConcatAround(images, i);
        CopyMore(images, i);
        CopyBehind(hugePtr, loc, page.value);
        loc := loc + page.value.mem.Length;
        i := i + 1;
      }
      assert images[..i] == images;
    }

    /** A new page with the group's contents. */
    method CreateHugePage(a: Allocator) returns (page: EFPage?)
      requires Valid() && Pages() != []
      modifies a
      ensures a.failures >= old(a.failures)
      ensures page == null <==> a.failures > old(a.failures)
      ensures page != null ==> fresh(page) && fresh(page.mem) && page.mem.Length > 0 && page.mem[..] == Flat()
    {
      hide Concat;
      var totalLen := GetLength();
      NotEmpty(Pages());
      page := CreatePage(a, totalLen);
      if page != null {
        CopyInto(page.mem);
      }
    }

    /** The removal loop of `EFPageGroupMerge`. */
    method RemoveFirst(count: nat)
      requires pagesArray.Valid() && pagesArray.isMutable && count <= |Pages()|
      modifies pagesArray, pagesArray.items
      ensures pagesArray.Valid() && pagesArray.isMutable && pagesArray.items == old(pagesArray.items)
      ensures Pages() == old(Pages())[count..]
    {
      ghost var pages := Pages();
      var i := 0;
      while i < count
        invariant i <= count <= |pages| && pagesArray.Valid() && pagesArray.isMutable
        invariant pagesArray.items == old(pagesArray.items) && Pages() == pages[i..]
      {
        pagesArray.RemoveValueAtIndex(0);
        i := i + 1;
      }
    }

    /**
     * `EFPageGroupMerge`: one new page takes the place of all, and the flat contents are as before. The old pages are
     * not touched; who else uses them keeps them.
     */
    method Merge(a: Allocator) returns (ok: bool)
      requires Valid()
      modifies pagesArray, pagesArray.items, a
      ensures Valid() && Flat() == old(Flat()) && a.failures >= old(a.failures)
      ensures pagesArray.items == old(pagesArray.items) || fresh(pagesArray.items)
      ensures old(Pages()) == [] ==> ok && Pages() == []
      ensures old(Pages()) != [] && ok ==> |Pages()| == 1 && fresh(Pages()[0]) && fresh(Pages()[0].mem)
      ensures !ok ==> Pages() == old(Pages())
      ensures !ok ==> a.failures > old(a.failures) || old(pagesArray.items.Length) + GROWTH > LONG_MAX
    {
      var count := pagesArray.count;
      if count == 0 {
        return true;
      }
      hide Concat;
      var hugePage := CreateHugePage(a);
      assert Images(Pages()) == old(Images(Pages()));
      if hugePage == null {
        return false;
      }
      ok := AppendPage(a, hugePage);
      if ok {
        RemoveFirst(count);
        assert Pages() == [hugePage];
        FlatOfOne(hugePage);
      }
    }
  }

  /** `EFPageGroupCreateWithPages`: the group has its own array of the same pages. */
  method CreateWithPages(a: Allocator, pages: EFArray?<EFPage>) returns (group: EFPageGroup?)
    requires pages != null ==> pages.Valid()
    requires pages != null ==> forall p :: p in pages.Contents() ==> p.mem.Length > 0
    modifies a
    ensures a.failures >= old(a.failures)
    ensures group != null <==> pages != null && a.failures == old(a.failures)
    ensures group != null ==> fresh(group) && fresh(group.pagesArray) && fresh(group.pagesArray.items)
    ensures group != null ==> group.pagesArray.Valid() && group.Pages() == pages.Contents()
    ensures group != null ==> (group.Valid() <==> Distinct(pages.Contents()))
  {
    var owned := CreateCopy(a, pages, true);
    if owned == null {
      return null;
    }
    var granted := a.Request();
    if !granted {
      return null;
    }
    group := new EFPageGroup(owned);
  }

  /** `EFPageGroupCreate`: one zeroed page. */
  method CreateGroup(a: Allocator, pageLength: nat) returns (group: EFPageGroup?)
    modifies a
    ensures a.failures >= old(a.failures)
    ensures group != null <==> pageLength > 0 && a.failures == old(a.failures)
    ensures group != null ==> fresh(group) && fresh(group.pagesArray) && fresh(group.pagesArray.items) && group.Valid()
    ensures group != null ==> fresh(Mems(group.Pages())) && group.Flat() == Zeros(pageLength)
    ensures group != null ==> pageLength <= LONG_MAX
  {
    var pages: EFArray?<EFPage> := CreateMutable(a, 1);
    if pages == null {
      return null;
    }
    var page := CreatePage(a, pageLength);
    if page == null {
      return null;
    }
    var ok := pages.AppendValue(a, Some(page));
    assert ok && pages.Contents() == [page];  // there is a free slot
    group := CreateWithPages(a, pages);
    FlatOfOne(page);
  }

  /** Writing through a group leaves pages alone that are not in it. */
  method WriteAround(group: EFPageGroup, ghost others: seq<EFPage>, off: int, b: array<UInt8>, length: int)
      returns (done: nat)
    requires group.Valid() && length <= b.Length && b !in Mems(group.Pages())
    requires forall p :: p in others ==> p.mem !in Mems(group.Pages())
    modifies Mems(group.Pages())
    ensures group.Valid() && done == old(group.Amount(off, length)) && Images(others) == old(Images(others))
    ensures done > 0 ==>
              0 <= off && off + done <= |old(group.Flat())| && done <= b.Length &&
              group.Flat() == Splice(old(group.Flat()), off, b[..done])
  {
    hide Concat, Splice, Distinct, EFArray.Contents, EFArray.Valid;
    done := group.Transfer(off, b, length, Write);
    assert Images(others) == old(Images(others));
  }

  /** Writing through a merged group does not reach the pages it had before. */
  method WriteAfterMerge(group: EFPageGroup, a: Allocator, off: int, b: array<UInt8>, length: int)
      returns (ok: bool, done: nat)
    requires group.Valid() && group.Pages() != [] && length <= b.Length && b !in Mems(group.Pages())
    modifies group.pagesArray, group.pagesArray.items, a
    ensures group.Valid() && (!ok ==> group.Pages() == old(group.Pages()))
    ensures Images(old(group.Pages())) == old(Images(group.Pages()))
    ensures ok ==> done == old(group.Amount(off, length))
    ensures ok && done > 0 ==>
              off + done <= |old(group.Flat())| && group.Flat() == Splice(old(group.Flat()), off, b[..done])
  {
    hide Concat, Splice, Distinct, EFArray.Valid;
    ghost var pages := group.Pages();
    done := 0;
    ok := group.Merge(a);
    assert Images(pages) == old(Images(group.Pages()));
    if ok {
      assert group.Amount(off, length) == old(group.Amount(off, length));
      hide EFPageGroup.Amount, EFArray.Contents;
      done := WriteAround(group, pages, off, b, length);
    }
  }

  /** What is written through a group is read back through it. */
  method WriteThenRead(group: EFPageGroup, off: int, b: array<UInt8>, length: int, c: array<UInt8>)
      returns (written: nat, read: nat)
    requires group.Valid() && length <= b.Length && length <= c.Length
    requires b != c && b !in Mems(group.Pages()) && c !in Mems(group.Pages())
    modifies Mems(group.Pages()), c
    ensures written == read == old(group.Amount(off, length)) && read <= b.Length && read <= c.Length
    ensures c[..read] == b[..read] && b[..] == old(b[..]) && c[read..] == old(c[..])[read..]
  {
    hide Concat, Splice;
    ghost var flat := group.Flat();
    written := group.Transfer(off, b, length, Write);
    read := group.Transfer(off, c, length, Read);
    if read > 0 {
      SpliceReadBack(flat, off, b[..written]);
      SpliceReadBack(old(c[..]), 0, b[..read]);
    }
  }
}
