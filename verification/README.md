# A verified model of the object runtime

A Dafny model of a small reference-counted foundation library written in C, with proofs of what its documentation and
its code promise. Three connected parts are modelled:

- **Strings** (`Utf8`, `Encoding`, `Strings`, `Split`, `FormatBuffer`): the UTF-8 validator, with its masks and shifts
  related to arithmetic; creation, copying, append and trim on mutable buffers; splitting; and the formatter's growing
  buffer.
- **Reference counts** (`Counting`, `Cascade`, `Soundness`, `Steps`, `Removal`, `GroupSteps`, `ObjectRuntime`, `Groups`,
  `Runs`, `Threads`, `ThreadRuns`): the object graph, with retain, release and cascading deinit; arrays, page groups and file handles
  built on it, with every pattern of allocation failures; and the same counts under any interleaving of threads.
- **Pages and files** (`Arrays`, `PageGroup`, `FileHandle`): the growable array, page groups as one flat array, and the
  virtual file handle as a zero-padded file.

`ClassRegistry` and `Equality` cover the class table and `EFEqual`. `Memory` and `Allocation` stand for the C library
and for requests that may fail.

## How to read it

A state between two calls into the runtime is a `Soundness.SoundGraph`: an object graph in which the count of every
heap object is the number of its outstanding external references plus its occurrences in containers, no deinit is
running, and page groups have the shape the code gives them. The methods of `ObjectRuntime` and `Groups` take such a
state and return one; `Is(s)` says that the object's fields are that state. `Runs.Run` puts them together: any sequence
of calls, with arguments the client has references to.

During a release (`Drop`, `Destroy`, `Deinit`, `ReleaseSlot`) a container in mid-deinit accounts for the slots it has not
yet released: `Counting.Balanced` holds at every step of the cascade. A freed object is no longer in the heap map, so
that no step can access it. What a cascade frees is stated from the other side: `Cascade.KeepsSupported` says that every
set of objects that supports itself survives, and `Counting.HeapSupported` that what is left supports itself.

Allocation is the nondeterministic `Allocation.Allocator.Request`; the ghost counter `failures` lets contracts say
"only for lack of memory", the ghost `history` of requests says which one was refused, and `freed` has the blocks that
`realloc` gave back.

`FileHandle.FileHandle.Model` is the abstract file. Each method's contract gives the next one (`Written`, `Cleared`, a
moved offset), and the run lemmas speak about sequences of these.

Two places where the code differs from what its names suggest are kept as they are: truncation of a virtual file clears
bytes but never moves the end, and always returns -1; and reading a virtual file stops at the memory it has, not at the
end of the file. Seven failures of the code are stated with the exact conditions under which they happen: splitting hits
an assertion when its last component is refused, and cuts off the end of an unterminated string at a match that goes
past it, creating a mutable string writes through NULL when its bytes are refused, editing a mutable string invalidates
the immutable copies that share its bytes, a write of negative length can move the end of a file past its memory, a
group made from an array with the default callbacks loses the pages it is extended by, and cycles of references are not
freed.

`dafny verify dfyconfig.toml` checks the project.

## Model

| member | source | states |
|---|---|---|
| `Utf8.DecodeUnique` | src/EFString.c:51-113 | The shortest-form encodings of a sequence of Unicode scalar values determine that sequence: two sequences with the same bytes are the same |
| `Utf8.EncodePrefixFree` | src/EFString.c:51-113 | No encoded character is a proper prefix of another, whatever bytes follow |
| `Utf8.HeadSound` | src/EFString.c:59-110 | What the checks on lead byte, continuation bytes, minimum, surrogates and maximum let pass is the encoding of one scalar value |
| `Utf8.HeadComplete` | src/EFString.c:59-110 | And the encoding of every scalar value passes those checks |
| `Utf8.EncodingsAreUtf8Chars` | src/EFString.c:59-110 | The encodings of the scalar values are exactly the characters of the grammar in section 4 of RFC 3629, which has ranges of bytes in place of values |
| `Utf8.IsUtf8ByGrammar` | src/EFString.c:51-113 | And the concatenations of encodings are exactly what that grammar produces |
| `Utf8.Examples` | src/EFString.c:59-110 | The characters of the examples in section 7 of RFC 3629 have the bytes given there |
| `Utf8.ConcatIsUtf8` | src/EFString.c:814-843 | UTF-8 is closed under concatenation, which is why append needs to check only what it appends |
| `Utf8.CutBeforeLead` | src/EFString.c:716-758 | Self-synchronisation: a UTF-8 string may be cut before any byte that is not a continuation byte |
| `Utf8.CutAroundMatch` | src/EFString.c:716-758 | Cutting a byte-level match of a UTF-8 separator out of a UTF-8 string leaves UTF-8 on both sides |
| `Encoding.ReadLead` | src/EFString.c:56-82 | Masks on the lead byte give its announced length and its payload, as arithmetic |
| `Encoding.ReadContinuation` | src/EFString.c:88-96 | The shift-and-mask step accepts exactly continuation bytes and is multiplication by 64 plus payload |
| `Encoding.ValidateUtf8` | src/EFString.c:51-113 | Accepts a byte string if and only if it is a concatenation of shortest-form encodings of scalar values (RFC 3629, sections 3 and 4) |
| `Encoding.ValidateEncoding` | src/EFString.c:36-117 | Accepts exactly the strings that comply to the named encoding: for UTF-7 those with all bytes up to 7F, for UTF-8 those of the grammar in section 4 of RFC 3629; an unknown code accepts nothing |
| `Strings.CreateOwned` | src/EFString.c:183-232 | NULL exactly when the bytes before the first NUL do not comply or the object is refused; a crash exactly when the object is granted and then the bytes of a mutable string are refused, which the code writes to unchecked; otherwise the string owns a terminated copy of them |
| `Strings.CreateString` | src/EFString.c:183-232 | The same three outcomes with the sharing spelled out: only mutable or inlined strings have bytes of their own |
| `Strings.CreateCopy` | src/EFString.c:248-265 | A copy of a valid string can only fail for lack of memory, a mutable one then possibly by the same crash; it shares the buffer exactly when it is immutable and its original is not inlined |
| `Strings.EqualStrings` | src/EFString.c:128-155 | For well-formed strings the cross-encoding checks decide nothing: equality is equality of bytes |
| `Strings.TrimUnique` | src/EFString.c:775-812 | The trimmed text is the only middle part with no whitespace at its edges and nothing but whitespace around it |
| `Strings.TrimDecomposition` | src/EFString.c:775-812 | Every text is whitespace, its trimmed text, and whitespace |
| `Strings.WhitespaceBytes` | src/EFString.c:770-773 | Whitespace are the six bytes that `isspace` accepts in the C locale: space, and 09 to 0D |
| `Strings.TrimIdempotent` | src/EFString.c:775-812 | Trimming twice is trimming once |
| `Strings.TrimComplies` | src/EFString.c:775-812 | Trimming never cuts a character in two |
| `Strings.EFString.TrimWhitespace` | src/EFString.c:775-812 | In place: a mutable string becomes its trimmed text, valid and terminated; an immutable one is not touched |
| `Strings.EFString.AppendString` | src/EFString.c:814-843 | The text becomes old text plus appended text, also when both arguments are the same object; the old block is given back; otherwise nothing changes, and why is stated. An argument that shares the buffer without being the receiver is read after `realloc` gave it back, so only the old text is promised then |
| `Strings.CopyThenTrim` | src/EFString.c:248-812 | An immutable copy of a mutable string shares its bytes: after a trim the copy is valid if and only if nothing was trimmed |
| `Strings.CopyThenAppend` | src/EFString.c:248-843 | And after an append the copy dangles if and only if the append succeeded |
| `Strings.EditsComply` | src/EFString.c:770-843 | No run of appends and trims makes a string invalid in its declared encoding or brings a NUL into it |
| `Strings.RunEdits` | src/EFString.c:770-843 | After any run of append and trim calls on one string, its text is the original with the successful edits made on it in order; each call succeeds if and only if the string is mutable, the argument is there and complies, and memory was not refused to that very call |
| `Split.JoinOfSplit` | src/EFString.c:700-768 | Joining the components gives back the string, plus one separator exactly when the last scanned match ends it |
| `Split.SplitOfJoin` | src/EFString.c:700-768 | Splitting undoes joining for every list of parts in which no separator is seen earlier than where one was put, and whose last part is not empty |
| `Split.ComponentsSplittable` | src/EFString.c:700-768 | A string that does not end in a match is split into such a list |
| `Split.SplitOfTerminated` | src/EFString.c:700-768 | The companion law, with a separator behind the last part too: splitting undoes that for every list of parts in which no separator is seen earlier than behind each part |
| `Split.ComponentsTerminated` | src/EFString.c:700-768 | A string that ends in a match is split into such a list |
| `Split.SplitResults` | src/EFString.c:700-768 | A list of parts is the result of splitting some non-empty string if and only if it is of one of these two kinds |
| `Split.ComponentsSeparatorFree` | src/EFString.c:724-758 | No component contains the separator |
| `Split.NotInComponents` | src/EFString.c:724-758 | The bytes of the separator are at no position of any component |
| `Split.FirstMatchIsLeftmost` | src/EFString.c:724-746 | Where the string is cut the separator's bytes are, and at no position before |
| `Split.ComponentsComply` | src/EFString.c:716-758 | Every component complies to the string's encoding |
| `Split.PiecesComply` | src/EFString.c:716-758 | What the code cuts complies too, also at a match that goes past the end of an unterminated string, so creating a component never fails validation |
| `Split.PiecesExactly` | src/EFString.c:706-758 | The code cuts a string into its components if and only if its scan, which may read on behind an unterminated string, reaches no match that goes past the string's end; it cuts equally many in any case |
| `Split.PiecesCutShort` | src/EFString.c:706-758 | When the scan reaches a match past the end, what the code cuts are the components but for the last, which loses the bytes with which it starts to match |
| `Split.TerminatedIsText` | src/EFString.c:706-758 | For a terminated string no test leaves the memory, no match goes past the end, and hits, pieces and end are those of the text |
| `Split.NulStops` | src/EFString.c:706-728 | A NUL anywhere behind the text keeps every test of the scan inside the caller's memory |
| `Split.CountCoversComponents` | src/EFString.c:706-718 | The first loop's count, overlapping matches and those past the end included, is room enough for all components but the one behind the last match |
| `Split.ScanProgress` | src/EFString.c:726-749 | The scan moves on from every position if and only if the separator is not empty |
| `Split.CountComponents` | src/EFString.c:706-714 | The first loop counts the set of the string's positions at which the separator's bytes are in memory, overlapping ones and those that go past the end included |
| `Split.ComponentsSplitBySeparator` | src/EFString.c:682-768 | On any memory behind the string that the scan does not leave: parts are returned if and only if no request was refused, and they are the components if and only if the scan reaches no match past the string's end; the array grows at most once, for the tail. The assertion of release is hit if and only if no match reaches the end, all requests before the tail component were granted, and the one for it was refused; every other failure is NULL |
| `Split.AbortsOnSecondRequest` | src/EFString.c:753-767 | Concretely: splitting "ab" at "," aborts if and only if the array is granted and then the component is refused |
| `Split.SplitsBehindTheEnd` | src/EFString.c:724-758 | Concretely: "ab,", made without copying from the memory "ab,x", split at ",x" gives "ab" and loses the comma, which is not its component |
| `Arrays.EFArray.AppendValue` | src/EFArray.c:345-367 | Appends one value, or changes nothing; an immutable array, a NULL and a full index range are refused without a request, and memory is asked for only when no slot is free, for five more |
| `Arrays.EFArray.InsertValueAtIndex` | src/EFArray.c:369-393 | Opening the gap with an overlapping move and storing is insertion into the sequence; failure changes nothing, and the arguments that are refused are stated |
| `Arrays.EFArray.RemoveValueAtIndex` | src/EFArray.c:395-411 | Closing the gap with an overlapping move is removal from the sequence |
| `Arrays.EFArray.ResizeIfNeededForOneMoreIndex` | src/EFArray.c:317-343 | Makes room for one more value without changing the contents, by five slots when full |
| `Arrays.EFArray.GetValueAtIndex` | src/EFArray.c:299-315 | The value at the index, or nothing at and past the count |
| `Arrays.CreateCopy` | src/EFArray.c:246-274 | The copy has the source's values; its room is exact, so that no append in the loop can fail |
| `Memory.SpliceAt` | src/EFArray.c:388-390 | What a block operation leaves at each position: the block's value inside the block, the old one elsewhere |
| `FormatBuffer.FmtBuf.Ensure` | src/EFString.c:304-326 | The capacity becomes 64 times a power of two, with room for a terminator and less than twice what is needed; all capacities ever copied sum to less than the current one |
| `FormatBuffer.FmtBuf.Bytes` | src/EFString.c:327-333 | Contents are extended by the bytes, or the buffer has failed for good with contents unchanged |
| `FormatBuffer.FmtBuf.Char` | src/EFString.c:335-339 | The same for one byte |
| `FormatBuffer.Scan` | src/EFString.c:441-455 | The scanning loop leaves the expansion of the format in the buffer |
| `FormatBuffer.ExpandedIsUtf8` | src/EFString.c:441-455 | Expanding a valid format gives valid text: it never cuts a character in two |
| `FormatBuffer.DoubledExpands` | src/EFString.c:441-455 | Doubling every percent sign and expanding is the identity |
| `FormatBuffer.DoubledMore` | src/EFString.c:441-455 | Doubling goes byte by byte: 25 becomes two of it, any other byte stays |
| `FormatBuffer.ExpandedExactly` | src/EFString.c:441-455 | A format without conversions stands for a text if and only if it is the text with every percent sign doubled, but possibly for one at its end |
| `FormatBuffer.CreateWithFormat` | src/EFString.c:422-606 | A format without conversions gives its expansion as a valid string, and fails only for lack of memory |
| `FormatBuffer.FormatDoubled` | src/EFString.c:422-606 | Percent round trip through string creation, scan loop and growing buffer |
| `Counting.BalancedRetain` | src/runtime/EFBase.c:69-79 | Retain keeps every count equal to the number of outstanding references |
| `Counting.BalancedDrop` | src/runtime/EFBase.c:81-109 | So does dropping a reference; whoever has one finds the object allocated with a count of at least 1, so the underflow branch is dead |
| `Counting.BalancedTake` | src/EFArray.c:82-93 | Counts stay conserved when a slot of a container in mid-deinit is taken out to be released |
| `Counting.BalancedFree` | src/runtime/EFBase.c:102 | And when the emptied object is freed, to which nothing refers any more |
| `Counting.HeapSupported` | src/runtime/EFBase.c:81-109 | When counts balance, every allocated object is on the stack, in mid-deinit, or held by a caller or another allocated object |
| `ObjectRuntime.Runtime.Drop` | src/runtime/EFBase.c:81-109 | Release at any point of a cascade: it terminates, keeps the counts conserved, frees only objects that nothing supports, and leaves survivors as they are |
| `ObjectRuntime.Runtime.Deinit` | src/EFArray.c:82-93 | The deinit handlers release every child exactly once, in order; nested deinits may run in between |
| `ObjectRuntime.Runtime.Dealloc` | src/runtime/EFBase.c:102 | The object is freed when it accounts for nothing any more |
| `ObjectRuntime.Runtime.Retain` | src/runtime/EFBase.c:69-79 | One more external reference and one more in the count; stack objects are not counted |
| `ObjectRuntime.Runtime.Release` | src/runtime/EFBase.c:81-109 | Afterwards exactly the greatest set of objects that supports itself without the reference is allocated: on the heap, those that were reached before from a remaining reference or from a cycle. After the last reference nothing is left on the heap if and only if there was no cycle before |
| `Soundness.SoundAfterCascade` | src/runtime/EFBase.c:81-109 | Every release leads from a sound state to a sound state |
| `Soundness.Restored` | src/EFArray.c:262-269 | When new objects are given up, the state is the one of before, counts included |
| `Soundness.AllocatedIsExplained` | src/runtime/EFBase.c:81-109 | Each allocated heap object is reached from an external reference or from a cycle of references, in any state without a deinit in progress |
| `Soundness.NoLeakWithoutCycle` | src/runtime/EFBase.c:81-109 | Without cycles exactly what external references reach is allocated; with no external reference left, nothing is |
| `Soundness.CycleSurvives` | src/runtime/EFBase.c:81-109 | The converse: an object on a cycle of references survives every release |
| `Soundness.SurvivorsExactly` | src/runtime/EFBase.c:81-109 | An object is left by a release if and only if, in the graph before it, a path leads to it from a remaining external reference or from a cycle |
| `Soundness.NothingLeftExactly` | src/runtime/EFBase.c:81-109 | When the last external reference is released, nothing is left on the heap if and only if the graph before had no cycle |
| `Soundness.OnlyCyclesLeak` | src/runtime/EFBase.c:81-109 | In a sound state without external references the heap is empty if and only if there is no cycle |
| `Soundness.CycleLeaks` | src/EFArray.c:52-61 | The condition is needed: two arrays that contain each other stay allocated |
| `Steps.RollbackOne` | src/EFArray.c:262-269 | Releasing the only new object restores heap and holdings exactly |
| `Steps.RollbackTwo` | src/EFPageGroup.c:75-98 | Releasing a new array that alone holds a new page restores them too |
| `Steps.ObjectAdded` | src/runtime/EFAllocator.c:31-63 | What a new object does to the graph: itself with count 1, one reference to it, everything else the same |
| `Steps.StoredItems` | src/EFArray.c:388-391 | The graph after a store, item by item: the value at its index, the items before it in place, those from there on moved up by one; of other objects only the value's count has changed |
| `Removal.CascadeCommutes` | src/EFArray.c:404-410 | Releasing an item before closing its slot, as the code does, comes to the same as closing it first |
| `Removal.LeafReleased` | src/EFPage.c:67-74 | Releasing an object without children changes that object and nothing else |
| `ObjectRuntime.Runtime.Allocate` | src/runtime/EFAllocator.c:31-63 | A new object has count 1, belongs to the caller, and refers to nothing |
| `ObjectRuntime.Runtime.CreatePage` | src/EFPage.c:110-133 | A page with count 1; when mapping fails, the object is released and nothing has changed |
| `ObjectRuntime.Runtime.CreateArray` | src/EFArray.c:211-244 | An empty mutable array with count 1, or nothing changed |
| `ObjectRuntime.Runtime.StoreAt` | src/EFArray.c:345-393 | Append and insert on the object graph, stated item by item: one item more, the value at its index, those before it in place and those from there on moved up; an array with object callbacks retains the value; a refused or failed call changes nothing |
| `ObjectRuntime.Runtime.CopyArray` | src/EFArray.c:246-274 | A copy of all items, each retained once more if the array retains items; on failure counts and objects are as before |
| `Groups.RemoveValueAtIndex` | src/EFArray.c:395-411 | The slot is closed, stated item by item, and the item's reference released, however far that cascades |
| `GroupSteps.TakenOutItems` | src/EFArray.c:404-410 | Closing a slot, item by item: those before it in place, those behind it moved down by one |
| `GroupSteps.TotalLengthAdds` | src/EFPageGroup.c:152-169 | The total length of no pages is 0, and each page, wherever it is in the list, adds its length |
| `GroupSteps.ExtendedItems` | src/EFPageGroup.c:171-189 | Extending a group, item by item: the new page is the last, all others are in place |
| `Groups.PageGroupCreateWithPages` | src/EFPageGroup.c:101-139 | A group with its own array of the same pages and callbacks, both with count 1; NULL for an item that is not a page; failure changes nothing |
| `Groups.PageGroupCreate` | src/EFPageGroup.c:73-99 | On success exactly page, array and group are new, each with count 1, the array mutable and with the page as its only item; on failure the whole state is as before |
| `Groups.PageGroupCopyPages` | src/EFPageGroup.c:141-150 | An immutable array of the same pages, or nothing changed |
| `Groups.PageGroupExtend` | src/EFPageGroup.c:171-189 | One new page at the end of the group's array, or nothing changed; the page stays allocated, with count 1, if and only if the array has the object callbacks, and is freed at once otherwise |
| `Groups.ExtendInVain` | src/EFPageGroup.c:101-189 | Concretely: a group of an empty array with the default callbacks, extended, points to a page that is no longer allocated |
| `Groups.PageGroupMerge` | src/EFPageGroup.c:191-250 | One page of the total length with count 1 in place of all; an old page stays exactly if something else refers to it, with its count to match; all else is as before, and a failure changes nothing |
| `Runs.Perform` | src/runtime/EFBase.c:69-109 | Every call a client may make, with any failure inside, leads from a sound state to a sound state and has exactly its effect: a retain adds one reference, also to an item fetched from an array; a release takes one and cascades; a creation returns one to the new objects; a store or removal moves the items as stated item by item; the rest as for each method, or nothing for lack of memory |
| `Runs.EffectRefs` | src/runtime/EFBase.c:69-109 | Whatever the call, the client has one reference more to what it retained or what was returned, one less to what it released, and the same to all others |
| `Runs.RefsAddUp` | src/runtime/EFBase.c:69-109 | So in any run the client's references are those it began with and those the calls added, less those they took |
| `Runs.CreatesUnlessRefused` | src/runtime/EFAllocator.c:31-63 | A creation or copy to which no request was refused returns a new object of its kind with count 1 |
| `Runs.RetainsTheItem` | src/EFArray.c:299-315 | Retaining an item fetched from an array of objects retains the one at the index |
| `Runs.Run` | src/runtime/EFBase.c:69-109 | After any run of calls the trace has for each the effect on the state the calls before it left, with a failure only if one of that call's own requests was refused, and the refusals of the calls are all there were; the counts are the outstanding references plus the occurrences in containers; with all references released, something is left on the heap if and only if there are cycles |
| `Groups.FileHandleCreate` | src/EFFileHandle.c:86-106 | On success handle, group, array and page are new, each with count 1 and referring to the next; on failure the whole state is as before |
| `GroupSteps.PageRemoved` | src/EFPageGroup.c:243-246 | Removing a page from a group's array changes only that page and the array |
| `GroupSteps.OwnArrayReleased` | src/EFPageGroup.c:96-98 | Releasing the temporary array leaves exactly what the group needs |
| `GroupSteps.FileReleased` | src/EFFileHandle.c:52-63 | Releasing a file handle nobody retained cascades through group, array and page and restores the state before its creation |
| `PageGroup.WriteInPage` | src/EFPageGroup.c:302-328 | Writing a block into one page is writing it into the concatenation of the pages |
| `PageGroup.ReadInPage` | src/EFPageGroup.c:302-328 | Reading from one page is reading from the concatenation |
| `PageGroup.EFPageGroup.GetLength` | src/EFPageGroup.c:152-169 | The length of the flat array |
| `PageGroup.EFPageGroup.Walk` | src/EFPageGroup.c:286-300 | Finds the page that contains the offset, and where it starts |
| `PageGroup.EFPageGroup.Transfer` | src/EFPageGroup.c:257-334 | A write replaces exactly the transferred range of the flat array and a read copies exactly it, for any page sizes; the amount is the length, what is left to the end if that is less, or 0 out of range or for a negative length |
| `PageGroup.EFPageGroup.Extend` | src/EFPageGroup.c:171-189 | The flat array grows by zeros, or nothing changes |
| `PageGroup.EFPageGroup.Merge` | src/EFPageGroup.c:191-250 | One new page, the same flat contents; the old pages are not touched, and a failed merge changes nothing |
| `PageGroup.WriteAfterMerge` | src/EFPageGroup.c:191-250 | Later writes through a merged group leave the old pages as they were |
| `PageGroup.WriteThenRead` | src/EFPageGroup.c:336-350 | A write followed by a read of the same range gives the written bytes back, for any page sizes, and moves nothing else in the reader's buffer |
| `PageGroup.CreateWithPages` | src/EFPageGroup.c:101-139 | The group has its own array of the same pages |
| `PageGroup.CreateGroup` | src/EFPageGroup.c:73-99 | A group of one zeroed page |
| `FileHandle.WrittenAt` | src/EFFileHandle.c:193-235 | After a write each position reads as the written byte, or as before; between the old end and the write it reads as zero |
| `FileHandle.WriteRefines` | src/EFFileHandle.c:220-231 | Splicing bytes into the pages is writing them to the zero-padded file, and past the new end all stays zero |
| `FileHandle.ClearedAt` | src/EFFileHandle.c:258-286 | After a truncation each position reads as before below the length and as zero from there on |
| `FileHandle.FileHandle.Read` | src/EFFileHandle.c:167-191 | Returns bytes of the zero-padded file from the offset on, as many as asked for or up to the capacity, and moves the offset by as many |
| `FileHandle.FileHandle.Write` | src/EFFileHandle.c:193-235 | All or nothing: `length` and the written file, or -1 and the file, offset and end as before; the memory grows by just enough pages. A negative length, which the code does not check, writes nothing, but may move the end past the memory: the handle stays valid if and only if the offset is within what offset plus length makes room for |
| `FileHandle.NegativeWrite` | src/EFFileHandle.c:193-235 | Concretely: with a page of 4096 bytes, a write of length -1 at offset 4097 leaves the end at 4097 |
| `FileHandle.ExtendedIsEnough` | src/EFFileHandle.c:212-218 | The loop that makes room adds whole pages and stops at the first capacity that is enough, with less than a page to spare unless it did nothing |
| `FileHandle.FileHandle.Truncate` | src/EFFileHandle.c:237-289 | The file reads as zero from the length on, also when extension fails; end and offset stay, and the result is always -1 |
| `FileHandle.FileHandle.ClearRange` | src/EFFileHandle.c:270-286 | The chunk loop zeroes exactly the range, for every page size |
| `FileHandle.FileHandle.Seek` | src/EFFileHandle.c:291-354 | Moves the offset to the distance from 0, from the offset, or from the end of the file, by the kind of seek, or returns -1 and changes nothing when that overflows or is negative |
| `FileHandle.SeekToEnd` | src/EFFileHandle.c:291-391 | A seek by 0 from the end returns the length of the file |
| `FileHandle.SeekTwice` | src/EFFileHandle.c:291-354 | Seeks from the current offset add up, as long as they stay in range |
| `FileHandle.ReadLast` | src/EFFileHandle.c:167-354 | Seeking back from the end by `n` and reading `n` bytes gives the last `n` bytes of the file |
| `FileHandle.FileHandle.GetLength` | src/EFFileHandle.c:370-391 | The end of the file |
| `FileHandle.Create` | src/EFFileHandle.c:86-106 | An empty file at offset 0 |
| `FileHandle.RunHoldsLastByte` | src/EFFileHandle.c:167-354 | After any run of seeks, reads, writes and truncations each position holds what was last put there, or zero |
| `FileHandle.Perform` | src/EFFileHandle.c:167-354 | A write puts its bytes at the offset, or does nothing if and only if memory was refused to it or it would pass the greatest index; a truncation clears from its length on if and only if that is not negative; a seek moves to its target if and only if that is in range; a read moves on by the amount clipped at the capacity. The capacity it leaves is stated too |
| `FileHandle.SeekDoes` | src/EFFileHandle.c:291-354 | What a seek of a run does to the file, from its offset, its end or 0 |
| `FileHandle.ReadDoes` | src/EFFileHandle.c:167-191 | What a read of a run does: the offset moves by the amount, or to the capacity if that comes first |
| `FileHandle.WriteDoes` | src/EFFileHandle.c:193-235 | What a write of a run does, byte by byte, and when it does nothing |
| `FileHandle.TruncateDoes` | src/EFFileHandle.c:237-289 | What a truncation of a run does, byte by byte: end and offset stay |
| `FileHandle.CreateAndRun` | src/EFFileHandle.c:86-354 | A new handle and any run of calls: one entry per call, which did what it must to the file and the capacity that the calls before it left, and was refused only if one of its own requests was, or array slots ran out; and the pages hold, at each position, what the log says was last put there |
| `FileHandle.RunEndsAtFurthestWrite` | src/EFFileHandle.c:227-231 | No write of a run ended behind the end of the file, and unless the file is empty one ended there, empty writes included, whatever was truncated |
| `Threads.DropKeeps` | src/runtime/EFBase.c:81-109 | A decrement by a thread that has a reference never underflows or touches a freed object, and keeps counts, deinits and logs consistent |
| `Threads.FreeKeeps` | src/runtime/EFBase.c:92-103 | At the end of a deinit no reference to the object is left anywhere |
| `Threads.StepKeeps` | src/runtime/EFBase.c:69-109 | Every atomic step of any thread keeps the invariant and goes wrong in no way |
| `Threads.StoreKeeps` | src/EFArray.c:345-367 | An append, with its increment, keeps the invariant while other threads run |
| `Threads.MadeInRun` | src/runtime/EFBase.c:69-109 | An object made in a run is allocated at its end or was freed: none is lost |
| `Threads.FreedUnreferenced` | src/runtime/EFBase.c:92-103 | Whenever a thread frees an object, in any run, no thread and no object has a reference to it |
| `Threads.ExactlyOnce` | src/runtime/EFBase.c:69-109 | In every interleaving, of each object at most one thread reads the old count 1, once; that thread runs its deinit and frees it, once, when no reference to it is left anywhere. Every object that was made is still allocated, or was freed like that exactly once, and then no reference to it exists |
| `ThreadRuns.OwnedStep` | src/runtime/EFBase.c:69-109 | Every step moves exactly the references it should: a release takes one from its thread, a retain gives it one, making an object takes the references put into it and gives the one to it, passing moves one; all others stay |
| `ThreadRuns.OwnedAddsUp` | src/runtime/EFBase.c:69-109 | In every interleaving the references of a thread to an object are those it retained, made and was passed, less those it released, passed on and gave into objects |
| `ThreadRuns.ObjectsStep` | src/EFArray.c:345-367 | Only making adds an object, with count 1 and the body asked for; only the end of a deinit takes one away; only a store changes a body, by one item at the end |
| `ThreadRuns.FreedStep` | src/runtime/EFBase.c:102 | The log of freed objects grows with the end of a deinit and with nothing else |
| `ThreadRuns.MadeIsKept` | src/EFArray.c:345-367 | An object made in a run and still allocated has the body it was made with and, in order, what was stored in it since |
| `ThreadRuns.DeinitGoesOn` | src/EFArray.c:82-93 | A thread in a deinit always has a next step, whatever the other threads do |
| `ThreadRuns.DeinitEnds` | src/EFArray.c:82-93 | Going on, it ends, after no more steps than there are slots and objects, and leaves the other threads' deinits and all owned references alone |
| `ThreadRuns.DeinitsAreBounded` | src/EFArray.c:82-93 | No deinits, of however many threads in whatever order, go on for longer |
| `ThreadRuns.OnlyCyclesAreLeft` | src/runtime/EFBase.c:81-109 | In every interleaving: when no deinit is running and no thread owns a reference, each object left is on a cycle of references or held from one, and nothing is left if and only if there are no cycles |
| `ThreadRuns.CanBeGivenUp` | src/runtime/EFBase.c:81-109 | Every run can go on to such a state |
| `ThreadRuns.OwnerMay` | src/runtime/EFBase.c:69-109 | A thread outside a deinit may retain, release, pass on, store and put into new objects every reference it owns |
| `ClassRegistry.StepKeeps` | src/runtime/EFBase.c:118-130 | Every atomic step of a registration keeps IDs distinct and never overwrites a published slot |
| `ClassRegistry.AssignedIDsAreDistinct` | src/runtime/EFBase.c:118-130 | In every interleaving, different classes carry different IDs below 1024, or none |
| `ClassRegistry.LookupFindsTheClass` | src/runtime/EFBase.c:132-139 | A lookup finds nothing, or the one class that carries the ID |
| `ClassRegistry.NoneIsTurnedAway` | src/runtime/EFBase.c:118-139 | With fewer than 1024 classes every registration that returned can be looked up by the ID it returned |
| `ClassRegistry.IDsInOrder` | src/runtime/EFBase.c:118-130 | In every interleaving IDs are given out in the order in which the registrations incremented the counter, and a registration is turned away if and only if its number is past the limit |
| `ClassRegistry.IDsByRank` | src/runtime/EFBase.c:118-130 | A class's ID is one more than the number of classes whose registration took a step before its own did, or 0 if that is 1024 or more |
| `ClassRegistry.RunAdvances` | src/runtime/EFBase.c:118-130 | A registration that is not turned away has come as far as it took steps, up to its third, with which it returns |
| `ClassRegistry.RegistrationReturns` | src/runtime/EFBase.c:118-139 | In every interleaving a registration that has taken three steps has returned; its ID is its place in the order of the increments, is written into the class, and a lookup of it finds the class, if it is below 1024 |
| `Equality.EFEqual` | src/runtime/EFBase.c:40-67 | On finitely nested arrays with object callbacks it terminates and decides equality of the unfolded trees, despite shared and identical pointers. Without the trees: strings are equal exactly to strings of the same bytes, NULL and other leaves only to themselves, arrays only to arrays with the same kind of callbacks and as many items |
| `Equality.UnfoldIsEquality` | src/runtime/EFBase.c:40-67 | Equality of trees is a relation that looks no further than the items: same pointers, same bytes, arrays of the same callbacks whose items are related one by one, or are as many |
| `Equality.EqualityIsUnique` | src/runtime/EFBase.c:40-67 | And it is the only such relation |
| `Equality.ArrayEqual` | src/EFArray.c:95-122 | Decides equality of the unfolded trees: with the object callbacks, whether the items are equal one by one; with the default ones, only whether there are equally many |
| `Equality.UnfoldIndependent` | src/EFArray.c:95-122 | What an object unfolds to, and so equality, does not depend on how its nesting is measured |
| `Equality.DecidesItemsExactly` | src/EFArray.c:108-119 | For arrays of `n` items, equality of arrays is equality of items if and only if they have the object callbacks or `n` is 0 |
| `Equality.DefaultCallbacksIgnoreItems` | src/EFArray.c:115-118 | Concretely: two one-item arrays of different leaves are equal with the default callbacks and different with the object callbacks |

## Left out

- `Split.ComponentsSplitBySeparator`: requires a non-empty separator (or an empty string), because the scan makes no progress on an empty one (`Split.ScanProgress`), a length that leaves room for one growth of the array, and that no `strncmp` of the scan reads past the caller's memory, as with a NUL anywhere behind the text (`Split.NulStops`).
- `Strings.EFString.AppendString`: does not say what is appended when another string shares the receiver's buffer, which the code then reads after `realloc` gave it back; the wrap-around of the sum of lengths is not modelled.
- `FormatBuffer.CreateWithFormat`: formats without conversions only, and a terminated format; conversions read C arguments and print through the C library.
- `FormatBuffer.FmtBuf.Ensure`: does not model the wrap-around of `size_t` while doubling.
- `Arrays.EFArray.GetValueAtIndex`: non-negative indices only, here and in insertion and removal; the code does not check the sign.
- `Arrays.EFArray.ResizeIfNeededForOneMoreIndex`: does not model the wrap-around of the byte size passed to `realloc`.
- `ObjectRuntime.Runtime.StoreAt`: whether the buffer is full is decided in `Arrays`; on the object graph any append may need memory and fail, which covers more failures than the code has.
- `ObjectRuntime.Runtime.FreshAddress`: any unused address; class-specific data other than references and page lengths are not on the object graph.
- `Groups.PageGroupCreateWithPages`: requires that the items of an array with the default callbacks have not been freed, because the code looks at them.
- `Groups.PageGroupMerge`: requires that the group's array has the object callbacks, because with the default ones the code reads pages that may have been freed; the copied bytes are in `PageGroup.EFPageGroup.Merge`, which models the same loops on byte arrays.
- `PageGroup.EFPageGroup.Transfer`: requires that no page occurs twice in the group and that the buffer is not one of its pages, as `memcpy` does.
- `FileHandle.FileHandle.Write`: requires that offset plus length is an `EFIndex`, which the code does not check; a page that would take the memory past the greatest `EFIndex` is taken to be refused.
- `FileHandle.FileHandle.Read`: handles that are not NULL; the NULL checks of the file handle functions only return -1.
- `Threads.ExactlyOnce`: sequentially consistent atomic steps and addresses that are not used again; each thread uses only references it owns; an append is one step, so that threads do not append to one array at the same time, and removal is modelled sequentially only.
- `ClassRegistry.StepKeeps`: does not model the wrap-around of the 64-bit counter.
- `Equality.EFEqual`: finitely nested arrays only; on a cycle of arrays the code recurses without end.
- The branches for real files (`open`, `read`, `write`, `lseek`, `ftruncate`, `fstat`, `fsync`): operating system calls only.
- `mmap`, `munmap` and the size of a system page: a page is a fresh zeroed array of a positive length, and mapping may fail.
- `EFNumber` and `EFData`: single branches, plain copies and stubs.
- Descriptions, logging and custom allocators beyond "may fail".
- UTF-7 as such: the code's `UTF7` case is a 7-bit check under another name.
- Weak memory ordering.
