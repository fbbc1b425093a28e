# mruby core in Dafny: the incremental collector, byte strings, Set and Rational

This project is a Dafny model of four parts of mruby, with proofs about each.

- **The garbage collector** (`src/gc.c`) is an incremental tri-colour mark-and-sweep collector. It runs one step at a time through the ROOT, MARK and SWEEP phases.
  - `Gc.Collector` is a class holding the collector's fields: the phase, the current white, pages, `heaps`, `free_heaps`, the sweep cursor, both gray lists, `live`, `live_after_mark`, the thresholds, the ratios, the generational and full flags, the arena and the `_gc_root_` table. Its methods update these fields in place, as the C functions do.
  - A heap page is a value (`GcHeap.Page`): 1024 slots, each with a type tag, a colour, a class and a list of child references, plus the page's free list.
  - The colours are the C bit patterns. The two whites are flipped by XOR with 3. Red (read-only) is also "white" to the bit test and is excluded separately.
  - Proved about the collector:
    - the tri-colour invariant is kept by marking, scanning and both write barriers;
    - after the final mark, no object reachable from the roots can be swept;
    - the sweep frees exactly the dead slots and lowers `live` and `live_after_mark` by the number freed;
    - every page the sweep leaves with no object is unlinked from `heaps`;
    - `free_heaps` is rebuilt to hold exactly the pages with a free slot;
    - allocation takes the head of the first free page's free list;
    - the phase cycle and the threshold arithmetic follow the source.
- **Strings** (`src/string.c`):
  - `StrBuffer.RString` is a string object over a byte `array`. It has copy-on-write sharing through a reference-counted `SharedString`. `cat`, partial replacement, the case-changing `!` methods, `chomp!`, `chop!` and `reverse!` change the buffer in place.
  - Pure functions:
    - `StrEdit`: the results those in-place methods must produce;
    - `StrSearch`: range normalisation, substring search and comparison;
    - `StrHash`: the FNV-1 hash;
    - `StrInteger`: the integer parser;
    - `StrSplit`: `split` with a string separator.
- **Set** (`mrbgems/mruby-set/src/set.c`):
  - A set's hash table is modelled as a finite set of values, or as no table at all for an uninitialised set.
  - `SetCore.RSet` is the object whose table `add?`, `delete?`, `__merge`, `__subtract`, `clear` and `flatten!` change in place.
  - The loops that build new tables are methods proved against set algebra.
  - The comparisons are functions following the C branches, proved equal to subset, superset and intersection tests.
  - Flatten is proved to fail exactly when a chain of 16 nested sets exists.
- **Rational** (`mrbgems/mruby-rational/src/rational.c`):
  - construction with the sign moved onto the numerator;
  - reduction by Euclid's loop, with C's truncating `%`, proved to be the gcd, and the arguments for which C's `%` or `/` overflows or divides by zero characterised;
  - `to_i`, `negative?` and `Integer#to_r`.

64-bit integers are `int` with explicit bounds (`CInt`, `Rational.Wrap64`, `Gc.SizeT`, `Gc.Int32`). C's truncating `/` and `%` are written out as `CInt.CQuot` and `CInt.CRem` on mathematical integers. Their precondition excludes division by zero. They do not overflow: `CQuot(INT64_MIN, -1)` is 2^63, outside `mrb_int`, where C's result is undefined. Callers that can meet these cases check for them explicitly (see `Rational.RationalMInt`).

## Model

| member | source | states |
|---|---|---|
| GcHeap.OtherWhiteFlips | src/gc.c:162-183 | flipping the current white by XOR 3 gives the other white part, and flipping twice restores it |
| GcHeap.DeadColor | src/gc.c:162-183 | `is_dead` holds exactly for a slot painted the other white or tagged FREE |
| GcHeap.Countdown | src/gc.c:297-315 | the free list `add_heap` threads holds every slot index of the page exactly once, in strictly decreasing order, with the last slot at the head |
| GcHeap.FreshPageProps | src/gc.c:297-315 | a new page is well formed, all 1024 slots are free and on its free list, and it holds no live or dead object |
| GcHeap.GrayStepLists | src/gc.c:525-535 | painting a white object gray and pushing it on the gray list keeps "every gray object is on a gray list" |
| GcHeap.MarkStep | src/gc.c:745-752 | one `mrb_gc_mark` keeps the tri-colour invariant (no black object points to a white one, except the object being scanned) |
| GcHeap.BlackenStep | src/gc.c:591-597 | painting the scanned object black keeps the invariant, with that object exempt until its children are shaded |
| GcHeap.ScanStart | src/gc.c:591-597 | painting black changes no successor of the object, and the invariant holds with it exempt |
| GcHeap.ScanDone | src/gc.c:591-742 | once every successor is shaded, the object is black, no object lost its shade, and the full invariant holds again |
| GcHeap.SuccOfShaded | src/gc.c:1001-1029 | with no gray object left, every successor of a shaded object is shaded |
| GcHeap.MarkedPathShaded | src/gc.c:1001-1029 | every object on a path from a shaded object is shaded once marking is complete |
| GcHeap.ReachableNotDead | src/gc.c:1001-1029 | after a complete mark from shaded roots, every allocated object reachable from them is black and not dead |
| GcMark.PopScanning | src/gc.c:962-969 | the head of the gray list is a gray object that may be scanned without breaking the invariant |
| GcMark.SwapAtomic | src/gc.c:1023-1028 | moving the atomic gray list onto the gray list keeps the invariant |
| GcMark.AllWhiteMarkInv | src/gc.c:911-959 | a heap that is all white (or free) satisfies the invariant with both gray lists empty |
| GcMark.WhiteScanning | src/gc.c:987-998 | a white object may be painted black and scanned under the invariant |
| GcMark.MarkCompleteSafe | src/gc.c:1001-1029 | an empty gray list and shaded roots mean the sweep frees no reachable object |
| GcMark.DropChildrenInv | src/gc.c:987-998 | dropping an error object's payload changes no shade and keeps the invariant |
| GcMark.StoreMakesPending | src/gc.c:1275-1294 | storing a reference into an object breaks the invariant at most at that one edge |
| GcMark.BarrierGray | src/gc.c:1275-1294 | graying the stored white value repairs that edge |
| GcMark.BarrierQuiet | src/gc.c:1275-1294 | when the object is not black or the value is shaded, nothing needs repair |
| GcMark.AtomicGray | src/gc.c:1306-1317 | repainting a black object gray and queueing it on the atomic gray list keeps the invariant |
| GcState.AddPageLists | src/gc.c:297-315 | linking a fresh page at the front of `heaps` and `free_heaps` keeps both lists well formed and moves the sweep cursor by one |
| GcState.InitialWf | src/gc.c:326-343 | the state `mrb_gc_init` builds is well formed |
| GcState.PaintCounts | src/gc.c:172-175 | repainting a slot leaves `live` and `live_after_mark` consistent and changes the white count by that slot alone |
| GcState.DeadLiveBelowLive | src/gc.c:1100-1102 | the dead objects the sweep will free are never more than the allocated ones |
| GcState.StartSweepCounts | src/gc.c:1032-1039 | setting `live_after_mark` to `live` at the start of the sweep keeps the counters consistent |
| GcState.TakeSlotWf | src/gc.c:509-521 | taking the head of the first free page's free list gives a free slot, and the heap stays well formed with `live` one higher |
| GcSweep.FreedSlot | src/gc.c:1060-1066 | a freed slot no longer counts as allocated, is not freed again by a later sweep, stays dead to `is_dead`, keeps its colour and well-formedness, and references nothing |
| GcSweep.SweepPage | src/gc.c:1049-1080 | the slot loop frees exactly the dead slots of a page, skips old pages in a minor cycle, and reports whether every slot was dead |
| GcSweep.NewlyFreedCount | src/gc.c:1059-1079 | the slots pushed on the free list are as many as the dead allocated ones |
| GcSweep.SweptTallies | src/gc.c:1059-1079 | after a page is swept, its allocated slots are the old ones minus the dead, and none is dead |
| GcSweep.AllDeadFree | src/gc.c:1082-1091 | a page whose slots were all dead holds no object after the sweep |
| GcSweep.UnlinkPage | src/gc.c:1082-1091 | unlinking an empty page from `heaps` keeps the page list well formed |
| GcSweep.SweepPages | src/gc.c:1048-1104 | the page loop sweeps until `limit` slots are tried or the list ends; `live` and `live_after_mark` drop by the same amount |
| GcSweep.SweepStep | src/gc.c:1048-1103 | one page is either released or kept, and the cursor and counters follow |
| GcSweep.ReleasePage | src/gc.c:1082-1091 | an all-dead page is unlinked and its freed count is subtracted from both counters |
| GcSweep.KeepPage | src/gc.c:1092-1102 | a kept page takes its swept contents and the cursor moves past it |
| GcSweep.RebuildFreeHeaps | src/gc.c:1106-1113 | `free_heaps` becomes exactly the linked pages that have a free slot |
| GcSweep.FreeHeapsOfWf | src/gc.c:1106-1113 | the rebuilt `free_heaps` satisfies the free-page invariant allocation relies on |
| GcSweep.SweepPhase | src/gc.c:1042-1116 | `incremental_sweep_phase` as a whole: the heap stays well formed and the outcome is the sweep over the pages past the cursor |
| GcSweep.SweptAllWhite | src/gc.c:1092-1099 | outside generational mode a finished sweep leaves every allocated object white |
| Gc.SizeT | src/gc.c:1206 | conversion into `size_t`, modulo 2^64 |
| Gc.Int32 | src/gc.c:1403-1410 | the `(int)` cast of a 64-bit ratio keeps the low 32 bits as a two's-complement value |
| Gc.AllocCheck | src/gc.c:472-496 | allocation is refused for a class that is not a class, a disallowed instance type, or an immediate type |
| Gc.RemoveFirst | src/gc.c:445-464 | removing the first occurrence shortens by one and removes exactly one copy |
| Gc.RemoveFirstAppended | src/gc.c:426-464 | unregistering an object registered once restores the table |
| Gc.Collector.AddHeap | src/gc.c:297-315 | a fresh page is appended and linked at the front of `heaps` and `free_heaps`; the cursor shifts |
| Gc.Collector.constructor | src/gc.c:326-343 | the initial state: ROOT, white A, one page, default ratios, generational and full |
| Gc.Collector.AddGrayList | src/gc.c:525-535 | the object turns gray and goes to the front of `gray_list` |
| Gc.Collector.Mark | src/gc.c:745-752 | a white heap object turns gray and is queued; null, red and marked objects are left alone; the invariant is kept |
| Gc.Collector.MarkAll | src/gc.c:920-953 | after marking a list of references all are shaded, nothing lost its shade, and the invariant is kept |
| Gc.Collector.MarkChildren | src/gc.c:591-742 | the object ends black with its class and children shaded, and the result is its child count |
| Gc.Collector.MarkGrayList | src/gc.c:962-969 | the gray list is drained and the invariant is kept |
| Gc.Collector.IncrementalMarkingPhase | src/gc.c:972-984 | scanning stops at an empty gray list or after `limit` work, and makes progress when there is work and a limit |
| Gc.Collector.ClearErrorObject | src/gc.c:987-998 | a white error object is painted black with its payload dropped; any other object is left alone |
| Gc.Collector.FinalMarkingPhase | src/gc.c:1001-1029 | the roots are marked again, and both gray lists end empty with every root shaded |
| Gc.Collector.RootScanPhase | src/gc.c:911-959 | every root is shaded, and both gray lists are reset except in a minor cycle |
| Gc.Collector.PrepareIncrementalSweep | src/gc.c:1032-1039 | the phase becomes SWEEP with the cursor at the head and `live_after_mark` equal to `live` |
| Gc.Collector.IncrementalGc | src/gc.c:1119-1148 | ROOT scans and flips the white, returning 0. MARK with gray objects scans; with none it runs the final mark and moves to SWEEP, no reachable object being dead. SWEEP returns to ROOT exactly when no page was swept |
| Gc.Collector.IncrementalGcFinish | src/gc.c:1151-1156 | the cycle is run to ROOT, and outside generational mode every allocated object ends white |
| Gc.Collector.IncrementalGcStep | src/gc.c:1159-1170 | the cycle advances, and `threshold` becomes `live + GC_STEP_SIZE` |
| Gc.Collector.ClearAllOld | src/gc.c:1173-1188 | the cycle ends at ROOT, both gray lists are empty, and every allocated object is white |
| Gc.Collector.MrbFullGc | src/gc.c:1233-1261 | nothing happens while disabled or iterating; otherwise a full cycle, `threshold` from `live_after_mark`, and in generational mode the old-generation threshold with the full phase left |
| Gc.Collector.EndOfCycle | src/gc.c:1204-1228 | `threshold` is `live_after_mark/100*interval_ratio` but at least 1024. After a major cycle `oldgen_threshold` is `live_after_mark/100*120` when below 10000, else a full GC is forced. A minor cycle with `live` above `oldgen_threshold` clears all old objects |
| Gc.Collector.EndMajorCycle | src/gc.c:1211-1223 | either `oldgen_threshold` is recorded below 10000 or a full GC is run |
| Gc.Collector.MrbIncrementalGc | src/gc.c:1191-1229 | nothing happens while disabled or iterating; a minor cycle runs to completion; otherwise one step, with the end-of-cycle thresholds once back at ROOT |
| Gc.Collector.FieldWriteBarrier | src/gc.c:1275-1294 | no change unless `obj` is black and `value` white (not red); then in generational mode or MARK `value` is grayed and queued, else `obj` is repainted the current white; the invariant is restored |
| Gc.Collector.WriteBarrier | src/gc.c:1306-1317 | a black object is grayed and pushed on `atomic_gray_list` only; any other object is left alone |
| Gc.Collector.ArenaKeep | src/gc.c:375-391 | a full arena grows, so there is room for one more entry; otherwise nothing changes |
| Gc.Collector.Protect | src/gc.c:394-413 | a heap object is appended to the arena; other values leave it unchanged |
| Gc.Collector.ObjAlloc | src/gc.c:467-522 | a refused class or type raises with nothing changed; otherwise the new object is painted the current white, is not dead, and is the last arena entry |
| Gc.Collector.TakeSlot | src/gc.c:509-521 | the head of the first free page's free list is taken, `live` is incremented, and the object is protected |
| Gc.Collector.PopFree | src/gc.c:509-515 | the taken slot leaves the free list, and a page whose free list empties leaves `free_heaps` |
| Gc.Collector.MakeRoom | src/gc.c:501-507 | a collector step runs when `live` passed `threshold`; afterwards the arena has room and some page has a free slot |
| Gc.Collector.Register | src/gc.c:426-441 | the object is appended to the `_gc_root_` table and the arena is restored |
| Gc.Collector.Unregister | src/gc.c:445-464 | the first table entry that is the object is removed and the others keep their order |
| Gc.Collector.ChangeGenGcMode | src/gc.c:1446-1463 | refused with nothing changed while disabled or iterating; leaving generational mode whitens every object; entering it finishes the cycle and sets `oldgen_threshold` |
| Gc.Collector.GcEnable | src/gc.c:1348-1355 | the collector is enabled, and the result says whether it was disabled |
| Gc.Collector.GcDisable | src/gc.c:1370-1377 | the collector is disabled, and the result says whether it was already |
| Gc.Collector.SetIntervalRatio | src/gc.c:1403-1410 | the ratio is stored truncated to a C `int` |
| Gc.Collector.SetStepRatio | src/gc.c:1436-1443 | the ratio is stored truncated to a C `int` |
| Gc.Collector.IncrementalSweepPhase | src/gc.c:1042-1116 | the collector takes the page state and counters of the proved sweep |
| StrSearch.BegLen | src/string.c:774-787 | fails exactly when `beg > len`, `len < 0`, or a negative `beg` stays negative; otherwise a range inside the string, clipped |
| StrSearch.MemSearch | src/string.c:689-705 | the first index where the needle occurs, -1 when none; -1 for a longer needle and 0 for an empty one |
| StrSearch.SearchSuffix | src/string.c:808-829 | searching the suffix from an offset finds the first match at or after it, shifted |
| StrSearch.StrIndex | src/string.c:808-829 | the first occurrence at or after the offset (a negative one counted from the end), or -1 |
| StrSearch.StrRindex | src/string.c:865-894 | the last occurrence starting at or before the clamped position, or -1 |
| StrSearch.Memcmp | src/string.c:1196-1212 | 0 exactly when the first `n` bytes agree |
| StrSearch.StrCmp | src/string.c:1196-1212 | -1, 0 or 1 as the first sorts before, equal to or after the second lexicographically, a proper prefix first |
| StrSearch.LexLessTransitive | src/string.c:1196-1212 | the order `mrb_str_cmp` decides is transitive |
| StrSearch.StrCmpExamples | src/string.c:1235-1238 | the documented `<=>` results on "abcdef" |
| StrSearch.StrEql | src/string.c:1254-1260 | equal bytes exactly, which is `mrb_str_cmp` returning 0 |
| StrSearch.StrIndexExamples | src/string.c:2094-2097 | forward searches in "hello" |
| StrBuffer.NewBuffer | src/string.c:54-66 | a fresh buffer of `capa + 1` bytes holding the copied bytes and a NUL |
| StrBuffer.MemMove | src/string.c:1490-1492 | `memmove` with overlapping ranges: the destination gets the old source bytes, nothing else changes |
| StrBuffer.SpliceBuffer | src/string.c:1490-1495 | the two moves of partial replacement leave the buffer holding the spliced bytes |
| StrBuffer.UpcaseRange | src/string.c:3033-3041 | every lower-case byte in the range is up-cased, others kept; reports whether any was lower-case |
| StrBuffer.CapitalizeRange | src/string.c:1657-1669 | the buffer is the capitalized prefix, and the result says whether it changed |
| StrBuffer.ReverseRange | src/string.c:2269-2278 | the segment from `p` to `e` inclusive is reversed in place |
| StrBuffer.StripNewlinesLength | src/string.c:1741-1746 | the length left after all trailing "\n" and "\r\n" are dropped |
| StrBuffer.SharedString.Incref | src/string.c:98-100 | one more owner and one more reference |
| StrBuffer.SharedString.Decref | src/string.c:251-258 | one owner fewer; the record is freed exactly when the count reaches 0 |
| StrBuffer.RString.Modify | src/string.c:261-280 | frozen raises with nothing changed; otherwise the string gets a private buffer with the same bytes, releasing its share |
| StrBuffer.RString.ResizeCapa | src/string.c:178-190 | the capacity becomes the requested one and the bytes are kept |
| StrBuffer.RString.ShareInto | src/string.c:708-730 | the other string holds the same buffer without copying, and the reference count grows by one |
| StrBuffer.RString.Cat | src/string.c:3093-3125 | the bytes are appended after the old ones with capacity above the new length; frozen and overflow raise, leaving the bytes unchanged |
| StrBuffer.RString.ReplacePartial | src/string.c:1463-1502 | `pos` outside the string raises IndexError, an oversized result RuntimeError, frozen FrozenError; otherwise the bytes become `s[..pos] + rep + s[min(end,len)..]` |
| StrBuffer.RString.UpcaseBang | src/string.c:3026-3045 | frozen raises; otherwise the bytes are up-cased, with nil exactly when nothing changed |
| StrBuffer.RString.DowncaseBang | src/string.c:1877-1896 | frozen raises; otherwise the bytes are down-cased, with nil exactly when nothing changed |
| StrBuffer.RString.CapitalizeBang | src/string.c:1650-1672 | frozen raises; otherwise the bytes are capitalized, with nil exactly when nothing changed |
| StrBuffer.RString.ChompBang | src/string.c:1705-1770 | frozen raises; otherwise the bytes become `Chomp` of the old, with nil exactly when nothing was removed |
| StrBuffer.RString.ChopBang | src/string.c:1810-1840 | frozen raises; otherwise the last byte (or "\r\n") is removed, nil exactly for the empty string |
| StrBuffer.RString.ReverseBang | src/string.c:2288-2322 | a frozen string longer than one byte raises; otherwise the bytes are reversed |
| StrBuffer.CopyOnWrite | src/string.c:708-730 | after sharing, editing the original leaves the sharer's bytes intact |
| StrBytes.ToUpper | src/string.c:3036-3037 | a lower-case letter becomes its capital; every other byte stays |
| StrBytes.ToLower | src/string.c:1887-1888 | a capital becomes its lower-case letter; every other byte stays |
| StrEdit.UpcaseUnchanged | src/string.c:3026-3045 | `upcase!` changes nothing exactly when no byte is lower-case |
| StrEdit.DowncaseUnchanged | src/string.c:1877-1896 | `downcase!` changes nothing exactly when no byte is a capital |
| StrEdit.CapitalizeUnchanged | src/string.c:1650-1672 | `capitalize!` changes nothing exactly when the first byte is not lower-case and no later byte is a capital |
| StrEdit.CaseMappingsAbsorb | src/string.c:3026-3045 | case mappings are idempotent and absorb each other |
| StrEdit.Chomp | src/string.c:1705-1770 | the result is a prefix of the string |
| StrEdit.ChompExamples | src/string.c:1782-1786 | the documented `chomp` examples, e.g. "hello\n\r" gives "hello\n" |
| StrEdit.ChompInnerNewline | src/string.c:1787 | an inner newline is kept |
| StrEdit.ChompSeparatorExamples | src/string.c:1741-1788 | "hello".chomp("llo") is "he"; an empty separator removes every trailing newline |
| StrEdit.Chop | src/string.c:1810-1840 | the last byte removed, or a trailing "\r\n" as one |
| StrEdit.ChopExamples | src/string.c:1853-1857 | the documented `chop` examples |
| StrEdit.ReverseReverse | src/string.c:2288-2322 | reversing twice gives the string back |
| StrEdit.SpliceParts | src/string.c:1463-1502 | the replacement lands at `pos` with everything outside the range kept; replacing a range by itself is the identity |
| StrEdit.DoubleBounds | src/string.c:3111-3117 | doubling yields a capacity above the total that fits in 64 bits, and fails only beyond half the range |
| StrEdit.GrowCapaBounds | src/string.c:3106-3117 | the capacity `mrb_str_cat` picks exceeds the new length, or the length is too large |
| StrHash.ByteHashStep | src/string.c:1978-1999 | the loop computes `Fnv`: per byte, the default build's shift-add round (`hval += (hval<<1) + … + (hval<<24)`), then XOR in the byte |
| StrHash.ByteHash | src/string.c:2002-2005 | FNV-1 from the offset basis `0x811c9dc5` |
| StrHash.FnvConcat | src/string.c:1978-1999 | hashing in pieces, continuing from the last value, is hashing the concatenation |
| StrHash.FnvExamples | src/string.c:1978-2005 | the shift-add hash gives the published FNV-1 values for "" and "a" |
| StrHash.FoobarRounds | src/string.c:1990-1994 | each shift-add round over "foobar" yields the published FNV-1 intermediate values |
| StrHash.FnvFoobar | src/string.c:1978-2005 | the shift-add hash gives the published FNV-1 value `0x31f0b262` for "foobar" |
| StrInteger.ConvDigit | src/string.c:2597-2601 | the value of a digit or letter, -1 for any other byte |
| StrInteger.AutoBase | src/string.c:2617-2643 | the base chosen from the prefix is at least 2, or the negated argument |
| StrInteger.SqueezeZeros | src/string.c:2679-2697 | the zero-squeezing loop computes `Squeeze` |
| StrInteger.ScanDigits | src/string.c:2705-2749 | the digit loop computes `DigitLoop` |
| StrInteger.TrailingBadCheck | src/string.c:2575-2582 | `trailingbad` as a specification function |
| StrInteger.ReadSign | src/string.c:2607-2616 | the skipped white space and the sign |
| StrInteger.LenToInteger | src/string.c:2585-2757 | the parser computes `ParseInteger` with the INT64_MIN case corrected; by `CorrectionOnlyAtMin` this differs from the code as written only where that yields INT64_MIN or "invalid string" |
| StrInteger.DigitLoopValue | src/string.c:2705-2749 | over digits whose value fits in 64 bits, the loop reads them all and returns their value |
| StrInteger.PlainNumber | src/string.c:2585-2757 | a number of an explicit base that fits in 64 bits parses to its value |
| StrInteger.NegativeNumber | src/string.c:2585-2757 | the same behind a minus sign gives the negated value |
| StrInteger.IllegalRadixExactly | src/string.c:2617-2672 | the radix is refused exactly when it is 1 or above 36 |
| StrInteger.ToINeverInvalid | src/string.c:2862-2871 | without `badcheck` `to_i` fails only on the radix or a value beyond 64 bits |
| StrInteger.ToIExample | src/string.c:2851 | "12345".to_i is 12345 |
| StrInteger.ToIPrefixExample | src/string.c:2852 | "99 red balloons".to_i is 99 |
| StrInteger.ToILetterExamples | src/string.c:2853-2855 | "0a".to_i is 0, "0a".to_i(16) is 10, "hello".to_i is 0 |
| StrInteger.ToIBinaryExample | src/string.c:2856 | "1100101".to_i(2) is 101 |
| StrInteger.ToIOctalExample | src/string.c:2857 | "1100101".to_i(8) is 294977 |
| StrInteger.ToIDecimalExample | src/string.c:2858 | "1100101".to_i is 1100101 |
| StrInteger.ToIHexExample | src/string.c:2859 | "1100101".to_i(16) is 17826049 |
| StrInteger.MinMagnitude | src/string.c:2725-2751 | "-" followed by the digits of 2^63 is INT64_MIN without `badcheck`, rejected with it as written, accepted once corrected |
| StrInteger.MinValueExample | src/string.c:2725-2751 | `Integer("-9223372036854775808")` is refused as written and gives INT64_MIN once corrected |
| StrInteger.DigitLoopAgrees | src/string.c:2705-2749 | the as-written and corrected digit loops take the same steps until the as-written one stops at INT64_MIN |
| StrInteger.ParseValueAgrees | src/string.c:2705-2753 | after the zeros, the two parses agree unless the as-written one gives INT64_MIN or "invalid string" |
| StrInteger.CorrectionOnlyAtMin | src/string.c:2585-2757 | the correction changes the parse only where the code as written gives INT64_MIN or "invalid string" |
| StrInteger.DigitLoopMinAt | src/string.c:2720-2729 | digits worth 2^63 behind a minus sign: as written the loop stops on the last of them with INT64_MIN, corrected it moves past it |
| StrInteger.MinOverflowExample | src/string.c:2720-2753 | `"-92233720368547758080".to_i` is INT64_MIN as written (the last "0" is never read) and a range error once corrected |
| StrSplit.FirstFromSpec | src/string.c:2542-2543 | the first occurrence at or after the index, or -1 |
| StrSplit.FirstMatchFromAgrees | src/string.c:689-705 | the scan `mrb_memsearch` makes finds exactly that first occurrence |
| StrSplit.SplitString | src/string.c:2467-2572 | `split` with a string separator computes `Split` |
| StrSplit.CutPieces | src/string.c:2540-2553 | the cutting loop yields the pieces up to each separator and where it stopped |
| StrSplit.PopEmpty | src/string.c:2564-2569 | trailing empty strings are popped |
| StrSplit.SplitJoin | src/string.c:2467-2572 | with a limit other than 0, joining the pieces with the separator gives the string back, and a positive limit is not exceeded |
| StrSplit.SplitSeparatorFree | src/string.c:2467-2572 | without a positive limit no piece holds the separator, and without a limit the last piece is not empty |
| StrSplit.SplitFromBytes | src/string.c:2545-2547 | an empty separator cuts the string into its bytes |
| SetCore.CopyElements | mrbgems/mruby-set/src/set.c:28-37 | the target becomes its old keys plus every key of the source |
| SetCore.RemoveElements | mrbgems/mruby-set/src/set.c:358-378 | the target loses every key of the source |
| SetCore.KeepCommon | mrbgems/mruby-set/src/set.c:443-468 | the keys of the source that are in the probe are added |
| SetCore.AddMissing | mrbgems/mruby-set/src/set.c:476-526 | the keys of the source not in the probe are added |
| SetCore.Union | mrbgems/mruby-set/src/set.c:385-403 | a new table holding self ∪ other |
| SetCore.Difference | mrbgems/mruby-set/src/set.c:410-435 | self \ other, no table for an uninitialised self |
| SetCore.Intersection | mrbgems/mruby-set/src/set.c:443-468 | self ∩ other |
| SetCore.Xor | mrbgems/mruby-set/src/set.c:476-526 | (self \ other) ∪ (other \ self) |
| SetCore.EqualMeansSameKeys | mrbgems/mruby-set/src/set.c:541-580 | `==` holds exactly for a Set with the same keys |
| SetCore.InclusionMeaning | mrbgems/mruby-set/src/set.c:632-804 | `superset?`, `proper_superset?`, `subset?` and `proper_subset?` raise ArgumentError for a non-Set, else are ⊇, ⊃, ⊆ and ⊂ |
| SetCore.EmptyIsSubset | mrbgems/mruby-set/src/set.c:723-758 | the empty set is a subset of every set |
| SetCore.IntersectMeaning | mrbgems/mruby-set/src/set.c:813-862 | `intersect?` is a non-empty intersection and `disjoint?` its negation; a non-Set raises |
| SetCore.CmpMeaning | mrbgems/mruby-set/src/set.c:875-954 | `<=>` is -1 exactly for a proper subset, 0 for equal, 1 for a proper superset, nil otherwise |
| SetCore.CmpAgreesWithTests | mrbgems/mruby-set/src/set.c:875-954 | `<=>` agrees with `==`, `proper_subset?` and `proper_superset?` |
| SetCore.FlattenInto | mrbgems/mruby-set/src/set.c:1142-1178 | fails exactly when nesting reaches depth 16; otherwise adds every non-Set element reached through nested sets |
| SetCore.HasNestedSets | mrbgems/mruby-set/src/set.c:1197-1206 | true exactly when some element is a Set |
| SetCore.FlatKeysStay | mrbgems/mruby-set/src/set.c:1142-1178 | a set without nested sets flattens to itself |
| SetCore.LeavesAreAtoms | mrbgems/mruby-set/src/set.c:1142-1178 | a flattened set holds no Set |
| SetCore.FailsIffDeepChain | mrbgems/mruby-set/src/set.c:1146-1169 | flattening fails exactly when a chain of nested sets 16 deep exists |
| SetCore.SelfContainingFails | mrbgems/mruby-set/src/set.c:1142-1178 | a set containing itself cannot be flattened |
| SetCore.Flatten | mrbgems/mruby-set/src/set.c:1188-1226 | ArgumentError exactly when flattening fails, else a new set of the leaves |
| SetCore.RSet.constructor | mrbgems/mruby-set/src/set.c:112-117 | a new, empty, unfrozen set |
| SetCore.RSet.AddP | mrbgems/mruby-set/src/set.c:266-284 | nil exactly when the element was present; afterwards it is a member and no other membership changes; no table raises |
| SetCore.RSet.DeleteP | mrbgems/mruby-set/src/set.c:314-328 | nil exactly when the element was absent; afterwards it is not a member |
| SetCore.RSet.Merge | mrbgems/mruby-set/src/set.c:335-351 | the keys of the other set are added; no table raises |
| SetCore.RSet.Subtract | mrbgems/mruby-set/src/set.c:358-378 | the keys of the other set are removed |
| SetCore.RSet.Clear | mrbgems/mruby-set/src/set.c:184-191 | the table becomes empty |
| SetCore.RSet.FlattenBang | mrbgems/mruby-set/src/set.c:1236-1283 | frozen raises; nil when there is nothing to flatten; ArgumentError when flattening fails, else the table is replaced by the leaves |
| Rational.Wrap64 | mrbgems/mruby-rational/src/rational.c:79-82 | two's-complement wrap-around into 64 bits |
| Rational.RationalNewAsWrittenOverflows | mrbgems/mruby-rational/src/rational.c:79-82 | as written, 1/INT64_MIN keeps a negative denominator and INT64_MIN/-1 becomes INT64_MIN/1 |
| Rational.RationalNew | mrbgems/mruby-rational/src/rational.c:73-87 | denominator ≥ 0 with the sign on the numerator and n/d preserved; refused exactly when negating would overflow |
| Rational.RationalNewAgrees | mrbgems/mruby-rational/src/rational.c:73-87 | wherever it succeeds, `RationalNew` is the C code as written |
| Rational.RemainderStep | mrbgems/mruby-rational/src/rational.c:234-238 | one step of the loop, with C's `%`, keeps the gcd |
| Rational.EuclidLoop | mrbgems/mruby-rational/src/rational.c:234-238 | the loop as written on `mrb_int`: its result is the gcd up to sign, and its only failure is the overflowing `INT64_MIN % -1` |
| Rational.EuclidNoOverflow | mrbgems/mruby-rational/src/rational.c:234-238 | once neither operand is INT64_MIN, the loop never overflows |
| Rational.EuclidOverflowsExactly | mrbgems/mruby-rational/src/rational.c:234-238 | the loop reaches `INT64_MIN % -1` exactly for (INT64_MIN, -1) and (-1, INT64_MIN) |
| Rational.UndefinedDivisionExamples | mrbgems/mruby-rational/src/rational.c:233-239 | the two overflowing pairs; (INT64_MIN, -3) ends on -1, so `n/a` overflows; (0, 0) ends on 0, so `n/a` divides by zero |
| Rational.RationalMInt | mrbgems/mruby-rational/src/rational.c:227-240 | the result has the value n/d, denominator ≥ 0 and coprime parts; UndefinedDivision for 0/0 and the two overflowing pairs; any failure is 0/0 or coprime arguments involving INT64_MIN |
| Rational.DivideByGcd | mrbgems/mruby-rational/src/rational.c:239 | given the gcd (up to sign) left by the loop, the result has the value n/d, denominator ≥ 0 and coprime parts; it fails with UndefinedDivision exactly when `n/a` divides by zero or `a` is -1 beside INT64_MIN |
| Rational.Reduce | mrbgems/mruby-rational/src/rational.c:239 | dividing both parts by the loop's result is exact, keeps the value and leaves coprime parts |
| Rational.GcdPositive | mrbgems/mruby-rational/src/rational.c:234-238 | Euclid's result is positive unless both arguments are 0 |
| Rational.GcdDivides | mrbgems/mruby-rational/src/rational.c:234-238 | Euclid's result divides both arguments |
| Rational.GcdGreatest | mrbgems/mruby-rational/src/rational.c:234-238 | every common divisor divides Euclid's result |
| Rational.GcdReduced | mrbgems/mruby-rational/src/rational.c:239 | the quotients by the gcd are coprime |
| Rational.ToI | mrbgems/mruby-rational/src/rational.c:195-203 | a zero denominator raises StandardError ("divided by 0") exactly; otherwise the quotient truncated toward zero |
| Rational.NegativeMeansBelowZero | mrbgems/mruby-rational/src/rational.c:211-219 | `negative?` holds exactly when n/d is below zero |
| Rational.FixToR | mrbgems/mruby-rational/src/rational.c:221-225 | `Integer#to_r` is n/1 |
| Rational.FixToRToI | mrbgems/mruby-rational/src/rational.c:195-225 | `n.to_r.to_i` is n, and it is negative exactly when n is |
| CInt.CQuot | mrbgems/mruby-rational/src/rational.c:201 | C's `/` wherever C defines it: the quotient rounded toward zero |
| CInt.CRem | mrbgems/mruby-rational/src/rational.c:236 | C's `%` wherever C defines it: the remainder of `CQuot`, of magnitude `|a| mod |b|` |

## Left out

- Gc: the host allocator wrappers (`gc.c:187-260`) and freeing pages (`free_heap`, `mrb_free_heap`) are not modelled. Pages are values in a sequence indexed by page id, so a released page stays in the sequence, unlinked from `heaps`.
- Gc: `mark_context`, the VM stacks and the type-specific bodies of `gc_mark_children` and `obj_free`.
  - An object's references are its class plus a list of children.
  - The roots are a given `RootSet`.
  - Freeing an object always tags its slot FREE and drops its references. The case where `obj_free` leaves the object in place (`gc.c:1067-1069`) is not modelled.
- Gc: `mrb_objspace_each_objects` (it depends on `setjmp`/`longjmp` and callbacks), and the Ruby-level `GC` wrappers other than `enable`, `disable` and the two ratio setters.
- Gc.Collector.MrbFullGc: the early return when `mrb->c` is null (no VM context) is not modelled.
- Gc.Collector.IncrementalGc: generational mode is reflected only in which pages are swept and repainted. The "every allocated object ends white" consequence is stated outside generational mode only.
- Gc: an object reference is a page and slot pair, or a read-only (red) object with no slot. Address arithmetic over `RVALUE` slots is not modelled.
- StrBuffer: embedded strings (bytes stored inside the object) are modelled as heap buffers. The UTF-8 build (character indexing, `search_nonascii`, the UTF-8 branches of `reverse!` and `chop!`) is not modelled.
- StrBuffer.RString.Cat: the case where the appended bytes point into the string's own buffer is not modelled. The bytes are taken as a separate value.
- StrBuffer.RString.Cat: the length limit of `str_check_length` (`string.c:40-50`) is not modelled. The model is the build where `MRB_STR_LENGTH_MAX` is 0: Linux, macOS, FreeBSD and OpenBSD (`string.c:32-37`). On other hosts the default of 1048576 makes `cat` raise ArgumentError once the new capacity exceeds 1048575 bytes.
- StrBuffer.RString.ResizeCapa: the same build. The ArgumentError of `str_check_length` for a capacity above `MRB_STR_LENGTH_MAX - 1` on other hosts is not modelled.
- StrSearch.MemSearch: the `memchr` and word-parallel (SWAR) searches are specified by their result, the first match, not by their steps.
- StrBuffer.RString.ChompBang: an explicit nil separator is not modelled. The source returns nil and leaves the string alone. `None` stands for the absent argument.
- StrBuffer.SharedString: buffer offsets into a shared buffer (`str_share` of a substring) are not modelled. A sharer always starts at the buffer's first byte.
- StrInteger: the big-integer build (`MRB_USE_BIGINT`) is not modelled. A value beyond 64 bits fails with the range error. The `str == NULL` test is not modelled, since a byte sequence always exists.
- StrSplit: the awk-style branch of `split` (a single space or nil separator) and the `mrb_get_args` decoding are left out. `StrSplit.SplitString` requires a separator other than " ".
- StrHash.ByteHashStep: the hash of a string (`mrb_str_hash`) beyond the byte loop is not modelled.
- StrHash.Round: the model follows the default build's shift-add round (`string.c:1990`). Its equality with multiplication by `FNV_32_PRIME` modulo 2^32 (the `NO_FNV_GCC_OPTIMIZATION` branch, `string.c:1988`) is not proved for every hash value. The bit-vector multiplication is beyond the solver's budget here. The equality is proved only for the published FNV-1 test values (`FnvExamples`, `FoobarRounds`, `FnvFoobar`).
- StrInteger.LenToInteger: it computes the corrected parse of the finding below, not the code as written. The two differ only where the code as written yields INT64_MIN or "invalid string" (`CorrectionOnlyAtMin`). Examples: `Integer("-9223372036854775808")` is accepted (`MinValueExample`), and `"-92233720368547758080".to_i` raises RangeError where the code returns INT64_MIN (`MinOverflowExample`). `StrToI` uses the same corrected parse.
- Rational.RationalMInt: in C, `a % b` at `rational.c:236` and `n/a`, `d/a` at `rational.c:239` have no defined result for INT64_MIN and -1 (on x86-64 the process traps), and `n/a` divides by zero for `Rational(0, 0)`. The model returns `UndefinedDivision` instead of trapping. This covers `Rational(-9223372036854775808, -1)`, `Rational(-1, -9223372036854775808)` and `Rational(0, 0)`, plus any pair whose loop ends on -1 beside INT64_MIN, such as `Rational(-9223372036854775808, -3)`. What mruby evidently intends here (a RangeError, or ZeroDivisionError for 0/0) is not modelled.
- Strings: floating-point parsing (`mrb_str_len_to_dbl`, `to_f`), the Windows locale conversions, `mrb_obj_as_string`, `mrb_str_intern` and `str_escape` are not part of this model.
- SetCore: the khash table is a finite set of values. Element equality and hashing (`eql?`/`hash` dispatch) are identity on `Value`. `set_hash_m`, `join` and `inspect` (which dispatch to `hash`, `inspect` and `to_s`) are left out.
- SetCore: `set_check_type` raising TypeError when `other` is not a Set is not modelled for the core methods (`__merge`, `__union` and the like). Their callers in the Ruby layer pass Sets.
- SetCore.EqualMeansSameKeys: the same-object fast path of `==` is not modelled separately. It gives the same answer.
- SetCore.Cmp: the size difference is taken exactly. The source computes it in 32-bit unsigned arithmetic, which agrees while the sizes differ by less than 2^31.
- SetCore: dup of an uninitialised set is taken to give an uninitialised set. `mrb_obj_dup` is not part of this model.
- SetCore: `add`, `delete`, `include?`, `size`, `empty?`, `to_a`, `initialize_copy`, `reset`, `add_all`, `delete_all`, `include_all?` and `include_any?` are not modelled.
- Rational: the accessors `numerator` and `denominator` (`rational.c:59-71`) are the fields of the `Rational` datatype. All floating-point paths (`rational_new_f`, `to_f`, the float branches of `Rational()`) are left out.

## Findings

| source | as written | input that shows it | evidently intended | confidence | as-written member | corrected member |
|---|---|---|---|---|---|---|
| mrbgems/mruby-rational/src/rational.c:79-82 | a negative denominator is made positive by negating both parts in 64 bits, so negating INT64_MIN overflows | `Rational(1, -9223372036854775808)`: Euclid's loop returns 1, and `rational_new(1, INT64_MIN)` keeps a negative denominator; `Rational._new(-9223372036854775808, -1)` reaches `rational_new(INT64_MIN, -1)`, which gives INT64_MIN/1 | a denominator ≥ 0 with the value n/d preserved, or an error when that is not representable | not executed | Rational.RationalNewAsWrittenOverflows | Rational.RationalNew |
| src/string.c:2725-2751 | on the digit that makes the magnitude exactly 2^63 behind a minus sign, the loop sets INT64_MIN and breaks before stepping past that digit, so `trailingbad` sees it as trailing garbage | `Integer("-9223372036854775808")` (parsed with `badcheck`) raises "invalid string for number"; `"-92233720368547758080".to_i` (no `badcheck`) returns INT64_MIN, because the loop stops before the last "0" | the text is INT64_MIN and parses to it, and a longer text overflows with the range error | not executed | StrInteger.MinValueExample | StrInteger.MinMagnitude |
