# Demand paging with aging, deadlock detection and prime counting

A Dafny model of three small operating-systems exercises:

- **A demand-paging simulator with aging replacement.** It comes in three variants.
  - The multi-process simulator keeps one page table per process and one aging counter per physical frame.
  - The single-process simulator keeps one table and one aging counter per page.
  - The inverted-page-table simulator keeps one entry per frame plus a dictionary from (process, page) to frame.
  - Each simulator reads a trace of `<process> <r|w> <address>` records. For each record it:
    - splits the address into page and offset;
    - on a page fault, takes the first free frame, or else evicts the page with the oldest aging counter;
    - forms the physical address;
    - sets the referenced bit, and the modified bit on a write;
    - after every third access, shifts the referenced bits into the aging counters.
- **The deadlock detector of the dining-philosophers program.** The resource graph is a process × resource matrix. A cell holds 1 for "requested", -1 for "acquired" and 0 for "free". A depth-first search alternating between processes and resources reports whether the graph has a cycle.
- **Trial-division prime counting.** This part of the C++ and the Java serial prime finders is written identically in both.

## Files

- `arith.dfy` (`Arith`): small facts about multiplication, division and remainder on naturals.
- `bits.dfy` (`Bits`): the bitwise operators of the sources on unbounded naturals, defined digit by digit: `>>`, `<<`, `|`, `&`, `& ~`, and the mask `2^k - 1`.
- `results.dfy` (`Results`): `Option` and `Result`.
- `decoder.dfy` (`PageTableDecoder`): the packed page-table entry, laid out as modified, referenced, present, then the frame number.
- `paging.dfy` (`PageTable`): the multi-process simulator.
- `single.dfy` (`SinglePageTable`): the single-process simulator.
- `inverted.dfy` (`InvertedPageTableDecoder`, `InvertedPageTable`): the inverted-page-table simulator.
- `deadlock.dfy` (`DiningPhilosophers`): chopstick numbering, the resource graph, the cycle search, and the acquire and release cell updates.
- `primes.dfy` (`PrimeCounting`): `isPrime` and `countPrimesInRange`.

Each per-access loop body is a pure `Step(state, access)`. It returns the next state and a `Translation` record holding what the loop prints: the page/offset split, the physical address, whether the access faulted, the evicted page, the write-back notice and the aging update. A trace is folded by `Run`. Entry packing and unpacking use the sources' own shift-and-mask expressions over `Bits`.

## Model

| member | source | states |
|---|---|---|
| PageTableDecoder.GetModified | pageTable.py:23-24 | the modified flag is digit frameBits+2 of the entry, and is 0 or 1 |
| PageTableDecoder.GetReferenced | pageTable.py:26-27 | the referenced flag is digit frameBits+1 of the entry, and is 0 or 1 |
| PageTableDecoder.GetPresent | pageTable.py:29-30 | the present flag is digit frameBits of the entry, and is 0 or 1 |
| PageTableDecoder.GetFrameNum | pageTable.py:50-51 | the frame number is below 2^frameBits |
| PageTableDecoder.FrameNumDigits | pageTable.py:50-51 | the frame number consists of exactly the low frameBits digits of the entry, and every higher digit is 0 |
| PageTableDecoder.FrameNumAgree | pageTable.py:50-51 | two entries that agree on the low frameBits digits have the same frame number |
| PageTableDecoder.SetModified | pageTable.py:32-33 | afterwards the modified flag reads 1, and every other flag and the frame number are unchanged |
| PageTableDecoder.SetReferenced | pageTable.py:35-36 | afterwards the referenced flag reads 1, and every other flag and the frame number are unchanged |
| PageTableDecoder.SetPresent | pageTable.py:38-39 | afterwards the present flag reads 1, and every other flag and the frame number are unchanged |
| PageTableDecoder.ClearModified | pageTable.py:41-42 | afterwards the modified flag reads 0, and every other flag and the frame number are unchanged |
| PageTableDecoder.ClearReferenced | pageTable.py:44-45 | afterwards the referenced flag reads 0, and every other flag and the frame number are unchanged |
| PageTableDecoder.ClearPresent | pageTable.py:47-48 | afterwards the present flag reads 0, and every other flag and the frame number are unchanged |
| PageTableDecoder.ReplaceFrameNum | pageTable.py:53-57 | for a frame number below 2^frameBits, the new entry decodes to that frame; every digit at or above frameBits is kept, so all three flags are kept |
| PageTableDecoder.ZeroEntry | pageTable.py:138-140 | a zeroed entry (initial table, evicted page) reads as not present, not referenced, not modified, frame 0 |
| PageTableDecoder.FlagUpdatesIdempotent | pageTable.py:32-48 | applying any set or clear twice gives the same entry as applying it once |
| PageTableDecoder.FlagUpdateNoop | pageTable.py:32-48 | setting a flag that is already 1, or clearing one that is already 0, returns the entry unchanged |
| PageTableDecoder.FrameNumRoundTrip | pageTable.py:50-57 | replace-then-get returns the frame number put in; replacing the frame with the entry's own frame number gives back the entry |
| PageTable.SetEntry | pageTable.py:242 | an assignment to one table cell changes that cell only and keeps the shape of all tables |
| PageTable.Init | pageTable.py:129-154 | the initial state has zeroed tables of the configured shape and zero counters, and the free list is 0, 1, …, numFrames-1 in order |
| PageTable.SplitAddress | pageTable.py:171-172 | page number times page size plus offset is the virtual address, and the offset is below the page size |
| PageTable.PhysicalAddress | pageTable.py:253 | the physical address is frame times page size plus offset; shifting it right by pageBits gives the frame back, and masking it gives the offset back |
| PageTable.ScanFrom | pageTable.py:209-222 | the table walk of the victim search only ever selects present pages |
| PageTable.SelectVictim | pageTable.py:206-222 | the victim search, starting from nothing selected, selects only a present page |
| PageTable.ConsiderKeepsScanInv | pageTable.py:212-222 | one step of the walk keeps the scan invariant: the selection is present, no visited present page has a smaller counter, and no tie has a lower frame |
| PageTable.ScanFromSpec | pageTable.py:209-222 | the finished walk satisfies the scan invariant over every cell |
| PageTable.VictimIsOldest | pageTable.py:206-222 | with counters below 2^8, the search selects something iff some page is present; the selection is present, and no present page has a smaller counter or an equal counter with a lower frame number; so the -1 sentinel is never used |
| PageTable.ShiftInDigits | pageTable.py:283-288 | the shifted counter stays below 2^8, its top digit is the referenced bit, and each lower digit is the old counter's next digit up |
| PageTable.NextAge | pageTable.py:283-288 | the aging update keeps counters below 2^8, puts R in the top digit and moves every other digit down by one |
| PageTable.AgingDecay | pageTable.py:283 | a counter below 2^k that is shifted right k times with no reference reaches 0 |
| PageTable.RefreshCell | pageTable.py:278-291 | refreshing one cell rewrites only that cell, to the entry with R cleared when present |
| PageTable.RefreshFrom | pageTable.py:275-291 | the refresh walk from a cell onward rewrites exactly the cells at or after it, and leaves earlier cells alone |
| PageTable.RefreshedEntryFields | pageTable.py:286-291 | a refreshed entry keeps present, frame and modified; R is cleared when the page is present; a non-present entry is untouched |
| PageTable.SameMappingExclusive | pageTable.py:275-291 | a table with the same present pages and frames keeps frame exclusivity |
| PageTable.RefreshFromAging | pageTable.py:275-291 | when frames are exclusive, the walk from a cell onward gives the frame counter of each present page at or after it the aging update of the old counter with the page's R |
| PageTable.RefreshFromKeeps | pageTable.py:275-291 | the refresh walk from a cell onward leaves the counter of every frame that no present page at or after that cell occupies unchanged |
| PageTable.RefreshVisitAging | pageTable.py:278-291 | one visit of the walk, followed by the rest of it, gives a present page's frame counter exactly one aging update |
| PageTable.RefreshCellFacts | pageTable.py:278-291 | refreshing one cell keeps the page-to-frame mapping; the counter of its frame gets the aging update only when the page is present |
| PageTable.RefreshSpec | pageTable.py:268-291 | the full refresh: every entry is refreshed; each in-use frame's counter is the shifted counter ORed with R in the top digit; R is cleared and M kept; counters of unused frames are unchanged |
| PageTable.LastCell | pageTable.py:219 | index -1,-1 (Python's last element) is a cell of the tables |
| PageTable.Victim | pageTable.py:206-226 | the victim search yields a cell of the tables |
| PageTable.VictimSpec | pageTable.py:206-226 | when some page is present, the victim is present and is the oldest, with ties going to the lowest frame |
| PageTable.LoadedEntry | pageTable.py:242-243 | the installed entry is present with the chosen frame, and keeps the old R and M |
| PageTable.LoadFree | pageTable.py:190-246 | a fault with a free frame takes the head of the free list; the faulting page becomes present on it; its counter is 255; no page is removed; no other cell changes |
| PageTable.Evict | pageTable.py:226-246 | evicting page v for page c reuses v's frame: c ends present on it, that frame's counter ends at 255, the free list is unchanged |
| PageTable.EvictEntries | pageTable.py:226-243 | the eviction reports v as removed, reports a write-back iff v was modified, zeroes v's entry, and changes no cell but v and c |
| PageTable.EvictLoad | pageTable.py:237-243 | the table after zeroing v and loading c has c present on the given frame, v zeroed, and every other cell unchanged; c's modified bit is kept unless c is v |
| PageTable.EvictAges | pageTable.py:238-244 | zeroing then raising the victim frame's counter leaves it at 255 and every other counter unchanged |
| PageTable.HandleFault | pageTable.py:186-246 | after a fault the page is present on the returned frame at counter 255, and a page is removed iff no frame was free |
| PageTable.Touch | pageTable.py:257-261 | R is set; M is set on a write and otherwise kept; present and frame are kept; no other cell changes |
| PageTable.Resolve | pageTable.py:178-246 | the page ends up present on the returned frame; a page that is already present is served from its frame with the state unchanged |
| PageTable.Finish | pageTable.py:257-291 | after touch and an optional refresh, the page keeps its presence and frame; its R is 0 exactly when the refresh ran; M is 1 after a write; the mapping is unchanged |
| PageTable.Step | pageTable.py:160-291 | one access: an error iff the process or page is out of range; otherwise the address split and physical address are as described; a fault occurs iff the page was absent; a hit keeps the frame and the free list; the page ends present on the reported frame; the refresh runs exactly on multiples of 3; R and M are as after touch/refresh |
| PageTable.RefreshTouched | pageTable.py:257-291 | the optional refresh keeps presence, frame and M of the touched cell, clears its R when it runs, and changes nothing when it does not |
| PageTable.OthersKeptThen | pageTable.py:178-291 | a page kept exactly by fault handling and then kept up to R by touch and refresh is kept up to R by the whole access |
| PageTable.ResolveOthers | pageTable.py:178-246 | fault handling writes no entry other than the faulting page's and the evicted page's |
| PageTable.FinishOthers | pageTable.py:257-291 | touch and refresh keep every other page's presence, frame and M, and off the refresh period leave its entry unchanged |
| PageTable.StepOthers | pageTable.py:160-291 | one access keeps the presence, frame and M of every page other than the accessed and the evicted one, and leaves its entry unchanged when no refresh runs |
| PageTable.ResolveKeepsModified | pageTable.py:178-246 | fault handling keeps the faulting page's M unless that page is itself the one evicted |
| PageTable.FinishKeepsModified | pageTable.py:257-291 | touch and refresh never clear the accessed page's M |
| PageTable.StepModifiedSticky | pageTable.py:160-291 | an access clears M only on the page it evicts (the zeroing at line 237); every other page with M set keeps it |
| PageTable.PresentCellsMembers | pageTable.py:178 | the set of present cells holds exactly the cells whose present bit is 1 |
| PageTable.PresentCellsSetEntry | pageTable.py:237-243 | writing one entry adds or removes exactly that cell in the present set, according to the new entry's present bit |
| PageTable.InitInv | pageTable.py:129-154 | the initial state satisfies the invariant: entries 0 or present, frames exclusive, free frames form a tail and are disjoint from used frames, free plus present equals numFrames, counters below 256 |
| PageTable.LoadTable | pageTable.py:242-243 | installing a present entry on an unused frame keeps entries 0-or-present and frames exclusive, and adds exactly one present cell |
| PageTable.LoadFreeInv | pageTable.py:190-246 | loading onto a free frame keeps the invariant; the frame taken is the lowest free frame and was in use by no present page |
| PageTable.UnloadTable | pageTable.py:237-238 | zeroing a present entry keeps the table parts of the invariant, removes exactly that cell from the present set, and leaves no remaining present page on its frame |
| PageTable.EvictTable | pageTable.py:237-243 | zeroing the victim and installing the new page on its frame keeps the invariant's table parts and the number of present cells |
| PageTable.FramesInRange | pageTable.py:50-51 | every present page's frame number is below 2^frameBits |
| PageTable.EvictInv | pageTable.py:226-246 | with no free frame, evicting a present page for an absent one keeps the invariant |
| PageTable.LoadEvictingInv | pageTable.py:226-246 | evicting keeps the invariant; the victim is present, differs from the faulting page, and is no younger than any present page |
| PageTable.HandleFaultInv | pageTable.py:186-246 | every page fault keeps the invariant |
| PageTable.RemapInv | pageTable.py:257-291 | any change that keeps the page-to-frame mapping, the free list and counters below 256 keeps the invariant |
| PageTable.TouchInv | pageTable.py:257-261 | touching a present page keeps the invariant |
| PageTable.RefreshInv | pageTable.py:268-291 | the refresh keeps the invariant, including counters below 256 |
| PageTable.FinishInv | pageTable.py:257-291 | touching and refreshing keep the invariant |
| PageTable.StepInv | pageTable.py:160-291 | every in-range access keeps the invariant |
| PageTable.FaultChoice | pageTable.py:190-238 | on a fault with free frames: the lowest free frame is taken, it is unused, and nothing is removed; on a fault with none: a present page other than the faulting one is removed, its frame is reused, write-back happens iff it was modified, it is no longer present, and it is no younger than any present page |
| PageTable.Run | pageTable.py:160 | folding a trace yields one translation per access and counts every access |
| PageTable.RunErrors | pageTable.py:160-183 | a trace fails iff some record's process or page is out of range |
| PageTable.RunInv | pageTable.py:160-291 | a trace that runs to the end keeps the invariant |
| SinglePageTable.Init | pageTableSingle.py:123-144 | zeroed table and page counters, free list 0 … numFrames-1 |
| SinglePageTable.ScanSeeded | pageTableSingle.py:189-197 | the page-0-seeded search returns the seed or a present page |
| SinglePageTable.ScanOpen | pageTableSingle.py:190-197 | the search seeded with nothing returns only present pages |
| SinglePageTable.SelectVictim | pageTableSingle.py:189-197 | both victim searches return a page index |
| SinglePageTable.ScanOpenSpec | pageTableSingle.py:190-197 | the unseeded search finds nothing only when no page is present; otherwise its page is the oldest present page, with ties to the lowest frame |
| SinglePageTable.CorrectedVictimIsOldest | pageTableSingle.py:189-197 | the unseeded search finds a page iff some page is present; that page is present, and no present page has a smaller counter or an equal counter with a lower frame |
| SinglePageTable.ScansAgreeFromPresentSeed | pageTableSingle.py:189-197 | seeding with a present page gives the same result as seeding with nothing |
| SinglePageTable.AsWrittenAgreesWhenPageZeroPresent | pageTableSingle.py:189-197 | when page 0 is present, the search as written picks the same victim as the corrected one |
| SinglePageTable.UnbeatenSeedStays | pageTableSingle.py:189-197 | a seed that no page beats is returned: this is what selects an absent page 0 |
| SinglePageTable.Resolve | pageTableSingle.py:167-220 | after fault handling the page is present on the returned frame, and the state keeps its shape |
| SinglePageTable.LoadFree | pageTableSingle.py:179-180 | a miss served from the free list leaves the page present on the returned frame |
| SinglePageTable.LoadEvicting | pageTableSingle.py:182-219 | a miss served by eviction leaves the page present on the returned frame |
| SinglePageTable.ResolveHit | pageTableSingle.py:170-172 | a hit keeps the state and reports the page's own frame, with nothing removed |
| SinglePageTable.ResolveFree | pageTableSingle.py:179-219 | a miss with a free frame takes the head of the free list, sets the page's counter to 255, removes nothing and leaves every other page and counter alone |
| SinglePageTable.ResolveEvict | pageTableSingle.py:182-219 | a miss with no free frame reuses the victim's frame, writes back iff the victim was modified, zeroes the victim's entry and counter, sets the page's counter to 255 and leaves every other page alone |
| SinglePageTable.ResolveOthers | pageTableSingle.py:167-219 | fault handling changes no entry or counter other than those of the faulting and the evicted page |
| SinglePageTable.RefreshedEntry | pageTableSingle.py:249-252 | R is cleared; present, frame and M are kept; a zero entry stays zero |
| SinglePageTable.Refresh | pageTableSingle.py:241-252 | every page is refreshed; every page's counter gets the aging update with that page's R |
| SinglePageTable.Touch | pageTableSingle.py:230-234 | R is set; M is set on a write and otherwise kept; presence and frame are kept; other pages are unchanged |
| SinglePageTable.Finish | pageTableSingle.py:230-252 | touching and refreshing keep the accessed page's presence and frame, the free list and the shape; its R is 0 exactly after a refresh; its M is 1 after a write |
| SinglePageTable.FinishFrames | pageTableSingle.py:230-252 | touching and refreshing keep every page's presence and frame |
| SinglePageTable.FinishUnchanged | pageTableSingle.py:230-252 | other pages with a zero entry keep it; without a refresh, no other entry and no counter changes |
| SinglePageTable.Step | pageTableSingle.py:150-256 | one access, with either victim search: an error iff the page is out of range; otherwise the state keeps its shape and counts the access |
| SinglePageTable.StepTranslation | pageTableSingle.py:150-226 | the page and offset recompose the address; the physical address is frame times page size plus offset; fault iff absent; a hit keeps the frame and free list; free-list order; the victim and write-back on eviction; the refresh flag on multiples of 3 |
| SinglePageTable.StepEntry | pageTableSingle.py:167-252 | the accessed page ends present on the reported frame, with R 0 exactly after a refresh and M 1 after a write |
| SinglePageTable.EvictedStaysAbsent | pageTableSingle.py:210-252 | a page evicted by fault handling, other than the faulting page, is not present after touch and refresh |
| SinglePageTable.StepEvicted | pageTableSingle.py:182-252 | a page an access evicts, other than the accessed page, is no longer present |
| SinglePageTable.StepOthers | pageTableSingle.py:167-252 | other pages keep presence and frame; without a refresh they keep their entries and counters |
| SinglePageTable.InitInv | pageTableSingle.py:123-144 | the initial state satisfies the invariant: entries 0 or present, frames exclusive, free list a tail disjoint from used frames, free plus present equals numFrames, counters below 256 |
| SinglePageTable.LoadPage | pageTableSingle.py:217-218 | installing a present entry on an unused frame keeps the table parts of the invariant and adds exactly that page |
| SinglePageTable.UnloadPage | pageTableSingle.py:212 | zeroing a present page removes exactly that page and frees its frame |
| SinglePageTable.LoadFreeInv | pageTableSingle.py:179-219 | a fault served from the free list keeps the invariant |
| SinglePageTable.LoadEvictingInv | pageTableSingle.py:189-219 | with the corrected victim search, an eviction keeps the invariant |
| SinglePageTable.ResolveInv | pageTableSingle.py:167-220 | with the corrected search, fault handling keeps the invariant |
| SinglePageTable.FinishInv | pageTableSingle.py:230-252 | touching and refreshing keep the invariant |
| SinglePageTable.StepState | pageTableSingle.py:150-256 | a step is fault handling followed by touch and refresh of the same page; it reports that page and the fault handling's frame, removed page and write-back |
| SinglePageTable.StepInv | pageTableSingle.py:150-256 | with the corrected search, every in-range access keeps the invariant, in particular frame exclusivity |
| SinglePageTable.AsWrittenStealsFrameZero | pageTableSingle.py:189-218 | with no free frame, an absent page 0 and a page q holding frame 0, the search as written hands frame 0 to the faulting page while q stays present on it |
| SinglePageTable.FirstAccess | pageTableSingle.py:179-219 | with one frame, the first access loads its page on frame 0 and leaves every other page zero |
| SinglePageTable.AsWrittenSharesFrame | pageTableSingle.py:189-218 | with one frame, two accesses to distinct non-zero pages leave two present pages on the same frame |
| SinglePageTable.AsWrittenSharesFrameExample | pageTableSingle.py:189-218 | the concrete trace (header 2 0 0, reads of addresses 1 and 2) breaks frame exclusivity |
| InvertedPageTableDecoder.GetProcessNum | invertedPageTable.py:32-33 | the process field is below 2^processBits |
| InvertedPageTableDecoder.GetPageNum | invertedPageTable.py:35-36 | the page field is below 2^pageField |
| InvertedPageTableDecoder.ProcessFieldDigits | invertedPageTable.py:32-33 | the process field's digits are the processBits digits of the entry just above the page field |
| InvertedPageTableDecoder.KeyDigits | invertedPageTable.py:32-36 | the process number is the digits just above the page field and the page number is the low digits, every higher digit 0 |
| InvertedPageTableDecoder.Decode | invertedPageTable.py:32-36 | a decoded key always fits the field widths |
| InvertedPageTableDecoder.DecodeLowBits | invertedPageTable.py:32-36 | the key depends only on the digits below the flags |
| InvertedPageTableDecoder.DecodeKeyField | invertedPageTable.py:32-36 | entries with equal low fields decode to the same key |
| InvertedPageTableDecoder.ReplaceDigits | invertedPageTable.py:38-41 | digit by digit, the replacement clears the key fields and ORs in the shifted process and the page |
| InvertedPageTableDecoder.ReplaceProcessPage | invertedPageTable.py:38-41 | the page field reads back the low digits of the page given; a key that fits the widths reads back exactly, and the flag digits are kept |
| InvertedPageTableDecoder.ReplaceFits | invertedPageTable.py:38-41 | for a fitting key, the replaced entry decodes to that key and keeps every digit from the flags up |
| InvertedPageTableDecoder.ProcessPageRoundTrip | invertedPageTable.py:32-41 | writing an entry's own process and page back gives the same entry |
| InvertedPageTableDecoder.FlagsKeepKey | invertedPageTable.py:17-30 | setting M, R or P, or clearing M or R, never changes the decoded (process, page) |
| InvertedPageTable.Init | invertedPageTable.py:79-85 | zeroed entries and counters, every frame free in order, an empty lookup, no accesses yet |
| InvertedPageTable.OldestFrom | invertedPageTable.py:103 | the running minimum yields a frame index |
| InvertedPageTable.Oldest | invertedPageTable.py:103 | the victim is a frame index |
| InvertedPageTable.OldestFromSpec | invertedPageTable.py:103 | the running minimum ends at the first frame with the smallest counter |
| InvertedPageTable.OldestIsFirstMinimum | invertedPageTable.py:103 | a frame is the first minimum of the counters iff it is the victim `min` returns |
| InvertedPageTable.Resolve | invertedPageTable.py:96-116 | fails with the missing key exactly when the key is absent, no frame is free and the victim's entry names a key the lookup does not hold; otherwise the key maps to the returned frame; a hit keeps the state; a load writes a fresh entry built from 0 with counter 255; a free load takes the head of the list; an eviction takes the first-minimum frame, deletes its key, and writes back iff it was modified |
| InvertedPageTable.MissFree | invertedPageTable.py:100-115 | a miss with a free frame takes the head of the free list, maps the key to it, writes a fresh entry with counter 255, and removes nothing |
| InvertedPageTable.MissEvicting | invertedPageTable.py:102-115 | a miss with no free frame fails with the missing key exactly when the oldest frame's entry decodes to a key the lookup lacks; otherwise that key is deleted, the frame is reused with a fresh entry and counter 255, and write-back happens iff the old entry was modified |
| InvertedPageTable.Finish | invertedPageTable.py:120-130 | no frame's key changes; R is 0 exactly after a refresh; M is set on a write and otherwise kept; without a refresh nothing else changes; the refresh gives every frame the aging update (the touched frame with R = 1); counters stay below 256 |
| InvertedPageTable.Step | invertedPageTable.py:87-132 | one access fails with the missing key exactly when the key is absent, no frame is free and the oldest frame's entry names a key the lookup does not hold; otherwise the state keeps its shape and counts the access |
| InvertedPageTable.StepTranslation | invertedPageTable.py:87-118 | the split and physical address; fault iff the key is absent; afterwards the key maps to the reported frame; a hit moves nothing; free-list order; on eviction the first-minimum frame, its key leaves the lookup, and write-back iff it was modified |
| InvertedPageTable.StepEntry | invertedPageTable.py:96-132 | a fitting faulting key reads back from its new entry with M only on a write; other frames keep their keys; the refresh on multiples of 3; a new frame's counter is 255 unless refreshed; R and M as after touch and refresh |
| InvertedPageTable.FreshEntryFlags | invertedPageTable.py:113 | an entry built from 0 has R and M clear |
| InvertedPageTable.InitInv | invertedPageTable.py:79-85 | the initial state satisfies the invariant: the free list is a tail, free plus mapped equals numFrames, the lookup is the exact inverse of the used part of the table, counters below 256 |
| InvertedPageTable.LookupExact | invertedPageTable.py:96-116 | under the invariant, the lookup maps key k to frame f iff f is in use and its entry decodes to k |
| InvertedPageTable.LoadFreeInv | invertedPageTable.py:100-115 | loading a fitting key onto a free frame succeeds and keeps the invariant |
| InvertedPageTable.LoadEvictingInv | invertedPageTable.py:103-115 | under the invariant, evicting for a fitting key succeeds (the deleted key is present) and keeps the invariant |
| InvertedPageTable.FinishInv | invertedPageTable.py:120-130 | touching and refreshing keep the invariant |
| InvertedPageTable.StepInv | invertedPageTable.py:87-132 | an access whose key fits the entry layout never fails and keeps the invariant |
| InvertedPageTable.CorrectedKeysFit | invertedPageTable.py:75-94 | with a page field of virBits - pageBits digits, every access of processes 0 and 1 inside the address space has a fitting key |
| InvertedPageTable.PageNumberFits | invertedPageTable.py:76 | the page number of an address below 2^virBits fits in virBits - pageBits digits, and is 0 when a page is larger than the virtual space |
| InvertedPageTable.AsWrittenKeysFitWhenNarrow | invertedPageTable.py:75-94 | the layout as written also fits every key when virBits - pageBits <= pageBits |
| InvertedPageTable.Run | invertedPageTable.py:87 | folding a trace yields one translation per access and counts every access |
| InvertedPageTable.FittingRunInv | invertedPageTable.py:87-132 | under any entry layout, a trace whose every key fits runs to the end without KeyError and keeps the invariant |
| InvertedPageTable.CorrectedRunInv | invertedPageTable.py:87-132 | with the corrected layout, every trace of in-range accesses runs to the end and keeps the invariant |
| InvertedPageTable.AsWrittenMisdecodes | invertedPageTable.py:35-78 | with the layout as written, a page number of at least 2^pageBits does not read back from its entry |
| InvertedPageTable.AsWrittenKeyError | invertedPageTable.py:103-113 | with the layout as written and one frame, loading a wide page and then any other key fails with the missing key |
| InvertedPageTable.AsWrittenKeyErrorExample | invertedPageTable.py:87-113 | the concrete trace (header 3 1 1, reads of addresses 4 and then 0 by process 0) fails with the missing key at the second access |
| DiningPhilosophers.Left | dPhil.cc:21-23 | the left chopstick number lies in [0, numPhil) |
| DiningPhilosophers.Right | dPhil.cc:24-26 | the right chopstick number lies in [0, numPhil) |
| DiningPhilosophers.SticksOfPhilosopher | dPhil.cc:21-26 | with more than one philosopher, the left and right chopsticks differ; the left chopstick of p is the right chopstick of p+1 |
| DiningPhilosophers.LeftOwner | dPhil.cc:21-23 | each chopstick is the left chopstick of the philosopher just before it |
| DiningPhilosophers.Empty | dPhil.cc:197-206 | the initial graph has the given dimensions and every cell free |
| DiningPhilosophers.ProcessDFS | dPhil.cc:58-73 | visited only grows; a search that finds nothing leaves the recursion stack as it was and marks the process visited; a process on the stack reports true at once; a visited process off the stack reports false at once |
| DiningPhilosophers.ResourceEdges | dPhil.cc:65-69 | the scan of a process's requests only grows visited, and restores the stack when it finds nothing |
| DiningPhilosophers.ResourceDFS | dPhil.cc:75-82 | the search from a resource only grows visited, and restores the stack when it finds nothing |
| DiningPhilosophers.ProcessEdges | dPhil.cc:76-80 | the scan of a resource's holders only grows visited, and restores the stack when it finds nothing |
| DiningPhilosophers.DeadlockCheck | dPhil.cc:84-96 | the check returns 0 or 1 |
| DiningPhilosophers.ProcessDFSSound | dPhil.cc:58-73 | when every stack process reaches the current one, a reported cycle is a real cycle of the graph |
| DiningPhilosophers.ResourceEdgesSound | dPhil.cc:65-69 | a cycle reported through a request edge is a real cycle |
| DiningPhilosophers.ResourceDFSSound | dPhil.cc:75-82 | a cycle reported from a resource is a real cycle |
| DiningPhilosophers.ProcessEdgesSound | dPhil.cc:76-80 | a cycle reported through a holder edge is a real cycle |
| DiningPhilosophers.CheckFromSound | dPhil.cc:88-95 | a 1 from the outer loop means the graph has a cycle |
| DiningPhilosophers.ClosedReach | dPhil.cc:58-82 | from a finished process, every process on a path is finished |
| DiningPhilosophers.AllDoneAcyclic | dPhil.cc:84-96 | when every process is finished, the graph has no cycle |
| DiningPhilosophers.FinishProcess | dPhil.cc:71-72 | popping a process whose successors are all finished keeps the colouring invariant and finishes it |
| DiningPhilosophers.ProcessDFSComplete | dPhil.cc:58-73 | a search that finds nothing finishes its process and keeps the colouring invariant |
| DiningPhilosophers.ResourceEdgesComplete | dPhil.cc:65-69 | a request scan that finds nothing finishes every holder of every requested resource |
| DiningPhilosophers.ResourceDFSComplete | dPhil.cc:75-82 | a resource search that finds nothing finishes every holder of the resource |
| DiningPhilosophers.ProcessEdgesComplete | dPhil.cc:76-80 | a holder scan that finds nothing finishes every holder |
| DiningPhilosophers.CheckFromComplete | dPhil.cc:88-95 | a 0 from the outer loop means the graph has no cycle |
| DiningPhilosophers.DeadlockCheckCorrect | dPhil.cc:84-96 | the check returns 1 iff the graph (edge p → r on a request, r → p on a hold) has a cycle |
| DiningPhilosophers.FirstArc | dPhil.cc:65-80 | the first two nodes of a path are joined by an edge |
| DiningPhilosophers.EmptyGraphNoDeadlock | dPhil.cc:84-96 | an all-free graph gives 0 |
| DiningPhilosophers.AllHoldLeft | dPhil.cc:115-125 | the graph where every philosopher holds the left chopstick and requests the right one is a valid numPhil × numPhil graph |
| DiningPhilosophers.Back | dPhil.cc:21-26 | stepping back around the table stays a philosopher number |
| DiningPhilosophers.AllHoldLeftDeadlock | dPhil.cc:84-125 | with at least two philosophers, that graph has a cycle and the check reports 1 |
| DiningPhilosophers.SetCell | dPhil.cc:100 | one cell takes the new value and no other cell changes |
| DiningPhilosophers.RgAcquire | dPhil.cc:99-108 | a deadlock is reported iff the graph with the request recorded has a cycle; the cell ends acquired and no other cell changes |
| DiningPhilosophers.RgRelease | dPhil.cc:110-113 | the cell ends free and no other cell changes |
| DiningPhilosophers.ReleaseUndoesAcquire | dPhil.cc:99-113 | acquiring a free cell and then releasing it restores the graph |
| PrimeCounting.IsPrime | prime_finder_serial.cpp:4-12 | true iff n is at least 2 and has no divisor in [2, n): trial division up to i*i <= n is enough |
| PrimeCounting.SmallCofactor | primefindserial.java:6-11 | a divisor at or above the last trial has a cofactor below it that also divides n |
| PrimeCounting.CountIsCardinality | prime_finder_serial.cpp:14-20 | the recursive count is the number of primes in [s, e] |
| PrimeCounting.CountPrimesInRange | primefindserial.java:14-20 | the result is the number of primes in [start, end], and 0 when start > end |
| PrimeCounting.CountBounds | prime_finder_serial.cpp:15-19 | the count lies between 0 and e - s + 1 |
| PrimeCounting.CountSplit | primefindserial.java:14-20 | splitting the range at m with s - 1 <= m <= e adds the counts |

## Left out

- File reading and trace parsing are not modelled (`readFile`, `split`, `int(...)`, the hard-coded input path). Each simulator takes the parsed header as a `Config` and the records as `Access` values.
- Printing is not modelled: the table dumps, the fault and loading messages, and the dining philosophers' display. The write-back notice becomes the `writeBack` field of `Translation`.
- `math.log2` is not modelled: `frameBits` is `phyBits - pageBits`, so the frame count is a power of two by construction. The inverted table's `processBits` is the constant 1 for its hard-coded two processes.
- Config.Valid: requires pageBits <= phyBits, because with fewer physical bits than page bits the sources compute no frame (`math.log2(0)` fails in two of them and `[0] * 0.5` in the third). A page larger than the virtual space is accepted: the multi-process and single-process tables then have no pages, so every access is `Err(OutOfRange)`, as Python's `IndexError` on an empty list.
- Python's negative indices are not modelled: process and address are naturals. A process or page past the tables is `Err(OutOfRange)`, which stands for Python's `IndexError`.
- InvertedPageTable.Step: it does not check the process or address range, because the source does not either. A key too wide for the entry layout is the finding below.
- PageTable.Victim: when no page is present it falls back to the last cell, as Python's `pageTables[-1][-1]` does. Under the invariant this case cannot occur during an eviction, so only the present case is specified.
- Threads, semaphores, `sleep_for`, `rand`, thinking and eating are not modelled in the dining philosophers. Only the resource graph, the search and the cell updates of `rgAcquire`/`rgRelease` are. The blocking `sem->acquire()` between request and acquisition is not modelled.
- DiningPhilosophers.AllHoldLeft: the all-hold-left graph is given directly, not built by a sequence of `RgAcquire` calls from concurrent philosophers.
- PrimeCounting.IsPrime: does not model the 32-bit overflow of `i * i` and `i++` near `INT_MAX`, because integers here are unbounded. For inputs up to about 2^31 the loop never gets there.
- PrimeCounting.CountPrimesInRange: does not model the 32-bit overflow of `count` and `i`, for the same reason.
- The thread pool, the parallel prime finders, the socket programs and the Superhero class are not part of this model. They are concurrency, timing and I/O code around the modelled cores.

## Findings

| source | as written | input that shows it | evidently intended | confidence | as-written member | corrected member |
|---|---|---|---|---|---|---|
| pageTableSingle.py:189-201 | the victim search starts with page 0 selected. When page 0 is not loaded, its entry and counter are 0, nothing beats it, and its stale frame number 0 is handed to the faulting page. The page actually holding frame 0 stays present. | header `2 0 0` (one frame, four one-byte pages); accesses `0 r 1`, `0 r 2` | evict the oldest present page, ties to the lowest frame, so that no two present pages share a frame | not executed | SinglePageTable.AsWrittenSharesFrameExample | SinglePageTable.StepInv |
| invertedPageTable.py:78 | the decoder's page field is `pageBits` wide, the offset width. Page numbers of `virBits - pageBits` bits are cut, so the victim's entry decodes to a key that is not in `frameLookup`, and `del` raises `KeyError`. | header `3 1 1` (one frame, two-byte pages, four pages); accesses `0 r 4`, `0 r 0` | a page field `virBits - pageBits` wide, so the entry decodes back to the key stored for it | not executed | InvertedPageTable.AsWrittenKeyErrorExample | InvertedPageTable.CorrectedRunInv |
