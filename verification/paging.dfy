/** The multi-process demand-paging simulator with aging replacement.

    One page table per process, each a sequence of packed entries (see
    `PageTableDecoder`); one aging counter per physical frame; a free-frame list
    handed out from the front; a counter of processed accesses. `Step` is the body
    of the per-access loop: split the virtual address, on a fault take the first
    free frame or evict the present page whose frame has the smallest aging counter
    (ties going to the lowest frame number), install the page, form the physical
    address, set the referenced bit (and the modified bit on a write), and after
    every third access fold the referenced bits into the aging counters. */
module PageTable {
  import opened Bits
  import opened PageTableDecoder
  import opened Results

  /** Width of an aging counter (`agingBits`). */
  const AgingBits: nat := 8
  /** The aging counters are refreshed after every `RefreshPeriod`-th access. */
  const RefreshPeriod: nat := 3

  /** `pow(2, agingBits) - 1`: the counter of a freshly loaded frame. */
  function MaxAge(): nat { Pow2(AgingBits) - 1 }

  /** `pow(2, agingBits) + 1`: the starting `lowestAge` of the victim search. */
  function SentinelAge(): nat { Pow2(AgingBits) + 1 }

  /** The bit widths read from the trace header, and the process count. */
  datatype Config = Config(virBits: nat, phyBits: nat, pageBits: nat, numProcesses: nat)
  {
    /** Pages are no larger than physical memory, so there is at least one
        frame. A page larger than the virtual address space is allowed: the
        table then has no pages. */
    predicate Valid() { pageBits <= phyBits }

    /** `frameBits = log2(numFrames)` */
    function FrameBits(): nat requires Valid() { phyBits - pageBits }

    /** `phyMemSize // pageSize` */
    function NumFrames(): nat requires Valid() { Pow2(FrameBits()) }

    /** The bits of a page number, `virBits - pageBits`; none when a page is
        larger than the virtual address space. */
    function PageNumberBits(): nat { if pageBits <= virBits then virBits - pageBits else 0 }

    /** `virMemSize // pageSize`, which floors to 0 when a page is larger than
        the virtual address space. */
    function NumPages(): nat { if pageBits <= virBits then Pow2(virBits - pageBits) else 0 }
  }

  /** One page of one process: an index pair into the page tables. */
  datatype Cell = Cell(process: nat, page: nat)

  /** Everything the per-access loop carries from one access to the next. */
  datatype State = State(
    pageTables: seq<seq<nat>>,
    agingR: seq<nat>,
    freeFrames: seq<nat>,
    numInstructions: nat)

  /** One parsed trace record `<process> <r|w> <virtual address>`. */
  datatype Access = Access(process: nat, command: char, virMemLoc: nat)

  /** What one access reports: the address split, the physical address, whether
      it faulted, which page (if any) was removed, whether that page was modified
      (the "Writing modified data" notice) and whether the aging counters were
      refreshed after it. */
  datatype Translation = Translation(
    pageNum: nat,
    offset: nat,
    frameNum: nat,
    phyMemLoc: nat,
    pageFault: bool,
    removed: Option<Cell>,
    writeBack: bool,
    agingUpdate: bool)

  /** The process or page number indexes past a table (an `IndexError` in the
      source). */
  datatype Error = OutOfRange

  // ---------------------------------------------------------------------------
  // Page tables as a two-level sequence
  // ---------------------------------------------------------------------------

  predicate IsCell(t: seq<seq<nat>>, c: Cell)
  {
    c.process < |t| && c.page < |t[c.process]|
  }

  function EntryAt(t: seq<seq<nat>>, c: Cell): nat
    requires IsCell(t, c)
  {
    t[c.process][c.page]
  }

  predicate PresentAt(frameBits: nat, t: seq<seq<nat>>, c: Cell)
  {
    IsCell(t, c) && GetPresent(frameBits, EntryAt(t, c)) == 1
  }

  function FrameAt(frameBits: nat, t: seq<seq<nat>>, c: Cell): nat
    requires IsCell(t, c)
  {
    GetFrameNum(frameBits, EntryAt(t, c))
  }

  predicate SameShape(t: seq<seq<nat>>, u: seq<seq<nat>>)
  {
    |t| == |u| && forall i :: 0 <= i < |t| ==> |t[i]| == |u[i]|
  }

  /** `pageTables[process][page] = entry`: the one entry changes, nothing else. */
  function SetEntry(t: seq<seq<nat>>, c: Cell, e: nat): (u: seq<seq<nat>>)
    requires IsCell(t, c)
    ensures SameShape(t, u)
    ensures forall d :: IsCell(t, d) ==> EntryAt(u, d) == if d == c then e else EntryAt(t, d)
  {
    var row: seq<nat> := t[c.process][c.page := e];
    t[c.process := row]
  }

  /** Every table has the same length (needed to read Python's `[-1][-1]`). */
  predicate Rect(t: seq<seq<nat>>)
  {
    forall i :: 0 <= i < |t| ==> |t[i]| == |t[0]|
  }

  /** The state has the dimensions the configuration gives it, and every frame on
      the free list names a frame. */
  predicate Shaped(cfg: Config, s: State)
    requires cfg.Valid()
  {
    && |s.pageTables| == cfg.numProcesses
    && (forall i :: 0 <= i < |s.pageTables| ==> |s.pageTables[i]| == cfg.NumPages())
    && |s.agingR| == cfg.NumFrames()
    && (forall k :: 0 <= k < |s.freeFrames| ==> s.freeFrames[k] < cfg.NumFrames())
  }

  /** The initial state: zeroed tables and counters, every frame free. */
  function Init(cfg: Config): (s: State)
    requires cfg.Valid()
    ensures Shaped(cfg, s)
    ensures forall c :: IsCell(s.pageTables, c) ==> EntryAt(s.pageTables, c) == 0
    ensures forall k :: 0 <= k < |s.freeFrames| ==> s.freeFrames[k] == k
  {
    State(
      seq(cfg.numProcesses, _ => seq(cfg.NumPages(), _ => 0)),
      seq(cfg.NumFrames(), _ => 0),
      seq(cfg.NumFrames(), k => k),
      0)
  }

  // ---------------------------------------------------------------------------
  // Address translation
  // ---------------------------------------------------------------------------

  /** `pageNum = virMemLoc >> pageBits` and `offset = virMemLoc & (pageSize - 1)`:
      the address is `pageNum * pageSize + offset` with the offset inside a page. */
  function SplitAddress(pageBits: nat, virMemLoc: nat): (r: (nat, nat))
    ensures r.1 < Pow2(pageBits)
    ensures r.0 * Pow2(pageBits) + r.1 == virMemLoc
  {
    SplitLow(virMemLoc, pageBits);
    (Shr(virMemLoc, pageBits), And(virMemLoc, LowMask(pageBits)))
  }

  /** `(frameNum << pageBits) | offset`: the frame lands in the high bits and the
      offset survives in the low bits. */
  function PhysicalAddress(pageBits: nat, frameNum: nat, offset: nat): (p: nat)
    requires offset < Pow2(pageBits)
    ensures p == frameNum * Pow2(pageBits) + offset
    ensures Shr(p, pageBits) == frameNum
    ensures And(p, LowMask(pageBits)) == offset
  {
    JoinLow(frameNum, offset, pageBits);
    Or(Shl(frameNum, pageBits), offset)
  }

  // ---------------------------------------------------------------------------
  // Victim selection (the nested scan over every process and page)
  // ---------------------------------------------------------------------------

  /** The loop variables of the scan: the selected (process, page), or none yet
      (the source's `-1, -1`), and `lowestAge`. */
  datatype Scan = Scan(selected: Option<Cell>, lowestAge: nat)

  /** `decoder.getFrameNum(pageTables[processSelected][pageSelected])`; with nothing
      selected the source indexes `[-1][-1]`, which Python reads as the last page of
      the last process. */
  function SelectedFrame(frameBits: nat, t: seq<seq<nat>>, sel: Option<Cell>): nat
    requires |t| > 0 && |t[|t| - 1]| > 0
    requires sel.Some? ==> IsCell(t, sel.value)
  {
    match sel
    case Some(c) => FrameAt(frameBits, t, c)
    case None => GetFrameNum(frameBits, t[|t| - 1][|t[|t| - 1]| - 1])
  }

  /** One iteration of the inner loop of the victim search, at cell c. */
  function Consider(frameBits: nat, t: seq<seq<nat>>, agingR: seq<nat>, c: Cell, acc: Scan): Scan
    requires Rect(t) && IsCell(t, c) && |agingR| == Pow2(frameBits)
    requires acc.selected.Some? ==> IsCell(t, acc.selected.value)
  {
    if GetPresent(frameBits, EntryAt(t, c)) != 1 then acc
    else
      var fn := FrameAt(frameBits, t, c);
      if agingR[fn] < acc.lowestAge then Scan(Some(c), agingR[fn])
      else if agingR[fn] == acc.lowestAge && fn < SelectedFrame(frameBits, t, acc.selected) then
        Scan(Some(c), agingR[fn])
      else acc
  }

  /** The scan from cell (i, j) onwards, processes outer and pages inner. */
  function ScanFrom(frameBits: nat, t: seq<seq<nat>>, agingR: seq<nat>, i: nat, j: nat, acc: Scan): (r: Scan)
    requires Rect(t) && |agingR| == Pow2(frameBits)
    requires acc.selected.Some? ==> PresentAt(frameBits, t, acc.selected.value)
    ensures r.selected.Some? ==> PresentAt(frameBits, t, r.selected.value)
    decreases |t| - i, if i < |t| then |t[i]| - j else 0
  {
    if i >= |t| then acc
    else if j >= |t[i]| then ScanFrom(frameBits, t, agingR, i + 1, 0, acc)
    else ScanFrom(frameBits, t, agingR, i, j + 1, Consider(frameBits, t, agingR, Cell(i, j), acc))
  }

  /** The page chosen for eviction, or None when no page is present. */
  function SelectVictim(frameBits: nat, t: seq<seq<nat>>, agingR: seq<nat>): (v: Option<Cell>)
    requires Rect(t) && |agingR| == Pow2(frameBits)
    ensures v.Some? ==> PresentAt(frameBits, t, v.value)
  {
    ScanFrom(frameBits, t, agingR, 0, 0, Scan(None, SentinelAge())).selected
  }

  /** Cell v is at least as good a victim as cell c: a smaller counter, or the
      same counter and a frame number no larger. */
  predicate NoYounger(frameBits: nat, t: seq<seq<nat>>, agingR: seq<nat>, v: Cell, c: Cell)
    requires IsCell(t, v) && IsCell(t, c) && |agingR| == Pow2(frameBits)
  {
    var fv := FrameAt(frameBits, t, v);
    var fc := FrameAt(frameBits, t, c);
    agingR[fv] < agingR[fc] || (agingR[fv] == agingR[fc] && fv <= fc)
  }

  predicate Visited(c: Cell, i: nat, j: nat)
  {
    c.process < i || (c.process == i && c.page < j)
  }

  /** What the scan knows about the cells it has visited. */
  ghost predicate ScanInv(frameBits: nat, t: seq<seq<nat>>, agingR: seq<nat>, i: nat, j: nat, acc: Scan)
    requires |agingR| == Pow2(frameBits)
  {
    match acc.selected
    case None =>
      acc.lowestAge == SentinelAge()
      && forall c :: Visited(c, i, j) && PresentAt(frameBits, t, c) ==> false
    case Some(v) =>
      && PresentAt(frameBits, t, v)
      && acc.lowestAge == agingR[FrameAt(frameBits, t, v)]
      && forall c :: Visited(c, i, j) && PresentAt(frameBits, t, c) ==> NoYounger(frameBits, t, agingR, v, c)
  }

  predicate AgesBelow(agingR: seq<nat>, bound: nat)
  {
    forall f :: 0 <= f < |agingR| ==> agingR[f] < bound
  }

  lemma ConsiderKeepsScanInv(frameBits: nat, t: seq<seq<nat>>, agingR: seq<nat>, i: nat, j: nat, acc: Scan)
    requires Rect(t) && IsCell(t, Cell(i, j)) && |agingR| == Pow2(frameBits)
    requires AgesBelow(agingR, Pow2(AgingBits))
    requires ScanInv(frameBits, t, agingR, i, j, acc)
    ensures ScanInv(frameBits, t, agingR, i, j + 1, Consider(frameBits, t, agingR, Cell(i, j), acc))
  {
    var c := Cell(i, j);
    var acc' := Consider(frameBits, t, agingR, c, acc);
    forall d | Visited(d, i, j + 1) && PresentAt(frameBits, t, d) && d != c
      ensures Visited(d, i, j)
    {
    }
    if PresentAt(frameBits, t, c) {
      var fn := FrameAt(frameBits, t, c);
      assert agingR[fn] < SentinelAge();
      if acc'.selected == Some(c) {
        forall d | Visited(d, i, j + 1) && PresentAt(frameBits, t, d)
          ensures NoYounger(frameBits, t, agingR, c, d)
        {
          if d != c {
            assert acc.selected.Some?;
          }
        }
      } else {
        assert acc.selected.Some?;
        assert NoYounger(frameBits, t, agingR, acc.selected.value, c);
      }
    }
  }

  lemma {:induction false} ScanFromSpec(frameBits: nat, t: seq<seq<nat>>, agingR: seq<nat>, i: nat, j: nat, acc: Scan)
    requires Rect(t) && |agingR| == Pow2(frameBits)
    requires AgesBelow(agingR, Pow2(AgingBits))
    requires acc.selected.Some? ==> PresentAt(frameBits, t, acc.selected.value)
    requires i < |t| ==> j <= |t[i]|
    requires ScanInv(frameBits, t, agingR, i, j, acc)
    ensures ScanInv(frameBits, t, agingR, |t|, 0, ScanFrom(frameBits, t, agingR, i, j, acc))
    decreases |t| - i, if i < |t| then |t[i]| - j else 0
  {
    if i >= |t| {
      forall c | Visited(c, |t|, 0) ensures Visited(c, i, j) {}
    } else if j >= |t[i]| {
      forall c | Visited(c, i + 1, 0) && IsCell(t, c) ensures Visited(c, i, j) {}
      ScanFromSpec(frameBits, t, agingR, i + 1, 0, acc);
    } else {
      ConsiderKeepsScanInv(frameBits, t, agingR, i, j, acc);
      ScanFromSpec(frameBits, t, agingR, i, j + 1, Consider(frameBits, t, agingR, Cell(i, j), acc));
    }
  }

  /** Victim selection finds a victim exactly when some page is present; the victim
      is present, and no present page has a smaller counter, or the same counter
      and a smaller frame number. Counters below `2^agingBits` (which `Inv` keeps)
      make the first present page beat the sentinel, so the `[-1][-1]` read never
      decides anything. */
  lemma VictimIsOldest(frameBits: nat, t: seq<seq<nat>>, agingR: seq<nat>)
    requires Rect(t) && |agingR| == Pow2(frameBits)
    requires AgesBelow(agingR, Pow2(AgingBits))
    ensures var v := SelectVictim(frameBits, t, agingR);
      && (v.Some? <==> exists c :: PresentAt(frameBits, t, c))
      && (v.Some? ==> PresentAt(frameBits, t, v.value))
      && (v.Some? ==> forall c :: PresentAt(frameBits, t, c) ==> NoYounger(frameBits, t, agingR, v.value, c))
  {
    ScanFromSpec(frameBits, t, agingR, 0, 0, Scan(None, SentinelAge()));
    var res := ScanFrom(frameBits, t, agingR, 0, 0, Scan(None, SentinelAge()));
    forall c | PresentAt(frameBits, t, c) ensures Visited(c, |t|, 0) {}
  }

  // ---------------------------------------------------------------------------
  // Aging refresh (every third access)
  // ---------------------------------------------------------------------------

  /** `(age >> 1) | (1 << (agingBits - 1))` when `referenced` is 1, else `age >> 1`. */
  function ShiftIn(age: nat, referenced: nat): nat
  {
    if referenced == 1 then Or(Shr(age, 1), Shl(1, AgingBits - 1)) else Shr(age, 1)
  }

  lemma ShiftInDigits(age: nat, referenced: nat)
    ensures age < Pow2(AgingBits) ==> ShiftIn(age, referenced) < Pow2(AgingBits)
    ensures age < Pow2(AgingBits) ==> Bit(ShiftIn(age, referenced), AgingBits - 1) == if referenced == 1 then 1 else 0
    ensures forall j: nat :: j < AgingBits - 1 ==> Bit(ShiftIn(age, referenced), j) == Bit(age, j + 1)
  {
    var shifted := Shr(age, 1);
    var top := Shl(1, AgingBits - 1);
    assert top == Pow2(AgingBits - 1) == 128 && Pow2(AgingBits) == 256;
    forall j: nat ensures Bit(shifted, j) == Bit(age, j + 1) { BitShr(age, 1, j); }
    var a := ShiftIn(age, referenced);
    forall j: nat | j < AgingBits - 1 ensures Bit(a, j) == Bit(age, j + 1) {
      if referenced == 1 { BitOr(shifted, top, j); BitPow2(AgingBits - 1, j); BitIsBit(shifted, j); }
    }
    if age < Pow2(AgingBits) {
      assert shifted == Shr(age / 2, 0) == age / 2;
      BelowPow2(shifted, AgingBits - 1);
      OrAtMostSum(shifted, top);
      BitOr(shifted, top, AgingBits - 1);
      BitPow2(AgingBits - 1, AgingBits - 1);
    }
  }

  /** One tick of one aging counter. The counter is a shift register: the new top
      bit is the referenced bit and the other bits are the old ones moved down. */
  function NextAge(age: nat, referenced: nat): (a: nat)
    ensures age < Pow2(AgingBits) ==> a < Pow2(AgingBits)
    ensures age < Pow2(AgingBits) ==> Bit(a, AgingBits - 1) == if referenced == 1 then 1 else 0
    ensures forall j: nat :: j < AgingBits - 1 ==> Bit(a, j) == Bit(age, j + 1)
  {
    ShiftInDigits(age, referenced);
    ShiftIn(age, referenced)
  }

  /** The aging refresh of one counter with the referenced bit clear, k times over. */
  function Decay(age: nat, k: nat): nat
    decreases k
  {
    if k == 0 then age else Decay(NextAge(age, 0), k - 1)
  }

  /** A counter of `agingBits` bits reaches 0 after `agingBits` refreshes without a
      reference. */
  lemma {:induction false} AgingDecay(age: nat, k: nat)
    requires age < Pow2(k)
    ensures Decay(age, k) == 0
    decreases k
  {
    if k > 0 {
      assert NextAge(age, 0) == Shr(age, 1) == age / 2;
      assert Pow2(k) == 2 * Pow2(k - 1);
      AgingDecay(NextAge(age, 0), k - 1);
    }
  }

  /** The entry after a refresh has visited it: a present entry loses its referenced
      bit (the source clears it only when it is set, which is the same thing). */
  function RefreshedEntry(frameBits: nat, e: nat): nat
  {
    if GetPresent(frameBits, e) == 1 && GetReferenced(frameBits, e) == 1 then ClearReferenced(frameBits, e) else e
  }

  /** The body of the refresh loop at cell c: a present page shifts its frame's
      counter and moves its referenced bit into it. */
  function RefreshCell(frameBits: nat, t: seq<seq<nat>>, agingR: seq<nat>, c: Cell): (r: (seq<seq<nat>>, seq<nat>))
    requires IsCell(t, c) && |agingR| == Pow2(frameBits)
    ensures SameShape(t, r.0) && |r.1| == |agingR|
    ensures forall d :: IsCell(t, d) ==> EntryAt(r.0, d) == if d == c then RefreshedEntry(frameBits, EntryAt(t, c)) else EntryAt(t, d)
  {
    var e := EntryAt(t, c);
    if GetPresent(frameBits, e) != 1 then (t, agingR)
    else
      var fn := GetFrameNum(frameBits, e);
      var ref := GetReferenced(frameBits, e);
      var agingR' := agingR[fn := NextAge(agingR[fn], ref)];
      if ref == 1 then (SetEntry(t, c, ClearReferenced(frameBits, e)), agingR') else (t, agingR')
  }

  predicate AtOrAfter(c: Cell, i: nat, j: nat)
  {
    c.process > i || (c.process == i && c.page >= j)
  }

  /** The refresh loop from cell (i, j) onwards. Every visited entry is refreshed and
      every other entry is left alone. */
  function RefreshFrom(frameBits: nat, t: seq<seq<nat>>, agingR: seq<nat>, i: nat, j: nat): (r: (seq<seq<nat>>, seq<nat>))
    requires |agingR| == Pow2(frameBits)
    ensures SameShape(t, r.0) && |r.1| == |agingR|
    ensures forall c :: IsCell(t, c) ==>
      EntryAt(r.0, c) == if AtOrAfter(c, i, j) then RefreshedEntry(frameBits, EntryAt(t, c)) else EntryAt(t, c)
    decreases |t| - i, if i < |t| then |t[i]| - j else 0
  {
    if i >= |t| then (t, agingR)
    else if j >= |t[i]| then RefreshFrom(frameBits, t, agingR, i + 1, 0)
    else
      var r1 := RefreshCell(frameBits, t, agingR, Cell(i, j));
      RefreshFrom(frameBits, r1.0, r1.1, i, j + 1)
  }

  /** The whole refresh: every process, every page. */
  function Refresh(frameBits: nat, t: seq<seq<nat>>, agingR: seq<nat>): (r: (seq<seq<nat>>, seq<nat>))
    requires |agingR| == Pow2(frameBits)
  {
    RefreshFrom(frameBits, t, agingR, 0, 0)
  }

  /** What a refresh keeps of an entry: presence, frame and modified bit; a zero
      entry stays zero. */
  lemma RefreshedEntryFields(frameBits: nat, e: nat)
    ensures GetPresent(frameBits, RefreshedEntry(frameBits, e)) == GetPresent(frameBits, e)
    ensures GetFrameNum(frameBits, RefreshedEntry(frameBits, e)) == GetFrameNum(frameBits, e)
    ensures GetModified(frameBits, RefreshedEntry(frameBits, e)) == GetModified(frameBits, e)
    ensures GetReferenced(frameBits, RefreshedEntry(frameBits, e))
      == if GetPresent(frameBits, e) == 1 then 0 else GetReferenced(frameBits, e)
    ensures GetPresent(frameBits, e) != 1 ==> RefreshedEntry(frameBits, e) == e
  {
  }

  /** Two tables of the same shape in which every page has the same presence and
      the same frame. */
  ghost predicate SameMapping(frameBits: nat, t: seq<seq<nat>>, u: seq<seq<nat>>)
  {
    && SameShape(t, u)
    && forall c :: IsCell(t, c) ==>
         && GetPresent(frameBits, EntryAt(u, c)) == GetPresent(frameBits, EntryAt(t, c))
         && GetFrameNum(frameBits, EntryAt(u, c)) == GetFrameNum(frameBits, EntryAt(t, c))
  }

  /** No two present pages, of the same or of different processes, share a frame. */
  ghost predicate Exclusive(frameBits: nat, t: seq<seq<nat>>)
  {
    forall c, d :: PresentAt(frameBits, t, c) && PresentAt(frameBits, t, d) && c != d ==>
      FrameAt(frameBits, t, c) != FrameAt(frameBits, t, d)
  }

  lemma SameMappingExclusive(frameBits: nat, t: seq<seq<nat>>, u: seq<seq<nat>>)
    requires SameMapping(frameBits, t, u) && Exclusive(frameBits, t)
    ensures Exclusive(frameBits, u)
    ensures forall c :: PresentAt(frameBits, u, c) <==> PresentAt(frameBits, t, c)
    ensures forall c :: PresentAt(frameBits, u, c) ==> FrameAt(frameBits, u, c) == FrameAt(frameBits, t, c)
  {
    forall c | IsCell(u, c) || IsCell(t, c)
      ensures IsCell(u, c) && IsCell(t, c)
      ensures PresentAt(frameBits, u, c) == PresentAt(frameBits, t, c)
      ensures FrameAt(frameBits, u, c) == FrameAt(frameBits, t, c)
    {
    }
  }

  /** Some present page at or after cell (i, j) occupies frame f. */
  ghost predicate FrameUsedFrom(frameBits: nat, t: seq<seq<nat>>, f: nat, i: nat, j: nat)
  {
    exists c :: AtOrAfter(c, i, j) && PresentAt(frameBits, t, c) && FrameAt(frameBits, t, c) == f
  }

  /** The refresh loop from cell (i, j) on leaves alone the counter of every frame
      no present page at or after (i, j) occupies. */
  lemma {:induction false} RefreshFromKeeps(frameBits: nat, t: seq<seq<nat>>, agingR: seq<nat>, i: nat, j: nat)
    requires |agingR| == Pow2(frameBits) && Exclusive(frameBits, t)
    ensures var r := RefreshFrom(frameBits, t, agingR, i, j);
      forall f :: 0 <= f < |agingR| && !FrameUsedFrom(frameBits, t, f, i, j) ==> r.1[f] == agingR[f]
    decreases |t| - i, if i < |t| then |t[i]| - j else 0
  {
    var r := RefreshFrom(frameBits, t, agingR, i, j);
    if i >= |t| {
    } else if j >= |t[i]| {
      RefreshFromKeeps(frameBits, t, agingR, i + 1, 0);
      forall f | 0 <= f < |agingR| && !FrameUsedFrom(frameBits, t, f, i, j)
        ensures !FrameUsedFrom(frameBits, t, f, i + 1, 0)
      {
        forall d | AtOrAfter(d, i + 1, 0) && PresentAt(frameBits, t, d) ensures FrameAt(frameBits, t, d) != f {
          assert AtOrAfter(d, i, j);
        }
      }
    } else {
      var c0 := Cell(i, j);
      var r1 := RefreshCell(frameBits, t, agingR, c0);
      var t1, a1 := r1.0, r1.1;
      RefreshCellFacts(frameBits, t, agingR, c0);
      RefreshFromKeeps(frameBits, t1, a1, i, j + 1);
      assert r == RefreshFrom(frameBits, t1, a1, i, j + 1);
      var present0 := PresentAt(frameBits, t, c0);
      var f0 := FrameAt(frameBits, t, c0);
      forall f | 0 <= f < |agingR| && !FrameUsedFrom(frameBits, t, f, i, j)
        ensures r.1[f] == agingR[f]
      {
        forall d | AtOrAfter(d, i, j + 1) && PresentAt(frameBits, t1, d) ensures FrameAt(frameBits, t1, d) != f {
          assert AtOrAfter(d, i, j) && PresentAt(frameBits, t, d);
        }
        assert !FrameUsedFrom(frameBits, t1, f, i, j + 1);
        assert present0 ==> f != f0;
        assert a1[f] == agingR[f];
      }
    }
  }

  /** The refresh loop from cell (i, j) on shifts, exactly once, the counter of the
      frame of every present page at or after (i, j). */
  lemma {:induction false} RefreshFromAging(frameBits: nat, t: seq<seq<nat>>, agingR: seq<nat>, i: nat, j: nat)
    requires |agingR| == Pow2(frameBits) && Exclusive(frameBits, t)
    ensures var r := RefreshFrom(frameBits, t, agingR, i, j);
      forall c :: AtOrAfter(c, i, j) && PresentAt(frameBits, t, c) ==>
        r.1[FrameAt(frameBits, t, c)] == NextAge(agingR[FrameAt(frameBits, t, c)], GetReferenced(frameBits, EntryAt(t, c)))
    decreases |t| - i, if i < |t| then |t[i]| - j else 0
  {
    if i >= |t| {
    } else if j >= |t[i]| {
      RefreshFromAging(frameBits, t, agingR, i + 1, 0);
    } else {
      var r1 := RefreshCell(frameBits, t, agingR, Cell(i, j));
      RefreshCellFacts(frameBits, t, agingR, Cell(i, j));
      RefreshFromAging(frameBits, r1.0, r1.1, i, j + 1);
      forall c | AtOrAfter(c, i, j) && PresentAt(frameBits, t, c)
        ensures RefreshFrom(frameBits, t, agingR, i, j).1[FrameAt(frameBits, t, c)]
          == NextAge(agingR[FrameAt(frameBits, t, c)], GetReferenced(frameBits, EntryAt(t, c)))
      {
        RefreshVisitAging(frameBits, t, agingR, i, j, c);
      }
    }
  }

  /** One step of `RefreshFromAging`: given the claim for the loop from (i, j + 1)
      on the table after visiting (i, j), the claim for page c from (i, j). */
  lemma RefreshVisitAging(frameBits: nat, t: seq<seq<nat>>, agingR: seq<nat>, i: nat, j: nat, c: Cell)
    requires |agingR| == Pow2(frameBits) && Exclusive(frameBits, t) && IsCell(t, Cell(i, j))
    requires AtOrAfter(c, i, j) && PresentAt(frameBits, t, c)
    requires var r1 := RefreshCell(frameBits, t, agingR, Cell(i, j));
      forall d :: AtOrAfter(d, i, j + 1) && PresentAt(frameBits, r1.0, d) ==>
        RefreshFrom(frameBits, r1.0, r1.1, i, j + 1).1[FrameAt(frameBits, r1.0, d)]
          == NextAge(r1.1[FrameAt(frameBits, r1.0, d)], GetReferenced(frameBits, EntryAt(r1.0, d)))
    ensures RefreshFrom(frameBits, t, agingR, i, j).1[FrameAt(frameBits, t, c)]
      == NextAge(agingR[FrameAt(frameBits, t, c)], GetReferenced(frameBits, EntryAt(t, c)))
  {
    var c0 := Cell(i, j);
    var r1 := RefreshCell(frameBits, t, agingR, c0);
    var t1, a1 := r1.0, r1.1;
    RefreshCellFacts(frameBits, t, agingR, c0);
    var r := RefreshFrom(frameBits, t1, a1, i, j + 1);
    assert RefreshFrom(frameBits, t, agingR, i, j) == r;
    var f0 := FrameAt(frameBits, t, c0);
    if c == c0 {
      RefreshFromKeeps(frameBits, t1, a1, i, j + 1);
      forall d | AtOrAfter(d, i, j + 1) && PresentAt(frameBits, t1, d) ensures FrameAt(frameBits, t1, d) != f0 {
        assert d != c0 && PresentAt(frameBits, t, d);
      }
      assert !FrameUsedFrom(frameBits, t1, f0, i, j + 1);
    } else {
      var fc := FrameAt(frameBits, t, c);
      assert AtOrAfter(c, i, j + 1) && PresentAt(frameBits, t1, c);
      assert FrameAt(frameBits, t1, c) == fc && EntryAt(t1, c) == EntryAt(t, c);
      assert PresentAt(frameBits, t, c0) ==> fc != f0;
    }
  }

  /** One visit of the refresh loop keeps the mapping (hence exclusivity) and ticks
      exactly the counter of the visited page's frame, if the page is present. */
  lemma RefreshCellFacts(frameBits: nat, t: seq<seq<nat>>, agingR: seq<nat>, c0: Cell)
    requires IsCell(t, c0) && |agingR| == Pow2(frameBits) && Exclusive(frameBits, t)
    ensures var r1 := RefreshCell(frameBits, t, agingR, c0);
      && SameMapping(frameBits, t, r1.0)
      && Exclusive(frameBits, r1.0)
      && (forall c :: PresentAt(frameBits, r1.0, c) <==> PresentAt(frameBits, t, c))
      && (forall c :: PresentAt(frameBits, r1.0, c) ==> FrameAt(frameBits, r1.0, c) == FrameAt(frameBits, t, c))
      && (forall c :: IsCell(t, c) && c != c0 ==> EntryAt(r1.0, c) == EntryAt(t, c))
      && (!PresentAt(frameBits, t, c0) ==> r1.1 == agingR)
      && (PresentAt(frameBits, t, c0) ==>
            r1.1 == agingR[FrameAt(frameBits, t, c0) := NextAge(agingR[FrameAt(frameBits, t, c0)], GetReferenced(frameBits, EntryAt(t, c0)))])
  {
    var r1 := RefreshCell(frameBits, t, agingR, c0);
    forall c | IsCell(t, c)
      ensures GetPresent(frameBits, EntryAt(r1.0, c)) == GetPresent(frameBits, EntryAt(t, c))
      ensures GetFrameNum(frameBits, EntryAt(r1.0, c)) == GetFrameNum(frameBits, EntryAt(t, c))
    {
      RefreshedEntryFields(frameBits, EntryAt(t, c));
    }
    SameMappingExclusive(frameBits, t, r1.0);
  }

  /** The refresh of pageTable.py: every present page's frame counter is shifted
      right with the page's referenced bit moved into its top bit, the referenced
      bit is cleared, and nothing else changes: not the modified bits, not the frame
      numbers, not the counters of frames no present page occupies. This relies on
      frames being exclusive (each counter is visited by one page only). */
  lemma RefreshSpec(frameBits: nat, t: seq<seq<nat>>, agingR: seq<nat>)
    requires |agingR| == Pow2(frameBits) && Exclusive(frameBits, t)
    ensures var r := Refresh(frameBits, t, agingR);
      && SameMapping(frameBits, t, r.0)
      && (forall c :: IsCell(t, c) ==> EntryAt(r.0, c) == RefreshedEntry(frameBits, EntryAt(t, c)))
      && (forall c :: PresentAt(frameBits, t, c) ==>
            && r.1[FrameAt(frameBits, t, c)] == NextAge(agingR[FrameAt(frameBits, t, c)], GetReferenced(frameBits, EntryAt(t, c)))
            && GetReferenced(frameBits, EntryAt(r.0, c)) == 0
            && GetModified(frameBits, EntryAt(r.0, c)) == GetModified(frameBits, EntryAt(t, c)))
      && (forall f :: 0 <= f < |agingR| && (forall c :: PresentAt(frameBits, t, c) ==> FrameAt(frameBits, t, c) != f) ==> r.1[f] == agingR[f])
  {
    var r := Refresh(frameBits, t, agingR);
    RefreshFromAging(frameBits, t, agingR, 0, 0);
    RefreshFromKeeps(frameBits, t, agingR, 0, 0);
    forall c | IsCell(t, c) ensures AtOrAfter(c, 0, 0) {
      RefreshedEntryFields(frameBits, EntryAt(t, c));
    }
    forall f | 0 <= f < |agingR| && (forall c :: PresentAt(frameBits, t, c) ==> FrameAt(frameBits, t, c) != f)
      ensures !FrameUsedFrom(frameBits, t, f, 0, 0)
    {
    }
  }

  // ---------------------------------------------------------------------------
  // Resolving a fault
  // ---------------------------------------------------------------------------

  /** `pageTables[-1][-1]`: the cell the source evicts when the scan selected
      nothing (its `processSelected = pageSelected = -1`). */
  function LastCell(t: seq<seq<nat>>): (c: Cell)
    requires |t| > 0 && |t[|t| - 1]| > 0
    ensures IsCell(t, c)
  {
    Cell(|t| - 1, |t[|t| - 1]| - 1)
  }

  /** The page whose frame is taken when no frame is free. */
  function Victim(frameBits: nat, t: seq<seq<nat>>, agingR: seq<nat>): (v: Cell)
    requires Rect(t) && |t| > 0 && |t[0]| > 0 && |agingR| == Pow2(frameBits)
    ensures IsCell(t, v)
  {
    match SelectVictim(frameBits, t, agingR)
    case Some(v) => v
    case None => LastCell(t)
  }

  /** With counters below `2^agingBits` and some page present, the victim is a
      present page that no present page beats on (counter, frame number). */
  lemma VictimSpec(frameBits: nat, t: seq<seq<nat>>, agingR: seq<nat>)
    requires Rect(t) && |t| > 0 && |t[0]| > 0 && |agingR| == Pow2(frameBits)
    requires AgesBelow(agingR, Pow2(AgingBits))
    requires exists c :: PresentAt(frameBits, t, c)
    ensures var v := Victim(frameBits, t, agingR);
      && PresentAt(frameBits, t, v)
      && forall c :: PresentAt(frameBits, t, c) ==> NoYounger(frameBits, t, agingR, v, c)
  {
    VictimIsOldest(frameBits, t, agingR);
  }

  /** The entry of a page loaded into `frameNum` (`replaceFrameNum`, then
      `setPresent`): present, in that frame, its other flags carried over. */
  function LoadedEntry(frameBits: nat, e: nat, frameNum: nat): (e': nat)
    requires frameNum < Pow2(frameBits)
    ensures GetPresent(frameBits, e') == 1 && GetFrameNum(frameBits, e') == frameNum
    ensures GetReferenced(frameBits, e') == GetReferenced(frameBits, e)
    ensures GetModified(frameBits, e') == GetModified(frameBits, e)
  {
    SetPresent(frameBits, ReplaceFrameNum(frameBits, e, frameNum))
  }

  /** The outcome of a fault: the new state, the frame the page now occupies, the
      page evicted from that frame (if any), and whether the evicted page was
      modified (the "Writing modified data" notice). */
  datatype Fault = Fault(state: State, frameNum: nat, removed: Option<Cell>, writeBack: bool)

  /** A fault served from the free list: the first free frame is taken. */
  function LoadFree(cfg: Config, s: State, c: Cell): (r: Fault)
    requires cfg.Valid() && Shaped(cfg, s) && IsCell(s.pageTables, c) && |s.freeFrames| > 0
    ensures Shaped(cfg, r.state)
    ensures r.state.numInstructions == s.numInstructions
    ensures PresentAt(cfg.FrameBits(), r.state.pageTables, c)
    ensures FrameAt(cfg.FrameBits(), r.state.pageTables, c) == r.frameNum
    ensures r.state.agingR == s.agingR[r.frameNum := MaxAge()]
    ensures r.frameNum == s.freeFrames[0] && r.state.freeFrames == s.freeFrames[1..]
    ensures r.removed == None && !r.writeBack
    ensures forall d :: IsCell(s.pageTables, d) && d != c ==> EntryAt(r.state.pageTables, d) == EntryAt(s.pageTables, d)
    ensures GetModified(cfg.FrameBits(), EntryAt(r.state.pageTables, c)) == GetModified(cfg.FrameBits(), EntryAt(s.pageTables, c))
  {
    var fb := cfg.FrameBits();
    var t := s.pageTables;
    var frameNum := s.freeFrames[0];
    var t' := SetEntry(t, c, LoadedEntry(fb, EntryAt(t, c), frameNum));
    Fault(State(t', s.agingR[frameNum := MaxAge()], s.freeFrames[1..], s.numInstructions), frameNum, None, false)
  }

  /** The victim v's entry is zeroed, then the page at c is loaded into
      `frameNum`; every other entry is kept. */
  function EvictLoad(frameBits: nat, t: seq<seq<nat>>, v: Cell, c: Cell, frameNum: nat): (u: seq<seq<nat>>)
    requires IsCell(t, v) && IsCell(t, c) && frameNum < Pow2(frameBits)
    ensures SameShape(t, u)
    ensures PresentAt(frameBits, u, c) && FrameAt(frameBits, u, c) == frameNum
    ensures GetModified(frameBits, EntryAt(u, c)) == if v == c then 0 else GetModified(frameBits, EntryAt(t, c))
    ensures v != c ==> EntryAt(u, v) == 0
    ensures forall d :: IsCell(t, d) && d != c && d != v ==> EntryAt(u, d) == EntryAt(t, d)
  {
    var evicted := SetEntry(t, v, 0);
    ZeroEntry(frameBits);
    SetEntry(evicted, c, LoadedEntry(frameBits, EntryAt(evicted, c), frameNum))
  }

  /** The counters after an eviction from `frameNum`: the source zeroes the
      frame's counter and then sets it to the maximum on loading. */
  function EvictAges(agingR: seq<nat>, frameNum: nat): (a: seq<nat>)
    requires frameNum < |agingR|
    ensures a == agingR[frameNum := MaxAge()]
  {
    agingR[frameNum := 0][frameNum := MaxAge()]
  }

  /** Page v's frame is given to the page at c: v's entry and counter are zeroed,
      c is loaded into the frame, and the frame's counter is set to the maximum. */
  function Evict(cfg: Config, s: State, c: Cell, v: Cell): (r: Fault)
    requires cfg.Valid() && Shaped(cfg, s) && IsCell(s.pageTables, c) && IsCell(s.pageTables, v)
    ensures Shaped(cfg, r.state)
    ensures r.state.numInstructions == s.numInstructions
    ensures PresentAt(cfg.FrameBits(), r.state.pageTables, c)
    ensures FrameAt(cfg.FrameBits(), r.state.pageTables, c) == r.frameNum
    ensures r.state.agingR == s.agingR[r.frameNum := MaxAge()]
    ensures r.state.freeFrames == s.freeFrames
    ensures r.frameNum == FrameAt(cfg.FrameBits(), s.pageTables, v)
  {
    var fb := cfg.FrameBits();
    var frameNum := FrameAt(fb, s.pageTables, v);
    var t' := EvictLoad(fb, s.pageTables, v, c, frameNum);
    Fault(State(t', EvictAges(s.agingR, frameNum), s.freeFrames, s.numInstructions),
          frameNum, Some(v), GetModified(fb, EntryAt(s.pageTables, v)) == 1)
  }

  /** An eviction reports a write-back exactly when v was modified, zeroes v's
      entry (unless v is the faulting page itself) and keeps every other entry. */
  lemma EvictEntries(cfg: Config, s: State, c: Cell, v: Cell)
    requires cfg.Valid() && Shaped(cfg, s) && IsCell(s.pageTables, c) && IsCell(s.pageTables, v)
    ensures var r := Evict(cfg, s, c, v);
      && r.removed == Some(v)
      && (r.writeBack <==> GetModified(cfg.FrameBits(), EntryAt(s.pageTables, v)) == 1)
      && (v != c ==> EntryAt(r.state.pageTables, v) == 0)
      && forall d :: IsCell(s.pageTables, d) && d != c && d != v ==>
           EntryAt(r.state.pageTables, d) == EntryAt(s.pageTables, d)
  {
    var fb := cfg.FrameBits();
    var r := Evict(cfg, s, c, v);
    assert r.state.pageTables == EvictLoad(fb, s.pageTables, v, c, r.frameNum);
  }

  /** A fault with no free frame: the victim's entry and counter are zeroed and
      its frame is given to the faulting page. */
  function LoadEvicting(cfg: Config, s: State, c: Cell): Fault
    requires cfg.Valid() && Shaped(cfg, s) && IsCell(s.pageTables, c)
  {
    Evict(cfg, s, c, Victim(cfg.FrameBits(), s.pageTables, s.agingR))
  }

  /** The fault branch of the access loop for the page at cell c: take the first
      free frame, or else evict the victim, then load the page into the frame with
      its counter at the maximum. */
  function HandleFault(cfg: Config, s: State, c: Cell): (r: Fault)
    requires cfg.Valid() && Shaped(cfg, s) && IsCell(s.pageTables, c)
    ensures Shaped(cfg, r.state)
    ensures r.state.numInstructions == s.numInstructions
    ensures PresentAt(cfg.FrameBits(), r.state.pageTables, c)
    ensures FrameAt(cfg.FrameBits(), r.state.pageTables, c) == r.frameNum
    ensures r.state.agingR == s.agingR[r.frameNum := MaxAge()]
    ensures r.removed.None? <==> |s.freeFrames| > 0
  {
    if |s.freeFrames| > 0 then LoadFree(cfg, s, c) else LoadEvicting(cfg, s, c)
  }

  // ---------------------------------------------------------------------------
  // One access
  // ---------------------------------------------------------------------------

  /** `setReferenced`, and `setModified` on a write. */
  function Touch(frameBits: nat, t: seq<seq<nat>>, c: Cell, command: char): (u: seq<seq<nat>>)
    requires IsCell(t, c)
    ensures SameShape(t, u)
    ensures forall d :: IsCell(t, d) && d != c ==> EntryAt(u, d) == EntryAt(t, d)
    ensures GetPresent(frameBits, EntryAt(u, c)) == GetPresent(frameBits, EntryAt(t, c))
    ensures GetFrameNum(frameBits, EntryAt(u, c)) == GetFrameNum(frameBits, EntryAt(t, c))
    ensures GetReferenced(frameBits, EntryAt(u, c)) == 1
    ensures GetModified(frameBits, EntryAt(u, c)) == if command == 'w' then 1 else GetModified(frameBits, EntryAt(t, c))
  {
    var e := SetReferenced(frameBits, EntryAt(t, c));
    SetEntry(t, c, if command == 'w' then SetModified(frameBits, e) else e)
  }

  /** The access names an existing process and a page inside the virtual space. */
  predicate InRange(cfg: Config, a: Access)
    requires cfg.Valid()
  {
    a.process < cfg.numProcesses && Shr(a.virMemLoc, cfg.pageBits) < cfg.NumPages()
  }

  /** The page at c made present: its frame is read from the entry on a hit, and
      the fault is handled on a miss. */
  function Resolve(cfg: Config, s: State, c: Cell): (r: Fault)
    requires cfg.Valid() && Shaped(cfg, s) && IsCell(s.pageTables, c)
    ensures Shaped(cfg, r.state)
    ensures PresentAt(cfg.FrameBits(), r.state.pageTables, c)
    ensures FrameAt(cfg.FrameBits(), r.state.pageTables, c) == r.frameNum
    ensures PresentAt(cfg.FrameBits(), s.pageTables, c) ==>
      r == Fault(s, FrameAt(cfg.FrameBits(), s.pageTables, c), None, false)
  {
    if GetPresent(cfg.FrameBits(), EntryAt(s.pageTables, c)) == 1 then Fault(s, FrameAt(cfg.FrameBits(), s.pageTables, c), None, false)
    else HandleFault(cfg, s, c)
  }

  /** The rest of an access once its page is present: set the referenced (and,
      on a write, the modified) bit, and refresh the counters if this is the
      `RefreshPeriod`-th access. */
  function Finish(frameBits: nat, s: State, c: Cell, command: char, numInstructions: nat): (s': State)
    requires IsCell(s.pageTables, c) && |s.agingR| == Pow2(frameBits)
    ensures SameShape(s.pageTables, s'.pageTables) && |s'.agingR| == |s.agingR|
    ensures s'.freeFrames == s.freeFrames && s'.numInstructions == numInstructions
    ensures GetPresent(frameBits, EntryAt(s'.pageTables, c)) == GetPresent(frameBits, EntryAt(s.pageTables, c))
    ensures GetFrameNum(frameBits, EntryAt(s'.pageTables, c)) == GetFrameNum(frameBits, EntryAt(s.pageTables, c))
    ensures GetPresent(frameBits, EntryAt(s.pageTables, c)) == 1 ==>
      GetReferenced(frameBits, EntryAt(s'.pageTables, c)) == if numInstructions % RefreshPeriod == 0 then 0 else 1
    ensures command == 'w' ==> GetModified(frameBits, EntryAt(s'.pageTables, c)) == 1
    ensures SameMapping(frameBits, s.pageTables, s'.pageTables)
  {
    var touched := Touch(frameBits, s.pageTables, c, command);
    var agingUpdate := numInstructions % RefreshPeriod == 0;
    var refreshed := if agingUpdate then Refresh(frameBits, touched, s.agingR) else (touched, s.agingR);
    RefreshTouched(frameBits, touched, s.agingR, c, agingUpdate);
    State(refreshed.0, refreshed.1, s.freeFrames, numInstructions)
  }

  /** One iteration of the access loop. */
  function Step(cfg: Config, s: State, a: Access): (r: Result<(State, Translation), Error>)
    requires cfg.Valid() && Shaped(cfg, s)
    ensures r.Err? <==> !InRange(cfg, a)
    ensures r.Err? ==> r.error == OutOfRange
    ensures r.Ok? ==>
      var (s', tr) := r.value;
      var fb := cfg.FrameBits();
      var c := Cell(a.process, tr.pageNum);
      && Shaped(cfg, s')
      && s'.numInstructions == s.numInstructions + 1
      && tr.offset < Pow2(cfg.pageBits)
      && tr.pageNum * Pow2(cfg.pageBits) + tr.offset == a.virMemLoc
      && tr.phyMemLoc == tr.frameNum * Pow2(cfg.pageBits) + tr.offset
      && IsCell(s.pageTables, c)
      && tr.pageFault == !PresentAt(fb, s.pageTables, c)
      && (!tr.pageFault ==> tr.frameNum == FrameAt(fb, s.pageTables, c) && s'.freeFrames == s.freeFrames && tr.removed == None)
      && PresentAt(fb, s'.pageTables, c)
      && FrameAt(fb, s'.pageTables, c) == tr.frameNum
      && tr.agingUpdate == (s'.numInstructions % RefreshPeriod == 0)
      && GetReferenced(fb, EntryAt(s'.pageTables, c)) == (if tr.agingUpdate then 0 else 1)
      && (a.command == 'w' ==> GetModified(fb, EntryAt(s'.pageTables, c)) == 1)
  {
    var fb := cfg.FrameBits();
    var numInstructions := s.numInstructions + 1;
    var split := SplitAddress(cfg.pageBits, a.virMemLoc);
    var pageNum, offset := split.0, split.1;
    var c := Cell(a.process, pageNum);
    if !IsCell(s.pageTables, c) then Err(OutOfRange)
    else
      var f := Resolve(cfg, s, c);
      var s' := Finish(fb, f.state, c, a.command, numInstructions);
      Ok((s', Translation(pageNum, offset, f.frameNum, PhysicalAddress(cfg.pageBits, f.frameNum, offset),
                          !PresentAt(fb, s.pageTables, c), f.removed, f.writeBack, numInstructions % RefreshPeriod == 0)))
  }

  /** What the optional refresh does to the page just touched. */
  lemma RefreshTouched(frameBits: nat, t: seq<seq<nat>>, agingR: seq<nat>, c: Cell, agingUpdate: bool)
    requires |agingR| == Pow2(frameBits) && IsCell(t, c)
    ensures var r := if agingUpdate then Refresh(frameBits, t, agingR) else (t, agingR);
      && SameShape(t, r.0) && |r.1| == |agingR|
      && GetPresent(frameBits, EntryAt(r.0, c)) == GetPresent(frameBits, EntryAt(t, c))
      && GetFrameNum(frameBits, EntryAt(r.0, c)) == GetFrameNum(frameBits, EntryAt(t, c))
      && GetModified(frameBits, EntryAt(r.0, c)) == GetModified(frameBits, EntryAt(t, c))
      && (agingUpdate && GetPresent(frameBits, EntryAt(t, c)) == 1 ==> GetReferenced(frameBits, EntryAt(r.0, c)) == 0)
      && (!agingUpdate ==> r.0 == t)
      && SameMapping(frameBits, t, r.0)
  {
    RefreshedEntryFields(frameBits, EntryAt(t, c));
    forall d | IsCell(t, d)
      ensures GetPresent(frameBits, RefreshedEntry(frameBits, EntryAt(t, d))) == GetPresent(frameBits, EntryAt(t, d))
      ensures GetFrameNum(frameBits, RefreshedEntry(frameBits, EntryAt(t, d))) == GetFrameNum(frameBits, EntryAt(t, d))
    {
      RefreshedEntryFields(frameBits, EntryAt(t, d));
    }
  }

  /** Table u keeps every page of t other than c and the removed one: same
      presence, same frame, same modified bit, and the very same entry when
      `exact` holds. */
  ghost predicate OthersKept(frameBits: nat, t: seq<seq<nat>>, u: seq<seq<nat>>, c: Cell, removed: Option<Cell>, exact: bool)
  {
    forall d :: IsCell(t, d) && d != c && removed != Some(d) ==>
      && IsCell(u, d)
      && PresentAt(frameBits, u, d) == PresentAt(frameBits, t, d)
      && FrameAt(frameBits, u, d) == FrameAt(frameBits, t, d)
      && GetModified(frameBits, EntryAt(u, d)) == GetModified(frameBits, EntryAt(t, d))
      && (exact ==> EntryAt(u, d) == EntryAt(t, d))
  }

  /** Keeping the other pages exactly, then keeping them up to the referenced
      bit, keeps them up to the referenced bit. */
  lemma OthersKeptThen(frameBits: nat, t: seq<seq<nat>>, u: seq<seq<nat>>, w: seq<seq<nat>>, c: Cell, removed: Option<Cell>, exact: bool)
    requires OthersKept(frameBits, t, u, c, removed, true) && OthersKept(frameBits, u, w, c, None, exact)
    ensures OthersKept(frameBits, t, w, c, removed, exact)
  {
    forall d | IsCell(t, d) && d != c && removed != Some(d)
      ensures IsCell(w, d) && EntryAt(u, d) == EntryAt(t, d)
    {
      assert IsCell(u, d) && EntryAt(u, d) == EntryAt(t, d);
    }
  }

  /** Making the page at c present writes no entry other than c's and, on an
      eviction, the victim's. */
  lemma ResolveOthers(cfg: Config, s: State, c: Cell)
    requires cfg.Valid() && Shaped(cfg, s) && IsCell(s.pageTables, c)
    ensures var f := Resolve(cfg, s, c);
      OthersKept(cfg.FrameBits(), s.pageTables, f.state.pageTables, c, f.removed, true)
  {
    var f := Resolve(cfg, s, c);
    assert SameShape(s.pageTables, f.state.pageTables);
    if !PresentAt(cfg.FrameBits(), s.pageTables, c) && |s.freeFrames| == 0 {
      EvictEntries(cfg, s, c, Victim(cfg.FrameBits(), s.pageTables, s.agingR));
    }
  }

  /** Touching the page at c and the optional refresh keep the presence, frame
      and modified bit of every other page, and off the refresh period leave its
      entry as it was. */
  lemma FinishOthers(frameBits: nat, s: State, c: Cell, command: char, numInstructions: nat)
    requires IsCell(s.pageTables, c) && |s.agingR| == Pow2(frameBits)
    ensures var s' := Finish(frameBits, s, c, command, numInstructions);
      OthersKept(frameBits, s.pageTables, s'.pageTables, c, None, numInstructions % RefreshPeriod != 0)
  {
    var touched := Touch(frameBits, s.pageTables, c, command);
    var s' := Finish(frameBits, s, c, command, numInstructions);
    forall d | IsCell(s.pageTables, d) && d != c
      ensures IsCell(s'.pageTables, d)
      ensures GetPresent(frameBits, EntryAt(s'.pageTables, d)) == GetPresent(frameBits, EntryAt(s.pageTables, d))
      ensures GetFrameNum(frameBits, EntryAt(s'.pageTables, d)) == GetFrameNum(frameBits, EntryAt(s.pageTables, d))
      ensures GetModified(frameBits, EntryAt(s'.pageTables, d)) == GetModified(frameBits, EntryAt(s.pageTables, d))
      ensures numInstructions % RefreshPeriod != 0 ==> EntryAt(s'.pageTables, d) == EntryAt(s.pageTables, d)
    {
      assert EntryAt(touched, d) == EntryAt(s.pageTables, d);
      if numInstructions % RefreshPeriod == 0 {
        assert AtOrAfter(d, 0, 0);
        assert EntryAt(s'.pageTables, d) == RefreshedEntry(frameBits, EntryAt(touched, d));
        RefreshedEntryFields(frameBits, EntryAt(touched, d));
      } else {
        assert s'.pageTables == touched;
      }
    }
  }

  /** The frame condition of an access: every page other than the accessed one
      and the evicted one keeps its presence, its frame and its modified bit, and
      when the counters are not refreshed its entry is left exactly as it was. */
  lemma StepOthers(cfg: Config, s: State, a: Access)
    requires cfg.Valid() && Shaped(cfg, s) && InRange(cfg, a)
    ensures var r := Step(cfg, s, a).value;
      OthersKept(cfg.FrameBits(), s.pageTables, r.0.pageTables, Cell(a.process, r.1.pageNum), r.1.removed, !r.1.agingUpdate)
  {
    var fb := cfg.FrameBits();
    var c := Cell(a.process, SplitAddress(cfg.pageBits, a.virMemLoc).0);
    var f := Resolve(cfg, s, c);
    var n := s.numInstructions + 1;
    var s' := Finish(fb, f.state, c, a.command, n);
    var r := Step(cfg, s, a).value;
    assert r.0 == s';
    assert r.1.pageNum == c.page && r.1.removed == f.removed && r.1.agingUpdate == (n % RefreshPeriod == 0);
    ResolveOthers(cfg, s, c);
    FinishOthers(fb, f.state, c, a.command, n);
    OthersKeptThen(fb, s.pageTables, f.state.pageTables, s'.pageTables, c, f.removed, n % RefreshPeriod != 0);
  }

  /** No page of t other than the removed one has its modified bit cleared in u. */
  ghost predicate ModifiedKept(frameBits: nat, t: seq<seq<nat>>, u: seq<seq<nat>>, removed: Option<Cell>)
  {
    forall d :: IsCell(t, d) && removed != Some(d) && GetModified(frameBits, EntryAt(t, d)) == 1 ==>
      IsCell(u, d) && GetModified(frameBits, EntryAt(u, d)) == 1
  }

  /** Fault handling keeps the faulting page's modified bit unless the page
      evicts itself (possible only when no page is present). */
  lemma ResolveKeepsModified(cfg: Config, s: State, c: Cell)
    requires cfg.Valid() && Shaped(cfg, s) && IsCell(s.pageTables, c)
    ensures var f := Resolve(cfg, s, c);
      f.removed != Some(c) ==>
        GetModified(cfg.FrameBits(), EntryAt(f.state.pageTables, c)) == GetModified(cfg.FrameBits(), EntryAt(s.pageTables, c))
  {
    var fb := cfg.FrameBits();
    if !PresentAt(fb, s.pageTables, c) && |s.freeFrames| == 0 {
      var v := Victim(fb, s.pageTables, s.agingR);
      assert Resolve(cfg, s, c).state.pageTables == EvictLoad(fb, s.pageTables, v, c, FrameAt(fb, s.pageTables, v));
    }
  }

  /** Touching and refreshing never clear the touched page's modified bit. */
  lemma FinishKeepsModified(frameBits: nat, s: State, c: Cell, command: char, numInstructions: nat)
    requires IsCell(s.pageTables, c) && |s.agingR| == Pow2(frameBits)
    requires GetModified(frameBits, EntryAt(s.pageTables, c)) == 1
    ensures GetModified(frameBits, EntryAt(Finish(frameBits, s, c, command, numInstructions).pageTables, c)) == 1
  {
    var touched := Touch(frameBits, s.pageTables, c, command);
    RefreshTouched(frameBits, touched, s.agingR, c, numInstructions % RefreshPeriod == 0);
  }

  /** The modified bit is sticky: an access clears it only on the page it evicts.
      The accessed page keeps it on a hit, carries it into its new frame on a
      load, and gains it on a write. */
  lemma StepModifiedSticky(cfg: Config, s: State, a: Access)
    requires cfg.Valid() && Shaped(cfg, s) && InRange(cfg, a)
    ensures var r := Step(cfg, s, a).value;
      ModifiedKept(cfg.FrameBits(), s.pageTables, r.0.pageTables, r.1.removed)
  {
    var fb := cfg.FrameBits();
    var c := Cell(a.process, SplitAddress(cfg.pageBits, a.virMemLoc).0);
    var f := Resolve(cfg, s, c);
    var n := s.numInstructions + 1;
    var r := Step(cfg, s, a).value;
    assert r.0 == Finish(fb, f.state, c, a.command, n);
    assert r.1.pageNum == c.page && r.1.removed == f.removed;
    StepOthers(cfg, s, a);
    ResolveKeepsModified(cfg, s, c);
    if f.removed != Some(c) && GetModified(fb, EntryAt(s.pageTables, c)) == 1 {
      FinishKeepsModified(fb, f.state, c, a.command, n);
    }
  }

  // ---------------------------------------------------------------------------
  // The invariant of the access loop
  // ---------------------------------------------------------------------------

  /** An entry that is not present is all zeros: entries start at 0, eviction
      writes 0, and nothing else touches a page that is not loaded. */
  ghost predicate ZeroOrPresent(frameBits: nat, t: seq<seq<nat>>)
  {
    forall c :: IsCell(t, c) && GetPresent(frameBits, EntryAt(t, c)) != 1 ==> EntryAt(t, c) == 0
  }

  /** The free list is the tail `[n - |free|, ..., n - 1]` of the frame numbers:
      frames leave it from the front and never come back. */
  predicate FreeIsTail(numFrames: nat, free: seq<nat>)
  {
    |free| <= numFrames && forall k :: 0 <= k < |free| ==> free[k] == numFrames - |free| + k
  }

  /** Every present page occupies a frame below `bound`. */
  ghost predicate InUseBelow(frameBits: nat, t: seq<seq<nat>>, bound: nat)
  {
    forall c :: PresentAt(frameBits, t, c) ==> FrameAt(frameBits, t, c) < bound
  }

  /** A frame field has `frameBits` bits, so every present page's frame is a
      frame number. */
  lemma FramesInRange(frameBits: nat, t: seq<seq<nat>>)
    ensures InUseBelow(frameBits, t, Pow2(frameBits))
  {
  }

  /** The set of present pages. */
  ghost function PresentCells(frameBits: nat, t: seq<seq<nat>>): set<Cell>
  {
    set i, j | 0 <= i < |t| && 0 <= j < |t[i]| && GetPresent(frameBits, t[i][j]) == 1 :: Cell(i, j)
  }

  lemma PresentCellsMembers(frameBits: nat, t: seq<seq<nat>>)
    ensures forall c :: c in PresentCells(frameBits, t) <==> PresentAt(frameBits, t, c)
  {
  }

  /** Writing one entry adds the cell to, or removes it from, the present set. */
  lemma PresentCellsSetEntry(frameBits: nat, t: seq<seq<nat>>, c: Cell, e: nat)
    requires IsCell(t, c)
    ensures PresentCells(frameBits, SetEntry(t, c, e))
      == if GetPresent(frameBits, e) == 1 then PresentCells(frameBits, t) + {c} else PresentCells(frameBits, t) - {c}
  {
    var u := SetEntry(t, c, e);
    PresentCellsMembers(frameBits, t);
    PresentCellsMembers(frameBits, u);
    forall d ensures PresentAt(frameBits, u, d) <==> if d == c then GetPresent(frameBits, e) == 1 else PresentAt(frameBits, t, d) {
      assert IsCell(u, d) <==> IsCell(t, d);
    }
  }

  /** The invariant of the simulator: every frame is either on the free list or
      occupied by exactly one present page, and the aging counters fit in
      `agingBits` bits. */
  ghost predicate Inv(cfg: Config, s: State)
    requires cfg.Valid()
  {
    var fb := cfg.FrameBits();
    && Shaped(cfg, s)
    && ZeroOrPresent(fb, s.pageTables)
    && FreeIsTail(cfg.NumFrames(), s.freeFrames)
    && InUseBelow(fb, s.pageTables, cfg.NumFrames() - |s.freeFrames|)
    && Exclusive(fb, s.pageTables)
    && |PresentCells(fb, s.pageTables)| + |s.freeFrames| == cfg.NumFrames()
    && AgesBelow(s.agingR, Pow2(AgingBits))
  }

  lemma InitInv(cfg: Config)
    requires cfg.Valid()
    ensures Inv(cfg, Init(cfg))
  {
    var s := Init(cfg);
    ZeroEntry(cfg.FrameBits());
    PresentCellsMembers(cfg.FrameBits(), s.pageTables);
    assert PresentCells(cfg.FrameBits(), s.pageTables) == {};
  }

  /** Loading a non-present page into a frame no present page occupies keeps
      the table invariants and adds the page to the present set. */
  lemma LoadTable(frameBits: nat, t: seq<seq<nat>>, c: Cell, e: nat)
    requires IsCell(t, c) && !PresentAt(frameBits, t, c)
    requires GetPresent(frameBits, e) == 1
    requires ZeroOrPresent(frameBits, t) && Exclusive(frameBits, t)
    requires forall d :: PresentAt(frameBits, t, d) ==> FrameAt(frameBits, t, d) != GetFrameNum(frameBits, e)
    ensures var t' := SetEntry(t, c, e);
      && ZeroOrPresent(frameBits, t')
      && Exclusive(frameBits, t')
      && PresentCells(frameBits, t') == PresentCells(frameBits, t) + {c}
      && c !in PresentCells(frameBits, t)
      && forall d :: PresentAt(frameBits, t', d) ==> d == c || (PresentAt(frameBits, t, d) && FrameAt(frameBits, t', d) == FrameAt(frameBits, t, d))
  {
    var t' := SetEntry(t, c, e);
    PresentCellsSetEntry(frameBits, t, c, e);
    PresentCellsMembers(frameBits, t);
    forall d | IsCell(t', d) ensures IsCell(t, d) {}
    forall d | PresentAt(frameBits, t', d) && d != c
      ensures PresentAt(frameBits, t, d) && FrameAt(frameBits, t', d) == FrameAt(frameBits, t, d)
    {
    }
    forall d1, d2 | PresentAt(frameBits, t', d1) && PresentAt(frameBits, t', d2) && d1 != d2
      ensures FrameAt(frameBits, t', d1) != FrameAt(frameBits, t', d2)
    {
      if d1 != c && d2 != c {
        assert PresentAt(frameBits, t, d1) && PresentAt(frameBits, t, d2);
      }
    }
  }

  /** Taking the first free frame keeps the invariant; that frame is the lowest
      free one and no present page occupies it. */
  lemma LoadFreeInv(cfg: Config, s: State, c: Cell)
    requires cfg.Valid() && Inv(cfg, s) && IsCell(s.pageTables, c) && !PresentAt(cfg.FrameBits(), s.pageTables, c)
    requires |s.freeFrames| > 0
    ensures Inv(cfg, LoadFree(cfg, s, c).state)
    ensures forall k :: 0 <= k < |s.freeFrames| ==> LoadFree(cfg, s, c).frameNum <= s.freeFrames[k]
    ensures forall d :: PresentAt(cfg.FrameBits(), s.pageTables, d) ==>
      FrameAt(cfg.FrameBits(), s.pageTables, d) != LoadFree(cfg, s, c).frameNum
  {
    var fb := cfg.FrameBits();
    var t := s.pageTables;
    var r := LoadFree(cfg, s, c);
    var f0 := s.freeFrames[0];
    var e := LoadedEntry(fb, EntryAt(t, c), f0);
    assert r.state.pageTables == SetEntry(t, c, e);
    LoadTable(fb, t, c, e);
    assert FreeIsTail(cfg.NumFrames(), r.state.freeFrames);
    assert InUseBelow(fb, r.state.pageTables, cfg.NumFrames() - |r.state.freeFrames|);
  }

  /** Zeroing the entry of a present page keeps the table invariants, drops the
      page from the present set, and leaves every remaining present page on its
      frame, which differs from the unloaded page's. */
  lemma UnloadTable(frameBits: nat, t: seq<seq<nat>>, v: Cell)
    requires PresentAt(frameBits, t, v) && ZeroOrPresent(frameBits, t) && Exclusive(frameBits, t)
    ensures var u := SetEntry(t, v, 0);
      && ZeroOrPresent(frameBits, u)
      && Exclusive(frameBits, u)
      && PresentCells(frameBits, u) == PresentCells(frameBits, t) - {v}
      && v in PresentCells(frameBits, t)
      && forall d :: PresentAt(frameBits, u, d) ==> FrameAt(frameBits, u, d) != FrameAt(frameBits, t, v)
  {
    var u := SetEntry(t, v, 0);
    ZeroEntry(frameBits);
    PresentCellsSetEntry(frameBits, t, v, 0);
    PresentCellsMembers(frameBits, t);
    forall d | IsCell(u, d) ensures IsCell(t, d) {}
    forall d | PresentAt(frameBits, u, d)
      ensures d != v && PresentAt(frameBits, t, d) && FrameAt(frameBits, u, d) == FrameAt(frameBits, t, d)
    {
    }
  }

  /** Evicting v and loading c into its frame keeps the table invariants and
      trades v for c in the present set. */
  lemma EvictTable(frameBits: nat, t: seq<seq<nat>>, v: Cell, c: Cell)
    requires PresentAt(frameBits, t, v) && IsCell(t, c) && !PresentAt(frameBits, t, c)
    requires ZeroOrPresent(frameBits, t) && Exclusive(frameBits, t)
    ensures var evicted := SetEntry(t, v, 0);
      var t' := SetEntry(evicted, c, LoadedEntry(frameBits, EntryAt(evicted, c), FrameAt(frameBits, t, v)));
      && ZeroOrPresent(frameBits, t')
      && Exclusive(frameBits, t')
      && |PresentCells(frameBits, t')| == |PresentCells(frameBits, t)|
  {
    var evicted := SetEntry(t, v, 0);
    var e := LoadedEntry(frameBits, EntryAt(evicted, c), FrameAt(frameBits, t, v));
    UnloadTable(frameBits, t, v);
    assert IsCell(evicted, c) && !PresentAt(frameBits, evicted, c);
    LoadTable(frameBits, evicted, c, e);
    var cells := PresentCells(frameBits, t);
    assert |cells - {v}| == |cells| - 1;
    assert |cells - {v} + {c}| == |cells - {v}| + 1;
  }

  /** Giving a present page's frame to a page that is not present keeps the
      invariant when no frame is free. */
  lemma EvictInv(cfg: Config, s: State, c: Cell, v: Cell)
    requires cfg.Valid() && Inv(cfg, s) && IsCell(s.pageTables, c) && !PresentAt(cfg.FrameBits(), s.pageTables, c)
    requires PresentAt(cfg.FrameBits(), s.pageTables, v) && |s.freeFrames| == 0
    ensures Inv(cfg, Evict(cfg, s, c, v).state)
  {
    var fb := cfg.FrameBits();
    var t := s.pageTables;
    var r := Evict(cfg, s, c, v);
    EvictTable(fb, t, v, c);
    var evicted := SetEntry(t, v, 0);
    assert r.state.pageTables == SetEntry(evicted, c, LoadedEntry(fb, EntryAt(evicted, c), FrameAt(fb, t, v)));
    FramesInRange(fb, r.state.pageTables);
  }

  /** Evicting keeps the invariant: with no free frame every frame is occupied,
      so some page is present and the victim is the present page with the
      smallest (counter, frame number); it is not the faulting page. */
  lemma LoadEvictingInv(cfg: Config, s: State, c: Cell)
    requires cfg.Valid() && Inv(cfg, s) && IsCell(s.pageTables, c) && !PresentAt(cfg.FrameBits(), s.pageTables, c)
    requires |s.freeFrames| == 0
    ensures var r := LoadEvicting(cfg, s, c);
      && Inv(cfg, r.state)
      && PresentAt(cfg.FrameBits(), s.pageTables, r.removed.value)
      && r.removed.value != c
      && forall d :: PresentAt(cfg.FrameBits(), s.pageTables, d) ==>
           NoYounger(cfg.FrameBits(), s.pageTables, s.agingR, r.removed.value, d)
  {
    var fb := cfg.FrameBits();
    var t := s.pageTables;
    var v := Victim(fb, t, s.agingR);
    PresentCellsMembers(fb, t);
    assert |PresentCells(fb, t)| >= 1;
    var w :| w in PresentCells(fb, t);
    assert PresentAt(fb, t, w);
    VictimSpec(fb, t, s.agingR);
    EvictInv(cfg, s, c, v);
    EvictEntries(cfg, s, c, v);
  }

  /** A fault keeps the invariant. */
  lemma HandleFaultInv(cfg: Config, s: State, c: Cell)
    requires cfg.Valid() && Inv(cfg, s) && IsCell(s.pageTables, c) && !PresentAt(cfg.FrameBits(), s.pageTables, c)
    ensures Inv(cfg, HandleFault(cfg, s, c).state)
  {
    if |s.freeFrames| > 0 { LoadFreeInv(cfg, s, c); } else { LoadEvictingInv(cfg, s, c); }
  }

  /** A change that keeps every page's presence and frame, leaves non-present
      entries zero and counters in range keeps the invariant. */
  lemma RemapInv(cfg: Config, s: State, s': State)
    requires cfg.Valid() && Inv(cfg, s)
    requires SameMapping(cfg.FrameBits(), s.pageTables, s'.pageTables)
    requires ZeroOrPresent(cfg.FrameBits(), s'.pageTables)
    requires s'.freeFrames == s.freeFrames && |s'.agingR| == |s.agingR|
    requires AgesBelow(s'.agingR, Pow2(AgingBits))
    ensures Inv(cfg, s')
  {
    var fb := cfg.FrameBits();
    SameMappingExclusive(fb, s.pageTables, s'.pageTables);
    PresentCellsMembers(fb, s.pageTables);
    PresentCellsMembers(fb, s'.pageTables);
    assert PresentCells(fb, s'.pageTables) == PresentCells(fb, s.pageTables);
  }

  /** Setting the referenced and modified bits of a present page keeps the
      invariant. */
  lemma TouchInv(cfg: Config, s: State, c: Cell, command: char)
    requires cfg.Valid() && Inv(cfg, s) && PresentAt(cfg.FrameBits(), s.pageTables, c)
    ensures Inv(cfg, s.(pageTables := Touch(cfg.FrameBits(), s.pageTables, c, command)))
  {
    var fb := cfg.FrameBits();
    var u := Touch(fb, s.pageTables, c, command);
    assert SameMapping(fb, s.pageTables, u);
    forall d | IsCell(u, d) ensures IsCell(s.pageTables, d) {}
    RemapInv(cfg, s, s.(pageTables := u));
  }

  /** The aging refresh keeps the invariant. */
  lemma RefreshInv(cfg: Config, s: State)
    requires cfg.Valid() && Inv(cfg, s)
    ensures var r := Refresh(cfg.FrameBits(), s.pageTables, s.agingR);
      Inv(cfg, s.(pageTables := r.0, agingR := r.1))
  {
    var fb := cfg.FrameBits();
    var r := Refresh(fb, s.pageTables, s.agingR);
    RefreshSpec(fb, s.pageTables, s.agingR);
    forall d | IsCell(r.0, d) ensures IsCell(s.pageTables, d) {
      RefreshedEntryFields(fb, EntryAt(s.pageTables, d));
    }
    forall f | 0 <= f < |r.1| ensures r.1[f] < Pow2(AgingBits) {
      if exists c :: PresentAt(fb, s.pageTables, c) && FrameAt(fb, s.pageTables, c) == f {
        var c :| PresentAt(fb, s.pageTables, c) && FrameAt(fb, s.pageTables, c) == f;
        assert r.1[f] == NextAge(s.agingR[f], GetReferenced(fb, EntryAt(s.pageTables, c)));
      }
    }
    RemapInv(cfg, s, s.(pageTables := r.0, agingR := r.1));
  }

  /** After the page at c is present: touching it and the optional refresh keep
      the invariant. */
  lemma FinishInv(cfg: Config, s: State, c: Cell, command: char, n: nat)
    requires cfg.Valid() && Inv(cfg, s) && PresentAt(cfg.FrameBits(), s.pageTables, c)
    ensures Inv(cfg, Finish(cfg.FrameBits(), s, c, command, n))
  {
    var fb := cfg.FrameBits();
    var touched := Touch(fb, s.pageTables, c, command);
    TouchInv(cfg, s, c, command);
    if n % RefreshPeriod == 0 { RefreshInv(cfg, s.(pageTables := touched)); }
  }

  /** Every access that is in range keeps the invariant. */
  lemma StepInv(cfg: Config, s: State, a: Access)
    requires cfg.Valid() && Inv(cfg, s) && InRange(cfg, a)
    ensures Inv(cfg, Step(cfg, s, a).value.0)
  {
    var fb := cfg.FrameBits();
    var c := Cell(a.process, SplitAddress(cfg.pageBits, a.virMemLoc).0);
    var f := Resolve(cfg, s, c);
    var s' := Finish(fb, f.state, c, a.command, s.numInstructions + 1);
    assert Step(cfg, s, a).value.0 == s';
    assert Inv(cfg, f.state) by {
      if !PresentAt(fb, s.pageTables, c) { HandleFaultInv(cfg, s, c); }
    }
    FinishInv(cfg, f.state, c, a.command, s.numInstructions + 1);
  }

  /** Under the invariant a fault takes the lowest-numbered free frame, which no
      present page occupies; with no free frame it evicts another page, a present
      one that no present page beats on (counter, frame number), unloads it, and
      reports a write-back exactly when that page was modified. */
  lemma FaultChoice(cfg: Config, s: State, a: Access)
    requires cfg.Valid() && Inv(cfg, s) && InRange(cfg, a)
    ensures var (s', tr) := Step(cfg, s, a).value;
      var fb := cfg.FrameBits();
      var t := s.pageTables;
      var c := Cell(a.process, tr.pageNum);
      && (tr.pageFault && |s.freeFrames| > 0 ==>
            && tr.removed == None && !tr.writeBack
            && tr.frameNum == s.freeFrames[0]
            && s'.freeFrames == s.freeFrames[1..]
            && (forall k :: 0 <= k < |s.freeFrames| ==> tr.frameNum <= s.freeFrames[k])
            && (forall d :: PresentAt(fb, t, d) ==> FrameAt(fb, t, d) != tr.frameNum))
      && (tr.pageFault && |s.freeFrames| == 0 ==>
            && tr.removed.Some? && tr.removed.value != c
            && PresentAt(fb, t, tr.removed.value)
            && tr.frameNum == FrameAt(fb, t, tr.removed.value)
            && (tr.writeBack <==> GetModified(fb, EntryAt(t, tr.removed.value)) == 1)
            && !PresentAt(fb, s'.pageTables, tr.removed.value)
            && (forall d :: PresentAt(fb, t, d) ==> NoYounger(fb, t, s.agingR, tr.removed.value, d)))
  {
    var fb := cfg.FrameBits();
    var c := Cell(a.process, SplitAddress(cfg.pageBits, a.virMemLoc).0);
    if !PresentAt(fb, s.pageTables, c) {
      if |s.freeFrames| > 0 {
        LoadFreeInv(cfg, s, c);
      } else {
        LoadEvictingInv(cfg, s, c);
        var f := LoadEvicting(cfg, s, c);
        var v := f.removed.value;
        EvictEntries(cfg, s, c, v);
        ZeroEntry(fb);
        assert !PresentAt(fb, f.state.pageTables, v);
        var s' := Finish(fb, f.state, c, a.command, s.numInstructions + 1);
        assert IsCell(s'.pageTables, v) && !PresentAt(fb, s'.pageTables, v);
      }
    }
  }

  // ---------------------------------------------------------------------------
  // The whole trace
  // ---------------------------------------------------------------------------

  /** The access loop over a trace: the final state and one translation per
      access, or the error of the first access that fails. */
  function Run(cfg: Config, s: State, trace: seq<Access>): (r: Result<(State, seq<Translation>), Error>)
    requires cfg.Valid() && Shaped(cfg, s)
    ensures r.Ok? ==> Shaped(cfg, r.value.0) && |r.value.1| == |trace|
    ensures r.Ok? ==> r.value.0.numInstructions == s.numInstructions + |trace|
    decreases |trace|
  {
    if |trace| == 0 then Ok((s, []))
    else
      match Step(cfg, s, trace[0])
      case Err(e) => Err(e)
      case Ok(first) =>
        match Run(cfg, first.0, trace[1..])
        case Err(e) => Err(e)
        case Ok(rest) => Ok((rest.0, [first.1] + rest.1))
  }

  /** A trace fails exactly when one of its accesses is out of range. */
  lemma {:induction false} RunErrors(cfg: Config, s: State, trace: seq<Access>)
    requires cfg.Valid() && Shaped(cfg, s)
    ensures Run(cfg, s, trace).Err? <==> exists k :: 0 <= k < |trace| && !InRange(cfg, trace[k])
    decreases |trace|
  {
    if |trace| > 0 {
      var r := Step(cfg, s, trace[0]);
      if r.Ok? {
        RunErrors(cfg, r.value.0, trace[1..]);
        if exists k :: 0 <= k < |trace| && !InRange(cfg, trace[k]) {
          var k :| 0 <= k < |trace| && !InRange(cfg, trace[k]);
          assert k > 0 && !InRange(cfg, trace[1..][k - 1]);
        }
        if exists k :: 0 <= k < |trace| - 1 && !InRange(cfg, trace[1..][k]) {
          var k :| 0 <= k < |trace| - 1 && !InRange(cfg, trace[1..][k]);
          assert !InRange(cfg, trace[k + 1]);
        }
      }
    }
  }

  /** The invariant holds after every trace that runs to the end. */
  lemma {:induction false} RunInv(cfg: Config, s: State, trace: seq<Access>)
    requires cfg.Valid() && Inv(cfg, s) && Run(cfg, s, trace).Ok?
    ensures Inv(cfg, Run(cfg, s, trace).value.0)
    decreases |trace|
  {
    if |trace| > 0 {
      StepInv(cfg, s, trace[0]);
      RunInv(cfg, Step(cfg, s, trace[0]).value.0, trace[1..]);
    }
  }
}
