/** The codec of the inverted page table's entries.

    An entry is laid out, from the least significant bit, as
    `[pageField bits: page][processBits bits: process][present][referenced][modified]`.
    The flags sit where `PageTableDecoder` puts them above a field of
    `processBits + pageField` bits, so the flag accessors of that module are used
    with `FlagBase()` as their field width. The width of the page field is a
    parameter: the simulator passes the page-OFFSET width (`pageBits`) where a page
    NUMBER needs `virBits - pageBits` bits (see `InvertedPageTable.AsWrittenLayout`). */
module InvertedPageTableDecoder {
  import opened Bits
  import opened PageTableDecoder

  /** The widths of the process and page fields of an entry. */
  datatype Layout = Layout(processBits: nat, pageField: nat)
  {
    /** The position of the present flag: the two key fields lie below it. */
    function FlagBase(): nat { processBits + pageField }
  }

  /** The key of the frame lookup: a process and one of its virtual pages. */
  datatype Key = Key(process: nat, page: nat)

  /** The key fits the layout: neither number spills out of its field. */
  predicate Fits(l: Layout, k: Key)
  {
    k.process < Pow2(l.processBits) && k.page < Pow2(l.pageField)
  }

  /** `(entry >> pageBits) & ((1 << processBits) - 1)` */
  function GetProcessNum(l: Layout, entry: nat): (p: nat)
    ensures p < Pow2(l.processBits)
  {
    ProcessFieldDigits(l, entry);
    BelowPow2(And(Shr(entry, l.pageField), LowMask(l.processBits)), l.processBits);
    And(Shr(entry, l.pageField), LowMask(l.processBits))
  }

  /** The process field is the `processBits` digits above the page field. */
  lemma ProcessFieldDigits(l: Layout, entry: nat)
    ensures forall j: nat :: (Bit(And(Shr(entry, l.pageField), LowMask(l.processBits)), j)
      == if j < l.processBits then Bit(entry, l.pageField + j) else 0)
  {
    forall j: nat ensures Bit(And(Shr(entry, l.pageField), LowMask(l.processBits)), j)
      == if j < l.processBits then Bit(entry, l.pageField + j) else 0
    {
      BitAnd(Shr(entry, l.pageField), LowMask(l.processBits), j);
      BitLowMask(l.processBits, j);
      BitShr(entry, l.pageField, j);
      BitIsBit(entry, l.pageField + j);
    }
  }

  /** `entry & ((1 << pageBits) - 1)` */
  function GetPageNum(l: Layout, entry: nat): (g: nat)
    ensures g < Pow2(l.pageField)
  {
    FrameFieldDigits(l.pageField, entry);
    BelowPow2(And(entry, LowMask(l.pageField)), l.pageField);
    And(entry, LowMask(l.pageField))
  }

  /** The digits of both key fields, read from the entry. */
  lemma KeyDigits(l: Layout, entry: nat)
    ensures forall j: nat :: Bit(GetProcessNum(l, entry), j) == if j < l.processBits then Bit(entry, l.pageField + j) else 0
    ensures forall j: nat :: Bit(GetPageNum(l, entry), j) == if j < l.pageField then Bit(entry, j) else 0
  {
    ProcessFieldDigits(l, entry);
    FrameFieldDigits(l.pageField, entry);
  }

  /** The key an entry names: what the eviction path reads back before deleting
      the key from the lookup. */
  function Decode(l: Layout, entry: nat): (k: Key)
    ensures Fits(l, k)
  {
    Key(GetProcessNum(l, entry), GetPageNum(l, entry))
  }

  /** The key depends only on the bits below the flags. */
  lemma DecodeLowBits(l: Layout, x: nat, y: nat)
    requires forall j: nat :: j < l.FlagBase() ==> Bit(x, j) == Bit(y, j)
    ensures Decode(l, x) == Decode(l, y)
  {
    var px, py := GetProcessNum(l, x), GetProcessNum(l, y);
    KeyDigits(l, x);
    KeyDigits(l, y);
    forall j: nat ensures Bit(px, j) == Bit(py, j) {
      if j < l.processBits { assert l.pageField + j < l.FlagBase(); }
    }
    BitsEqual(px, py);
    var gx, gy := GetPageNum(l, x), GetPageNum(l, y);
    assert forall j: nat :: Bit(gx, j) == Bit(gy, j);
    BitsEqual(gx, gy);
  }

  /** Two entries whose low `FlagBase()` bits agree (what every flag mutator of
      `PageTableDecoder` guarantees through `OthersUnchanged`) name the same key. */
  lemma DecodeKeyField(l: Layout, x: nat, y: nat)
    requires GetFrameNum(l.FlagBase(), x) == GetFrameNum(l.FlagBase(), y)
    ensures Decode(l, x) == Decode(l, y)
  {
    var fx := GetFrameNum(l.FlagBase(), x);
    FrameNumDigits(l.FlagBase(), x);
    FrameNumDigits(l.FlagBase(), y);
    forall j: nat | j < l.FlagBase() ensures Bit(x, j) == Bit(y, j) {
      assert Bit(fx, j) == Bit(x, j);
    }
    DecodeLowBits(l, x, y);
  }

  /** The digits of `replaceProcessPage`: the page number is ORed into the low
      bits and the shifted process number above them, both unmasked, over an
      entry whose two key fields were cleared. */
  lemma ReplaceDigits(l: Layout, entry: nat, processNum: nat, pageNum: nat, j: nat)
    ensures
      var w := l.pageField;
      var cleared := AndNot(AndNot(entry, Shl(LowMask(l.processBits), w)), LowMask(w));
      var e := Or(Or(cleared, Shl(processNum, w)), pageNum);
      && Bit(cleared, j) == (if j < l.FlagBase() then 0 else Bit(entry, j))
      && Bit(e, j) == if Bit(cleared, j) == 1 || (j >= w && Bit(processNum, j - w) == 1) || Bit(pageNum, j) == 1 then 1 else 0
  {
    var w := l.pageField;
    var t1 := AndNot(entry, Shl(LowMask(l.processBits), w));
    var cleared := AndNot(t1, LowMask(w));
    BitAndNot(t1, LowMask(w), j);
    BitLowMask(w, j);
    BitAndNot(entry, Shl(LowMask(l.processBits), w), j);
    BitShl(LowMask(l.processBits), w, j);
    if j >= w { BitLowMask(l.processBits, j - w); }
    BitIsBit(entry, j);
    BitOr(Or(cleared, Shl(processNum, w)), pageNum, j);
    BitOr(cleared, Shl(processNum, w), j);
    BitShl(processNum, w, j);
  }

  /** `temp | (processNum << pageBits) | pageNum` over the entry with both key
      fields cleared. The low `pageField` bits are always the page number's; when
      the key fits, the entry names exactly that key and keeps every bit from the
      flags upwards. */
  function ReplaceProcessPage(l: Layout, entry: nat, processNum: nat, pageNum: nat): (e: nat)
    ensures GetPageNum(l, e) == GetPageNum(l, pageNum)
    ensures Fits(l, Key(processNum, pageNum)) ==> Decode(l, e) == Key(processNum, pageNum)
    ensures Fits(l, Key(processNum, pageNum)) ==> forall j: nat :: j >= l.FlagBase() ==> Bit(e, j) == Bit(entry, j)
  {
    var w := l.pageField;
    var cleared := AndNot(AndNot(entry, Shl(LowMask(l.processBits), w)), LowMask(w));
    var e := Or(Or(cleared, Shl(processNum, w)), pageNum);
    forall j: nat | j < w ensures Bit(e, j) == Bit(pageNum, j) {
      ReplaceDigits(l, entry, processNum, pageNum, j);
      BitIsBit(pageNum, j);
    }
    var ge, gp := GetPageNum(l, e), GetPageNum(l, pageNum);
    KeyDigits(l, e);
    KeyDigits(l, pageNum);
    assert forall j: nat :: Bit(ge, j) == Bit(gp, j);
    BitsEqual(ge, gp);
    ReplaceFits(l, entry, processNum, pageNum);
    e
  }

  /** The fitting case of `ReplaceProcessPage`, digit by digit. */
  lemma ReplaceFits(l: Layout, entry: nat, processNum: nat, pageNum: nat)
    ensures
      var w := l.pageField;
      var e := Or(Or(AndNot(AndNot(entry, Shl(LowMask(l.processBits), w)), LowMask(w)), Shl(processNum, w)), pageNum);
      Fits(l, Key(processNum, pageNum)) ==>
        && Decode(l, e) == Key(processNum, pageNum)
        && forall j: nat :: j >= l.FlagBase() ==> Bit(e, j) == Bit(entry, j)
  {
    var w := l.pageField;
    var e := Or(Or(AndNot(AndNot(entry, Shl(LowMask(l.processBits), w)), LowMask(w)), Shl(processNum, w)), pageNum);
    if Fits(l, Key(processNum, pageNum)) {
      BelowPow2(processNum, l.processBits);
      BelowPow2(pageNum, w);
      forall j: nat ensures Bit(e, j) == if j < w then Bit(pageNum, j) else if j < l.FlagBase() then Bit(processNum, j - w) else Bit(entry, j) {
        ReplaceDigits(l, entry, processNum, pageNum, j);
        BitIsBit(pageNum, j);
        BitIsBit(entry, j);
        if j >= w { BitIsBit(processNum, j - w); }
      }
      var p := GetProcessNum(l, e);
      KeyDigits(l, e);
      forall j: nat ensures Bit(p, j) == Bit(processNum, j) {
        if j < l.processBits { assert Bit(e, w + j) == Bit(processNum, j); }
      }
      BitsEqual(p, processNum);
      var g := GetPageNum(l, e);
      assert forall j: nat :: Bit(g, j) == Bit(pageNum, j);
      BitsEqual(g, pageNum);
    }
  }

  /** Writing back the key an entry already names returns the entry. */
  lemma ProcessPageRoundTrip(l: Layout, entry: nat)
    ensures ReplaceProcessPage(l, entry, GetProcessNum(l, entry), GetPageNum(l, entry)) == entry
  {
    var k := Decode(l, entry);
    var e := ReplaceProcessPage(l, entry, k.process, k.page);
    var w := l.pageField;
    KeyDigits(l, entry);
    forall j: nat ensures Bit(e, j) == Bit(entry, j) {
      ReplaceDigits(l, entry, k.process, k.page, j);
      BitIsBit(entry, j);
      if j >= w {
        BitIsBit(k.process, j - w);
        if j < l.FlagBase() { assert Bit(k.process, j - w) == Bit(entry, w + (j - w)); }
      }
    }
    BitsEqual(e, entry);
  }

  /** The flag mutators (with the flags above both key fields) leave the key alone. */
  lemma FlagsKeepKey(l: Layout, entry: nat)
    ensures Decode(l, SetModified(l.FlagBase(), entry)) == Decode(l, entry)
    ensures Decode(l, SetReferenced(l.FlagBase(), entry)) == Decode(l, entry)
    ensures Decode(l, SetPresent(l.FlagBase(), entry)) == Decode(l, entry)
    ensures Decode(l, ClearModified(l.FlagBase(), entry)) == Decode(l, entry)
    ensures Decode(l, ClearReferenced(l.FlagBase(), entry)) == Decode(l, entry)
  {
    var fb := l.FlagBase();
    DecodeKeyField(l, SetModified(fb, entry), entry);
    DecodeKeyField(l, SetReferenced(fb, entry), entry);
    DecodeKeyField(l, SetPresent(fb, entry), entry);
    DecodeKeyField(l, ClearModified(fb, entry), entry);
    DecodeKeyField(l, ClearReferenced(fb, entry), entry);
  }
}

/** The inverted-page-table simulator.

    One entry and one aging counter per FRAME; the entry names the (process, page)
    held in the frame, and a dictionary from (process, page) to frame replaces the
    table walk. A fault takes the first free frame, or else the frame with the
    smallest counter (the lowest such frame), whose key is read back from its entry
    and deleted from the dictionary. The simulator hard-codes two processes, so
    the process field is one bit wide. */
module InvertedPageTable {
  import opened Bits
  import opened PageTableDecoder
  import opened InvertedPageTableDecoder
  import opened Results
  import opened Arith
  import PT = PageTable
  import SP = SinglePageTable

  /** `numProcesses = 2` and `processBits = ceil(log2(numProcesses))`. */
  const NumProcesses: nat := 2
  const ProcessBits: nat := 1

  /** The entry layout the simulator builds: the page field as wide as a page
      OFFSET. */
  function AsWrittenLayout(cfg: PT.Config): Layout
  {
    Layout(ProcessBits, cfg.pageBits)
  }

  /** The layout a page number needs: `virBits - pageBits` bits. */
  function CorrectedLayout(cfg: PT.Config): Layout
  {
    Layout(ProcessBits, cfg.PageNumberBits())
  }

  /** The entries and counters per frame, the free list, the frame lookup and the
      access count. */
  datatype State = State(
    table: seq<nat>,
    agingR: seq<nat>,
    freeFrames: seq<nat>,
    lookup: map<Key, nat>,
    numInstructions: nat)

  /** `del frameLookup[(oldProcess, oldPage)]` raised `KeyError`: the evicted
      frame's entry names a key the lookup does not hold. */
  datatype Error = MissingKey

  /** What one access reports (see `PageTable.Translation`); the evicted page is
      the key read back from the victim frame's entry. */
  datatype Translation = Translation(
    pageNum: nat,
    offset: nat,
    frameNum: nat,
    phyMemLoc: nat,
    pageFault: bool,
    removed: Option<Key>,
    writeBack: bool,
    agingUpdate: bool)

  predicate Shaped(cfg: PT.Config, s: State)
    requires cfg.Valid()
  {
    && |s.table| == cfg.NumFrames()
    && |s.agingR| == cfg.NumFrames()
    && (forall k :: 0 <= k < |s.freeFrames| ==> s.freeFrames[k] < cfg.NumFrames())
    && (forall k :: k in s.lookup ==> s.lookup[k] < cfg.NumFrames())
  }

  /** Zeroed entries and counters, every frame free, an empty lookup. */
  function Init(cfg: PT.Config): (s: State)
    requires cfg.Valid()
    ensures Shaped(cfg, s)
    ensures forall f :: 0 <= f < |s.table| ==> s.table[f] == 0 && s.agingR[f] == 0
    ensures forall k :: 0 <= k < |s.freeFrames| ==> s.freeFrames[k] == k
    ensures |s.freeFrames| == cfg.NumFrames() && s.lookup == map[] && s.numInstructions == 0
  {
    State(seq(cfg.NumFrames(), _ => 0), seq(cfg.NumFrames(), _ => 0), seq(cfg.NumFrames(), k => k), map[], 0)
  }

  // ---------------------------------------------------------------------------
  // Victim selection: `min(range(numFrames), key=lambda i: agingR[i])`
  // ---------------------------------------------------------------------------

  /** `min` over frames i.. with the smallest counter so far at `best`; a later
      frame replaces it only with a strictly smaller counter. */
  function OldestFrom(ages: seq<nat>, i: nat, best: nat): (v: nat)
    requires best < i <= |ages|
    ensures v < |ages|
    decreases |ages| - i
  {
    if i == |ages| then best
    else OldestFrom(ages, i + 1, if ages[i] < ages[best] then i else best)
  }

  function Oldest(ages: seq<nat>): (v: nat)
    requires |ages| > 0
    ensures v < |ages|
  {
    OldestFrom(ages, 1, 0)
  }

  /** v holds the smallest counter, and every frame before it a larger one. */
  ghost predicate FirstMinimum(ages: seq<nat>, v: nat)
  {
    && v < |ages|
    && (forall k :: 0 <= k < |ages| ==> ages[v] <= ages[k])
    && (forall k :: 0 <= k < v ==> ages[v] < ages[k])
  }

  lemma {:induction false} OldestFromSpec(ages: seq<nat>, i: nat, best: nat)
    requires best < i <= |ages|
    requires forall k :: 0 <= k < i ==> ages[best] <= ages[k]
    requires forall k :: 0 <= k < best ==> ages[best] < ages[k]
    ensures FirstMinimum(ages, OldestFrom(ages, i, best))
    decreases |ages| - i
  {
    if i < |ages| {
      OldestFromSpec(ages, i + 1, if ages[i] < ages[best] then i else best);
    }
  }

  /** The victim is the lowest-numbered frame with the smallest counter, and no
      other frame is. */
  lemma OldestIsFirstMinimum(ages: seq<nat>, v: nat)
    requires |ages| > 0
    ensures FirstMinimum(ages, v) <==> v == Oldest(ages)
  {
    OldestFromSpec(ages, 1, 0);
  }

  // ---------------------------------------------------------------------------
  // One access
  // ---------------------------------------------------------------------------

  /** The frame an access ends up in, the state after a fault is handled (before
      the referenced/modified bits are set), the key unloaded and whether the
      frame was written back. */
  datatype Fault = Fault(state: State, frameNum: nat, removed: Option<Key>, writeBack: bool)

  /** The lookup hit, or the fault: the first free frame, or else the oldest frame,
      whose key is read back and deleted from the lookup (or the `KeyError`); the
      frame gets an entry built from 0 naming the key, and the counter 255. */
  function Resolve(l: Layout, cfg: PT.Config, s: State, key: Key): (r: Result<Fault, Error>)
    requires cfg.Valid() && Shaped(cfg, s)
    ensures r.Err? <==> key !in s.lookup && |s.freeFrames| == 0 && Decode(l, s.table[Oldest(s.agingR)]) !in s.lookup
    ensures r.Err? ==> r.error == MissingKey
    ensures r.Ok? ==>
      var f := r.value;
      && Shaped(cfg, f.state) && f.state.numInstructions == s.numInstructions
      && key in f.state.lookup && f.state.lookup[key] == f.frameNum
      && (key in s.lookup ==> f == Fault(s, s.lookup[key], None, false))
      && (key !in s.lookup ==>
            && f.state.table == s.table[f.frameNum := ReplaceProcessPage(l, 0, key.process, key.page)]
            && f.state.agingR == s.agingR[f.frameNum := PT.MaxAge()])
      && (key !in s.lookup && |s.freeFrames| > 0 ==>
            && f.frameNum == s.freeFrames[0] && f.state.freeFrames == s.freeFrames[1..]
            && f.state.lookup == s.lookup[key := f.frameNum]
            && f.removed == None && !f.writeBack)
      && (key !in s.lookup && |s.freeFrames| == 0 ==>
            var gone := Decode(l, s.table[f.frameNum]);
            && f.frameNum == Oldest(s.agingR) && f.state.freeFrames == []
            && f.removed == Some(gone)
            && (f.writeBack <==> GetModified(l.FlagBase(), s.table[f.frameNum]) == 1)
            && f.state.lookup == (s.lookup - {gone})[key := f.frameNum])
  {
    if key in s.lookup then Ok(Fault(s, s.lookup[key], None, false))
    else if |s.freeFrames| > 0 then Ok(MissFree(l, cfg, s, key))
    else MissEvicting(l, cfg, s, key)
  }

  /** A miss served by the head of the free list. */
  function MissFree(l: Layout, cfg: PT.Config, s: State, key: Key): (f: Fault)
    requires cfg.Valid() && Shaped(cfg, s) && |s.freeFrames| > 0
    ensures Shaped(cfg, f.state) && f.state.numInstructions == s.numInstructions
    ensures f.frameNum == s.freeFrames[0] && f.state.freeFrames == s.freeFrames[1..]
    ensures f.state.lookup == s.lookup[key := f.frameNum]
    ensures f.state.table == s.table[f.frameNum := ReplaceProcessPage(l, 0, key.process, key.page)]
    ensures f.state.agingR == s.agingR[f.frameNum := PT.MaxAge()]
    ensures f.removed == None && !f.writeBack
  {
    var loaded := ReplaceProcessPage(l, 0, key.process, key.page);
    var fr := s.freeFrames[0];
    Fault(State(s.table[fr := loaded], s.agingR[fr := PT.MaxAge()], s.freeFrames[1..], s.lookup[key := fr], s.numInstructions),
          fr, None, false)
  }

  /** A miss with no free frame: the oldest frame's key is read back and deleted
      from the lookup, or `KeyError` when the lookup does not hold it. */
  function MissEvicting(l: Layout, cfg: PT.Config, s: State, key: Key): (r: Result<Fault, Error>)
    requires cfg.Valid() && Shaped(cfg, s)
    ensures r.Err? <==> Decode(l, s.table[Oldest(s.agingR)]) !in s.lookup
    ensures r.Err? ==> r.error == MissingKey
    ensures r.Ok? ==>
      var f := r.value;
      var v := Oldest(s.agingR);
      var gone := Decode(l, s.table[v]);
      && Shaped(cfg, f.state) && f.state.numInstructions == s.numInstructions
      && f.frameNum == v && f.state.freeFrames == []
      && f.state.table == s.table[v := ReplaceProcessPage(l, 0, key.process, key.page)]
      && f.state.agingR == s.agingR[v := PT.MaxAge()]
      && f.removed == Some(gone)
      && (f.writeBack <==> GetModified(l.FlagBase(), s.table[v]) == 1)
      && f.state.lookup == (s.lookup - {gone})[key := f.frameNum]
  {
    var loaded := ReplaceProcessPage(l, 0, key.process, key.page);
    var v := Oldest(s.agingR);
    var gone := Decode(l, s.table[v]);
    var writeBack := GetModified(l.FlagBase(), s.table[v]) == 1;
    if gone !in s.lookup then Err(MissingKey)
    else
      Ok(Fault(State(s.table[v := loaded], s.agingR[v := PT.MaxAge()], [], (s.lookup - {gone})[key := v], s.numInstructions),
               v, Some(gone), writeBack))
  }

  /** Set the referenced bit of frame f (and the modified bit on a write), then
      refresh every frame if this is the `RefreshPeriod`-th access. No key
      changes. */
  function Finish(l: Layout, s: State, f: nat, command: char, numInstructions: nat): (s': State)
    requires f < |s.table| && |s.agingR| == |s.table|
    ensures |s'.table| == |s.table| && |s'.agingR| == |s.agingR|
    ensures s'.freeFrames == s.freeFrames && s'.lookup == s.lookup && s'.numInstructions == numInstructions
    ensures forall i :: 0 <= i < |s.table| ==> Decode(l, s'.table[i]) == Decode(l, s.table[i])
    ensures GetReferenced(l.FlagBase(), s'.table[f]) == if numInstructions % PT.RefreshPeriod == 0 then 0 else 1
    ensures GetModified(l.FlagBase(), s'.table[f]) == if command == 'w' then 1 else GetModified(l.FlagBase(), s.table[f])
    ensures numInstructions % PT.RefreshPeriod != 0 ==>
      s'.agingR == s.agingR && forall i :: 0 <= i < |s.table| && i != f ==> s'.table[i] == s.table[i]
    ensures numInstructions % PT.RefreshPeriod == 0 ==> forall i :: 0 <= i < |s.table| ==>
      s'.agingR[i] == PT.NextAge(s.agingR[i], if i == f then 1 else GetReferenced(l.FlagBase(), s.table[i]))
    ensures (forall i :: 0 <= i < |s.agingR| ==> s.agingR[i] < Pow2(PT.AgingBits)) ==>
      forall i :: 0 <= i < |s'.agingR| ==> s'.agingR[i] < Pow2(PT.AgingBits)
  {
    var fb := l.FlagBase();
    var touched := SP.Touch(fb, s.table, f, command);
    assert forall i :: 0 <= i < |s.table| ==> GetFrameNum(fb, touched[i]) == GetFrameNum(fb, s.table[i]);
    forall i | 0 <= i < |s.table| ensures Decode(l, touched[i]) == Decode(l, s.table[i]) {
      DecodeKeyField(l, touched[i], s.table[i]);
    }
    if numInstructions % PT.RefreshPeriod == 0 then
      var r := SP.Refresh(fb, touched, s.agingR);
      forall i | 0 <= i < |s.table| ensures Decode(l, r.0[i]) == Decode(l, s.table[i]) {
        DecodeKeyField(l, r.0[i], touched[i]);
      }
      State(r.0, r.1, s.freeFrames, s.lookup, numInstructions)
    else
      State(touched, s.agingR, s.freeFrames, s.lookup, numInstructions)
  }

  /** The key an access asks for: its process and the page of its address. */
  function KeyOf(cfg: PT.Config, a: PT.Access): Key
  {
    Key(a.process, PT.SplitAddress(cfg.pageBits, a.virMemLoc).0)
  }

  /** The rest of an access once its fault is resolved: the physical address,
      the access bits, the optional refresh and the report. */
  function Assemble(l: Layout, cfg: PT.Config, s: State, a: PT.Access, f: Fault): (r: (State, Translation))
    requires cfg.Valid() && Shaped(cfg, s) && Resolve(l, cfg, s, KeyOf(cfg, a)) == Ok(f)
    ensures r.0 == Finish(l, f.state, f.frameNum, a.command, s.numInstructions + 1)
    ensures Shaped(cfg, r.0) && r.0.numInstructions == s.numInstructions + 1
  {
    var numInstructions := s.numInstructions + 1;
    var split := PT.SplitAddress(cfg.pageBits, a.virMemLoc);
    var pageNum, offset := split.0, split.1;
    var s' := Finish(l, f.state, f.frameNum, a.command, numInstructions);
    (s', Translation(pageNum, offset, f.frameNum, PT.PhysicalAddress(cfg.pageBits, f.frameNum, offset),
                     Key(a.process, pageNum) !in s.lookup, f.removed, f.writeBack, numInstructions % PT.RefreshPeriod == 0))
  }

  /** One iteration of the access loop. The process number and the address are
      taken as given: the simulator checks neither. */
  function Step(l: Layout, cfg: PT.Config, s: State, a: PT.Access): (r: Result<(State, Translation), Error>)
    requires cfg.Valid() && Shaped(cfg, s)
    ensures r.Err? <==>
      KeyOf(cfg, a) !in s.lookup && |s.freeFrames| == 0 && Decode(l, s.table[Oldest(s.agingR)]) !in s.lookup
    ensures r.Err? ==> r.error == MissingKey
    ensures r.Ok? ==> Shaped(cfg, r.value.0) && r.value.0.numInstructions == s.numInstructions + 1
    ensures r.Ok? ==>
      var res := Resolve(l, cfg, s, KeyOf(cfg, a));
      res.Ok? && r.value == Assemble(l, cfg, s, a, res.value)
  {
    var res := Resolve(l, cfg, s, KeyOf(cfg, a));
    if res.Err? then Err(res.error) else Ok(Assemble(l, cfg, s, a, res.value))
  }

  /** What a successful access reports: the address split and the physical
      address; a fault exactly when the key is absent; the key mapped to the
      reported frame; on a hit nothing moves; on a fault the first free frame, or
      else the oldest frame, whose key is removed and whose modified bit decides
      the write-back. */
  lemma StepTranslation(l: Layout, cfg: PT.Config, s: State, a: PT.Access)
    requires cfg.Valid() && Shaped(cfg, s) && Step(l, cfg, s, a).Ok?
    ensures
      var (s', tr) := Step(l, cfg, s, a).value;
      var key := KeyOf(cfg, a);
      && key == Key(a.process, tr.pageNum)
      && tr.offset < Pow2(cfg.pageBits)
      && tr.pageNum * Pow2(cfg.pageBits) + tr.offset == a.virMemLoc
      && tr.phyMemLoc == tr.frameNum * Pow2(cfg.pageBits) + tr.offset
      && tr.pageFault == (key !in s.lookup)
      && key in s'.lookup && s'.lookup[key] == tr.frameNum
      && (!tr.pageFault ==> tr.frameNum == s.lookup[key] && tr.removed == None && s'.lookup == s.lookup
                            && s'.freeFrames == s.freeFrames)
      && (tr.pageFault && |s.freeFrames| > 0 ==>
            tr.frameNum == s.freeFrames[0] && tr.removed == None && s'.freeFrames == s.freeFrames[1..])
      && (tr.pageFault && |s.freeFrames| == 0 ==>
            && tr.frameNum == Oldest(s.agingR)
            && tr.removed == Some(Decode(l, s.table[tr.frameNum]))
            && tr.removed.value !in s'.lookup
            && (tr.writeBack <==> GetModified(l.FlagBase(), s.table[tr.frameNum]) == 1))
  {
    var f := Resolve(l, cfg, s, KeyOf(cfg, a)).value;
    assert Step(l, cfg, s, a).value == Assemble(l, cfg, s, a, f);
  }

  /** What a successful access leaves in the table: a faulting key that fits is
      read back from its new entry, with M set only on a write; every other frame
      keeps its key; the refresh runs on every third access; a new frame's counter
      is 255 unless refreshed; R is set (or cleared by the refresh) and M is set
      on a write. */
  lemma StepEntry(l: Layout, cfg: PT.Config, s: State, a: PT.Access)
    requires cfg.Valid() && Shaped(cfg, s) && Step(l, cfg, s, a).Ok?
    ensures
      var (s', tr) := Step(l, cfg, s, a).value;
      var fb := l.FlagBase();
      var key := KeyOf(cfg, a);
      && tr.frameNum < |s.table|
      && (tr.pageFault && Fits(l, key) ==>
            && Decode(l, s'.table[tr.frameNum]) == key
            && GetModified(fb, s'.table[tr.frameNum]) == (if a.command == 'w' then 1 else 0))
      && (forall i :: 0 <= i < |s.table| && (!tr.pageFault || i != tr.frameNum) ==>
            Decode(l, s'.table[i]) == Decode(l, s.table[i]))
      && tr.agingUpdate == (s'.numInstructions % PT.RefreshPeriod == 0)
      && (tr.pageFault && !tr.agingUpdate ==> s'.agingR[tr.frameNum] == PT.MaxAge())
      && GetReferenced(fb, s'.table[tr.frameNum]) == (if tr.agingUpdate then 0 else 1)
      && (a.command == 'w' ==> GetModified(fb, s'.table[tr.frameNum]) == 1)
  {
    var key := KeyOf(cfg, a);
    var f := Resolve(l, cfg, s, key).value;
    assert Step(l, cfg, s, a).value == Assemble(l, cfg, s, a, f);
    FreshEntryFlags(l, key);
  }

  /** An entry built from 0 for a fitting key has its flags clear. */
  lemma FreshEntryFlags(l: Layout, key: Key)
    ensures Fits(l, key) ==>
      && GetModified(l.FlagBase(), ReplaceProcessPage(l, 0, key.process, key.page)) == 0
      && GetReferenced(l.FlagBase(), ReplaceProcessPage(l, 0, key.process, key.page)) == 0
  {
    BitOfZero(l.FlagBase() + 1);
    BitOfZero(l.FlagBase() + 2);
  }

  // ---------------------------------------------------------------------------
  // The invariant
  // ---------------------------------------------------------------------------

  /** Every key in the lookup points at an occupied frame whose entry names it. */
  ghost predicate LookupSound(cfg: PT.Config, l: Layout, s: State)
    requires cfg.Valid() && Shaped(cfg, s)
  {
    forall k :: k in s.lookup ==>
      s.lookup[k] < cfg.NumFrames() - |s.freeFrames| && Decode(l, s.table[s.lookup[k]]) == k
  }

  /** The key frame f's entry names. */
  ghost function KeyAt(l: Layout, s: State, f: nat): Key
    requires f < |s.table|
  {
    Decode(l, s.table[f])
  }

  /** Every occupied frame is found through the key its entry names. */
  ghost predicate LookupComplete(cfg: PT.Config, l: Layout, s: State)
    requires cfg.Valid() && Shaped(cfg, s)
  {
    forall f :: 0 <= f < cfg.NumFrames() - |s.freeFrames| ==>
      KeyAt(l, s, f) in s.lookup && s.lookup[KeyAt(l, s, f)] == f
  }

  /** Frames are handed out from the free tail; the lookup and the entries agree
      both ways on the occupied frames; every frame is occupied or free; counters
      fit in eight bits. */
  ghost predicate Inv(l: Layout, cfg: PT.Config, s: State)
    requires cfg.Valid()
  {
    && Shaped(cfg, s)
    && PT.FreeIsTail(cfg.NumFrames(), s.freeFrames)
    && |s.lookup| + |s.freeFrames| == cfg.NumFrames()
    && LookupSound(cfg, l, s)
    && LookupComplete(cfg, l, s)
    && (forall f :: 0 <= f < |s.agingR| ==> s.agingR[f] < Pow2(PT.AgingBits))
  }

  lemma InitInv(l: Layout, cfg: PT.Config)
    requires cfg.Valid()
    ensures Inv(l, cfg, Init(cfg))
  {
    var s := Init(cfg);
    assert cfg.NumFrames() - |s.freeFrames| == 0;
  }

  /** The lookup maps k to f exactly when f is occupied and its entry names k. */
  lemma LookupExact(l: Layout, cfg: PT.Config, s: State, k: Key, f: nat)
    requires cfg.Valid() && Inv(l, cfg, s)
    ensures (k in s.lookup && s.lookup[k] == f) <==>
      (f < cfg.NumFrames() - |s.freeFrames| && Decode(l, s.table[f]) == k)
  {
    if f < cfg.NumFrames() - |s.freeFrames| {
      assert KeyAt(l, s, f) == Decode(l, s.table[f]);
    }
  }

  /** A fault served from the free list keeps the invariant. */
  lemma LoadFreeInv(l: Layout, cfg: PT.Config, s: State, key: Key)
    requires cfg.Valid() && Inv(l, cfg, s) && Fits(l, key)
    requires key !in s.lookup && |s.freeFrames| > 0
    ensures Resolve(l, cfg, s, key).Ok? && Inv(l, cfg, Resolve(l, cfg, s, key).value.state)
  {
    var F := cfg.NumFrames();
    var f := s.freeFrames[0];
    assert f == F - |s.freeFrames|;
    var s' := Resolve(l, cfg, s, key).value.state;
    assert s'.lookup == s.lookup[key := f] && s'.freeFrames == s.freeFrames[1..];
    assert s'.table == s.table[f := ReplaceProcessPage(l, 0, key.process, key.page)];
    forall k | k in s'.lookup
      ensures s'.lookup[k] < F - |s'.freeFrames| && Decode(l, s'.table[s'.lookup[k]]) == k
    {
      if k != key { assert s.lookup[k] < f; }
    }
    forall g | 0 <= g < F - |s'.freeFrames|
      ensures KeyAt(l, s', g) in s'.lookup && s'.lookup[KeyAt(l, s', g)] == g
    {
      if g != f {
        var k := KeyAt(l, s, g);
        assert k in s.lookup && s.lookup[k] == g && k != key;
        assert KeyAt(l, s', g) == k;
      }
    }
  }

  /** A fault that evicts the oldest frame keeps the invariant and does not fail. */
  lemma LoadEvictingInv(l: Layout, cfg: PT.Config, s: State, key: Key)
    requires cfg.Valid() && Inv(l, cfg, s) && Fits(l, key)
    requires key !in s.lookup && |s.freeFrames| == 0
    ensures Resolve(l, cfg, s, key).Ok? && Inv(l, cfg, Resolve(l, cfg, s, key).value.state)
  {
    var F := cfg.NumFrames();
    var v := Oldest(s.agingR);
    var gone := KeyAt(l, s, v);
    assert gone in s.lookup && s.lookup[gone] == v;
    var s' := Resolve(l, cfg, s, key).value.state;
    var rest := s.lookup - {gone};
    assert rest.Keys == s.lookup.Keys - {gone};
    assert |rest| == |s.lookup| - 1;
    assert s'.lookup == rest[key := v] && key !in rest;
    forall k | k in s'.lookup
      ensures s'.lookup[k] < F && Decode(l, s'.table[s'.lookup[k]]) == k
    {
      if k != key {
        assert k in s.lookup && k != gone;
        assert s.lookup[k] != v;
      }
    }
    forall g | 0 <= g < F
      ensures KeyAt(l, s', g) in s'.lookup && s'.lookup[KeyAt(l, s', g)] == g
    {
      if g != v {
        var k := KeyAt(l, s, g);
        assert k in s.lookup && s.lookup[k] == g && k != gone && k != key;
        assert KeyAt(l, s', g) == k;
      }
    }
  }

  /** Setting the access bits and refreshing keeps the invariant. */
  lemma FinishInv(l: Layout, cfg: PT.Config, s: State, f: nat, command: char, n: nat)
    requires cfg.Valid() && Inv(l, cfg, s) && f < |s.table|
    ensures Inv(l, cfg, Finish(l, s, f, command, n))
  {
    var s' := Finish(l, s, f, command, n);
    forall k | k in s'.lookup
      ensures s'.lookup[k] < cfg.NumFrames() - |s'.freeFrames| && Decode(l, s'.table[s'.lookup[k]]) == k
    {
      assert Decode(l, s'.table[s.lookup[k]]) == Decode(l, s.table[s.lookup[k]]);
    }
    forall g | 0 <= g < cfg.NumFrames() - |s'.freeFrames|
      ensures KeyAt(l, s', g) in s'.lookup && s'.lookup[KeyAt(l, s', g)] == g
    {
      assert KeyAt(l, s', g) == KeyAt(l, s, g);
    }
  }

  /** Every access whose key fits the layout succeeds and keeps the invariant. */
  lemma StepInv(l: Layout, cfg: PT.Config, s: State, a: PT.Access)
    requires cfg.Valid() && Inv(l, cfg, s) && Fits(l, KeyOf(cfg, a))
    ensures Step(l, cfg, s, a).Ok? && Inv(l, cfg, Step(l, cfg, s, a).value.0)
  {
    var key := KeyOf(cfg, a);
    if key !in s.lookup {
      if |s.freeFrames| > 0 { LoadFreeInv(l, cfg, s, key); } else { LoadEvictingInv(l, cfg, s, key); }
    }
    var f := Resolve(l, cfg, s, key).value;
    FinishInv(l, cfg, f.state, f.frameNum, a.command, s.numInstructions + 1);
    StepFinish(l, cfg, s, a);
  }

  /** A successful step is fault resolution followed by the access-bit update. */
  lemma StepFinish(l: Layout, cfg: PT.Config, s: State, a: PT.Access)
    requires cfg.Valid() && Shaped(cfg, s) && Resolve(l, cfg, s, KeyOf(cfg, a)).Ok?
    ensures var f := Resolve(l, cfg, s, KeyOf(cfg, a)).value;
      Step(l, cfg, s, a) == Ok((Finish(l, f.state, f.frameNum, a.command, s.numInstructions + 1), Assemble(l, cfg, s, a, f).1))
  {
  }

  /** With the corrected layout every key of the simulated machine fits: a process
      below `numProcesses` and an address below `2^virBits`. */
  lemma CorrectedKeysFit(cfg: PT.Config, a: PT.Access)
    requires cfg.Valid() && a.process < NumProcesses && a.virMemLoc < Pow2(cfg.virBits)
    ensures Fits(CorrectedLayout(cfg), KeyOf(cfg, a))
  {
    PageNumberFits(cfg, a.virMemLoc);
    assert Pow2(ProcessBits) == 2;
  }

  /** The page number of an address below `2^virBits` fits in `virBits - pageBits`
      bits; when a page is larger than the virtual address space it is 0. */
  lemma PageNumberFits(cfg: PT.Config, x: nat)
    requires x < Pow2(cfg.virBits)
    ensures PT.SplitAddress(cfg.pageBits, x).0 < Pow2(cfg.PageNumberBits())
  {
    var split := PT.SplitAddress(cfg.pageBits, x);
    if cfg.pageBits <= cfg.virBits {
      NarrowPageBelow(split.0, split.1, cfg.virBits, cfg.pageBits);
    } else {
      WidePageZero(split.0, split.1, cfg.virBits, cfg.pageBits);
    }
  }

  lemma NarrowPageBelow(g: nat, off: nat, v: nat, p: nat)
    requires p <= v && g * Pow2(p) + off < Pow2(v)
    ensures g < Pow2(v - p)
  {
    Pow2Add(v - p, p);
    PageBelow(g, off, Pow2(v - p), Pow2(p));
  }

  lemma WidePageZero(g: nat, off: nat, v: nat, p: nat)
    requires v < p && g * Pow2(p) + off < Pow2(v)
    ensures g == 0
  {
    Pow2Add(v, p - v);
    MulMono(1, Pow2(p - v), Pow2(v));
    PageBelow(g, off, 1, Pow2(p));
  }

  /** `g * size + off < pages * size` puts g below `pages`. */
  lemma PageBelow(g: nat, off: nat, pages: nat, size: nat)
    requires g * size + off < pages * size
    ensures g < pages
  {
    MulMono(pages, g, size);
  }


  /** With the page field as written, every key fits as long as a page number
      needs no more bits than a page offset. */
  lemma AsWrittenKeysFitWhenNarrow(cfg: PT.Config, a: PT.Access)
    requires cfg.Valid() && a.process < NumProcesses && a.virMemLoc < Pow2(cfg.virBits)
    requires cfg.PageNumberBits() <= cfg.pageBits
    ensures Fits(AsWrittenLayout(cfg), KeyOf(cfg, a))
  {
    CorrectedKeysFit(cfg, a);
    Pow2Add(cfg.PageNumberBits(), cfg.pageBits - cfg.PageNumberBits());
  }

  // ---------------------------------------------------------------------------
  // Whole traces
  // ---------------------------------------------------------------------------

  /** The access loop; the first `KeyError` stops it. */
  function Run(l: Layout, cfg: PT.Config, s: State, trace: seq<PT.Access>): (r: Result<(State, seq<Translation>), Error>)
    requires cfg.Valid() && Shaped(cfg, s)
    ensures r.Ok? ==> Shaped(cfg, r.value.0) && |r.value.1| == |trace|
    ensures r.Ok? ==> r.value.0.numInstructions == s.numInstructions + |trace|
    decreases |trace|
  {
    if trace == [] then Ok((s, []))
    else
      match Step(l, cfg, s, trace[0])
      case Err(e) => Err(e)
      case Ok((s1, tr)) =>
        match Run(l, cfg, s1, trace[1..])
        case Err(e) => Err(e)
        case Ok((s2, trs)) => Ok((s2, [tr] + trs))
  }

  /** From a state satisfying the invariant, a trace whose every key fits the
      layout never raises `KeyError`, and the invariant holds at the end. */
  lemma {:induction false} FittingRunInv(l: Layout, cfg: PT.Config, s: State, trace: seq<PT.Access>)
    requires cfg.Valid() && Inv(l, cfg, s)
    requires forall i :: 0 <= i < |trace| ==> Fits(l, KeyOf(cfg, trace[i]))
    ensures Run(l, cfg, s, trace).Ok?
    ensures Inv(l, cfg, Run(l, cfg, s, trace).value.0)
    decreases |trace|
  {
    if trace != [] {
      StepInv(l, cfg, s, trace[0]);
      FittingRunInv(l, cfg, Step(l, cfg, s, trace[0]).value.0, trace[1..]);
    }
  }

  /** From a state satisfying the invariant, a trace of two-process accesses below
      `2^virBits` never raises `KeyError` under the corrected layout, and the
      invariant holds at the end. */
  lemma CorrectedRunInv(cfg: PT.Config, s: State, trace: seq<PT.Access>)
    requires cfg.Valid() && Inv(CorrectedLayout(cfg), cfg, s)
    requires forall i :: 0 <= i < |trace| ==> trace[i].process < NumProcesses && trace[i].virMemLoc < Pow2(cfg.virBits)
    ensures Run(CorrectedLayout(cfg), cfg, s, trace).Ok?
    ensures Inv(CorrectedLayout(cfg), cfg, Run(CorrectedLayout(cfg), cfg, s, trace).value.0)
  {
    forall i | 0 <= i < |trace| ensures Fits(CorrectedLayout(cfg), KeyOf(cfg, trace[i])) {
      CorrectedKeysFit(cfg, trace[i]);
    }
    FittingRunInv(CorrectedLayout(cfg), cfg, s, trace);
  }

  // ---------------------------------------------------------------------------
  // The page field as written
  // ---------------------------------------------------------------------------

  /** A page number of `pageBits` bits or more does not survive the entry: the
      page read back is its low `pageBits` bits, so the key differs. */
  lemma AsWrittenMisdecodes(cfg: PT.Config, p: nat, g: nat)
    requires Pow2(cfg.pageBits) <= g
    ensures Decode(AsWrittenLayout(cfg), ReplaceProcessPage(AsWrittenLayout(cfg), 0, p, g)) != Key(p, g)
  {
  }

  /** With one frame, loading a page of `pageBits` bits or more and then faulting
      on any other key reads the wrong key back from the frame and raises
      `KeyError` at the `del`. */
  lemma AsWrittenKeyError(cfg: PT.Config, a1: PT.Access, a2: PT.Access)
    requires cfg.Valid() && cfg.NumFrames() == 1
    requires Pow2(cfg.pageBits) <= KeyOf(cfg, a1).page
    requires KeyOf(cfg, a2) != KeyOf(cfg, a1)
    ensures
      var l := AsWrittenLayout(cfg);
      var r1 := Step(l, cfg, Init(cfg), a1);
      && r1.Ok?
      && Step(l, cfg, r1.value.0, a2) == Err(MissingKey)
  {
    var l := AsWrittenLayout(cfg);
    var s0 := Init(cfg);
    var key1 := KeyOf(cfg, a1);
    assert key1 !in s0.lookup;
    var r1 := Step(l, cfg, s0, a1);
    var s1 := r1.value.0;
    assert s1.lookup == map[key1 := 0] && s1.freeFrames == [];
    AsWrittenMisdecodes(cfg, key1.process, key1.page);
    assert Decode(l, s1.table[0]) != key1;
    assert Oldest(s1.agingR) == 0;
  }

  /** The instance: addresses of 3 bits, pages of 2 bytes, one frame; process 0
      reads address 4 (page 2) and then address 0 (page 0). Frame 0's entry is
      `0 | (0 << 1) | 2 = 2`, which reads back as process 1, page 0. */
  lemma AsWrittenKeyErrorExample(cfg: PT.Config, a1: PT.Access, a2: PT.Access)
    requires cfg == PT.Config(3, 1, 1, NumProcesses)
    requires a1 == PT.Access(0, 'r', 4) && a2 == PT.Access(0, 'r', 0)
    ensures
      var l := AsWrittenLayout(cfg);
      var r1 := Step(l, cfg, Init(cfg), a1);
      && r1.Ok?
      && Step(l, cfg, r1.value.0, a2) == Err(MissingKey)
  {
    assert cfg.phyBits - cfg.pageBits == 0 && Pow2(0) == 1 && Pow2(1) == 2;
    var s1 := PT.SplitAddress(1, 4);
    assert s1.0 * 2 + s1.1 == 4 && s1.1 < 2;
    var s2 := PT.SplitAddress(1, 0);
    assert s2.0 * 2 + s2.1 == 0;
    AsWrittenKeyError(cfg, a1, a2);
  }
}
