/** The single-process variant of the simulator.

    One page table; one aging counter per PAGE (not per frame); the same entry
    format, free list, fault handling and refresh period as the multi-process
    simulator. Its victim search starts from page 0 whether or not page 0 is
    loaded: with page 0 absent and its counter at 0 nothing can beat it, so the
    search returns page 0 and hands its (stale) frame number to the faulting page,
    while the page actually holding that frame stays present. `VictimRule` selects
    between that search as written and the search the comments describe (the
    oldest PRESENT page, ties to the lowest frame number); the invariant is proved
    for the latter. */
module SinglePageTable {
  import opened Bits
  import opened PageTableDecoder
  import opened Results
  import PT = PageTable

  /** The page table, the per-page aging counters, the free list and the access
      count. */
  datatype State = State(pageTable: seq<nat>, agingR: seq<nat>, freeFrames: seq<nat>, numInstructions: nat)

  /** What one access reports (see `PageTable.Translation`); the evicted page is a
      page number. */
  datatype Translation = Translation(
    pageNum: nat,
    offset: nat,
    frameNum: nat,
    phyMemLoc: nat,
    pageFault: bool,
    removed: Option<nat>,
    writeBack: bool,
    agingUpdate: bool)

  /** `AsWritten`: the search seeded with page 0. `Corrected`: the search seeded
      with "nothing selected", so only present pages can be chosen. */
  datatype VictimRule = AsWritten | Corrected

  predicate Shaped(cfg: PT.Config, s: State)
    requires cfg.Valid()
  {
    && |s.pageTable| == cfg.NumPages()
    && |s.agingR| == cfg.NumPages()
    && forall k :: 0 <= k < |s.freeFrames| ==> s.freeFrames[k] < cfg.NumFrames()
  }

  predicate Present(frameBits: nat, t: seq<nat>, i: nat)
  {
    i < |t| && GetPresent(frameBits, t[i]) == 1
  }

  /** The initial state: zeroed table and counters, every frame free. The process
      count of the trace header is read and ignored. */
  function Init(cfg: PT.Config): (s: State)
    requires cfg.Valid()
    ensures Shaped(cfg, s)
    ensures forall i :: 0 <= i < |s.pageTable| ==> s.pageTable[i] == 0 && s.agingR[i] == 0
    ensures forall k :: 0 <= k < |s.freeFrames| ==> s.freeFrames[k] == k
  {
    State(seq(cfg.NumPages(), _ => 0), seq(cfg.NumPages(), _ => 0), seq(cfg.NumFrames(), k => k), 0)
  }

  // ---------------------------------------------------------------------------
  // Victim selection
  // ---------------------------------------------------------------------------

  /** Page i replaces the selected page in the search: it is present and has a
      smaller counter, or the same counter and a smaller frame number. */
  predicate Beats(frameBits: nat, t: seq<nat>, agingR: seq<nat>, i: nat, sel: nat)
    requires |agingR| == |t| && i < |t| && sel < |t|
  {
    && GetPresent(frameBits, t[i]) == 1
    && (agingR[i] < agingR[sel]
        || (agingR[i] == agingR[sel] && GetFrameNum(frameBits, t[i]) < GetFrameNum(frameBits, t[sel])))
  }

  /** The search as written, from page i on, with `pageSelected` = sel. */
  function ScanSeeded(frameBits: nat, t: seq<nat>, agingR: seq<nat>, i: nat, sel: nat): (r: nat)
    requires |agingR| == |t| && sel < |t|
    ensures r < |t|
    ensures r == sel || Present(frameBits, t, r)
    decreases |t| - i
  {
    if i >= |t| then sel
    else ScanSeeded(frameBits, t, agingR, i + 1, if Beats(frameBits, t, agingR, i, sel) then i else sel)
  }

  /** The corrected search, from page i on: the first present page is taken, and
      after that a page replaces the selection when it beats it. */
  function ScanOpen(frameBits: nat, t: seq<nat>, agingR: seq<nat>, i: nat, sel: Option<nat>): (r: Option<nat>)
    requires |agingR| == |t| && (sel.Some? ==> Present(frameBits, t, sel.value))
    ensures r.Some? ==> Present(frameBits, t, r.value)
    decreases |t| - i
  {
    if i >= |t| then sel
    else
      var sel' :=
        if GetPresent(frameBits, t[i]) != 1 then sel
        else if sel.None? || Beats(frameBits, t, agingR, i, sel.value) then Some(i)
        else sel;
      ScanOpen(frameBits, t, agingR, i + 1, sel')
  }

  /** The page whose frame is taken when no frame is free. */
  function SelectVictim(rule: VictimRule, frameBits: nat, t: seq<nat>, agingR: seq<nat>): (v: nat)
    requires |agingR| == |t| && |t| > 0
    ensures v < |t|
  {
    match rule
    case AsWritten => ScanSeeded(frameBits, t, agingR, 0, 0)
    case Corrected =>
      match ScanOpen(frameBits, t, agingR, 0, None)
      case Some(v) => v
      case None => 0
  }

  /** Page v is at least as good a victim as page i. */
  predicate NoYounger(frameBits: nat, t: seq<nat>, agingR: seq<nat>, v: nat, i: nat)
    requires |agingR| == |t| && v < |t| && i < |t|
  {
    agingR[v] < agingR[i] || (agingR[v] == agingR[i] && GetFrameNum(frameBits, t[v]) <= GetFrameNum(frameBits, t[i]))
  }

  lemma {:induction false} ScanOpenSpec(frameBits: nat, t: seq<nat>, agingR: seq<nat>, i: nat, sel: Option<nat>)
    requires |agingR| == |t| && i <= |t| && (sel.Some? ==> Present(frameBits, t, sel.value))
    requires sel.None? ==> forall k :: 0 <= k < i ==> !Present(frameBits, t, k)
    requires sel.Some? ==> forall k :: 0 <= k < i && Present(frameBits, t, k) ==> NoYounger(frameBits, t, agingR, sel.value, k)
    ensures var r := ScanOpen(frameBits, t, agingR, i, sel);
      && (r.None? ==> forall k :: 0 <= k < |t| ==> !Present(frameBits, t, k))
      && (r.Some? ==> forall k :: 0 <= k < |t| && Present(frameBits, t, k) ==> NoYounger(frameBits, t, agingR, r.value, k))
    decreases |t| - i
  {
    if i < |t| {
      var sel' :=
        if GetPresent(frameBits, t[i]) != 1 then sel
        else if sel.None? || Beats(frameBits, t, agingR, i, sel.value) then Some(i)
        else sel;
      if sel' == Some(i) && sel.Some? {
        forall k | 0 <= k < i + 1 && Present(frameBits, t, k) ensures NoYounger(frameBits, t, agingR, i, k) {
          if k < i { assert NoYounger(frameBits, t, agingR, sel.value, k); }
        }
      }
      ScanOpenSpec(frameBits, t, agingR, i + 1, sel');
    }
  }

  /** The corrected search finds a victim exactly when some page is present, and
      the victim is a present page that no present page beats on (counter, frame
      number). */
  lemma CorrectedVictimIsOldest(frameBits: nat, t: seq<nat>, agingR: seq<nat>)
    requires |agingR| == |t| && |t| > 0
    ensures ScanOpen(frameBits, t, agingR, 0, None).Some? <==> exists k :: Present(frameBits, t, k)
    ensures (exists k :: Present(frameBits, t, k)) ==>
      var v := SelectVictim(Corrected, frameBits, t, agingR);
      && Present(frameBits, t, v)
      && forall k :: 0 <= k < |t| && Present(frameBits, t, k) ==> NoYounger(frameBits, t, agingR, v, k)
  {
    ScanOpenSpec(frameBits, t, agingR, 0, None);
  }

  /** From a present seed onwards the two searches make the same choices. */
  lemma {:induction false} ScansAgreeFromPresentSeed(frameBits: nat, t: seq<nat>, agingR: seq<nat>, i: nat, sel: nat)
    requires |agingR| == |t| && Present(frameBits, t, sel)
    ensures ScanOpen(frameBits, t, agingR, i, Some(sel)) == Some(ScanSeeded(frameBits, t, agingR, i, sel))
    decreases |t| - i
  {
    if i < |t| {
      var next := if Beats(frameBits, t, agingR, i, sel) then i else sel;
      ScansAgreeFromPresentSeed(frameBits, t, agingR, i + 1, next);
    }
  }

  /** When page 0 is present the search as written is the corrected search. */
  lemma AsWrittenAgreesWhenPageZeroPresent(frameBits: nat, t: seq<nat>, agingR: seq<nat>)
    requires |agingR| == |t| && Present(frameBits, t, 0)
    ensures SelectVictim(AsWritten, frameBits, t, agingR) == SelectVictim(Corrected, frameBits, t, agingR)
  {
    assert !Beats(frameBits, t, agingR, 0, 0);
    ScansAgreeFromPresentSeed(frameBits, t, agingR, 1, 0);
  }

  /** A selection no page beats is kept to the end of the search as written. */
  lemma {:induction false} UnbeatenSeedStays(frameBits: nat, t: seq<nat>, agingR: seq<nat>, i: nat, sel: nat)
    requires |agingR| == |t| && sel < |t|
    requires forall k :: 0 <= k < |t| ==> !Beats(frameBits, t, agingR, k, sel)
    ensures ScanSeeded(frameBits, t, agingR, i, sel) == sel
    decreases |t| - i
  {
    if i < |t| { UnbeatenSeedStays(frameBits, t, agingR, i + 1, sel); }
  }

  // ---------------------------------------------------------------------------
  // One access
  // ---------------------------------------------------------------------------

  /** The outcome of making a page present (see `PageTable.Fault`). */
  datatype Fault = Fault(state: State, frameNum: nat, removed: Option<nat>, writeBack: bool)

  /** The page at p made present: on a hit its frame is read from the entry; on a
      miss the first free frame is taken, or else the victim is unloaded (entry
      and counter zeroed) and its frame reused; the page is loaded with its
      counter at the maximum. */
  function Resolve(rule: VictimRule, cfg: PT.Config, s: State, p: nat): (r: Fault)
    requires cfg.Valid() && Shaped(cfg, s) && p < |s.pageTable|
    ensures Shaped(cfg, r.state) && r.state.numInstructions == s.numInstructions
    ensures Present(cfg.FrameBits(), r.state.pageTable, p)
    ensures GetFrameNum(cfg.FrameBits(), r.state.pageTable[p]) == r.frameNum
  {
    var fb := cfg.FrameBits();
    if GetPresent(fb, s.pageTable[p]) == 1 then Fault(s, GetFrameNum(fb, s.pageTable[p]), None, false)
    else if |s.freeFrames| > 0 then LoadFree(cfg, s, p)
    else LoadEvicting(rule, cfg, s, p)
  }

  /** A miss served by the head of the free list. */
  function LoadFree(cfg: PT.Config, s: State, p: nat): (r: Fault)
    requires cfg.Valid() && Shaped(cfg, s) && p < |s.pageTable| && |s.freeFrames| > 0
    ensures Shaped(cfg, r.state) && r.state.numInstructions == s.numInstructions
    ensures Present(cfg.FrameBits(), r.state.pageTable, p)
    ensures GetFrameNum(cfg.FrameBits(), r.state.pageTable[p]) == r.frameNum
  {
    var fb := cfg.FrameBits();
    var frameNum := s.freeFrames[0];
    var t' := s.pageTable[p := PT.LoadedEntry(fb, s.pageTable[p], frameNum)];
    Fault(State(t', s.agingR[p := PT.MaxAge()], s.freeFrames[1..], s.numInstructions), frameNum, None, false)
  }

  /** A miss served by unloading the victim and reusing its frame. */
  function LoadEvicting(rule: VictimRule, cfg: PT.Config, s: State, p: nat): (r: Fault)
    requires cfg.Valid() && Shaped(cfg, s) && p < |s.pageTable|
    ensures Shaped(cfg, r.state) && r.state.numInstructions == s.numInstructions
    ensures Present(cfg.FrameBits(), r.state.pageTable, p)
    ensures GetFrameNum(cfg.FrameBits(), r.state.pageTable[p]) == r.frameNum
  {
    var fb := cfg.FrameBits();
    var t := s.pageTable;
    var v := SelectVictim(rule, fb, t, s.agingR);
    var frameNum := GetFrameNum(fb, t[v]);
    var writeBack := GetModified(fb, t[v]) == 1;
    var evicted: seq<nat> := t[v := 0];
    var t': seq<nat> := evicted[p := PT.LoadedEntry(fb, evicted[p], frameNum)];
    var ages: seq<nat> := s.agingR[v := 0][p := PT.MaxAge()];
    Fault(State(t', ages, [], s.numInstructions), frameNum, Some(v), writeBack)
  }

  /** A hit changes nothing and reports the page's own frame. */
  lemma ResolveHit(rule: VictimRule, cfg: PT.Config, s: State, p: nat)
    requires cfg.Valid() && Shaped(cfg, s) && p < |s.pageTable| && Present(cfg.FrameBits(), s.pageTable, p)
    ensures Resolve(rule, cfg, s, p) == Fault(s, GetFrameNum(cfg.FrameBits(), s.pageTable[p]), None, false)
  {
  }

  /** A miss with a free frame takes the head of the free list, starts the page's
      counter at the maximum and leaves every other page alone. */
  lemma ResolveFree(rule: VictimRule, cfg: PT.Config, s: State, p: nat)
    requires cfg.Valid() && Shaped(cfg, s) && p < |s.pageTable| && !Present(cfg.FrameBits(), s.pageTable, p)
    requires |s.freeFrames| > 0
    ensures var r := Resolve(rule, cfg, s, p);
      && r.frameNum == s.freeFrames[0] && r.state.freeFrames == s.freeFrames[1..]
      && r.removed == None && !r.writeBack
      && r.state.agingR == s.agingR[p := PT.MaxAge()]
      && r.state.pageTable == s.pageTable[p := PT.LoadedEntry(cfg.FrameBits(), s.pageTable[p], s.freeFrames[0])]
      && forall q :: 0 <= q < |s.pageTable| && q != p ==> r.state.pageTable[q] == s.pageTable[q] && r.state.agingR[q] == s.agingR[q]
  {
  }

  /** A miss with no free frame unloads the victim (entry and counter zeroed),
      hands its frame to the page, reports a write-back when the victim was
      modified, and leaves every other page alone. */
  lemma ResolveEvict(rule: VictimRule, cfg: PT.Config, s: State, p: nat)
    requires cfg.Valid() && Shaped(cfg, s) && p < |s.pageTable| && !Present(cfg.FrameBits(), s.pageTable, p)
    requires |s.freeFrames| == 0
    ensures var r := Resolve(rule, cfg, s, p);
      var fb := cfg.FrameBits();
      var v := SelectVictim(rule, fb, s.pageTable, s.agingR);
      var t1 := s.pageTable[v := 0];
      && r.removed == Some(v)
      && r.frameNum == GetFrameNum(fb, s.pageTable[v])
      && (r.writeBack <==> GetModified(fb, s.pageTable[v]) == 1)
      && r.state.freeFrames == []
      && r.state.agingR == s.agingR[v := 0][p := PT.MaxAge()]
      && r.state.pageTable == t1[p := PT.LoadedEntry(fb, t1[p], GetFrameNum(fb, s.pageTable[v]))]
      && forall q :: 0 <= q < |s.pageTable| && q != p && q != v ==>
           r.state.pageTable[q] == s.pageTable[q] && r.state.agingR[q] == s.agingR[q]
  {
  }

  /** Fault handling leaves the entry and counter of every page other than the
      faulting and the evicted one as they were. */
  lemma ResolveOthers(rule: VictimRule, cfg: PT.Config, s: State, p: nat)
    requires cfg.Valid() && Shaped(cfg, s) && p < |s.pageTable|
    ensures var f := Resolve(rule, cfg, s, p);
      forall q :: 0 <= q < |s.pageTable| && q != p && f.removed != Some(q) ==>
        f.state.pageTable[q] == s.pageTable[q] && f.state.agingR[q] == s.agingR[q]
  {
    var f := Resolve(rule, cfg, s, p);
    if Present(cfg.FrameBits(), s.pageTable, p) {
      ResolveHit(rule, cfg, s, p);
    } else if |s.freeFrames| > 0 {
      ResolveFree(rule, cfg, s, p);
    } else {
      ResolveEvict(rule, cfg, s, p);
    }
  }

  /** The refresh of one page: its counter shifts in its referenced bit, which is
      then cleared. Unlike the multi-process refresh it visits every page,
      present or not. */
  function RefreshedEntry(frameBits: nat, e: nat): (e': nat)
    ensures GetReferenced(frameBits, e') == 0
    ensures GetPresent(frameBits, e') == GetPresent(frameBits, e)
    ensures GetFrameNum(frameBits, e') == GetFrameNum(frameBits, e)
    ensures GetModified(frameBits, e') == GetModified(frameBits, e)
    ensures e == 0 ==> e' == 0
  {
    ZeroEntry(frameBits);
    if GetReferenced(frameBits, e) == 1 then ClearReferenced(frameBits, e) else e
  }

  /** The refresh loop over every page. Each iteration touches only page i, so the
      loop is the page-wise map. */
  function Refresh(frameBits: nat, t: seq<nat>, agingR: seq<nat>): (r: (seq<nat>, seq<nat>))
    requires |agingR| == |t|
    ensures |r.0| == |t| && |r.1| == |t|
    ensures forall i :: 0 <= i < |t| ==> r.0[i] == RefreshedEntry(frameBits, t[i])
    ensures forall i :: 0 <= i < |t| ==> r.1[i] == PT.NextAge(agingR[i], GetReferenced(frameBits, t[i]))
  {
    (seq(|t|, i requires 0 <= i < |t| => RefreshedEntry(frameBits, t[i])),
     seq(|t|, i requires 0 <= i < |t| => PT.NextAge(agingR[i], GetReferenced(frameBits, t[i]))))
  }

  /** `setReferenced`, and `setModified` on a write. */
  function Touch(frameBits: nat, t: seq<nat>, p: nat, command: char): (u: seq<nat>)
    requires p < |t|
    ensures |u| == |t| && forall q :: 0 <= q < |t| && q != p ==> u[q] == t[q]
    ensures GetPresent(frameBits, u[p]) == GetPresent(frameBits, t[p])
    ensures GetFrameNum(frameBits, u[p]) == GetFrameNum(frameBits, t[p])
    ensures GetReferenced(frameBits, u[p]) == 1
    ensures GetModified(frameBits, u[p]) == if command == 'w' then 1 else GetModified(frameBits, t[p])
  {
    var e := SetReferenced(frameBits, t[p]);
    t[p := if command == 'w' then SetModified(frameBits, e) else e]
  }

  /** Set the referenced bit (and the modified bit on a write), then refresh if
      this is the `RefreshPeriod`-th access. */
  function Finish(frameBits: nat, s: State, p: nat, command: char, numInstructions: nat): (s': State)
    requires p < |s.pageTable| && |s.agingR| == |s.pageTable|
    ensures |s'.pageTable| == |s.pageTable| && |s'.agingR| == |s.agingR|
    ensures s'.freeFrames == s.freeFrames && s'.numInstructions == numInstructions
    ensures GetPresent(frameBits, s'.pageTable[p]) == GetPresent(frameBits, s.pageTable[p])
    ensures GetFrameNum(frameBits, s'.pageTable[p]) == GetFrameNum(frameBits, s.pageTable[p])
    ensures GetReferenced(frameBits, s'.pageTable[p]) == if numInstructions % PT.RefreshPeriod == 0 then 0 else 1
    ensures command == 'w' ==> GetModified(frameBits, s'.pageTable[p]) == 1
  {
    var touched := Touch(frameBits, s.pageTable, p, command);
    if numInstructions % PT.RefreshPeriod == 0 then
      var r := Refresh(frameBits, touched, s.agingR);
      State(r.0, r.1, s.freeFrames, numInstructions)
    else State(touched, s.agingR, s.freeFrames, numInstructions)
  }

  /** Touching and refreshing change no page's presence or frame. */
  lemma FinishFrames(frameBits: nat, s: State, p: nat, command: char, numInstructions: nat)
    requires p < |s.pageTable| && |s.agingR| == |s.pageTable|
    ensures var s' := Finish(frameBits, s, p, command, numInstructions);
      forall q :: 0 <= q < |s.pageTable| ==>
        && GetPresent(frameBits, s'.pageTable[q]) == GetPresent(frameBits, s.pageTable[q])
        && GetFrameNum(frameBits, s'.pageTable[q]) == GetFrameNum(frameBits, s.pageTable[q])
  {
  }

  /** Every other page with a zero entry keeps it; and off the refresh period
      every other entry, and every counter, is left as it was. */
  lemma FinishUnchanged(frameBits: nat, s: State, p: nat, command: char, numInstructions: nat)
    requires p < |s.pageTable| && |s.agingR| == |s.pageTable|
    ensures var s' := Finish(frameBits, s, p, command, numInstructions);
      && (forall q :: 0 <= q < |s.pageTable| && q != p && s.pageTable[q] == 0 ==> s'.pageTable[q] == 0)
      && (numInstructions % PT.RefreshPeriod != 0 ==>
            s'.agingR == s.agingR && forall q :: 0 <= q < |s.pageTable| && q != p ==> s'.pageTable[q] == s.pageTable[q])
  {
  }

  /** One iteration of the access loop, under the given victim rule. The process
      field of the access is ignored. */
  function Step(rule: VictimRule, cfg: PT.Config, s: State, a: PT.Access): (r: Result<(State, Translation), PT.Error>)
    requires cfg.Valid() && Shaped(cfg, s)
    ensures r.Err? <==> Shr(a.virMemLoc, cfg.pageBits) >= cfg.NumPages()
    ensures r.Err? ==> r.error == PT.OutOfRange
    ensures r.Ok? ==> Shaped(cfg, r.value.0) && r.value.0.numInstructions == s.numInstructions + 1
  {
    var fb := cfg.FrameBits();
    var numInstructions := s.numInstructions + 1;
    var split := PT.SplitAddress(cfg.pageBits, a.virMemLoc);
    var pageNum, offset := split.0, split.1;
    if pageNum >= |s.pageTable| then Err(PT.OutOfRange)
    else
      var f := Resolve(rule, cfg, s, pageNum);
      var s' := Finish(fb, f.state, pageNum, a.command, numInstructions);
      Ok((s', Translation(pageNum, offset, f.frameNum, PT.PhysicalAddress(cfg.pageBits, f.frameNum, offset),
                          !Present(fb, s.pageTable, pageNum), f.removed, f.writeBack, numInstructions % PT.RefreshPeriod == 0)))
  }

  /** An access in range is fault handling for its page followed by touch and
      refresh of that page; the translation reports the page and the outcome of
      the fault handling. */
  lemma StepState(rule: VictimRule, cfg: PT.Config, s: State, a: PT.Access)
    requires cfg.Valid() && Shaped(cfg, s) && Shr(a.virMemLoc, cfg.pageBits) < cfg.NumPages()
    ensures var p := PT.SplitAddress(cfg.pageBits, a.virMemLoc).0;
      var f := Resolve(rule, cfg, s, p);
      var tr := Step(rule, cfg, s, a).value.1;
      && p < |s.pageTable|
      && Step(rule, cfg, s, a).value.0 == Finish(cfg.FrameBits(), f.state, p, a.command, s.numInstructions + 1)
      && tr.pageNum == p && tr.frameNum == f.frameNum && tr.removed == f.removed && tr.writeBack == f.writeBack
  {
    var p := PT.SplitAddress(cfg.pageBits, a.virMemLoc).0;
    var f := Resolve(rule, cfg, s, p);
    assert Step(rule, cfg, s, a).value.0 == Finish(cfg.FrameBits(), f.state, p, a.command, s.numInstructions + 1);
  }

  /** What an access in range reports: the page and offset recompose the virtual
      address, the physical address is the frame's base plus the offset, and the
      fault, frame, evicted page and write-back flag are those of the hit, of the
      first free frame, or of the victim. */
  lemma StepTranslation(rule: VictimRule, cfg: PT.Config, s: State, a: PT.Access)
    requires cfg.Valid() && Shaped(cfg, s) && Step(rule, cfg, s, a).Ok?
    ensures var (s', tr) := Step(rule, cfg, s, a).value;
      var fb := cfg.FrameBits();
      var p := tr.pageNum;
      && tr.offset < Pow2(cfg.pageBits)
      && p * Pow2(cfg.pageBits) + tr.offset == a.virMemLoc
      && tr.phyMemLoc == tr.frameNum * Pow2(cfg.pageBits) + tr.offset
      && p < |s.pageTable|
      && tr.pageFault == !Present(fb, s.pageTable, p)
      && (!tr.pageFault ==> tr.frameNum == GetFrameNum(fb, s.pageTable[p]) && tr.removed == None && s'.freeFrames == s.freeFrames)
      && (tr.pageFault && |s.freeFrames| > 0 ==>
            tr.frameNum == s.freeFrames[0] && tr.removed == None && s'.freeFrames == s.freeFrames[1..])
      && (tr.pageFault && |s.freeFrames| == 0 ==>
            && tr.removed == Some(SelectVictim(rule, fb, s.pageTable, s.agingR))
            && tr.frameNum == GetFrameNum(fb, s.pageTable[tr.removed.value])
            && (tr.writeBack <==> GetModified(fb, s.pageTable[tr.removed.value]) == 1))
      && tr.agingUpdate == (s'.numInstructions % PT.RefreshPeriod == 0)
  {
  }

  /** The accessed page after an access in range: present in the reported frame,
      referenced unless the refresh ran, modified after a write. */
  lemma StepEntry(rule: VictimRule, cfg: PT.Config, s: State, a: PT.Access)
    requires cfg.Valid() && Shaped(cfg, s) && Step(rule, cfg, s, a).Ok?
    ensures var (s', tr) := Step(rule, cfg, s, a).value;
      var fb := cfg.FrameBits();
      var p := tr.pageNum;
      && p < |s.pageTable|
      && Present(fb, s'.pageTable, p)
      && GetFrameNum(fb, s'.pageTable[p]) == tr.frameNum
      && GetReferenced(fb, s'.pageTable[p]) == (if tr.agingUpdate then 0 else 1)
      && (a.command == 'w' ==> GetModified(fb, s'.pageTable[p]) == 1)
  {
    var fb := cfg.FrameBits();
    var p := PT.SplitAddress(cfg.pageBits, a.virMemLoc).0;
    var f := Resolve(rule, cfg, s, p);
    var s' := Finish(fb, f.state, p, a.command, s.numInstructions + 1);
    assert Step(rule, cfg, s, a).value == (s', Step(rule, cfg, s, a).value.1);
    assert Step(rule, cfg, s, a).value.1.pageNum == p && Step(rule, cfg, s, a).value.1.frameNum == f.frameNum;
  }

  /** The page fault handling evicted, other than the faulting page, is still
      absent after touch and refresh. */
  lemma EvictedStaysAbsent(rule: VictimRule, cfg: PT.Config, s: State, p: nat, command: char, n: nat)
    requires cfg.Valid() && Shaped(cfg, s) && p < |s.pageTable|
    ensures var f := Resolve(rule, cfg, s, p);
      f.removed.Some? && f.removed.value != p ==> !Present(cfg.FrameBits(), Finish(cfg.FrameBits(), f.state, p, command, n).pageTable, f.removed.value)
  {
    var fb := cfg.FrameBits();
    if !Present(fb, s.pageTable, p) && |s.freeFrames| == 0 {
      ResolveEvict(rule, cfg, s, p);
      var f := Resolve(rule, cfg, s, p);
      var v := f.removed.value;
      if v != p {
        ZeroEntry(fb);
        assert f.state.pageTable[v] == 0;
        FinishUnchanged(fb, f.state, p, command, n);
        var t' := Finish(fb, f.state, p, command, n).pageTable;
        assert t'[v] == 0;
        assert GetPresent(fb, t'[v]) == 0;
      }
    } else if !Present(fb, s.pageTable, p) {
      ResolveFree(rule, cfg, s, p);
      assert Resolve(rule, cfg, s, p).removed == None;
    } else {
      ResolveHit(rule, cfg, s, p);
      assert Resolve(rule, cfg, s, p).removed == None;
    }
  }

  /** A page evicted by an access in range, other than the accessed page, is no
      longer present. */
  lemma StepEvicted(rule: VictimRule, cfg: PT.Config, s: State, a: PT.Access)
    requires cfg.Valid() && Shaped(cfg, s) && Step(rule, cfg, s, a).Ok?
    ensures var (s', tr) := Step(rule, cfg, s, a).value;
      tr.removed.Some? && tr.removed.value != tr.pageNum ==> !Present(cfg.FrameBits(), s'.pageTable, tr.removed.value)
  {
    StepState(rule, cfg, s, a);
    EvictedStaysAbsent(rule, cfg, s, PT.SplitAddress(cfg.pageBits, a.virMemLoc).0, a.command, s.numInstructions + 1);
  }

  /** Every page other than the accessed and the evicted one keeps its presence
      and frame, and, when no refresh ran, its entry and counter. */
  lemma StepOthers(rule: VictimRule, cfg: PT.Config, s: State, a: PT.Access)
    requires cfg.Valid() && Shaped(cfg, s) && Step(rule, cfg, s, a).Ok?
    ensures var (s', tr) := Step(rule, cfg, s, a).value;
      var fb := cfg.FrameBits();
      var p := tr.pageNum;
      && (forall q :: 0 <= q < |s.pageTable| && q != p && tr.removed != Some(q) ==>
            && GetPresent(fb, s'.pageTable[q]) == GetPresent(fb, s.pageTable[q])
            && GetFrameNum(fb, s'.pageTable[q]) == GetFrameNum(fb, s.pageTable[q]))
      && (!tr.agingUpdate ==> forall q :: 0 <= q < |s.pageTable| && q != p && tr.removed != Some(q) ==>
            s'.pageTable[q] == s.pageTable[q] && s'.agingR[q] == s.agingR[q])
  {
    var fb := cfg.FrameBits();
    var p := PT.SplitAddress(cfg.pageBits, a.virMemLoc).0;
    var f := Resolve(rule, cfg, s, p);
    var n := s.numInstructions + 1;
    var s' := Finish(fb, f.state, p, a.command, n);
    assert Step(rule, cfg, s, a).value == (s', Step(rule, cfg, s, a).value.1);
    assert Step(rule, cfg, s, a).value.1.removed == f.removed && Step(rule, cfg, s, a).value.1.pageNum == p;
    ResolveOthers(rule, cfg, s, p);
    FinishFrames(fb, f.state, p, a.command, n);
    FinishUnchanged(fb, f.state, p, a.command, n);
  }

  // ---------------------------------------------------------------------------
  // The invariant, for the corrected victim rule
  // ---------------------------------------------------------------------------

  /** No two present pages share a frame. */
  ghost predicate Exclusive(frameBits: nat, t: seq<nat>)
  {
    forall i, j :: 0 <= i < |t| && 0 <= j < |t| && i != j && Present(frameBits, t, i) && Present(frameBits, t, j) ==>
      GetFrameNum(frameBits, t[i]) != GetFrameNum(frameBits, t[j])
  }

  /** The entry of a page that is not present is zero. */
  ghost predicate ZeroOrPresent(frameBits: nat, t: seq<nat>)
  {
    forall i :: 0 <= i < |t| && GetPresent(frameBits, t[i]) != 1 ==> t[i] == 0
  }

  /** Every present page holds a frame below `bound`. */
  ghost predicate InUseBelow(frameBits: nat, t: seq<nat>, bound: nat)
  {
    forall i :: 0 <= i < |t| && GetPresent(frameBits, t[i]) == 1 ==> GetFrameNum(frameBits, t[i]) < bound
  }

  function PresentPages(frameBits: nat, t: seq<nat>): set<nat>
  {
    set i | 0 <= i < |t| && GetPresent(frameBits, t[i]) == 1
  }

  /** Every frame is on the free list or held by exactly one present page,
      entries of pages not present are zero, and the aging counters fit in
      `agingBits` bits. */
  ghost predicate Inv(cfg: PT.Config, s: State)
    requires cfg.Valid()
  {
    var fb := cfg.FrameBits();
    && Shaped(cfg, s)
    && ZeroOrPresent(fb, s.pageTable)
    && PT.FreeIsTail(cfg.NumFrames(), s.freeFrames)
    && InUseBelow(fb, s.pageTable, cfg.NumFrames() - |s.freeFrames|)
    && Exclusive(fb, s.pageTable)
    && |PresentPages(fb, s.pageTable)| + |s.freeFrames| == cfg.NumFrames()
    && PT.AgesBelow(s.agingR, Pow2(PT.AgingBits))
  }

  lemma InitInv(cfg: PT.Config)
    requires cfg.Valid()
    ensures Inv(cfg, Init(cfg))
  {
    ZeroEntry(cfg.FrameBits());
    assert PresentPages(cfg.FrameBits(), Init(cfg).pageTable) == {};
  }

  /** Loading an absent page into a frame no present page holds. */
  lemma LoadPage(frameBits: nat, t: seq<nat>, p: nat, e: nat)
    requires p < |t| && !Present(frameBits, t, p) && GetPresent(frameBits, e) == 1
    requires ZeroOrPresent(frameBits, t) && Exclusive(frameBits, t)
    requires forall i: nat :: Present(frameBits, t, i) ==> GetFrameNum(frameBits, t[i]) != GetFrameNum(frameBits, e)
    ensures ZeroOrPresent(frameBits, t[p := e]) && Exclusive(frameBits, t[p := e])
    ensures PresentPages(frameBits, t[p := e]) == PresentPages(frameBits, t) + {p}
    ensures p !in PresentPages(frameBits, t)
  {
    var t' := t[p := e];
    forall i, j | 0 <= i < |t'| && 0 <= j < |t'| && i != j && Present(frameBits, t', i) && Present(frameBits, t', j)
      ensures GetFrameNum(frameBits, t'[i]) != GetFrameNum(frameBits, t'[j])
    {
      if i != p && j != p { assert Present(frameBits, t, i) && Present(frameBits, t, j); }
      else if i == p { assert Present(frameBits, t, j); }
      else { assert Present(frameBits, t, i); }
    }
  }

  /** Unloading a present page (its entry zeroed). */
  lemma UnloadPage(frameBits: nat, t: seq<nat>, v: nat)
    requires Present(frameBits, t, v) && ZeroOrPresent(frameBits, t) && Exclusive(frameBits, t)
    ensures ZeroOrPresent(frameBits, t[v := 0]) && Exclusive(frameBits, t[v := 0])
    ensures PresentPages(frameBits, t[v := 0]) == PresentPages(frameBits, t) - {v}
    ensures v in PresentPages(frameBits, t)
    ensures forall i: nat :: Present(frameBits, t[v := 0], i) ==> GetFrameNum(frameBits, t[i]) != GetFrameNum(frameBits, t[v])
    ensures forall i: nat :: Present(frameBits, t[v := 0], i) ==> Present(frameBits, t, i) && t[v := 0][i] == t[i]
  {
    ZeroEntry(frameBits);
    var t' := t[v := 0];
    forall i: nat | Present(frameBits, t', i)
      ensures i != v && Present(frameBits, t, i) && GetFrameNum(frameBits, t[i]) != GetFrameNum(frameBits, t[v])
    {
    }
  }

  /** Zeroing the victim's counter and setting the loaded page's to the maximum
      keeps every counter below `2^agingBits`. */
  lemma ResetAgesBelow(agingR: seq<nat>, v: nat, p: nat)
    requires v < |agingR| && p < |agingR| && PT.AgesBelow(agingR, Pow2(PT.AgingBits))
    ensures PT.AgesBelow(agingR[v := 0][p := PT.MaxAge()], Pow2(PT.AgingBits))
  {
  }

  /** A fault served from the free list keeps the invariant. */
  lemma LoadFreeInv(cfg: PT.Config, s: State, p: nat)
    requires cfg.Valid() && Inv(cfg, s) && p < |s.pageTable| && !Present(cfg.FrameBits(), s.pageTable, p)
    requires |s.freeFrames| > 0
    ensures Inv(cfg, Resolve(Corrected, cfg, s, p).state)
  {
    var fb := cfg.FrameBits();
    var t := s.pageTable;
    var r := Resolve(Corrected, cfg, s, p);
    var e := PT.LoadedEntry(fb, t[p], s.freeFrames[0]);
    ResolveFree(Corrected, cfg, s, p);
    assert r.state.pageTable == t[p := e];
    assert r.state.agingR == s.agingR[p := PT.MaxAge()];
    forall i: nat | Present(fb, t, i) ensures GetFrameNum(fb, t[i]) != GetFrameNum(fb, e) {
      assert GetFrameNum(fb, t[i]) < cfg.NumFrames() - |s.freeFrames|;
    }
    LoadPage(fb, t, p, e);
    assert PT.FreeIsTail(cfg.NumFrames(), r.state.freeFrames);
    assert InUseBelow(fb, r.state.pageTable, cfg.NumFrames() - |r.state.freeFrames|);
  }

  /** A fault served by eviction keeps the invariant: with no free frame some
      page is present, so the corrected victim is a present page other than the
      faulting one. */
  lemma LoadEvictingInv(cfg: PT.Config, s: State, p: nat)
    requires cfg.Valid() && Inv(cfg, s) && p < |s.pageTable| && !Present(cfg.FrameBits(), s.pageTable, p)
    requires |s.freeFrames| == 0
    ensures Inv(cfg, Resolve(Corrected, cfg, s, p).state)
  {
    var fb := cfg.FrameBits();
    var t := s.pageTable;
    var r := Resolve(Corrected, cfg, s, p);
    assert |PresentPages(fb, t)| >= 1;
    var w :| w in PresentPages(fb, t);
    assert Present(fb, t, w);
    CorrectedVictimIsOldest(fb, t, s.agingR);
    var v := SelectVictim(Corrected, fb, t, s.agingR);
    UnloadPage(fb, t, v);
    ResolveEvict(Corrected, cfg, s, p);
    var t1 := t[v := 0];
    var e := PT.LoadedEntry(fb, t1[p], GetFrameNum(fb, t[v]));
    assert r.state.pageTable == t1[p := e];
    ResetAgesBelow(s.agingR, v, p);
    LoadPage(fb, t1, p, e);
    assert PresentPages(fb, r.state.pageTable) == PresentPages(fb, t) - {v} + {p};
    assert InUseBelow(fb, r.state.pageTable, cfg.NumFrames());
  }

  lemma ResolveInv(cfg: PT.Config, s: State, p: nat)
    requires cfg.Valid() && Inv(cfg, s) && p < |s.pageTable|
    ensures Inv(cfg, Resolve(Corrected, cfg, s, p).state)
  {
    if !Present(cfg.FrameBits(), s.pageTable, p) {
      if |s.freeFrames| > 0 { LoadFreeInv(cfg, s, p); } else { LoadEvictingInv(cfg, s, p); }
    }
  }

  lemma FinishInv(cfg: PT.Config, s: State, p: nat, command: char, n: nat)
    requires cfg.Valid() && Inv(cfg, s) && p < |s.pageTable| && Present(cfg.FrameBits(), s.pageTable, p)
    ensures Inv(cfg, Finish(cfg.FrameBits(), s, p, command, n))
  {
    var fb := cfg.FrameBits();
    var t' := Finish(fb, s, p, command, n).pageTable;
    FinishFrames(fb, s, p, command, n);
    FinishUnchanged(fb, s, p, command, n);
    assert PresentPages(fb, t') == PresentPages(fb, s.pageTable);
  }

  /** Under the invariant, with the corrected rule, every access in range keeps
      the invariant. */
  lemma StepInv(cfg: PT.Config, s: State, a: PT.Access)
    requires cfg.Valid() && Inv(cfg, s) && Shr(a.virMemLoc, cfg.pageBits) < cfg.NumPages()
    ensures Inv(cfg, Step(Corrected, cfg, s, a).value.0)
  {
    var p := PT.SplitAddress(cfg.pageBits, a.virMemLoc).0;
    StepState(Corrected, cfg, s, a);
    ResolveInv(cfg, s, p);
    FinishInv(cfg, Resolve(Corrected, cfg, s, p).state, p, a.command, s.numInstructions + 1);
  }

  // ---------------------------------------------------------------------------
  // The search as written shares a frame between two present pages
  // ---------------------------------------------------------------------------

  /** With no free frame and page 0 absent with counter 0, the search as written
      keeps its seed: the faulting page receives frame field 0 of page 0's zero
      entry, and every other present page keeps its frame, so a page already in
      frame 0 now shares it. */
  lemma AsWrittenStealsFrameZero(cfg: PT.Config, s: State, a: PT.Access, q: nat)
    requires cfg.Valid() && Shaped(cfg, s) && Shr(a.virMemLoc, cfg.pageBits) < cfg.NumPages()
    requires |s.freeFrames| == 0 && s.pageTable[0] == 0 && s.agingR[0] == 0
    requires var p := PT.SplitAddress(cfg.pageBits, a.virMemLoc).0;
      p != 0 && !Present(cfg.FrameBits(), s.pageTable, p)
      && q != p && q != 0 && Present(cfg.FrameBits(), s.pageTable, q) && GetFrameNum(cfg.FrameBits(), s.pageTable[q]) == 0
    ensures var s' := Step(AsWritten, cfg, s, a).value.0;
      var p := PT.SplitAddress(cfg.pageBits, a.virMemLoc).0;
      && Present(cfg.FrameBits(), s'.pageTable, p) && Present(cfg.FrameBits(), s'.pageTable, q)
      && GetFrameNum(cfg.FrameBits(), s'.pageTable[p]) == 0 == GetFrameNum(cfg.FrameBits(), s'.pageTable[q])
      && !Exclusive(cfg.FrameBits(), s'.pageTable)
  {
    var fb := cfg.FrameBits();
    var p := PT.SplitAddress(cfg.pageBits, a.virMemLoc).0;
    ZeroEntry(fb);
    forall k | 0 <= k < |s.pageTable| ensures !Beats(fb, s.pageTable, s.agingR, k, 0) {}
    UnbeatenSeedStays(fb, s.pageTable, s.agingR, 0, 0);
    assert SelectVictim(AsWritten, fb, s.pageTable, s.agingR) == 0;
    StepState(AsWritten, cfg, s, a);
    ResolveEvict(AsWritten, cfg, s, p);
    var f := Resolve(AsWritten, cfg, s, p);
    assert f.frameNum == 0;
    assert f.state.pageTable[q] == s.pageTable[q];
    FinishFrames(fb, f.state, p, a.command, s.numInstructions + 1);
    var s' := Step(AsWritten, cfg, s, a).value.0;
    assert Present(fb, s'.pageTable, p) && Present(fb, s'.pageTable, q);
    assert GetFrameNum(fb, s'.pageTable[p]) == 0 == GetFrameNum(fb, s'.pageTable[q]);
  }

  /** With a single frame, the first access from the initial state loads its
      page into frame 0 and leaves every other page absent, zero, at counter 0. */
  lemma FirstAccess(cfg: PT.Config, a: PT.Access)
    requires cfg.Valid() && cfg.NumFrames() == 1 && Shr(a.virMemLoc, cfg.pageBits) < cfg.NumPages()
    ensures var r1 := Step(AsWritten, cfg, Init(cfg), a);
      var p := PT.SplitAddress(cfg.pageBits, a.virMemLoc).0;
      && r1.Ok?
      && var s1 := r1.value.0;
      && Shaped(cfg, s1) && s1.freeFrames == [] && s1.numInstructions == 1
      && Present(cfg.FrameBits(), s1.pageTable, p) && GetFrameNum(cfg.FrameBits(), s1.pageTable[p]) == 0
      && forall q :: 0 <= q < |s1.pageTable| && q != p ==> s1.pageTable[q] == 0 && s1.agingR[q] == 0
  {
    var fb := cfg.FrameBits();
    var s0 := Init(cfg);
    var p := PT.SplitAddress(cfg.pageBits, a.virMemLoc).0;
    ZeroEntry(fb);
    StepState(AsWritten, cfg, s0, a);
    assert !Present(fb, s0.pageTable, p);
    ResolveFree(AsWritten, cfg, s0, p);
    var f := Resolve(AsWritten, cfg, s0, p);
    FinishUnchanged(fb, f.state, p, a.command, 1);
  }

  /** With one frame, two accesses to two different pages other than page 0 end
      with both pages present in frame 0: the second fault finds no free frame,
      and the search as written keeps its seed, the absent page 0, whose zero
      entry names frame 0. For instance, header `2 0 0` (one frame, four one-byte
      pages) and the accesses `0 r 1`, `0 r 2`. The corrected rule keeps frames
      exclusive on every trace (`StepInv`). */
  lemma AsWrittenSharesFrame(cfg: PT.Config, a1: PT.Access, a2: PT.Access)
    requires cfg.Valid() && cfg.NumFrames() == 1
    requires Shr(a1.virMemLoc, cfg.pageBits) < cfg.NumPages() && Shr(a2.virMemLoc, cfg.pageBits) < cfg.NumPages()
    requires var p1 := PT.SplitAddress(cfg.pageBits, a1.virMemLoc).0;
      var p2 := PT.SplitAddress(cfg.pageBits, a2.virMemLoc).0;
      p1 != 0 && p2 != 0 && p1 != p2
    ensures var r1 := Step(AsWritten, cfg, Init(cfg), a1);
      && r1.Ok?
      && var r2 := Step(AsWritten, cfg, r1.value.0, a2);
      && r2.Ok?
      && !Exclusive(cfg.FrameBits(), r2.value.0.pageTable)
  {
    FirstAccess(cfg, a1);
    var s1 := Step(AsWritten, cfg, Init(cfg), a1).value.0;
    AsWrittenStealsFrameZero(cfg, s1, a2, PT.SplitAddress(cfg.pageBits, a1.virMemLoc).0);
  }

  /** The instance above: one frame, four one-byte pages, `0 r 1` then `0 r 2`. */
  lemma AsWrittenSharesFrameExample(cfg: PT.Config, a1: PT.Access, a2: PT.Access)
    requires cfg == PT.Config(2, 0, 0, 1) && a1 == PT.Access(0, 'r', 1) && a2 == PT.Access(0, 'r', 2)
    ensures var r1 := Step(AsWritten, cfg, Init(cfg), a1);
      && r1.Ok?
      && var r2 := Step(AsWritten, cfg, r1.value.0, a2);
      && r2.Ok?
      && !Exclusive(0, r2.value.0.pageTable)
  {
    assert cfg.pageBits == 0 && cfg.phyBits - cfg.pageBits == 0 && cfg.virBits - cfg.pageBits == 2;
    assert Pow2(0) == 1 && Pow2(2) == 4;
    var split1 := PT.SplitAddress(cfg.pageBits, a1.virMemLoc);
    var split2 := PT.SplitAddress(cfg.pageBits, a2.virMemLoc);
    assert split1.0 == 1 && split2.0 == 2;
    AsWrittenSharesFrame(cfg, a1, a2);
  }
}
