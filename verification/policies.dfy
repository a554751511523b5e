/** The five victim-selection policies of simulador2.c. Each takes the
    simulator state and returns the victim page together with the state
    after the choice: the scanning policies move their cursor and the
    Second Chance scans clear R bits on their way. */
module Policies {
  import opened Config
  import opened Ring
  import opened PageTable
  import opened Recency

  /** The result of a choose_* function: the updated state and the victim. */
  datatype Choice = Choice(sim: Sim, victim: int)

  /** The result of a cursor scan: the page table after the scan, the
      victim, where the cursor ends, and how many frames the cursor moved
      over before it stopped on the victim. */
  datatype Scan = Scan(pages: seq<PageEntry>, victim: int, cursor: int, passed: nat)

  /** What every policy guarantees the replay loop: a present victim, the
      frame table and residency untouched, R bits at most cleared. */
  predicate ChoiceOk(s: Sim, c: Choice)
    requires Valid(s)
  {
    && Valid(c.sim) && (Full(s) ==> Full(c.sim))
    && IsPage(c.victim) && c.sim.pages[c.victim].present
    && c.sim.frameToPage == s.frameToPage
    && c.sim.hits == s.hits && c.sim.misses == s.misses && c.sim.time == s.time
    && PresentSet(c.sim) == PresentSet(s)
    && forall p :: 0 <= p < NumPages ==>
         && c.sim.pages[p].present == s.pages[p].present
         && c.sim.pages[p].frame == s.pages[p].frame
         && c.sim.pages[p].modified == s.pages[p].modified
         && c.sim.pages[p].lastUse == s.pages[p].lastUse
         && (c.sim.pages[p].referenced ==> s.pages[p].referenced)
  }

  /** The test `pag >= 0 && page[pag].presente` the scans apply to a frame. */
  predicate Occupied(s: Sim, f: int) {
    && 0 <= f < |s.frameToPage|
    && 0 <= s.frameToPage[f] < |s.pages|
    && s.pages[s.frameToPage[f]].present
  }

  /** A frame whose page a Second Chance scan would evict on sight. */
  predicate Evictable(s: Sim, f: int) {
    Occupied(s, f) && !s.pages[s.frameToPage[f]].referenced
  }

  function OccupiedFlags(s: Sim): seq<bool> {
    seq(NumFrames, f => Occupied(s, f))
  }

  function EvictableFlags(s: Sim): seq<bool> {
    seq(NumFrames, f => Evictable(s, f))
  }

  /** In a consistent state a page is present exactly when some frame is
      occupied, so a scan from any cursor finds an occupied frame within
      one turn. */
  lemma SomeOccupied(s: Sim, c: int)
    requires Valid(s) && IsFrame(c)
    ensures SomePresent(s) <==> First(OccupiedFlags(s), c) < NumFrames
  {
    FirstNone(OccupiedFlags(s), c);
    if SomePresent(s) {
      var p :| 0 <= p < NumPages && s.pages[p].present;
      assert OccupiedFlags(s)[s.pages[p].frame];
    }
  }

  /** The FIFO scan (the first loop of choose_FIFO) from cursor `c`: the
      cursor moves one frame per iteration and stops past the first
      occupied frame. */
  function FifoScan(s: Sim, c: int): (r: Scan)
    requires Valid(s) && IsFrame(c) && SomePresent(s)
    decreases First(OccupiedFlags(s), c)
    ensures r.pages == s.pages && IsPage(r.victim) && s.pages[r.victim].present
    ensures r.passed < NumFrames
    ensures s.pages[r.victim].frame == At(c, r.passed)
    ensures forall i :: 0 <= i < r.passed ==> !Occupied(s, At(c, i))
    ensures r.cursor == Advance(s.pages[r.victim].frame)
  {
    SomeOccupied(s, c);
    var p := s.frameToPage[c];
    if p >= 0 && s.pages[p].present then
      assert At(c, 0) == c;
      Scan(s.pages, p, Advance(c), 0)
    else
      FirstStep(OccupiedFlags(s), OccupiedFlags(s), c);
      var r := FifoScan(s, Advance(c));
      assert forall i: nat :: At(Advance(c), i) == At(c, i + 1) by {
        forall i: nat { AtAdvance(c, i); }
      }
      assert At(c, 0) == c;
      r.(passed := r.passed + 1)
  }

  /** choose_FIFO: the page in the first occupied frame at or after
      idx_fifo; with every frame occupied, exactly the page under the
      cursor, and the cursor moves one frame on. */
  function ChooseFifo(s: Sim): (c: Choice)
    requires Valid(s) && SomePresent(s)
    ensures ChoiceOk(s, c)
    ensures c.sim == s.(fifoCursor := c.sim.fifoCursor)
    ensures IsPage(c.victim) && s.pages[c.victim].present
    ensures c.sim.fifoCursor == Advance(s.pages[c.victim].frame)
    ensures Full(s) ==> c.victim == s.frameToPage[s.fifoCursor] && c.sim.fifoCursor == Advance(s.fifoCursor)
  {
    var r := FifoScan(s, s.fifoCursor);
    assert At(s.fifoCursor, 0) == s.fifoCursor;
    Choice(s.(fifoCursor := r.cursor), r.victim)
  }

  /** The termination measure of the Second Chance scan: the distance to
      the first evictable frame or, when no present page has R clear, one
      full turn plus the distance to the first occupied frame. */
  function Potential(s: Sim, c: int): nat
    requires WellFormed(s) && IsFrame(c)
  {
    var d := First(EvictableFlags(s), c);
    if d < NumFrames then d else NumFrames + First(OccupiedFlags(s), c)
  }

  /** Clearing R of the page in frame `c` changes no other frame's status. */
  lemma ClearOneFlags(s: Sim, c: int, p: int)
    requires Valid(s) && IsFrame(c) && IsPage(p) && s.frameToPage[c] == p
    ensures var s' := s.(pages := s.pages[p := s.pages[p].(referenced := false)]);
      && Valid(s')
      && OccupiedFlags(s') == OccupiedFlags(s)
      && EvictableFlags(s')[c]
      && forall g :: 0 <= g < NumFrames && g != c ==> EvictableFlags(s')[g] == EvictableFlags(s)[g]
  {
    var s' := s.(pages := s.pages[p := s.pages[p].(referenced := false)]);
    forall g | 0 <= g < NumFrames && g != c
      ensures EvictableFlags(s')[g] == EvictableFlags(s)[g]
    {
      assert s.frameToPage[g] != p;
    }
  }

  /** What a Second Chance scan from cursor `c` promises: the victim is a
      present page whose R bit is clear after the scan; the cursor stops
      one frame past it; the scan stepped over `passed` frames, less than
      one turn or one turn more than the distance to the victim's frame;
      and exactly the present pages in the frames it stepped over have
      their R bit cleared, every other entry being unchanged. */
  predicate ScanSpec(s: Sim, c: int, r: Scan)
    requires Valid(s) && IsFrame(c)
  {
    && |r.pages| == NumPages && IsPage(r.victim) && s.pages[r.victim].present
    && r.pages[r.victim].present && !r.pages[r.victim].referenced
    && r.cursor == Advance(s.pages[r.victim].frame)
    && (r.passed == Offset(c, s.pages[r.victim].frame)
        || r.passed == Offset(c, s.pages[r.victim].frame) + NumFrames)
    && forall p :: 0 <= p < NumPages ==>
         r.pages[p] == if s.pages[p].present && Passed(c, r.passed, s.pages[p].frame)
                       then s.pages[p].(referenced := false) else s.pages[p]
  }

  /** The while(1) loop of choose_SC and choose_Clock, from cursor `c`.
      An empty frame is skipped; a present page with R set has R cleared
      and is skipped; the first present page with R clear is the victim.
      The potential drops by one per skipped frame, so the loop runs at
      most 2 * NumFrames times. */
  function SecondChanceScan(s: Sim, c: int): (r: Scan)
    requires Valid(s) && IsFrame(c) && SomePresent(s)
    decreases Potential(s, c)
    ensures ScanSpec(s, c, r)
    ensures r.passed <= Potential(s, c)
  {
    PotentialBound(s, c);
    var p := s.frameToPage[c];
    if p < 0 || !s.pages[p].present then
      EmptyFrameDrops(s, c);
      var r := SecondChanceScan(s, Advance(c));
      SkipEmpty(s, c, r);
      r.(passed := r.passed + 1)
    else if s.pages[p].referenced then
      var s' := s.(pages := s.pages[p := s.pages[p].(referenced := false)]);
      ReferencedFrameDrops(s, c, p);
      var r := SecondChanceScan(s', Advance(c));
      SkipReferenced(s, c, p, r);
      r.(passed := r.passed + 1)
    else
      assert Offset(c, c) == 0;
      Scan(s.pages, p, Advance(c), 0)
  }

  /** Skipping an empty frame lowers the potential. */
  lemma EmptyFrameDrops(s: Sim, c: int)
    requires Valid(s) && IsFrame(c) && SomePresent(s)
    requires s.frameToPage[c] < 0 || !s.pages[s.frameToPage[c]].present
    ensures Potential(s, Advance(c)) < Potential(s, c)
  {
    SomeOccupied(s, c);
    FirstStep(EvictableFlags(s), EvictableFlags(s), c);
    FirstStep(OccupiedFlags(s), OccupiedFlags(s), c);
  }

  /** Clearing the R bit of the page under the cursor and moving on
      lowers the potential. */
  lemma ReferencedFrameDrops(s: Sim, c: int, p: int)
    requires Valid(s) && IsFrame(c) && IsPage(p) && s.frameToPage[c] == p
    requires s.pages[p].present && s.pages[p].referenced
    ensures var s' := s.(pages := s.pages[p := s.pages[p].(referenced := false)]);
      Valid(s') && SomePresent(s') && Potential(s', Advance(c)) < Potential(s, c)
  {
    var s' := s.(pages := s.pages[p := s.pages[p].(referenced := false)]);
    ClearOneFlags(s, c, p);
    FirstStep(EvictableFlags(s), EvictableFlags(s'), c);
    FirstIs(OccupiedFlags(s), c, 0);
    assert s'.pages[p].present;
  }

  /** Stepping over `c`, a frame with no page to clear, before a scan
      from the next frame. */
  lemma SkipEmpty(s: Sim, c: int, r: Scan)
    requires Valid(s) && IsFrame(c)
    requires s.frameToPage[c] < 0 || !s.pages[s.frameToPage[c]].present
    requires ScanSpec(s, Advance(c), r) && r.passed + 1 < 2 * NumFrames
    ensures ScanSpec(s, c, r.(passed := r.passed + 1))
  {
    var n := r.passed + 1;
    var vf := s.pages[r.victim].frame;
    OffsetAdvance(c, vf);
    forall q | 0 <= q < NumPages
      ensures r.pages[q] == if s.pages[q].present && Passed(c, n, s.pages[q].frame)
                            then s.pages[q].(referenced := false) else s.pages[q]
    {
      if s.pages[q].present {
        PassedStep(c, n, s.pages[q].frame);
        assert s.pages[q].frame != c;
      }
    }
  }

  /** Stepping over `c`, whose page `p` has its R bit cleared, before a
      scan from the next frame in the cleared state. */
  lemma SkipReferenced(s: Sim, c: int, p: int, r: Scan)
    requires Valid(s) && IsFrame(c) && IsPage(p) && s.frameToPage[c] == p
    requires s.pages[p].present && s.pages[p].referenced
    requires var s' := s.(pages := s.pages[p := s.pages[p].(referenced := false)]);
      Valid(s') && ScanSpec(s', Advance(c), r) && r.passed + 1 < 2 * NumFrames
    ensures ScanSpec(s, c, r.(passed := r.passed + 1))
  {
    var s' := s.(pages := s.pages[p := s.pages[p].(referenced := false)]);
    var n := r.passed + 1;
    var vf := s.pages[r.victim].frame;
    assert s'.pages[r.victim].frame == vf;
    OffsetAdvance(c, vf);
    forall q | 0 <= q < NumPages
      ensures r.pages[q] == if s.pages[q].present && Passed(c, n, s.pages[q].frame)
                            then s.pages[q].(referenced := false) else s.pages[q]
    {
      if s.pages[q].present {
        PassedStep(c, n, s.pages[q].frame);
        if q != p {
          assert s.pages[q].frame != c;
          assert s'.pages[q] == s.pages[q];
        } else {
          assert Offset(c, c) == 0;
        }
      }
    }
  }

  /** The scan always stops within two turns of the cursor. */
  lemma PotentialBound(s: Sim, c: int)
    requires Valid(s) && IsFrame(c) && SomePresent(s)
    ensures Potential(s, c) < 2 * NumFrames
  {
    SomeOccupied(s, c);
  }

  /** A page with R set when the scan starts is evicted only after the
      cursor has gone all the way round and cleared it: never on the
      first pass. */
  lemma SecondChanceSparesReferenced(s: Sim, c: int)
    requires Valid(s) && IsFrame(c) && SomePresent(s)
    ensures var r := SecondChanceScan(s, c);
      s.pages[r.victim].referenced ==> r.passed >= NumFrames
  {
    var r := SecondChanceScan(s, c);
    PotentialBound(s, c);
    assert r.pages[r.victim] == if Passed(c, r.passed, s.pages[r.victim].frame)
      then s.pages[r.victim].(referenced := false) else s.pages[r.victim];
  }

  /** A Second Chance scan changes nothing but R bits of present pages. */
  lemma ScanOnlyClears(s: Sim, c: int)
    requires Valid(s) && IsFrame(c) && SomePresent(s)
    ensures var pages := SecondChanceScan(s, c).pages;
      forall p :: 0 <= p < NumPages ==>
        && pages[p].present == s.pages[p].present && pages[p].frame == s.pages[p].frame
        && pages[p].lastUse == s.pages[p].lastUse && pages[p].modified == s.pages[p].modified
        && (pages[p].referenced ==> s.pages[p].referenced)
        && (!s.pages[p].present ==> pages[p] == s.pages[p])
  {
  }

  /** The state a Second Chance scan leaves behind is consistent and has
      the same pages present. */
  lemma ScanValid(s: Sim, c: int)
    requires Valid(s) && IsFrame(c) && SomePresent(s)
    ensures var s' := s.(pages := SecondChanceScan(s, c).pages);
      Valid(s') && (Full(s) ==> Full(s')) && PresentSet(s') == PresentSet(s)
  {
    ScanOnlyClears(s, c);
    var s' := s.(pages := SecondChanceScan(s, c).pages);
    assert PresentSet(s') == PresentSet(s);
  }

  /** The state after the scan, with either cursor moved past the victim,
      is a valid choice. */
  lemma ScanChoiceOk(s: Sim, c: int)
    requires Valid(s) && IsFrame(c) && SomePresent(s)
    ensures var r := SecondChanceScan(s, c);
      && ChoiceOk(s, Choice(s.(pages := r.pages, fifoCursor := r.cursor), r.victim))
      && ChoiceOk(s, Choice(s.(pages := r.pages, clockHand := r.cursor), r.victim))
  {
    ScanOnlyClears(s, c);
    ScanValid(s, c);
    var r := SecondChanceScan(s, c);
    var s' := s.(pages := r.pages);
    CursorsFree(s', r.cursor);
  }

  /** Moving either cursor to a frame keeps the invariant. */
  lemma CursorsFree(s: Sim, c: int)
    requires Valid(s) && IsFrame(c)
    ensures Valid(s.(fifoCursor := c)) && Valid(s.(clockHand := c))
    ensures Full(s) ==> Full(s.(fifoCursor := c)) && Full(s.(clockHand := c))
    ensures PresentSet(s.(fifoCursor := c)) == PresentSet(s) == PresentSet(s.(clockHand := c))
  {
  }

  /** choose_SC: the Second Chance scan driven by idx_fifo. */
  function ChooseSecondChance(s: Sim): (c: Choice)
    requires Valid(s) && SomePresent(s)
    ensures ChoiceOk(s, c)
    ensures var r := SecondChanceScan(s, s.fifoCursor);
      c == Choice(s.(pages := r.pages, fifoCursor := r.cursor), r.victim)
    ensures IsPage(c.victim) && c.sim.pages[c.victim].present && !c.sim.pages[c.victim].referenced
    ensures c.sim.fifoCursor == Advance(s.pages[c.victim].frame)
    ensures s.pages[c.victim].referenced ==> SecondChanceScan(s, s.fifoCursor).passed >= NumFrames
  {
    SecondChanceSparesReferenced(s, s.fifoCursor);
    ScanChoiceOk(s, s.fifoCursor);
    var r := SecondChanceScan(s, s.fifoCursor);
    Choice(s.(pages := r.pages, fifoCursor := r.cursor), r.victim)
  }

  /** choose_Clock: the same scan driven by clock_hand. */
  function ChooseClock(s: Sim): (c: Choice)
    requires Valid(s) && SomePresent(s)
    ensures ChoiceOk(s, c)
    ensures var r := SecondChanceScan(s, s.clockHand);
      c == Choice(s.(pages := r.pages, clockHand := r.cursor), r.victim)
    ensures IsPage(c.victim) && c.sim.pages[c.victim].present && !c.sim.pages[c.victim].referenced
    ensures c.sim.clockHand == Advance(s.pages[c.victim].frame)
    ensures s.pages[c.victim].referenced ==> SecondChanceScan(s, s.clockHand).passed >= NumFrames
  {
    SecondChanceSparesReferenced(s, s.clockHand);
    ScanChoiceOk(s, s.clockHand);
    var r := SecondChanceScan(s, s.clockHand);
    Choice(s.(pages := r.pages, clockHand := r.cursor), r.victim)
  }

  /** `maior` starts at -1000000 in choose_MRU. */
  const MruFloor := -1000000

  /** The present bits and last_use stamps the MRU loop reads. */
  function PresentBits(s: Sim): seq<bool>
    requires WellFormed(s)
  {
    seq(NumPages, p requires 0 <= p < NumPages => s.pages[p].present)
  }

  function LastUses(s: Sim): seq<int>
    requires WellFormed(s)
  {
    seq(NumPages, p requires 0 <= p < NumPages => s.pages[p].lastUse)
  }

  /** choose_MRU: the present page with the largest last_use, the lowest
      page id among equal largest ones. */
  function ChooseMru(s: Sim): (c: Choice)
    requires Valid(s) && SomePresent(s)
    ensures ChoiceOk(s, c)
    ensures c.sim == s && IsPage(c.victim) && s.pages[c.victim].present
    ensures forall q :: 0 <= q < NumPages && s.pages[q].present ==> s.pages[q].lastUse <= s.pages[c.victim].lastUse
    ensures forall q :: 0 <= q < c.victim && s.pages[q].present ==> s.pages[q].lastUse < s.pages[c.victim].lastUse
  {
    var v := MostRecent(PresentBits(s), LastUses(s), MruFloor);
    assert v != -1 by {
      var p :| 0 <= p < NumPages && s.pages[p].present;
      assert PresentBits(s)[p] && LastUses(s)[p] >= 1;
    }
    assert forall q :: 0 <= q < NumPages ==>
      PresentBits(s)[q] == s.pages[q].present && LastUses(s)[q] == s.pages[q].lastUse;
    Choice(s, v)
  }

  /** The NUR class of a page: 0 for R=0 M=0, 1 for R=0 M=1, 2 for R=1
      M=0, 3 for R=1 M=1. */
  function Class(e: PageEntry): (cl: nat)
    ensures cl < 4
    ensures cl < 2 <==> !e.referenced
    ensures cl % 2 == 1 <==> e.modified
  {
    if !e.referenced && !e.modified then 0
    else if !e.referenced && e.modified then 1
    else if e.referenced && !e.modified then 2
    else 3
  }

  /** candidatos[cl] restricted to pages p .. NumPages - 1: the present
      pages of class `cl`, in ascending page order. */
  function Candidates(s: Sim, cl: nat, p: int): (ps: seq<int>)
    requires WellFormed(s) && 0 <= p <= NumPages
    decreases NumPages - p
    ensures forall q :: q in ps <==> p <= q < NumPages && s.pages[q].present && Class(s.pages[q]) == cl
    ensures |ps| > 0 ==> forall q :: q in ps ==> ps[0] <= q
  {
    if p == NumPages then []
    else if s.pages[p].present && Class(s.pages[p]) == cl then [p] + Candidates(s, cl, p + 1)
    else Candidates(s, cl, p + 1)
  }

  /** The loop `for i < 4: if cnt[i] > 0 return candidatos[i][0]` from
      class `i` on, every lower class being empty. */
  function NurPick(s: Sim, i: nat): (v: int)
    requires Valid(s) && SomePresent(s) && i <= 4
    requires forall q :: 0 <= q < NumPages && s.pages[q].present ==> Class(s.pages[q]) >= i
    decreases 4 - i
    ensures IsPage(v) && s.pages[v].present
    ensures forall q :: 0 <= q < NumPages && s.pages[q].present ==>
      Class(s.pages[v]) <= Class(s.pages[q]) && (Class(s.pages[q]) == Class(s.pages[v]) ==> v <= q)
  {
    var cands := Candidates(s, i, 0);
    if |cands| > 0 then
      assert cands[0] in cands;
      cands[0]
    else
      assert i < 4 by {
        var p :| 0 <= p < NumPages && s.pages[p].present;
        assert Class(s.pages[p]) >= i;
      }
      NurPick(s, i + 1)
  }

  /** choose_NUR: the lowest-id present page of the lowest non-empty class. */
  function ChooseNur(s: Sim): (c: Choice)
    requires Valid(s) && SomePresent(s)
    ensures ChoiceOk(s, c)
    ensures c.sim == s && IsPage(c.victim) && s.pages[c.victim].present
    ensures forall q :: 0 <= q < NumPages && s.pages[q].present ==> Class(s.pages[c.victim]) <= Class(s.pages[q])
    ensures forall q :: 0 <= q < NumPages && s.pages[q].present && Class(s.pages[q]) == Class(s.pages[c.victim]) ==> c.victim <= q
  {
    Choice(s, NurPick(s, 0))
  }

  /** The function pointer of an Algoritmo. */
  datatype Policy = Fifo | SecondChance | Clock | Mru | Nur

  /** `alg->choose(s)`. */
  function Choose(policy: Policy, s: Sim): (c: Choice)
    requires Valid(s) && SomePresent(s)
    ensures ChoiceOk(s, c)
  {
    match policy
    case Fifo => ChooseFifo(s)
    case SecondChance => ChooseSecondChance(s)
    case Clock => ChooseClock(s)
    case Mru => ChooseMru(s)
    case Nur => ChooseNur(s)
  }
}
