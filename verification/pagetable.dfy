/** State of the structured simulator (simulador2.c): the page table,
    the frame table that mirrors it, the counters and the two cursors,
    together with the helpers that keep the two tables in step. */
module PageTable {
  import opened Config
  import opened Ring

  /** PageEntry: residency, the frame it occupies (-1 when absent), the
      R and M bits and the time of the last use. */
  datatype PageEntry = PageEntry(present: bool, frame: int, referenced: bool, modified: bool, lastUse: int)

  /** Simulador. `ordem_circular` is left out: it is the identity and never read. */
  datatype Sim = Sim(
    pages: seq<PageEntry>,
    frameToPage: seq<int>,
    hits: nat,
    misses: nat,
    time: int,
    fifoCursor: int,
    clockHand: int)

  predicate WellFormed(s: Sim) {
    && |s.pages| == NumPages
    && |s.frameToPage| == NumFrames
    && IsFrame(s.fifoCursor)
    && IsFrame(s.clockHand)
    && s.time >= 0
    && (forall f :: 0 <= f < NumFrames ==> -1 <= s.frameToPage[f] < NumPages)
  }

  /** Every occupied frame names a present page that records that frame. */
  predicate FramesAgree(s: Sim)
    requires WellFormed(s)
  {
    forall f :: 0 <= f < NumFrames && s.frameToPage[f] >= 0 ==>
      s.pages[s.frameToPage[f]].present && s.pages[s.frameToPage[f]].frame == f
  }

  /** Every present page sits in a frame that names it back. */
  predicate PagesAgree(s: Sim)
    requires WellFormed(s)
  {
    forall p :: 0 <= p < NumPages && s.pages[p].present ==>
      IsFrame(s.pages[p].frame) && s.frameToPage[s.pages[p].frame] == p
  }

  /** Absent pages carry no frame and no R or M bit, and present pages
      have been stamped at least once. */
  predicate EntriesClean(s: Sim)
    requires WellFormed(s)
  {
    forall p :: 0 <= p < NumPages ==>
      if s.pages[p].present then s.pages[p].lastUse >= 1
      else s.pages[p].frame == -1 && !s.pages[p].referenced && !s.pages[p].modified
  }

  /** The invariant of the simulator between two operations. */
  predicate Valid(s: Sim) {
    WellFormed(s) && FramesAgree(s) && PagesAgree(s) && EntriesClean(s)
  }

  /** No frame is empty. */
  predicate Full(s: Sim) {
    WellFormed(s) && forall f :: 0 <= f < NumFrames ==> s.frameToPage[f] >= 0
  }

  predicate SomePresent(s: Sim)
    requires WellFormed(s)
  {
    exists p :: 0 <= p < NumPages && s.pages[p].present
  }

  function PresentSet(s: Sim): set<int> {
    set p | 0 <= p < |s.pages| && s.pages[p].present
  }

  /** The two tables describe the same relation. */
  lemma Agreement(s: Sim, f: int, p: int)
    requires Valid(s) && IsFrame(f) && IsPage(p)
    ensures s.frameToPage[f] == p <==> s.pages[p].present && s.pages[p].frame == f
  {
  }

  /** With every frame occupied, exactly NumFrames pages are present. */
  lemma FullCount(s: Sim)
    requires Valid(s) && Full(s)
    ensures |PresentSet(s)| == NumFrames
  {
    assert Distinct(s.frameToPage);
    DistinctCard(s.frameToPage);
    forall p | p in PresentSet(s)
      ensures p in Elems(s.frameToPage)
    {
      assert s.frameToPage[s.pages[p].frame] == p;
    }
    assert PresentSet(s) == Elems(s.frameToPage);
  }

  /** A full, consistent state has a present page: the one in frame 0. */
  lemma FullSomePresent(s: Sim)
    requires Valid(s) && Full(s)
    ensures SomePresent(s)
  {
    assert s.pages[s.frameToPage[0]].present;
  }

  /** zeraR: clears the R bit of every present page. */
  function ClearReferenced(s: Sim): (r: Sim)
    requires WellFormed(s)
    ensures WellFormed(r)
    ensures r.frameToPage == s.frameToPage
    ensures r.hits == s.hits && r.misses == s.misses && r.time == s.time
    ensures r.fifoCursor == s.fifoCursor && r.clockHand == s.clockHand
    ensures forall p :: 0 <= p < NumPages ==>
      && r.pages[p].present == s.pages[p].present
      && r.pages[p].frame == s.pages[p].frame
      && r.pages[p].modified == s.pages[p].modified
      && r.pages[p].lastUse == s.pages[p].lastUse
      && (r.pages[p].referenced <==> s.pages[p].referenced && !s.pages[p].present)
  {
    var pages := seq(NumPages, p requires 0 <= p < NumPages =>
      if s.pages[p].present then s.pages[p].(referenced := false) else s.pages[p]);
    s.(pages := pages)
  }

  /** After zeraR on a consistent state no page at all has R set, and the
      state is still consistent. */
  lemma ClearReferencedValid(s: Sim)
    requires Valid(s)
    ensures Valid(ClearReferenced(s))
    ensures Full(s) ==> Full(ClearReferenced(s))
    ensures PresentSet(ClearReferenced(s)) == PresentSet(s)
    ensures forall p :: 0 <= p < NumPages ==> !ClearReferenced(s).pages[p].referenced
  {
  }

  /** buscaFrame: the frame of a page, or -1 when it is not present. */
  function FindFrame(s: Sim, p: int): (f: int)
    requires WellFormed(s) && IsPage(p)
    ensures Valid(s) ==> (f == -1 <==> !s.pages[p].present)
    ensures Valid(s) && f != -1 ==> IsFrame(f) && s.frameToPage[f] == p
  {
    if s.pages[p].present then s.pages[p].frame else -1
  }

  /** carregarPaginaEmFrame: installs page `p` in frame `f` at the
      current time; M is only ever set, never cleared, here. */
  function LoadPage(s: Sim, p: int, f: int, write: bool): (r: Sim)
    requires WellFormed(s) && IsPage(p) && IsFrame(f)
    ensures WellFormed(r)
    ensures r.frameToPage == s.frameToPage[f := p]
    ensures forall q :: 0 <= q < NumPages && q != p ==> r.pages[q] == s.pages[q]
    ensures r.pages[p] == PageEntry(true, f, true, s.pages[p].modified || write, s.time)
    ensures r.hits == s.hits && r.misses == s.misses && r.time == s.time
    ensures r.fifoCursor == s.fifoCursor && r.clockHand == s.clockHand
  {
    var e := s.pages[p];
    var e1 := e.(present := true, frame := f, referenced := true);
    var e2 := if write then e1.(modified := true) else e1;
    s.(frameToPage := s.frameToPage[f := p],
       pages := s.pages[p := e2.(lastUse := s.time)])
  }

  /** removerPagina: makes the page absent and frees its frame. */
  function RemovePage(s: Sim, v: int): (r: Sim)
    requires WellFormed(s) && IsPage(v) && IsFrame(s.pages[v].frame)
    ensures WellFormed(r)
    ensures r.frameToPage == s.frameToPage[s.pages[v].frame := -1]
    ensures forall q :: 0 <= q < NumPages && q != v ==> r.pages[q] == s.pages[q]
    ensures !r.pages[v].present && r.pages[v].frame == -1
    ensures !r.pages[v].referenced && !r.pages[v].modified
    ensures r.pages[v].lastUse == s.pages[v].lastUse
    ensures r.hits == s.hits && r.misses == s.misses && r.time == s.time
    ensures r.fifoCursor == s.fifoCursor && r.clockHand == s.clockHand
  {
    var f := s.pages[v].frame;
    s.(pages := s.pages[v := s.pages[v].(present := false, frame := -1, referenced := false, modified := false)],
       frameToPage := s.frameToPage[f := -1])
  }

  /** Evicting a present page of a full, consistent state and loading an
      absent page into the freed frame gives a full, consistent state in
      which the victim has been replaced by the new page. */
  lemma ReplaceValid(s: Sim, v: int, p: int, write: bool)
    requires Valid(s) && Full(s) && IsPage(v) && IsPage(p)
    requires s.pages[v].present && !s.pages[p].present && s.time >= 1
    ensures IsFrame(s.pages[v].frame)
    ensures var r := LoadPage(RemovePage(s, v), p, s.pages[v].frame, write);
      && Valid(r) && Full(r)
      && PresentSet(r) == PresentSet(s) - {v} + {p}
      && r.pages[p] == PageEntry(true, s.pages[v].frame, true, write, s.time)
      && r.frameToPage[s.pages[v].frame] == p
  {
    var f := s.pages[v].frame;
    var m := RemovePage(s, v);
    var r := LoadPage(m, p, f, write);
    assert Valid(m);
    forall g | 0 <= g < NumFrames && r.frameToPage[g] >= 0
      ensures r.pages[r.frameToPage[g]].present && r.pages[r.frameToPage[g]].frame == g
    {
      if g != f {
        assert s.frameToPage[g] != v;
      }
    }
    assert PresentSet(r) == PresentSet(s) - {v} + {p};
  }

  /** The state before the initial load: every page absent, every frame
      empty, counters and cursors at zero. */
  function Blank(): (s: Sim)
    ensures Valid(s) && !Full(s) && PresentSet(s) == {}
    ensures forall f :: 0 <= f < NumFrames ==> s.frameToPage[f] == -1
    ensures forall p :: 0 <= p < NumPages ==> s.pages[p].frame == -1 && s.pages[p].lastUse == -1
    ensures s.hits == 0 && s.misses == 0 && s.time == 0 && s.fifoCursor == 0 && s.clockHand == 0
  {
    var s := Sim(seq(NumPages, _ => PageEntry(false, -1, false, false, -1)),
                 seq(NumFrames, _ => -1), 0, 0, 0, 0, 0);
    assert s.frameToPage[0] == -1;
    s
  }

  /** The entry of the page loaded into frame `f` by the initial load:
      `last_use` counts loads from 1. */
  function InitialEntry(f: int): PageEntry {
    PageEntry(true, f, true, false, f + 1)
  }

  /** The blank state with frames 0 .. f - 1 loaded from `initial`. */
  predicate LoadedUpTo(s: Sim, initial: seq<int>, f: int)
    requires ValidInitial(initial) && 0 <= f <= NumFrames
  {
    && WellFormed(s)
    && s.hits == 0 && s.misses == 0 && s.time == 0
    && s.fifoCursor == 0 && s.clockHand == 0
    && (forall g :: 0 <= g < NumFrames ==> s.frameToPage[g] == if g < f then initial[g] else -1)
    && (forall g :: 0 <= g < f ==> s.pages[initial[g]] == InitialEntry(g))
    && (forall p :: 0 <= p < NumPages && p !in initial[..f] ==>
          s.pages[p] == PageEntry(false, -1, false, false, -1))
  }

  /** The loop of inicializaSimulador over frames f .. NumFrames - 1. */
  function LoadInitial(s: Sim, initial: seq<int>, f: int): (r: Sim)
    requires WellFormed(s) && |initial| == NumFrames && 0 <= f <= NumFrames
    requires forall i :: 0 <= i < |initial| ==> IsPage(initial[i])
    decreases NumFrames - f
    ensures WellFormed(r)
    ensures ValidInitial(initial) && LoadedUpTo(s, initial, f) ==> LoadedUpTo(r, initial, NumFrames)
  {
    if f == NumFrames then s
    else
      var p := initial[f];
      assert IsPage(p);
      var s' := s.(frameToPage := s.frameToPage[f := p],
                   pages := s.pages[p := InitialEntry(f)]);
      assert ValidInitial(initial) && LoadedUpTo(s, initial, f) ==> LoadedUpTo(s', initial, f + 1) by {
        if ValidInitial(initial) && LoadedUpTo(s, initial, f) {
          assert initial[..f + 1] == initial[..f] + [p];
          forall g | 0 <= g < f
            ensures s'.pages[initial[g]] == InitialEntry(g)
          {
            assert initial[g] != p;
          }
        }
      }
      LoadInitial(s', initial, f + 1)
  }

  /** The initial load from the blank state reaches "every frame loaded",
      and so a consistent, full state. */
  lemma InitialLoad(initial: seq<int>)
    requires |initial| == NumFrames
    requires forall i :: 0 <= i < |initial| ==> IsPage(initial[i])
    ensures var s := LoadInitial(Blank(), initial, 0);
      ValidInitial(initial) ==> LoadedUpTo(s, initial, NumFrames) && Valid(s) && Full(s)
  {
    if ValidInitial(initial) {
      assert initial[..0] == [];
      assert LoadedUpTo(Blank(), initial, 0);
      var s := LoadInitial(Blank(), initial, 0);
      assert initial[..NumFrames] == initial;
      forall p | 0 <= p < NumPages && s.pages[p].present
        ensures IsFrame(s.pages[p].frame) && s.frameToPage[s.pages[p].frame] == p
      {
        assert p in initial;
        var g :| 0 <= g < NumFrames && initial[g] == p;
        assert s.pages[initial[g]] == InitialEntry(g);
      }
    }
  }

  /** inicializaSimulador with PAGINAS_INICIAIS given as `initial`: each
      frame f holds initial[f], loaded with R set, M clear and last_use
      f + 1; every other page is absent; counters and cursors are zero;
      the state is consistent and full. */
  function InitSimulator(initial: seq<int>): (s: Sim)
    requires |initial| == NumFrames
    requires forall i :: 0 <= i < |initial| ==> IsPage(initial[i])
    ensures WellFormed(s)
    ensures ValidInitial(initial) ==>
      && Valid(s) && Full(s)
      && s.hits == 0 && s.misses == 0 && s.time == 0
      && s.fifoCursor == 0 && s.clockHand == 0
      && (forall f :: 0 <= f < NumFrames ==>
            s.frameToPage[f] == initial[f] && s.pages[initial[f]] == InitialEntry(f))
      && (forall p :: 0 <= p < NumPages && p !in initial ==>
            s.pages[p] == PageEntry(false, -1, false, false, -1))
  {
    InitialLoad(initial);
    assert initial[..NumFrames] == initial;
    LoadInitial(Blank(), initial, 0)
  }
}
