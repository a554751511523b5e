/** The earlier simulator (simulador.c): four self-contained simulations
    (FIFO, Second Chance, Clock, MRU), each with its own page array, a
    queue of resident pages indexed by frame and a cursor into it. */
module Legacy {
  import opened Config
  import opened Ring
  import opened Recency

  /** Pagina: residency, frame (moldura), R and M bits, and the MRU stamp
      (tempo). */
  datatype Page = Page(present: bool, frame: int, referenced: bool, modified: bool, stamp: int)

  /** The locals of one simulation: memoria, the queue of resident pages
      (fila, or frames for the Clock), its cursor (posFila or ponteiro),
      the MRU clock (tempo) and the counters. */
  datatype State = State(mem: seq<Page>, queue: seq<int>, cursor: int, clock: int, hits: nat, misses: nat)

  /** The four simulations. */
  datatype Simulation = FifoRun | SecondChanceRun | ClockRun | MruRun

  function PresentPages(mem: seq<Page>): set<int> {
    set p | 0 <= p < |mem| && mem[p].present
  }

  /** buscaPagina: the frame of a present page, -1 for an absent one. */
  function LookupPage(mem: seq<Page>, p: int): (f: int)
    requires |mem| == NumPages && IsPage(p)
    ensures mem[p].present ==> f == mem[p].frame
    ensures mem[p].present && IsFrame(mem[p].frame) ==> f != -1
    ensures !mem[p].present ==> f == -1
  {
    if mem[p].present then mem[p].frame else -1
  }

  // ---------------------------------------------------------------------
  // inicializa

  /** The result of inicializa: memoria and framesLivres. */
  datatype Loaded = Loaded(mem: seq<Page>, frames: seq<int>)

  /** The first loop of inicializa: every page absent with R, M and tempo
      zero. moldura is not written and keeps whatever `mem` held. */
  function ClearAll(mem: seq<Page>): (r: seq<Page>)
    ensures |r| == |mem|
    ensures forall p :: 0 <= p < |mem| ==>
      r[p] == Page(false, mem[p].frame, false, false, 0)
  {
    seq(|mem|, p requires 0 <= p < |mem| =>
      mem[p].(present := false, referenced := false, modified := false, stamp := 0))
  }

  /** The second loop of inicializa from index i on. */
  function LoadFrom(mem: seq<Page>, initial: seq<int>, i: int): (r: seq<Page>)
    requires |mem| == NumPages && |initial| == NumFrames && 0 <= i <= NumFrames
    requires forall k :: 0 <= k < |initial| ==> IsPage(initial[k])
    decreases NumFrames - i
    ensures |r| == NumPages
    ensures ValidInitial(initial) ==>
      && (forall k :: i <= k < NumFrames ==> r[initial[k]] == Page(true, k, true, false, 0))
      && (forall p :: 0 <= p < NumPages && p !in initial[i..] ==> r[p] == mem[p])
  {
    if i == NumFrames then mem
    else
      assert IsPage(initial[i]);
      var r := LoadFrom(mem[initial[i] := Page(true, i, true, false, 0)], initial, i + 1);
      assert ValidInitial(initial) ==> initial[i..] == [initial[i]] + initial[i + 1..];
      r
  }

  /** inicializa with paginasIniciais given as `initial`: framesLivres[i]
      is initial[i], every listed page is present in the frame of its
      position with R set, M clear and tempo 0, every other page is absent
      with R, M and tempo cleared and its stale moldura kept. */
  function Initialize(mem: seq<Page>, initial: seq<int>): (l: Loaded)
    requires |mem| == NumPages && |initial| == NumFrames
    requires forall k :: 0 <= k < |initial| ==> IsPage(initial[k])
    ensures |l.mem| == NumPages && l.frames == initial
    ensures ValidInitial(initial) ==>
      && (forall k :: 0 <= k < NumFrames ==> l.mem[initial[k]] == Page(true, k, true, false, 0))
      && (forall p :: 0 <= p < NumPages && p !in initial ==> l.mem[p] == Page(false, mem[p].frame, false, false, 0))
  {
    assert initial[0..] == initial;
    Loaded(LoadFrom(ClearAll(mem), initial, 0), initial)
  }

  // ---------------------------------------------------------------------
  // Invariants

  /** The queue-based simulations (FIFO, Second Chance, Clock): slot i
      holds the page in frame i, no page twice, and the present pages are
      exactly the queued ones. */
  predicate QueueValid(st: State) {
    && |st.mem| == NumPages && |st.queue| == NumFrames && IsFrame(st.cursor)
    && (forall i :: 0 <= i < NumFrames ==> IsPage(st.queue[i]))
    && Distinct(st.queue)
    && (forall i :: 0 <= i < NumFrames ==> st.mem[st.queue[i]].present && st.mem[st.queue[i]].frame == i)
    && (forall p :: 0 <= p < NumPages && st.mem[p].present ==> p in st.queue)
  }

  /** The MRU simulation: NumFrames present pages in distinct frames, all
      stamped with a time that is not negative. */
  predicate MruValid(st: State) {
    && |st.mem| == NumPages && st.clock >= 0
    && |PresentPages(st.mem)| == NumFrames
    && (forall p :: 0 <= p < NumPages && st.mem[p].present ==> IsFrame(st.mem[p].frame) && st.mem[p].stamp >= 0)
    && (forall p, q :: 0 <= p < q < NumPages && st.mem[p].present && st.mem[q].present ==>
          st.mem[p].frame != st.mem[q].frame)
  }

  predicate Inv(sim: Simulation, st: State) {
    if sim == MruRun then MruValid(st) else QueueValid(st)
  }

  /** In the queue-based simulations the present pages are the queued
      ones, hence exactly NumFrames of them. */
  lemma QueueCount(st: State)
    requires QueueValid(st)
    ensures PresentPages(st.mem) == Elems(st.queue)
    ensures |PresentPages(st.mem)| == NumFrames
  {
    DistinctCard(st.queue);
    assert PresentPages(st.mem) == Elems(st.queue);
  }

  /** buscaPagina answers -1 exactly for the pages outside the queue and
      otherwise the slot of the queue the page occupies. */
  lemma LookupQueue(st: State, p: int)
    requires QueueValid(st) && IsPage(p)
    ensures LookupPage(st.mem, p) == -1 <==> p !in st.queue
    ensures LookupPage(st.mem, p) != -1 ==> IsFrame(LookupPage(st.mem, p)) && st.queue[LookupPage(st.mem, p)] == p
  {
    if p in st.queue {
      var i :| 0 <= i < NumFrames && st.queue[i] == p;
      assert st.mem[st.queue[i]].frame == i;
    }
  }

  // ---------------------------------------------------------------------
  // Updates shared by the four simulations

  /** The hit update: R set, M or-ed with the access type. */
  function Touch(mem: seq<Page>, a: Access): (r: seq<Page>)
    requires |mem| == NumPages && IsPage(a.page)
    ensures |r| == NumPages
    ensures forall q :: 0 <= q < NumPages && q != a.page ==> r[q] == mem[q]
    ensures r[a.page] == mem[a.page].(referenced := true, modified := mem[a.page].modified || a.write)
  {
    var e := mem[a.page].(referenced := true);
    mem[a.page := if a.write then e.(modified := true) else e]
  }

  /** Eviction only clears the present bit: R, M, moldura and tempo of
      the victim stay as they were. */
  function Evict(mem: seq<Page>, v: int): (r: seq<Page>)
    requires |mem| == NumPages && IsPage(v)
    ensures |r| == NumPages
    ensures forall q :: 0 <= q < NumPages && q != v ==> r[q] == mem[q]
    ensures r[v] == mem[v].(present := false)
  {
    mem[v := mem[v].(present := false)]
  }

  /** Loading a page: present in frame `f` with R = 1 and M = the access
      type, whatever R and M it was left with when it was last evicted. */
  function Install(mem: seq<Page>, p: int, f: int, write: bool): (r: seq<Page>)
    requires |mem| == NumPages && IsPage(p)
    ensures |r| == NumPages
    ensures forall q :: 0 <= q < NumPages && q != p ==> r[q] == mem[q]
    ensures r[p] == Page(true, f, true, write, mem[p].stamp)
  {
    mem[p := mem[p].(present := true, frame := f, referenced := true, modified := write)]
  }

  /** Replacing the page in slot `k` of a valid queue by an absent page,
      which takes over the victim's frame, keeps the queue valid. */
  lemma ReplaceSlot(st: State, k: int, a: Access, cursor: int)
    requires QueueValid(st) && IsFrame(k) && IsPage(a.page) && !st.mem[a.page].present && IsFrame(cursor)
    ensures var v := st.queue[k];
      var mem := Install(Evict(st.mem, v), a.page, st.mem[v].frame, a.write);
      && QueueValid(st.(mem := mem, queue := st.queue[k := a.page], cursor := cursor))
      && PresentPages(mem) == PresentPages(st.mem) - {v} + {a.page}
  {
    var v := st.queue[k];
    var mem := Install(Evict(st.mem, v), a.page, st.mem[v].frame, a.write);
    var q := st.queue[k := a.page];
    assert a.page !in st.queue;
    forall p | 0 <= p < NumPages && mem[p].present
      ensures p in q
    {
      if p != a.page {
        assert p in st.queue;
        var i :| 0 <= i < NumFrames && st.queue[i] == p;
        assert i != k;
        assert q[i] == p;
      } else {
        assert q[k] == p;
      }
    }
    assert PresentPages(mem) == PresentPages(st.mem) - {v} + {a.page};
  }

  // ---------------------------------------------------------------------
  // simulaFIFO

  /** The FIFO miss: the victim is fila[posFila]; posFila moves on; the
      new page is written at `(posFila + NUM_FRAMES - 1) % NUM_FRAMES`,
      which is the victim's slot, and takes the victim's frame. The victim
      keeps its R, M, moldura and tempo, and every other page is
      untouched. */
  function FifoMiss(st: State, a: Access): (r: State)
    requires QueueValid(st) && IsPage(a.page) && !st.mem[a.page].present
    ensures QueueValid(r)
    ensures r.queue == st.queue[st.cursor := a.page]
    ensures r.cursor == Advance(st.cursor)
    ensures r.mem[a.page] == Page(true, st.cursor, true, a.write, st.mem[a.page].stamp)
    ensures r.mem[st.queue[st.cursor]] == st.mem[st.queue[st.cursor]].(present := false)
    ensures forall q :: 0 <= q < NumPages && q != st.queue[st.cursor] && q != a.page ==> r.mem[q] == st.mem[q]
    ensures PresentPages(r.mem) == PresentPages(st.mem) - {st.queue[st.cursor]} + {a.page}
    ensures r.hits == st.hits && r.misses == st.misses + 1 && r.clock == st.clock
  {
    var v := st.queue[st.cursor];
    var next := Advance(st.cursor);
    var mem := Evict(st.mem, v);
    var free := mem[v].frame;
    var slot := (next + NumFrames - 1) % NumFrames;
    assert slot == st.cursor;
    ReplaceSlot(st, st.cursor, a, next);
    st.(mem := Install(mem, a.page, free, a.write), queue := st.queue[slot := a.page],
        cursor := next, misses := st.misses + 1)
  }

  // ---------------------------------------------------------------------
  // simulaSegundaChance and simulaRelogio

  /** The result of the search loop: the page array after it, the slot
      where it stopped and the number of slots it stepped over. */
  datatype Found = Found(mem: seq<Page>, slot: int, passed: nat)

  /** A queued page that the search would take on sight. */
  predicate SlotClear(st: State, i: int) {
    0 <= i < |st.queue| && 0 <= st.queue[i] < |st.mem| && !st.mem[st.queue[i]].referenced
  }

  function SlotFlags(st: State): seq<bool> {
    seq(NumFrames, i => SlotClear(st, i))
  }

  /** What the search from `st.cursor` promises: it stops on a slot whose
      page has R clear, after stepping over fewer slots than one turn, or
      exactly one turn when it comes back to its start; the pages in the
      slots it stepped over have R cleared and nothing else changes. */
  predicate SearchSpec(st: State, r: Found)
    requires QueueValid(st)
  {
    && |r.mem| == NumPages && IsFrame(r.slot)
    && !r.mem[st.queue[r.slot]].referenced
    && r.passed <= NumFrames
    && (r.passed == Offset(st.cursor, r.slot) || (r.passed == NumFrames && r.slot == st.cursor))
    && forall p :: 0 <= p < NumPages ==>
         r.mem[p] == if st.mem[p].present && Passed(st.cursor, r.passed, st.mem[p].frame)
                     then st.mem[p].(referenced := false) else st.mem[p]
  }

  /** One skipped candidate: its R bit cleared, the cursor one slot on. */
  function SkipSlot(st: State): (r: State)
    requires QueueValid(st)
    ensures QueueValid(r)
  {
    var cand := st.queue[st.cursor];
    st.(mem := st.mem[cand := st.mem[cand].(referenced := false)], cursor := Advance(st.cursor))
  }

  /** The while(1) loop of the miss branch: a candidate with R = 1 has R
      cleared and is skipped, the first with R = 0 is the victim. Every
      slot is occupied, so the loop stops within NumFrames + 1 iterations. */
  function SecondChanceSearch(st: State): (r: Found)
    requires QueueValid(st)
    decreases First(SlotFlags(st), st.cursor)
    ensures SearchSpec(st, r)
    ensures r.passed <= First(SlotFlags(st), st.cursor)
  {
    if st.mem[st.queue[st.cursor]].referenced then
      SearchStepDrops(st);
      var r := SecondChanceSearch(SkipSlot(st));
      SearchStep(st, r);
      r.(passed := r.passed + 1)
    else
      SearchStops(st);
      Found(st.mem, st.cursor, 0)
  }

  /** A candidate with R clear ends the search where it starts. */
  lemma SearchStops(st: State)
    requires QueueValid(st) && !st.mem[st.queue[st.cursor]].referenced
    ensures SearchSpec(st, Found(st.mem, st.cursor, 0))
  {
    assert Offset(st.cursor, st.cursor) == 0;
  }

  /** Clearing the R bit under the cursor and moving on brings the next
      page with R clear one slot closer; when there was none, the cleared
      page is now one slot short of a full turn away. */
  lemma SearchStepDrops(st: State)
    requires QueueValid(st) && st.mem[st.queue[st.cursor]].referenced
    ensures First(SlotFlags(SkipSlot(st)), SkipSlot(st).cursor) + 1 <= First(SlotFlags(st), st.cursor)
  {
    var cand := st.queue[st.cursor];
    var st' := SkipSlot(st);
    forall g | 0 <= g < NumFrames && g != st.cursor
      ensures SlotFlags(st')[g] == SlotFlags(st)[g]
    {
      assert st.queue[g] != cand;
    }
    assert SlotFlags(st')[st.cursor];
    FirstStep(SlotFlags(st), SlotFlags(st'), st.cursor);
  }

  /** The search contract from the next slot carries over to the search
      that first stepped over the cursor's slot and cleared its R bit. */
  lemma SearchStep(st: State, r: Found)
    requires QueueValid(st) && st.mem[st.queue[st.cursor]].referenced
    requires SearchSpec(SkipSlot(st), r) && r.passed < NumFrames
    ensures SearchSpec(st, r.(passed := r.passed + 1))
  {
    var c := st.cursor;
    var cand := st.queue[c];
    var st' := SkipSlot(st);
    var n := r.passed + 1;
    OffsetAdvance(c, r.slot);
    forall p | 0 <= p < NumPages
      ensures r.mem[p] == if st.mem[p].present && Passed(c, n, st.mem[p].frame)
                          then st.mem[p].(referenced := false) else st.mem[p]
    {
      if st.mem[p].present {
        PassedStep(c, n, st.mem[p].frame);
        if p != cand {
          assert p in st.queue;
          var i :| 0 <= i < NumFrames && st.queue[i] == p;
          assert st.mem[p].frame != c;
        } else {
          assert Offset(c, c) == 0;
        }
      }
    }
  }

  /** The search only clears R bits: the queue stays valid, residency,
      frames and stamps are unchanged, and absent pages are untouched. */
  lemma SearchKeeps(st: State)
    requires QueueValid(st)
    ensures var f := SecondChanceSearch(st);
      && QueueValid(st.(mem := f.mem))
      && PresentPages(f.mem) == PresentPages(st.mem)
      && (forall p :: 0 <= p < NumPages ==>
            f.mem[p].present == st.mem[p].present && f.mem[p].frame == st.mem[p].frame
            && f.mem[p].stamp == st.mem[p].stamp)
      && (forall p :: 0 <= p < NumPages && !st.mem[p].present ==> f.mem[p] == st.mem[p])
  {
    var f := SecondChanceSearch(st);
    assert PresentPages(f.mem) == PresentPages(st.mem);
  }

  /** The Second Chance / Clock miss: the searched-for page is evicted,
      keeping its R, M, moldura and tempo; the new page takes its slot
      and frame with R = 1 and M = the access type; the cursor moves past
      that slot; every other page keeps what the search left it. */
  function SecondChanceMiss(st: State, a: Access): (r: State)
    requires QueueValid(st) && IsPage(a.page) && !st.mem[a.page].present
    ensures QueueValid(r)
    ensures var f := SecondChanceSearch(st);
      && !f.mem[st.queue[f.slot]].referenced
      && r.queue == st.queue[f.slot := a.page]
      && r.cursor == Advance(f.slot)
      && r.mem[a.page] == Page(true, f.slot, true, a.write, st.mem[a.page].stamp)
      && r.mem[st.queue[f.slot]] == f.mem[st.queue[f.slot]].(present := false)
      && (forall q :: 0 <= q < NumPages && q != st.queue[f.slot] && q != a.page ==> r.mem[q] == f.mem[q])
      && PresentPages(r.mem) == PresentPages(st.mem) - {st.queue[f.slot]} + {a.page}
    ensures r.hits == st.hits && r.misses == st.misses + 1 && r.clock == st.clock
  {
    var f := SecondChanceSearch(st);
    var v := st.queue[f.slot];
    SearchKeeps(st);
    ReplaceSlot(st.(mem := f.mem), f.slot, a, Advance(f.slot));
    var mem := Evict(f.mem, v);
    st.(mem := Install(mem, a.page, mem[v].frame, a.write), queue := st.queue[f.slot := a.page],
        cursor := Advance(f.slot), misses := st.misses + 1)
  }

  // ---------------------------------------------------------------------
  // simulaMRU

  /** `maior` starts at -1 in simulaMRU. */
  const MruFloor := -1

  function Presence(mem: seq<Page>): seq<bool> {
    seq(|mem|, p requires 0 <= p < |mem| => mem[p].present)
  }

  function Stamps(mem: seq<Page>): seq<int> {
    seq(|mem|, p requires 0 <= p < |mem| => mem[p].stamp)
  }

  /** The victim of simulaMRU: the present page with the largest tempo,
      the lowest page id among equal largest ones. */
  function MruVictim(st: State): (v: int)
    requires MruValid(st)
    ensures IsPage(v) && st.mem[v].present
    ensures forall q :: 0 <= q < NumPages && st.mem[q].present ==> st.mem[q].stamp <= st.mem[v].stamp
    ensures forall q :: 0 <= q < v && st.mem[q].present ==> st.mem[q].stamp < st.mem[v].stamp
  {
    var v := MostRecent(Presence(st.mem), Stamps(st.mem), MruFloor);
    assert forall q :: 0 <= q < NumPages ==>
      Presence(st.mem)[q] == st.mem[q].present && Stamps(st.mem)[q] == st.mem[q].stamp;
    assert v != -1 by {
      assert PresentPages(st.mem) != {};
      var p :| p in PresentPages(st.mem);
      assert Presence(st.mem)[p] && Stamps(st.mem)[p] >= 0;
    }
    v
  }

  /** The reload after the MRU search: the victim leaves, the new page
      takes its frame with R = 1, M = the access type and tempo `t`. */
  function MruReload(mem: seq<Page>, v: int, a: Access, t: int): (r: seq<Page>)
    requires |mem| == NumPages && IsPage(v) && IsPage(a.page) && v != a.page
    ensures |r| == NumPages
    ensures forall q :: 0 <= q < NumPages && q != v && q != a.page ==> r[q] == mem[q]
    ensures r[v] == mem[v].(present := false)
    ensures r[a.page] == Page(true, mem[v].frame, true, a.write, t)
  {
    var m := Install(Evict(mem, v), a.page, mem[v].frame, a.write);
    m[a.page := m[a.page].(stamp := t)]
  }

  /** Swapping a present page for an absent one replaces one element of
      the set of present pages and keeps its size. */
  lemma MruReloadSet(mem: seq<Page>, v: int, a: Access, t: int)
    requires |mem| == NumPages && IsPage(v) && mem[v].present && IsPage(a.page) && !mem[a.page].present
    ensures PresentPages(MruReload(mem, v, a, t)) == PresentPages(mem) - {v} + {a.page}
    ensures |PresentPages(MruReload(mem, v, a, t))| == |PresentPages(mem)|
  {
    var rest := PresentPages(mem) - {v};
    assert PresentPages(mem) == rest + {v};
    assert PresentPages(MruReload(mem, v, a, t)) == rest + {a.page};
  }

  /** Swapping a present page for an absent one keeps the MRU invariant. */
  lemma MruReloadValid(st: State, v: int, a: Access)
    requires MruValid(st) && IsPage(v) && st.mem[v].present && IsPage(a.page) && !st.mem[a.page].present
    ensures MruValid(st.(mem := MruReload(st.mem, v, a, st.clock)))
  {
    var mem := MruReload(st.mem, v, a, st.clock);
    MruReloadSet(st.mem, v, a, st.clock);
    forall p, q | 0 <= p < q < NumPages && mem[p].present && mem[q].present
      ensures mem[p].frame != mem[q].frame
    {
      if p == a.page {
        assert st.mem[q].present && q != v;
      } else if q == a.page {
        assert st.mem[p].present && p != v;
      }
    }
  }

  /** The MRU miss: the victim's frame goes to the new page, stamped with
      the current clock; the victim keeps everything but presente, and
      every other page is untouched. */
  function MruMiss(st: State, a: Access): (r: State)
    requires MruValid(st) && IsPage(a.page) && !st.mem[a.page].present
    ensures MruValid(r)
    ensures var v := MruVictim(st);
      && r.mem[v] == st.mem[v].(present := false)
      && (forall q :: 0 <= q < NumPages && q != v && q != a.page ==> r.mem[q] == st.mem[q])
      && r.mem[a.page] == Page(true, st.mem[v].frame, true, a.write, st.clock)
      && PresentPages(r.mem) == PresentPages(st.mem) - {v} + {a.page}
    ensures r.hits == st.hits && r.misses == st.misses + 1 && r.clock == st.clock
    ensures r.queue == st.queue && r.cursor == st.cursor
  {
    var v := MruVictim(st);
    MruReloadSet(st.mem, v, a, st.clock);
    MruReloadValid(st, v, a);
    st.(mem := MruReload(st.mem, v, a, st.clock), misses := st.misses + 1)
  }

  // ---------------------------------------------------------------------
  // The replay loops

  /** Under either invariant there are NumFrames present pages, and
      buscaPagina fails exactly for the absent ones. */
  lemma InvFacts(sim: Simulation, st: State, p: int)
    requires Inv(sim, st) && IsPage(p)
    ensures |PresentPages(st.mem)| == NumFrames
    ensures LookupPage(st.mem, p) == -1 <==> !st.mem[p].present
  {
    if sim != MruRun {
      QueueCount(st);
      LookupQueue(st, p);
    }
  }

  /** The hit branch: R set, M or-ed with the access type, and in
      simulaMRU tempo stamped with the clock; residency, the queue and the
      cursor do not change. */
  function Hit(sim: Simulation, st: State, a: Access): (r: State)
    requires Inv(sim, st) && IsPage(a.page) && st.mem[a.page].present
    ensures Inv(sim, r)
    ensures PresentPages(r.mem) == PresentPages(st.mem)
    ensures r.hits == st.hits + 1 && r.misses == st.misses
    ensures r.queue == st.queue && r.cursor == st.cursor && r.clock == st.clock
    ensures forall q :: 0 <= q < NumPages && q != a.page ==> r.mem[q] == st.mem[q]
    ensures r.mem[a.page] == st.mem[a.page].(referenced := true, modified := st.mem[a.page].modified || a.write,
      stamp := if sim == MruRun then st.clock else st.mem[a.page].stamp)
  {
    var mem := Touch(st.mem, a);
    var mem' := if sim == MruRun then mem[a.page := mem[a.page].(stamp := st.clock)] else mem;
    assert PresentPages(mem') == PresentPages(st.mem);
    st.(mem := mem', hits := st.hits + 1)
  }

  /** The miss branch of each simulation. */
  function Miss(sim: Simulation, st: State, a: Access): (r: State)
    requires Inv(sim, st) && IsPage(a.page) && !st.mem[a.page].present
    ensures Inv(sim, r)
    ensures |PresentPages(r.mem)| == NumFrames
    ensures a.page in PresentPages(r.mem)
    ensures r.hits == st.hits && r.misses == st.misses + 1
  {
    match sim
    case FifoRun => var r := FifoMiss(st, a); QueueCount(r); r
    case SecondChanceRun => var r := SecondChanceMiss(st, a); QueueCount(r); r
    case ClockRun => var r := SecondChanceMiss(st, a); QueueCount(r); r
    case MruRun => MruMiss(st, a)
  }

  /** One iteration of the loop of a simulation. Only simulaMRU keeps a
      clock: it ticks before the lookup. */
  function Step(sim: Simulation, st: State, a: Access): (r: State)
    requires Inv(sim, st) && IsPage(a.page)
    ensures Inv(sim, r)
    ensures |PresentPages(r.mem)| == NumFrames
    ensures r.hits + r.misses == st.hits + st.misses + 1
    ensures r.hits == st.hits + 1 <==> st.mem[a.page].present
    ensures r.misses == st.misses + 1 <==> !st.mem[a.page].present
    ensures st.mem[a.page].present ==> PresentPages(r.mem) == PresentPages(st.mem)
    ensures a.page in PresentPages(r.mem)
  {
    var st1 := if sim == MruRun then st.(clock := st.clock + 1) else st;
    InvFacts(sim, st1, a.page);
    if LookupPage(st1.mem, a.page) != -1 then Hit(sim, st1, a) else Miss(sim, st1, a)
  }

  /** The loop of a simulation over the rest of the trace. */
  function Replay(sim: Simulation, st: State, trace: seq<Access>): (r: State)
    requires Inv(sim, st) && ValidTrace(trace)
    decreases |trace|
    ensures Inv(sim, r)
    ensures r.hits + r.misses == st.hits + st.misses + |trace|
  {
    if |trace| == 0 then st
    else Replay(sim, Step(sim, st, trace[0]), trace[1..])
  }

  /** One step of the loop: a hit keeps every page's residency and
      counts one hit; a miss counts one miss. */
  lemma StepCounts(sim: Simulation, st: State, a: Access, q: int)
    requires Inv(sim, st) && IsPage(a.page) && IsPage(q)
    ensures var r := Step(sim, st, a);
      && Inv(sim, r)
      && (st.mem[a.page].present ==> r.hits == st.hits + 1 && r.misses == st.misses && r.mem[q].present == st.mem[q].present)
      && (!st.mem[a.page].present ==> r.hits == st.hits && r.misses == st.misses + 1)
  {
    var r := Step(sim, st, a);
    if st.mem[a.page].present {
      assert q in PresentPages(r.mem) <==> q in PresentPages(st.mem);
    }
  }

  /** The loop over a non-empty trace is one step followed by the loop
      over the rest. */
  lemma ReplayUnfold(sim: Simulation, st: State, trace: seq<Access>)
    requires Inv(sim, st) && ValidTrace(trace) && |trace| >= 1
    ensures Replay(sim, st, trace) == Replay(sim, Step(sim, st, trace[0]), trace[1..])
    ensures |trace| == 1 ==> Replay(sim, st, trace) == Step(sim, st, trace[0])
  {
  }

  /** After inicializa a page is present exactly when it is listed in
      paginasIniciais. */
  lemma InitialIn(mem: seq<Page>, initial: seq<int>, p: int)
    requires |mem| == NumPages && ValidInitial(initial) && IsPage(p)
    ensures Initialize(mem, initial).mem[p].present <==> p in initial
  {
    if p in initial {
      var k :| 0 <= k < NumFrames && initial[k] == p;
    }
  }

  /** A page array whose present pages are the elements of a list
      without repetitions has as many present pages as the list is long. */
  lemma PresentAreElems(mem: seq<Page>, xs: seq<int>)
    requires Distinct(xs) && forall x :: x in xs ==> 0 <= x < |mem|
    requires forall p :: 0 <= p < |mem| ==> (mem[p].present <==> p in xs)
    ensures PresentPages(mem) == Elems(xs) && |PresentPages(mem)| == |xs|
  {
    assert PresentPages(mem) == Elems(xs);
    DistinctCard(xs);
  }

  /** The state inicializa leaves, in the form the lemmas below use:
      presence is membership in paginasIniciais, and the k-th listed page
      sits in frame k. */
  lemma InitialShape(mem: seq<Page>, initial: seq<int>)
    requires |mem| == NumPages && ValidInitial(initial)
    ensures var m := Initialize(mem, initial).mem;
      && (forall p :: 0 <= p < NumPages ==> (m[p].present <==> p in initial))
      && (forall k :: 0 <= k < NumFrames ==> m[initial[k]] == Page(true, k, true, false, 0))
  {
    forall p | 0 <= p < NumPages
      ensures Initialize(mem, initial).mem[p].present <==> p in initial
    {
      InitialIn(mem, initial, p);
    }
  }

  /** After inicializa exactly the pages of paginasIniciais are present,
      NumFrames of them. */
  lemma InitialPresent(mem: seq<Page>, initial: seq<int>)
    requires |mem| == NumPages && ValidInitial(initial)
    ensures PresentPages(Initialize(mem, initial).mem) == Elems(initial)
    ensures |PresentPages(Initialize(mem, initial).mem)| == NumFrames
  {
    InitialShape(mem, initial);
    PresentAreElems(Initialize(mem, initial).mem, initial);
  }

  /** The queue-based simulations start valid: inicializa, fila (or
      framesLivres) equal to paginasIniciais, cursor 0, zero counters. */
  lemma QueueStart(mem: seq<Page>, initial: seq<int>)
    requires |mem| == NumPages && ValidInitial(initial)
    ensures QueueValid(State(Initialize(mem, initial).mem, initial, 0, 0, 0, 0))
  {
    InitialPresent(mem, initial);
  }

  /** A page array holding the k-th listed page in frame k with tempo 0,
      and no other page, has its present pages in distinct frames. */
  lemma ListedFrames(mem: seq<Page>, xs: seq<int>)
    requires |xs| == NumFrames && Distinct(xs) && forall k :: 0 <= k < |xs| ==> 0 <= xs[k] < |mem|
    requires forall p :: 0 <= p < |mem| ==> (mem[p].present <==> p in xs)
    requires forall k :: 0 <= k < |xs| ==> mem[xs[k]] == Page(true, k, true, false, 0)
    ensures forall p :: 0 <= p < |mem| && mem[p].present ==> IsFrame(mem[p].frame) && mem[p].stamp == 0
    ensures forall p, q :: 0 <= p < q < |mem| && mem[p].present && mem[q].present ==> mem[p].frame != mem[q].frame
  {
    forall p | 0 <= p < |mem| && mem[p].present
      ensures IsFrame(mem[p].frame) && mem[p].stamp == 0
    {
      var i :| 0 <= i < NumFrames && xs[i] == p;
    }
    forall p, q | 0 <= p < q < |mem| && mem[p].present && mem[q].present
      ensures mem[p].frame != mem[q].frame
    {
      var i :| 0 <= i < NumFrames && xs[i] == p;
      var j :| 0 <= j < NumFrames && xs[j] == q;
    }
  }

  /** After inicializa the present pages are the listed ones, in
      distinct frames, stamped 0. */
  lemma InitialFrames(mem: seq<Page>, initial: seq<int>)
    requires |mem| == NumPages && ValidInitial(initial)
    ensures var m := Initialize(mem, initial).mem;
      && (forall p :: 0 <= p < NumPages && m[p].present ==> IsFrame(m[p].frame) && m[p].stamp == 0)
      && (forall p, q :: 0 <= p < q < NumPages && m[p].present && m[q].present ==> m[p].frame != m[q].frame)
  {
    InitialShape(mem, initial);
    ListedFrames(Initialize(mem, initial).mem, initial);
  }

  /** simulaMRU starts valid as well. */
  lemma MruStart(mem: seq<Page>, initial: seq<int>)
    requires |mem| == NumPages && ValidInitial(initial)
    ensures MruValid(State(Initialize(mem, initial).mem, initial, 0, 0, 0, 0))
  {
    InitialPresent(mem, initial);
    InitialFrames(mem, initial);
  }

  /** simulaFIFO: fila is a copy of paginasIniciais, posFila starts at 0. */
  function RunFifo(mem: seq<Page>, initial: seq<int>, trace: seq<Access>): (r: State)
    requires |mem| == NumPages && ValidInitial(initial) && ValidTrace(trace)
    ensures QueueValid(r) && |PresentPages(r.mem)| == NumFrames
    ensures r.hits + r.misses == |trace|
  {
    QueueStart(mem, initial);
    var r := Replay(FifoRun, State(Initialize(mem, initial).mem, initial, 0, 0, 0, 0), trace);
    QueueCount(r);
    r
  }

  /** simulaSegundaChance: fila is a copy of paginasIniciais, posFila
      starts at 0. */
  function RunSecondChance(mem: seq<Page>, initial: seq<int>, trace: seq<Access>): (r: State)
    requires |mem| == NumPages && ValidInitial(initial) && ValidTrace(trace)
    ensures QueueValid(r) && |PresentPages(r.mem)| == NumFrames
    ensures r.hits + r.misses == |trace|
  {
    QueueStart(mem, initial);
    var r := Replay(SecondChanceRun, State(Initialize(mem, initial).mem, initial, 0, 0, 0, 0), trace);
    QueueCount(r);
    r
  }

  /** simulaRelogio: the hand walks the framesLivres array inicializa
      filled, starting at 0. */
  function RunClock(mem: seq<Page>, initial: seq<int>, trace: seq<Access>): (r: State)
    requires |mem| == NumPages && ValidInitial(initial) && ValidTrace(trace)
    ensures QueueValid(r) && |PresentPages(r.mem)| == NumFrames
    ensures r.hits + r.misses == |trace|
  {
    var l := Initialize(mem, initial);
    QueueStart(mem, initial);
    var r := Replay(ClockRun, State(l.mem, l.frames, 0, 0, 0, 0), trace);
    QueueCount(r);
    r
  }

  /** simulaMRU: tempo starts at 0. */
  function RunMru(mem: seq<Page>, initial: seq<int>, trace: seq<Access>): (r: State)
    requires |mem| == NumPages && ValidInitial(initial) && ValidTrace(trace)
    ensures MruValid(r) && |PresentPages(r.mem)| == NumFrames
    ensures r.hits + r.misses == |trace|
  {
    var l := Initialize(mem, initial);
    MruStart(mem, initial);
    Replay(MruRun, State(l.mem, l.frames, 0, 0, 0, 0), trace)
  }

  /** The Second Chance and Clock loops make the same decision at every
      step from the same state. */
  lemma {:induction false} ReplaySecondChanceClock(st: State, trace: seq<Access>)
    requires QueueValid(st) && ValidTrace(trace)
    decreases |trace|
    ensures Replay(SecondChanceRun, st, trace) == Replay(ClockRun, st, trace)
  {
    if |trace| > 0 {
      assert Step(SecondChanceRun, st, trace[0]) == Step(ClockRun, st, trace[0]);
      ReplaySecondChanceClock(Step(SecondChanceRun, st, trace[0]), trace[1..]);
    }
  }

  /** simulaSegundaChance and simulaRelogio end in the same state, hence
      with the same hit and miss counts: fila and framesLivres both start
      as paginasIniciais with the cursor on slot 0. */
  lemma SecondChanceClockAgree(mem: seq<Page>, initial: seq<int>, trace: seq<Access>)
    requires |mem| == NumPages && ValidInitial(initial) && ValidTrace(trace)
    ensures RunSecondChance(mem, initial, trace) == RunClock(mem, initial, trace)
    ensures RunSecondChance(mem, initial, trace).hits == RunClock(mem, initial, trace).hits
    ensures RunSecondChance(mem, initial, trace).misses == RunClock(mem, initial, trace).misses
  {
    QueueStart(mem, initial);
    ReplaySecondChanceClock(State(Initialize(mem, initial).mem, initial, 0, 0, 0, 0), trace);
  }

  /** When every present page has the same tempo, the MRU victim is the
      present page with the lowest id. */
  lemma MruTie(st: State, t: int)
    requires MruValid(st)
    requires forall p :: 0 <= p < NumPages && st.mem[p].present ==> st.mem[p].stamp == t
    ensures forall p :: 0 <= p < NumPages && st.mem[p].present ==> MruVictim(st) <= p
  {
  }

  /** All pages start with tempo 0, so a miss before any hit evicts the
      initial page with the lowest id. */
  lemma MruFirstVictim(mem: seq<Page>, initial: seq<int>)
    requires |mem| == NumPages && ValidInitial(initial)
    ensures var st := State(Initialize(mem, initial).mem, initial, 0, 0, 0, 0);
      MruValid(st) && MruVictim(st) in initial && forall k :: 0 <= k < NumFrames ==> MruVictim(st) <= initial[k]
  {
    var st := State(Initialize(mem, initial).mem, initial, 0, 0, 0, 0);
    MruStart(mem, initial);
    InitialFrames(mem, initial);
    MruTie(st, 0);
    var v := MruVictim(st);
    InitialIn(mem, initial, v);
    forall k | 0 <= k < NumFrames
      ensures v <= initial[k]
    {
      InitialIn(mem, initial, initial[k]);
    }
  }
}
