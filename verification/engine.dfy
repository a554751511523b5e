/** The replay loop of simulador2.c (`simular`): one pass over the trace
    under one algorithm, counting hits and misses. */
module Engine {
  import opened Config
  import opened PageTable
  import opened Policies

  /** Algoritmo without its display name: the policy behind the function
      pointer and the interval of the periodic R reset (0 disables it). */
  datatype Algorithm = Algorithm(policy: Policy, resetInterval: int)

  /** The R reset runs before the access when the interval is positive
      and divides the (already advanced) clock. */
  predicate ResetDue(alg: Algorithm, time: int) {
    alg.resetInterval > 0 && time % alg.resetInterval == 0
  }

  /** `tempo++` followed by the optional zeraR. */
  function Tick(alg: Algorithm, s: Sim): (r: Sim)
    requires WellFormed(s)
    ensures WellFormed(r) && r.time == s.time + 1
  {
    var t := s.(time := s.time + 1);
    if ResetDue(alg, t.time) then ClearReferenced(t) else t
  }

  /** The clock tick keeps the invariant and the set of present pages;
      after a due reset no page has its R bit set, otherwise the entries
      are untouched. */
  lemma TickValid(alg: Algorithm, s: Sim)
    requires Valid(s)
    ensures var t := Tick(alg, s);
      && Valid(t) && (Full(s) ==> Full(t))
      && t.frameToPage == s.frameToPage
      && t.hits == s.hits && t.misses == s.misses
      && t.fifoCursor == s.fifoCursor && t.clockHand == s.clockHand
      && (forall p :: 0 <= p < NumPages ==> t.pages[p].present == s.pages[p].present)
      && (ResetDue(alg, s.time + 1) ==> forall p :: 0 <= p < NumPages ==> !t.pages[p].referenced)
      && (!ResetDue(alg, s.time + 1) ==> t.pages == s.pages)
  {
    ClearReferencedValid(s.(time := s.time + 1));
  }

  /** The hit branch: R set, M or-ed with the access type, last_use
      stamped with the clock; nothing else changes. */
  function AccessHit(s: Sim, a: Access): (r: Sim)
    requires Valid(s) && IsPage(a.page) && s.pages[a.page].present && s.time >= 1
    ensures Valid(r) && (Full(s) ==> Full(r))
    ensures r.frameToPage == s.frameToPage
    ensures r.hits == s.hits + 1 && r.misses == s.misses && r.time == s.time
    ensures r.fifoCursor == s.fifoCursor && r.clockHand == s.clockHand
    ensures forall q :: 0 <= q < NumPages && q != a.page ==> r.pages[q] == s.pages[q]
    ensures r.pages[a.page] == s.pages[a.page].(referenced := true,
      modified := s.pages[a.page].modified || a.write, lastUse := s.time)
  {
    var e := s.pages[a.page];
    var e1 := e.(referenced := true);
    var e2 := if a.write then e1.(modified := true) else e1;
    s.(hits := s.hits + 1, pages := s.pages[a.page := e2.(lastUse := s.time)])
  }

  /** The miss branch: ask the policy for a victim, free its frame and
      load the accessed page there. */
  function AccessMiss(policy: Policy, s: Sim, a: Access): (r: Sim)
    requires Valid(s) && Full(s) && SomePresent(s)
    requires IsPage(a.page) && !s.pages[a.page].present && s.time >= 1
    ensures Valid(r) && Full(r)
    ensures r.hits == s.hits && r.misses == s.misses + 1 && r.time == s.time
    ensures var c := Choose(policy, s); var v := c.victim;
      && PresentSet(r) == PresentSet(s) - {v} + {a.page}
      && r.pages[a.page] == PageEntry(true, s.pages[v].frame, true, a.write, s.time)
      && r.pages[v] == PageEntry(false, -1, false, false, s.pages[v].lastUse)
      && r.frameToPage == s.frameToPage[s.pages[v].frame := a.page]
      && r.fifoCursor == c.sim.fifoCursor && r.clockHand == c.sim.clockHand
      && (forall q :: 0 <= q < NumPages && q != v && q != a.page ==> r.pages[q] == c.sim.pages[q])
  {
    var c := Choose(policy, s);
    var v := c.victim;
    var t := c.sim.(misses := c.sim.misses + 1);
    ReplaceValid(t, v, a.page, a.write);
    LoadPage(RemovePage(t, v), a.page, t.pages[v].frame, a.write)
  }

  /** One iteration of the loop in `simular`. */
  function Step(alg: Algorithm, s: Sim, a: Access): (r: Sim)
    requires Valid(s) && Full(s) && IsPage(a.page)
    ensures Valid(r) && Full(r)
    ensures r.time == s.time + 1
    ensures r.hits + r.misses == s.hits + s.misses + 1
    ensures r.hits == s.hits + 1 <==> s.pages[a.page].present
    ensures r.misses == s.misses + 1 <==> !s.pages[a.page].present
  {
    TickValid(alg, s);
    var t := Tick(alg, s);
    FullSomePresent(t);
    if FindFrame(t, a.page) != -1 then AccessHit(t, a) else AccessMiss(alg.policy, t, a)
  }

  /** A hit changes neither residency nor the frame table; only the
      accessed page's entry is updated (after the optional R reset). */
  lemma StepHit(alg: Algorithm, s: Sim, a: Access)
    requires Valid(s) && Full(s) && IsPage(a.page) && s.pages[a.page].present
    ensures var r := Step(alg, s, a); var t := Tick(alg, s);
      && r.frameToPage == s.frameToPage
      && PresentSet(r) == PresentSet(s)
      && (forall q :: 0 <= q < NumPages && q != a.page ==> r.pages[q] == t.pages[q])
      && r.pages[a.page].present && r.pages[a.page].frame == s.pages[a.page].frame
      && r.pages[a.page].referenced
      && r.pages[a.page].modified == (t.pages[a.page].modified || a.write)
      && r.pages[a.page].lastUse == s.time + 1
  {
    TickValid(alg, s);
    var r := Step(alg, s, a);
    assert PresentSet(r) == PresentSet(s);
  }

  /** A miss evicts exactly one present page, the policy's victim, and
      loads the accessed page into the victim's frame with R set and M
      equal to the access type; every other page keeps the entry the
      policy left it, and the cursors are where the policy moved them. */
  lemma StepMiss(alg: Algorithm, s: Sim, a: Access)
    requires Valid(s) && Full(s) && IsPage(a.page) && !s.pages[a.page].present
    ensures var r := Step(alg, s, a); var t := Tick(alg, s);
      var c := Choose(alg.policy, t); var v := c.victim;
      && v in PresentSet(s) && a.page !in PresentSet(s)
      && PresentSet(r) == PresentSet(s) - {v} + {a.page}
      && r.pages[a.page] == PageEntry(true, s.pages[v].frame, true, a.write, s.time + 1)
      && r.pages[v] == PageEntry(false, -1, false, false, s.pages[v].lastUse)
      && r.frameToPage == s.frameToPage[s.pages[v].frame := a.page]
      && r.fifoCursor == c.sim.fifoCursor && r.clockHand == c.sim.clockHand
      && (forall q :: 0 <= q < NumPages && q != v && q != a.page ==> r.pages[q] == c.sim.pages[q])
  {
    TickValid(alg, s);
    FullSomePresent(Tick(alg, s));
  }

  /** The loop of `simular` over the rest of the trace. */
  function Replay(alg: Algorithm, s: Sim, trace: seq<Access>): (r: Sim)
    requires Valid(s) && Full(s) && ValidTrace(trace)
    decreases |trace|
    ensures Valid(r) && Full(r)
    ensures r.hits + r.misses == s.hits + s.misses + |trace|
    ensures r.time == s.time + |trace|
    ensures r.hits >= s.hits && r.misses >= s.misses
  {
    if |trace| == 0 then s
    else Replay(alg, Step(alg, s, trace[0]), trace[1..])
  }

  /** `simular`: initial load, then the whole trace. */
  function Run(alg: Algorithm, initial: seq<int>, trace: seq<Access>): (r: Sim)
    requires ValidInitial(initial) && ValidTrace(trace)
    ensures Valid(r) && Full(r)
    ensures r.hits + r.misses == |trace|
    ensures r.time == |trace|
    ensures |PresentSet(r)| == NumFrames
  {
    var r := Replay(alg, InitSimulator(initial), trace);
    FullCount(r);
    r
  }

  /** `simular` as the source writes it, a loop over the trace on one
      state; the counters it leaves are those of Run. */
  method Simulate(alg: Algorithm, initial: seq<int>, trace: seq<Access>) returns (hits: nat, misses: nat)
    requires ValidInitial(initial) && ValidTrace(trace)
    ensures hits + misses == |trace|
    ensures hits == Run(alg, initial, trace).hits && misses == Run(alg, initial, trace).misses
  {
    var s := InitSimulator(initial);
    for i := 0 to |trace|
      invariant Valid(s) && Full(s)
      invariant s.hits + s.misses == i
      invariant Replay(alg, s, trace[i..]) == Run(alg, initial, trace)
    {
      assert trace[i..][1..] == trace[i + 1..];
      s := Step(alg, s, trace[i]);
    }
    hits, misses := s.hits, s.misses;
  }
}
