/** The fixed workload both simulators are compiled with: the eight pages
    loaded at start and the 25-access trace, and what the first accesses
    of that trace do under every algorithm. */
module Scenario {
  import opened Config
  import PageTable
  import Policies
  import Engine
  import Legacy

  /** PAGINAS_INICIAIS / paginasIniciais. */
  const InitialPages: seq<int> := [3, 1, 0, 5, 4, 9, 2, 11]

  /** TIPO_ACESSO / tipoAcesso: 1 for a write. */
  const Kinds: seq<int> := [0, 0, 1, 0, 1, 1, 0, 0, 0, 0, 1, 0, 0, 1, 0, 0, 0, 1, 0, 0, 0, 1, 0, 0, 0]

  /** PAG_ACESSO / paginaAcessada. */
  const Pages: seq<int> := [0, 1, 2, 6, 7, 1, 7, 6, 2, 3, 0, 4, 0, 6, 1, 8, 12, 8, 2, 15, 6, 0, 3, 5, 0]

  /** The trace, one access per position. */
  function Trace(): (t: seq<Access>)
    ensures |t| == 25
    ensures forall i :: 0 <= i < 25 ==> t[i] == Access(Kinds[i] == 1, Pages[i])
  {
    seq(25, i requires 0 <= i < 25 => Access(Kinds[i] == 1, Pages[i]))
  }

  /** The algorithms table of simulador2.c: NUR is the only one with a
      periodic R reset, every 8 ticks. */
  const Algorithms: seq<Engine.Algorithm> := [
    Engine.Algorithm(Policies.Fifo, 0),
    Engine.Algorithm(Policies.SecondChance, 0),
    Engine.Algorithm(Policies.Clock, 0),
    Engine.Algorithm(Policies.Mru, 0),
    Engine.Algorithm(Policies.Nur, 8)]

  /** The workload meets the preconditions of both simulators: eight
      distinct initial pages and a trace of page numbers in range. */
  lemma WorkloadValid()
    ensures ValidInitial(InitialPages) && ValidTrace(Trace())
  {
    var t := Trace();
    forall i | 0 <= i < |t|
      ensures IsPage(t[i].page)
    {
    }
  }

  /** The trace opens with reads or writes of pages 0, 1, 2 and 6. */
  lemma TraceOpening()
    ensures |Trace()[..4]| == 4
    ensures Trace()[0].page == 0 && Trace()[1].page == 1 && Trace()[2].page == 2 && Trace()[3].page == 6
  {
  }

  /** Four accesses to pages 0, 1, 2 and 6, when 0, 1 and 2 are resident
      and 6 is not, give three hits and one miss under any algorithm of
      simulador2.c. */
  lemma Opening(alg: Engine.Algorithm, s0: PageTable.Sim, t: seq<Access>)
    requires PageTable.Valid(s0) && PageTable.Full(s0) && ValidTrace(t) && |t| == 4
    requires t[0].page == 0 && t[1].page == 1 && t[2].page == 2 && t[3].page == 6
    requires s0.pages[0].present && s0.pages[1].present && s0.pages[2].present && !s0.pages[6].present
    ensures Engine.Replay(alg, s0, t).hits == s0.hits + 3
    ensures Engine.Replay(alg, s0, t).misses == s0.misses + 1
  {
    var s1 := Engine.Step(alg, s0, t[0]);
    Engine.StepHit(alg, s0, t[0]);
    assert s1.pages[1].present && s1.pages[2].present && !s1.pages[6].present by {
      assert 1 in PageTable.PresentSet(s0) && 2 in PageTable.PresentSet(s0) && 6 !in PageTable.PresentSet(s0);
    }
    var s2 := Engine.Step(alg, s1, t[1]);
    Engine.StepHit(alg, s1, t[1]);
    assert s2.pages[2].present && !s2.pages[6].present by {
      assert 2 in PageTable.PresentSet(s1) && 6 !in PageTable.PresentSet(s1);
    }
    var s3 := Engine.Step(alg, s2, t[2]);
    Engine.StepHit(alg, s2, t[2]);
    assert !s3.pages[6].present by { assert 6 !in PageTable.PresentSet(s2); }
    var s4 := Engine.Step(alg, s3, t[3]);
    assert t[1..][0] == t[1] && t[1..][1..][0] == t[2] && t[1..][1..][1..][0] == t[3];
    assert t[1..][1..][1..][1..] == [];
    assert Engine.Replay(alg, s0, t) == Engine.Replay(alg, s1, t[1..]);
    assert Engine.Replay(alg, s1, t[1..]) == Engine.Replay(alg, s2, t[1..][1..]);
    assert Engine.Replay(alg, s2, t[1..][1..]) == Engine.Replay(alg, s3, t[1..][1..][1..]);
    assert Engine.Replay(alg, s3, t[1..][1..][1..]) == s4;
  }

  /** A prefix of a trace of pages in range is one as well. */
  lemma Prefix(t: seq<Access>, n: nat)
    requires ValidTrace(t) && n <= |t|
    ensures ValidTrace(t[..n])
  {
    assert forall i :: 0 <= i < n ==> t[..n][i] == t[i];
  }

  /** A suffix of a trace of pages in range is one as well. */
  lemma Suffix(t: seq<Access>, n: nat)
    requires ValidTrace(t) && n <= |t|
    ensures ValidTrace(t[n..])
  {
    assert forall i :: 0 <= i < |t| - n ==> t[n..][i] == t[n + i];
  }

  /** After the initial load of inicializaSimulador, pages 0, 1 and 2
      are resident and page 6 is not. */
  lemma InitialResidency()
    ensures ValidInitial(InitialPages)
    ensures var s0 := PageTable.InitSimulator(InitialPages);
      && PageTable.Valid(s0) && PageTable.Full(s0) && s0.hits == 0 && s0.misses == 0
      && s0.pages[0].present && s0.pages[1].present && s0.pages[2].present && !s0.pages[6].present
  {
    WorkloadValid();
    assert InitialPages[2] == 0 && InitialPages[1] == 1 && InitialPages[6] == 2;
    assert 6 !in InitialPages;
  }

  /** Under every algorithm of simulador2.c the trace opens with three
      hits on initial pages 0, 1 and 2 and then misses on page 6. */
  lemma OpeningCounts(alg: Engine.Algorithm)
    ensures ValidInitial(InitialPages) && ValidTrace(Trace()[..4])
    ensures Engine.Run(alg, InitialPages, Trace()[..4]).hits == 3
    ensures Engine.Run(alg, InitialPages, Trace()[..4]).misses == 1
  {
    WorkloadValid();
    TraceOpening();
    InitialResidency();
    var t := Trace()[..4];
    Prefix(Trace(), 4);
    assert t[0].page == 0 && t[1].page == 1 && t[2].page == 2 && t[3].page == 6;
    Opening(alg, PageTable.InitSimulator(InitialPages), t);
  }

  /** The same for a simulation of simulador.c. */
  lemma LegacyOpening(sim: Legacy.Simulation, st0: Legacy.State, t: seq<Access>)
    requires Legacy.Inv(sim, st0) && ValidTrace(t) && |t| == 4
    requires t[0].page == 0 && t[1].page == 1 && t[2].page == 2 && t[3].page == 6
    requires st0.mem[0].present && st0.mem[1].present && st0.mem[2].present && !st0.mem[6].present
    ensures Legacy.Replay(sim, st0, t).hits == st0.hits + 3
    ensures Legacy.Replay(sim, st0, t).misses == st0.misses + 1
  {
    var t1, t2, t3 := t[1..], t[2..], t[3..];
    Suffix(t, 1);
    Suffix(t, 2);
    Suffix(t, 3);
    assert t1[0] == t[1] && t2[0] == t[2] && t3[0] == t[3] && |t3| == 1;
    assert t1[1..] == t2 && t2[1..] == t3;
    var st1 := Legacy.Step(sim, st0, t[0]);
    Legacy.StepCounts(sim, st0, t[0], 1);
    Legacy.StepCounts(sim, st0, t[0], 2);
    Legacy.StepCounts(sim, st0, t[0], 6);
    var st2 := Legacy.Step(sim, st1, t[1]);
    Legacy.StepCounts(sim, st1, t[1], 2);
    Legacy.StepCounts(sim, st1, t[1], 6);
    var st3 := Legacy.Step(sim, st2, t[2]);
    Legacy.StepCounts(sim, st2, t[2], 6);
    var st4 := Legacy.Step(sim, st3, t[3]);
    Legacy.StepCounts(sim, st3, t[3], 6);
    Legacy.ReplayUnfold(sim, st0, t);
    Legacy.ReplayUnfold(sim, st1, t1);
    Legacy.ReplayUnfold(sim, st2, t2);
    Legacy.ReplayUnfold(sim, st3, t3);
  }

  /** The same opening under the four simulations of simulador.c,
      whatever the page array held before inicializa. */
  lemma LegacyOpeningCounts(mem: seq<Legacy.Page>)
    requires |mem| == NumPages
    ensures ValidInitial(InitialPages) && ValidTrace(Trace()[..4])
    ensures Legacy.RunFifo(mem, InitialPages, Trace()[..4]).hits == 3
    ensures Legacy.RunFifo(mem, InitialPages, Trace()[..4]).misses == 1
    ensures Legacy.RunSecondChance(mem, InitialPages, Trace()[..4]).hits == 3
    ensures Legacy.RunSecondChance(mem, InitialPages, Trace()[..4]).misses == 1
    ensures Legacy.RunClock(mem, InitialPages, Trace()[..4]).hits == 3
    ensures Legacy.RunClock(mem, InitialPages, Trace()[..4]).misses == 1
    ensures Legacy.RunMru(mem, InitialPages, Trace()[..4]).hits == 3
    ensures Legacy.RunMru(mem, InitialPages, Trace()[..4]).misses == 1
  {
    WorkloadValid();
    TraceOpening();
    Legacy.QueueStart(mem, InitialPages);
    Legacy.MruStart(mem, InitialPages);
    var st0 := Legacy.State(Legacy.Initialize(mem, InitialPages).mem, InitialPages, 0, 0, 0, 0);
    Legacy.InitialIn(mem, InitialPages, 0);
    Legacy.InitialIn(mem, InitialPages, 1);
    Legacy.InitialIn(mem, InitialPages, 2);
    Legacy.InitialIn(mem, InitialPages, 6);
    assert InitialPages[2] == 0 && InitialPages[1] == 1 && InitialPages[6] == 2;
    assert 6 !in InitialPages;
    var t := Trace()[..4];
    Prefix(Trace(), 4);
    assert t[0].page == 0 && t[1].page == 1 && t[2].page == 2 && t[3].page == 6;
    assert st0.mem[0].present && st0.mem[1].present && st0.mem[2].present && !st0.mem[6].present;
    LegacyOpening(Legacy.FifoRun, st0, t);
    LegacyOpening(Legacy.SecondChanceRun, st0, t);
    LegacyOpening(Legacy.ClockRun, st0, t);
    LegacyOpening(Legacy.MruRun, st0, t);
  }
}
