/** Sizes of the simulated machine and the shape of one trace entry,
    shared by both versions of the simulator. */
module Config {

  /** NUM_PAGES: virtual pages, ids 0 .. NumPages - 1. */
  const NumPages := 16

  /** NUM_FRAMES: physical frames, ids 0 .. NumFrames - 1. */
  const NumFrames := 8

  /** One trace entry: the access type (TIPO_ACESSO, 1 = write) and the
      page touched (PAG_ACESSO). */
  datatype Access = Access(write: bool, page: int)

  predicate IsPage(p: int) {
    0 <= p < NumPages
  }

  predicate IsFrame(f: int) {
    0 <= f < NumFrames
  }

  /** Every access names a page the page table has an entry for. */
  predicate ValidTrace(trace: seq<Access>) {
    forall i :: 0 <= i < |trace| ==> IsPage(trace[i].page)
  }

  predicate Distinct(xs: seq<int>) {
    forall i, j :: 0 <= i < j < |xs| ==> xs[i] != xs[j]
  }

  /** A list of initially loaded pages as both simulators expect it:
      one distinct page per frame. */
  predicate ValidInitial(initial: seq<int>) {
    && |initial| == NumFrames
    && (forall i :: 0 <= i < |initial| ==> IsPage(initial[i]))
    && Distinct(initial)
  }

  function Elems(xs: seq<int>): set<int> {
    set x | x in xs
  }

  /** A list without repetitions has as many elements as entries. */
  lemma {:induction false} DistinctCard(xs: seq<int>)
    requires Distinct(xs)
    ensures |Elems(xs)| == |xs|
  {
    if |xs| > 0 {
      var init := xs[..|xs| - 1];
      var last := xs[|xs| - 1];
      assert Distinct(init);
      DistinctCard(init);
      assert last !in init;
      assert Elems(xs) == Elems(init) + {last};
    }
  }
}
