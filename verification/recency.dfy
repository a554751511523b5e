/** The MRU victim search both simulators share: one pass over the page
    ids in ascending order keeping the first strictly larger stamp. */
module Recency {

  /** What the loop knows after looking at ids 0 .. p - 1, starting from
      `victim = -1` and `best = floor`. */
  predicate SoFar(present: seq<bool>, stamps: seq<int>, floor: int, p: int, victim: int, best: int)
    requires |present| == |stamps| && 0 <= p <= |present|
  {
    if victim == -1 then
      best == floor && forall q :: 0 <= q < p && present[q] ==> stamps[q] <= floor
    else
      && 0 <= victim < p && present[victim] && stamps[victim] == best && best > floor
      && (forall q :: 0 <= q < p && present[q] ==> stamps[q] <= best)
      && (forall q :: 0 <= q < victim && present[q] ==> stamps[q] < best)
  }

  /** The loop from id `p` on: a present id replaces the candidate only
      when its stamp is strictly larger than the best so far. The result
      is -1 when no present stamp exceeds the floor, otherwise the present
      id with the largest stamp, the lowest id among equal largest ones. */
  function MaxScan(present: seq<bool>, stamps: seq<int>, floor: int, p: int, victim: int, best: int): (v: int)
    requires |present| == |stamps| && 0 <= p <= |present|
    requires SoFar(present, stamps, floor, p, victim, best)
    decreases |present| - p
    ensures v == -1 ==> forall q :: 0 <= q < |present| && present[q] ==> stamps[q] <= floor
    ensures v != -1 ==> 0 <= v < |present| && present[v] && stamps[v] > floor
    ensures v != -1 ==> forall q :: 0 <= q < |present| && present[q] ==> stamps[q] <= stamps[v]
    ensures v != -1 ==> forall q :: 0 <= q < v && present[q] ==> stamps[q] < stamps[v]
  {
    if p == |present| then victim
    else if present[p] && stamps[p] > best then MaxScan(present, stamps, floor, p + 1, p, stamps[p])
    else MaxScan(present, stamps, floor, p + 1, victim, best)
  }

  /** The whole loop, started as the source starts it. */
  function MostRecent(present: seq<bool>, stamps: seq<int>, floor: int): (v: int)
    requires |present| == |stamps|
    ensures v == -1 ==> forall q :: 0 <= q < |present| && present[q] ==> stamps[q] <= floor
    ensures v != -1 ==> 0 <= v < |present| && present[v] && stamps[v] > floor
    ensures v != -1 ==> forall q :: 0 <= q < |present| && present[q] ==> stamps[q] <= stamps[v]
    ensures v != -1 ==> forall q :: 0 <= q < v && present[q] ==> stamps[q] < stamps[v]
  {
    MaxScan(present, stamps, floor, 0, -1, floor)
  }

  /** The search has a single possible answer: any present id whose stamp
      is the largest and strictly larger than those of lower present ids
      is the one it returns. */
  lemma MostRecentUnique(present: seq<bool>, stamps: seq<int>, floor: int, v: int)
    requires |present| == |stamps| && 0 <= v < |present| && present[v] && stamps[v] > floor
    requires forall q :: 0 <= q < |present| && present[q] ==> stamps[q] <= stamps[v]
    requires forall q :: 0 <= q < v && present[q] ==> stamps[q] < stamps[v]
    ensures MostRecent(present, stamps, floor) == v
  {
  }
}
