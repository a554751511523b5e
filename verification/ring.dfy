/** The circular cursor shared by the FIFO, Second Chance and Clock
    policies: a position among the NumFrames slots that moves one step
    at a time and wraps around. */
module Ring {
  import opened Config

  /** One step of a cursor, `(c + 1) % NUM_FRAMES` in the source. */
  function Advance(c: int): (r: int)
    requires IsFrame(c)
    ensures IsFrame(r)
    ensures c < NumFrames - 1 ==> r == c + 1
    ensures c == NumFrames - 1 ==> r == 0
  {
    (c + 1) % NumFrames
  }

  /** The slot a cursor standing on `c` reaches after `j` steps. */
  function At(c: int, j: nat): (r: int)
    requires IsFrame(c)
    ensures IsFrame(r)
  {
    (c + j) % NumFrames
  }

  /** How many steps a cursor on `c` needs to reach slot `f`. */
  function Offset(c: int, f: int): (d: nat)
    requires IsFrame(c) && IsFrame(f)
    ensures d < NumFrames
    ensures At(c, d) == f
    ensures d == 0 <==> f == c
  {
    if c <= f then f - c else f + NumFrames - c
  }

  lemma AtAdvance(c: int, j: nat)
    requires IsFrame(c)
    ensures At(Advance(c), j) == At(c, j + 1)
  {
  }

  /** Within one turn a cursor meets its starting slot only at step 0,
      and after a full turn it is back. */
  lemma AtTurn(c: int, j: nat)
    requires IsFrame(c) && j <= NumFrames
    ensures At(c, j) == c <==> j == 0 || j == NumFrames
  {
  }

  lemma OffsetAdvance(c: int, f: int)
    requires IsFrame(c) && IsFrame(f)
    ensures Offset(Advance(c), f) == if f == c then NumFrames - 1 else Offset(c, f) - 1
  {
  }

  /** The number of steps a cursor on `c` makes, starting with step `j`,
      before it reaches a slot whose flag is set; NumFrames if no slot
      within the rest of one turn has its flag set. */
  function FirstFrom(flags: seq<bool>, c: int, j: nat): (k: nat)
    requires |flags| == NumFrames && IsFrame(c) && j <= NumFrames
    decreases NumFrames - j
    ensures j <= k <= NumFrames
    ensures k < NumFrames ==> flags[At(c, k)]
    ensures forall i :: j <= i < k ==> !flags[At(c, i)]
  {
    if j == NumFrames then NumFrames
    else if flags[At(c, j)] then j
    else FirstFrom(flags, c, j + 1)
  }

  /** Distance from `c` to the first flagged slot (NumFrames when none). */
  function First(flags: seq<bool>, c: int): (k: nat)
    requires |flags| == NumFrames && IsFrame(c)
    ensures k <= NumFrames
    ensures k < NumFrames ==> flags[At(c, k)]
    ensures forall i :: 0 <= i < k ==> !flags[At(c, i)]
  {
    FirstFrom(flags, c, 0)
  }

  /** The distance is the only one with the two defining properties. */
  lemma FirstIs(flags: seq<bool>, c: int, k: nat)
    requires |flags| == NumFrames && IsFrame(c) && k <= NumFrames
    requires forall i :: 0 <= i < k ==> !flags[At(c, i)]
    requires k < NumFrames ==> flags[At(c, k)]
    ensures First(flags, c) == k
  {
  }

  /** A full turn meets every slot, so no slot is flagged exactly when
      the search runs off the end of the turn. */
  lemma FirstNone(flags: seq<bool>, c: int)
    requires |flags| == NumFrames && IsFrame(c)
    ensures First(flags, c) == NumFrames <==> forall f :: 0 <= f < NumFrames ==> !flags[f]
  {
    if First(flags, c) == NumFrames {
      forall f | 0 <= f < NumFrames
        ensures !flags[f]
      {
        assert At(c, Offset(c, f)) == f;
      }
    }
  }

  /** How the distance changes when the cursor moves off an unflagged slot
      `c` and, at the same time, the flag of `c` alone may be set. */
  lemma {:induction false} FirstStep(flags: seq<bool>, flags': seq<bool>, c: int)
    requires |flags| == NumFrames && |flags'| == NumFrames && IsFrame(c)
    requires !flags[c]
    requires forall g :: 0 <= g < NumFrames && g != c ==> flags'[g] == flags[g]
    ensures First(flags', Advance(c)) ==
              if First(flags, c) < NumFrames then First(flags, c) - 1
              else if flags'[c] then NumFrames - 1
              else NumFrames
  {
    var d := First(flags, c);
    var c' := Advance(c);
    forall i: nat | i < NumFrames
      ensures At(c', i) == At(c, i + 1)
      ensures At(c, i + 1) == c <==> i == NumFrames - 1
    {
      AtAdvance(c, i);
      AtTurn(c, i + 1);
    }
    assert At(c, 0) == c;
    if d < NumFrames {
      assert d >= 1;
      FirstIs(flags', c', d - 1);
    } else if flags'[c] {
      FirstIs(flags', c', NumFrames - 1);
    } else {
      FirstIs(flags', c', NumFrames);
    }
  }

  /** Whether a scan that started on `c` and stepped over `n` slots
      has stepped over slot `f`. */
  predicate Passed(c: int, n: nat, f: int)
    requires IsFrame(c) && IsFrame(f)
  {
    n >= NumFrames || Offset(c, f) < n
  }

  /** Stepping over `c` and then over `n - 1` slots from the next one. */
  lemma PassedStep(c: int, n: nat, f: int)
    requires IsFrame(c) && IsFrame(f) && n >= 1
    ensures Passed(c, n, f) <==> f == c || Passed(Advance(c), n - 1, f)
  {
    OffsetAdvance(c, f);
  }
}
