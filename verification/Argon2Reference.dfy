/**
 Which block Argon2 reads besides the predecessor: the index computation of the code, the
 reference set of section 3.4.2 of RFC 9106, and what keeps the reads safe.
 */
module Argon2Reference {
  import opened Arithmetic

  const SYNC_POINTS: nat := 4

  /** Dimensions of the memory for a memory cost and a number of lanes. */
  function TotalBlocks(memoryCost: nat, p: nat): nat
    requires p > 0
  {
    var rounded := (memoryCost / (4 * p)) * (4 * p);
    if rounded > 4 * p then rounded else 4 * p
  }

  function SegmentLength(memoryCost: nat, p: nat): nat
    requires p > 0
  {
    TotalBlocks(memoryCost, p) / p / SYNC_POINTS
  }

  /** The blocks fill p lanes of 4 equal segments; the cost RFC 9106 asks for gives 2 per segment. */
  lemma SegmentsTileMemory(memoryCost: nat, p: nat)
    requires p > 0
    ensures SegmentLength(memoryCost, p) >= 1
    ensures TotalBlocks(memoryCost, p) == p * (4 * SegmentLength(memoryCost, p))
    ensures memoryCost >= 8 * p ==> SegmentLength(memoryCost, p) >= 2
    ensures memoryCost >= 8 * p ==> memoryCost - 4 * p < TotalBlocks(memoryCost, p) <= memoryCost
  {
    var k := memoryCost / (4 * p);
    var n := if k > 1 then k else 1;
    Euclid(memoryCost, 4 * p);
    assert TotalBlocks(memoryCost, p) == n * (4 * p) by {
      if k <= 1 {
        MulMono(k, 1, 4 * p);
      } else {
        MulMono(2, k, 4 * p);
      }
    }
    assert n * (4 * p) == (4 * n) * p;
    DivModUnique(TotalBlocks(memoryCost, p), 4 * n, 0, p);
    if memoryCost >= 8 * p && k < 2 {
      assert false;
    }
  }

  // ----- The index computation of the code ---------------------------------------------------

  function RefArea(pass: nat, slice: nat, idx: nat, q: nat, seg: nat, same: bool): int {
    var area :=
      if pass == 0 then
        if slice == 0 then idx - 1
        else if same then slice * seg + idx - 1
        else slice * seg - (if idx == 0 then 1 else 0)
      else if same then q - seg + idx - 1
      else q - seg - (if idx == 0 then 1 else 0);
    if area < 1 then 1 else area
  }

  /** Position counted from the oldest block of an area, later blocks being likelier. */
  function Phi(area: int, j1: nat): int {
    area - 1 - (area * ((j1 * j1) / U32)) / U32
  }

  function WindowStart(pass: nat, slice: nat, seg: nat): nat {
    if pass == 0 || slice == SYNC_POINTS - 1 then 0 else (slice + 1) * seg
  }

  function RefColumn(pass: nat, slice: nat, idx: nat, q: nat, seg: nat, j1: nat, same: bool): int
    requires q > 0
  {
    (WindowStart(pass, slice, seg) + Phi(RefArea(pass, slice, idx, q, seg, same), j1)) % q
  }

  lemma PhiInRange(area: nat, j1: nat)
    requires area >= 1 && j1 < U32
    ensures 0 <= Phi(area, j1) < area
  {
    var x := (j1 * j1) / U32;
    MulMono(j1, U32 - 1, j1);
    MulMono(j1, U32 - 1, U32 - 1);
    assert x < U32;
    MulMono(x, U32 - 1, area);
    assert area * x == x * area && (U32 - 1) * area == U32 * area - area;
    QuotientBound(area * x, area, U32);
  }

  // ----- Section 3.4.2 of RFC 9106 -------------------------------------------------------------

  /** Columns first..first+count-1 of a lane of q columns, wrapping round. */
  ghost function Stretch(first: nat, count: nat, q: nat): seq<nat>
    requires q > 0
  {
    seq(count, k requires 0 <= k < count => (first + k) % q)
  }

  /** The finished segments before segment `slice`, oldest first. */
  ghost function FinishedSegments(pass: nat, slice: nat, seg: nat): seq<nat>
    requires slice < SYNC_POINTS && seg > 0
  {
    if pass == 0 then Stretch(0, slice * seg, 4 * seg)
    else Stretch((slice + 1) % 4 * seg, 3 * seg, 4 * seg)
  }

  /** The set W in order of construction. */
  ghost function W(pass: nat, slice: nat, idx: nat, seg: nat, same: bool): seq<nat>
    requires slice < SYNC_POINTS && seg > 0 && idx < seg
  {
    var current := if same then Stretch(slice * seg, idx, 4 * seg) else [];
    var all := FinishedSegments(pass, slice, seg) + current;
    // the predecessor in the own lane, the last finished block at a segment start
    if (same || idx == 0) && |all| > 0 then all[..|all| - 1] else all
  }

  /** Positions for which the fill loop asks for a reference. */
  ghost predicate Referencing(pass: nat, slice: nat, idx: nat, seg: nat, same: bool) {
    slice < SYNC_POINTS && idx < seg && (pass == 0 && slice == 0 ==> same && idx >= 2)
  }

  /** The one position where W is empty and the code falls back to column 0. */
  ghost predicate Degenerate(pass: nat, slice: nat, idx: nat, seg: nat) {
    pass == 0 && slice == 1 && idx == 0 && seg == 1
  }

  lemma Segment(slice: nat, seg: nat)
    requires slice < SYNC_POINTS
    ensures slice * seg <= 3 * seg && (slice + 1) * seg == slice * seg + seg
    ensures slice > 0 ==> slice * seg >= seg
  {
    MulMono(slice, 3, seg);
    if slice > 0 {
      MulMono(1, slice, seg);
    }
  }

  lemma WrapOnce(x: nat, q: nat)
    requires 0 < q && x < 2 * q
    ensures x % q == if x < q then x else x - q
  {
    DivModUnique(x, if x < q then 0 else 1, if x < q then x else x - q, q);
  }

  lemma WLength(pass: nat, slice: nat, idx: nat, seg: nat, same: bool)
    requires Referencing(pass, slice, idx, seg, same)
    ensures |W(pass, slice, idx, seg, same)| ==
            if Degenerate(pass, slice, idx, seg) then 0 else RefArea(pass, slice, idx, 4 * seg, seg, same)
  {
    Segment(slice, seg);
  }

  /** Element k of W is the k-th column from the start of the reference window. */
  lemma WElement(pass: nat, slice: nat, idx: nat, seg: nat, same: bool, k: nat)
    requires Referencing(pass, slice, idx, seg, same)
    requires k < |W(pass, slice, idx, seg, same)|
    ensures W(pass, slice, idx, seg, same)[k] == (WindowStart(pass, slice, seg) + k) % (4 * seg)
  {
    var start, finished := WindowStart(pass, slice, seg), FinishedSegments(pass, slice, seg);
    Segment(slice, seg);
    if k < |finished| {
      assert W(pass, slice, idx, seg, same)[k] == finished[k];
    } else {
      assert W(pass, slice, idx, seg, same)[k] == (slice * seg + (k - |finished|)) % (4 * seg);
      if pass > 0 && slice < 3 {
        ModDifference(start + k, slice * seg + (k - |finished|), 1, 4 * seg);
      }
    }
  }

  /** _compute_ref_index picks the element of W that RFC 9106 prescribes. */
  lemma RefColumnIsRfc(pass: nat, slice: nat, idx: nat, seg: nat, j1: nat, same: bool)
    requires Referencing(pass, slice, idx, seg, same) && j1 < U32 && !Degenerate(pass, slice, idx, seg)
    ensures var w := W(pass, slice, idx, seg, same);
            var x := (j1 * j1) / U32;
            var z := |w| - 1 - (|w| * x) / U32;
            0 <= z < |w| && RefColumn(pass, slice, idx, 4 * seg, seg, j1, same) == w[z]
  {
    var area := RefArea(pass, slice, idx, 4 * seg, seg, same);
    WLength(pass, slice, idx, seg, same);
    PhiInRange(area, j1);
    WElement(pass, slice, idx, seg, same, Phi(area, j1));
  }

  /**
   The referenced column is filled before it is read, is not the one being written, lies
   outside the current segment when it is in another lane, and in the own lane is the
   predecessor in the degenerate position only.
   */
  lemma ReferenceSafe(pass: nat, slice: nat, idx: nat, seg: nat, j1: nat, same: bool)
    requires Referencing(pass, slice, idx, seg, same) && j1 < U32
    ensures var c, col, q := RefColumn(pass, slice, idx, 4 * seg, seg, j1, same), slice * seg + idx, 4 * seg;
            && 0 <= c < q
            && (pass == 0 ==> c < slice * seg + if same then idx else 0)
            && (!same ==> !(slice * seg <= c < (slice + 1) * seg))
            && (same ==> c != col)
            && (same ==> (c == (col - 1) % q <==> Degenerate(pass, slice, idx, seg)))
  {
    hide Phi;
    var area := RefArea(pass, slice, idx, 4 * seg, seg, same);
    PhiInRange(area, j1);
    var base, k := slice * seg, Phi(area, j1);
    Segment(slice, seg);
    WrapOnce(WindowStart(pass, slice, seg) + k, 4 * seg);
    WrapOnce(base + idx - 1 + 4 * seg, 4 * seg);
    ModDifference(base + idx - 1 + 4 * seg, base + idx - 1, 1, 4 * seg);
  }
}
