/**
 * What hysteresis thresholding computes, stated independently of the
 * algorithm: the edges are the pixels reachable from a seed (a pixel above the
 * upper threshold) through a chain of neighbouring pixels above the lower
 * threshold. Also the facts about a buffer of edge marks that edge following
 * relies on.
 */
module Hysteresis {
  import opened Grid

  /** Output value of an edge pixel: one, in the output pixel type. */
  const EDGE: real := 1.0

  /**
   * The input of hysteresis thresholding: the extent of the image, the
   * candidate magnitudes (gradient magnitude multiplied with the zero crossings
   * of the second derivative) flattened with Offset, and the two thresholds.
   */
  datatype Stage = Stage(size: Size, candidates: seq<real>, upper: real, lower: real)
  {
    predicate WellFormed()
    {
      |candidates| == Volume(size)
    }

    /** The candidate magnitude of an in-bounds pixel. */
    function Magnitude(p: Index): real
      requires WellFormed() && Inside(size, p)
    {
      candidates[Offset(size, p)]
    }

    /** A seed of edge following: above the upper threshold. */
    predicate IsSeed(p: Index)
      requires WellFormed()
    {
      Inside(size, p) && Magnitude(p) > upper
    }

    /** A pixel edge following may extend to: above the lower threshold. */
    predicate AboveLower(p: Index)
      requires WellFormed()
    {
      Inside(size, p) && Magnitude(p) > lower
    }

    /** A seed followed by neighbouring pixels that are all above the lower threshold. */
    predicate IsChain(chain: seq<Index>)
      requires WellFormed()
    {
      |chain| > 0 && IsSeed(chain[0]) &&
      forall j {:trigger chain[j]} :: 0 < j < |chain| ==>
        Adjacent(chain[j - 1], chain[j]) && AboveLower(chain[j])
    }

    /** An edge pixel: the end of some chain. */
    ghost predicate IsEdge(p: Index)
      requires WellFormed()
    {
      exists chain :: IsChain(chain) && chain[|chain| - 1] == p
    }
  }

  /** Every seed is an edge. */
  lemma SeedIsEdge(s: Stage, p: Index)
    requires s.WellFormed() && s.IsSeed(p)
    ensures s.IsEdge(p)
  {
    assert s.IsChain([p]);
  }

  /** Edges extend to every neighbour above the lower threshold. */
  lemma EdgeExtends(s: Stage, p: Index, q: Index)
    requires s.WellFormed() && s.IsEdge(p)
    requires Adjacent(p, q) && s.AboveLower(q)
    ensures s.IsEdge(q)
  {
    var chain :| s.IsChain(chain) && chain[|chain| - 1] == p;
    var longer := chain + [q];
    assert forall j :: 0 <= j < |chain| ==> longer[j] == chain[j];
    assert s.IsChain(longer);
  }

  /**
   * An edge is a seed, or lies above the lower threshold next to another edge:
   * nothing else becomes an edge.
   */
  lemma EdgeIsSeedOrLinked(s: Stage, p: Index)
    requires s.WellFormed() && s.IsEdge(p)
    ensures s.IsSeed(p) || (s.AboveLower(p) && exists q :: Adjacent(q, p) && s.IsEdge(q))
  {
    var chain :| s.IsChain(chain) && chain[|chain| - 1] == p;
    if |chain| > 1 {
      var shorter := chain[..|chain| - 1];
      assert forall j :: 0 <= j < |shorter| ==> shorter[j] == chain[j];
      assert s.IsChain(shorter);
      assert Adjacent(shorter[|shorter| - 1], p);
    }
  }

  /**
   * A pixel that is neither above the upper nor above the lower threshold is
   * never an edge, whatever its neighbours.
   */
  lemma BelowThresholdsIsNoEdge(s: Stage, p: Index)
    requires s.WellFormed() && Inside(s.size, p)
    requires s.Magnitude(p) <= s.lower && s.Magnitude(p) <= s.upper
    ensures !s.IsEdge(p)
  {
    if s.IsEdge(p) {
      EdgeIsSeedOrLinked(s, p);
    }
  }

  /** Raising the lower threshold never adds an edge. */
  lemma RaisingLowerKeepsEdgesWithin(s: Stage, lower': real, p: Index)
    requires s.WellFormed() && s.lower <= lower'
    requires s.(lower := lower').IsEdge(p)
    ensures s.IsEdge(p)
  {
    var s' := s.(lower := lower');
    var chain :| s'.IsChain(chain) && chain[|chain| - 1] == p;
    assert forall j :: 0 < j < |chain| ==> s'.AboveLower(chain[j]) ==> s.AboveLower(chain[j]);
    assert s.IsChain(chain);
  }

  /** Raising the upper threshold never adds an edge. */
  lemma RaisingUpperKeepsEdgesWithin(s: Stage, upper': real, p: Index)
    requires s.WellFormed() && s.upper <= upper'
    requires s.(upper := upper').IsEdge(p)
    ensures s.IsEdge(p)
  {
    var s' := s.(upper := upper');
    var chain :| s'.IsChain(chain) && chain[|chain| - 1] == p;
    assert forall j :: 0 < j < |chain| ==> s'.AboveLower(chain[j]) ==> s.AboveLower(chain[j]);
    assert s.IsChain(chain);
  }

  // ---------------------------------------------------------------------------
  // Edge marks. Edge following marks a pixel by writing EDGE into its entry of
  // the output buffer; the buffer's other entries are not EDGE.

  /** Number of pixels not marked as edges. */
  function Unmarked(marks: seq<real>): (n: nat)
    ensures n <= |marks|
  {
    if marks == [] then 0
    else (if marks[0] == EDGE then 0 else 1) + Unmarked(marks[1..])
  }

  /** Marking pixel k removes it from the unmarked pixels if it was there. */
  lemma {:induction false} MarkUnmarked(marks: seq<real>, k: int)
    requires 0 <= k < |marks|
    ensures Unmarked(marks[k := EDGE]) == Unmarked(marks) - (if marks[k] == EDGE then 0 else 1)
  {
    if k > 0 {
      MarkUnmarked(marks[1..], k - 1);
      assert marks[k := EDGE][1..] == marks[1..][k - 1 := EDGE];
    } else {
      assert marks[k := EDGE][1..] == marks[1..];
    }
  }

  /** Every marked pixel is an edge. */
  ghost predicate MarksSound(s: Stage, marks: seq<real>)
    requires s.WellFormed()
  {
    forall k {:trigger s.IsEdge(IndexOf(s.size, k))} ::
      0 <= k < |marks| && k < Volume(s.size) && marks[k] == EDGE ==> s.IsEdge(IndexOf(s.size, k))
  }

  /** Pixel q is marked if it is in bounds and above the lower threshold. */
  ghost predicate Covered(s: Stage, marks: seq<real>, q: Index)
    requires s.WellFormed()
  {
    s.AboveLower(q) ==> 0 <= Offset(s.size, q) < |marks| && marks[Offset(s.size, q)] == EDGE
  }

  /** Every neighbour of p above the lower threshold is marked. */
  ghost predicate Expanded(s: Stage, marks: seq<real>, p: Index)
    requires s.WellFormed()
  {
    forall i {:trigger Neighbour(p, i)} ::
      0 <= i < Pow3(|s.size|) ==> Covered(s, marks, Neighbour(p, i))
  }

  /** Every marked pixel whose position is not pending has been expanded. */
  ghost predicate ExpandedExcept(s: Stage, marks: seq<real>, pending: seq<int>)
    requires s.WellFormed()
  {
    forall k {:trigger Expanded(s, marks, IndexOf(s.size, k))} ::
      0 <= k < |marks| && k < Volume(s.size) && marks[k] == EDGE && k !in pending ==>
        Expanded(s, marks, IndexOf(s.size, k))
  }

  /** Marking more pixels keeps a pixel covered. */
  lemma CoveredMono(s: Stage, marks: seq<real>, k: int, q: Index)
    requires s.WellFormed() && 0 <= k < |marks|
    requires Covered(s, marks, q)
    ensures Covered(s, marks[k := EDGE], q)
  {
  }

  /** Marking more pixels keeps a pixel expanded. */
  lemma ExpandedMono(s: Stage, marks: seq<real>, k: int, p: Index)
    requires s.WellFormed() && 0 <= k < |marks|
    requires Expanded(s, marks, p)
    ensures Expanded(s, marks[k := EDGE], p)
  {
    var marks' := marks[k := EDGE];
    forall i | 0 <= i < Pow3(|s.size|) ensures Covered(s, marks', Neighbour(p, i)) {
      CoveredMono(s, marks, k, Neighbour(p, i));
    }
  }

  /** Marking pixel k and making it pending keeps every other marked pixel expanded. */
  lemma MarkPending(s: Stage, marks: seq<real>, pending: seq<int>, k: int)
    requires s.WellFormed() && 0 <= k < |marks|
    requires ExpandedExcept(s, marks, pending)
    ensures ExpandedExcept(s, marks[k := EDGE], [k] + pending)
  {
    var marks' := marks[k := EDGE];
    forall k' | 0 <= k' < |marks'| && k' < Volume(s.size) && marks'[k'] == EDGE && k' !in [k] + pending
      ensures Expanded(s, marks', IndexOf(s.size, k'))
    {
      ExpandedMono(s, marks, k, IndexOf(s.size, k'));
    }
  }

  /** Marking an edge keeps every marked pixel an edge. */
  lemma MarkEdge(s: Stage, marks: seq<real>, p: Index)
    requires s.WellFormed() && |marks| == Volume(s.size)
    requires MarksSound(s, marks) && Inside(s.size, p) && s.IsEdge(p)
    ensures MarksSound(s, marks[Offset(s.size, p) := EDGE])
  {
    IndexOfOffset(s.size, p);
  }

  /** Fewer pending pixels make a stronger claim. */
  lemma ExpandedExceptWeaken(s: Stage, marks: seq<real>, pending: seq<int>, pending': seq<int>)
    requires s.WellFormed() && ExpandedExcept(s, marks, pending)
    requires forall k :: k in pending ==> k in pending'
    ensures ExpandedExcept(s, marks, pending')
  {
  }

  /** Once pixel k has been expanded it need no longer be pending. */
  lemma ExpandedExceptRelease(s: Stage, marks: seq<real>, pending: seq<int>, k: int)
    requires s.WellFormed() && 0 <= k < Volume(s.size)
    requires ExpandedExcept(s, marks, [k] + pending) && Expanded(s, marks, IndexOf(s.size, k))
    ensures ExpandedExcept(s, marks, pending)
  {
  }

  /**
   * Completeness of a marking: if every seed is marked and every marked pixel
   * has been expanded, then every edge is marked.
   */
  lemma {:induction false} EdgesAreMarked(s: Stage, marks: seq<real>, p: Index)
    requires s.WellFormed() && |marks| == Volume(s.size)
    requires forall k :: 0 <= k < |marks| && s.candidates[k] > s.upper ==> marks[k] == EDGE
    requires ExpandedExcept(s, marks, [])
    requires s.IsEdge(p)
    ensures marks[Offset(s.size, p)] == EDGE
  {
    var chain :| s.IsChain(chain) && chain[|chain| - 1] == p;
    var j := 0;
    while j < |chain| - 1
      invariant 0 <= j < |chain|
      invariant marks[Offset(s.size, chain[j])] == EDGE
    {
      var c, q := chain[j], chain[j + 1];
      assert Inside(s.size, c) by {
        if j > 0 { assert s.AboveLower(chain[j]); }
      }
      IndexOfOffset(s.size, c);
      assert Expanded(s, marks, c);
      AdjacentIsNeighbour(c, q);
      var i :| 0 <= i < Pow3(|c|) && Neighbour(c, i) == q;
      assert Covered(s, marks, Neighbour(c, i));
      assert s.AboveLower(q);
      j := j + 1;
    }
  }

  /**
   * A marking that is sound, complete on the seeds and fully expanded marks
   * exactly the edges.
   */
  lemma MarksAreEdges(s: Stage, marks: seq<real>)
    requires s.WellFormed() && |marks| == Volume(s.size)
    requires forall k :: 0 <= k < |marks| && s.candidates[k] > s.upper ==> marks[k] == EDGE
    requires ExpandedExcept(s, marks, [])
    requires MarksSound(s, marks)
    ensures forall k :: 0 <= k < |marks| ==> (marks[k] == EDGE <==> s.IsEdge(IndexOf(s.size, k)))
  {
    forall k | 0 <= k < |marks| && s.IsEdge(IndexOf(s.size, k)) ensures marks[k] == EDGE {
      EdgesAreMarked(s, marks, IndexOf(s.size, k));
    }
  }

  // ---------------------------------------------------------------------------
  // Worked examples on a one-dimensional image of ten pixels.

  const LINE: seq<real> := [0.0, 0.0, 6.0, 6.0, 6.0, 2.0, 6.0, 0.0, 0.0, 0.0]

  lemma LineOffset(k: int)
    requires 0 <= k < 10
    ensures Inside([10], [k]) && Offset([10], [k]) == k
  {
    assert [10][1..] == [] && [k][1..] == [];
  }

  /**
   * Upper 5, lower 1: the pixel of magnitude 2 between the two strong runs
   * bridges them, and the edges are exactly pixels 2 to 6.
   */
  lemma LineBridged()
    ensures forall k :: 0 <= k < 10 ==>
      (Stage([10], LINE, 5.0, 1.0).IsEdge([k]) <==> 2 <= k <= 6)
  {
    var s := Stage([10], LINE, 5.0, 1.0);
    forall k | 0 <= k < 10 ensures s.IsEdge([k]) <==> 2 <= k <= 6 {
      LineOffset(k);
      if 2 <= k <= 6 && k != 5 {
        SeedIsEdge(s, [k]);
      } else if k == 5 {
        LineOffset(4);
        SeedIsEdge(s, [4]);
        EdgeExtends(s, [4], [5]);
      } else {
        BelowThresholdsIsNoEdge(s, [k]);
      }
    }
  }

  /**
   * Upper 5, lower 3: the pixel of magnitude 2 is suppressed, so the two
   * strong runs stay apart and pixel 5 is no edge.
   */
  lemma LineSplit()
    ensures forall k :: 0 <= k < 10 ==>
      (Stage([10], LINE, 5.0, 3.0).IsEdge([k]) <==> 2 <= k <= 6 && k != 5)
  {
    var s := Stage([10], LINE, 5.0, 3.0);
    forall k | 0 <= k < 10 ensures s.IsEdge([k]) <==> 2 <= k <= 6 && k != 5 {
      LineOffset(k);
      if 2 <= k <= 6 && k != 5 {
        SeedIsEdge(s, [k]);
      } else {
        BelowThresholdsIsNoEdge(s, [k]);
      }
    }
  }

  /** A weak pixel with no seed anywhere in the image never becomes an edge. */
  lemma IsolatedWeakPixel()
    ensures !Stage([3], [0.0, 2.0, 0.0], 5.0, 1.0).IsEdge([1])
  {
  }
}
