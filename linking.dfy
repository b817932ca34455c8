/**
 * Edge linking as a function of the marks buffer and the worklist: one step
 * of the neighbourhood scan (Visit), the scan of a list of neighbours (Scan),
 * one pass of edge following (Step), edge following until the worklist is
 * empty (Follow), edge following from a
 * seed (FollowSeed) and the pass over all seeds (LinkSeeds). The filter's
 * methods are proved to compute these; the lemmas here prove that what they
 * compute is exactly the set of edges.
 */
module Linking {
  import opened Grid
  import opened Hysteresis

  /** The state of edge following: the marks buffer and the worklist (front first). */
  datatype Work = Work(marks: seq<real>, queue: seq<Index>)

  /** Every queued pixel lies inside the image. */
  predicate AllInside(size: Size, queue: seq<Index>)
  {
    forall j :: 0 <= j < |queue| ==> Inside(size, queue[j])
  }

  /** Every queued pixel is an edge inside the image. */
  ghost predicate QueueEdges(s: Stage, queue: seq<Index>)
    requires s.WellFormed()
  {
    forall j :: 0 <= j < |queue| ==> Inside(s.size, queue[j]) && s.IsEdge(queue[j])
  }

  /** Every pixel marked in `marks` is still marked in `marks'`. */
  predicate Grows(marks: seq<real>, marks': seq<real>)
  {
    |marks'| == |marks| && forall k :: 0 <= k < |marks| && marks[k] == EDGE ==> marks'[k] == EDGE
  }

  /**
   * A neighbour q of the pixel being expanded: if it is inside the image, above
   * the lower threshold and not yet marked, it is marked and pushed on the front
   * of the worklist. Every push marks a pixel that was unmarked.
   */
  function Visit(s: Stage, w: Work, q: Index): (r: Work)
    requires s.WellFormed() && |w.marks| == Volume(s.size)
    ensures |r.marks| == |w.marks|
    ensures Unmarked(r.marks) + |r.queue| == Unmarked(w.marks) + |w.queue|
    ensures |w.queue| <= |r.queue| <= |w.queue| + 1
    ensures AllInside(s.size, w.queue) ==> AllInside(s.size, r.queue)
  {
    if s.AboveLower(q) && w.marks[Offset(s.size, q)] != EDGE then
      MarkUnmarked(w.marks, Offset(s.size, q));
      Work(w.marks[Offset(s.size, q) := EDGE], [q] + w.queue)
    else
      w
  }

  /** The pixels qs[i], qs[i + 1], ..., visited in order. */
  function Scan(s: Stage, w: Work, qs: seq<Index>, i: nat): (r: Work)
    requires s.WellFormed() && |w.marks| == Volume(s.size)
    ensures |r.marks| == |w.marks|
    ensures Unmarked(r.marks) + |r.queue| == Unmarked(w.marks) + |w.queue|
    ensures |w.queue| <= |r.queue|
    ensures AllInside(s.size, w.queue) ==> AllInside(s.size, r.queue)
    decreases |qs| - i
  {
    if i >= |qs| then w else Scan(s, Visit(s, w, qs[i]), qs, i + 1)
  }

  /**
   * One pass of edge following: take the front pixel off the worklist, mark it
   * and scan its neighbourhood. Every pass either marks a pixel or shortens
   * the worklist.
   */
  function Step(s: Stage, w: Work): (r: Work)
    requires s.WellFormed() && |w.marks| == Volume(s.size) && AllInside(s.size, w.queue)
    requires w.queue != []
    ensures |r.marks| == |w.marks| && AllInside(s.size, r.queue)
    ensures Unmarked(r.marks) <= Unmarked(w.marks)
    ensures Unmarked(r.marks) + |r.queue| < Unmarked(w.marks) + |w.queue|
    ensures |w.queue| <= |r.queue| + 1
  {
    var c := w.queue[0];
    var k := Offset(s.size, c);
    MarkUnmarked(w.marks, k);
    Scan(s, Work(w.marks[k := EDGE], w.queue[1..]), Neighbourhood(c), 0)
  }

  /** Edge following until the worklist is empty. */
  function Follow(s: Stage, w: Work): (r: seq<real>)
    requires s.WellFormed() && |w.marks| == Volume(s.size) && AllInside(s.size, w.queue)
    ensures |r| == |w.marks|
    decreases Unmarked(w.marks), |w.queue|
  {
    if w.queue == [] then w.marks else Follow(s, Step(s, w))
  }

  /** Edge following from a seed, unless an earlier seed has already linked it. */
  function FollowSeed(s: Stage, marks: seq<real>, seed: Index): (r: seq<real>)
    requires s.WellFormed() && |marks| == Volume(s.size) && Inside(s.size, seed)
    ensures |r| == |marks|
  {
    if marks[Offset(s.size, seed)] == EDGE then marks else Follow(s, Work(marks, [seed]))
  }

  /** Edge following from every pixel at offset k or later that is above the upper threshold. */
  function LinkSeeds(s: Stage, marks: seq<real>, k: nat): (r: seq<real>)
    requires s.WellFormed() && |marks| == Volume(s.size)
    ensures |r| == |marks|
    decreases |marks| - k
  {
    if k >= |marks| then marks
    else
      var marks' := if s.candidates[k] > s.upper then FollowSeed(s, marks, IndexOf(s.size, k)) else marks;
      LinkSeeds(s, marks', k + 1)
  }

  /** The cleared output buffer: no pixel marked. */
  function Cleared(n: nat): (marks: seq<real>)
    ensures |marks| == n && forall k :: 0 <= k < n ==> marks[k] == 0.0
  {
    seq(n, _ => 0.0)
  }

  /** Hysteresis thresholding: the marks left by following edges from every seed. */
  function Linked(s: Stage): (marks: seq<real>)
    requires s.WellFormed()
    ensures |marks| == Volume(s.size)
  {
    LinkSeeds(s, Cleared(Volume(s.size)), 0)
  }

  // ---------------------------------------------------------------------------
  // Marks only grow.

  lemma {:induction false} ScanGrows(s: Stage, w: Work, qs: seq<Index>, i: nat)
    requires s.WellFormed() && |w.marks| == Volume(s.size)
    ensures Grows(w.marks, Scan(s, w, qs, i).marks)
    decreases |qs| - i
  {
    if i < |qs| {
      ScanGrows(s, Visit(s, w, qs[i]), qs, i + 1);
    }
  }

  lemma {:induction false} FollowGrows(s: Stage, w: Work)
    requires s.WellFormed() && |w.marks| == Volume(s.size) && AllInside(s.size, w.queue)
    ensures Grows(w.marks, Follow(s, w))
    decreases Unmarked(w.marks), |w.queue|
  {
    if w.queue != [] {
      var c := w.queue[0];
      var k := Offset(s.size, c);
      var w1 := Work(w.marks[k := EDGE], w.queue[1..]);
      ScanGrows(s, w1, Neighbourhood(c), 0);
      FollowGrows(s, Step(s, w));
    }
  }

  /** Edge following from a seed marks the seed and keeps every earlier mark. */
  lemma FollowSeedMarks(s: Stage, marks: seq<real>, seed: Index)
    requires s.WellFormed() && |marks| == Volume(s.size) && Inside(s.size, seed)
    ensures var r := FollowSeed(s, marks, seed);
      Grows(marks, r) && r[Offset(s.size, seed)] == EDGE
  {
    var k := Offset(s.size, seed);
    if marks[k] != EDGE {
      var w1 := Work(marks[k := EDGE], []);
      ScanGrows(s, w1, Neighbourhood(seed), 0);
      FollowGrows(s, Step(s, Work(marks, [seed])));
    }
  }

  // ---------------------------------------------------------------------------
  // Soundness: only edges are marked.

  lemma QueueEdgesPush(s: Stage, q: Index, queue: seq<Index>)
    requires s.WellFormed() && Inside(s.size, q) && s.IsEdge(q) && QueueEdges(s, queue)
    ensures QueueEdges(s, [q] + queue)
  {
    var queue' := [q] + queue;
    forall j | 0 <= j < |queue'| ensures Inside(s.size, queue'[j]) && s.IsEdge(queue'[j]) {
      if j > 0 { assert queue'[j] == queue[j - 1]; }
    }
  }

  lemma VisitSound(s: Stage, w: Work, c: Index, q: Index)
    requires s.WellFormed() && |w.marks| == Volume(s.size) && s.IsEdge(c) && Adjacent(c, q)
    requires MarksSound(s, w.marks) && QueueEdges(s, w.queue)
    ensures var r := Visit(s, w, q); MarksSound(s, r.marks) && QueueEdges(s, r.queue)
  {
    if s.AboveLower(q) && w.marks[Offset(s.size, q)] != EDGE {
      EdgeExtends(s, c, q);
      MarkEdge(s, w.marks, q);
      QueueEdgesPush(s, q, w.queue);
    }
  }

  lemma {:induction false} ScanSound(s: Stage, w: Work, c: Index, qs: seq<Index>, i: nat)
    requires s.WellFormed() && |w.marks| == Volume(s.size) && s.IsEdge(c)
    requires forall j :: i <= j < |qs| ==> Adjacent(c, qs[j])
    requires MarksSound(s, w.marks) && QueueEdges(s, w.queue)
    ensures var r := Scan(s, w, qs, i); MarksSound(s, r.marks) && QueueEdges(s, r.queue)
    decreases |qs| - i
  {
    if i < |qs| {
      VisitSound(s, w, c, qs[i]);
      ScanSound(s, Visit(s, w, qs[i]), c, qs, i + 1);
    }
  }

  lemma {:induction false} FollowSound(s: Stage, w: Work)
    requires s.WellFormed() && |w.marks| == Volume(s.size) && AllInside(s.size, w.queue)
    requires MarksSound(s, w.marks) && QueueEdges(s, w.queue)
    ensures MarksSound(s, Follow(s, w))
    decreases Unmarked(w.marks), |w.queue|
  {
    if w.queue != [] {
      var c := w.queue[0];
      var k := Offset(s.size, c);
      var w1 := Work(w.marks[k := EDGE], w.queue[1..]);
      MarkEdge(s, w.marks, c);
      NeighbourhoodAdjacent(c);
      ScanSound(s, w1, c, Neighbourhood(c), 0);
      FollowSound(s, Step(s, w));
    }
  }

  // ---------------------------------------------------------------------------
  // Completeness: every marked pixel that has left the worklist is expanded.

  /** Visiting keeps every marked pixel that is neither pending nor queued expanded. */
  lemma VisitPending(s: Stage, w: Work, q: Index, pending: seq<int>)
    requires s.WellFormed() && |w.marks| == Volume(s.size)
    requires ExpandedExcept(s, w.marks, pending + Positions(s.size, w.queue))
    ensures var r := Visit(s, w, q); ExpandedExcept(s, r.marks, pending + Positions(s.size, r.queue))
  {
    if s.AboveLower(q) && w.marks[Offset(s.size, q)] != EDGE {
      var k := Offset(s.size, q);
      var pending' := pending + Positions(s.size, w.queue);
      MarkPending(s, w.marks, pending', k);
      assert ([q] + w.queue)[1..] == w.queue;
      assert Positions(s.size, [q] + w.queue) == [k] + Positions(s.size, w.queue);
      ExpandedExceptWeaken(s, w.marks[k := EDGE], [k] + pending', pending + ([k] + Positions(s.size, w.queue)));
    }
  }

  /** Once a pixel is covered, it stays covered as the marks grow. */
  lemma CoveredGrows(s: Stage, marks: seq<real>, marks': seq<real>, q: Index)
    requires s.WellFormed() && Grows(marks, marks') && Covered(s, marks, q)
    ensures Covered(s, marks', q)
  {
  }

  /** After scanning qs[i..], every one of those pixels is covered. */
  lemma {:induction false} ScanDone(s: Stage, w: Work, qs: seq<Index>, i: nat)
    requires s.WellFormed() && |w.marks| == Volume(s.size)
    ensures forall j :: i <= j < |qs| ==> Covered(s, Scan(s, w, qs, i).marks, qs[j])
    decreases |qs| - i
  {
    if i < |qs| {
      var w' := Visit(s, w, qs[i]);
      var r := Scan(s, w', qs, i + 1);
      ScanDone(s, w', qs, i + 1);
      ScanGrows(s, w', qs, i + 1);
      CoveredGrows(s, w'.marks, r.marks, qs[i]);
    }
  }

  lemma {:induction false} ScanPending(s: Stage, w: Work, qs: seq<Index>, i: nat, pending: seq<int>)
    requires s.WellFormed() && |w.marks| == Volume(s.size)
    requires ExpandedExcept(s, w.marks, pending + Positions(s.size, w.queue))
    ensures var r := Scan(s, w, qs, i); ExpandedExcept(s, r.marks, pending + Positions(s.size, r.queue))
    decreases |qs| - i
  {
    if i < |qs| {
      VisitPending(s, w, qs[i], pending);
      ScanPending(s, Visit(s, w, qs[i]), qs, i + 1, pending);
    }
  }

  /** Scanning the whole neighbourhood of c leaves c expanded. */
  lemma ScanExpands(s: Stage, w: Work, c: Index)
    requires s.WellFormed() && |w.marks| == Volume(s.size) && |c| == |s.size|
    ensures Expanded(s, Scan(s, w, Neighbourhood(c), 0).marks, c)
  {
    var marks := Scan(s, w, Neighbourhood(c), 0).marks;
    ScanDone(s, w, Neighbourhood(c), 0);
    forall i | 0 <= i < Pow3(|s.size|) ensures Covered(s, marks, Neighbour(c, i)) {
      assert Neighbour(c, i) == Neighbourhood(c)[i];
    }
  }

  /**
   * Edge following leaves every marked pixel expanded, provided every marked
   * pixel that is not queued already was.
   */
  lemma {:induction false} FollowExpanded(s: Stage, w: Work)
    requires s.WellFormed() && |w.marks| == Volume(s.size) && AllInside(s.size, w.queue)
    requires ExpandedExcept(s, w.marks, Positions(s.size, w.queue))
    ensures ExpandedExcept(s, Follow(s, w), [])
    decreases Unmarked(w.marks), |w.queue|
  {
    if w.queue != [] {
      var c := w.queue[0];
      var k := Offset(s.size, c);
      var w1 := Work(w.marks[k := EDGE], w.queue[1..]);
      assert Positions(s.size, w.queue) == [k] + Positions(s.size, w1.queue);
      MarkPending(s, w.marks, Positions(s.size, w.queue), k);
      ExpandedExceptWeaken(s, w1.marks, [k] + Positions(s.size, w.queue), [k] + Positions(s.size, w1.queue));
      ScanPending(s, w1, Neighbourhood(c), 0, [k]);
      ScanExpands(s, w1, c);
      var r := Step(s, w);
      IndexOfOffset(s.size, c);
      ExpandedExceptRelease(s, r.marks, Positions(s.size, r.queue), k);
      FollowExpanded(s, r);
    }
  }

  // ---------------------------------------------------------------------------
  // The pass over all seeds marks exactly the edges.

  /**
   * Following edges from the seeds at offsets k and later keeps the marks sound
   * and expanded, and leaves every seed marked.
   */
  lemma {:induction false} LinkSeedsInvariant(s: Stage, marks: seq<real>, k: nat)
    requires s.WellFormed() && |marks| == Volume(s.size)
    requires MarksSound(s, marks) && ExpandedExcept(s, marks, [])
    requires forall j :: 0 <= j < k && j < |marks| && s.candidates[j] > s.upper ==> marks[j] == EDGE
    ensures var r := LinkSeeds(s, marks, k);
      MarksSound(s, r) && ExpandedExcept(s, r, []) &&
      forall j :: 0 <= j < |r| && s.candidates[j] > s.upper ==> r[j] == EDGE
    decreases |marks| - k
  {
    if k < |marks| {
      var marks' := marks;
      if s.candidates[k] > s.upper {
        var seed := IndexOf(s.size, k);
        marks' := FollowSeed(s, marks, seed);
        FollowSeedMarks(s, marks, seed);
        if marks[k] != EDGE {
          SeedIsEdge(s, seed);
          var w := Work(marks, [seed]);
          assert Positions(s.size, w.queue) == [k];
          FollowSound(s, w);
          FollowExpanded(s, w);
        }
      }
      LinkSeedsInvariant(s, marks', k + 1);
    }
  }

  /**
   * Hysteresis thresholding marks a pixel exactly when it is an edge: above the
   * upper threshold, or linked to such a pixel through neighbours above the
   * lower threshold.
   */
  lemma LinkedIsEdges(s: Stage)
    requires s.WellFormed()
    ensures forall k :: 0 <= k < Volume(s.size) ==>
      (Linked(s)[k] == EDGE <==> s.IsEdge(IndexOf(s.size, k)))
  {
    var marks := Cleared(Volume(s.size));
    LinkSeedsInvariant(s, marks, 0);
    MarksAreEdges(s, Linked(s));
  }
}
