/**
 * Step (4) of the Canny edge detector: hysteresis thresholding of the
 * non-maximum-suppressed gradient magnitude, with edge linking. Every pixel
 * above the upper threshold seeds edge following, which floods through the
 * radius-1 neighbourhood to every pixel above the lower threshold, using a
 * linked list of pending pixels as its worklist and the output buffer as the
 * record of pixels already linked.
 */
module CannyEdgeDetection {
  import opened Grid
  import opened Hysteresis
  import opened NodeStore
  import opened Linking

  class CannyEdgeDetectionFilter {
    var upperThreshold: real
    var lowerThreshold: real
    /** The legacy single threshold. */
    var threshold: real
    /** Value of the output pixels that are not edges. */
    var outsideValue: real

    /** Extent of the requested region. */
    const size: Size
    /**
     * Candidate magnitudes, flattened with Offset: the output of the multiply
     * filter, which this stage only reads.
     */
    const candidates: seq<real>
    /** The output image, flattened with Offset. */
    const output: array<real>
    /** Stride of each axis in a radius-1 neighbourhood (m_Stride). */
    const stride: array<nat>
    /** Index of the centre entry of a radius-1 neighbourhood (m_Center). */
    const center: nat
    /** The node store and the worklist of edge following (m_NodeStore, m_NodeList). */
    const nodes: NodeList

    /** The fixed layout: input, output and neighbourhood tables sized for the region. */
    ghost predicate Layout()
      reads this, stride
    {
      |candidates| == Volume(size) && output.Length == Volume(size) &&
      stride.Length == |size| && (forall k :: 0 <= k < |size| ==> stride[k] == Pow3(k)) &&
      center == Center(|size|)
    }

    ghost predicate Valid()
      reads this, stride, nodes, nodes.value, nodes.next, nodes.prev, nodes.free
    {
      Layout() && nodes.Valid() && nodes.capacity == Volume(size)
    }

    /** The input of hysteresis thresholding as the filter is configured now. */
    ghost function CurrentStage(): (s: Stage)
      reads this
      ensures s.size == size && s.candidates == candidates
      ensures s.upper == upperThreshold && s.lower == lowerThreshold
    {
      Stage(size, candidates, upperThreshold, lowerThreshold)
    }

    /**
     * Layout of a radius-1 neighbourhood in `dims` dimensions: the stride 3^k of
     * each axis, and the index of the centre entry, half the entry count 3^dims.
     */
    static method NeighbourhoodLayout(dims: nat) returns (strides: array<nat>, middle: nat)
      ensures fresh(strides) && strides.Length == dims
      ensures forall k :: 0 <= k < dims ==> strides[k] == Pow3(k)
      ensures middle == Center(dims)
    {
      CenterIsHalf(dims);
      middle := Pow3(dims) / 2;
      strides := new nat[dims];
      var k, s := 0, 1;
      while k < dims
        invariant 0 <= k <= dims && s == Pow3(k)
        invariant forall j :: 0 <= j < k ==> strides[j] == Pow3(j)
      {
        strides[k] := s;
        k, s := k + 1, 3 * s;
      }
    }

    /**
     * A filter for one candidate-magnitude image: thresholds and outside value
     * zero, neighbourhood strides 3^k and centre 3^D / 2, an output buffer and a
     * node store of one node per pixel.
     */
    constructor (size: Size, candidates: seq<real>)
      requires |candidates| == Volume(size)
      ensures Valid()
      ensures this.size == size && this.candidates == candidates
      ensures upperThreshold == 0.0 && lowerThreshold == 0.0
      ensures threshold == 0.0 && outsideValue == 0.0
      ensures nodes.Nodes == [] && nodes.Borrowed == {}
      ensures fresh(output) && fresh(stride) && fresh(nodes)
      ensures fresh(nodes.value) && fresh(nodes.next) && fresh(nodes.prev) && fresh(nodes.free)
    {
      var strides, middle := NeighbourhoodLayout(|size|);
      this.size := size;
      this.candidates := candidates;
      output := new real[Volume(size)];
      stride := strides;
      center := middle;
      nodes := new NodeList(Volume(size));
      upperThreshold, lowerThreshold, threshold, outsideValue := 0.0, 0.0, 0.0, 0.0;
    }

    /** Legacy setter: upper threshold th, lower threshold th / 2. */
    method SetThreshold(th: real)
      requires Valid()
      modifies this
      ensures Valid()
      ensures threshold == th && upperThreshold == th && lowerThreshold == th / 2.0
      ensures outsideValue == old(outsideValue)
    {
      threshold := th;
      upperThreshold := threshold;
      lowerThreshold := threshold / 2.0;
    }

    /** Legacy getter; its argument is not used. */
    method GetThreshold(th: real) returns (r: real)
      ensures r == threshold
    {
      r := threshold;
    }

    method SetUpperThreshold(value: real)
      requires Valid()
      modifies this
      ensures Valid()
      ensures upperThreshold == value
      ensures lowerThreshold == old(lowerThreshold) && threshold == old(threshold)
      ensures outsideValue == old(outsideValue)
    {
      upperThreshold := value;
    }

    method GetUpperThreshold() returns (r: real)
      ensures r == upperThreshold
    {
      r := upperThreshold;
    }

    method SetLowerThreshold(value: real)
      requires Valid()
      modifies this
      ensures Valid()
      ensures lowerThreshold == value
      ensures upperThreshold == old(upperThreshold) && threshold == old(threshold)
      ensures outsideValue == old(outsideValue)
    {
      lowerThreshold := value;
    }

    method GetLowerThreshold() returns (r: real)
      ensures r == lowerThreshold
    {
      r := lowerThreshold;
    }

    method SetOutsideValue(value: real)
      requires Valid()
      modifies this
      ensures Valid()
      ensures outsideValue == value
      ensures upperThreshold == old(upperThreshold) && lowerThreshold == old(lowerThreshold)
      ensures threshold == old(threshold)
    {
      outsideValue := value;
    }

    method GetOutsideValue() returns (r: real)
      ensures r == outsideValue
    {
      r := outsideValue;
    }

    /**
     * The bounds check of edge following: the index lies inside the requested
     * region, checked axis by axis.
     */
    method InBounds(index: Index) returns (b: bool)
      requires |index| == |size|
      ensures b <==> Inside(size, index)
    {
      var k := 0;
      while k < |size|
        invariant 0 <= k <= |size|
        invariant forall j :: 0 <= j < k ==> 0 <= index[j] < size[j]
      {
        if index[k] < 0 || index[k] >= size[k] {
          return false;
        }
        k := k + 1;
      }
      return true;
    }

    /**
     * Entry i of the radius-1 neighbourhood of c: coordinate k moves by the
     * digit of i at stride[k], minus one.
     */
    method NeighbourIndex(c: Index, i: nat) returns (q: Index)
      requires Valid() && |c| == |size|
      ensures q == Neighbour(c, i)
    {
      q := [];
      var k := 0;
      while k < |size|
        invariant 0 <= k <= |size| && |q| == k
        invariant forall j :: 0 <= j < k ==> q[j] == c[j] + NeighbourOffset(|size|, i)[j]
      {
        NeighbourOffsetAt(|size|, i, k);
        q := q + [c[k] + (i / stride[k]) % 3 - 1];
        k := k + 1;
      }
      AddAt(c, NeighbourOffset(|size|, i));
    }

    /** Marks the unmarked pixel at offset pos of the output and queues its index q. */
    method MarkAndQueue(q: Index, pos: int)
      requires Valid() && nodes.Borrowed == {}
      requires 0 <= pos < output.Length && output[pos] != EDGE
      requires |nodes.Nodes| + Unmarked(output[..]) <= output.Length
      modifies output, nodes, nodes.value, nodes.next, nodes.prev
      ensures Valid() && nodes.Borrowed == {}
      ensures output[..] == old(output[..])[pos := EDGE] && nodes.Contents == [q] + old(nodes.Contents)
    {
      MarkUnmarked(output[..], pos);
      nodes.Enqueue(q);
      output[pos] := EDGE;
    }

    /**
     * Entry i of the neighbourhood of the linked pixel cIndex is queued and
     * marked when it is in bounds, above the lower threshold and not yet
     * marked.
     */
    method QueueNeighbour(ghost s: Stage, cIndex: Index, i: nat)
      requires Valid() && nodes.Borrowed == {} && s == CurrentStage()
      requires |cIndex| == |size|
      requires |nodes.Nodes| + Unmarked(output[..]) <= output.Length
      modifies output, nodes, nodes.value, nodes.next, nodes.prev
      ensures Valid() && nodes.Borrowed == {}
      ensures Work(output[..], nodes.Contents) == Visit(s, old(Work(output[..], nodes.Contents)), Neighbour(cIndex, i))
    {
      var nIndex := NeighbourIndex(cIndex, i);
      var inside := InBounds(nIndex);
      if inside {
        var nPos := Offset(size, nIndex);
        if candidates[nPos] > lowerThreshold && output[nPos] != EDGE {
          MarkAndQueue(nIndex, nPos);
        }
      }
    }

    /** Every entry of the neighbourhood of cIndex, in order (nSize = 2 * m_Center + 1 entries). */
    method ScanNeighbourhood(ghost s: Stage, cIndex: Index)
      requires Valid() && nodes.Borrowed == {} && s == CurrentStage()
      requires |cIndex| == |size|
      requires |nodes.Nodes| + Unmarked(output[..]) <= output.Length
      modifies output, nodes, nodes.value, nodes.next, nodes.prev
      ensures Valid() && nodes.Borrowed == {}
      ensures Work(output[..], nodes.Contents) == Scan(s, old(Work(output[..], nodes.Contents)), Neighbourhood(cIndex), 0)
    {
      ghost var w0 := Work(output[..], nodes.Contents);
      ghost var qs := Neighbourhood(cIndex);
      var nSize := center * 2 + 1;
      var i := 0;
      while i < nSize
        invariant 0 <= i <= nSize == |qs|
        invariant Valid() && nodes.Borrowed == {}
        invariant Scan(s, Work(output[..], nodes.Contents), qs, i) == Scan(s, w0, qs, 0)
        invariant |nodes.Nodes| + Unmarked(output[..]) <= output.Length
      {
        assert qs[i] == Neighbour(cIndex, i);
        QueueNeighbour(s, cIndex, i);
        i := i + 1;
      }
    }

    /** One pass of edge following: take a pixel off the list, mark it and scan its neighbourhood. */
    method ExpandNext(ghost s: Stage)
      requires Valid() && nodes.Borrowed == {} && s == CurrentStage()
      requires nodes.Nodes != [] && AllInside(size, nodes.Contents)
      requires |nodes.Nodes| + Unmarked(output[..]) <= output.Length + 1
      modifies output, nodes, nodes.value, nodes.next, nodes.prev, nodes.free
      ensures Valid() && nodes.Borrowed == {}
      ensures Work(output[..], nodes.Contents) == Step(s, old(Work(output[..], nodes.Contents)))
    {
      ghost var before := Work(output[..], nodes.Contents);
      var cIndex := nodes.Dequeue();
      var cPos := Offset(size, cIndex);
      MarkUnmarked(before.marks, cPos);
      output[cPos] := EDGE;
      assert Work(output[..], nodes.Contents) == Work(before.marks[cPos := EDGE], before.queue[1..]);
      ScanNeighbourhood(s, cIndex);
    }

    /**
     * Edge following from the seed `index`, which is the only value in the
     * list. If the seed is already linked its node goes back to the store;
     * otherwise passes run until the list is empty. Returns, as a ghost, how
     * many neighbours it queued: each was an unmarked pixel that is now
     * marked, so no pixel is queued twice.
     */
    method FollowEdge(ghost s: Stage, index: Index) returns (ghost enqueued: nat)
      requires Valid() && s == CurrentStage() && Inside(size, index)
      requires nodes.Borrowed == {} && nodes.Contents == [index]
      modifies output, nodes, nodes.value, nodes.next, nodes.prev, nodes.free
      ensures Valid()
      ensures nodes.Contents == [] && nodes.Nodes == [] && nodes.Borrowed == {}
      ensures output[..] == FollowSeed(s, old(output[..]), index)
      ensures enqueued + Unmarked(output[..]) <= old(Unmarked(output[..]))
    {
      ghost var marks0 := output[..];
      enqueued := 0;
      var seedPos := Offset(size, index);
      if output[seedPos] == EDGE {
        // Already linked from an earlier seed: drop the node.
        var _ := nodes.Dequeue();
        return;
      }
      var empty := nodes.Empty();
      while !empty
        invariant Valid() && nodes.Borrowed == {}
        invariant empty <==> nodes.Nodes == []
        invariant AllInside(size, nodes.Contents)
        invariant Follow(s, Work(output[..], nodes.Contents)) == Follow(s, Work(marks0, [index]))
        invariant enqueued + Unmarked(output[..]) <= Unmarked(marks0)
        invariant |nodes.Nodes| + Unmarked(output[..]) <= output.Length + 1
        decreases 2 * Unmarked(output[..]) + |nodes.Nodes|
      {
        ghost var queued := |nodes.Nodes|;
        ExpandNext(s);
        enqueued := enqueued + (|nodes.Nodes| + 1 - queued);
        empty := nodes.Empty();
      }
    }

    /** Clears the output buffer: no pixel is marked. */
    method ClearOutput()
      requires Valid()
      modifies output
      ensures output[..] == Cleared(output.Length)
    {
      var k := 0;
      while k < output.Length
        invariant 0 <= k <= output.Length
        invariant forall j :: 0 <= j < k ==> output[j] == 0.0
      {
        output[k] := 0.0;
        k := k + 1;
      }
    }

    /**
     * The pixel at offset k seeds edge following if it is above the upper
     * threshold: its index is queued and followed. Returns, as a ghost, how
     * many neighbours were queued.
     */
    method FollowFromPixel(ghost s: Stage, k: int) returns (ghost queued: nat)
      requires Valid() && s == CurrentStage() && nodes.Nodes == [] && nodes.Borrowed == {}
      requires 0 <= k < output.Length
      modifies output, nodes, nodes.value, nodes.next, nodes.prev, nodes.free
      ensures Valid() && nodes.Nodes == [] && nodes.Borrowed == {}
      ensures output[..] == if s.candidates[k] > s.upper then FollowSeed(s, old(output[..]), IndexOf(s.size, k)) else old(output[..])
      ensures queued + Unmarked(output[..]) <= old(Unmarked(output[..]))
    {
      queued := 0;
      if candidates[k] > upperThreshold {
        var index := IndexOf(size, k);
        nodes.Enqueue(index);
        queued := FollowEdge(s, index);
      }
    }

    /**
     * Follows edges from every pixel above the upper threshold, in buffer
     * order. Returns, as a ghost, how many neighbours were queued in all: no
     * more than there are pixels.
     */
    method LinkAllSeeds(ghost s: Stage) returns (ghost enqueued: nat)
      requires Valid() && s == CurrentStage() && nodes.Nodes == [] && nodes.Borrowed == {}
      requires output[..] == Cleared(output.Length)
      modifies output, nodes, nodes.value, nodes.next, nodes.prev, nodes.free
      ensures Valid() && nodes.Nodes == [] && nodes.Borrowed == {}
      ensures output[..] == Linked(s)
      ensures enqueued <= output.Length
    {
      enqueued := 0;
      var k := 0;
      while k < output.Length
        invariant 0 <= k <= output.Length
        invariant Valid() && nodes.Nodes == [] && nodes.Borrowed == {}
        invariant LinkSeeds(s, output[..], k) == Linked(s)
        invariant enqueued + Unmarked(output[..]) <= output.Length
      {
        var queued := FollowFromPixel(s, k);
        enqueued := enqueued + queued;
        k := k + 1;
      }
    }

    /** Writes the outside value into every pixel that is not marked as an edge. */
    method WriteOutside()
      requires Valid()
      modifies output
      ensures forall k :: 0 <= k < output.Length ==>
                output[k] == if old(output[k]) == EDGE then EDGE else outsideValue
    {
      var k := 0;
      while k < output.Length
        invariant 0 <= k <= output.Length
        invariant forall j :: 0 <= j < k ==> output[j] == if old(output[j]) == EDGE then EDGE else outsideValue
        invariant forall j :: k <= j < output.Length ==> output[j] == old(output[j])
      {
        if output[k] != EDGE {
          output[k] := outsideValue;
        }
        k := k + 1;
      }
    }

    /**
     * Hysteresis thresholding: clears the output, follows edges from every
     * pixel above the upper threshold, then writes the outside value into
     * every pixel that was not linked. Afterwards the output holds exactly the
     * edges, the worklist is empty and every node is back in the store.
     */
    method HysteresisThresholding() returns (ghost enqueued: nat)
      requires Valid() && nodes.Nodes == [] && nodes.Borrowed == {}
      modifies output, nodes, nodes.value, nodes.next, nodes.prev, nodes.free
      ensures Valid()
      ensures nodes.Nodes == [] && nodes.Borrowed == {} && nodes.freeCount == nodes.capacity
      ensures forall k :: 0 <= k < output.Length ==>
                output[k] == if CurrentStage().IsEdge(IndexOf(size, k)) then EDGE else outsideValue
      ensures enqueued <= output.Length
    {
      ghost var s := CurrentStage();
      ClearOutput();
      enqueued := LinkAllSeeds(s);
      LinkedIsEdges(s);
      WriteOutside();
    }
  }
}
