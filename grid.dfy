/**
 * Addressing of a D-dimensional image: pixel indices, the bounds check, the
 * linear offset of a pixel in the flattened pixel buffer (axis 0 varies
 * fastest, as in an ITK image buffer), and the radius-1 neighbourhood that edge
 * following walks through with its per-axis strides.
 */
module Grid {

  /** A pixel index: one integer coordinate per axis. */
  type Index = seq<int>

  /** The extent of the image along each axis. */
  type Size = seq<nat>

  /** Number of pixels of an image of the given extent. */
  function Volume(size: Size): nat
  {
    if size == [] then 1 else size[0] * Volume(size[1..])
  }

  /** The pixel `index` lies in the image: one coordinate per axis, each in [0, size[k]). */
  predicate Inside(size: Size, index: Index)
  {
    |index| == |size| && forall k :: 0 <= k < |size| ==> 0 <= index[k] < size[k]
  }

  /** An index is inside exactly when its first coordinate is and the rest of it is inside the rest of the extent. */
  lemma InsideSplit(size: Size, index: Index)
    requires size != [] && |index| == |size|
    ensures Inside(size, index) <==> 0 <= index[0] < size[0] && Inside(size[1..], index[1..])
  {
    if 0 <= index[0] < size[0] && Inside(size[1..], index[1..]) {
      forall k | 0 <= k < |size| ensures 0 <= index[k] < size[k] {
        if k > 0 { assert index[k] == index[1..][k - 1] && size[k] == size[1..][k - 1]; }
      }
    }
  }

  lemma {:induction false} MulLe(a: nat, x: int, y: int)
    ensures x <= y ==> a * x <= a * y
  {
    if a > 0 {
      MulLe(a - 1, x, y);
      assert a * x == (a - 1) * x + x && a * y == (a - 1) * y + y;
    }
  }

  lemma MulBelow(a: nat, x: int, b: nat)
    requires 0 <= x < b
    ensures a * x <= a * b - a
  {
    MulLe(a, x, b - 1);
    assert a * (b - 1) == a * b - a;
  }

  lemma DivBelow(k: int, a: nat, b: nat)
    requires 0 <= k < a * b
    ensures a > 0 && b > 0 && k / a < b
  {
    assert a != 0 && b != 0;
    assert a * (k / a) <= k;
    MulLe(a, b, k / a);
  }

  lemma DivModUnique(k: int, a: nat, q: int, r: int)
    requires a > 0 && 0 <= r < a && k == a * q + r
    ensures k / a == q && k % a == r
  {
    var d := k / a - q;
    assert a * (k / a) + k % a == k;
    assert a * d == r - k % a;
    MulLe(a, 1, d);
    MulLe(a, d, -1);
  }

  /**
   * Linear offset of an index in the flattened pixel buffer. An in-bounds index
   * lands inside the buffer.
   */
  function Offset(size: Size, index: Index): (r: int)
    requires |index| == |size|
    ensures Inside(size, index) ==> 0 <= r < Volume(size)
  {
    if size == [] then 0
    else
      InsideSplit(size, index);
      var rest := Offset(size[1..], index[1..]);
      if Inside(size, index) then MulBelow(size[0], rest, Volume(size[1..])); index[0] + size[0] * rest
      else index[0] + size[0] * rest
  }

  /**
   * The index of the pixel stored at linear offset `k`: the inverse of Offset.
   */
  function IndexOf(size: Size, k: int): (index: Index)
    requires 0 <= k < Volume(size)
    ensures Inside(size, index) && Offset(size, index) == k
  {
    if size == [] then []
    else
      DivBelow(k, size[0], Volume(size[1..]));
      var rest := IndexOf(size[1..], k / size[0]);
      var index := [k % size[0]] + rest;
      assert index[1..] == rest;
      InsideSplit(size, index);
      assert Offset(size, index) == k % size[0] + size[0] * (k / size[0]);
      index
  }

  /** Offset and IndexOf are inverse on in-bounds indices. */
  lemma {:induction false} IndexOfOffset(size: Size, index: Index)
    requires Inside(size, index)
    ensures IndexOf(size, Offset(size, index)) == index
  {
    if size != [] {
      InsideSplit(size, index);
      var rest := Offset(size[1..], index[1..]);
      DivModUnique(Offset(size, index), size[0], rest, index[0]);
      IndexOfOffset(size[1..], index[1..]);
      assert index == [index[0]] + index[1..];
    }
  }

  /** Two in-bounds indices with the same offset are the same pixel. */
  lemma OffsetInjective(size: Size, p: Index, q: Index)
    requires Inside(size, p) && Inside(size, q) && Offset(size, p) == Offset(size, q)
    ensures p == q
  {
    IndexOfOffset(size, p);
    IndexOfOffset(size, q);
  }

  /** Offsets of a sequence of indices; -1 stands for an index of the wrong dimension. */
  function Positions(size: Size, list: seq<Index>): (ps: seq<int>)
    ensures |ps| == |list|
    ensures forall j :: 0 <= j < |list| && |list[j]| == |size| ==> ps[j] == Offset(size, list[j])
  {
    if list == [] then []
    else [if |list[0]| == |size| then Offset(size, list[0]) else -1] + Positions(size, list[1..])
  }

  /** 3^n: the number of entries of a radius-1 neighbourhood in n dimensions. */
  function Pow3(n: nat): (r: nat)
    ensures r >= 1
  {
    if n == 0 then 1 else 3 * Pow3(n - 1)
  }

  /**
   * Entry number of the centre of a radius-1 neighbourhood in n dimensions:
   * the entries before it and after it are equally many.
   */
  function Center(n: nat): (c: nat)
    ensures 2 * c + 1 == Pow3(n)
  {
    if n == 0 then 0 else 3 * Center(n - 1) + 1
  }

  /** The centre entry is half the entry count, rounded down. */
  lemma CenterIsHalf(n: nat)
    ensures Pow3(n) / 2 == Center(n)
  {
    DivModUnique(Pow3(n), 2, Center(n), 1);
  }

  /**
   * Offset along each of `dims` axes of entry `i` of a radius-1 neighbourhood:
   * entry i's base-3 digits, axis 0 least significant, each shifted to -1, 0, 1.
   */
  function NeighbourOffset(dims: nat, i: nat): (d: seq<int>)
    ensures |d| == dims
  {
    if dims == 0 then [] else [i % 3 - 1] + NeighbourOffset(dims - 1, i / 3)
  }

  /** Every coordinate of a neighbourhood offset is -1, 0 or 1. */
  lemma {:induction false} NeighbourOffsetRange(dims: nat, i: nat)
    ensures forall k :: 0 <= k < dims ==> -1 <= NeighbourOffset(dims, i)[k] <= 1
  {
    if dims > 0 {
      NeighbourOffsetRange(dims - 1, i / 3);
      var d := NeighbourOffset(dims, i);
      assert forall k :: 0 < k < dims ==> d[k] == NeighbourOffset(dims - 1, i / 3)[k - 1];
    }
  }

  /** The index reached from `p` by the coordinate offsets `d`. */
  function Add(p: Index, d: seq<int>): (q: Index)
    requires |p| == |d|
    ensures |q| == |p|
  {
    if p == [] then [] else [p[0] + d[0]] + Add(p[1..], d[1..])
  }

  /** Coordinate k of Add(p, d) is p[k] + d[k]. */
  lemma {:induction false} AddAt(p: Index, d: seq<int>)
    requires |p| == |d|
    ensures forall k :: 0 <= k < |p| ==> Add(p, d)[k] == p[k] + d[k]
  {
    if p != [] {
      AddAt(p[1..], d[1..]);
      var q := Add(p, d);
      assert forall k :: 0 < k < |p| ==> q[k] == Add(p[1..], d[1..])[k - 1];
    }
  }

  /** Entry i of the radius-1 neighbourhood of p. */
  function Neighbour(p: Index, i: nat): (q: Index)
    ensures |q| == |p|
  {
    Add(p, NeighbourOffset(|p|, i))
  }

  /** The radius-1 neighbourhood of p, entry by entry; it holds p itself at the centre entry. */
  function Neighbourhood(p: Index): (qs: seq<Index>)
    ensures |qs| == Pow3(|p|)
  {
    seq(Pow3(|p|), i requires 0 <= i => Neighbour(p, i))
  }

  /** Two indices are neighbours when no coordinate differs by more than one. */
  predicate Adjacent(p: Index, q: Index)
  {
    |p| == |q| && forall k :: 0 <= k < |p| ==> -1 <= q[k] - p[k] <= 1
  }

  lemma DivDiv(i: nat, m: nat)
    requires m > 0
    ensures (i / 3) / m == i / (3 * m)
  {
    var q, r := (i / 3) / m, (i / 3) % m;
    assert i / 3 == m * q + r;
    assert i == 3 * (m * q + r) + i % 3;
    assert i == (3 * m) * q + (3 * r + i % 3);
    DivModUnique(i, 3 * m, q, 3 * r + i % 3);
  }

  /**
   * Coordinate k of neighbourhood entry i is the k-th base-3 digit of i, read
   * with the stride 3^k of axis k in the neighbourhood, minus one.
   */
  lemma {:induction false} NeighbourOffsetAt(dims: nat, i: nat, k: nat)
    requires k < dims
    ensures NeighbourOffset(dims, i)[k] == (i / Pow3(k)) % 3 - 1
  {
    if k > 0 {
      NeighbourOffsetAt(dims - 1, i / 3, k - 1);
      DivDiv(i, Pow3(k - 1));
    }
  }

  /** Every entry of the neighbourhood of p is adjacent to p. */
  lemma NeighbourIsAdjacent(p: Index, i: nat)
    ensures Adjacent(p, Neighbour(p, i))
  {
    AddAt(p, NeighbourOffset(|p|, i));
    NeighbourOffsetRange(|p|, i);
  }

  /** The neighbourhood entry whose offset is `d`: the inverse of NeighbourOffset. */
  function EntryOf(d: seq<int>): (i: nat)
    requires forall k :: 0 <= k < |d| ==> -1 <= d[k] <= 1
    ensures i < Pow3(|d|) && NeighbourOffset(|d|, i) == d
  {
    if d == [] then 0
    else
      var rest := EntryOf(d[1..]);
      var i := (d[0] + 1) + 3 * rest;
      assert i % 3 == d[0] + 1 && i / 3 == rest;
      assert NeighbourOffset(|d|, i) == [d[0]] + d[1..];
      i
  }

  /** Every neighbour of p is an entry of p's neighbourhood. */
  lemma AdjacentIsNeighbour(p: Index, q: Index)
    requires Adjacent(p, q)
    ensures exists i :: 0 <= i < Pow3(|p|) && Neighbour(p, i) == q
  {
    var d := seq(|p|, k requires 0 <= k < |p| => q[k] - p[k]);
    var i := EntryOf(d);
    AddAt(p, d);
    assert Neighbour(p, i) == q;
  }

  /** Every entry of the neighbourhood of p is adjacent to p. */
  lemma NeighbourhoodAdjacent(p: Index)
    ensures forall j :: 0 <= j < Pow3(|p|) ==> Adjacent(p, Neighbourhood(p)[j])
  {
    forall j | 0 <= j < Pow3(|p|) ensures Adjacent(p, Neighbourhood(p)[j]) {
      NeighbourIsAdjacent(p, j);
    }
  }

  /** The centre entry of the neighbourhood is the pixel itself. */
  lemma {:induction false} CenterIsSelf(dims: nat)
    ensures NeighbourOffset(dims, Center(dims)) == seq(dims, _ => 0)
  {
    if dims > 0 {
      var c := Center(dims - 1);
      assert (1 + 3 * c) % 3 == 1 && (1 + 3 * c) / 3 == c;
      CenterIsSelf(dims - 1);
    }
  }
}
