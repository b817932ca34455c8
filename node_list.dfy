/**
 * The worklist of edge following: a doubly linked list of ListNode<IndexType>
 * whose nodes are drawn from, and returned to, a node store.
 *
 * Node memory is an arena. Node n is entry n of `value` (ListNode::m_Value),
 * `next` (ListNode::Next) and `prev` (ListNode::Previous); a link is a node
 * number, Nil standing for null. The store keeps the numbers of its
 * free nodes on a stack. Every node is in exactly one of three places: on the
 * store's free stack, linked into the list, or borrowed (taken from the store
 * and not yet linked, or unlinked and not yet returned).
 */
module NodeStore {
  import opened Grid

  /** Link value standing for a null Next or Previous. */
  const Nil: int := -1

  class NodeList {
    /** Number of nodes the store owns. */
    const capacity: nat
    const value: array<Index>
    const next: array<int>
    const prev: array<int>
    /** Free stack of the store: free[..freeCount] are the free node numbers. */
    const free: array<int>
    var freeCount: nat
    /** First node of the list, Nil when the list is empty. */
    var head: int

    /** The nodes of the list, front first. */
    ghost var Nodes: seq<int>
    /** Nodes handed out by the store that are not linked into the list. */
    ghost var Borrowed: set<int>
    /** The values held by the list's nodes, front first. */
    ghost var Contents: seq<Index>

    ghost predicate Valid()
      reads this, value, next, prev, free
    {
      value.Length == capacity && next.Length == capacity &&
      prev.Length == capacity && free.Length == capacity &&
      next != prev && next != free && prev != free &&
      freeCount + |Nodes| + |Borrowed| == capacity &&
      (forall j :: 0 <= j < freeCount ==>
         0 <= free[j] < capacity && free[j] !in Nodes && free[j] !in Borrowed) &&
      (forall j, j' :: 0 <= j < j' < freeCount ==> free[j] != free[j']) &&
      (forall j :: 0 <= j < |Nodes| ==> 0 <= Nodes[j] < capacity && Nodes[j] !in Borrowed) &&
      (forall j, j' :: 0 <= j < j' < |Nodes| ==> Nodes[j] != Nodes[j']) &&
      (forall n :: n in Borrowed ==> 0 <= n < capacity) &&
      head == (if Nodes == [] then Nil else Nodes[0]) &&
      |Contents| == |Nodes| &&
      (forall j {:trigger value[Nodes[j]]} :: 0 <= j < |Nodes| ==> value[Nodes[j]] == Contents[j]) &&
      (forall j {:trigger next[Nodes[j]]} :: 0 <= j < |Nodes| ==>
         next[Nodes[j]] == (if j + 1 < |Nodes| then Nodes[j + 1] else Nil)) &&
      (forall j {:trigger prev[Nodes[j]]} :: 0 <= j < |Nodes| ==>
         prev[Nodes[j]] == (if j == 0 then Nil else Nodes[j - 1]))
    }

    /** A store of `capacity` free nodes and an empty list. */
    constructor (capacity: nat)
      ensures Valid() && this.capacity == capacity
      ensures Nodes == [] && Contents == [] && Borrowed == {} && freeCount == capacity
      ensures fresh(value) && fresh(next) && fresh(prev) && fresh(free)
    {
      this.capacity := capacity;
      value := new Index[capacity];
      next := new int[capacity](_ => Nil);
      prev := new int[capacity](_ => Nil);
      free := new int[capacity](j => j);
      freeCount := capacity;
      head := Nil;
      Nodes := [];
      Contents := [];
      Borrowed := {};
    }

    /** ObjectStore::Borrow: takes a node off the free stack. */
    method Borrow() returns (n: int)
      requires Valid()
      requires freeCount > 0
      modifies this
      ensures Valid()
      ensures 0 <= n < capacity && n !in old(Borrowed) && n !in Nodes
      ensures Borrowed == old(Borrowed) + {n}
      ensures Nodes == old(Nodes) && Contents == old(Contents) && freeCount == old(freeCount) - 1
    {
      freeCount := freeCount - 1;
      n := free[freeCount];
      assert forall j :: 0 <= j < freeCount ==> free[j] != n;
      Borrowed := Borrowed + {n};
    }

    /** ObjectStore::Return: puts a borrowed node back on the free stack. */
    method Return(n: int)
      requires Valid()
      requires n in Borrowed
      modifies this, free
      ensures Valid()
      ensures Borrowed == old(Borrowed) - {n}
      ensures Nodes == old(Nodes) && Contents == old(Contents) && freeCount == old(freeCount) + 1
    {
      assert |Borrowed - {n}| == |Borrowed| - 1;
      free[freeCount] := n;
      freeCount := freeCount + 1;
      Borrowed := Borrowed - {n};
    }

    /** ListNode::m_Value of a node not linked into the list: its new value. */
    method SetValue(n: int, v: Index)
      requires Valid()
      requires n in Borrowed
      modifies value
      ensures Valid() && value[n] == v
      ensures forall m :: 0 <= m < capacity && m != n ==> value[m] == old(value[m])
    {
      value[n] := v;
    }

    /** SparseFieldLayer::Empty. */
    method Empty() returns (b: bool)
      requires Valid()
      ensures b <==> Nodes == []
    {
      b := head == Nil;
    }

    /** SparseFieldLayer::Front: the first node of a non-empty list. */
    method Front() returns (n: int)
      requires Valid()
      requires Nodes != []
      ensures n == Nodes[0] && value[n] == Contents[0]
    {
      n := head;
      assert value[Nodes[0]] == Contents[0];
    }

    /** SparseFieldLayer::PushFront: links a borrowed node in at the front. */
    method PushFront(n: int)
      requires Valid()
      requires n in Borrowed
      modifies this, next, prev
      ensures Valid()
      ensures Nodes == [n] + old(Nodes) && Borrowed == old(Borrowed) - {n}
      ensures Contents == [value[n]] + old(Contents) && freeCount == old(freeCount)
    {
      assert |Borrowed - {n}| == |Borrowed| - 1;
      next[n] := head;
      prev[n] := Nil;
      if head != Nil {
        prev[head] := n;
      }
      head := n;
      Nodes := [n] + Nodes;
      Contents := [value[n]] + Contents;
      Borrowed := Borrowed - {n};
    }

    /** SparseFieldLayer::PopFront: unlinks the first node, which the caller then holds. */
    method PopFront()
      requires Valid()
      requires Nodes != []
      modifies this, next, prev
      ensures Valid()
      ensures Nodes == old(Nodes)[1..] && Borrowed == old(Borrowed) + {old(Nodes)[0]}
      ensures Contents == old(Contents)[1..] && freeCount == old(freeCount)
    {
      var n := head;
      assert next[Nodes[0]] == if 1 < |Nodes| then Nodes[1] else Nil;
      head := next[n];
      if head != Nil {
        prev[head] := Nil;
      }
      Nodes := Nodes[1..];
      Contents := Contents[1..];
      Borrowed := Borrowed + {n};
    }

    /**
     * Queues `v` at the front: borrows a node from the store, stores `v` in it
     * and links it in.
     */
    method Enqueue(v: Index)
      requires Valid() && Borrowed == {}
      requires freeCount > 0
      modifies this, value, next, prev
      ensures Valid() && Borrowed == {}
      ensures Contents == [v] + old(Contents) && |Nodes| == old(|Nodes|) + 1
    {
      var n := Borrow();
      SetValue(n, v);
      PushFront(n);
    }

    /**
     * Takes the value off the front: reads the front node's value, unlinks the
     * node and returns it to the store.
     */
    method Dequeue() returns (v: Index)
      requires Valid() && Borrowed == {}
      requires Nodes != []
      modifies this, next, prev, free
      ensures Valid() && Borrowed == {}
      ensures v == old(Contents)[0] && Contents == old(Contents)[1..]
      ensures |Nodes| == old(|Nodes|) - 1
    {
      var n := Front();
      v := value[n];
      PopFront();
      Return(n);
    }

    /**
     * The links of the list agree: for two nodes a and b of the list, a's Next
     * is b exactly when b's Previous is a.
     */
    lemma LinksConsistent(a: int, b: int)
      requires Valid()
      requires a in Nodes && b in Nodes
      ensures next[a] == b <==> prev[b] == a
    {
      var i :| 0 <= i < |Nodes| && Nodes[i] == a;
      var j :| 0 <= j < |Nodes| && Nodes[j] == b;
      assert next[Nodes[i]] == if i + 1 < |Nodes| then Nodes[i + 1] else Nil;
      assert prev[Nodes[j]] == if j == 0 then Nil else Nodes[j - 1];
      if next[a] == b {
        assert i + 1 < |Nodes| && Nodes[i + 1] == b;
        assert j == i + 1;
      }
      if prev[b] == a {
        assert j > 0 && Nodes[j - 1] == a;
        assert i == j - 1;
      }
    }

    /** The list never holds more nodes than the store owns, and no node twice. */
    lemma ListBounded()
      requires Valid()
      ensures |Nodes| <= capacity
      ensures forall j, j' :: 0 <= j < |Nodes| && 0 <= j' < |Nodes| && Nodes[j] == Nodes[j'] ==> j == j'
    {
    }
  }
}
