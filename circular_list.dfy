/** The sentinel-anchored circular singly linked list of list.c.

    A list handle is a wrapper around the list's sentinel node. Its ghost
    fields give the public view: `nodes` are the data nodes in traversal order
    from the sentinel's successor, `Contents` their values, and `Repr` the
    objects the list owns (the wrapper, the sentinel and the data nodes). */
module CircularLinkedList {
  import opened SeqModel

  /** The status codes of list.h: SUCCESS = 1, LIST_EMPTY = 2,
      LIST_DATA_NOT_FOUND = 3. */
  datatype Status = Success | ListEmpty | DataNotFound

  class Node {
    var data: int
    var next: Node?

    /** get_new_node: a node that holds d and has no successor yet. */
    constructor (d: int)
      ensures data == d && next == null
    {
      data := d;
      next := null;
    }
  }

  /** The nodes of a sequence, as a set of objects (a footprint). */
  ghost function Objects(ns: seq<Node>): set<object>
  {
    set n: object | n in ns
  }

  lemma ObjectsAppend(s: seq<Node>, t: seq<Node>)
    ensures Objects(s + t) == Objects(s) + Objects(t)
  {
  }

  lemma ObjectsInsert(s: seq<Node>, k: int, n: Node)
    requires 0 <= k <= |s|
    ensures Objects(s[..k] + [n] + s[k..]) == Objects(s) + {n}
  {
    ObjectsAppend(s[..k] + [n], s[k..]);
    ObjectsAppend(s[..k], [n]);
    ObjectsAppend(s[..k], s[k..]);
    assert s == s[..k] + s[k..];
    assert Objects([n]) == {n};
  }

  /** The node k steps from the sentinel s on the ring s, ns[0], ns[1], ... */
  ghost function Pred(s: Node, ns: seq<Node>, k: int): Node
    requires 0 <= k <= |ns|
  {
    if k == 0 then s else ns[k - 1]
  }

  /** The node k steps from the first data node, wrapping to s at the end. */
  ghost function Succ(s: Node, ns: seq<Node>, k: int): Node
    requires 0 <= k <= |ns|
  {
    if k < |ns| then ns[k] else s
  }

  /** The links close a ring: s leads to ns[0], each node to the next, and
      the last one back to s (s leads to itself when ns is empty). */
  ghost predicate Ring(s: Node, ns: seq<Node>)
    reads {s} + Objects(ns)
  {
    forall k :: 0 <= k <= |ns| ==> Pred(s, ns, k).next == Succ(s, ns, k)
  }

  /** On a ring without repeated nodes, each node sits at one place only. */
  lemma PredInjective(s: Node, ns: seq<Node>, i: int, j: int)
    requires s !in ns && Distinct(ns)
    requires 0 <= i <= |ns| && 0 <= j <= |ns|
    requires Pred(s, ns, i) == Pred(s, ns, j)
    ensures i == j
  {
    if i != 0 && j != 0 {
      DistinctIff(ns);
    }
  }

  /** Two chains joined into one ring: the chain from s through an ends at
      the head of bn (or at s when bn is empty), and bn's last node leads
      back to s. */
  lemma RingJoin(s: Node, an: seq<Node>, bn: seq<Node>)
    requires forall k :: 0 <= k < |an| ==> Pred(s, an, k).next == Succ(s, an, k)
    requires Pred(s, an, |an|).next == Succ(s, bn, 0)
    requires forall k :: 0 < k <= |bn| ==> Pred(s, bn, k).next == Succ(s, bn, k)
    ensures Ring(s, an + bn)
  {
    var ns := an + bn;
    forall k | 0 <= k <= |ns|
      ensures Pred(s, ns, k).next == Succ(s, ns, k)
    {
      if k < |an| {
        assert Pred(s, ns, k) == Pred(s, an, k);
      } else if k == |an| {
        assert Pred(s, ns, k) == Pred(s, an, k);
        assert Succ(s, ns, k) == Succ(s, bn, 0);
      } else {
        assert Pred(s, ns, k) == bn[k - |an| - 1];
        assert Succ(s, ns, k) == Succ(s, bn, k - |an|);
      }
    }
  }

  class CircularList {
    const sentinel: Node
    ghost var nodes: seq<Node>
    ghost var Contents: seq<int>
    ghost var Repr: set<object>

    /** The ring invariant: the sentinel leads to the first data node, each
        data node to the next one, and the last data node back to the
        sentinel (the sentinel leads to itself when there is no data node). */
    ghost predicate Valid()
      reads this, Repr
    {
      this in Repr && sentinel in Repr &&
      Repr == {this, sentinel} + Objects(nodes) &&
      sentinel !in nodes &&
      Distinct(nodes) &&
      |Contents| == |nodes| &&
      Ring(sentinel, nodes) && sentinel.next == At(0) &&
      (forall i :: 0 <= i < |nodes| ==> nodes[i].data == Contents[i])
    }

    /** The node reached after k steps from the sentinel's successor. */
    ghost function At(k: int): Node
      reads this
      requires 0 <= k <= |nodes|
    {
      Succ(sentinel, nodes, k)
    }

    /** The node reached after k steps from the sentinel itself. */
    ghost function Before(k: int): Node
      reads this
      requires 0 <= k <= |nodes|
    {
      Pred(sentinel, nodes, k)
    }

    /** create_list: a sentinel (holding 0) whose successor is itself. */
    constructor ()
      ensures Valid() && fresh(Repr)
      ensures nodes == [] && Contents == []
      ensures sentinel.data == 0
    {
      var s := new Node(0);
      s.next := s;
      sentinel := s;
      nodes := [];
      Contents := [];
      Repr := {this, s};
    }

    /** is_list_empty */
    predicate IsEmpty()
      requires Valid()
      reads this, Repr
      ensures IsEmpty() <==> Contents == []
    {
      sentinel.next == sentinel
    }

    /** size: count the data nodes by walking the ring once. */
    method Size() returns (n: nat)
      requires Valid()
      ensures n == |Contents|
    {
      n := 0;
      var p := sentinel.next;
      while p != sentinel
        invariant n <= |nodes| && p == At(n)
        decreases |nodes| - n
      {
        n := n + 1;
        p := p.next;
      }
    }

    /** get_end_node: the last data node, or the sentinel of an empty list. */
    method GetEndNode() returns (r: Node)
      requires Valid()
      ensures r == if nodes == [] then sentinel else nodes[|nodes| - 1]
    {
      r := sentinel;
      ghost var k := 0;
      while r.next != sentinel
        invariant k <= |nodes| && r == Before(k)
        decreases |nodes| - k
      {
        r := r.next;
        k := k + 1;
      }
    }

    /** search_node: the first data node holding x, or null. */
    method SearchNode(x: int) returns (r: Node?)
      requires Valid()
      ensures x !in Contents ==> r == null
      ensures x in Contents ==> r == nodes[IndexOf(Contents, x)]
    {
      var p := sentinel.next;
      ghost var k := 0;
      while p != sentinel
        invariant k <= |nodes| && p == At(k)
        invariant x !in Contents[..k]
        decreases |nodes| - k
      {
        if p.data == x {
          break;
        }
        SliceExtend(Contents, 0, k);
        p := p.next;
        k := k + 1;
      }
      if p != sentinel {
        IndexOfUnique(Contents, x, k);
        return p;
      }
      return null;
    }

    /** search_data */
    method SearchData(x: int) returns (found: bool)
      requires Valid()
      ensures found <==> x in Contents
    {
      var r := SearchNode(x);
      found := r != null;
    }

    /** generic_delete as written. Its scan starts at the sentinel under the
        guard "not back at the sentinel", so it makes no step, and the test
        that follows it (list.c:326) returns before anything is unlinked.
        The scan's body (list.c:324-325) and the unlink (list.c:328-329) are
        never reached and are not part of the method. Nothing is modified,
        which the empty modifies clause states. */
    method GenericDelete(target: Node)
      requires Valid()
      ensures Valid() && unchanged(Repr)
    {
      var prev := sentinel;
      if prev == sentinel {
        return;
      }
    }

    /** generic_insert: link beg to mid and mid to end. Called with beg the
        node k steps from the sentinel and end its successor, it splices the
        node mid, which the list does not own yet, into position k. */
    method GenericInsert(beg: Node, mid: Node, end: Node, ghost k: int)
      requires Valid()
      requires 0 <= k <= |nodes| && beg == Before(k) && end == At(k)
      requires mid !in Repr
      modifies this, beg`next, mid`next
      ensures Valid()
      ensures nodes == old(nodes)[..k] + [mid] + old(nodes)[k..]
      ensures Contents == old(Contents)[..k] + [mid.data] + old(Contents)[k..]
      ensures Repr == old(Repr) + {mid}
    {
      ghost var ns, cs := nodes, Contents;
      ghost var ns' := ns[..k] + [mid] + ns[k..];
      beg.next := mid;
      mid.next := end;
      forall j | 0 <= j <= |ns'|
        ensures Pred(sentinel, ns', j).next == Succ(sentinel, ns', j)
      {
        if j < k {
          assert Pred(sentinel, ns', j) == Pred(sentinel, ns, j);
          assert Succ(sentinel, ns', j) == Succ(sentinel, ns, j);
          if Pred(sentinel, ns, j) == beg {
            PredInjective(sentinel, ns, j, k);
          }
          assert old(Pred(sentinel, ns, j).next) == Succ(sentinel, ns, j);
        } else if j == k {
          assert Pred(sentinel, ns', j) == beg;
        } else if j == k + 1 {
          assert Pred(sentinel, ns', j) == mid;
          assert Succ(sentinel, ns', j) == end;
        } else {
          assert Pred(sentinel, ns', j) == Pred(sentinel, ns, j - 1);
          assert Succ(sentinel, ns', j) == Succ(sentinel, ns, j - 1);
          if Pred(sentinel, ns, j - 1) == beg {
            PredInjective(sentinel, ns, j - 1, k);
          }
          assert old(Pred(sentinel, ns, j - 1).next) == Succ(sentinel, ns, j - 1);
        }
      }
      ObjectsInsert(ns, k, mid);
      InsertDistinct(ns, k, mid);
      nodes := ns';
      Contents := cs[..k] + [mid.data] + cs[k..];
      Repr := Repr + {mid};
      forall i | 0 <= i < |nodes|
        ensures nodes[i].data == Contents[i]
      {
        if i < k {
          assert nodes[i] == ns[i] && Contents[i] == cs[i];
        } else if i > k {
          assert nodes[i] == ns[i - 1] && Contents[i] == cs[i - 1];
        }
      }
    }

    /** insert_start */
    method InsertStart(x: int) returns (status: Status)
      requires Valid()
      modifies Repr
      ensures Valid() && fresh(Repr - old(Repr))
      ensures status == Success
      ensures Contents == [x] + old(Contents)
      ensures |nodes| == |old(nodes)| + 1 && fresh(nodes[0]) && nodes[1..] == old(nodes)
    {
      var n := new Node(x);
      GenericInsert(sentinel, n, sentinel.next, 0);
      status := Success;
    }

    /** insert_end */
    method InsertEnd(x: int) returns (status: Status)
      requires Valid()
      modifies Repr
      ensures Valid() && fresh(Repr - old(Repr))
      ensures status == Success
      ensures Contents == old(Contents) + [x]
      ensures |nodes| == |old(nodes)| + 1 && fresh(nodes[|nodes| - 1]) && nodes[..|nodes| - 1] == old(nodes)
    {
      var last := GetEndNode();
      var n := new Node(x);
      GenericInsert(last, n, sentinel, |nodes|);
      status := Success;
    }

    /** insert_after: put x right after the first occurrence of e. */
    method InsertAfter(e: int, x: int) returns (status: Status)
      requires Valid()
      modifies Repr
      ensures Valid() && fresh(Repr - old(Repr))
      ensures e !in old(Contents) ==>
        status == DataNotFound && Contents == old(Contents) && nodes == old(nodes) && unchanged(Repr)
      ensures e in old(Contents) ==>
        var k := IndexOf(old(Contents), e);
        status == Success &&
        Contents == old(Contents)[..k + 1] + [x] + old(Contents)[k + 1..] &&
        nodes[..k + 1] == old(nodes)[..k + 1] && nodes[k + 2..] == old(nodes)[k + 1..]
    {
      var en := SearchNode(e);
      if en == null {
        return DataNotFound;
      }
      ghost var k := IndexOf(Contents, e);
      assert en == Before(k + 1);
      var n := new Node(x);
      GenericInsert(en, n, en.next, k + 1);
      status := Success;
    }

    /** insert_before: put x right before the first occurrence of e, found by
        a scan that compares the successor's data. */
    method InsertBefore(e: int, x: int) returns (status: Status)
      requires Valid()
      modifies Repr
      ensures Valid() && fresh(Repr - old(Repr))
      ensures e !in old(Contents) ==>
        status == DataNotFound && Contents == old(Contents) && nodes == old(nodes) && unchanged(Repr)
      ensures e in old(Contents) ==>
        var k := IndexOf(old(Contents), e);
        status == Success &&
        Contents == old(Contents)[..k] + [x] + old(Contents)[k..] &&
        nodes[..k] == old(nodes)[..k] && nodes[k + 1..] == old(nodes)[k..]
    {
      var p := sentinel;
      ghost var k := 0;
      while p.next != sentinel
        invariant k <= |nodes| && p == Before(k)
        invariant e !in Contents[..k]
        decreases |nodes| - k
      {
        if p.next.data == e {
          break;
        }
        assert Contents[..k + 1] == Contents[..k] + [Contents[k]];
        p := p.next;
        k := k + 1;
      }
      if p.next == sentinel {
        return DataNotFound;
      }
      IndexOfUnique(Contents, e, k);
      var n := new Node(x);
      GenericInsert(p, n, p.next, k);
      status := Success;
    }

    /** get_start. `prior` is the caller's variable, which is written only on
        success. */
    method GetStart(prior: int) returns (status: Status, data: int)
      requires Valid()
      ensures Contents == [] ==> status == ListEmpty && data == prior
      ensures Contents != [] ==> status == Success && data == Contents[0]
    {
      if IsEmpty() {
        return ListEmpty, prior;
      }
      status, data := Success, sentinel.next.data;
    }

    /** get_end */
    method GetEnd(prior: int) returns (status: Status, data: int)
      requires Valid()
      ensures Contents == [] ==> status == ListEmpty && data == prior
      ensures Contents != [] ==> status == Success && data == Contents[|Contents| - 1]
    {
      if IsEmpty() {
        return ListEmpty, prior;
      }
      var last := GetEndNode();
      status, data := Success, last.data;
    }

    /** pop_start: reads the first value, then calls generic_delete, which as
        written leaves the list as it was. */
    method PopStart(prior: int) returns (status: Status, data: int)
      requires Valid()
      ensures Valid()
      ensures Contents == [] ==> status == ListEmpty && data == prior
      ensures Contents != [] ==> status == Success && data == Contents[0]
    {
      if IsEmpty() {
        return ListEmpty, prior;
      }
      data := sentinel.next.data;
      GenericDelete(sentinel.next);
      status := Success;
    }

    /** pop_end: reads the last value, then calls generic_delete. */
    method PopEnd(prior: int) returns (status: Status, data: int)
      requires Valid()
      ensures Valid()
      ensures Contents == [] ==> status == ListEmpty && data == prior
      ensures Contents != [] ==> status == Success && data == Contents[|Contents| - 1]
    {
      if IsEmpty() {
        return ListEmpty, prior;
      }
      var last := GetEndNode();
      data := last.data;
      GenericDelete(last);
      status := Success;
    }

    /** remove_start */
    method RemoveStart() returns (status: Status)
      requires Valid()
      ensures Valid()
      ensures status == if Contents == [] then ListEmpty else Success
    {
      if IsEmpty() {
        return ListEmpty;
      }
      GenericDelete(sentinel.next);
      status := Success;
    }

    /** remove_end */
    method RemoveEnd() returns (status: Status)
      requires Valid()
      ensures Valid()
      ensures status == if Contents == [] then ListEmpty else Success
    {
      if IsEmpty() {
        return ListEmpty;
      }
      var last := GetEndNode();
      GenericDelete(last);
      status := Success;
    }

    /** remove_data: emptiness is reported before absence. */
    method RemoveData(x: int) returns (status: Status)
      requires Valid()
      ensures Valid()
      ensures status ==
        if Contents == [] then ListEmpty
        else if x !in Contents then DataNotFound
        else Success
    {
      if IsEmpty() {
        return ListEmpty;
      }
      var r := SearchNode(x);
      if r == null {
        return DataNotFound;
      }
      GenericDelete(r);
      status := Success;
    }

    /** get_reversed_list as written: it returns a fresh empty list and
        reverses this list's values in place, by swapping the value at index
        i with the one at index length-1-i for every i below length/2; the
        second node of each pair is found by walking length-i steps from the
        sentinel. The nodes and their order stay as they were. */
    method GetReversedList() returns (r: CircularList)
      requires Valid()
      modifies Repr
      ensures Valid() && Repr == old(Repr) && nodes == old(nodes)
      ensures Contents == Rev(old(Contents))
      ensures r.Valid() && fresh(r.Repr) && r.Contents == []
    {
      r := new CircularList();
      var length := Size();
      if IsEmpty() {
        return;
      }
      SwapValues(length);
    }

    /** The loop of get_reversed_list: for i below half the length, swap the
        value i steps from the front with the one i steps from the back. */
    method SwapValues(length: int)
      requires Valid() && length == |nodes|
      modifies Repr
      ensures Valid() && Repr == old(Repr) && nodes == old(nodes)
      ensures Contents == Rev(old(Contents))
    {
      ghost var cs := Contents;
      assert Contents == SwappedEnds(cs, 0);
      var p1 := sentinel;
      var i := 0;
      while i < length / 2
        invariant Valid() && Repr == old(Repr) && nodes == old(nodes)
        invariant 0 <= i <= length / 2 && p1 == Before(i)
        invariant |cs| == length && Contents == SwappedEnds(cs, i)
      {
        p1 := SwapRound(p1, i, length);
        SwappedEndsStep(cs, i);
        i := i + 1;
      }
      SwappedEndsAll(cs);
    }

    /** One round of get_reversed_list's outer loop: step p1 to the data node
        at index i, walk p2 from the sentinel to the one at index
        length - 1 - i, and swap their values. */
    method SwapRound(p: Node, i: int, length: int) returns (p1: Node)
      requires Valid() && length == |nodes| && 0 <= i < length / 2 && p == Before(i)
      modifies this, Objects(nodes)
      ensures Valid() && Repr == old(Repr) && nodes == old(nodes)
      ensures p1 == Before(i + 1)
      ensures Contents == Swap(old(Contents), i, length - 1 - i)
    {
      p1 := p.next;
      assert p1 == nodes[i];
      var p2 := Walk(length - i);
      SwapData(p1, p2, i, length - 1 - i);
    }

    /** The inner loop of get_reversed_list: the node reached by following
        steps links from the sentinel. */
    method Walk(steps: int) returns (p: Node)
      requires Ring(sentinel, nodes) && 0 <= steps <= |nodes|
      ensures p == Before(steps)
    {
      p := sentinel;
      var j := steps;
      while j > 0
        invariant 0 <= j <= steps && p == Before(steps - j)
      {
        p := p.next;
        j := j - 1;
      }
    }

    /** reverse_list: while the sentinel's successor is not the node that
        was last, unlink that successor and splice it in right after the
        old last node. The nodes end up in reverse order, with their values. */
    method ReverseList()
      requires Valid()
      modifies Repr
      ensures Valid() && Repr == old(Repr)
      ensures nodes == Rev(old(nodes)) && Contents == Rev(old(Contents))
      ensures |old(nodes)| <= 1 ==> unchanged(old(Repr))
    {
      var length := Size();
      if length <= 1 {
        if length == 1 {
          assert nodes == [nodes[0]] && nodes[1..] == [];
          assert Contents == [Contents[0]] && Contents[1..] == [];
        }
        return;
      }
      ghost var ns, cs := nodes, Contents;
      var last := GetEndNode();
      var p := sentinel;
      ghost var k := 0;
      while p.next != last
        invariant Valid() && Repr == old(Repr) && p == sentinel
        invariant Distinct(ns) && sentinel !in ns && |ns| == |cs| == length
        invariant 0 <= k < length && last == ns[length - 1]
        invariant nodes == ns[k..] + Rev(ns[..k])
        invariant Contents == cs[k..] + Rev(cs[..k])
        decreases length - 1 - k
      {
        RevLength(ns[..k]);
        assert nodes[0] == ns[k];
        assert k < length - 1;
        ReverseRound(last, ns, cs, k);
        k := k + 1;
      }
      assert nodes[0] == ns[k];
      if k < length - 1 {
        PredInjective(sentinel, ns, k + 1, length);
      }
      RotateDone(ns);
      RotateDone(cs);
    }

    /** sort: delegates to merge_sort. The list ends up ascending and holds
        the same values as before. */
    method Sort()
      requires Valid()
      modifies Repr
      ensures Valid() && fresh(Repr - old(Repr))
      ensures Contents == SeqModel.MergeSort(old(Contents))
      ensures Sorted(Contents) && multiset(Contents) == multiset(old(Contents))
      ensures |old(Contents)| <= 1 ==> unchanged(old(Repr))
    {
      MergeSort();
      MergeSortCorrect(old(Contents));
    }

    /** merge_sort: copy the first half (rounded down) of the values into a
        fresh list l1 and the rest into a fresh list l2, empty this list by
        pointing its sentinel at itself (the old nodes are dropped, not
        freed), sort l1 and l2 recursively and merge them back into this
        list. Lists of length 0 or 1 are left alone. */
    method MergeSort()
      requires Valid()
      modifies Repr
      ensures Valid() && fresh(Repr - old(Repr))
      ensures Contents == SeqModel.MergeSort(old(Contents))
      ensures |old(Contents)| <= 1 ==> unchanged(old(Repr))
      decreases |Contents|, 1
    {
      var length := Size();
      if length <= 1 {
        return;
      }
      var l1, l2 := CopyHalves();
      Clear();
      SortAndMerge(l1, l2, this, length);
      MergeSortSplit(old(Contents));
    }

    /** The two create_list calls and the two copy loops of merge_sort:
        fresh lists holding the first half (rounded down) of the values and
        the rest. */
    method CopyHalves() returns (l1: CircularList, l2: CircularList)
      requires Valid()
      ensures l1.Valid() && l2.Valid() && fresh(l1.Repr) && fresh(l2.Repr) && l1.Repr !! l2.Repr
      ensures l1.Contents == Contents[..|Contents| / 2]
      ensures l2.Contents == Contents[|Contents| / 2..]
    {
      var length := Size();
      var p;
      l1, p := CopyValues(sentinel.next, 0, length / 2);
      l2, p := CopyValues(p, length / 2, length - length / 2);
    }

    /** The step of merge_sort that empties the list: the sentinel is made its
        own successor; the old data nodes are dropped, not freed. */
    method Clear()
      modifies this, sentinel`next
      ensures Valid() && Contents == [] && Repr == {this, sentinel}
    {
      sentinel.next := sentinel;
      nodes, Contents, Repr := [], [], {this, sentinel};
    }

    /** One copy loop of merge_sort: a fresh list holding the count values
        that start at p, the data node i steps from the first one, and the
        node after them. */
    method CopyValues(p: Node, ghost i: int, count: int) returns (dst: CircularList, q: Node)
      requires Valid()
      requires 0 <= i && 0 <= count && i + count <= |nodes| && p == At(i)
      ensures dst.Valid() && fresh(dst.Repr)
      ensures dst.Contents == Contents[i..i + count]
      ensures q == At(i + count)
    {
      dst := new CircularList();
      q := p;
      var k := 0;
      while k < count
        invariant dst.Valid() && fresh(dst.Repr)
        invariant 0 <= k <= count && q == At(i + k)
        invariant dst.Contents == Contents[i..i + k]
      {
        SliceExtend(Contents, i, i + k);
        var _ := dst.InsertEnd(q.data);
        assert q == Before(i + k + 1);
        q := q.next;
        k := k + 1;
      }
    }

    /** The loop body of reverse_list, against the original order ns of the
        nodes (and cs of the values): if the first k of them already sit
        reversed behind the rest, one round reverses one more. */
    method ReverseRound(last: Node, ghost ns: seq<Node>, ghost cs: seq<int>, ghost k: int)
      requires Valid() && |ns| == |cs| == |nodes| && 0 <= k < |ns| - 1 && last == ns[|ns| - 1]
      requires nodes == ns[k..] + Rev(ns[..k]) && Contents == cs[k..] + Rev(cs[..k])
      modifies Repr
      ensures Valid() && Repr == old(Repr)
      ensures nodes == ns[k + 1..] + Rev(ns[..k + 1]) && Contents == cs[k + 1..] + Rev(cs[..k + 1])
    {
      RevLength(ns[..k]);
      assert last == nodes[|ns| - 1 - k];
      MoveFirstAfter(last, |ns| - 1 - k);
      RotateStep(ns, k);
      RotateStep(cs, k);
    }

    /** The list operations of that loop body: the first data node is unlinked and
        spliced in right after the data node at index pos. */
    method MoveFirstAfter(last: Node, ghost pos: int)
      requires Valid() && 0 < pos < |nodes| && last == nodes[pos]
      modifies Repr
      ensures Valid() && Repr == old(Repr)
      ensures nodes == old(nodes)[1..pos + 1] + [old(nodes)[0]] + old(nodes)[pos + 1..]
      ensures Contents == old(Contents)[1..pos + 1] + [old(Contents)[0]] + old(Contents)[pos + 1..]
    {
      var pn := sentinel.next;
      UnlinkFirst(pn);
      assert last == Before(pos);
      GenericInsert(last, pn, last.next, pos);
    }

    /** The unlinking step of reverse_list: the sentinel's successor is cut
        out of the ring and left without a successor. */
    method UnlinkFirst(pn: Node)
      requires Valid() && nodes != [] && pn == nodes[0]
      modifies this, sentinel`next, pn`next
      ensures Valid() && pn.next == null
      ensures nodes == old(nodes)[1..] && Contents == old(Contents)[1..]
      ensures Repr == old(Repr) - {pn}
    {
      ghost var ms := nodes;
      sentinel.next := pn.next;
      pn.next := null;
      forall j | 0 <= j <= |ms| - 1
        ensures Pred(sentinel, ms[1..], j).next == Succ(sentinel, ms[1..], j)
      {
        assert Succ(sentinel, ms[1..], j) == Succ(sentinel, ms, j + 1);
        if j > 0 {
          assert Pred(sentinel, ms[1..], j) == Pred(sentinel, ms, j + 1);
          if Pred(sentinel, ms, j + 1) == pn {
            PredInjective(sentinel, ms, j + 1, 1);
          }
          assert old(Pred(sentinel, ms, j + 1).next) == Succ(sentinel, ms, j + 1);
        } else {
          assert old(Pred(sentinel, ms, 1).next) == Succ(sentinel, ms, 1);
        }
      }
      assert ms == [pn] + ms[1..];
      ObjectsAppend([pn], ms[1..]);
      assert Objects([pn]) == {pn};
      nodes := ms[1..];
      Contents := Contents[1..];
      Repr := Repr - {pn};
    }

    /** The two value writes of a swap, with the list's view updated. */
    method SwapData(p: Node, q: Node, ghost i: int, ghost j: int)
      requires Valid()
      requires 0 <= i < |nodes| && 0 <= j < |nodes| && p == nodes[i] && q == nodes[j]
      modifies this, p`data, q`data
      ensures Valid() && Repr == old(Repr) && nodes == old(nodes)
      ensures Contents == Swap(old(Contents), i, j)
    {
      var temp := p.data;
      p.data := q.data;
      q.data := temp;
      Contents := Swap(Contents, i, j);
      forall m | 0 <= m < |nodes|
        ensures nodes[m].data == Contents[m]
      {
        if m != i && m != j {
          if nodes[m] == p {
            PredInjective(sentinel, nodes, m + 1, i + 1);
          } else if nodes[m] == q {
            PredInjective(sentinel, nodes, m + 1, j + 1);
          }
        }
      }
    }

    /** The last link of concat_lists and its bookkeeping. The chain from
        the sentinel runs through this list's nodes and on through the nodes
        bn of the other list (whose sentinel is s2); q, the node that ends
        it, is made to lead back to this sentinel, and bn, holding the
        values bc, becomes part of this list. */
    method CloseWith(q: Node, ghost s2: Node, ghost bn: seq<Node>, ghost bc: seq<int>)
      requires this in Repr && sentinel in Repr && Repr == {this, sentinel} + Objects(nodes)
      requires sentinel !in nodes && Distinct(nodes) && |Contents| == |nodes|
      requires forall i :: 0 <= i < |nodes| ==> nodes[i].data == Contents[i]
      requires forall k :: 0 <= k < |nodes| ==> Pred(sentinel, nodes, k).next == Succ(sentinel, nodes, k)
      requires Pred(sentinel, nodes, |nodes|).next == Succ(s2, bn, 0)
      requires Ring(s2, bn) && s2 !in bn && Distinct(bn)
      requires forall x :: x in bn ==> x !in Repr
      requires |bc| == |bn| && forall i :: 0 <= i < |bn| ==> bn[i].data == bc[i]
      requires q == if bn == [] then Pred(sentinel, nodes, |nodes|) else bn[|bn| - 1]
      modifies this, q`next
      ensures Valid()
      ensures nodes == old(nodes) + bn && Contents == old(Contents) + bc
      ensures Repr == old(Repr) + Objects(bn)
    {
      ghost var an := nodes;
      assert forall x :: x in an ==> x in Repr;
      q.next := sentinel;
      assert bn != [] ==> q in bn;
      forall k | 0 <= k <= |an|
        ensures Pred(sentinel, an, k) in Repr
        ensures Pred(sentinel, an, k) != q ==> Pred(sentinel, an, k).next == old(Pred(sentinel, an, k).next)
      {
      }
      forall k | 0 <= k < |an|
        ensures Pred(sentinel, an, k).next == Succ(sentinel, an, k)
      {
        if bn == [] && Pred(sentinel, an, k) == q {
          PredInjective(sentinel, an, k, |an|);
        }
      }
      assert Pred(sentinel, an, |an|).next == Succ(sentinel, bn, 0);
      forall k | 0 < k <= |bn|
        ensures Pred(sentinel, bn, k).next == Succ(sentinel, bn, k)
      {
        if k < |bn| {
          if bn[k - 1] == q {
            PredInjective(s2, bn, k, |bn|);
          }
          assert old(Pred(s2, bn, k).next) == Succ(s2, bn, k);
        }
      }
      Absorb(bn, bc);
    }

    /** The bookkeeping of concat_lists: once the chain from the sentinel
        runs through this list's nodes and then through bn back to the
        sentinel, bn and its values bc belong to this list. */
    ghost method Absorb(bn: seq<Node>, bc: seq<int>)
      requires this in Repr && sentinel in Repr && Repr == {this, sentinel} + Objects(nodes)
      requires sentinel !in nodes && sentinel !in bn && Distinct(nodes) && Distinct(bn)
      requires forall x :: x in bn ==> x !in Repr
      requires |Contents| == |nodes| && |bc| == |bn|
      requires forall k :: 0 <= k < |nodes| ==> Pred(sentinel, nodes, k).next == Succ(sentinel, nodes, k)
      requires Pred(sentinel, nodes, |nodes|).next == Succ(sentinel, bn, 0)
      requires forall k :: 0 < k <= |bn| ==> Pred(sentinel, bn, k).next == Succ(sentinel, bn, k)
      requires forall i :: 0 <= i < |nodes| ==> nodes[i].data == Contents[i]
      requires forall i :: 0 <= i < |bn| ==> bn[i].data == bc[i]
      modifies this
      ensures Valid()
      ensures nodes == old(nodes) + bn && Contents == old(Contents) + bc
      ensures Repr == old(Repr) + Objects(bn)
    {
      ghost var an, ac := nodes, Contents;
      forall i | 0 <= i < |an + bn|
        ensures (an + bn)[i].data == (ac + bc)[i]
      {
        if i < |an| {
          assert (an + bn)[i] == an[i] && (ac + bc)[i] == ac[i];
        } else {
          assert (an + bn)[i] == bn[i - |an|] && (ac + bc)[i] == bc[i - |an|];
        }
      }
      RingJoin(sentinel, an, bn);
      assert forall x :: x in an ==> x in Repr;
      AppendDistinct(an, bn);
      ObjectsAppend(an, bn);
      nodes, Contents := an + bn, ac + bc;
      Repr := Repr + Objects(bn);
      assert sentinel.next == Pred(sentinel, nodes, 0).next;
    }

    /** The second loop of concat_lists: from start, whose successor is the
        first data node of this list (or its sentinel), follow links up to
        the node whose successor is the sentinel. */
    method EndFrom(start: Node) returns (r: Node)
      requires Valid() && start !in Repr && start.next == sentinel.next
      ensures r == if nodes == [] then start else nodes[|nodes| - 1]
    {
      r := start;
      ghost var k := 0;
      while r.next != sentinel
        invariant k <= |nodes| && r == (if k == 0 then start else nodes[k - 1])
        invariant r.next == At(k)
        decreases |nodes| - k
      {
        assert k < |nodes|;
        r := r.next;
        assert r == Before(k + 1);
        k := k + 1;
      }
    }
  }

  /** add_lists: a new list holding the values of a followed by those of b;
      both inputs are only read, so they may be the same list. */
  method AddLists(a: CircularList, b: CircularList) returns (r: CircularList)
    requires a.Valid() && b.Valid()
    ensures r.Valid() && fresh(r.Repr)
    ensures r.Contents == a.Contents + b.Contents
  {
    r := new CircularList();
    AppendFrom(a, a.sentinel.next, 0, r);
    AppendFrom(b, b.sentinel.next, 0, r);
  }

  /** merge: append to out the values of the ascending lists l1 and l2 in
      ascending order. A value of l1 goes first only when it is strictly
      smaller than the head of l2, so on equal values l2's goes first. l1 and
      l2 are only read. */
  method MergeLists(l1: CircularList, l2: CircularList, out: CircularList)
    requires l1.Valid() && l2.Valid() && out.Valid()
    requires l1.Repr !! out.Repr && l2.Repr !! out.Repr
    modifies out.Repr
    ensures out.Valid() && fresh(out.Repr - old(out.Repr))
    ensures out.Contents == old(out.Contents) + SeqModel.Merge(l1.Contents, l2.Contents)
  {
    ghost var a, b := l1.Contents, l2.Contents;
    ghost var goal := old(out.Contents) + SeqModel.Merge(a, b);
    var p1 := l1.sentinel.next;
    var p2 := l2.sentinel.next;
    ghost var i, j := 0, 0;
    while p1 != l1.sentinel && p2 != l2.sentinel
      invariant out.Valid() && fresh(out.Repr - old(out.Repr))
      invariant l1.Valid() && l2.Valid() && l1.Contents == a && l2.Contents == b
      invariant l1.Repr !! out.Repr && l2.Repr !! out.Repr
      invariant i <= |a| && p1 == l1.At(i) && j <= |b| && p2 == l2.At(j)
      invariant out.Contents + SeqModel.Merge(a[i..], b[j..]) == goal
      decreases |a| - i + |b| - j
    {
      MergeFrom(out.Contents, a, b, i, j);
      p1, p2 := TakeSmaller(l1, p1, i, l2, p2, j, out);
      if a[i] < b[j] {
        i := i + 1;
      } else {
        j := j + 1;
      }
    }
    assert a[i..] == [] || b[j..] == [];
    assert SeqModel.Merge(a[i..], b[j..]) == a[i..] + b[j..];
    AppendRests(l1, p1, i, l2, p2, j, out);
  }

  /** One round of merge's first loop: the smaller of the two current values,
      l2's when they are equal, is appended to out and its cursor moves on. */
  method TakeSmaller(l1: CircularList, p1: Node, ghost i: int,
                     l2: CircularList, p2: Node, ghost j: int, out: CircularList)
    returns (q1: Node, q2: Node)
    requires l1.Valid() && l2.Valid() && out.Valid()
    requires l1.Repr !! out.Repr && l2.Repr !! out.Repr
    requires 0 <= i < |l1.nodes| && p1 == l1.At(i)
    requires 0 <= j < |l2.nodes| && p2 == l2.At(j)
    modifies out.Repr
    ensures out.Valid() && fresh(out.Repr - old(out.Repr))
    ensures old(l1.Contents[i] < l2.Contents[j]) ==>
      q1 == l1.At(i + 1) && q2 == p2 && out.Contents == old(out.Contents) + [old(l1.Contents[i])]
    ensures old(l1.Contents[i] >= l2.Contents[j]) ==>
      q1 == p1 && q2 == l2.At(j + 1) && out.Contents == old(out.Contents) + [old(l2.Contents[j])]
  {
    if p1.data < p2.data {
      var _ := out.InsertEnd(p1.data);
      assert p1 == l1.Before(i + 1);
      q1, q2 := p1.next, p2;
    } else {
      var _ := out.InsertEnd(p2.data);
      assert p2 == l2.Before(j + 1);
      q1, q2 := p1, p2.next;
    }
  }

  /** The last two loops of merge: the rest of l1 is appended, then the rest
      of l2. */
  method AppendRests(l1: CircularList, p1: Node, ghost i: int,
                     l2: CircularList, p2: Node, ghost j: int, out: CircularList)
    requires l1.Valid() && l2.Valid() && out.Valid()
    requires l1.Repr !! out.Repr && l2.Repr !! out.Repr
    requires 0 <= i <= |l1.nodes| && p1 == l1.At(i)
    requires 0 <= j <= |l2.nodes| && p2 == l2.At(j)
    modifies out.Repr
    ensures out.Valid() && fresh(out.Repr - old(out.Repr))
    ensures out.Contents == old(out.Contents) + (old(l1.Contents)[i..] + old(l2.Contents)[j..])
  {
    AppendFrom(l1, p1, i, out);
    AppendFrom(l2, p2, j, out);
  }

  /** The copy loop of add_lists and of the last two loops of merge: append
      to out the values of src from p, the node i steps from src's first data
      node, up to src's sentinel. */
  method AppendFrom(src: CircularList, p: Node, ghost i: int, out: CircularList)
    requires src.Valid() && out.Valid() && src.Repr !! out.Repr
    requires 0 <= i <= |src.nodes| && p == src.At(i)
    modifies out.Repr
    ensures out.Valid() && fresh(out.Repr - old(out.Repr))
    ensures out.Contents == old(out.Contents) + src.Contents[i..]
  {
    var q := p;
    ghost var k := i;
    while q != src.sentinel
      invariant out.Valid() && fresh(out.Repr - old(out.Repr))
      invariant src.Repr !! out.Repr
      invariant i <= k <= |src.nodes| && q == src.At(k)
      invariant out.Contents == old(out.Contents) + src.Contents[i..k]
      decreases |src.nodes| - k
    {
      SliceExtend(src.Contents, i, k);
      assert q == src.Before(k + 1);
      var _ := out.InsertEnd(q.data);
      q := q.next;
      k := k + 1;
    }
  }

  /** The last part of merge_sort: sort l1 and l2, then merge them into out.
      bound exceeds both lengths, so that the recursion terminates. */
  method SortAndMerge(l1: CircularList, l2: CircularList, out: CircularList, ghost bound: int)
    requires l1.Valid() && l2.Valid() && out.Valid()
    requires l1.Repr !! l2.Repr && l1.Repr !! out.Repr && l2.Repr !! out.Repr
    requires |l1.Contents| < bound && |l2.Contents| < bound
    modifies l1.Repr, l2.Repr, out.Repr
    ensures out.Valid() && fresh(out.Repr - old(out.Repr))
    ensures out.Contents == old(out.Contents) +
      SeqModel.Merge(SeqModel.MergeSort(old(l1.Contents)), SeqModel.MergeSort(old(l2.Contents)))
    decreases bound, 0
  {
    l1.MergeSort();
    l2.MergeSort();
    MergeLists(l1, l2, out);
  }

  /** concat_lists: the data nodes of l2 are linked in after the last data
      node of l1, the last of them leads back to l1's sentinel, and l2 is
      left empty (its sentinel leads to itself). The two lists must not
      share nodes. */
  method ConcatLists(l1: CircularList, l2: CircularList)
    requires l1.Valid() && l2.Valid() && l1.Repr !! l2.Repr
    modifies l1.Repr, l2.Repr
    ensures l1.Valid() && l2.Valid() && l1.Repr !! l2.Repr
    ensures l1.nodes == old(l1.nodes) + old(l2.nodes)
    ensures l1.Contents == old(l1.Contents) + old(l2.Contents)
    ensures l2.nodes == [] && l2.Contents == []
    ensures l1.Repr == old(l1.Repr) + Objects(old(l2.nodes)) && l2.Repr == {l2, l2.sentinel}
  {
    ghost var s1, an, bn := l1.sentinel, l1.nodes, l2.nodes;
    var p := l1.GetEndNode();
    p.next := l2.sentinel.next;
    forall k | 0 <= k < |an|
      ensures Pred(s1, an, k).next == Succ(s1, an, k)
    {
      if Pred(s1, an, k) == p {
        PredInjective(s1, an, k, |an|);
      }
    }
    var q := l2.EndFrom(p);
    l1.CloseWith(q, l2.sentinel, bn, l2.Contents);
    l2.Clear();
  }

  /** get_merged_list: a new list holding the values of both lists, sorted. */
  method GetMergedList(a: CircularList, b: CircularList) returns (r: CircularList)
    requires a.Valid() && b.Valid()
    ensures r.Valid() && fresh(r.Repr)
    ensures r.Contents == SeqModel.MergeSort(a.Contents + b.Contents)
    ensures Sorted(r.Contents) && multiset(r.Contents) == multiset(a.Contents) + multiset(b.Contents)
  {
    r := AddLists(a, b);
    r.Sort();
  }
}
