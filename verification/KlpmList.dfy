/** The doubly linked list of klpm_list.c. The head's prev is the tail, the tail's next is
    null, and all other links are mutual. A list is its head pointer; the ghost sequence of
    its nodes says what it holds. */
module KlpmList {
  import opened Lists

  class Node<T> {
    const data: T
    var prev: Node?<T>
    var next: Node?<T>

    constructor (data: T)
      ensures this.data == data && prev == this && next == null
    {
      this.data := data;
      next := null;
      new;
      prev := this;
    }
  }

  /** Inner links of ns are mutual and its last next is null. */
  ghost predicate Chained<T>(ns: seq<Node<T>>)
    reads ns
  {
    && (forall i {:trigger ns[i].next} :: 0 <= i < |ns| - 1 ==> ns[i].next == ns[i + 1])
    && (forall i {:trigger ns[i].prev} :: 1 <= i < |ns| ==> ns[i].prev == ns[i - 1])
    && (ns != [] ==> ns[|ns| - 1].next == null)
  }

  /** head is a well-formed list with exactly the nodes ns, in order. */
  ghost predicate IsList<T>(head: Node?<T>, ns: seq<Node<T>>)
    reads ns
  {
    && Distinct(ns)
    && Chained(ns)
    && (ns == [] <==> head == null)
    && (ns != [] ==> head == ns[0] && ns[0].prev == ns[|ns| - 1])
  }

  ghost predicate Apart<X>(a: seq<X>, b: seq<X>) {
    forall i, j :: 0 <= i < |a| && 0 <= j < |b| ==> a[i] != b[j]
  }

  /** klpm_list_join */
  method Join<T>(first: Node?<T>, second: Node?<T>, ghost fs: seq<Node<T>>, ghost ss: seq<Node<T>>)
    returns (head: Node?<T>)
    requires IsList(first, fs) && IsList(second, ss) && Apart(fs, ss)
    modifies fs, ss
    ensures IsList(head, fs + ss)
  {
    if first == null {
      assert fs + ss == ss;
      return second;
    }
    if second == null {
      assert fs + ss == fs;
      return first;
    }
    var tmp := first.prev;
    tmp.next := second;
    first.prev := second.prev;
    second.prev := tmp;
    head := first;
  }

  /** klpm_list_remove_item, for a node of the list. */
  method RemoveItem<T>(haystack: Node?<T>, item: Node<T>, ghost ns: seq<Node<T>>, ghost k: nat)
    returns (head: Node?<T>)
    requires IsList(haystack, ns) && k < |ns| && ns[k] == item
    modifies ns
    ensures IsList(head, ns[..k] + ns[k + 1..])
  {
    head := haystack;
    if item == haystack {
      head := item.next;
      if head != null {
        head.prev := item.prev;
      }
      item.prev := null;
    } else if item == haystack.prev {
      if item.prev != null {
        item.prev.next := item.next;
        haystack.prev := item.prev;
        item.prev := null;
      }
    } else {
      if item.next != null {
        item.next.prev := item.prev;
      }
      if item.prev != null {
        item.prev.next := item.next;
      }
    }
  }

  function NodeLe<T>(cmp: (T, T) -> int): (Node<T>, Node<T>) -> bool {
    (m: Node<T>, n: Node<T>) => cmp(m.data, n.data) <= 0
  }

  /** A merge under way: done is linked up to lp, and xs and ys are what is left of the lists. */
  ghost predicate Merging<T>(lp: Node<T>, done: seq<Node<T>>, xs: seq<Node<T>>, ys: seq<Node<T>>)
    reads done, xs, ys
  {
    && done != [] && lp == done[|done| - 1]
    && Chained(done) && Chained(xs) && Chained(ys)
    && Distinct(done) && Distinct(xs) && Distinct(ys)
    && Apart(done, xs) && Apart(done, ys) && Apart(xs, ys)
  }

  ghost function Head<T>(xs: seq<Node<T>>): Node?<T> { if xs == [] then null else xs[0] }

  /** Moves the first node of xs behind lp. */
  method Take<T>(lp: Node<T>, node: Node<T>, ghost done: seq<Node<T>>, ghost xs: seq<Node<T>>,
                 ghost ys: seq<Node<T>>) returns (rest: Node?<T>)
    requires xs != [] && node == xs[0] && Merging(lp, done, xs, ys)
    modifies lp`next, node
    ensures Merging(node, done + [node], xs[1..], ys) && rest == Head(xs[1..])
  {
    lp.next := node;
    node.prev := lp;
    rest := node.next;
    node.next := null;
  }

  /** Hangs all of xs behind lp and closes the list. */
  method Attach<T>(head: Node<T>, lp: Node<T>, node: Node<T>, tail: Node<T>,
                   ghost done: seq<Node<T>>, ghost xs: seq<Node<T>>)
    requires xs != [] && node == xs[0] && tail == xs[|xs| - 1] && Merging(lp, done, xs, []) && head == done[0]
    modifies lp`next, node`prev, head`prev
    ensures IsList(head, done + xs)
  {
    lp.next := node;
    node.prev := lp;
    head.prev := tail;
  }

  /** klpm_list_mmerge: the nodes of both lists, relinked in merged order. */
  method MMerge<T>(left: Node?<T>, right: Node?<T>, cmp: (T, T) -> int,
                   ghost ls: seq<Node<T>>, ghost rs: seq<Node<T>>) returns (newlist: Node?<T>)
    requires IsList(left, ls) && IsList(right, rs) && Apart(ls, rs)
    modifies ls, rs
    ensures IsList(newlist, Merge(ls, rs, NodeLe(cmp)))
  {
    if left == null {
      return right;
    }
    if right == null {
      return left;
    }
    var leftTail, rightTail := left.prev, right.prev;
    ghost var le := NodeLe(cmp);
    if cmp(left.data, right.data) <= 0 {
      var rest := First(left, ls, rs);
      assert Merge(ls, rs, le) == [left] + Merge(ls[1..], rs, le);
      MergeLoop(left, rest, right, leftTail, rightTail, cmp, ls[1..], rs, set n | n in ls || n in rs);
      newlist := left;
    } else {
      assert Apart(rs, ls);
      var rest := First(right, rs, ls);
      SwapMerging(right, [right], rs[1..], ls);
      MergeLoop(right, left, rest, leftTail, rightTail, cmp, ls, rs[1..], set n | n in ls || n in rs);
      newlist := right;
    }
  }

  /** Cuts the first node off the list xs. */
  method First<T>(node: Node<T>, ghost xs: seq<Node<T>>, ghost ys: seq<Node<T>>) returns (rest: Node?<T>)
    requires IsList(node, xs) && Chained(ys) && Distinct(ys) && Apart(xs, ys)
    modifies node
    ensures Merging(node, [node], xs[1..], ys) && rest == Head(xs[1..])
  {
    rest := node.next;
    node.prev := null;
    node.next := null;
  }

  ghost predicate Within<T>(xs: seq<Node<T>>, all: set<Node<T>>) { forall i :: 0 <= i < |xs| ==> xs[i] in all }

  /** The loop of klpm_list_mmerge, after its first node is chosen. */
  method MergeLoop<T>(newlist: Node<T>, left0: Node?<T>, right0: Node?<T>, leftTail: Node<T>, rightTail: Node<T>,
                      cmp: (T, T) -> int, ghost ls: seq<Node<T>>, ghost rs: seq<Node<T>>, ghost all: set<Node<T>>)
    requires Merging(newlist, [newlist], ls, rs) && left0 == Head(ls) && right0 == Head(rs)
    requires (ls != [] ==> leftTail == ls[|ls| - 1]) && (rs != [] ==> rightTail == rs[|rs| - 1])
    requires newlist in all && Within(ls, all) && Within(rs, all)
    modifies all
    ensures IsList(newlist, [newlist] + Merge(ls, rs, NodeLe(cmp)))
  {
    hide Merging, Merge, IsList, Chained, Distinct, Apart;
    var left, right := left0, right0;
    var lp: Node<T> := newlist;
    ghost var done: seq<Node<T>> := [newlist];
    ghost var l, r := ls, rs;
    ghost var goal := [newlist] + Merge(ls, rs, NodeLe(cmp));
    while left != null && right != null
      invariant done != [] && done[0] == newlist
      invariant Merging(lp, done, l, r) && left == Head(l) && right == Head(r)
      invariant (l != [] ==> leftTail == l[|l| - 1]) && (r != [] ==> rightTail == r[|r| - 1])
      invariant lp in all && Within(l, all) && Within(r, all)
      invariant goal == done + Merge(l, r, NodeLe(cmp))
      decreases |l| + |r|
    {
      MergeHead(done, l, r, NodeLe(cmp));
      if cmp(left.data, right.data) <= 0 {
        var node := left;
        left := Take(lp, node, done, l, r);
        lp, done, l := node, done + [node], l[1..];
      } else {
        var node := right;
        SwapMerging(lp, done, l, r);
        right := Take(lp, node, done, r, l);
        SwapMerging(node, done + [node], r[1..], l);
        lp, done, r := node, done + [node], r[1..];
      }
    }
    MergeEnds(l, r, NodeLe(cmp));
    if left != null {
      Attach(newlist, lp, left, leftTail, done, l);
    } else if right != null {
      SwapMerging(lp, done, l, r);
      Attach(newlist, lp, right, rightTail, done, r);
    } else {
      Close(newlist, lp, done);
    }
  }

  /** Closes a list with nothing left to attach. */
  method Close<T>(head: Node<T>, lp: Node<T>, ghost done: seq<Node<T>>)
    requires Merging(lp, done, [], []) && head == done[0]
    modifies head`prev
    ensures IsList(head, done + [])
  {
    assert done + [] == done;
    head.prev := lp;
  }

  lemma MergeEnds<X>(a: seq<X>, b: seq<X>, le: (X, X) -> bool)
    ensures a == [] ==> Merge(a, b, le) == b
    ensures b == [] ==> Merge(a, b, le) == a
  {
  }

  lemma MergeHead<X>(done: seq<X>, a: seq<X>, b: seq<X>, le: (X, X) -> bool)
    requires a != [] && b != []
    ensures done + Merge(a, b, le) ==
            if le(a[0], b[0]) then done + [a[0]] + Merge(a[1..], b, le) else done + [b[0]] + Merge(a, b[1..], le)
  {
  }

  lemma SwapMerging<T>(lp: Node<T>, done: seq<Node<T>>, xs: seq<Node<T>>, ys: seq<Node<T>>)
    requires Merging(lp, done, xs, ys)
    ensures Merging(lp, done, ys, xs)
  {
  }

  /** klpm_list_msort: sorts the list by relinking its nodes. */
  method MSort<T>(list: Node?<T>, n: nat, cmp: (T, T) -> int, ghost ns: seq<Node<T>>) returns (head: Node?<T>)
    requires IsList(list, ns) && n == |ns|
    modifies ns
    ensures IsList(head, MergeSort(ns, NodeLe(cmp)))
    decreases n, 1
  {
    if n <= 1 {
      return list;
    }
    var half := n / 2;
    var lastleft := list;
    var i := half - 1;
    while i > 0
      invariant 0 <= i < half && lastleft == ns[half - 1 - i]
    {
      lastleft := lastleft.next;
      i := i - 1;
    }
    var right := Split(list, lastleft, ns, half);
    head := SortHalves(list, right, half, n - half, cmp, ns[..half], ns[half..]);
  }

  /** Sorts two lists apart from each other and merges them. */
  method SortHalves<T>(left0: Node<T>, right0: Node<T>, m: nat, n: nat, cmp: (T, T) -> int,
                       ghost ls: seq<Node<T>>, ghost rs: seq<Node<T>>) returns (head: Node?<T>)
    requires IsList(left0, ls) && IsList(right0, rs) && Apart(ls, rs) && m == |ls| > 0 && n == |rs| > 0
    modifies ls, rs
    ensures IsList(head, Merge(MergeSort(ls, NodeLe(cmp)), MergeSort(rs, NodeLe(cmp)), NodeLe(cmp)))
    decreases m + n, 0
  {
    ghost var l, r := MergeSort(ls, NodeLe(cmp)), MergeSort(rs, NodeLe(cmp));
    MergeSortPermutes(ls, NodeLe(cmp));
    MergeSortPermutes(rs, NodeLe(cmp));
    Permuted(ls, l);
    Permuted(rs, r);
    var left := MSort(left0, m, cmp, ls);
    var right := MSort(right0, n, cmp, rs);
    head := MMerge(left, right, cmp, l, r);
  }

  lemma Permuted<X>(a: seq<X>, b: seq<X>)
    requires multiset(a) == multiset(b)
    ensures forall i :: 0 <= i < |b| ==> b[i] in a
  {
    forall i | 0 <= i < |b|
      ensures b[i] in a
    {
      assert b[i] in multiset(b);
    }
  }

  /** Cuts the list before its node number half into two well-formed lists. */
  method Split<T>(left: Node<T>, lastleft: Node<T>, ghost ns: seq<Node<T>>, ghost half: nat) returns (right: Node?<T>)
    requires IsList(left, ns) && 0 < half < |ns| && lastleft == ns[half - 1]
    modifies ns
    ensures IsList(left, ns[..half]) && IsList(right, ns[half..])
  {
    right := lastleft.next;
    lastleft.next := null;
    right.prev := left.prev;
    left.prev := lastleft;
  }

  ghost predicate TotalComparison<T(!new)>(cmp: (T, T) -> int) {
    && (forall x, y :: cmp(x, y) <= 0 || cmp(y, x) <= 0)
    && (forall x, y, z :: cmp(x, y) <= 0 && cmp(y, z) <= 0 ==> cmp(x, z) <= 0)
  }

  /** What the sorted node sequence is: the same nodes, ordered by cmp, with ties in the
      order they had. So pointers to the nodes stay good across a sort. */
  lemma SortedNodes<T(!new)>(ns: seq<Node<T>>, cmp: (T, T) -> int)
    requires TotalComparison(cmp)
    ensures var s := MergeSort(ns, NodeLe(cmp));
            && Sorted(s, NodeLe(cmp))
            && multiset(s) == multiset(ns)
            && forall k :: k in ns ==> Class(s, k, NodeLe(cmp)) == Class(ns, k, NodeLe(cmp))
  {
    MergeSortIsStableSort(ns, NodeLe(cmp));
  }
}
