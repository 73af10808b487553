/**
 The doubly linked list of src/libmhe/linklist.c with its bubble sort, which moves the
 data and leaves the nodes where they are.
 */
module LinkList {

  // ----- order

  /** A comparator as list_sort expects it. */
  ghost predicate IsOrder<T(!new)>(cmp: (T, T) -> int) {
    && (forall a, b :: cmp(a, b) > 0 <==> cmp(b, a) < 0)
    && (forall a, b, c :: cmp(a, b) <= 0 && cmp(b, c) <= 0 ==> cmp(a, c) <= 0)
  }

  /** Two neighbours that the sort exchanges. */
  predicate Wrong<T>(cmp: (T, T) -> int, reverse: bool, a: T, b: T) {
    if reverse then cmp(a, b) < 0 else cmp(a, b) > 0
  }

  predicate Sorted<T>(cmp: (T, T) -> int, reverse: bool, s: seq<T>) {
    forall i, j :: 0 <= i < j < |s| ==> !Wrong(cmp, reverse, s[i], s[j])
  }

  /** The elements that compare equal to x, in the order of s. */
  function Equals<T>(cmp: (T, T) -> int, s: seq<T>, x: T): seq<T> {
    if s == [] then []
    else (if cmp(x, s[0]) == 0 then [s[0]] else []) + Equals(cmp, s[1..], x)
  }

  /** t has the elements of s, and those that compare equal are in the order of s. */
  ghost predicate SameElements<T(!new)>(cmp: (T, T) -> int, s: seq<T>, t: seq<T>) {
    multiset(t) == multiset(s) && forall x :: Equals(cmp, t, x) == Equals(cmp, s, x)
  }

  /** t is s sorted: in order, and elements that compare equal keep their order. */
  ghost predicate StablySorted<T(!new)>(cmp: (T, T) -> int, reverse: bool, s: seq<T>, t: seq<T>) {
    Sorted(cmp, reverse, t) && SameElements(cmp, s, t)
  }

  lemma WrongIsStrict<T(!new)>(cmp: (T, T) -> int, reverse: bool, a: T, b: T, x: T)
    requires IsOrder(cmp) && Wrong(cmp, reverse, a, b)
    ensures !Wrong(cmp, reverse, b, a) && !(cmp(x, a) == 0 && cmp(x, b) == 0)
  {
    assert cmp(a, x) > 0 <==> cmp(x, a) < 0;
    assert cmp(x, a) > 0 <==> cmp(a, x) < 0;
    assert cmp(b, x) > 0 <==> cmp(x, b) < 0;
    assert cmp(x, b) > 0 <==> cmp(b, x) < 0;
    assert cmp(a, x) <= 0 && cmp(x, b) <= 0 ==> cmp(a, b) <= 0;
    assert cmp(b, x) <= 0 && cmp(x, a) <= 0 ==> cmp(b, a) <= 0;
  }

  /** In order is transitive. */
  lemma InOrderTransitive<T(!new)>(cmp: (T, T) -> int, reverse: bool, a: T, b: T, c: T)
    requires IsOrder(cmp) && !Wrong(cmp, reverse, a, b) && !Wrong(cmp, reverse, b, c)
    ensures !Wrong(cmp, reverse, a, c)
  {
    assert cmp(a, b) > 0 <==> cmp(b, a) < 0;
    assert cmp(b, a) > 0 <==> cmp(a, b) < 0;
    assert cmp(b, c) > 0 <==> cmp(c, b) < 0;
    assert cmp(c, b) > 0 <==> cmp(b, c) < 0;
    assert cmp(c, a) > 0 <==> cmp(a, c) < 0;
  }

  lemma {:induction false} NeighboursSuffice<T(!new)>(cmp: (T, T) -> int, reverse: bool, s: seq<T>)
    requires IsOrder(cmp) && forall k :: 0 < k < |s| ==> !Wrong(cmp, reverse, s[k - 1], s[k])
    ensures Sorted(cmp, reverse, s)
  {
    forall i, j | 0 <= i < j < |s|
      ensures !Wrong(cmp, reverse, s[i], s[j])
    {
      NeighboursReach(cmp, reverse, s, i, j);
    }
  }

  lemma {:induction false} NeighboursReach<T(!new)>(cmp: (T, T) -> int, reverse: bool, s: seq<T>, i: nat, j: nat)
    requires IsOrder(cmp) && forall k :: 0 < k < |s| ==> !Wrong(cmp, reverse, s[k - 1], s[k])
    requires i < j < |s|
    ensures !Wrong(cmp, reverse, s[i], s[j])
    decreases j - i
  {
    assert !Wrong(cmp, reverse, s[j - 1], s[j]);
    if i + 1 < j {
      NeighboursReach(cmp, reverse, s, i, j - 1);
      InOrderTransitive(cmp, reverse, s[i], s[j - 1], s[j]);
    }
  }

  // ----- one exchange

  function SwapAt<T>(s: seq<T>, k: nat): (t: seq<T>)
    requires k + 1 < |s|
    ensures |t| == |s|
  {
    s[k := s[k + 1]][k + 1 := s[k]]
  }

  lemma {:induction false} SwapKeepsEquals<T(!new)>(cmp: (T, T) -> int, reverse: bool, s: seq<T>, k: nat, x: T)
    requires IsOrder(cmp) && k + 1 < |s| && Wrong(cmp, reverse, s[k], s[k + 1])
    ensures Equals(cmp, SwapAt(s, k), x) == Equals(cmp, s, x)
    decreases k
  {
    var t := SwapAt(s, k);
    if k == 0 {
      WrongIsStrict(cmp, reverse, s[0], s[1], x);
      assert t[1..][1..] == s[1..][1..];
      assert t[1..][0] == s[0] && s[1..][0] == s[1];
    } else {
      assert t[1..] == SwapAt(s[1..], k - 1);
      SwapKeepsEquals(cmp, reverse, s[1..], k - 1, x);
    }
  }

  lemma SwapKeepsElements<T(!new)>(cmp: (T, T) -> int, reverse: bool, s: seq<T>, k: nat)
    requires IsOrder(cmp) && k + 1 < |s| && Wrong(cmp, reverse, s[k], s[k + 1])
    ensures SameElements(cmp, s, SwapAt(s, k))
  {
    forall x
      ensures Equals(cmp, SwapAt(s, k), x) == Equals(cmp, s, x)
    {
      SwapKeepsEquals(cmp, reverse, s, k, x);
    }
  }

  /** No neighbours up to element k are wrong. */
  predicate RightUpTo<T>(cmp: (T, T) -> int, reverse: bool, s: seq<T>, k: nat) {
    forall j :: 0 < j <= k && j < |s| ==> !Wrong(cmp, reverse, s[j - 1], s[j])
  }

  lemma RightAtFirst<T>(cmp: (T, T) -> int, reverse: bool, s: seq<T>)
    ensures RightUpTo(cmp, reverse, s, 0)
  {
  }

  lemma RightMore<T>(cmp: (T, T) -> int, reverse: bool, s: seq<T>, k: nat)
    requires k + 1 < |s|
    ensures RightUpTo(cmp, reverse, s, k) && !Wrong(cmp, reverse, s[k], s[k + 1]) ==> RightUpTo(cmp, reverse, s, k + 1)
  {
  }

  lemma RightToEnd<T(!new)>(cmp: (T, T) -> int, reverse: bool, s: seq<T>, k: nat)
    requires IsOrder(cmp) && RightUpTo(cmp, reverse, s, k) && |s| <= k + 1
    ensures Sorted(cmp, reverse, s)
  {
    NeighboursSuffice(cmp, reverse, s);
  }

  lemma SameAgain<T(!new)>(cmp: (T, T) -> int, s: seq<T>)
    ensures SameElements(cmp, s, s)
  {
  }

  lemma SameTwice<T(!new)>(cmp: (T, T) -> int, s: seq<T>, t: seq<T>, u: seq<T>)
    requires SameElements(cmp, s, t) && SameElements(cmp, t, u)
    ensures SameElements(cmp, s, u)
  {
  }

  /** How many elements of s must move in front of x. */
  function Overtaken<T>(cmp: (T, T) -> int, reverse: bool, x: T, s: seq<T>): nat {
    if s == [] then 0 else (if Wrong(cmp, reverse, x, s[0]) then 1 else 0) + Overtaken(cmp, reverse, x, s[1..])
  }

  /** The number of pairs in the wrong order. */
  function Inversions<T>(cmp: (T, T) -> int, reverse: bool, s: seq<T>): nat {
    if s == [] then 0 else Overtaken(cmp, reverse, s[0], s[1..]) + Inversions(cmp, reverse, s[1..])
  }

  lemma {:induction false} SwapKeepsOvertaken<T>(cmp: (T, T) -> int, reverse: bool, x: T, s: seq<T>, k: nat)
    requires k + 1 < |s|
    ensures Overtaken(cmp, reverse, x, SwapAt(s, k)) == Overtaken(cmp, reverse, x, s)
    decreases k
  {
    var t := SwapAt(s, k);
    if k == 0 {
      assert t[1..][1..] == s[1..][1..];
    } else {
      assert t[1..] == SwapAt(s[1..], k - 1);
      SwapKeepsOvertaken(cmp, reverse, x, s[1..], k - 1);
    }
  }

  /** Exchanging two neighbours in the wrong order removes exactly one inversion. */
  lemma {:induction false} SwapRemovesInversion<T(!new)>(cmp: (T, T) -> int, reverse: bool, s: seq<T>, k: nat)
    requires IsOrder(cmp) && k + 1 < |s| && Wrong(cmp, reverse, s[k], s[k + 1])
    ensures Inversions(cmp, reverse, SwapAt(s, k)) == Inversions(cmp, reverse, s) - 1
    decreases k
  {
    var t := SwapAt(s, k);
    if k == 0 {
      WrongIsStrict(cmp, reverse, s[0], s[1], s[0]);
      assert t[1..][1..] == s[1..][1..];
      assert t[1..][0] == s[0] && s[1..][0] == s[1];
    } else {
      assert t[1..] == SwapAt(s[1..], k - 1);
      SwapRemovesInversion(cmp, reverse, s[1..], k - 1);
      SwapKeepsOvertaken(cmp, reverse, s[0], s[1..], k - 1);
    }
  }

  // ----- a stable sort has one result

  lemma {:induction false} EqualsFirst<T>(cmp: (T, T) -> int, s: seq<T>, x: T)
    ensures Equals(cmp, s, x) != [] <==> exists k :: 0 <= k < |s| && cmp(x, s[k]) == 0
    decreases |s|
  {
    if s != [] {
      EqualsFirst(cmp, s[1..], x);
      assert forall k :: 0 < k < |s| ==> s[k] == s[1..][k - 1];
      assert forall k :: 0 <= k < |s| - 1 ==> s[1..][k] == s[k + 1];
    }
  }

  lemma {:induction false} StableSortIsUnique<T(!new)>(cmp: (T, T) -> int, reverse: bool, s: seq<T>, t: seq<T>)
    requires IsOrder(cmp) && Sorted(cmp, reverse, s) && Sorted(cmp, reverse, t)
    requires forall x :: Equals(cmp, s, x) == Equals(cmp, t, x)
    ensures s == t
    decreases |s| + |t|
  {
    if s == [] && t == [] {
    } else if s == [] {
      HasSelf(cmp, t, 0);
    } else if t == [] {
      HasSelf(cmp, s, 0);
    } else {
      SortedHeadsEqual(cmp, reverse, s, t);
      forall x
        ensures Equals(cmp, s[1..], x) == Equals(cmp, t[1..], x)
      {
        TailEquals(cmp, s, t, x);
      }
      StableSortIsUnique(cmp, reverse, s[1..], t[1..]);
    }
  }

  lemma SortedHeadsEqual<T(!new)>(cmp: (T, T) -> int, reverse: bool, s: seq<T>, t: seq<T>)
    requires IsOrder(cmp) && Sorted(cmp, reverse, s) && Sorted(cmp, reverse, t)
    requires forall x :: Equals(cmp, s, x) == Equals(cmp, t, x)
    requires s != [] && t != []
    ensures s[0] == t[0]
  {
    var a, b := s[0], t[0];
    HasSelf(cmp, s, 0);
    HasSelf(cmp, t, 0);
    EqualsFirst(cmp, t, a);
    EqualsFirst(cmp, s, b);
    var i :| 0 <= i < |t| && cmp(a, t[i]) == 0;
    var j :| 0 <= j < |s| && cmp(b, s[j]) == 0;
    HeadsEqual(cmp, reverse, a, b, s[j], t[i]);
    assert Equals(cmp, s, a)[0] == a && Equals(cmp, t, a)[0] == b;
  }

  lemma TailEquals<T>(cmp: (T, T) -> int, s: seq<T>, t: seq<T>, x: T)
    requires s != [] && t != [] && s[0] == t[0] && Equals(cmp, s, x) == Equals(cmp, t, x)
    ensures Equals(cmp, s[1..], x) == Equals(cmp, t[1..], x)
  {
    var e := if cmp(x, s[0]) == 0 then [s[0]] else [];
    assert Equals(cmp, s, x)[|e|..] == Equals(cmp, s[1..], x);
    assert Equals(cmp, t, x)[|e|..] == Equals(cmp, t[1..], x);
  }

  lemma HasSelf<T(!new)>(cmp: (T, T) -> int, s: seq<T>, k: nat)
    requires IsOrder(cmp) && k < |s|
    ensures cmp(s[k], s[k]) == 0 && Equals(cmp, s, s[k]) != []
  {
    assert cmp(s[k], s[k]) > 0 <==> cmp(s[k], s[k]) < 0;
    EqualsFirst(cmp, s, s[k]);
  }

  /** Two least elements that have equals on the other side are equal. */
  lemma HeadsEqual<T(!new)>(cmp: (T, T) -> int, reverse: bool, a: T, b: T, a': T, b': T)
    requires IsOrder(cmp) && cmp(a, b') == 0 && cmp(b, a') == 0
    requires (a == a' || !Wrong(cmp, reverse, a, a')) && (b == b' || !Wrong(cmp, reverse, b, b'))
    ensures cmp(a, b) == 0
  {
    forall x, y
      ensures (cmp(x, y) > 0 <==> cmp(y, x) < 0) && (cmp(x, y) == 0 <==> cmp(y, x) == 0)
    {
      assert cmp(y, x) > 0 <==> cmp(x, y) < 0;
    }
    assert cmp(a, a) == 0 && cmp(b, b) == 0;
    assert cmp(b', a) <= 0 && cmp(a', b) <= 0 && cmp(a, b') <= 0 && cmp(b, a') <= 0;
    if reverse {
      assert cmp(a', a) <= 0 && cmp(b', b) <= 0;
      assert cmp(b, a') <= 0 && cmp(a', a) <= 0;
      assert cmp(a, b') <= 0 && cmp(b', b) <= 0;
    } else {
      assert cmp(a, a') <= 0 && cmp(b, b') <= 0;
      assert cmp(a, a') <= 0 && cmp(a', b) <= 0;
      assert cmp(b, b') <= 0 && cmp(b', a) <= 0;
    }
  }

  // ----- the list

  class Item<T> {
    var data: T
    var next: Item?<T>
    var prev: Item?<T>

    constructor (data: T)
      ensures this.data == data && next == null && prev == null
    {
      this.data, next, prev := data, null, null;
    }
  }

  /** Node i of a chain, or NULL at its ends. */
  ghost function At<T>(nodes: seq<Item<T>>, i: int): Item?<T> {
    if 0 <= i < |nodes| then nodes[i] else null
  }

  predicate Distinct<T(==)>(nodes: seq<T>) {
    forall i, j :: 0 <= i < j < |nodes| ==> nodes[i] != nodes[j]
  }

  lemma DistinctFrom<T>(nodes: seq<T>, k: int)
    requires Distinct(nodes)
    ensures forall i {:trigger nodes[i]} :: 0 <= i < |nodes| && 0 <= k < |nodes| && i != k ==> nodes[i] != nodes[k]
  {
  }

  lemma DistinctWithout<T>(nodes: seq<T>, k: nat)
    requires Distinct(nodes) && k < |nodes|
    ensures Distinct(nodes[..k] + nodes[k + 1..])
  {
  }

  lemma DistinctMore<T>(nodes: seq<T>, x: T)
    requires Distinct(nodes) && x !in nodes
    ensures Distinct(nodes + [x])
  {
  }

  /** The links of a chain. */
  ghost predicate Linked<T>(nodes: seq<Item<T>>)
    reads nodes
  {
    && (forall i {:trigger nodes[i].next} :: 0 <= i < |nodes| ==> nodes[i].next == At(nodes, i + 1))
    && (forall i {:trigger nodes[i].prev} :: 0 <= i < |nodes| ==> nodes[i].prev == At(nodes, i - 1))
  }

  /** The links of a chain without its node k, once the neighbours of k point past it. */
  lemma Unlinked<T>(before: seq<Item<T>>, k: nat)
    requires k < |before|
    requires forall m {:trigger before[m].next} ::
               0 <= m < |before| ==> before[m].next == At(before, if m == k - 1 then k + 1 else m + 1)
    requires forall m {:trigger before[m].prev} ::
               0 <= m < |before| ==> before[m].prev == At(before, if m == k + 1 then k - 1 else m - 1)
    ensures Linked(before[..k] + before[k + 1..])
  {
    hide At;
    var nodes := before[..k] + before[k + 1..];
    forall i | 0 <= i < |nodes|
      ensures nodes[i].next == At(nodes, i + 1) && nodes[i].prev == At(nodes, i - 1)
    {
      var m := if i < k then i else i + 1;
      assert nodes[i] == before[m];
      WithoutNode(before, k, i + 1);
      WithoutNode(before, k, i - 1);
    }
  }

  lemma DataWithout<T>(before: seq<Item<T>>, k: nat)
    requires k < |before|
    ensures DataOf(before[..k] + before[k + 1..]) == DataOf(before)[..k] + DataOf(before)[k + 1..]
  {
    var nodes := before[..k] + before[k + 1..];
    assert forall i :: 0 <= i < |nodes| ==> nodes[i] == before[if i < k then i else i + 1];
  }

  lemma LastIs<T>(before: seq<Item<T>>, lip: Item<T>)
    ensures At(before + [lip], |before|) == lip && (before != [] ==> At(before + [lip], 0) == At(before, 0))
  {
  }

  /** The links of a chain with one more node, once the old last node points to it. */
  lemma LinkedMore<T>(before: seq<Item<T>>, data: seq<T>, lip: Item<T>)
    requires |before| == |data|
    requires forall m {:trigger before[m].next} ::
               0 <= m < |before| ==> before[m].next == if m == |before| - 1 then lip else At(before, m + 1)
    requires forall m {:trigger before[m].prev} :: 0 <= m < |before| ==> before[m].prev == At(before, m - 1)
    requires forall m {:trigger before[m].data} :: 0 <= m < |before| ==> before[m].data == data[m]
    requires lip.next == null && lip.prev == At(before, |before| - 1)
    ensures Linked(before + [lip]) && DataOf(before + [lip]) == data + [lip.data]
  {
    var nodes := before + [lip];
    forall i | 0 <= i < |nodes|
      ensures nodes[i].next == At(nodes, i + 1) && nodes[i].prev == At(nodes, i - 1)
      ensures nodes[i].data == (data + [lip.data])[i]
    {
      assert i < |before| ==> nodes[i] == before[i];
    }
  }

  lemma WithoutNode<T>(before: seq<Item<T>>, k: nat, i: int)
    requires k < |before|
    ensures At(before[..k] + before[k + 1..], i) == At(before, if i < k then i else i + 1)
  {
  }

  class List<T(==, !new)> {
    var first: Item?<T>
    var last: Item?<T>
    var numitem: nat
    ghost var nodes: seq<Item<T>>

    /** The chain of nodes, linked both ways. */
    ghost predicate Valid()
      reads this, nodes
    {
      && numitem == |nodes|
      && first == At(nodes, 0)
      && last == At(nodes, |nodes| - 1)
      && Distinct(nodes) && Linked(nodes)
    }

    ghost function Data(): (s: seq<T>)
      reads this, nodes
      ensures |s| == |nodes|
    {
      DataOf(nodes)
    }

    constructor ()
      ensures Valid() && nodes == []
    {
      first, last, numitem, nodes := null, null, 0, [];
    }

    lemma ChainAt(k: nat)
      requires Valid() && k < |nodes|
      ensures nodes[k].next == At(nodes, k + 1)
    {
    }

    method AddItem(data: T)
      requires Valid()
      modifies this, nodes
      ensures Valid() && Data() == old(Data()) + [data]
      ensures nodes != [] && nodes == old(nodes) + [nodes[|nodes| - 1]] && fresh(nodes[|nodes| - 1])
    {
      hide Distinct, Linked, DataOf;
      var lip := new Item(data);
      DistinctMore(nodes, lip);
      ghost var before := Data();
      Append(lip);
      numitem := numitem + 1;
      LinkedMore(nodes, before, lip);
      LastIs(nodes, lip);
      nodes := nodes + [lip];
    }

    /** Make the last node, or the list, point to a new node. */
    method Append(lip: Item<T>)
      requires Valid() && lip !in nodes && lip.next == null && lip.prev == null
      modifies this`first, this`last, nodes, lip
      ensures first == (if nodes == [] then lip else old(first)) && last == lip
      ensures lip.next == null && lip.prev == At(nodes, |nodes| - 1) && lip.data == old(lip.data)
      ensures forall m {:trigger nodes[m].next} ::
                0 <= m < |nodes| ==> nodes[m].next == if m == |nodes| - 1 then lip else At(nodes, m + 1)
      ensures forall m {:trigger nodes[m].prev} :: 0 <= m < |nodes| ==> nodes[m].prev == At(nodes, m - 1)
      ensures forall m {:trigger nodes[m].data} :: 0 <= m < |nodes| ==> nodes[m].data == old(Data())[m]
    {
      hide Distinct;
      DistinctFrom(nodes, |nodes| - 1);
      if first == null {
        last := lip;
        first := lip;
      } else {
        var currentLast := last;
        lip.prev := currentLast;
        currentLast.next := lip;
        last := lip;
      }
    }

    /** Make the neighbours of node k, or the ends of the list, point past it. */
    method Bypass(lip: Item<T>, ghost k: nat)
      requires Valid() && k < |nodes| && nodes[k] == lip
      modifies this`first, this`last, nodes
      ensures first == At(nodes, if k == 0 then 1 else 0)
      ensures last == At(nodes, if k + 1 == |nodes| then k - 1 else |nodes| - 1)
      ensures forall m {:trigger nodes[m].next} ::
                0 <= m < |nodes| ==> nodes[m].next == At(nodes, if m == k - 1 then k + 1 else m + 1)
      ensures forall m {:trigger nodes[m].prev} ::
                0 <= m < |nodes| ==> nodes[m].prev == At(nodes, if m == k + 1 then k - 1 else m - 1)
      ensures forall m {:trigger nodes[m].data} :: 0 <= m < |nodes| ==> nodes[m].data == old(nodes[m].data)
    {
      hide Distinct;
      DistinctFrom(nodes, k - 1);
      DistinctFrom(nodes, k + 1);
      assert lip.prev == At(nodes, k - 1) && lip.next == At(nodes, k + 1);
      if lip.prev != null {
        lip.prev.next := lip.next;
      } else {
        first := lip.next;
      }
      if lip.next != null {
        lip.next.prev := lip.prev;
      } else {
        last := lip.prev;
      }
    }

    /** Unlink node k; the other nodes keep their order and their data. */
    method RemoveItem(lip: Item<T>, ghost k: nat)
      requires Valid() && k < |nodes| && nodes[k] == lip
      modifies this, nodes
      ensures Valid() && nodes == old(nodes)[..k] + old(nodes)[k + 1..]
      ensures Data() == old(Data())[..k] + old(Data())[k + 1..]
    {
      hide Distinct, Linked;
      ghost var before, data := nodes, Data();
      Bypass(lip, k);
      numitem := numitem - 1;
      nodes := nodes[..k] + nodes[k + 1..];
      assert DataOf(before) == data;
      DistinctWithout(before, k);
      Unlinked(before, k);
      DataWithout(before, k);
      WithoutNode(before, k, 0);
      WithoutNode(before, k, |nodes| - 1);
    }

    method Clear()
      requires Valid()
      modifies this, nodes
      ensures Valid() && nodes == []
    {
      while first != null
        invariant Valid() && forall i :: 0 <= i < |nodes| ==> nodes[i] in old(nodes)
        decreases |nodes|
      {
        assert first == nodes[0];
        RemoveItem(first, 0);
      }
    }

    /** The first item that the predicate accepts. */
    method Search(accepts: T -> bool) returns (r: Item?<T>)
      requires Valid()
      ensures r == null ==> forall i :: 0 <= i < |nodes| ==> !accepts(nodes[i].data)
      ensures r != null ==> exists k :: 0 <= k < |nodes| && nodes[k] == r && FirstAccepted(accepts, k)
    {
      r := first;
      ghost var k := 0;
      while r != null
        invariant k <= |nodes| && r == At(nodes, k)
        invariant forall i :: 0 <= i < k ==> !accepts(nodes[i].data)
        decreases |nodes| - k
      {
        if accepts(r.data) {
          assert FirstAccepted(accepts, k);
          return;
        }
        r, k := r.next, k + 1;
      }
    }

    ghost predicate FirstAccepted(accepts: T -> bool, k: nat)
      requires k < |nodes|
      reads this, nodes
    {
      accepts(nodes[k].data) && forall i :: 0 <= i < k ==> !accepts(nodes[i].data)
    }

    method Swap(a: Item<T>, b: Item<T>)
      modifies a`data, b`data
      ensures a.data == old(b.data) && b.data == old(a.data)
    {
      if a.data == b.data {
        return;
      }
      var tmp := a.data;
      a.data := b.data;
      b.data := tmp;
    }

    /** Exchange the data of node k and of the next node. */
    method SwapNext(li: Item<T>, ghost k: nat)
      requires Valid() && k + 1 < |nodes| && li == nodes[k]
      modifies nodes
      ensures Valid() && nodes == old(nodes) && Data() == SwapAt(old(Data()), k)
    {
      hide Distinct;
      DistinctFrom(nodes, k);
      DistinctFrom(nodes, k + 1);
      assert li.next == nodes[k + 1];
      Swap(li, li.next);
      forall i | 0 <= i < |nodes|
        ensures nodes[i].data == SwapAt(old(Data()), k)[i]
      {
        assert (i != k ==> nodes[i] != nodes[k]) && (i != k + 1 ==> nodes[i] != nodes[k + 1]);
      }
    }

    /** Compare the data of node k with that of the next node, and exchange them if they are wrong. */
    method CompareNext(cmp: (T, T) -> int, reverse: bool, li: Item<T>, ghost k: nat) returns (swapped: bool)
      requires Valid() && IsOrder(cmp) && k + 1 < |nodes| && li == nodes[k]
      modifies nodes
      ensures Valid() && nodes == old(nodes) && SameElements(cmp, old(Data()), Data())
      ensures swapped == Wrong(cmp, reverse, old(Data())[k], old(Data())[k + 1])
      ensures if swapped then Inversions(cmp, reverse, Data()) < Inversions(cmp, reverse, old(Data()))
              else Data() == old(Data())
    {
      hide Distinct, IsOrder, Inversions, Equals, SwapAt;
      swapped := false;
      ghost var before := Data();
      assert li.next == nodes[k + 1];
      var c := cmp(li.data, li.next.data);
      if if reverse then c < 0 else c > 0 {
        SwapNext(li, k);
        swapped := true;
        SwapRemovesInversion(cmp, reverse, before, k);
        SwapKeepsElements(cmp, reverse, before, k);
      }
    }

    /** One pass of the bubble sort; `last` never leaves NULL. */
    method Pass(cmp: (T, T) -> int, reverse: bool) returns (swapped: bool)
      requires Valid() && IsOrder(cmp)
      modifies nodes
      ensures Valid() && nodes == old(nodes)
      ensures SameElements(cmp, old(Data()), Data())
      ensures if swapped then Inversions(cmp, reverse, Data()) < Inversions(cmp, reverse, old(Data()))
              else Data() == old(Data()) && Sorted(cmp, reverse, Data())
    {
      hide Distinct, Linked, IsOrder, Inversions, SameElements, Wrong, DataOf, RightUpTo;
      RightAtFirst(cmp, reverse, Data());
      SameAgain(cmp, Data());
      swapped := false;
      var last: Item?<T> := null;
      var li := first;
      ghost var k := 0;
      if nodes != [] {
        ChainAt(0);
      }
      while li != null && li.next != null
        invariant Valid() && nodes == old(nodes) && last == null
        invariant k <= |nodes| && li == At(nodes, k) && (k < |nodes| || nodes == [])
        invariant li != null ==> li.next == At(nodes, k + 1)
        invariant SameElements(cmp, old(Data()), Data())
        invariant if swapped then Inversions(cmp, reverse, Data()) < Inversions(cmp, reverse, old(Data()))
                  else Data() == old(Data()) && RightUpTo(cmp, reverse, Data(), k)
        decreases |nodes| - k
      {
        ChainAt(k);
        if li.next == last {
          last := li;
          break;
        }
        ghost var before := Data();
        var exchanged := CompareNext(cmp, reverse, li, k);
        swapped := swapped || exchanged;
        SameTwice(cmp, old(Data()), before, Data());
        RightMore(cmp, reverse, before, k);
        ChainAt(k);
        li := li.next;
        k := k + 1;
        ChainAt(k);
      }
      if !swapped {
        RightToEnd(cmp, reverse, Data(), k);
      }
    }

    /** list_sort: the nodes and their links stay, the data is sorted stably. */
    method Sort(cmp: (T, T) -> int, reverse: bool)
      requires Valid() && IsOrder(cmp)
      modifies nodes
      ensures Valid() && nodes == old(nodes)
      ensures StablySorted(cmp, reverse, old(Data()), Data())
    {
      var swapped := true;
      while swapped
        invariant Valid() && nodes == old(nodes)
        invariant SameElements(cmp, old(Data()), Data())
        invariant !swapped ==> Sorted(cmp, reverse, Data())
        decreases Inversions(cmp, reverse, Data()) + if swapped then 1 else 0
      {
        swapped := Pass(cmp, reverse);
      }
    }
  }

  ghost function DataOf<T>(nodes: seq<Item<T>>): (s: seq<T>)
    reads nodes
    ensures |s| == |nodes| && forall i :: 0 <= i < |s| ==> s[i] == nodes[i].data
  {
    seq(|nodes|, i requires 0 <= i < |nodes| reads nodes => nodes[i].data)
  }
}
