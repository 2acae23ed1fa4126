/** The intrusive, circular, doubly linked list. A ring is described by the sequence of its nodes,
    starting at any of them; the operations take that sequence as a ghost argument. */
module UtilsList {
  import opened Common

  /** A list node together with the structure it is embedded in; `entry` is that structure's content. */
  class Node<E> {
    var pstPrev: Node?<E>
    var pstNext: Node?<E>
    const entry: E

    constructor (entry: E)
      ensures this.entry == entry
    {
      this.entry := entry;
      pstPrev, pstNext := null, null;
    }
  }

  ghost predicate Distinct<T>(s: seq<T>) {
    forall i, j :: 0 <= i < j < |s| ==> s[i] != s[j]
  }

  ghost predicate Linked<E>(a: Node<E>, b: Node<E>)
    reads a, b
  {
    a.pstNext == b && b.pstPrev == a
  }

  /** The nodes of `s` are linked in this order, forwards and backwards. */
  ghost predicate Chain<E>(s: seq<Node<E>>)
    reads s
  {
    forall i, j :: 0 <= i < |s| && j == i + 1 < |s| ==> Linked(s[i], s[j])
  }

  /** The nodes of `s` are a chain, and the last one is linked to the first. */
  ghost predicate Ring<E>(s: seq<Node<E>>)
    reads s
  {
    s != [] && Distinct(s) && Chain(s) && Linked(s[|s| - 1], s[0])
  }

  // ---------------------------------------------------------------- chains and rings

  lemma Join<E>(a: seq<Node<E>>, b: seq<Node<E>>)
    requires Chain(a) && Chain(b) && (a != [] && b != [] ==> Linked(a[|a| - 1], b[0]))
    ensures Chain(a + b)
  {
  }

  lemma Cut<E>(s: seq<Node<E>>, i: nat, j: nat)
    requires Chain(s) && i <= j <= |s|
    ensures Chain(s[i..j])
  {
  }

  lemma DistinctJoin<T>(a: seq<T>, b: seq<T>)
    requires Distinct(a) && Distinct(b) && forall x :: x in a ==> x !in b
    ensures Distinct(a + b)
  {
    forall i, j | 0 <= i < j < |a + b| ensures (a + b)[i] != (a + b)[j] {
      if i < |a| <= j {
        assert a[i] in a && b[j - |a|] in b;
      }
    }
  }

  lemma DistinctRotate<T>(s: seq<T>, k: nat)
    requires Distinct(s) && k <= |s|
    ensures Distinct(s[k..] + s[..k])
  {
  }

  /** The neighbours of the first node. */
  lemma First<E>(s: seq<Node<E>>)
    requires Ring(s)
    ensures s[0].pstNext == if |s| > 1 then s[1] else s[0]
    ensures s[0].pstPrev == s[|s| - 1]
  {
  }

  /** A ring can be described from any of its nodes. */
  lemma Rotate<E>(s: seq<Node<E>>, k: nat)
    requires Ring(s) && k <= |s|
    ensures Ring(s[k..] + s[..k])
  {
    hide Distinct;
    DistinctRotate(s, k);
    if k == 0 || k == |s| {
      assert s[k..] + s[..k] == s;
    } else {
      Cut(s, k, |s|);
      Cut(s, 0, k);
      assert Linked(s[k - 1], s[k]);
      Join(s[k..], s[..k]);
    }
  }

  // ---------------------------------------------------------------- the operations

  method UtilsListInit<E>(list: Node<E>)
    modifies list
    ensures Ring([list])
  {
    list.pstNext := list;
    list.pstPrev := list;
  }

  /** Puts `node` directly behind `list`. */
  method UtilsListAdd<E>(list: Node<E>, node: Node<E>, ghost s: seq<Node<E>>)
    requires Ring(s) && s[0] == list && node !in s
    modifies list, list.pstNext, node
    ensures Ring([list, node] + s[1..])
  {
    First(s);
    Cut(s, 1, |s|);
    node.pstNext := list.pstNext;
    node.pstPrev := list;
    list.pstNext.pstPrev := node;
    list.pstNext := node;
    assert Chain(s[1..]);
    Join([list, node], s[1..]);
  }

  /** Puts `node` directly before `next`. */
  method UtilsListInsert<E>(next: Node<E>, node: Node<E>, ghost s: seq<Node<E>>)
    requires Ring(s) && s[0] == next && node !in s
    modifies next, next.pstPrev, node
    ensures Ring(s + [node])
  {
    First(s);
    var prev := next.pstPrev;
    node.pstPrev := prev;
    node.pstNext := next;
    next.pstPrev := node;
    prev.pstNext := node;
    assert Chain(s);
    Join(s, [node]);
  }

  /** Puts `node` at the end of the list that starts at `list`. */
  method UtilsListTailInsert<E>(list: Node<E>, node: Node<E>, ghost s: seq<Node<E>>)
    requires Ring(s) && s[0] == list && node !in s
    modifies list, list.pstPrev, node
    ensures Ring(s + [node])
  {
    ghost var last := |s| - 1;
    ghost var t := s[last..] + s[..last];
    LastFirst(s);
    hide Ring;
    UtilsListAdd(list.pstPrev, node, t);
    ghost var u := [t[0], node] + t[1..];
    Rotate(u, 2);
    assert u[2..] == s[..last] && u[..2] == [s[last], node];
    assert u[2..] + u[..2] == s + [node];
  }

  /** A ring described from its last node. */
  lemma LastFirst<E>(s: seq<Node<E>>)
    requires Ring(s)
    ensures s != [] && s[0].pstPrev == s[|s| - 1]
    ensures var t := s[|s| - 1..] + s[..|s| - 1];
            Ring(t) && t[0] == s[|s| - 1] && t[0].pstNext == s[0] && forall n :: n in t <==> n in s
  {
    var last := |s| - 1;
    Rotate(s, last);
    First(s);
    First(s[last..] + s[..last]);
    assert s == s[..last] + s[last..];
  }

  /** Takes `node` out of its ring. */
  method UtilsListDelete<E>(node: Node<E>, ghost s: seq<Node<E>>)
    requires Ring(s) && s[0] == node
    modifies node, node.pstNext, node.pstPrev
    ensures |s| > 1 ==> Ring(s[1..])
    ensures node.pstNext == null && node.pstPrev == null
  {
    First(s);
    Cut(s, 1, |s|);
    node.pstNext.pstPrev := node.pstPrev;
    node.pstPrev.pstNext := node.pstNext;
    node.pstNext := null;
    node.pstPrev := null;
    assert Chain(s[1..]);
  }

  /** The same, and leaves `list` as a ring of its own. */
  method UtilsListDelInit<E>(list: Node<E>, ghost s: seq<Node<E>>)
    requires Ring(s) && s[0] == list
    modifies list, list.pstNext, list.pstPrev
    ensures |s| > 1 ==> Ring(s[1..])
    ensures Ring([list])
  {
    First(s);
    Cut(s, 1, |s|);
    list.pstNext.pstPrev := list.pstPrev;
    list.pstPrev.pstNext := list.pstNext;
    UtilsListInit(list);
    assert Chain(s[1..]);
  }

  method UtilsListEmpty<E>(list: Node<E>, ghost s: seq<Node<E>>) returns (empty: bool)
    requires Ring(s) && s[0] == list
    ensures empty <==> s == [list]
  {
    First(s);
    return list.pstNext == list;
  }

  /** Splices the ring of `newList` into that of `oldList`, directly behind `oldList`. */
  method UtilsListAddList<E>(oldList: Node<E>, newList: Node<E>, ghost s: seq<Node<E>>, ghost t: seq<Node<E>>)
    requires Ring(s) && Ring(t) && s[0] == oldList && t[0] == newList
    requires forall n :: n in s ==> n !in t
    modifies oldList, oldList.pstNext, newList, newList.pstPrev
    ensures Ring([oldList] + t + s[1..])
  {
    First(s);
    First(t);
    Cut(s, 1, |s|);
    SpliceDistinct(s, t);
    assert t[0] in t && t[|t| - 1] in t;
    assert forall i :: 0 <= i < |s| ==> s[i] in s && s[i] !in t;
    var oldListHead := oldList.pstNext;
    var oldListTail := oldList;
    var newListHead := newList;
    var newListTail := newList.pstPrev;

    oldListTail.pstNext := newListHead;
    newListHead.pstPrev := oldListTail;
    oldListHead.pstPrev := newListTail;
    newListTail.pstNext := oldListHead;
    assert Chain(s[1..]);
    assert Chain(t);
    SpliceChain(s, t);
  }

  lemma SpliceDistinct<T>(s: seq<T>, t: seq<T>)
    requires s != [] && Distinct(s) && Distinct(t) && forall x :: x in s ==> x !in t
    ensures Distinct([s[0]] + t + s[1..])
  {
    assert s == [s[0]] + s[1..];
    DistinctJoin([s[0]], t);
    DistinctJoin([s[0]] + t, s[1..]);
  }

  lemma SpliceChain<E>(s: seq<Node<E>>, t: seq<Node<E>>)
    requires s != [] && t != [] && Chain(s[1..]) && Chain(t) && Linked(s[0], t[0])
    requires Distinct([s[0]] + t + s[1..])
    requires Linked(t[|t| - 1], if |s| > 1 then s[1] else s[0])
    requires |s| > 1 ==> Linked(s[|s| - 1], s[0])
    ensures Ring([s[0]] + t + s[1..])
  {
    Join([s[0]], t);
    Join([s[0]] + t, s[1..]);
  }

  /** Turning the spliced ring so that it starts where the old one did. */
  lemma TailOrder<T>(s: seq<T>, t: seq<T>)
    requires s != []
    ensures var last := |s| - 1;
            var r := s[last..] + s[..last];
            var u := [r[0]] + t + r[1..];
            |u| == |s| + |t| && u[1 + |t|..] + u[..1 + |t|] == s + t
  {
    var last := |s| - 1;
    var r := s[last..] + s[..last];
    var u := [r[0]] + t + r[1..];
    assert u[1 + |t|..] == s[..last] && u[..1 + |t|] == [s[last]] + t;
    assert s == s[..last] + [s[last]];
  }

  /** Splices the ring of `newList` in at the end of the list that starts at `oldList`. */
  method UtilsListTailInsertList<E>(oldList: Node<E>, newList: Node<E>,
                                    ghost s: seq<Node<E>>, ghost t: seq<Node<E>>)
    requires Ring(s) && Ring(t) && s[0] == oldList && t[0] == newList
    requires forall n :: n in s ==> n !in t
    modifies oldList, oldList.pstPrev, newList, newList.pstPrev
    ensures Ring(s + t)
  {
    ghost var last := |s| - 1;
    ghost var r := s[last..] + s[..last];
    LastFirst(s);
    hide Ring;
    UtilsListAddList(oldList.pstPrev, newList, r, t);
    ghost var u := [r[0]] + t + r[1..];
    Rotate(u, 1 + |t|);
    TailOrder(s, t);
  }

  lemma AddThenDelete<T>(s: seq<T>, node: T)
    requires s != []
    ensures Without([s[0], node] + s[1..], 1) == s
  {
  }

  /** A ring determines the links of its nodes. */
  lemma SameLinks<E>(s: seq<Node<E>>, k: nat)
    requires Ring(s) && k < |s|
    ensures s[k].pstNext == s[if k + 1 < |s| then k + 1 else 0]
    ensures s[k].pstPrev == s[if k > 0 then k - 1 else |s| - 1]
  {
    hide Distinct;
    NextAt(s, k);
    assert k > 0 ==> Linked(s[k - 1], s[k]);
  }

  /** Adding a node and deleting it again: the ring is the original one, link by link. */
  method AddAndDelete<E>(list: Node<E>, node: Node<E>, ghost s: seq<Node<E>>)
    requires Ring(s) && s[0] == list && node !in s
    modifies list, list.pstNext, node
    ensures Ring(s)
    ensures node.pstNext == null && node.pstPrev == null
    ensures forall n :: n in s ==> n.pstNext == old(n.pstNext) && n.pstPrev == old(n.pstPrev)
  {
    ghost var u := [list, node] + s[1..];
    First(s);
    AddThenDelete(s, node);
    forall k | 0 <= k < |s|
      ensures s[k].pstNext == s[if k + 1 < |s| then k + 1 else 0]
      ensures s[k].pstPrev == s[if k > 0 then k - 1 else |s| - 1]
    {
      SameLinks(s, k);
    }
    hide Ring, Distinct, Without;
    UtilsListAdd(list, node, s);
    Middle(u);
    DeleteAt(node, u, 1);
    forall k | 0 <= k < |s|
      ensures s[k].pstNext == old(s[k].pstNext) && s[k].pstPrev == old(s[k].pstPrev)
    {
      SameLinks(s, k);
    }
  }

  /** The neighbours of the second node. */
  lemma Middle<E>(u: seq<Node<E>>)
    requires Ring(u) && |u| > 1
    ensures u[1].pstPrev == u[0] && u[1].pstNext == if |u| > 2 then u[2] else u[0]
  {
    SameLinks(u, 1);
  }

  // ---------------------------------------------------------------- delete-safe iteration

  function Keep<T(==)>(s: seq<T>, drop: set<T>): seq<T> {
    if s == [] then []
    else if s[0] in drop then Keep(s[1..], drop)
    else [s[0]] + Keep(s[1..], drop)
  }

  lemma {:induction false} KeepStep<T>(s: seq<T>, drop: set<T>, j: nat)
    requires j < |s|
    ensures Keep(s[..j + 1], drop) == Keep(s[..j], drop) + if s[j] in drop then [] else [s[j]]
  {
    if j == 0 {
      assert s[..1][1..] == [];
    } else {
      assert s[..j + 1][1..] == s[1..][..j] && s[..j][1..] == s[1..][..j - 1];
      KeepStep(s[1..], drop, j - 1);
    }
  }

  /** Takes the `k`-th node out of the list that starts at `s[0]`. */
  method DeleteAt<E>(node: Node<E>, ghost s: seq<Node<E>>, ghost k: nat)
    requires Ring(s) && 0 < k < |s| && s[k] == node
    modifies node, node.pstNext, node.pstPrev
    ensures Ring(Without(s, k))
    ensures node.pstNext == null && node.pstPrev == null
  {
    ghost var t := s[k..] + s[..k];
    Rotate(s, k);
    UtilsListDelete(node, t);
    hide Ring;
    Rotate(t[1..], |s| - k - 1);
    assert t[1..][|s| - k - 1..] == s[..k] && t[1..][..|s| - k - 1] == s[k + 1..];
  }

  /** The node behind the `k`-th one. */
  lemma NextAt<E>(s: seq<Node<E>>, k: nat)
    requires Ring(s) && k < |s|
    ensures s[k].pstNext == if k + 1 < |s| then s[k + 1] else s[0]
    ensures s[k].pstNext in s && s[k].pstPrev != null && s[k].pstPrev in s
  {
    hide Distinct;
    assert if k + 1 < |s| then Linked(s[k], s[k + 1]) else Linked(s[k], s[0]);
    assert if k > 0 then Linked(s[k - 1], s[k]) else Linked(s[|s| - 1], s[0]);
  }

  lemma {:induction false} KeepIn<T>(s: seq<T>, drop: set<T>)
    ensures forall n :: n in Keep(s, drop) ==> n in s && n !in drop
    ensures forall n :: n in s && n !in drop ==> n in Keep(s, drop)
  {
    if s == [] {
    } else {
      KeepIn(s[1..], drop);
    }
  }

  /** The places, one further on. */
  function Shifted(places: seq<nat>): (r: seq<nat>)
    ensures |r| == |places| && forall i :: 0 <= i < |r| ==> r[i] == places[i] + 1
  {
    seq(|places|, i requires 0 <= i < |places| => places[i] + 1)
  }

  lemma ShiftedHas(places: seq<nat>, k: nat)
    ensures k + 1 in Shifted(places) <==> k in places
    ensures 0 !in Shifted(places)
  {
    if k in places {
      var i :| 0 <= i < |places| && places[i] == k;
      assert Shifted(places)[i] == k + 1;
    }
  }

  predicate Increasing(places: seq<nat>) {
    forall i, j :: 0 <= i < j < |places| ==> places[i] < places[j]
  }

  /** `kept` are the elements of `s` at these places. */
  ghost predicate ElementsAt<T>(s: seq<T>, kept: seq<T>, places: seq<nat>) {
    && |places| == |kept|
    && forall i :: 0 <= i < |places| ==> places[i] < |s| && kept[i] == s[places[i]]
  }

  /** The places are all those whose element is not dropped. */
  ghost predicate AllKept<T>(s: seq<T>, drop: set<T>, places: seq<nat>) {
    forall k :: 0 <= k < |s| ==> (k in places <==> s[k] !in drop)
  }

  lemma ShiftedIncreasing(places: seq<nat>)
    requires Increasing(places)
    ensures Increasing(Shifted(places)) && Increasing([0] + Shifted(places))
  {
  }

  lemma ElementsShifted<T>(s: seq<T>, kept: seq<T>, places: seq<nat>)
    requires s != [] && ElementsAt(s[1..], kept, places)
    ensures ElementsAt(s, kept, Shifted(places)) && ElementsAt(s, [s[0]] + kept, [0] + Shifted(places))
  {
  }

  lemma AllKeptShifted<T>(s: seq<T>, drop: set<T>, places: seq<nat>, k: nat)
    requires s != [] && AllKept(s[1..], drop, places) && k < |s|
    ensures var all := if s[0] in drop then Shifted(places) else [0] + Shifted(places);
            k in all <==> s[k] !in drop
  {
    hide Shifted;
    if k == 0 {
      ShiftedHas(places, 0);
      assert ([0] + Shifted(places))[0] == 0;
    } else {
      ShiftedHas(places, k - 1);
      assert s[k] == s[1..][k - 1];
    }
  }

  /** What is kept stands at certain places of the sequence, in order: at all those whose element is not
      dropped. */
  lemma {:induction false} KeepPlaces<T>(s: seq<T>, drop: set<T>) returns (places: seq<nat>)
    ensures Increasing(places) && ElementsAt(s, Keep(s, drop), places) && AllKept(s, drop, places)
  {
    if s == [] {
      places := [];
    } else {
      var rest := KeepPlaces(s[1..], drop);
      ShiftedIncreasing(rest);
      ElementsShifted(s, Keep(s[1..], drop), rest);
      places := if s[0] in drop then Shifted(rest) else [0] + Shifted(rest);
      forall k | 0 <= k < |s| ensures k in places <==> s[k] !in drop {
        AllKeptShifted(s, drop, rest, k);
      }
      hide Increasing, ElementsAt, Shifted;
    }
  }

  /** The list while it is being walked: the head, what was kept, and what is still to be visited. */
  ghost function Walked<E>(s: seq<Node<E>>, drop: set<Node<E>>, j: nat): seq<Node<E>>
    requires 1 <= j <= |s|
  {
    [s[0]] + Keep(s[1..j], drop) + s[j..]
  }

  lemma WalkedStep<E>(s: seq<Node<E>>, drop: set<Node<E>>, j: nat)
    requires 1 <= j < |s| && Distinct(s)
    ensures var ring, k := Walked(s, drop, j), 1 + |Keep(s[1..j], drop)|;
            && k < |ring| && ring[k] == s[j] && (k + 1 < |ring| <==> j + 1 < |s|)
            && (j + 1 < |s| ==> ring[k + 1] == s[j + 1])
            && Walked(s, drop, j + 1) == (if s[j] in drop then Without(ring, k) else ring)
  {
    hide Keep, Distinct;
    KeepStep(s[1..], drop, j - 1);
    assert s[1..][..j - 1] == s[1..j] && s[1..][..j] == s[1..j + 1];
    TakeMiddle([s[0]] + Keep(s[1..j], drop), s[j], s[j + 1..]);
    assert s[j..] == [s[j]] + s[j + 1..];
    var kept := Keep(s[1..j], drop);
    assert ([s[0]] + kept) + [s[j]] == [s[0]] + (kept + [s[j]]);
  }

  /** The nodes that the loop has deleted are no longer in the list. */
  lemma WalkedDropped<E>(s: seq<Node<E>>, drop: set<Node<E>>, j: nat)
    requires 1 <= j < |s| && Distinct(s)
    ensures forall n :: n in s[1..j] && n in drop ==> n !in Walked(s, drop, j)
  {
    KeepIn(s[1..j], drop);
  }

  /** The middle of a sequence, as it stands and taken out. */
  lemma TakeMiddle<T>(a: seq<T>, x: T, b: seq<T>)
    ensures (a + ([x] + b))[|a|] == x && Without(a + ([x] + b), |a|) == a + b
    ensures (a + [x]) + b == a + ([x] + b)
  {
  }

  ghost predicate Unlinked<E>(s: seq<Node<E>>, drop: set<Node<E>>)
    reads s
  {
    forall n :: n in s && n in drop ==> n.pstNext == null && n.pstPrev == null
  }

  /** The body of the loop below: deletes the visited node or leaves it. */
  method VisitSafe<E>(item: Node<E>, drop: set<Node<E>>, ghost s: seq<Node<E>>, ghost j: nat)
    requires Distinct(s) && 1 <= j < |s| && item == s[j]
    requires Ring(Walked(s, drop, j)) && Unlinked(s[1..j], drop)
    modifies s
    ensures Ring(Walked(s, drop, j + 1)) && Unlinked(s[1..j + 1], drop)
    ensures s[1..j + 1] == s[1..j] + [item]
  {
    hide Ring, Distinct, Walked, Keep;
    WalkedStep(s, drop, j);
    WalkedDropped(s, drop, j);
    WalkedIn(s, drop, j);
    ghost var ring, k := Walked(s, drop, j), 1 + |Keep(s[1..j], drop)|;
    NextAt(ring, k);
    if item in drop {
      DeleteAt(item, ring, k);
    }
    assert s[1..j + 1] == s[1..j] + [item];
  }

  lemma WalkedIn<E>(s: seq<Node<E>>, drop: set<Node<E>>, j: nat)
    requires 1 <= j <= |s|
    ensures forall n :: n in Walked(s, drop, j) ==> n in s
  {
    KeepIn(s[1..j], drop);
  }

  /** Where the loop starts. */
  lemma WalkedStart<E>(s: seq<Node<E>>, drop: set<Node<E>>)
    requires Ring(s)
    ensures Distinct(s) && s[0].pstNext == (if |s| > 1 then s[1] else s[0])
    ensures Walked(s, drop, 1) == s && s[1..1] == [] && Unlinked(s[1..1], drop)
  {
    First(s);
    assert s[1..1] == [] && [s[0]] + s[1..] == s;
  }

  /** Where it ends. */
  lemma WalkedEnd<E>(s: seq<Node<E>>, drop: set<Node<E>>)
    requires s != []
    ensures Walked(s, drop, |s|) == [s[0]] + Keep(s[1..], drop) && s[1..|s|] == s[1..]
  {
    assert s[1..|s|] == s[1..];
  }

  /** What the loop finds behind the node it visits. */
  lemma WalkedNext<E>(s: seq<Node<E>>, drop: set<Node<E>>, j: nat)
    requires Distinct(s) && 1 <= j < |s| && Ring(Walked(s, drop, j))
    ensures s[j].pstNext == if j + 1 < |s| then s[j + 1] else s[0]
  {
    WalkedStep(s, drop, j);
    NextAt(Walked(s, drop, j), 1 + |Keep(s[1..j], drop)|);
  }

  /** A loop in the form of UTILS_DL_LIST_FOR_EACH_SAFE, whose body deletes the nodes in `drop`. It
      visits every node that was in the list once, in order, and leaves a ring of the others. */
  method ForEachSafe<E>(list: Node<E>, drop: set<Node<E>>, ghost s: seq<Node<E>>) returns (visited: seq<Node<E>>)
    requires Ring(s) && s[0] == list
    modifies s
    ensures visited == s[1..]
    ensures Ring([list] + Keep(s[1..], drop))
    ensures Unlinked(s[1..], drop)
  {
    WalkedStart(s, drop);
    hide Ring, Distinct, Keep, Walked, Unlinked;
    var item: Node<E> := list.pstNext;
    var next := item.pstNext;
    visited := [];
    ghost var j := 1;
    while item != list
      invariant 1 <= j <= |s| && visited == s[1..j]
      invariant Ring(Walked(s, drop, j)) && Unlinked(s[1..j], drop)
      invariant item == (if j < |s| then s[j] else list) && next == item.pstNext
      decreases |s| - j
    {
      WalkedNext(s, drop, j);
      VisitSafe(item, drop, s, j);
      visited := visited + [item];
      j := j + 1;
      item := next;
      next := item.pstNext;
    }
    WalkedEnd(s, drop);
  }
}
