/** The invariant of a skip list, stated on the values of its fields, and how
    each kind of update carries it over. */
module ListInvariant {
  import opened Keys
  import opened Levels
  import opened Bags
  import opened Splicing

  /** The live nodes are real nodes of the arena, each holding its value at
      least once. */
  ghost predicate LiveNodes(nodes: seq<Handle>, quantity: seq<nat>, next: seq<seq<Handle>>)
  {
    forall i :: 0 <= i < |nodes| ==> 2 <= nodes[i] < |next| && nodes[i] < |quantity| && quantity[nodes[i]] >= 1
  }

  /** The arena holds the two sentinels, the live nodes are in ascending key
      order with every level correctly linked, and the counter says how many
      values the multiset holds. */
  ghost predicate ListInv(value: seq<Key>, quantity: seq<nat>, next: seq<seq<Handle>>, numElements: int,
                          nodes: seq<Handle>, contents: multiset<int>)
  {
    && |value| == |quantity| == |next| && 2 <= |next|
    && value[HEAD] == NegInf && value[TAIL] == PosInf && next[TAIL] == []
    && LiveNodes(nodes, quantity, next)
    && Keyed(nodes, value)
    && LevelsOk(nodes, next)
    && contents == Bag(nodes, value, quantity)
    && numElements == |contents|
  }

  /** The live nodes with one of them taken out are live in an arena of the
      same size. */
  lemma LiveRemoved(nodes: seq<Handle>, quantity: seq<nat>, next0: seq<seq<Handle>>,
                    next1: seq<seq<Handle>>, p: nat)
    requires LiveNodes(nodes, quantity, next0) && p < |nodes| && |next1| == |next0|
    ensures LiveNodes(nodes[..p] + nodes[p + 1..], quantity, next1)
  {
    var nodes1 := nodes[..p] + nodes[p + 1..];
    forall i | 0 <= i < |nodes1|
      ensures 2 <= nodes1[i] < |next1| && nodes1[i] < |quantity| && quantity[nodes1[i]] >= 1
    {
      if i < p {
        assert nodes1[i] == nodes[i];
      } else {
        assert nodes1[i] == nodes[i + 1];
      }
    }
  }

  /** The live nodes with the next handle of the arena put in at position p,
      holding its value once, are live in the arena extended by that node. */
  lemma LiveInserted(nodes: seq<Handle>, quantity: seq<nat>, next0: seq<seq<Handle>>,
                     next2: seq<seq<Handle>>, p: nat)
    requires LiveNodes(nodes, quantity, next0) && p <= |nodes|
    requires 2 <= |next0| == |quantity| && |next2| == |next0| + 1
    ensures LiveNodes(nodes[..p] + [|next0|] + nodes[p..], quantity + [1], next2)
  {
    var nodes1 := nodes[..p] + [|next0|] + nodes[p..];
    forall i | 0 <= i < |nodes1|
      ensures 2 <= nodes1[i] < |next2| && nodes1[i] < |quantity + [1]| && (quantity + [1])[nodes1[i]] >= 1
    {
      if i < p {
        assert nodes1[i] == nodes[i];
      } else if i > p {
        assert nodes1[i] == nodes[i - 1];
      }
    }
  }

  /** Counting a present value once more keeps the invariant. */
  lemma Recounted(value: seq<Key>, quantity: seq<nat>, next: seq<seq<Handle>>, numElements: int,
                  nodes: seq<Handle>, contents: multiset<int>, p: nat, v: int,
                  quantity1: seq<nat>, numElements1: int, contents1: multiset<int>)
    requires ListInv(value, quantity, next, numElements, nodes, contents)
    requires p < |nodes| && value[nodes[p]] == Val(v)
    requires quantity1 == quantity[nodes[p] := quantity[nodes[p]] + 1]
    requires numElements1 == numElements + 1 && contents1 == contents + multiset{v}
    ensures ListInv(value, quantity1, next, numElements1, nodes, contents1)
  {
    AscendingIsDistinct(nodes, value);
    BagIncrement(nodes, value, quantity, p);
  }

  /** Counting a value held more than once one time less keeps the invariant. */
  lemma Decounted(value: seq<Key>, quantity: seq<nat>, next: seq<seq<Handle>>, numElements: int,
                  nodes: seq<Handle>, contents: multiset<int>, p: nat, v: int,
                  quantity1: seq<nat>, numElements1: int, contents1: multiset<int>)
    requires ListInv(value, quantity, next, numElements, nodes, contents)
    requires p < |nodes| && value[nodes[p]] == Val(v) && quantity[nodes[p]] > 1
    requires quantity1 == quantity[nodes[p] := quantity[nodes[p]] - 1]
    requires numElements1 == numElements - 1 && contents1 == contents - multiset{v}
    ensures ListInv(value, quantity1, next, numElements1, nodes, contents1)
  {
    AscendingIsDistinct(nodes, value);
    BagDecrement(nodes, value, quantity, p);
  }

  /** What the insertion has established once the low sentinel is tall enough
      and before it splices: node n of the given height is in the arena but on
      no level, the levels are linked, and path holds the predecessors of
      rank p on each of n's levels. */
  ghost predicate ReadyToSplice(nodes: seq<Handle>, next: seq<seq<Handle>>, path: seq<Handle>,
                                n: Handle, p: nat, height: nat)
  {
    && n !in nodes && n != HEAD && n != TAIL
    && 0 <= HEAD < |next| && 0 <= n < |next|
    && |next[n]| == height && 1 <= height <= |next[HEAD]|
    && p <= |nodes|
    && (forall i :: 0 <= i < |nodes| ==>
          0 <= nodes[i] < |next| && nodes[i] != HEAD && 1 <= |next[nodes[i]]| <= |next[HEAD]|)
    && (forall k :: 0 <= k < |next[HEAD]| ==> Linked(next, Level(nodes, next, k), k))
    && (forall k :: height <= k < |next[HEAD]| && 1 <= k ==> Filter(nodes, next, k) != [])
    && height <= |path|
    && (forall k :: 0 <= k < height ==> path[k] == Pred(nodes, next, k, p))
    && (forall k :: 0 <= k < height ==> 0 <= path[k] < |next| && path[k] != n && k < |next[path[k]]|)
  }

  /** The new node appended to the arena and the low sentinel grown to its
      height by links to the high sentinel: the splice can start. */
  lemma Grown(nodes: seq<Handle>, value: seq<Key>, next0: seq<seq<Handle>>, nextA: seq<seq<Handle>>,
              next1: seq<seq<Handle>>, path0: seq<Handle>, path1: seq<Handle>, p: nat, height: nat)
    requires Keyed(nodes, value) && LevelsOk(nodes, next0)
    requires forall i :: 0 <= i < |nodes| ==> 2 <= nodes[i] < |next0|
    requires 2 <= |next0| && 1 <= height && p <= |nodes|
    requires nextA == next0 + [NoLinks(height)]
    requires |path0| == |next0[HEAD]| && forall k :: 0 <= k < |path0| ==> path0[k] == Pred(nodes, next0, k, p)
    requires |next1| == |nextA| && forall m :: 0 <= m < |nextA| && m != HEAD ==> next1[m] == nextA[m]
    requires |next1[HEAD]| == (if |path0| < height then height else |path0|)
    requires next1[HEAD][..|path0|] == nextA[HEAD]
    requires forall k :: |path0| <= k < |next1[HEAD]| ==> next1[HEAD][k] == TAIL
    requires |path1| == |next1[HEAD]|
    requires forall k :: 0 <= k < |path0| ==> path1[k] == path0[k]
    requires forall k :: |path0| <= k < |path1| ==> path1[k] == HEAD
    ensures ReadyToSplice(nodes, next1, path1, |next0|, p, height)
  {
    var n := |next0|;
    ExtendArena(nodes, next0, nextA, NoLinks(height), p);
    GrowHead(nodes, nextA, next1, path0, path1, p);
    forall i | 0 <= i < |nodes| ensures nodes[i] != n {
    }
    forall k | 0 <= k < height ensures 0 <= path1[k] < |next1| && path1[k] != n && k < |next1[path1[k]]| {
      PredLinksToSucc(nodes, next1, k, p);
    }
    forall k | height <= k < |next1[HEAD]| && 1 <= k ensures Filter(nodes, next1, k) != [] {
      FilterSameHeights(nodes, next1, nextA, k);
    }
  }

  /** A new node holding v once, spliced in at rank p on all its levels,
      keeps the invariant with v counted once more. */
  lemma Inserted(value: seq<Key>, quantity: seq<nat>, next0: seq<seq<Handle>>, numElements: int,
                 nodes: seq<Handle>, contents: multiset<int>, next1: seq<seq<Handle>>, next2: seq<seq<Handle>>,
                 path: seq<Handle>, p: nat, v: int, height: nat,
                 value2: seq<Key>, quantity2: seq<nat>, numElements2: int, nodes2: seq<Handle>, contents2: multiset<int>)
    requires ListInv(value, quantity, next0, numElements, nodes, contents)
    requires p == Below(nodes, value, v) && (p < |nodes| ==> KeyOf(value, nodes[p]) != Val(v))
    requires ReadyToSplice(nodes, next1, path, |next0|, p, height)
    requires |next1| == |next0| + 1 && next1[TAIL] == next0[TAIL]
    requires SplicedUpTo(next1, next2, path, |next0|, height)
    requires value2 == value + [Val(v)] && quantity2 == quantity + [1] && numElements2 == numElements + 1
    requires nodes2 == nodes[..p] + [|next0|] + nodes[p..] && contents2 == contents + multiset{v}
    ensures ListInv(value2, quantity2, next2, numElements2, nodes2, contents2)
  {
    var n := |next0|;
    InsertLevels(nodes, value, next1, next2, path, n, p);
    InsertKeyed(nodes, value, v, p);
    BagInsert(nodes, value, quantity, p, v);
    LiveInserted(nodes, quantity, next0, next2, p);
    assert |next2[TAIL]| == 0;
  }

  /** The levels once the deletion's loop has unlinked t = nodes[p]: either
      the loop ran through all of t's levels (h is t's height) or it stopped
      at level h, which it found emptied, and cut the low sentinel to
      max(1, h) levels. Either way they are the levels of the nodes without t. */
  lemma UnlinkedLevels(value: seq<Key>, quantity: seq<nat>, next0: seq<seq<Handle>>, numElements: int,
                       nodes: seq<Handle>, contents: multiset<int>, path: seq<Handle>, p: nat,
                       h: nat, nextU: seq<seq<Handle>>, next1: seq<seq<Handle>>)
    requires ListInv(value, quantity, next0, numElements, nodes, contents)
    requires p < |nodes|
    requires |path| == |next0[HEAD]| && forall k :: 0 <= k < |path| ==> path[k] == Pred(nodes, next0, k, p)
    requires h <= |next0[nodes[p]]|
    requires forall k :: 0 <= k < h ==> !(path[k] == HEAD && next0[nodes[p]][k] == TAIL)
    requires h == |next0[nodes[p]]| ==> UnlinkedUpTo(next0, next1, path, nodes[p], h)
    requires h < |next0[nodes[p]]| ==>
      path[h] == HEAD && next0[nodes[p]][h] == TAIL
      && UnlinkedUpTo(next0, nextU, path, nodes[p], h + 1)
      && next1 == nextU[HEAD := nextU[HEAD][..if h < 1 then 1 else h]]
    ensures LevelsOk(nodes[..p] + nodes[p + 1..], next1)
    ensures |next1| == |next0| && |next1[TAIL]| == 0 && |next1[HEAD]| <= |next0[HEAD]|
  {
    var nodes1 := nodes[..p] + nodes[p + 1..];
    forall k | 1 <= k < h ensures Filter(nodes1, next0, k) != [] {
      EmptiedLevel(nodes, value, next0, path, p, k);
    }
    if h < |next0[nodes[p]]| {
      EmptiedLevel(nodes, value, next0, path, p, h);
      DeleteLevelsCut(nodes, value, next0, nextU, path, p, nodes1, h);
    } else {
      DeleteLevels(nodes, value, next0, next1, path, p, nodes1);
    }
  }

  /** A node holding v once, taken off the levels, keeps the invariant
      without it and with v counted once less. */
  lemma Removed(value: seq<Key>, quantity: seq<nat>, next0: seq<seq<Handle>>, numElements: int,
                nodes: seq<Handle>, contents: multiset<int>, next1: seq<seq<Handle>>, p: nat, v: int,
                numElements1: int, nodes1: seq<Handle>, contents1: multiset<int>)
    requires ListInv(value, quantity, next0, numElements, nodes, contents)
    requires p < |nodes| && value[nodes[p]] == Val(v) && quantity[nodes[p]] == 1
    requires nodes1 == nodes[..p] + nodes[p + 1..] && LevelsOk(nodes1, next1)
    requires |next1| == |next0| && |next1[TAIL]| == 0
    requires numElements1 == numElements - 1 && contents1 == contents - multiset{v}
    ensures ListInv(value, quantity, next1, numElements1, nodes1, contents1)
  {
    BagRemove(nodes, value, quantity, p, v);
    RemoveKeyed(nodes, value, p);
    LiveRemoved(nodes, quantity, next0, next1, p);
  }

  /** Before the deletion unlinks t = nodes[p]: on each of t's levels the
      predecessor of rank p is a handle other than t that takes part in that
      level, and the level is linked. */
  lemma ReadyToUnlink(nodes: seq<Handle>, value: seq<Key>, next: seq<seq<Handle>>, path: seq<Handle>, p: nat)
    requires Keyed(nodes, value) && LevelsOk(nodes, next) && 2 <= |next|
    requires forall i :: 0 <= i < |nodes| ==> 2 <= nodes[i]
    requires p < |nodes|
    requires |path| == |next[HEAD]| && forall k :: 0 <= k < |path| ==> path[k] == Pred(nodes, next, k, p)
    ensures |next[nodes[p]]| <= |path|
    ensures forall k :: 0 <= k < |next[nodes[p]]| ==>
      0 <= path[k] < |next| && path[k] != nodes[p] && k < |next[path[k]]|
  {
    AscendingIsDistinct(nodes, value);
    forall k | 0 <= k < |next[nodes[p]]|
      ensures 0 <= path[k] < |next| && path[k] != nodes[p] && k < |next[path[k]]|
    {
      PredLinksToSucc(nodes, next, k, p);
      PredIsCandidate(nodes, next, k, p);
    }
  }

  /** A value occurs in the multiset as often as the counter of the node of
      its rank says, when that node holds it, and not at all otherwise. */
  lemma Multiplicity(value: seq<Key>, quantity: seq<nat>, next: seq<seq<Handle>>, numElements: int,
                     nodes: seq<Handle>, contents: multiset<int>, v: int)
    requires ListInv(value, quantity, next, numElements, nodes, contents)
    ensures var p := Below(nodes, value, v);
      contents[v] == if p < |nodes| && KeyOf(value, nodes[p]) == Val(v) then quantity[nodes[p]] else 0
  {
    BagCount(nodes, value, quantity, v);
  }

  /** No two live nodes hold the same value. */
  lemma OnePerValue(value: seq<Key>, quantity: seq<nat>, next: seq<seq<Handle>>, numElements: int,
                    nodes: seq<Handle>, contents: multiset<int>, i: int, j: int)
    requires ListInv(value, quantity, next, numElements, nodes, contents)
    requires 0 <= i < |nodes| && 0 <= j < |nodes| && value[nodes[i]] == value[nodes[j]]
    ensures i == j
  {
  }

  /** The values of the multiset are exactly the values the live nodes hold. */
  lemma Members(value: seq<Key>, quantity: seq<nat>, next: seq<seq<Handle>>, numElements: int,
                nodes: seq<Handle>, contents: multiset<int>)
    requires ListInv(value, quantity, next, numElements, nodes, contents)
    ensures forall x :: x in contents <==> exists i :: 0 <= i < |nodes| && value[nodes[i]] == Val(x)
  {
    forall x ensures x in contents <==> exists i :: 0 <= i < |nodes| && value[nodes[i]] == Val(x) {
      BagMembers(nodes, value, quantity, x);
    }
  }

  /** The bottom-level successor of the predecessor of v's rank is the node of
      that rank, or the high sentinel when every node is below v; so it holds v
      exactly when the node of v's rank does. */
  lemma Located(value: seq<Key>, quantity: seq<nat>, next: seq<seq<Handle>>, numElements: int,
                nodes: seq<Handle>, contents: multiset<int>, pred: Handle, v: int)
    requires ListInv(value, quantity, next, numElements, nodes, contents)
    requires pred == Pred(nodes, next, 0, Below(nodes, value, v))
    ensures 0 <= pred < |next| && 1 <= |next[pred]|
    ensures var p, t := Below(nodes, value, v), next[pred][0];
      && p <= |nodes| && 0 <= t < |value|
      && (p < |nodes| ==> t == nodes[p] && quantity[t] >= 1)
      && (p == |nodes| ==> t == TAIL)
      && (KeyOf(value, t) == Val(v) <==> p < |nodes| && KeyOf(value, nodes[p]) == Val(v))
      && contents[v] == (if KeyOf(value, t) == Val(v) then quantity[t] else 0)
      && (v in contents <==> KeyOf(value, t) == Val(v))
  {
    var p := Below(nodes, value, v);
    Multiplicity(value, quantity, next, numElements, nodes, contents, v);
    PredLinksToSucc(nodes, next, 0, p);
    LevelZero(nodes, next, p);
  }
}
