/** The skip list: a sorted multiset of integers kept as a tower of linked
    levels. Every node holds a value, a counter of how many times the value was
    inserted, and one forward link per level it takes part in. The low
    sentinel (key NegInf) starts every level and the high sentinel (key PosInf)
    ends every level. */
module SkipLists {
  import opened Keys
  import opened Levels
  import opened Bags
  import opened Splicing
  import opened ListInvariant

  datatype Option<T> = None | Some(value: T)

  /** The number of coin draws, from the first, that come up "heads". */
  function LeadingHeads(coins: seq<bool>): (r: nat)
    ensures r <= |coins|
    ensures forall i :: 0 <= i < r ==> coins[i]
    ensures r < |coins| ==> !coins[r]
  {
    if coins == [] || !coins[0] then 0 else 1 + LeadingHeads(coins[1..])
  }

  /** The height of a new node: one, and one more for every "heads" in a row.
      The coin draws (random() < 0.5 in the source) are given as a parameter;
      draws beyond the end of the sequence count as "tails". */
  method RandomHeight(coins: seq<bool>) returns (height: nat)
    ensures height >= 1
    ensures height == 1 + LeadingHeads(coins)
  {
    height := 1;
    var i := 0;
    while i < |coins| && coins[i]
      invariant 0 <= i <= |coins| && height == 1 + i
      invariant forall j :: 0 <= j < i ==> coins[j]
    {
      height := height + 1;
      i := i + 1;
    }
  }

  /** The nested Element class of the source is the arena: Element n has the
      fields value[n], quantity[n] and next[n]. Handle HEAD is the low sentinel,
      handle TAIL the high one. Nodes that have been unlinked stay in the arena. */
  class SkipList {
    var value: seq<Key>
    var quantity: seq<nat>
    var next: seq<seq<Handle>>
    var numElements: int

    /** The live nodes in ascending order of their keys (the bottom level). */
    ghost var nodes: seq<Handle>
    /** The multiset of values the list stands for. */
    ghost var contents: multiset<int>

    ghost predicate Valid()
      reads this
    {
      ListInv(value, quantity, next, numElements, nodes, contents)
    }

    /** The number of live nodes whose key is below v. */
    ghost function Rank(v: int): (r: nat)
      reads this
      ensures r <= |nodes|
    {
      Below(nodes, value, v)
    }

    /** v sits in the node of rank Rank(v). */
    ghost predicate Found(v: int)
      reads this
    {
      Rank(v) < |nodes| && KeyOf(value, nodes[Rank(v)]) == Val(v)
    }

    /** The low sentinel is exactly as tall as the tallest node, and at least
        one level tall. */
    lemma HeadHeightIsTallest()
      requires Valid()
      ensures |next[HEAD]| == if MaxHeight(nodes, next) < 1 then 1 else MaxHeight(nodes, next)
    {
      var H := |next[HEAD]|;
      if 1 < H {
        var f := Filter(nodes, next, H - 1);
        FilterMembers(nodes, next, H - 1);
        assert f[0] in f;
        var m :| 0 <= m < |nodes| && nodes[m] == f[0];
        assert Height(next, nodes[m]) <= MaxHeight(nodes, next);
      }
      if nodes != [] {
        var m :| 0 <= m < |nodes| && Height(next, nodes[m]) == MaxHeight(nodes, next);
      }
    }

    /** Element(value, height): a new node holding key v once, with height
        links that lead nowhere yet. */
    method NewElement(v: Key, height: nat) returns (n: Handle)
      modifies this
      ensures n == old(|next|)
      ensures value == old(value) + [v] && quantity == old(quantity) + [1]
      ensures next == old(next) + [NoLinks(height)]
      ensures numElements == old(numElements) && nodes == old(nodes) && contents == old(contents)
    {
      n := |next|;
      value := value + [v];
      quantity := quantity + [1];
      next := next + [NoLinks(height)];
    }

    /** An empty skip list: one level, on which the low sentinel links to the
        high sentinel. */
    constructor ()
      ensures Valid()
      ensures nodes == [] && contents == multiset{} && numElements == 0
      ensures value == [NegInf, PosInf] && quantity == [1, 1] && next == [[TAIL], []]
    {
      value, quantity, next := [], [], [];
      numElements := 0;
      nodes, contents := [], multiset{};
      new;
      var head := NewElement(NegInf, 0);
      var tail := NewElement(PosInf, 0);
      next := next[head := next[head] + [tail]];
      assert value == [NegInf, PosInf] && quantity == [1, 1];
      assert |next| == 2 && |next[0]| == 1 && next[0][0] == TAIL && |next[1]| == 0;
      assert next[0] == [TAIL] && next[1] == [];
      assert next == [[TAIL], []];
      assert Level(nodes, next, 0) == [HEAD, TAIL];
      assert Linked(next, [HEAD, TAIL], 0);
    }

    /** searchPath: on every level k, the last handle the search for v visits
        there, which is the predecessor of v's rank on level k: its key is
        below v and the key it links to on level k is not. */
    method SearchPath(v: int) returns (path: seq<Handle>)
      requires Valid()
      ensures |path| == |next[HEAD]|
      ensures forall k :: 0 <= k < |path| ==> path[k] == Pred(nodes, next, k, Rank(v))
      ensures forall k :: 0 <= k < |path| ==>
        0 <= path[k] < |next| && k < |next[path[k]]|
        && Less(KeyOf(value, path[k]), Val(v)) && !Less(KeyOf(value, next[path[k]][k]), Val(v))
    {
      ghost var p := Rank(v);
      var element := HEAD;
      path := seq(|next[HEAD]|, _ => NULL);
      var h := |next[HEAD]|;
      while h > 0
        invariant 0 <= h <= |next[HEAD]| == |path|
        invariant h == |next[HEAD]| ==> element == HEAD
        invariant h < |next[HEAD]| ==> element == path[h]
        invariant forall k :: h <= k < |path| ==> path[k] == Pred(nodes, next, k, p)
        invariant forall k :: h <= k < |path| ==>
          0 <= path[k] < |next| && k < |next[path[k]]|
          && Less(KeyOf(value, path[k]), Val(v)) && !Less(KeyOf(value, next[path[k]][k]), Val(v))
      {
        h := h - 1;
        element := SearchLevel(v, element, h);
        path := path[h := element];
      }
    }

    /** One level of searchPath: starting from the predecessor found on the
        level above, or from the low sentinel on the top level, follow the
        links of level h while they lead to keys below v. */
    method SearchLevel(v: int, start: Handle, h: nat) returns (element: Handle)
      requires Keyed(nodes, value) && LevelsOk(nodes, next)
      requires h < |next[HEAD]|
      requires start == if h + 1 < |next[HEAD]| then Pred(nodes, next, h + 1, Rank(v)) else HEAD
      ensures element == Pred(nodes, next, h, Rank(v))
      ensures 0 <= element < |next| && h < |next[element]|
      ensures Less(KeyOf(value, element), Val(v)) && !Less(KeyOf(value, next[element][h]), Val(v))
    {
      ghost var p := Rank(v);
      ghost var L := Level(nodes, next, h);
      assert Linked(next, L, h);
      assert L[0] == HEAD && L[|L| - 1] == TAIL && KeyOf(value, TAIL) == PosInf;
      ghost var i := 0;
      if h + 1 < |next[HEAD]| {
        DescendOnto(nodes, next, value, h, v);
        i :| 0 <= i < |L| - 1 && L[i] == start;
      }
      element := start;
      while Less(KeyOf(value, next[element][h]), Val(v))
        invariant 0 <= i < |L| - 1 && L[i] == element && Less(KeyOf(value, element), Val(v))
        decreases |L| - i
      {
        element := next[element][h];
        i := i + 1;
      }
      StopIndex(nodes, next, value, h, v, i);
      PredLinksToSucc(nodes, next, h, p);
    }

    /** search: the node holding v, when v is in the list. */
    method Search(v: int) returns (r: Option<Handle>)
      requires Valid()
      ensures r.Some? <==> v in contents
      ensures r.Some? ==> r.value in nodes && value[r.value] == Val(v) && quantity[r.value] == contents[v]
    {
      var predecessor := SearchPath(v);
      var target := next[predecessor[0]][0];
      Located(value, quantity, next, numElements, nodes, contents, predecessor[0], v);
      if KeyOf(value, target) == Val(v) {
        r := Some(target);
      } else {
        r := None;
      }
    }

    /** __contains__: whether v is in the list. */
    method Contains(v: int) returns (b: bool)
      requires Valid()
      ensures b <==> v in contents
    {
      var r := Search(v);
      b := r != None;
    }

    /** insert: one more occurrence of v. A value already present only has its
        counter raised; otherwise a new node of height RandomHeight(coins) is
        spliced in behind the search path, growing the low sentinel first when
        the new node is taller than it. */
    method Insert(v: int, coins: seq<bool>)
      requires Valid()
      modifies this
      ensures Valid()
      ensures contents == old(contents) + multiset{v}
      ensures numElements == old(numElements) + 1
      ensures HeightsKept(old(next), next)
      ensures old(Found(v)) ==>
        value == old(value) && next == old(next) && nodes == old(nodes)
        && quantity == old(quantity)[old(nodes[Rank(v)]) := old(quantity[nodes[Rank(v)]]) + 1]
      ensures !old(Found(v)) ==>
        value == old(value) + [Val(v)] && quantity == old(quantity) + [1] && |next| == old(|next|) + 1
        && nodes == old(nodes[..Rank(v)]) + [old(|next|)] + old(nodes[Rank(v)..])
        && |next[old(|next|)]| == 1 + LeadingHeads(coins)
        && |next[HEAD]| == if old(|next[HEAD]|) < 1 + LeadingHeads(coins) then 1 + LeadingHeads(coins) else old(|next[HEAD]|)
    {
      var predecessor := SearchPath(v);
      var target := next[predecessor[0]][0];
      ghost var p := Rank(v);
      Located(value, quantity, next, numElements, nodes, contents, predecessor[0], v);
      assert Found(v) <==> KeyOf(value, target) == Val(v);
      assert Found(v) ==> target == nodes[p];
      numElements := numElements + 1;
      ghost var quantity0, count0, contents0 := quantity, old(numElements), contents;

      if KeyOf(value, target) == Val(v) {
        quantity := quantity[target := quantity[target] + 1];
        contents := contents + multiset{v};
        Recounted(value, quantity0, next, count0, nodes, contents0, p, v, quantity, numElements, contents);
        return;
      }

      AddNode(v, coins, predecessor, p);
    }

    /** The part of insert that runs when v is new (numElements has already
        been raised): a node of height RandomHeight(coins) is created, the low
        sentinel is grown to that height, and the node is spliced in behind
        path on each of its levels. */
    method AddNode(v: int, coins: seq<bool>, path: seq<Handle>, ghost p: nat)
      requires ListInv(value, quantity, next, numElements - 1, nodes, contents)
      requires p == Rank(v) && (p < |nodes| ==> KeyOf(value, nodes[p]) != Val(v))
      requires |path| == |next[HEAD]| && forall k :: 0 <= k < |path| ==> path[k] == Pred(nodes, next, k, p)
      modifies this
      ensures Valid()
      ensures value == old(value) + [Val(v)] && quantity == old(quantity) + [1]
      ensures numElements == old(numElements) && contents == old(contents) + multiset{v}
      ensures nodes == old(nodes[..p]) + [old(|next|)] + old(nodes[p..])
      ensures |next| == old(|next|) + 1 && |next[old(|next|)]| == 1 + LeadingHeads(coins)
      ensures HeightsKept(old(next), next)
      ensures |next[HEAD]| == if old(|next[HEAD]|) < 1 + LeadingHeads(coins) then 1 + LeadingHeads(coins) else old(|next[HEAD]|)
    {
      ghost var nodes0, value0, quantity0, next0 := nodes, value, quantity, next;
      ghost var count0, contents0 := numElements - 1, contents;
      var height := RandomHeight(coins);
      var newElement := NewElement(Val(v), height);
      ghost var nextA := next;

      var predecessor := RaiseHead(path, height);
      ghost var next1 := next;
      Grown(nodes0, value0, next0, nextA, next1, path, predecessor, p, height);
      SpliceIn(predecessor, newElement, height);

      nodes := nodes0[..p] + [newElement] + nodes0[p..];
      contents := contents + multiset{v};
      Inserted(value0, quantity0, next0, count0, nodes0, contents0, next1, next, predecessor, p, v, height,
               value, quantity, numElements, nodes, contents);
    }

    /** delete: one occurrence of v fewer, when v is present. A counter above
        one is lowered; otherwise the node is unlinked level by level, and when
        that leaves a level with no node the low sentinel is cut down to
        max(1, h) levels, h being that level. */
    method Delete(v: int)
      requires Valid()
      modifies this
      ensures Valid()
      ensures contents == old(contents) - multiset{v}
      ensures numElements == old(numElements) - (if v in old(contents) then 1 else 0)
      ensures value == old(value) && |next| == old(|next|) && HeightsKept(old(next), next)
      ensures !old(Found(v)) ==> quantity == old(quantity) && next == old(next) && nodes == old(nodes)
      ensures old(Found(v)) && old(quantity[nodes[Rank(v)]]) > 1 ==>
        next == old(next) && nodes == old(nodes)
        && quantity == old(quantity)[old(nodes[Rank(v)]) := old(quantity[nodes[Rank(v)]]) - 1]
      ensures old(Found(v)) && old(quantity[nodes[Rank(v)]]) == 1 ==>
        quantity == old(quantity) && nodes == old(nodes[..Rank(v)] + nodes[Rank(v) + 1..])
        && |next[HEAD]| <= old(|next[HEAD]|)
    {
      var predecessor := SearchPath(v);
      var target := next[predecessor[0]][0];
      ghost var p := Rank(v);
      Located(value, quantity, next, numElements, nodes, contents, predecessor[0], v);
      assert Found(v) <==> KeyOf(value, target) == Val(v);
      assert Found(v) ==> target == nodes[p] && quantity[nodes[Rank(v)]] == quantity[target];

      if KeyOf(value, target) != Val(v) {
        return;
      }

      Discard(v, predecessor, target, p);
    }

    /** The part of delete that runs once v is found in node target, of rank
        p: numElements is lowered; a counter above one is lowered too,
        otherwise the node is unlinked from every level, the low sentinel
        possibly cut, and the node leaves the live nodes. */
    method Discard(v: int, path: seq<Handle>, target: Handle, ghost p: nat)
      requires Valid()
      requires p == Rank(v) && p < |nodes| && target == nodes[p] && value[target] == Val(v)
      requires |path| == |next[HEAD]| && forall k :: 0 <= k < |path| ==> path[k] == Pred(nodes, next, k, p)
      modifies this
      ensures Valid()
      ensures value == old(value) && numElements == old(numElements) - 1 && contents == old(contents) - multiset{v}
      ensures |next| == old(|next|) && HeightsKept(old(next), next)
      ensures old(quantity[target]) > 1 ==>
        next == old(next) && nodes == old(nodes) && quantity == old(quantity)[target := old(quantity[target]) - 1]
      ensures old(quantity[target]) == 1 ==>
        quantity == old(quantity) && nodes == old(nodes[..p] + nodes[p + 1..]) && |next[HEAD]| <= old(|next[HEAD]|)
    {
      numElements := numElements - 1;
      if quantity[target] > 1 {
        Decrement(v, target, p);
      } else {
        RemoveNode(v, path, target, p);
      }
    }

    /** Delete's middle case: the node of the deleted value holds it more than
        once, so only its counter is lowered; numElements already has been. */
    method Decrement(v: int, target: Handle, ghost p: nat)
      requires ListInv(value, quantity, next, numElements + 1, nodes, contents)
      requires p < |nodes| && target == nodes[p] && value[target] == Val(v) && quantity[target] > 1
      modifies this`quantity, this`contents
      ensures Valid()
      ensures value == old(value) && next == old(next) && nodes == old(nodes) && numElements == old(numElements)
      ensures quantity == old(quantity)[target := old(quantity[target]) - 1]
      ensures contents == old(contents) - multiset{v}
    {
      ghost var quantity0, contents0 := quantity, contents;
      quantity := quantity[target := quantity[target] - 1];
      contents := contents - multiset{v};
      Decounted(value, quantity0, next, numElements + 1, nodes, contents0, p, v, quantity, numElements, contents);
    }

    /** Delete's last case: the node of the deleted value held it once, so it
        leaves every level it is linked into; the counter has already been
        lowered. */
    method RemoveNode(v: int, path: seq<Handle>, target: Handle, ghost p: nat)
      requires ListInv(value, quantity, next, numElements + 1, nodes, contents)
      requires p == Rank(v) && p < |nodes| && target == nodes[p]
      requires value[target] == Val(v) && quantity[target] == 1
      requires |path| == |next[HEAD]| && forall k :: 0 <= k < |path| ==> path[k] == Pred(nodes, next, k, p)
      modifies this`next, this`nodes, this`contents
      ensures Valid()
      ensures value == old(value) && quantity == old(quantity) && numElements == old(numElements)
      ensures nodes == old(nodes[..p] + nodes[p + 1..]) && contents == old(contents) - multiset{v}
      ensures |next| == old(|next|) && |next[HEAD]| <= old(|next[HEAD]|) && HeightsKept(old(next), next)
    {
      ghost var nodes0, next0, contents0 := nodes, next, contents;
      ReadyToUnlink(nodes0, value, next0, path, p);
      ghost var h, nextU := Unlink(path, target);
      UnlinkedLevels(value, quantity, next0, numElements + 1, nodes0, contents0, path, p, h, nextU, next);
      nodes := nodes0[..p] + nodes0[p + 1..];
      contents := contents - multiset{v};
      Removed(value, quantity, next0, numElements + 1, nodes0, contents0, next, p, v, numElements, nodes, contents);
    }

    /** The first loop of insert: while the low sentinel is shorter than
        height, it gets one more level, linking to the high sentinel there,
        and the search path gets the low sentinel for that level. */
    method RaiseHead(path: seq<Handle>, height: nat) returns (path1: seq<Handle>)
      requires 2 <= |next| && |path| == |next[HEAD]|
      modifies this`next
      ensures |next| == old(|next|) && forall m :: 0 <= m < |next| && m != HEAD ==> next[m] == old(next[m])
      ensures |path1| == |next[HEAD]| == if |path| < height then height else |path|
      ensures next[HEAD][..|path|] == old(next[HEAD])
      ensures forall k :: |path| <= k < |next[HEAD]| ==> next[HEAD][k] == TAIL
      ensures forall k :: 0 <= k < |path| ==> path1[k] == path[k]
      ensures forall k :: |path| <= k < |path1| ==> path1[k] == HEAD
    {
      path1 := path;
      var h := |path|;
      while h < height
        invariant |next| == old(|next|) && forall m :: 0 <= m < |next| && m != HEAD ==> next[m] == old(next[m])
        invariant |path| <= h == |path1| == |next[HEAD]| && (h <= height || h == |path|)
        invariant next[HEAD][..|path|] == old(next[HEAD])
        invariant forall k :: |path| <= k < h ==> next[HEAD][k] == TAIL
        invariant forall k :: 0 <= k < |path| ==> path1[k] == path[k]
        invariant forall k :: |path| <= k < h ==> path1[k] == HEAD
      {
        next := next[HEAD := next[HEAD] + [TAIL]];
        path1 := path1 + [HEAD];
        h := h + 1;
      }
    }

    /** The second loop of insert: on each level h below height, node n
        takes over path[h]'s link and path[h] then links to n. */
    method SpliceIn(path: seq<Handle>, n: Handle, height: nat)
      requires 0 <= n < |next| && height <= |next[n]| && height <= |path|
      requires forall k :: 0 <= k < height ==> 0 <= path[k] < |next| && path[k] != n && k < |next[path[k]]|
      modifies this`next
      ensures SplicedUpTo(old(next), next, path, n, height)
    {
      var h := 0;
      while h < height
        invariant 0 <= h <= height
        invariant SplicedUpTo(old(next), next, path, n, h)
      {
        SpliceStep(old(next), next, path, n, h);
        next := next[n := next[n][h := next[path[h]][h]]];
        next := next[path[h] := next[path[h]][h := n]];
        h := h + 1;
      }
    }

    /** The loop of delete: on each level h of node t, path[h] takes over t's
        link. The loop stops at the first level where path[h] is the low
        sentinel and now links to the high sentinel, and then cuts the low
        sentinel down to max(1, h) levels. h is that level, or t's height when
        the loop ran through; nextU is the state before the cut. */
    method Unlink(path: seq<Handle>, t: Handle) returns (ghost h: nat, ghost nextU: seq<seq<Handle>>)
      requires 0 <= t < |next| && 1 <= |next| && |next[t]| <= |path|
      requires forall k :: 0 <= k < |next[t]| ==> 0 <= path[k] < |next| && path[k] != t && k < |next[path[k]]|
      modifies this`next
      ensures h <= |old(next[t])|
      ensures forall k :: 0 <= k < h ==> !(path[k] == HEAD && old(next[t][k]) == TAIL)
      ensures h == |old(next[t])| ==> UnlinkedUpTo(old(next), next, path, t, h)
      ensures h < |old(next[t])| ==>
        path[h] == HEAD && old(next[t][h]) == TAIL
        && UnlinkedUpTo(old(next), nextU, path, t, h + 1)
        && next == nextU[HEAD := nextU[HEAD][..if h < 1 then 1 else h]]
    {
      var height := |next[t]|;
      var i := 0;
      h, nextU := height, next;
      while i < height
        invariant 0 <= i <= height == |old(next[t])|
        invariant UnlinkedUpTo(old(next), next, path, t, i)
        invariant forall k :: 0 <= k < i ==> !(path[k] == HEAD && old(next[t][k]) == TAIL)
      {
        UnlinkStep(old(next), next, path, t, i);
        next := next[path[i] := next[path[i]][i := next[t][i]]];
        if path[i] == HEAD && next[path[i]][i] == TAIL {
          h, nextU := i, next;
          next := next[HEAD := next[HEAD][..if i < 1 then 1 else i]];
          return;
        }
        i := i + 1;
      }
      h := i;
    }

    /** __iter__: the live nodes, in ascending order of their values, each
        once; between them they hold exactly the values of the multiset. */
    method Iter() returns (elements: seq<Handle>)
      requires Valid()
      ensures elements == nodes
      ensures forall i, j :: 0 <= i < j < |elements| ==> Less(value[elements[i]], value[elements[j]])
      ensures forall x :: x in contents <==> exists i :: 0 <= i < |elements| && value[elements[i]] == Val(x)
    {
      LevelZero(nodes, next, 0);
      ghost var L := Level(nodes, next, 0);
      assert Linked(next, L, 0);
      assert L == [HEAD] + nodes + [TAIL] && L[0] == HEAD;
      var element := next[HEAD][0];
      elements := [];
      ghost var i := 1;
      while |next[element]| > 0
        invariant 1 <= i < |L| && element == L[i] && elements == nodes[..i - 1]
        decreases |L| - i
      {
        elements := elements + [element];
        element := next[element][0];
        i := i + 1;
      }
      assert elements == nodes;
      Members(value, quantity, next, numElements, nodes, contents);
    }

    /** __len__: the number of values stored, each counted as often as it was
        inserted and not yet deleted. */
    method Len() returns (n: int)
      requires Valid()
      ensures n == |contents|
    {
      n := numElements;
    }
  }

  /** A client run: a value inserted twice is counted twice. */
  method CountScenario()
  {
    var s := new SkipList();
    s.Insert(3, [true, false]);
    s.Insert(3, []);
    s.Insert(5, [true, true, false]);
    var n := s.Len();
    assert n == 3;
    var c := s.Contains(3);
    assert c;
  }

  /** A client run: a delete removes one occurrence, and deleting an absent
      value changes nothing. */
  method DeleteScenario()
  {
    var s := new SkipList();
    s.Insert(3, [true, false]);
    s.Insert(3, []);
    s.Delete(3);
    var c := s.Contains(3);
    assert c;
    s.Delete(3);
    c := s.Contains(3);
    assert !c;
    s.Delete(4);
    var n := s.Len();
    assert n == 0;
  }
}
