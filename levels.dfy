/** The levels of a skip list whose nodes live in an arena. A node is an
    integer handle; next[n] is node n's list of forward links, one per level
    it takes part in, so its height is |next[n]|. Level k, read from the low
    sentinel, is the low sentinel, then the live nodes of height above k in
    ascending order, then the high sentinel. */
module Levels {
  import opened Keys

  type Handle = int

  /** The handle standing for "no node" in a freshly created link list. */
  const NULL: Handle := -1

  /** The low sentinel, whose key is NegInf. */
  const HEAD: Handle := 0
  /** The high sentinel, whose key is PosInf and whose link list is empty. */
  const TAIL: Handle := 1

  /** The links of a new node of the given height, none of which leads
      anywhere yet. */
  function NoLinks(height: nat): (r: seq<Handle>)
    ensures |r| == height
  {
    seq(height, _ => NULL)
  }

  /** Every node of the arena next0 other than the low sentinel has the same
      number of links in next1: a node's height is fixed when it is created. */
  ghost predicate HeightsKept(next0: seq<seq<Handle>>, next1: seq<seq<Handle>>)
  {
    |next0| <= |next1| && forall m :: 1 <= m < |next0| ==> |next1[m]| == |next0[m]|
  }

  /** Number of levels node n takes part in (0 for a handle outside the arena). */
  function Height(next: seq<seq<Handle>>, n: Handle): nat
  {
    if 0 <= n < |next| then |next[n]| else 0
  }

  /** The key stored in node n (PosInf for a handle outside the arena). */
  function KeyOf(value: seq<Key>, n: Handle): Key
  {
    if 0 <= n < |value| then value[n] else PosInf
  }

  /** The nodes of hs, in their order, that take part in level k. */
  function Filter(hs: seq<Handle>, next: seq<seq<Handle>>, k: nat): (r: seq<Handle>)
    ensures |r| <= |hs|
  {
    if hs == [] then []
    else (if k < Height(next, hs[0]) then [hs[0]] else []) + Filter(hs[1..], next, k)
  }

  /** Level k as a list of handles from the low to the high sentinel. */
  function Level(nodes: seq<Handle>, next: seq<seq<Handle>>, k: nat): seq<Handle>
  {
    [HEAD] + Filter(nodes, next, k) + [TAIL]
  }

  /** On level k, the links follow the list L from its first to its last handle. */
  ghost predicate Linked(next: seq<seq<Handle>>, L: seq<Handle>, k: nat)
  {
    forall i :: 0 <= i < |L| - 1 ==>
      0 <= L[i] < |next| && k < |next[L[i]]| && next[L[i]][k] == L[i + 1]
  }

  /** Keys strictly ascend along hs. */
  ghost predicate Ascending(hs: seq<Handle>, value: seq<Key>)
  {
    forall i, j :: 0 <= i < j < |hs| ==> Less(KeyOf(value, hs[i]), KeyOf(value, hs[j]))
  }

  /** Length of the longest prefix of hs whose keys are below Val(v). */
  function Below(hs: seq<Handle>, value: seq<Key>, v: int): (r: nat)
    ensures r <= |hs|
    ensures forall i :: 0 <= i < r ==> Less(KeyOf(value, hs[i]), Val(v))
    ensures r < |hs| ==> !Less(KeyOf(value, hs[r]), Val(v))
  {
    if hs == [] || !Less(KeyOf(value, hs[0]), Val(v)) then 0
    else 1 + Below(hs[1..], value, v)
  }

  /** The last node of level k among nodes[..p], or the low sentinel when
      there is none: the predecessor on level k of a key of rank p. */
  function Pred(nodes: seq<Handle>, next: seq<seq<Handle>>, k: nat, p: nat): Handle
    requires p <= |nodes|
  {
    var f := Filter(nodes[..p], next, k);
    if f == [] then HEAD else f[|f| - 1]
  }

  /** The first node of level k among nodes[p..], or the high sentinel when
      there is none: the successor on level k of a key of rank p. */
  function Succ(nodes: seq<Handle>, next: seq<seq<Handle>>, k: nat, p: nat): Handle
    requires p <= |nodes|
  {
    var f := Filter(nodes[p..], next, k);
    if f == [] then TAIL else f[0]
  }

  /** The height of the tallest node of hs (0 when hs is empty). */
  function MaxHeight(hs: seq<Handle>, next: seq<seq<Handle>>): (r: nat)
    ensures forall i :: 0 <= i < |hs| ==> Height(next, hs[i]) <= r
    ensures hs == [] ==> r == 0
    ensures hs != [] ==> exists i :: 0 <= i < |hs| && Height(next, hs[i]) == r
  {
    if hs == [] then 0
    else
      var m := MaxHeight(hs[1..], next);
      if m <= Height(next, hs[0]) then
        assert Height(next, hs[0 + 0]) == Height(next, hs[0]);
        Height(next, hs[0])
      else
        assert exists i :: 0 <= i < |hs[1..]| && Height(next, hs[1..][i]) == m;
        var i :| 0 <= i < |hs[1..]| && Height(next, hs[1..][i]) == m;
        assert hs[i + 1] == hs[1..][i];
        m
  }

  /** A node is on level k exactly when it is one of hs and its height exceeds k. */
  lemma {:induction false} FilterMembers(hs: seq<Handle>, next: seq<seq<Handle>>, k: nat)
    ensures forall x :: x in Filter(hs, next, k) <==> x in hs && k < Height(next, x)
  {
    if hs != [] {
      FilterMembers(hs[1..], next, k);
      assert hs == [hs[0]] + hs[1..];
    }
  }

  lemma {:induction false} FilterAppend(a: seq<Handle>, b: seq<Handle>, next: seq<seq<Handle>>, k: nat)
    ensures Filter(a + b, next, k) == Filter(a, next, k) + Filter(b, next, k)
  {
    if a == [] {
      assert a + b == b;
    } else {
      assert (a + b)[0] == a[0];
      assert (a + b)[1..] == a[1..] + b;
      FilterAppend(a[1..], b, next, k);
    }
  }

  /** Filter looks at nothing but the heights of the nodes it is given. */
  lemma {:induction false} FilterSameHeights(hs: seq<Handle>, next1: seq<seq<Handle>>, next2: seq<seq<Handle>>, k: nat)
    requires forall i :: 0 <= i < |hs| ==> Height(next1, hs[i]) == Height(next2, hs[i])
    ensures Filter(hs, next1, k) == Filter(hs, next2, k)
  {
    if hs != [] {
      assert forall i :: 0 <= i < |hs[1..]| ==> hs[1..][i] == hs[i + 1];
      FilterSameHeights(hs[1..], next1, next2, k);
    }
  }

  /** Every node of height above k is on level k: level 0 holds all nodes. */
  lemma {:induction false} FilterAll(hs: seq<Handle>, next: seq<seq<Handle>>, k: nat)
    requires forall i :: 0 <= i < |hs| ==> k < Height(next, hs[i])
    ensures Filter(hs, next, k) == hs
  {
    if hs != [] {
      assert forall i :: 0 <= i < |hs[1..]| ==> hs[1..][i] == hs[i + 1];
      FilterAll(hs[1..], next, k);
    }
  }

  lemma FilterNone(hs: seq<Handle>, next: seq<seq<Handle>>, k: nat)
    requires forall i :: 0 <= i < |hs| ==> Height(next, hs[i]) <= k
    ensures Filter(hs, next, k) == []
  {
    var f := Filter(hs, next, k);
    FilterMembers(hs, next, k);
    if f != [] {
      assert f[0] in f;
      var i :| 0 <= i < |hs| && hs[i] == f[0];
      assert false;
    }
  }

  /** A level keeps the order of the nodes it is drawn from. */
  lemma {:induction false} FilterAscending(hs: seq<Handle>, next: seq<seq<Handle>>, value: seq<Key>, k: nat)
    requires Ascending(hs, value)
    ensures Ascending(Filter(hs, next, k), value)
  {
    if hs != [] {
      var tl := hs[1..];
      assert Ascending(tl, value) by {
        forall i, j | 0 <= i < j < |tl| ensures Less(KeyOf(value, tl[i]), KeyOf(value, tl[j])) {
          assert tl[i] == hs[i + 1] && tl[j] == hs[j + 1];
        }
      }
      FilterAscending(tl, next, value, k);
      var rest := Filter(tl, next, k);
      var f := Filter(hs, next, k);
      FilterMembers(tl, next, k);
      if k < Height(next, hs[0]) {
        assert f == [hs[0]] + rest;
        forall j | 0 <= j < |rest| ensures Less(KeyOf(value, hs[0]), KeyOf(value, rest[j])) {
          assert rest[j] in rest;
          var m :| 0 <= m < |tl| && tl[m] == rest[j];
          assert tl[m] == hs[m + 1];
        }
        forall i, j | 0 <= i < j < |f| ensures Less(KeyOf(value, f[i]), KeyOf(value, f[j])) {
          if i == 0 {
            assert f[j] == rest[j - 1];
          } else {
            assert f[i] == rest[i - 1] && f[j] == rest[j - 1];
          }
        }
      } else {
        assert f == rest;
      }
    }
  }

  /** Handles at different positions of an ascending list differ. */
  lemma AscendingDistinct(hs: seq<Handle>, value: seq<Key>, i: int, j: int)
    requires Ascending(hs, value)
    requires 0 <= i < |hs| && 0 <= j < |hs| && hs[i] == hs[j]
    ensures i == j
  {
  }

  /** Every key from position Below onwards is at least Val(v). */
  lemma BelowSplit(hs: seq<Handle>, value: seq<Key>, v: int, i: int)
    requires Ascending(hs, value)
    requires Below(hs, value, v) <= i < |hs|
    ensures !Less(KeyOf(value, hs[i]), Val(v))
  {
    var r := Below(hs, value, v);
    if r < i {
      assert Less(KeyOf(value, hs[r]), KeyOf(value, hs[i]));
      LessIsStrictTotalOrder(KeyOf(value, hs[r]), KeyOf(value, hs[i]), Val(v));
    }
  }

  /** With the sentinels around ascending real keys, every level is ascending. */
  lemma LevelAscending(nodes: seq<Handle>, next: seq<seq<Handle>>, value: seq<Key>, k: nat)
    requires Ascending(nodes, value)
    requires forall i :: 0 <= i < |nodes| ==> KeyOf(value, nodes[i]).Val?
    requires KeyOf(value, HEAD) == NegInf && KeyOf(value, TAIL) == PosInf
    ensures Ascending(Level(nodes, next, k), value)
  {
    var f := Filter(nodes, next, k);
    FilterMembers(nodes, next, k);
    FilterAscending(nodes, next, value, k);
    var L := Level(nodes, next, k);
    forall i | 0 <= i < |f| ensures KeyOf(value, f[i]).Val? {
      assert f[i] in f;
      var m :| 0 <= m < |nodes| && nodes[m] == f[i];
    }
    forall i, j | 0 <= i < j < |L| ensures Less(KeyOf(value, L[i]), KeyOf(value, L[j])) {
      if 0 < i && j < |L| - 1 {
        assert L[i] == f[i - 1] && L[j] == f[j - 1];
      } else if 0 < i {
        assert L[i] == f[i - 1];
      } else if j < |L| - 1 {
        assert L[j] == f[j - 1];
      }
    }
  }

  /** Level k split at rank p: the part below the key and the part from it on. */
  lemma LevelSplit(nodes: seq<Handle>, next: seq<seq<Handle>>, k: nat, p: nat)
    requires p <= |nodes|
    ensures Level(nodes, next, k)
      == [HEAD] + Filter(nodes[..p], next, k) + Filter(nodes[p..], next, k) + [TAIL]
  {
    assert nodes == nodes[..p] + nodes[p..];
    FilterAppend(nodes[..p], nodes[p..], next, k);
  }

  /** On a linked level, Pred(p) sits at index |Filter(nodes[..p])| and links to Succ(p). */
  lemma PredLinksToSucc(nodes: seq<Handle>, next: seq<seq<Handle>>, k: nat, p: nat)
    requires p <= |nodes|
    requires Linked(next, Level(nodes, next, k), k)
    ensures Level(nodes, next, k)
      == [HEAD] + Filter(nodes[..p], next, k) + Filter(nodes[p..], next, k) + [TAIL]
    ensures Level(nodes, next, k)[|Filter(nodes[..p], next, k)|] == Pred(nodes, next, k, p)
    ensures Level(nodes, next, k)[|Filter(nodes[..p], next, k)| + 1] == Succ(nodes, next, k, p)
    ensures 0 <= Pred(nodes, next, k, p) < |next| && k < |next[Pred(nodes, next, k, p)]|
    ensures next[Pred(nodes, next, k, p)][k] == Succ(nodes, next, k, p)
  {
    var f1, f2 := Filter(nodes[..p], next, k), Filter(nodes[p..], next, k);
    LevelSplit(nodes, next, k, p);
    var L := Level(nodes, next, k);
    var a := |f1|;
    assert |L| == a + |f2| + 2;
    assert L[a] == if f1 == [] then HEAD else f1[a - 1];
    assert L[a + 1] == if f2 == [] then TAIL else f2[0];
  }

  /** On level k, the nodes right after the low sentinel, as many as there
      are on the level among the first Below(v) nodes, hold keys below v. */
  lemma LevelPrefixBelow(nodes: seq<Handle>, next: seq<seq<Handle>>, value: seq<Key>, k: nat, v: int, i: int)
    requires 1 <= i <= |Filter(nodes[..Below(nodes, value, v)], next, k)|
    ensures i < |Level(nodes, next, k)|
    ensures Less(KeyOf(value, Level(nodes, next, k)[i]), Val(v))
  {
    var p := Below(nodes, value, v);
    var f1 := Filter(nodes[..p], next, k);
    LevelSplit(nodes, next, k, p);
    FilterMembers(nodes[..p], next, k);
    assert Level(nodes, next, k)[i] == f1[i - 1];
    assert f1[i - 1] in f1;
    var m :| 0 <= m < p && nodes[..p][m] == f1[i - 1];
    assert nodes[m] == f1[i - 1];
  }

  /** On level k, the nodes after those counted by LevelPrefixBelow, up to the
      high sentinel, hold keys at least v. */
  lemma LevelSuffixNotBelow(nodes: seq<Handle>, next: seq<seq<Handle>>, value: seq<Key>, k: nat, v: int, i: int)
    requires Ascending(nodes, value)
    requires |Filter(nodes[..Below(nodes, value, v)], next, k)| < i < |Level(nodes, next, k)| - 1
    ensures !Less(KeyOf(value, Level(nodes, next, k)[i]), Val(v))
  {
    var p := Below(nodes, value, v);
    var f1, f2 := Filter(nodes[..p], next, k), Filter(nodes[p..], next, k);
    LevelSplit(nodes, next, k, p);
    var j := i - 1 - |f1|;
    FilterMembers(nodes[p..], next, k);
    assert Level(nodes, next, k)[i] == f2[j];
    assert f2[j] in f2;
    var m :| 0 <= m < |nodes| - p && nodes[p..][m] == f2[j];
    BelowSplit(nodes, value, v, p + m);
  }

  /** The index at which a search on level k stops is that of Pred(p), where p
      is the number of keys below v: stopping at a key below v whose successor
      is not below v leaves no other choice. */
  lemma StopIndex(nodes: seq<Handle>, next: seq<seq<Handle>>, value: seq<Key>, k: nat, v: int, i: int)
    requires Ascending(nodes, value)
    requires 0 <= i < |Level(nodes, next, k)| - 1
    requires Less(KeyOf(value, Level(nodes, next, k)[i]), Val(v))
    requires !Less(KeyOf(value, Level(nodes, next, k)[i + 1]), Val(v))
    ensures i == |Filter(nodes[..Below(nodes, value, v)], next, k)|
  {
    var a := |Filter(nodes[..Below(nodes, value, v)], next, k)|;
    if i < a {
      LevelPrefixBelow(nodes, next, value, k, v, i + 1);
      assert false;
    } else if i > a {
      LevelSuffixNotBelow(nodes, next, value, k, v, i);
      assert false;
    }
  }

  /** Levels nest: a handle on level k + 1 is on level k as well. */
  lemma LevelsNest(nodes: seq<Handle>, next: seq<seq<Handle>>, k: nat)
    ensures forall x :: x in Level(nodes, next, k + 1) ==> x in Level(nodes, next, k)
  {
    FilterMembers(nodes, next, k);
    FilterMembers(nodes, next, k + 1);
  }

  /** Level 0 holds every node, so the successor of rank p there is the node
      of rank p itself, or the high sentinel past the last node. */
  lemma LevelZero(nodes: seq<Handle>, next: seq<seq<Handle>>, p: nat)
    requires p <= |nodes|
    requires forall i :: 0 <= i < |nodes| ==> 1 <= Height(next, nodes[i])
    ensures Filter(nodes, next, 0) == nodes
    ensures Succ(nodes, next, 0, p) == if p < |nodes| then nodes[p] else TAIL
  {
    FilterAll(nodes, next, 0);
    assert forall i :: 0 <= i < |nodes[p..]| ==> nodes[p..][i] == nodes[p + i];
    FilterAll(nodes[p..], next, 0);
  }

  /** The predecessor on level k is the low sentinel or one of nodes[..p]
      taking part in level k. */
  lemma PredIsCandidate(nodes: seq<Handle>, next: seq<seq<Handle>>, k: nat, p: nat)
    requires p <= |nodes|
    ensures Pred(nodes, next, k, p) == HEAD
         || exists m :: 0 <= m < p && nodes[m] == Pred(nodes, next, k, p) && k < Height(next, nodes[m])
  {
    var f := Filter(nodes[..p], next, k);
    if f != [] {
      FilterMembers(nodes[..p], next, k);
      assert f[|f| - 1] in f;
      var m :| 0 <= m < p && nodes[..p][m] == f[|f| - 1];
      assert nodes[m] == nodes[..p][m];
    }
  }

  /** Where the search moves down from level k + 1 to level k, it stands on a
      handle of level k, not the high sentinel, whose key is below v. */
  lemma DescendOnto(nodes: seq<Handle>, next: seq<seq<Handle>>, value: seq<Key>, k: nat, v: int)
    requires KeyOf(value, HEAD) == NegInf
    ensures exists i :: 0 <= i < |Level(nodes, next, k)| - 1 &&
                        Level(nodes, next, k)[i] == Pred(nodes, next, k + 1, Below(nodes, value, v))
    ensures Less(KeyOf(value, Pred(nodes, next, k + 1, Below(nodes, value, v))), Val(v))
  {
    var p := Below(nodes, value, v);
    var x := Pred(nodes, next, k + 1, p);
    var L := Level(nodes, next, k);
    PredIsCandidate(nodes, next, k + 1, p);
    if x == HEAD {
      assert L[0] == x;
    } else {
      var m :| 0 <= m < p && nodes[m] == x && k + 1 < Height(next, nodes[m]);
      FilterMembers(nodes, next, k);
      var f := Filter(nodes, next, k);
      assert x in f;
      var j :| 0 <= j < |f| && f[j] == x;
      assert L[j + 1] == x;
    }
  }
}
