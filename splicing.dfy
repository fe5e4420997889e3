/** How inserting and deleting a node rewrites the links level by level, and
    why every level stays a correctly linked, ascending list afterwards. */
module Splicing {
  import opened Keys
  import opened Levels

  /** The sentinels' keys, and real, strictly ascending keys on the live nodes. */
  ghost predicate Keyed(nodes: seq<Handle>, value: seq<Key>)
  {
    && KeyOf(value, HEAD) == NegInf && KeyOf(value, TAIL) == PosInf
    && (forall i :: 0 <= i < |nodes| ==> KeyOf(value, nodes[i]).Val?)
    && Ascending(nodes, value)
  }

  /** The shape invariant of the links: the low sentinel has at least one level,
      every live node has between one level and as many as the low sentinel,
      every level is linked from the low to the high sentinel, and every level
      above level 0 holds at least one live node. */
  ghost predicate LevelsOk(nodes: seq<Handle>, next: seq<seq<Handle>>)
  {
    && 0 <= HEAD < |next| && 1 <= |next[HEAD]|
    && (forall i :: 0 <= i < |nodes| ==>
          0 <= nodes[i] < |next| && nodes[i] != HEAD && 1 <= |next[nodes[i]]| <= |next[HEAD]|)
    && (forall k :: 0 <= k < |next[HEAD]| ==> Linked(next, Level(nodes, next, k), k))
    && (forall k :: 1 <= k < |next[HEAD]| ==> Filter(nodes, next, k) != [])
  }

  /** next1 is next0 after the first h steps of splicing node n in behind
      path[k] on each level k: n takes over path[k]'s link and path[k] links to n. */
  ghost predicate SplicedUpTo(next0: seq<seq<Handle>>, next1: seq<seq<Handle>>,
                              path: seq<Handle>, n: Handle, h: nat)
  {
    && |next1| == |next0|
    && 0 <= n < |next0| && h <= |path| && h <= |next0[n]|
    && (forall k :: 0 <= k < h ==> 0 <= path[k] < |next0| && path[k] != n && k < |next0[path[k]]|)
    && (forall m :: 0 <= m < |next0| ==> |next1[m]| == |next0[m]|)
    && (forall m, k {:trigger next1[m][k]} :: 0 <= m < |next0| && 0 <= k < |next0[m]| ==>
          next1[m][k] == (if k < h && m == n then next0[path[k]][k]
                          else if k < h && m == path[k] then n
                          else next0[m][k]))
  }

  /** next1 is next0 after the first h steps of unlinking node t: on each
      level k < h, path[k] takes over t's link. */
  ghost predicate UnlinkedUpTo(next0: seq<seq<Handle>>, next1: seq<seq<Handle>>,
                               path: seq<Handle>, t: Handle, h: nat)
  {
    && |next1| == |next0|
    && 0 <= t < |next0| && h <= |path| && h <= |next0[t]|
    && (forall k :: 0 <= k < h ==> 0 <= path[k] < |next0| && path[k] != t && k < |next0[path[k]]|)
    && (forall m :: 0 <= m < |next0| ==> |next1[m]| == |next0[m]|)
    && (forall m, k {:trigger next1[m][k]} :: 0 <= m < |next0| && 0 <= k < |next0[m]| ==>
          next1[m][k] == (if k < h && m == path[k] then next0[t][k] else next0[m][k]))
  }

  /** Level k < h of a splice in progress: only n and path[k] have new links there. */
  lemma SplicedAt(next0: seq<seq<Handle>>, next1: seq<seq<Handle>>, path: seq<Handle>, n: Handle, h: nat, k: nat)
    requires SplicedUpTo(next0, next1, path, n, h) && k < h
    ensures forall m {:trigger next1[m]} :: 0 <= m < |next0| && k < |next0[m]| ==>
      next1[m][k] == (if m == n then next0[path[k]][k] else if m == path[k] then n else next0[m][k])
  {
    forall m | 0 <= m < |next0| && k < |next0[m]|
      ensures next1[m][k] == (if m == n then next0[path[k]][k] else if m == path[k] then n else next0[m][k])
    {
      assert next1[m][k] == (if k < h && m == n then next0[path[k]][k]
                             else if k < h && m == path[k] then n
                             else next0[m][k]);
    }
  }

  /** Level k < h of an unlinking in progress: only path[k] has a new link there. */
  lemma UnlinkedAt(next0: seq<seq<Handle>>, next1: seq<seq<Handle>>, path: seq<Handle>, t: Handle, h: nat, k: nat)
    requires UnlinkedUpTo(next0, next1, path, t, h) && k < h
    ensures forall m {:trigger next1[m]} :: 0 <= m < |next0| && k < |next0[m]| ==>
      next1[m][k] == (if m == path[k] then next0[t][k] else next0[m][k])
  {
    forall m | 0 <= m < |next0| && k < |next0[m]|
      ensures next1[m][k] == (if m == path[k] then next0[t][k] else next0[m][k])
    {
      assert next1[m][k] == (if k < h && m == path[k] then next0[t][k] else next0[m][k]);
    }
  }

  /** Growing the low sentinel by levels that link straight to the high
      sentinel keeps every level linked; the new levels are empty, so the
      predecessor there is the low sentinel. */
  lemma GrowHead(nodes: seq<Handle>, next0: seq<seq<Handle>>, next1: seq<seq<Handle>>,
                 path0: seq<Handle>, path1: seq<Handle>, p: nat)
    requires 0 <= HEAD < |next0| <= |next1|
    requires forall i :: 0 <= i < |nodes| ==>
      0 <= nodes[i] < |next0| && nodes[i] != HEAD && |next0[nodes[i]]| <= |next0[HEAD]|
    requires forall m :: 0 <= m < |next0| && m != HEAD ==> next1[m] == next0[m]
    requires |next0[HEAD]| <= |next1[HEAD]| && next1[HEAD][..|next0[HEAD]|] == next0[HEAD]
    requires forall k :: |next0[HEAD]| <= k < |next1[HEAD]| ==> next1[HEAD][k] == TAIL
    requires forall k :: 0 <= k < |next0[HEAD]| ==> Linked(next0, Level(nodes, next0, k), k)
    requires p <= |nodes|
    requires |path0| == |next0[HEAD]| && forall k :: 0 <= k < |path0| ==> path0[k] == Pred(nodes, next0, k, p)
    requires |path1| == |next1[HEAD]|
    requires forall k :: 0 <= k < |path0| ==> path1[k] == path0[k]
    requires forall k :: |path0| <= k < |path1| ==> path1[k] == HEAD
    ensures forall k :: 0 <= k < |next1[HEAD]| ==> Linked(next1, Level(nodes, next1, k), k)
    ensures forall k :: 0 <= k < |path1| ==> path1[k] == Pred(nodes, next1, k, p)
    ensures forall i :: 0 <= i < |nodes| ==> Height(next1, nodes[i]) == Height(next0, nodes[i])
  {
    var H0 := |next0[HEAD]|;
    assert forall i :: 0 <= i < |nodes| ==> Height(next1, nodes[i]) == Height(next0, nodes[i]);
    forall k | 0 <= k < |next1[HEAD]| ensures Linked(next1, Level(nodes, next1, k), k) {
      FilterSameHeights(nodes, next1, next0, k);
      var L := Level(nodes, next1, k);
      if k < H0 {
        assert L == Level(nodes, next0, k);
        assert Linked(next0, L, k);
        forall i | 0 <= i < |L| - 1 ensures 0 <= L[i] < |next1| && k < |next1[L[i]]| && next1[L[i]][k] == L[i + 1] {
          if L[i] == HEAD {
            assert next1[HEAD][k] == next1[HEAD][..H0][k];
          }
        }
      } else {
        FilterNone(nodes, next0, k);
        assert L == [HEAD, TAIL];
      }
    }
    forall k | 0 <= k < |path1| ensures path1[k] == Pred(nodes, next1, k, p) {
      assert forall i :: 0 <= i < |nodes[..p]| ==> nodes[..p][i] == nodes[i];
      FilterSameHeights(nodes[..p], next1, next0, k);
      if H0 <= k {
        FilterNone(nodes[..p], next0, k);
      }
    }
  }

  /** No handle occurs twice in L. */
  ghost predicate Distinct(L: seq<Handle>)
  {
    forall i, j :: 0 <= i < j < |L| ==> L[i] != L[j]
  }

  /** Splicing n into a linked list L right behind L[a]: n takes over L[a]'s
      link and L[a] links to n; every other link is left alone. */
  lemma LinkInsert(L: seq<Handle>, a: nat, q: Handle, n: Handle, next0: seq<seq<Handle>>, next1: seq<seq<Handle>>, k: nat)
    requires a + 1 < |L| && q == L[a] && Distinct(L) && n !in L
    requires Linked(next0, L, k)
    requires |next1| == |next0| && 0 <= n < |next0| && k < |next0[n]|
    requires forall m :: 0 <= m < |next0| ==> |next1[m]| == |next0[m]|
    requires forall m {:trigger next1[m]} :: 0 <= m < |next0| && k < |next0[m]| ==>
      next1[m][k] == (if m == n then next0[q][k] else if m == q then n else next0[m][k])
    ensures Linked(next1, L[..a + 1] + [n] + L[a + 1..], k)
  {
    var L1 := L[..a + 1] + [n] + L[a + 1..];
    forall i | 0 <= i < |L1| - 1
      ensures 0 <= L1[i] < |next1| && k < |next1[L1[i]]| && next1[L1[i]][k] == L1[i + 1]
    {
      if i < a {
        assert L1[i] == L[i] && L1[i + 1] == L[i + 1];
      } else if i == a {
        assert L1[i] == L[a] && L1[i + 1] == n;
      } else if i == a + 1 {
        assert L1[i] == n && L1[i + 1] == L[a + 1];
      } else {
        assert L1[i] == L[i - 1] && L1[i + 1] == L[i];
      }
    }
  }

  /** Unlinking L[a + 1] from a linked list L: L[a] takes over its link; every
      other link is left alone. */
  lemma LinkRemove(L: seq<Handle>, a: nat, q: Handle, t: Handle, next0: seq<seq<Handle>>, next1: seq<seq<Handle>>, k: nat)
    requires a + 2 < |L| && q == L[a] && t == L[a + 1] && Distinct(L)
    requires Linked(next0, L, k)
    requires |next1| == |next0|
    requires forall m :: 0 <= m < |next0| ==> |next1[m]| == |next0[m]|
    requires forall m {:trigger next1[m]} :: 0 <= m < |next0| && k < |next0[m]| ==>
      next1[m][k] == (if m == q then next0[t][k] else next0[m][k])
    ensures Linked(next1, L[..a + 1] + L[a + 2..], k)
  {
    var L1 := L[..a + 1] + L[a + 2..];
    forall i | 0 <= i < |L1| - 1
      ensures 0 <= L1[i] < |next1| && k < |next1[L1[i]]| && next1[L1[i]][k] == L1[i + 1]
    {
      if i < a {
        assert L1[i] == L[i] && L1[i + 1] == L[i + 1];
      } else if i == a {
        assert L1[i] == L[a] && L1[i + 1] == L[a + 2];
      } else {
        assert L1[i] == L[i + 1] && L1[i + 1] == L[i + 2];
      }
    }
  }

  /** The list [HEAD] + f1 + f2 + [TAIL] cut after f1, and a filter with mid
      between f1 and f2 framed by the sentinels, cut around mid. */
  lemma SplitAround(f1: seq<Handle>, f2: seq<Handle>, mid: seq<Handle>, F: seq<Handle>)
    requires F == f1 + mid + f2
    ensures ([HEAD] + f1 + f2 + [TAIL])[..|f1| + 1] == [HEAD] + f1
    ensures ([HEAD] + f1 + f2 + [TAIL])[|f1| + 1..] == f2 + [TAIL]
    ensures [HEAD] + F + [TAIL] == ([HEAD] + f1) + mid + (f2 + [TAIL])
  {
    var L := [HEAD] + f1 + f2 + [TAIL];
    assert L == ([HEAD] + f1) + (f2 + [TAIL]);
  }

  /** An ascending level holds no handle twice. */
  lemma AscendingLevelDistinct(nodes: seq<Handle>, value: seq<Key>, next: seq<seq<Handle>>, k: nat)
    requires Keyed(nodes, value)
    ensures Distinct(Level(nodes, next, k))
  {
    LevelAscending(nodes, next, value, k);
    var L := Level(nodes, next, k);
    forall i, j | 0 <= i < j < |L| ensures L[i] != L[j] {
      LessIsStrictTotalOrder(KeyOf(value, L[i]), KeyOf(value, L[j]), KeyOf(value, L[j]));
    }
  }

  /** Level k, with n inserted at rank p and no height changed, has n between
      the old level's nodes below rank p and those from it on. */
  lemma InsertedLevel(nodes: seq<Handle>, next0: seq<seq<Handle>>, next1: seq<seq<Handle>>, n: Handle, p: nat, k: nat)
    requires p <= |nodes| && k < Height(next0, n)
    requires forall i :: 0 <= i < |nodes| ==> Height(next1, nodes[i]) == Height(next0, nodes[i])
    requires Height(next1, n) == Height(next0, n)
    ensures Filter(nodes[..p] + [n] + nodes[p..], next1, k)
      == Filter(nodes[..p], next0, k) + [n] + Filter(nodes[p..], next0, k)
  {
    var nodes1 := nodes[..p] + [n] + nodes[p..];
    forall i | 0 <= i < |nodes1| ensures Height(next1, nodes1[i]) == Height(next0, nodes1[i]) {
      if i < p {
        assert nodes1[i] == nodes[i];
      } else if i > p {
        assert nodes1[i] == nodes[i - 1];
      }
    }
    FilterSameHeights(nodes1, next1, next0, k);
    FilterAppend(nodes[..p] + [n], nodes[p..], next0, k);
    FilterAppend(nodes[..p], [n], next0, k);
    assert Filter([n], next0, k) == [n];
  }

  /** One level below the new node's height after the splice: n sits between
      the predecessor q and the successor of its key. */
  lemma SpliceLevel(nodes: seq<Handle>, next0: seq<seq<Handle>>, next1: seq<seq<Handle>>,
                    q: Handle, n: Handle, p: nat, k: nat)
    requires n !in nodes && n != HEAD && n != TAIL
    requires p <= |nodes| && 0 <= n < |next0| && k < |next0[n]|
    requires forall i :: 0 <= i < |nodes| ==> 0 <= nodes[i] < |next0|
    requires Distinct(Level(nodes, next0, k))
    requires Linked(next0, Level(nodes, next0, k), k)
    requires q == Pred(nodes, next0, k, p) && 0 <= q < |next0| && k < |next0[q]|
    requires |next1| == |next0| && forall m :: 0 <= m < |next0| ==> |next1[m]| == |next0[m]|
    requires forall m {:trigger next1[m]} :: 0 <= m < |next0| && k < |next0[m]| ==>
      next1[m][k] == (if m == n then next0[q][k] else if m == q then n else next0[m][k])
    ensures Linked(next1, Level(nodes[..p] + [n] + nodes[p..], next1, k), k)
    ensures Filter(nodes[..p] + [n] + nodes[p..], next1, k) != []
  {
    var f1, f2 := Filter(nodes[..p], next0, k), Filter(nodes[p..], next0, k);
    PredLinksToSucc(nodes, next0, k, p);
    var L := Level(nodes, next0, k);
    var a := |f1|;
    assert n !in L by {
      FilterMembers(nodes, next0, k);
    }
    InsertedLevel(nodes, next0, next1, n, p, k);
    SplitAround(f1, f2, [n], Filter(nodes[..p] + [n] + nodes[p..], next1, k));
    LinkInsert(L, a, q, n, next0, next1, k);
  }

  /** One level at or above the new node's height: nothing changes there. */
  lemma SpliceUpperLevel(nodes: seq<Handle>, next0: seq<seq<Handle>>, next1: seq<seq<Handle>>,
                         path: seq<Handle>, n: Handle, p: nat, k: nat)
    requires p <= |nodes| && 0 <= n < |next0|
    requires SplicedUpTo(next0, next1, path, n, |next0[n]|)
    requires |next0[n]| <= k
    requires forall i :: 0 <= i < |nodes| ==> 0 <= nodes[i] < |next0|
    requires Linked(next0, Level(nodes, next0, k), k)
    ensures Level(nodes[..p] + [n] + nodes[p..], next1, k) == Level(nodes, next0, k)
    ensures Linked(next1, Level(nodes[..p] + [n] + nodes[p..], next1, k), k)
  {
    var nodes1 := nodes[..p] + [n] + nodes[p..];
    forall i | 0 <= i < |nodes1| ensures Height(next1, nodes1[i]) == Height(next0, nodes1[i]) {
    }
    FilterSameHeights(nodes1, next1, next0, k);
    FilterAppend(nodes[..p] + [n], nodes[p..], next0, k);
    FilterAppend(nodes[..p], [n], next0, k);
    assert Filter([n], next0, k) == [];
    LevelSplit(nodes, next0, k, p);
    var L := Level(nodes, next0, k);
    assert Level(nodes1, next1, k) == L;
    forall i | 0 <= i < |L| - 1
      ensures 0 <= L[i] < |next1| && k < |next1[L[i]]| && next1[L[i]][k] == L[i + 1]
    {
      var m := L[i];
      assert 0 <= m < |next0| && k < |next0[m]| && next0[m][k] == L[i + 1];
      assert next1[m][k] == next0[m][k];
    }
  }

  /** Splicing a fresh node in behind the predecessors of its key, on each of
      its levels, keeps the shape invariant with the node in the key's place. */
  lemma InsertLevels(nodes: seq<Handle>, value: seq<Key>, next0: seq<seq<Handle>>, next1: seq<seq<Handle>>,
                     path: seq<Handle>, n: Handle, p: nat)
    requires Keyed(nodes, value)
    requires n !in nodes && n != HEAD && n != TAIL
    requires 0 <= HEAD < |next0| && 0 <= n < |next0|
    requires 1 <= |next0[n]| <= |next0[HEAD]|
    requires p <= |nodes|
    requires forall i :: 0 <= i < |nodes| ==>
      0 <= nodes[i] < |next0| && nodes[i] != HEAD && 1 <= |next0[nodes[i]]| <= |next0[HEAD]|
    requires forall k :: 0 <= k < |next0[HEAD]| ==> Linked(next0, Level(nodes, next0, k), k)
    requires forall k :: |next0[n]| <= k < |next0[HEAD]| && 1 <= k ==> Filter(nodes, next0, k) != []
    requires |next0[n]| <= |path|
    requires forall k :: 0 <= k < |next0[n]| ==> path[k] == Pred(nodes, next0, k, p)
    requires SplicedUpTo(next0, next1, path, n, |next0[n]|)
    ensures LevelsOk(nodes[..p] + [n] + nodes[p..], next1)
  {
    var nodes1 := nodes[..p] + [n] + nodes[p..];
    assert |next1[HEAD]| == |next0[HEAD]|;
    forall i | 0 <= i < |nodes1|
      ensures 0 <= nodes1[i] < |next1| && nodes1[i] != HEAD && 1 <= |next1[nodes1[i]]| <= |next1[HEAD]|
    {
      if i < p {
        assert nodes1[i] == nodes[i];
      } else if i > p {
        assert nodes1[i] == nodes[i - 1];
      }
    }
    forall k | 0 <= k < |next1[HEAD]|
      ensures Linked(next1, Level(nodes1, next1, k), k)
      ensures 1 <= k ==> Filter(nodes1, next1, k) != []
    {
      if k < |next0[n]| {
        AscendingLevelDistinct(nodes, value, next0, k);
        SplicedAt(next0, next1, path, n, |next0[n]|, k);
        SpliceLevel(nodes, next0, next1, path[k], n, p, k);
      } else {
        SpliceUpperLevel(nodes, next0, next1, path, n, p, k);
      }
    }
  }

  /** The level list with t between f1 and f2, with t taken out. */
  lemma SplitOut(f1: seq<Handle>, f2: seq<Handle>, t: Handle, F: seq<Handle>, G: seq<Handle>)
    requires F == [t] + f2 && G == f1 + f2
    ensures ([HEAD] + f1 + F + [TAIL])[|f1| + 1] == t
    ensures ([HEAD] + f1 + F + [TAIL])[..|f1| + 1] + ([HEAD] + f1 + F + [TAIL])[|f1| + 2..]
      == [HEAD] + G + [TAIL]
  {
    var L := [HEAD] + f1 + F + [TAIL];
    assert L == ([HEAD] + f1) + [t] + (f2 + [TAIL]);
    assert L[..|f1| + 1] == [HEAD] + f1;
    assert L[|f1| + 2..] == f2 + [TAIL];
  }

  /** Level k, with the node at rank p taken out and no height changed, is the
      old level without that node. */
  lemma RemovedLevel(nodes: seq<Handle>, next0: seq<seq<Handle>>, next1: seq<seq<Handle>>, p: nat, k: nat)
    requires p < |nodes| && k < Height(next0, nodes[p])
    requires forall i :: 0 <= i < |nodes| ==> Height(next1, nodes[i]) == Height(next0, nodes[i])
    ensures Filter(nodes[p..], next0, k) == [nodes[p]] + Filter(nodes[p + 1..], next0, k)
    ensures Filter(nodes[..p] + nodes[p + 1..], next1, k)
      == Filter(nodes[..p], next0, k) + Filter(nodes[p + 1..], next0, k)
  {
    var nodes1 := nodes[..p] + nodes[p + 1..];
    forall i | 0 <= i < |nodes1| ensures Height(next1, nodes1[i]) == Height(next0, nodes1[i]) {
      if i < p {
        assert nodes1[i] == nodes[i];
      } else {
        assert nodes1[i] == nodes[i + 1];
      }
    }
    FilterSameHeights(nodes1, next1, next0, k);
    FilterAppend(nodes[..p], nodes[p + 1..], next0, k);
    assert nodes[p..] == [nodes[p]] + nodes[p + 1..];
    FilterAppend([nodes[p]], nodes[p + 1..], next0, k);
    assert Filter([nodes[p]], next0, k) == [nodes[p]];
  }

  /** One level on which t = nodes[p] has been unlinked behind its predecessor
      q: the level is the old one without t. */
  lemma UnlinkLevel(nodes: seq<Handle>, next0: seq<seq<Handle>>, next1: seq<seq<Handle>>,
                    q: Handle, p: nat, k: nat)
    requires p < |nodes| && 0 <= nodes[p] < |next0| && k < |next0[nodes[p]]|
    requires forall i :: 0 <= i < |nodes| ==> 0 <= nodes[i] < |next0|
    requires Distinct(Level(nodes, next0, k))
    requires Linked(next0, Level(nodes, next0, k), k)
    requires q == Pred(nodes, next0, k, p) && 0 <= q < |next0| && k < |next0[q]|
    requires |next1| == |next0| && forall m :: 0 <= m < |next0| ==> |next1[m]| == |next0[m]|
    requires forall m {:trigger next1[m]} :: 0 <= m < |next0| && k < |next0[m]| ==>
      next1[m][k] == (if m == q then next0[nodes[p]][k] else next0[m][k])
    ensures Linked(next1, Level(nodes[..p] + nodes[p + 1..], next1, k), k)
  {
    var f1, f2 := Filter(nodes[..p], next0, k), Filter(nodes[p + 1..], next0, k);
    PredLinksToSucc(nodes, next0, k, p);
    var L := Level(nodes, next0, k);
    var a := |f1|;
    RemovedLevel(nodes, next0, next1, p, k);
    SplitOut(f1, f2, nodes[p], Filter(nodes[p..], next0, k), Filter(nodes[..p] + nodes[p + 1..], next1, k));
    LinkRemove(L, a, q, nodes[p], next0, next1, k);
  }

  /** One level above t's height: the removal changes nothing there. */
  lemma UnlinkUpperLevel(nodes: seq<Handle>, next0: seq<seq<Handle>>, next1: seq<seq<Handle>>,
                         path: seq<Handle>, p: nat, j: nat, k: nat)
    requires p < |nodes|
    requires UnlinkedUpTo(next0, next1, path, nodes[p], j)
    requires |next0[nodes[p]]| <= k
    requires forall i :: 0 <= i < |nodes| ==> 0 <= nodes[i] < |next0|
    requires Linked(next0, Level(nodes, next0, k), k)
    ensures Level(nodes[..p] + nodes[p + 1..], next1, k) == Level(nodes, next0, k)
    ensures Linked(next1, Level(nodes[..p] + nodes[p + 1..], next1, k), k)
  {
    var t := nodes[p];
    var nodes1 := nodes[..p] + nodes[p + 1..];
    forall i | 0 <= i < |nodes1| ensures Height(next1, nodes1[i]) == Height(next0, nodes1[i]) {
      if i < p {
        assert nodes1[i] == nodes[i];
      } else {
        assert nodes1[i] == nodes[i + 1];
      }
    }
    FilterSameHeights(nodes1, next1, next0, k);
    assert nodes == nodes[..p] + [t] + nodes[p + 1..];
    FilterAppend(nodes[..p] + [t], nodes[p + 1..], next0, k);
    FilterAppend(nodes[..p], [t], next0, k);
    FilterAppend(nodes[..p], nodes[p + 1..], next0, k);
    assert Filter([t], next0, k) == [];
  }

  /** The test the deletion makes after unlinking t from level k (the
      predecessor is the low sentinel and now links to the high sentinel)
      holds exactly when level k is left without any live node. */
  lemma EmptiedLevel(nodes: seq<Handle>, value: seq<Key>, next0: seq<seq<Handle>>,
                     path: seq<Handle>, p: nat, k: nat)
    requires Keyed(nodes, value)
    requires p < |nodes| && k < |path|
    requires forall i :: 0 <= i < |nodes| ==> 0 <= nodes[i] < |next0|
    requires k < |next0[nodes[p]]|
    requires Linked(next0, Level(nodes, next0, k), k)
    requires path[k] == Pred(nodes, next0, k, p)
    ensures (path[k] == HEAD && next0[nodes[p]][k] == TAIL)
        <==> Filter(nodes[..p] + nodes[p + 1..], next0, k) == []
  {
    var t := nodes[p];
    var f1, f2 := Filter(nodes[..p], next0, k), Filter(nodes[p + 1..], next0, k);
    PredLinksToSucc(nodes, next0, k, p);
    assert nodes[p..] == [t] + nodes[p + 1..];
    FilterAppend([t], nodes[p + 1..], next0, k);
    assert Filter([t], next0, k) == [t];
    var L := Level(nodes, next0, k);
    var a := |f1|;
    assert L == [HEAD] + f1 + [t] + f2 + [TAIL];
    assert L[a + 1] == t && next0[t][k] == L[a + 2];
    LevelAscending(nodes, next0, value, k);
    FilterAppend(nodes[..p], nodes[p + 1..], next0, k);
    if path[k] == HEAD {
      AscendingDistinct(L, value, 0, a);
    }
    if next0[t][k] == TAIL {
      AscendingDistinct(L, value, a + 2, |L| - 1);
    }
  }

  /** A level linked before the low sentinel's list is cut to c >= k + 1
      levels is still linked afterwards. */
  lemma TruncateLevel(nodes: seq<Handle>, next1: seq<seq<Handle>>, c: nat, k: nat)
    requires 0 <= HEAD < |next1| && k < c <= |next1[HEAD]|
    requires forall i :: 0 <= i < |nodes| ==> nodes[i] != HEAD
    requires Linked(next1, Level(nodes, next1, k), k)
    ensures Level(nodes, next1[HEAD := next1[HEAD][..c]], k) == Level(nodes, next1, k)
    ensures Linked(next1[HEAD := next1[HEAD][..c]], Level(nodes, next1[HEAD := next1[HEAD][..c]], k), k)
  {
    var next2 := next1[HEAD := next1[HEAD][..c]];
    FilterSameHeights(nodes, next2, next1, k);
    var L := Level(nodes, next1, k);
    forall i | 0 <= i < |L| - 1 ensures 0 <= L[i] < |next2| && k < |next2[L[i]]| && next2[L[i]][k] == L[i + 1] {
      if L[i] == HEAD {
        assert next2[HEAD][k] == next1[HEAD][k];
      }
    }
  }

  /** Deletion that ran through all of t's levels without cutting the low
      sentinel: the shape invariant holds without t. */
  lemma DeleteLevels(nodes: seq<Handle>, value: seq<Key>, next0: seq<seq<Handle>>, next1: seq<seq<Handle>>,
                     path: seq<Handle>, p: nat, nodes1: seq<Handle>)
    requires Keyed(nodes, value) && LevelsOk(nodes, next0)
    requires p < |nodes| && nodes1 == nodes[..p] + nodes[p + 1..]
    requires |path| == |next0[HEAD]| && forall k :: 0 <= k < |path| ==> path[k] == Pred(nodes, next0, k, p)
    requires UnlinkedUpTo(next0, next1, path, nodes[p], |next0[nodes[p]]|)
    requires forall k :: 1 <= k < |next0[nodes[p]]| ==> Filter(nodes1, next0, k) != []
    ensures LevelsOk(nodes1, next1)
  {
    var t := nodes[p];
    var j := |next0[t]|;
    assert |next1[HEAD]| == |next0[HEAD]|;
    forall i | 0 <= i < |nodes1|
      ensures 0 <= nodes1[i] < |next1| && nodes1[i] != HEAD && 1 <= |next1[nodes1[i]]| <= |next1[HEAD]|
      ensures Height(next1, nodes1[i]) == Height(next0, nodes1[i])
    {
      if i < p {
        assert nodes1[i] == nodes[i];
      } else {
        assert nodes1[i] == nodes[i + 1];
      }
    }
    forall k | 0 <= k < |next1[HEAD]|
      ensures Linked(next1, Level(nodes1, next1, k), k)
      ensures 1 <= k ==> Filter(nodes1, next1, k) != []
    {
      FilterSameHeights(nodes1, next1, next0, k);
      if k < j {
        AscendingLevelDistinct(nodes, value, next0, k);
        UnlinkedAt(next0, next1, path, t, j, k);
        UnlinkLevel(nodes, next0, next1, path[k], p, k);
      } else {
        UnlinkUpperLevel(nodes, next0, next1, path, p, j, k);
      }
    }
  }

  /** Level k below the cut, after t has been unlinked from it and the low
      sentinel has been cut to c levels: linked, and holding the same nodes as
      before the unlinking save t. */
  lemma CutLevel(nodes: seq<Handle>, value: seq<Key>, next0: seq<seq<Handle>>, next1: seq<seq<Handle>>,
                 path: seq<Handle>, p: nat, h: nat, c: nat, k: nat)
    requires Keyed(nodes, value) && LevelsOk(nodes, next0)
    requires p < |nodes| && h < |next0[nodes[p]]| && k < c <= h + 1 && c <= |next0[HEAD]|
    requires UnlinkedUpTo(next0, next1, path, nodes[p], h + 1)
    requires path[k] == Pred(nodes, next0, k, p)
    ensures Linked(next1[HEAD := next1[HEAD][..c]], Level(nodes[..p] + nodes[p + 1..], next1[HEAD := next1[HEAD][..c]], k), k)
    ensures Filter(nodes[..p] + nodes[p + 1..], next1[HEAD := next1[HEAD][..c]], k)
      == Filter(nodes[..p] + nodes[p + 1..], next0, k)
  {
    var t := nodes[p];
    var nodes1 := nodes[..p] + nodes[p + 1..];
    AscendingLevelDistinct(nodes, value, next0, k);
    UnlinkedAt(next0, next1, path, t, h + 1, k);
    UnlinkLevel(nodes, next0, next1, path[k], p, k);
    forall i | 0 <= i < |nodes1| ensures nodes1[i] != HEAD && Height(next1[HEAD := next1[HEAD][..c]], nodes1[i]) == Height(next0, nodes1[i]) {
      if i < p {
        assert nodes1[i] == nodes[i];
      } else {
        assert nodes1[i] == nodes[i + 1];
      }
    }
    TruncateLevel(nodes1, next1, c, k);
    FilterSameHeights(nodes1, next1[HEAD := next1[HEAD][..c]], next0, k);
  }

  /** Deletion that found level h emptied after unlinking t there and cut the
      low sentinel to max(1, h) levels: the shape invariant holds without t. */
  lemma DeleteLevelsCut(nodes: seq<Handle>, value: seq<Key>, next0: seq<seq<Handle>>, next1: seq<seq<Handle>>,
                        path: seq<Handle>, p: nat, nodes1: seq<Handle>, h: nat)
    requires Keyed(nodes, value) && LevelsOk(nodes, next0)
    requires p < |nodes| && nodes1 == nodes[..p] + nodes[p + 1..]
    requires |path| == |next0[HEAD]| && forall k :: 0 <= k < |path| ==> path[k] == Pred(nodes, next0, k, p)
    requires h < |next0[nodes[p]]|
    requires UnlinkedUpTo(next0, next1, path, nodes[p], h + 1)
    requires forall k :: 1 <= k < h ==> Filter(nodes1, next0, k) != []
    requires Filter(nodes1, next0, h) == []
    ensures LevelsOk(nodes1, next1[HEAD := next1[HEAD][..if h < 1 then 1 else h]])
  {
    var c := if h < 1 then 1 else h;
    var next2 := next1[HEAD := next1[HEAD][..c]];
    assert |next2[HEAD]| == c;
    CutHeights(nodes, next0, next1, p, nodes1, h, c);
    forall k | 0 <= k < c
      ensures Linked(next2, Level(nodes1, next2, k), k)
      ensures 1 <= k ==> Filter(nodes1, next2, k) != []
    {
      CutLevel(nodes, value, next0, next1, path, p, h, c, k);
    }
  }

  /** After the cut, every remaining node is at most as tall as the low
      sentinel: no node left reaches the emptied level h. */
  lemma CutHeights(nodes: seq<Handle>, next0: seq<seq<Handle>>, next1: seq<seq<Handle>>,
                   p: nat, nodes1: seq<Handle>, h: nat, c: nat)
    requires LevelsOk(nodes, next0)
    requires p < |nodes| && nodes1 == nodes[..p] + nodes[p + 1..]
    requires c == (if h < 1 then 1 else h) && c <= |next0[HEAD]|
    requires |next1| == |next0| && forall m :: 0 <= m < |next0| ==> |next1[m]| == |next0[m]|
    requires Filter(nodes1, next0, h) == []
    ensures forall i :: 0 <= i < |nodes1| ==>
      0 <= nodes1[i] < |next1[HEAD := next1[HEAD][..c]]| && nodes1[i] != HEAD
      && 1 <= |next1[HEAD := next1[HEAD][..c]][nodes1[i]]| <= c
  {
    var next2 := next1[HEAD := next1[HEAD][..c]];
    FilterMembers(nodes1, next0, h);
    forall i | 0 <= i < |nodes1|
      ensures 0 <= nodes1[i] < |next2| && nodes1[i] != HEAD && 1 <= |next2[nodes1[i]]| <= c
    {
      if i < p {
        assert nodes1[i] == nodes[i];
      } else {
        assert nodes1[i] == nodes[i + 1];
      }
      assert nodes1[i] in nodes1;
    }
  }

  /** Appending a node to the arena leaves the levels, the predecessors and
      the links of the listed nodes as they were. */
  lemma ExtendArena(nodes: seq<Handle>, next: seq<seq<Handle>>, next1: seq<seq<Handle>>, e: seq<Handle>, p: nat)
    requires next1 == next + [e] && p <= |nodes| && 0 <= HEAD < |next|
    requires forall i :: 0 <= i < |nodes| ==> 0 <= nodes[i] < |next|
    requires forall k :: 0 <= k < |next[HEAD]| ==> Linked(next, Level(nodes, next, k), k)
    ensures forall k :: Filter(nodes, next1, k) == Filter(nodes, next, k)
    ensures forall k :: Pred(nodes, next1, k, p) == Pred(nodes, next, k, p)
    ensures forall k :: 0 <= k < |next1[HEAD]| ==> Linked(next1, Level(nodes, next1, k), k)
  {
    assert forall i :: 0 <= i < |nodes[..p]| ==> nodes[..p][i] == nodes[i];
    forall k ensures Filter(nodes, next1, k) == Filter(nodes, next, k)
      ensures Pred(nodes, next1, k, p) == Pred(nodes, next, k, p)
    {
      FilterSameHeights(nodes, next1, next, k);
      FilterSameHeights(nodes[..p], next1, next, k);
    }
    forall k | 0 <= k < |next1[HEAD]| ensures Linked(next1, Level(nodes, next1, k), k) {
      var L := Level(nodes, next, k);
      assert Linked(next, L, k);
      forall i | 0 <= i < |L| - 1 ensures 0 <= L[i] < |next1| && k < |next1[L[i]]| && next1[L[i]][k] == L[i + 1] {
        assert next1[L[i]] == next[L[i]];
      }
    }
  }

  /** A new node with a key v that is not yet present, placed at rank
      Below(v), keeps the keys strictly ascending. */
  lemma InsertKeyed(nodes: seq<Handle>, value: seq<Key>, v: int, p: nat)
    requires Keyed(nodes, value) && 2 <= |value|
    requires forall i :: 0 <= i < |nodes| ==> 0 <= nodes[i] < |value|
    requires p == Below(nodes, value, v)
    requires p < |nodes| ==> KeyOf(value, nodes[p]) != Val(v)
    ensures Keyed(nodes[..p] + [|value|] + nodes[p..], value + [Val(v)])
  {
    var n := |value|;
    var value1 := value + [Val(v)];
    var nodes1 := nodes[..p] + [n] + nodes[p..];
    forall i | 0 <= i < |nodes| ensures KeyOf(value1, nodes[i]) == KeyOf(value, nodes[i]) {
    }
    assert KeyOf(value1, n) == Val(v);
    forall i | 0 <= i < |nodes1|
      ensures KeyOf(value1, nodes1[i]) == if i < p then KeyOf(value, nodes[i]) else if i == p then Val(v) else KeyOf(value, nodes[i - 1])
    {
      if i < p {
        assert nodes1[i] == nodes[i];
      } else if i > p {
        assert nodes1[i] == nodes[i - 1];
      }
    }
    forall i, j | 0 <= i < j < |nodes1| ensures Less(KeyOf(value1, nodes1[i]), KeyOf(value1, nodes1[j])) {
      if j == p {
        assert Less(KeyOf(value, nodes[i]), Val(v));
      } else if i == p {
        BelowSplit(nodes, value, v, j - 1);
        if j - 1 > p {
          assert Less(KeyOf(value, nodes[p]), KeyOf(value, nodes[j - 1]));
          LessIsStrictTotalOrder(Val(v), KeyOf(value, nodes[p]), KeyOf(value, nodes[j - 1]));
        }
      } else if i < p < j {
        assert Less(KeyOf(value, nodes[i]), Val(v));
        BelowSplit(nodes, value, v, j - 1);
        LessIsStrictTotalOrder(KeyOf(value, nodes[i]), Val(v), KeyOf(value, nodes[j - 1]));
      }
    }
  }

  /** Taking a node out keeps the keys strictly ascending. */
  lemma RemoveKeyed(nodes: seq<Handle>, value: seq<Key>, p: nat)
    requires Keyed(nodes, value) && p < |nodes|
    ensures Keyed(nodes[..p] + nodes[p + 1..], value)
  {
    var nodes1 := nodes[..p] + nodes[p + 1..];
    forall i | 0 <= i < |nodes1| ensures nodes1[i] == if i < p then nodes[i] else nodes[i + 1] {
    }
  }

  /** No two positions of an ascending list hold the same handle. */
  lemma AscendingIsDistinct(hs: seq<Handle>, value: seq<Key>)
    requires Ascending(hs, value)
    ensures Distinct(hs)
  {
    forall i, j | 0 <= i < j < |hs| ensures hs[i] != hs[j] {
      LessIsStrictTotalOrder(KeyOf(value, hs[i]), KeyOf(value, hs[j]), KeyOf(value, hs[j]));
    }
  }

  /** One step of the insertion's splice loop, on level h: n takes over
      path[h]'s link and path[h] links to n. */
  lemma SpliceStep(next0: seq<seq<Handle>>, next1: seq<seq<Handle>>, path: seq<Handle>, n: Handle, h: nat)
    requires SplicedUpTo(next0, next1, path, n, h) && h < |next0[n]| && h < |path|
    requires 0 <= path[h] < |next0| && path[h] != n && h < |next0[path[h]]|
    ensures h < |next1[n]| && h < |next1[path[h]]|
    ensures next1[path[h]][h] == next0[path[h]][h]
    ensures SplicedUpTo(next0, next1[n := next1[n][h := next1[path[h]][h]]]
                                   [path[h] := next1[n := next1[n][h := next1[path[h]][h]]][path[h]][h := n]],
                        path, n, h + 1)
  {
    var a := next1[n := next1[n][h := next1[path[h]][h]]];
    var b := a[path[h] := a[path[h]][h := n]];
    assert next1[path[h]][h] == next0[path[h]][h];
    forall m, k | 0 <= m < |next0| && 0 <= k < |next0[m]|
      ensures b[m][k] == (if k < h + 1 && m == n then next0[path[k]][k]
                          else if k < h + 1 && m == path[k] then n
                          else next0[m][k])
    {
      assert next1[m][k] == (if k < h && m == n then next0[path[k]][k]
                             else if k < h && m == path[k] then n
                             else next0[m][k]);
    }
  }

  /** One step of the deletion's unlink loop, on level h: path[h] takes over
      t's link. */
  lemma UnlinkStep(next0: seq<seq<Handle>>, next1: seq<seq<Handle>>, path: seq<Handle>, t: Handle, h: nat)
    requires UnlinkedUpTo(next0, next1, path, t, h) && h < |next0[t]| && h < |path|
    requires 0 <= path[h] < |next0| && path[h] != t && h < |next0[path[h]]|
    ensures h < |next1[t]| && h < |next1[path[h]]|
    ensures next1[t][h] == next0[t][h]
    ensures UnlinkedUpTo(next0, next1[path[h] := next1[path[h]][h := next1[t][h]]], path, t, h + 1)
  {
    var b := next1[path[h] := next1[path[h]][h := next1[t][h]]];
    assert next1[t][h] == next0[t][h];
    forall m, k | 0 <= m < |next0| && 0 <= k < |next0[m]|
      ensures b[m][k] == (if k < h + 1 && m == path[k] then next0[t][k] else next0[m][k])
    {
      assert next1[m][k] == (if k < h && m == path[k] then next0[t][k] else next0[m][k]);
    }
  }
}
