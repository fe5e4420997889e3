/** The multiset a list of nodes stands for: each node contributes its value
    as many times as its quantity says. */
module Bags {
  import opened Keys
  import opened Levels

  /** What node n contributes: its value, quantity[n] times. */
  function Occ(value: seq<Key>, quantity: seq<nat>, n: Handle): multiset<int>
  {
    if 0 <= n < |value| && n < |quantity| && value[n].Val?
    then multiset{}[value[n].v := quantity[n]]
    else multiset{}
  }

  ghost function Bag(hs: seq<Handle>, value: seq<Key>, quantity: seq<nat>): multiset<int>
  {
    if hs == [] then multiset{} else Occ(value, quantity, hs[0]) + Bag(hs[1..], value, quantity)
  }

  lemma {:induction false} BagAppend(a: seq<Handle>, b: seq<Handle>, value: seq<Key>, quantity: seq<nat>)
    ensures Bag(a + b, value, quantity) == Bag(a, value, quantity) + Bag(b, value, quantity)
  {
    if a == [] {
      assert a + b == b;
    } else {
      assert (a + b)[0] == a[0];
      assert (a + b)[1..] == a[1..] + b;
      BagAppend(a[1..], b, value, quantity);
    }
  }

  lemma BagSplit(hs: seq<Handle>, i: int, value: seq<Key>, quantity: seq<nat>)
    requires 0 <= i < |hs|
    ensures Bag(hs, value, quantity)
      == Bag(hs[..i], value, quantity) + Occ(value, quantity, hs[i]) + Bag(hs[i + 1..], value, quantity)
  {
    assert hs == hs[..i] + [hs[i]] + hs[i + 1..];
    BagAppend(hs[..i] + [hs[i]], hs[i + 1..], value, quantity);
    BagAppend(hs[..i], [hs[i]], value, quantity);
    assert [hs[i]][1..] == [];
  }

  /** A value no listed node holds does not occur in the multiset. */
  lemma {:induction false} BagAbsent(hs: seq<Handle>, value: seq<Key>, quantity: seq<nat>, v: int)
    requires forall i :: 0 <= i < |hs| ==> KeyOf(value, hs[i]) != Val(v)
    ensures v !in Bag(hs, value, quantity)
  {
    if hs != [] {
      assert forall i :: 0 <= i < |hs[1..]| ==> hs[1..][i] == hs[i + 1];
      BagAbsent(hs[1..], value, quantity, v);
      assert KeyOf(value, hs[0]) != Val(v);
    }
  }

  /** A multiset loses one element when one occurrence of a member is taken out. */
  lemma CardRemoveOne(m: multiset<int>, v: int)
    requires v in m
    ensures |m - multiset{v}| == |m| - 1
  {
    assert m == (m - multiset{v}) + multiset{v};
  }

  /** In an ascending list, v occurs in the multiset exactly as often as the
      node of v's rank holds it, and not at all when that node does not hold v. */
  lemma BagCount(hs: seq<Handle>, value: seq<Key>, quantity: seq<nat>, v: int)
    requires |value| == |quantity| && Ascending(hs, value)
    ensures var p := Below(hs, value, v);
      Bag(hs, value, quantity)[v] == if p < |hs| && KeyOf(value, hs[p]) == Val(v) then quantity[hs[p]] else 0
  {
    var p := Below(hs, value, v);
    if p < |hs| && KeyOf(value, hs[p]) == Val(v) {
      BagCountHeld(hs, value, quantity, v, p);
    } else {
      BagCountAbsent(hs, value, quantity, v, p);
    }
  }

  lemma BagCountHeld(hs: seq<Handle>, value: seq<Key>, quantity: seq<nat>, v: int, p: nat)
    requires |value| == |quantity| && Ascending(hs, value)
    requires p < |hs| && KeyOf(value, hs[p]) == Val(v)
    requires forall i :: 0 <= i < p ==> Less(KeyOf(value, hs[i]), Val(v))
    ensures Bag(hs, value, quantity)[v] == quantity[hs[p]]
  {
    BagSplit(hs, p, value, quantity);
    var front, rest := hs[..p], hs[p + 1..];
    forall i | 0 <= i < |front| ensures KeyOf(value, front[i]) != Val(v) {
      assert front[i] == hs[i];
      assert Less(KeyOf(value, hs[i]), Val(v));
    }
    BagAbsent(front, value, quantity, v);
    forall i | 0 <= i < |rest| ensures KeyOf(value, rest[i]) != Val(v) {
      assert rest[i] == hs[p + 1 + i];
      assert Less(KeyOf(value, hs[p]), KeyOf(value, hs[p + 1 + i]));
    }
    BagAbsent(rest, value, quantity, v);
  }

  lemma BagCountAbsent(hs: seq<Handle>, value: seq<Key>, quantity: seq<nat>, v: int, p: nat)
    requires Ascending(hs, value)
    requires p <= |hs| && (p < |hs| ==> KeyOf(value, hs[p]) != Val(v) && !Less(KeyOf(value, hs[p]), Val(v)))
    requires forall i :: 0 <= i < p ==> Less(KeyOf(value, hs[i]), Val(v))
    ensures Bag(hs, value, quantity)[v] == 0
  {
    forall i | 0 <= i < |hs| ensures KeyOf(value, hs[i]) != Val(v) {
      if i < p {
        assert Less(KeyOf(value, hs[i]), Val(v));
      } else if p < i {
        assert Less(KeyOf(value, hs[p]), KeyOf(value, hs[i]));
      }
    }
    BagAbsent(hs, value, quantity, v);
  }

  /** The values of the multiset are exactly the values of the listed nodes,
      when every node holds a value at least once. */
  lemma BagMembers(hs: seq<Handle>, value: seq<Key>, quantity: seq<nat>, v: int)
    requires forall i :: 0 <= i < |hs| ==> 0 <= hs[i] < |value| && hs[i] < |quantity| && quantity[hs[i]] >= 1
    ensures v in Bag(hs, value, quantity) <==> exists i :: 0 <= i < |hs| && value[hs[i]] == Val(v)
  {
    if exists i :: 0 <= i < |hs| && value[hs[i]] == Val(v) {
      var i :| 0 <= i < |hs| && value[hs[i]] == Val(v);
      BagSplit(hs, i, value, quantity);
    } else {
      BagAbsent(hs, value, quantity, v);
    }
  }

  /** How often node n holds y. */
  function Held(value: seq<Key>, quantity: seq<nat>, n: Handle, y: int): nat
  {
    if 0 <= n < |value| && n < |quantity| && value[n] == Val(y) then quantity[n] else 0
  }

  /** How often the listed nodes hold y, between them. */
  function Count(hs: seq<Handle>, value: seq<Key>, quantity: seq<nat>, y: int): nat
  {
    if hs == [] then 0 else Held(value, quantity, hs[0], y) + Count(hs[1..], value, quantity, y)
  }

  /** The multiplicity of y in the multiset is how often the nodes hold y. */
  lemma {:induction false} BagIsCount(hs: seq<Handle>, value: seq<Key>, quantity: seq<nat>, y: int)
    ensures Bag(hs, value, quantity)[y] == Count(hs, value, quantity, y)
  {
    if hs != [] {
      BagIsCount(hs[1..], value, quantity, y);
      assert Occ(value, quantity, hs[0])[y] == Held(value, quantity, hs[0], y);
    }
  }

  lemma {:induction false} CountAppend(a: seq<Handle>, b: seq<Handle>, value: seq<Key>, quantity: seq<nat>, y: int)
    ensures Count(a + b, value, quantity, y) == Count(a, value, quantity, y) + Count(b, value, quantity, y)
  {
    if a == [] {
      assert a + b == b;
    } else {
      assert (a + b)[0] == a[0];
      assert (a + b)[1..] == a[1..] + b;
      CountAppend(a[1..], b, value, quantity, y);
    }
  }

  lemma CountSingle(n: Handle, value: seq<Key>, quantity: seq<nat>, y: int)
    ensures Count([n], value, quantity, y) == Held(value, quantity, n, y)
  {
    assert [n][1..] == [];
  }

  /** Changing the quantity of a node that is not listed changes no count. */
  lemma {:induction false} CountUnlisted(hs: seq<Handle>, value: seq<Key>, quantity: seq<nat>, x: Handle, q: nat, y: int)
    requires 0 <= x < |quantity|
    requires forall j :: 0 <= j < |hs| ==> hs[j] != x
    ensures Count(hs, value, quantity[x := q], y) == Count(hs, value, quantity, y)
  {
    if hs != [] {
      assert hs[0] != x;
      assert forall j :: 0 <= j < |hs[1..]| ==> hs[1..][j] == hs[j + 1];
      CountUnlisted(hs[1..], value, quantity, x, q, y);
    }
  }

  /** Appending a node to the arena changes no count of the nodes already there. */
  lemma {:induction false} CountExtend(hs: seq<Handle>, value: seq<Key>, quantity: seq<nat>, k: Key, q: nat, y: int)
    requires |value| == |quantity|
    requires forall j :: 0 <= j < |hs| ==> 0 <= hs[j] < |value|
    ensures Count(hs, value + [k], quantity + [q], y) == Count(hs, value, quantity, y)
  {
    if hs != [] {
      assert forall j :: 0 <= j < |hs[1..]| ==> hs[1..][j] == hs[j + 1];
      CountExtend(hs[1..], value, quantity, k, q, y);
      assert Held(value + [k], quantity + [q], hs[0], y) == Held(value, quantity, hs[0], y);
    }
  }

  /** Raising the quantity of the node at position i by one raises the count
      of its value by one and leaves the other counts. */
  lemma {:induction false} CountIncrement(hs: seq<Handle>, value: seq<Key>, quantity: seq<nat>, i: int, y: int)
    requires 0 <= i < |hs| && 0 <= hs[i] < |quantity|
    requires forall j :: 0 <= j < |hs| && j != i ==> hs[j] != hs[i]
    ensures Count(hs, value, quantity[hs[i] := quantity[hs[i]] + 1], y)
      == Count(hs, value, quantity, y) + Held(value, quantity[hs[i] := 1], hs[i], y)
  {
    var x, rest := hs[i], hs[1..];
    var q1 := quantity[x := quantity[x] + 1];
    if i == 0 {
      forall j | 0 <= j < |rest| ensures rest[j] != x {
        assert rest[j] == hs[j + 1];
      }
      CountUnlisted(rest, value, quantity, x, quantity[x] + 1, y);
    } else {
      forall j | 0 <= j < |rest| && j != i - 1 ensures rest[j] != rest[i - 1] {
        assert rest[j] == hs[j + 1];
      }
      CountIncrement(rest, value, quantity, i - 1, y);
      assert Held(value, q1, hs[0], y) == Held(value, quantity, hs[0], y);
    }
  }

  /** Taking the node at position i out of the list takes its count away. */
  lemma CountRemove(hs: seq<Handle>, value: seq<Key>, quantity: seq<nat>, i: int, y: int)
    requires 0 <= i < |hs|
    ensures Count(hs[..i] + hs[i + 1..], value, quantity, y) + Held(value, quantity, hs[i], y)
      == Count(hs, value, quantity, y)
  {
    assert hs == hs[..i] + [hs[i]] + hs[i + 1..];
    CountAppend(hs[..i] + [hs[i]], hs[i + 1..], value, quantity, y);
    CountAppend(hs[..i], [hs[i]], value, quantity, y);
    CountAppend(hs[..i], hs[i + 1..], value, quantity, y);
    CountSingle(hs[i], value, quantity, y);
  }

  /** The count of a node appended to the arena and put in at position p is
      added to the counts of the other nodes, which do not change. */
  lemma CountInsert(hs: seq<Handle>, value: seq<Key>, quantity: seq<nat>, p: int, k: Key, q: nat, y: int)
    requires 0 <= p <= |hs|
    requires |value| == |quantity|
    requires forall i :: 0 <= i < |hs| ==> 0 <= hs[i] < |value|
    ensures Count(hs[..p] + [|value|] + hs[p..], value + [k], quantity + [q], y)
      == Count(hs, value, quantity, y) + Held(value + [k], quantity + [q], |value|, y)
  {
    var value1, quantity1, n := value + [k], quantity + [q], |value|;
    assert hs == hs[..p] + hs[p..];
    CountAppend(hs[..p], hs[p..], value, quantity, y);
    CountAppend(hs[..p] + [n], hs[p..], value1, quantity1, y);
    CountAppend(hs[..p], [n], value1, quantity1, y);
    CountSingle(n, value1, quantity1, y);
    assert forall j :: 0 <= j < |hs[..p]| ==> hs[..p][j] == hs[j];
    CountExtend(hs[..p], value, quantity, k, q, y);
    assert forall j :: 0 <= j < |hs[p..]| ==> hs[p..][j] == hs[p + j];
    CountExtend(hs[p..], value, quantity, k, q, y);
  }

  lemma BagIncrementAt(hs: seq<Handle>, value: seq<Key>, quantity: seq<nat>, i: int, y: int)
    requires 0 <= i < |hs| && 0 <= hs[i] < |value| && hs[i] < |quantity|
    requires forall j :: 0 <= j < |hs| && j != i ==> hs[j] != hs[i]
    ensures Bag(hs, value, quantity[hs[i] := quantity[hs[i]] + 1])[y]
      == Bag(hs, value, quantity)[y] + if value[hs[i]] == Val(y) then 1 else 0
  {
    BagIsCount(hs, value, quantity[hs[i] := quantity[hs[i]] + 1], y);
    BagIsCount(hs, value, quantity, y);
    CountIncrement(hs, value, quantity, i, y);
  }

  /** Raising one listed node's quantity by one adds its value once more. */
  lemma BagIncrement(hs: seq<Handle>, value: seq<Key>, quantity: seq<nat>, i: int)
    requires 0 <= i < |hs| && 0 <= hs[i] < |value| && hs[i] < |quantity| && value[hs[i]].Val?
    requires forall j :: 0 <= j < |hs| && j != i ==> hs[j] != hs[i]
    ensures Bag(hs, value, quantity[hs[i] := quantity[hs[i]] + 1])
      == Bag(hs, value, quantity) + multiset{value[hs[i]].v}
  {
    var q1 := quantity[hs[i] := quantity[hs[i]] + 1];
    forall y ensures Bag(hs, value, q1)[y] == (Bag(hs, value, quantity) + multiset{value[hs[i]].v})[y] {
      BagIncrementAt(hs, value, quantity, i, y);
    }
  }

  /** Lowering one listed node's quantity by one, from above one, removes one
      occurrence of its value. */
  lemma BagDecrement(hs: seq<Handle>, value: seq<Key>, quantity: seq<nat>, i: int)
    requires 0 <= i < |hs| && 0 <= hs[i] < |value| && hs[i] < |quantity| && value[hs[i]].Val?
    requires quantity[hs[i]] > 1
    requires forall j :: 0 <= j < |hs| && j != i ==> hs[j] != hs[i]
    ensures Bag(hs, value, quantity[hs[i] := quantity[hs[i]] - 1])
      == Bag(hs, value, quantity) - multiset{value[hs[i]].v}
    ensures |Bag(hs, value, quantity[hs[i] := quantity[hs[i]] - 1])| == |Bag(hs, value, quantity)| - 1
  {
    var q1 := quantity[hs[i] := quantity[hs[i]] - 1];
    var v := value[hs[i]].v;
    assert q1[hs[i] := q1[hs[i]] + 1] == quantity;
    forall y ensures Bag(hs, value, q1)[y] == (Bag(hs, value, quantity) - multiset{v})[y] {
      BagIncrementAt(hs, value, q1, i, y);
    }
    BagIncrementAt(hs, value, q1, i, v);
    CardRemoveOne(Bag(hs, value, quantity), v);
  }

  lemma BagRemoveAt(hs: seq<Handle>, value: seq<Key>, quantity: seq<nat>, i: int, y: int)
    requires 0 <= i < |hs| && 0 <= hs[i] < |value| && hs[i] < |quantity| && quantity[hs[i]] == 1
    ensures Bag(hs[..i] + hs[i + 1..], value, quantity)[y] + (if value[hs[i]] == Val(y) then 1 else 0)
      == Bag(hs, value, quantity)[y]
  {
    BagIsCount(hs[..i] + hs[i + 1..], value, quantity, y);
    BagIsCount(hs, value, quantity, y);
    CountRemove(hs, value, quantity, i, y);
  }

  /** A node of quantity one holding v, taken out of the list, takes one
      occurrence of v out of the multiset. */
  lemma BagRemove(hs: seq<Handle>, value: seq<Key>, quantity: seq<nat>, i: int, v: int)
    requires 0 <= i < |hs| && 0 <= hs[i] < |value| && hs[i] < |quantity|
    requires value[hs[i]] == Val(v) && quantity[hs[i]] == 1
    ensures Bag(hs[..i] + hs[i + 1..], value, quantity) == Bag(hs, value, quantity) - multiset{v}
    ensures |Bag(hs[..i] + hs[i + 1..], value, quantity)| == |Bag(hs, value, quantity)| - 1
  {
    var rest := hs[..i] + hs[i + 1..];
    forall y ensures Bag(rest, value, quantity)[y] == (Bag(hs, value, quantity) - multiset{v})[y] {
      BagRemoveAt(hs, value, quantity, i, y);
    }
    BagRemoveAt(hs, value, quantity, i, v);
    CardRemoveOne(Bag(hs, value, quantity), v);
  }

  lemma BagInsertAt(hs: seq<Handle>, value: seq<Key>, quantity: seq<nat>, p: int, v: int, y: int)
    requires 0 <= p <= |hs|
    requires |value| == |quantity|
    requires forall i :: 0 <= i < |hs| ==> 0 <= hs[i] < |value|
    ensures Bag(hs[..p] + [|value|] + hs[p..], value + [Val(v)], quantity + [1])[y]
      == Bag(hs, value, quantity)[y] + if v == y then 1 else 0
  {
    BagIsCount(hs[..p] + [|value|] + hs[p..], value + [Val(v)], quantity + [1], y);
    BagIsCount(hs, value, quantity, y);
    CountInsert(hs, value, quantity, p, Val(v), 1, y);
  }

  /** A node appended to the arena with a value and quantity one, listed at
      position p, adds that value once; the other nodes contribute as before. */
  lemma BagInsert(hs: seq<Handle>, value: seq<Key>, quantity: seq<nat>, p: int, v: int)
    requires 0 <= p <= |hs|
    requires |value| == |quantity|
    requires forall i :: 0 <= i < |hs| ==> 0 <= hs[i] < |value|
    ensures Bag(hs[..p] + [|value|] + hs[p..], value + [Val(v)], quantity + [1])
      == Bag(hs, value, quantity) + multiset{v}
  {
    forall y ensures Bag(hs[..p] + [|value|] + hs[p..], value + [Val(v)], quantity + [1])[y]
      == (Bag(hs, value, quantity) + multiset{v})[y]
    {
      BagInsertAt(hs, value, quantity, p, v, y);
    }
  }
}
