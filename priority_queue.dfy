/** The load queue of priority_queue.py: a list of parcel groups kept in
    non-increasing max_priority order by insertion. */
module Queues {
  import opened Util
  import opened Parcels
  import opened ParcelGroups

  /** The max_priority of each group, in queue order. */
  ghost function Keys(q: seq<ParcelGroup>): (ks: seq<ExtInt>)
    reads q
    ensures |ks| == |q|
    ensures forall i :: 0 <= i < |q| ==> ks[i] == q[i].maxPriority
  {
    seq(|q|, i reads q requires 0 <= i < |q| => q[i].maxPriority)
  }

  predicate NonIncreasing(ks: seq<ExtInt>) {
    forall i, j :: 0 <= i < j < |ks| ==> ks[j].Le(ks[i])
  }

  /** Where push puts a new item of priority k: before the first key that is
      strictly smaller than k, or at the end. */
  function InsertIndex(ks: seq<ExtInt>, k: ExtInt): (i: nat)
    ensures i <= |ks|
    ensures forall j :: 0 <= j < i ==> !ks[j].Lt(k)
    ensures i < |ks| ==> ks[i].Lt(k)
  {
    if ks == [] then 0
    else if ks[0].Lt(k) then 0
    else 1 + InsertIndex(ks[1..], k)
  }

  function Insert<T>(s: seq<T>, i: nat, x: T): (r: seq<T>)
    requires i <= |s|
    ensures |r| == |s| + 1 && r[i] == x
    ensures r[..i] == s[..i] && r[i + 1..] == s[i..]
  {
    s[..i] + [x] + s[i..]
  }

  /** Inserting adds exactly the one element. */
  lemma InsertContents<T>(s: seq<T>, i: nat, x: T)
    requires i <= |s|
    ensures multiset(Insert(s, i, x)) == multiset(s) + multiset{x}
    ensures forall y :: y in Insert(s, i, x) ==> y in s || y == x
  {
    assert s == s[..i] + s[i..];
    var a, b := s[..i], s[i..];
    assert Insert(s, i, x) == a + [x] + b;
    forall y | y in a + [x] + b ensures y in s || y == x {
      assert y in a || y == x || y in b;
    }
  }

  lemma InsertKeepsOrderIf(ks: seq<ExtInt>, k: ExtInt)
    ensures NonIncreasing(ks) ==> NonIncreasing(Insert(ks, InsertIndex(ks, k), k))
  {
    if NonIncreasing(ks) {
      InsertKeepsOrder(ks, k);
    }
  }

  /** Inserting at InsertIndex keeps a non-increasing sequence
      non-increasing (priority_queue.py:28-38). */
  lemma InsertKeepsOrder(ks: seq<ExtInt>, k: ExtInt)
    requires NonIncreasing(ks)
    ensures NonIncreasing(Insert(ks, InsertIndex(ks, k), k))
  {
    var i := InsertIndex(ks, k);
    var r := Insert(ks, i, k);
    forall a, b | 0 <= a < b < |r| ensures r[b].Le(r[a]) {
      if a < i && b == i {
        LtStrictTotalOrder(ks[a], k, k);
      } else if a < i && b > i {
        assert r[a] == ks[a] && r[b] == ks[b - 1];
      } else if a == i {
        assert r[b] == ks[b - 1];
        LtStrictTotalOrder(ks[b - 1], ks[i], k);
        if b - 1 > i {
          assert ks[b - 1].Le(ks[i]);
        }
      } else if a > i {
        assert r[a] == ks[a - 1] && r[b] == ks[b - 1];
      } else {
        assert r[a] == ks[a] && r[b] == ks[b];
      }
    }
  }

  /** In a non-increasing queue the new item goes after every key at least
      its own, ties included, and before every smaller key: equal
      priorities leave in the order they were pushed (priority_queue.py:31). */
  lemma InsertIndexSplits(ks: seq<ExtInt>, k: ExtInt)
    requires NonIncreasing(ks)
    ensures forall j :: 0 <= j < InsertIndex(ks, k) ==> k.Le(ks[j])
    ensures forall j :: InsertIndex(ks, k) <= j < |ks| ==> ks[j].Lt(k)
  {
    var i := InsertIndex(ks, k);
    forall j | i <= j < |ks| ensures ks[j].Lt(k) {
      if j > i {
        LtStrictTotalOrder(ks[j], ks[i], k);
      }
    }
  }

  /** Removing the first occurrence of x (list.remove, by identity). */
  function RemoveFirst<T(==)>(s: seq<T>, x: T): (r: seq<T>)
    ensures x in s ==> |r| == |s| - 1
    ensures x !in s ==> r == s
    ensures forall y :: y in r ==> y in s
  {
    if s == [] then []
    else if s[0] == x then s[1..]
    else [s[0]] + RemoveFirst(s[1..], x)
  }

  predicate Distinct<T(==)>(s: seq<T>) {
    forall i, j :: 0 <= i < j < |s| ==> s[i] != s[j]
  }

  /** Removing a group keeps a non-increasing queue non-increasing: the
      queue stays sorted from largest to smallest (priority_queue.py:40-49). */
  lemma {:induction false} RemoveFirstKeepsOrder(s: seq<ParcelGroup>, x: ParcelGroup)
    requires NonIncreasing(Keys(s))
    ensures NonIncreasing(Keys(RemoveFirst(s, x)))
  {
    if s != [] && s[0] != x {
      var tail := s[1..];
      assert NonIncreasing(Keys(tail)) by {
        forall i, j | 0 <= i < j < |tail| ensures tail[j].maxPriority.Le(tail[i].maxPriority) {
          assert tail[i] == s[i + 1] && tail[j] == s[j + 1];
        }
      }
      RemoveFirstKeepsOrder(tail, x);
      var rest := RemoveFirst(tail, x);
      var r := [s[0]] + rest;
      assert r == RemoveFirst(s, x);
      forall a, b | 0 <= a < b < |r| ensures r[b].maxPriority.Le(r[a].maxPriority) {
        if a == 0 {
          assert r[b] == rest[b - 1] && r[b] in tail;
          var j :| 0 <= j < |tail| && tail[j] == r[b];
          assert tail[j] == s[j + 1];
        } else {
          assert r[a] == rest[a - 1] && r[b] == rest[b - 1];
        }
      }
    }
  }

  /** The two sequences hold the same elements, in any order and number. */
  predicate SameElements<T(==)>(a: seq<T>, b: seq<T>) {
    (forall i :: 0 <= i < |a| ==> a[i] in b) && (forall j :: 0 <= j < |b| ==> b[j] in a)
  }

  /** In a queue of distinct groups, remove takes the group out and keeps
      every other group, in order (priority_queue.py:40-44). */
  lemma {:induction false} RemoveFirstDistinct<T>(s: seq<T>, x: T)
    requires Distinct(s)
    ensures Distinct(RemoveFirst(s, x))
    ensures x !in RemoveFirst(s, x)
    ensures forall y :: y != x ==> (y in RemoveFirst(s, x) <==> y in s)
  {
    if s != [] {
      var tail := s[1..];
      assert Distinct(tail);
      assert s[0] !in tail by {
        forall j | 0 <= j < |tail| ensures tail[j] != s[0] {
          assert tail[j] == s[j + 1];
        }
      }
      if s[0] != x {
        RemoveFirstDistinct(tail, x);
        var rest := RemoveFirst(tail, x);
        var r := [s[0]] + rest;
        assert r == RemoveFirst(s, x);
        forall a, b | 0 <= a < b < |r| ensures r[a] != r[b] {
          if a == 0 {
            assert r[b] == rest[b - 1] && r[b] in rest;
          } else {
            assert r[a] == rest[a - 1] && r[b] == rest[b - 1];
          }
        }
        forall y | y != x ensures y in r <==> y in s {
          assert y in s <==> y == s[0] || y in tail;
        }
        assert x in r <==> x == s[0] || x in rest;
      }
    }
  }

  /** The parcels held by a sequence of groups, counted group by group. */
  function TotalParcels(q: seq<ParcelGroup>): nat
    reads q`parcels
  {
    if q == [] then 0 else TotalParcels(q[..|q| - 1]) + |q[|q| - 1].parcels|
  }

  lemma {:induction false} TotalParcelsAppend(a: seq<ParcelGroup>, b: seq<ParcelGroup>)
    ensures TotalParcels(a + b) == TotalParcels(a) + TotalParcels(b)
    decreases |b|
  {
    if b != [] {
      var m := |b| - 1;
      assert (a + b)[..|a + b| - 1] == a + b[..m];
      TotalParcelsAppend(a, b[..m]);
    } else {
      assert a + b == a;
    }
  }

  /** The count depends on the groups' parcels alone: where none changed,
      it is as it was. */
  twostate lemma {:induction false} TotalParcelsKept(q: seq<ParcelGroup>)
    requires forall g :: g in q ==> old(g.parcels) == g.parcels
    ensures TotalParcels(q) == old(TotalParcels(q))
    decreases |q|
  {
    if q != [] {
      assert q[|q| - 1] in q;
      TotalParcelsKept(q[..|q| - 1]);
    }
  }

  /** Taking position j out of a sequence of distinct elements leaves
      them distinct, and leaves every element but the one taken. */
  lemma DistinctRemoved<T>(s: seq<T>, j: nat)
    requires Distinct(s) && j < |s|
    ensures Distinct(s[..j] + s[j + 1..])
    ensures forall x :: x in s[..j] + s[j + 1..] <==> x in s && x != s[j]
  {
    var rest := s[..j] + s[j + 1..];
    assert forall k :: 0 <= k < |rest| ==> rest[k] == s[if k < j then k else k + 1];
    forall x | x in s && x != s[j] ensures x in rest {
      var k :| 0 <= k < |s| && s[k] == x;
      assert rest[if k < j then k else k - 1] == x;
    }
  }

  /** The parcels of a sequence are those of group j and of the rest. */
  lemma TotalParcelsWithout(b: seq<ParcelGroup>, j: nat)
    requires j < |b|
    ensures TotalParcels(b) == TotalParcels(b[..j] + b[j + 1..]) + |b[j].parcels|
  {
    var x := b[j];
    assert b == b[..j] + [x] + b[j + 1..];
    TotalParcelsAppend(b[..j] + [x], b[j + 1..]);
    TotalParcelsAppend(b[..j], [x]);
    TotalParcelsAppend(b[..j], b[j + 1..]);
    assert TotalParcels([x]) == |x.parcels| by {
      assert [x][..0] == [];
    }
  }

  /** Two sequences of as many distinct groups, holding the same groups
      in any order, hold the same number of parcels. */
  lemma {:induction false} TotalParcelsRearranged(a: seq<ParcelGroup>, b: seq<ParcelGroup>)
    requires Distinct(a) && Distinct(b) && |a| == |b|
    requires forall g :: g in a <==> g in b
    ensures TotalParcels(a) == TotalParcels(b)
    decreases |a|
  {
    if a != [] {
      var m := |a| - 1;
      var x := a[m];
      assert x in b;
      var j :| 0 <= j < |b| && b[j] == x;
      var rest := b[..j] + b[j + 1..];
      TotalParcelsWithout(b, j);
      DistinctRemoved(a, m);
      assert a[m + 1..] == [] && a[..m] + a[m + 1..] == a[..m];
      DistinctRemoved(b, j);
      forall g ensures g in a[..m] <==> g in rest {
        assert g in a[..m] <==> g in a && g != x;
        assert g in rest <==> g in b && g != x;
      }
      TotalParcelsRearranged(a[..m], rest);
    }
  }

  /** Some group of `q` holds a parcel with this id. */
  ghost predicate Holds(q: seq<ParcelGroup>, id: int)
    reads q
  {
    exists i :: 0 <= i < |q| && HasId(q[i].parcels, id)
  }

  /** The queue after push: unchanged when the group is already in it (by
      identity), else the group inserted at InsertIndex. */
  ghost function PushSpec(q: seq<ParcelGroup>, g: ParcelGroup): (r: seq<ParcelGroup>)
    reads q, g
    ensures g in r
    ensures g in q ==> r == q
    ensures g !in q ==> |r| == |q| + 1 && multiset(r) == multiset(q) + multiset{g}
    ensures forall i :: 0 <= i < |r| ==> r[i] in q || r[i] == g
    ensures forall x :: x in q ==> x in r
  {
    if g in q then q
    else
      var i := InsertIndex(Keys(q), g.maxPriority);
      InsertContents(q, i, g);
      var r := Insert(q, i, g);
      assert forall x :: x in q ==> x in multiset(r);
      assert forall k :: 0 <= k < |r| ==> r[k] in r;
      r
  }

  /** push keeps a non-increasing queue non-increasing, whatever the new
      group's priority (priority_queue.py:28-38). */
  lemma PushKeepsOrder(q: seq<ParcelGroup>, g: ParcelGroup)
    requires NonIncreasing(Keys(q))
    ensures NonIncreasing(Keys(PushSpec(q, g)))
  {
    if g !in q {
      var i := InsertIndex(Keys(q), g.maxPriority);
      KeysInsert(q, i, g);
      InsertKeepsOrder(Keys(q), g.maxPriority);
    }
  }

  /** The queue after pushing each group of `gs` in turn. */
  ghost function PushAll(q: seq<ParcelGroup>, gs: seq<ParcelGroup>): (r: seq<ParcelGroup>)
    reads q, gs
    ensures forall i :: 0 <= i < |r| ==> r[i] in q || r[i] in gs
    decreases |gs|
  {
    if gs == [] then q
    else
      var m := |gs| - 1;
      assert forall x :: x in gs[..m] ==> x in gs;
      PushSpec(PushAll(q, gs[..m]), gs[m])
  }

  /** Pushing a whole load keeps a non-increasing queue non-increasing. */
  lemma {:induction false} PushAllKeepsOrder(q: seq<ParcelGroup>, gs: seq<ParcelGroup>)
    requires NonIncreasing(Keys(q))
    ensures NonIncreasing(Keys(PushAll(q, gs)))
    decreases |gs|
  {
    if gs != [] {
      var m := |gs| - 1;
      PushAllKeepsOrder(q, gs[..m]);
      PushKeepsOrder(PushAll(q, gs[..m]), gs[m]);
    }
  }

  /** After pushing a load, the queue holds what it held and every group of
      the load, and nothing else. */
  lemma {:induction false} PushAllMembers(q: seq<ParcelGroup>, gs: seq<ParcelGroup>)
    ensures forall g :: g in PushAll(q, gs) <==> g in q || g in gs
    decreases |gs|
  {
    if gs != [] {
      var m := |gs| - 1;
      var front := PushAll(q, gs[..m]);
      PushAllMembers(q, gs[..m]);
      var r := PushSpec(front, gs[m]);
      assert PushAll(q, gs) == r;
      forall g ensures g in r <==> g in q || g in gs {
        if g in r {
          var i :| 0 <= i < |r| && r[i] == g;
          assert g in front || g == gs[m];
        }
        if g in gs {
          var k :| 0 <= k < |gs| && gs[k] == g;
          if k < m {
            assert g in gs[..m];
          }
        }
      }
    }
  }

  class PriorityQueue {
    var queue: seq<ParcelGroup>

    /** push never adds a group twice. */
    ghost predicate Valid()
      reads this
    {
      Distinct(queue)
    }

    constructor ()
      ensures Valid() && queue == []
    {
      queue := [];
    }

    method Push(item: ParcelGroup)
      requires Valid()
      modifies this
      ensures Valid()
      ensures item in old(queue) ==> queue == old(queue)
      ensures item !in old(queue) ==>
        queue == Insert(old(queue), InsertIndex(Keys(old(queue)), item.maxPriority), item)
      ensures NonIncreasing(Keys(old(queue))) ==> NonIncreasing(Keys(queue))
      ensures queue == old(PushSpec(queue, item))
    {
      if item !in queue {
        ghost var ks := Keys(queue);
        var added := false;
        var index := 0;
        while !added && index < |queue|
          invariant 0 <= index <= |queue|
          invariant !added ==> queue == old(queue) && forall j :: 0 <= j < index ==> !ks[j].Lt(item.maxPriority)
          invariant added ==> index == InsertIndex(ks, item.maxPriority)
                              && queue == Insert(old(queue), index, item)
          decreases if added then 0 else 1 + |queue| - index
        {
          if queue[index].maxPriority.Lt(item.maxPriority) {
            InsertIndexAt(ks, item.maxPriority, index);
            queue := queue[..index] + [item] + queue[index..];
            added := true;
          } else {
            index := index + 1;
          }
        }
        if !added {
          InsertIndexAt(ks, item.maxPriority, index);
          queue := queue + [item];
          assert queue == Insert(old(queue), index, item);
        }
        assert ks == Keys(old(queue));
        KeysInsert(old(queue), index, item);
        InsertDistinct(old(queue), index, item);
        if NonIncreasing(ks) {
          InsertKeepsOrder(ks, item.maxPriority);
        }
      }
    }

    method Remove(item: ParcelGroup)
      requires Valid()
      modifies this
      ensures Valid()
      ensures queue == RemoveFirst(old(queue), item)
      ensures item !in queue
      ensures NonIncreasing(Keys(old(queue))) ==> NonIncreasing(Keys(queue))
    {
      if item in queue {
        RemoveFirstDistinct(queue, item);
        if NonIncreasing(Keys(queue)) {
          RemoveFirstKeepsOrder(queue, item);
        }
        queue := RemoveFirst(queue, item);
      }
    }

    method Pop() returns (r: ParcelGroup?)
      requires Valid()
      modifies this
      ensures Valid()
      ensures old(queue) == [] ==> r == null && queue == []
      ensures old(queue) != [] ==> r == old(queue)[0] && queue == old(queue)[1..]
    {
      if |queue| > 0 {
        r := queue[0];
        queue := queue[1..];
      } else {
        r := null;
      }
    }

    /** The front group, or null when empty; changes nothing. */
    method Peek() returns (r: ParcelGroup?)
      ensures queue == [] <==> r == null
      ensures queue != [] ==> r == queue[0]
    {
      r := if |queue| > 0 then queue[0] else null;
    }

    /** The number of parcels, not of groups (priority_queue.py:60-66). */
    method Count() returns (r: nat)
      ensures r == TotalParcels(queue)
    {
      r := 0;
      var i := 0;
      while i < |queue|
        invariant 0 <= i <= |queue|
        invariant r == TotalParcels(queue[..i])
      {
        assert queue[..i + 1][..i] == queue[..i];
        r := r + |queue[i].parcels|;
        i := i + 1;
      }
      assert queue[..i] == queue;
    }

    /** Some group holds a parcel with `item`'s id (parcel equality is by id). */
    method Contains(item: Parcel) returns (r: bool)
      ensures r <==> Holds(queue, item.id)
    {
      var i := 0;
      while i < |queue|
        invariant 0 <= i <= |queue|
        invariant forall k :: 0 <= k < i ==> !HasId(queue[k].parcels, item.id)
      {
        var ps := queue[i].parcels;
        var j := 0;
        while j < |ps|
          invariant 0 <= j <= |ps|
          invariant forall k :: 0 <= k < j ==> ps[k].id != item.id
        {
          if ps[j].id == item.id {
            return true;
          }
          j := j + 1;
        }
        i := i + 1;
      }
      r := false;
    }

    function Items(): seq<ParcelGroup>
      reads this
    {
      queue
    }
  }

  lemma KeysInsert(q: seq<ParcelGroup>, i: nat, g: ParcelGroup)
    requires i <= |q|
    ensures Keys(Insert(q, i, g)) == Insert(Keys(q), i, g.maxPriority)
  {
    var r := Insert(q, i, g);
    var a := Keys(r);
    var b := Insert(Keys(q), i, g.maxPriority);
    assert |a| == |b|;
    forall j | 0 <= j < |a| ensures a[j] == b[j] {
      if j < i {
        assert r[j] == q[j];
      } else if j > i {
        assert r[j] == q[j - 1];
      }
    }
  }

  /** Inserting a new element keeps the elements distinct. */
  lemma InsertDistinct<T>(s: seq<T>, i: nat, x: T)
    requires i <= |s| && Distinct(s) && x !in s
    ensures Distinct(Insert(s, i, x))
  {
    var r := Insert(s, i, x);
    assert forall j :: 0 <= j < |r| ==> r[j] == (if j < i then s[j] else if j == i then x else s[j - 1]);
    forall a, b | 0 <= a < b < |r| ensures r[a] != r[b] {
      if a == i {
        assert r[b] in s;
      } else if b == i {
        assert r[a] in s;
      }
    }
  }

  /** The loop's first strictly-smaller key, or the end, is InsertIndex. */
  lemma {:induction false} InsertIndexAt(ks: seq<ExtInt>, k: ExtInt, i: nat)
    requires i <= |ks|
    requires forall j :: 0 <= j < i ==> !ks[j].Lt(k)
    requires i < |ks| ==> ks[i].Lt(k)
    ensures InsertIndex(ks, k) == i
  {
    if i > 0 {
      InsertIndexAt(ks[1..], k, i - 1);
    }
  }
}
