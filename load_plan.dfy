/** The rules loader.py plans truck loads by, as functions on values: the
    deadline score, the linked parcels, the descending sort, the overflow
    trim, the nearest-neighbour route and the share of deadline parcels per
    truck. The Loader class (loader.dfy) is proved against them. */
module LoadPlans {
  import opened Util
  import opened Graphs
  import opened Parcels
  import opened ParcelGroups
  import opened Queues

  /** The members of a slice are members of the sequence. */
  lemma SliceMembers<T>(s: seq<T>, k: nat)
    requires k <= |s|
    ensures forall x :: x in s[..k] ==> x in s
    ensures forall x :: x in s[k..] ==> x in s
  {
  }

  // ---------------------------------------------------------------------
  // set_parcel_priority (loader.py:22-27)

  /** math.ceil(a / b) for integers a and b > 0. */
  function CeilDiv(a: int, b: int): (c: int)
    requires b > 0
    ensures (c - 1) * b < a <= c * b
  {
    var q := (-a) / b;
    assert -a == q * b + (-a) % b;
    -q
  }

  /** The priority of a parcel: 0 without a deadline, else five less the
      number of started hours from 8:00 to the deadline. */
  function DeadlinePriority(deadline: Option<int>): (r: ExtInt)
    ensures deadline.None? ==> r == Fin(0)
    ensures deadline.Some? ==> r.Fin? && (4 - r.n) * 60 < deadline.value - 800 <= (5 - r.n) * 60
  {
    if deadline.None? then Fin(0) else Fin(5 - CeilDiv(deadline.value - 800, 60))
  }

  /** An earlier deadline never scores lower. */
  lemma DeadlinePriorityMonotone(d1: int, d2: int)
    requires d1 <= d2
    ensures DeadlinePriority(Some(d2)).Le(DeadlinePriority(Some(d1)))
  {
  }

  /** The deadlines of the day: 9:00 AM scores 3, 10:30 AM scores 1, and a
      parcel due at 8:00 AM scores 5. */
  lemma DeadlinePriorityExamples()
    ensures DeadlinePriority(Some(800)) == Fin(5)
    ensures DeadlinePriority(Some(900)) == Fin(3)
    ensures DeadlinePriority(Some(1030)) == Fin(1)
    ensures DeadlinePriority(Some(1700)) == Fin(-10)
    ensures DeadlinePriority(None) == Fin(0)
  {
  }

  /** A deadline after 11:00 scores below a parcel with no deadline at
      all, so a 5:00 PM parcel is loaded after the end-of-day ones. */
  lemma LateDeadlineBelowEndOfDay(d: int)
    ensures DeadlinePriority(Some(d)).Lt(DeadlinePriority(None)) <==> d > 1100
  {
  }

  // ---------------------------------------------------------------------
  // confirm_links and get_all_linked_parcels (loader.py:41-60)

  /** Some parcel of `ps` lists `id` among its companions. */
  ghost predicate Named(ps: seq<Parcel>, id: int)
    reads ps`companions
  {
    exists i :: 0 <= i < |ps| && id in ps[i].companions
  }

  /** The linked parcels of `ps`, in order. */
  ghost function LinkedOf(ps: seq<Parcel>): seq<Parcel>
    reads ps
  {
    if ps == [] then []
    else LinkedOf(ps[..|ps| - 1]) + (if ps[|ps| - 1].linked then [ps[|ps| - 1]] else [])
  }

  lemma {:induction false} LinkedOfMembers(ps: seq<Parcel>)
    ensures forall p :: p in LinkedOf(ps) <==> p in ps && p.linked
  {
    if ps != [] {
      var front := ps[..|ps| - 1];
      LinkedOfMembers(front);
      assert ps == front + [ps[|ps| - 1]];
    }
  }

  lemma LinkedOfIn(ps: seq<Parcel>)
    ensures forall p :: p in LinkedOf(ps) ==> p in ps
  {
    LinkedOfMembers(ps);
  }

  // ---------------------------------------------------------------------
  // remaining_parcels.sort(reverse=True) (loader.py:115)

  /** The priority of each parcel, in order. */
  function Priorities(ps: seq<Parcel>): (ks: seq<ExtInt>)
    reads ps
    ensures |ks| == |ps|
    ensures forall i :: 0 <= i < |ps| ==> ks[i] == ps[i].priority
  {
    seq(|ps|, i reads ps requires 0 <= i < |ps| => ps[i].priority)
  }

  lemma PrioritiesInsert(ps: seq<Parcel>, i: nat, p: Parcel)
    requires i <= |ps|
    ensures Priorities(Insert(ps, i, p)) == Insert(Priorities(ps), i, p.priority)
  {
    var r := Insert(ps, i, p);
    assert forall j :: 0 <= j < |r| ==> r[j] == (if j < i then ps[j] else if j == i then p else ps[j - 1]);
  }

  /** One step of the sort: `p` goes after every parcel of at least its
      priority and before the first of lower priority. */
  function InsertByPriority(sorted: seq<Parcel>, p: Parcel, ghost within: seq<Parcel>): (r: seq<Parcel>)
    requires p in within && forall x :: x in sorted ==> x in within
    reads set q | q in within
    ensures multiset(r) == multiset(sorted) + multiset{p}
    ensures NonIncreasing(Priorities(sorted)) ==> NonIncreasing(Priorities(r))
    ensures forall x :: x in r ==> x in sorted || x == p
  {
    var i := InsertIndex(Priorities(sorted), p.priority);
    InsertKeepsOrderIf(Priorities(sorted), p.priority);
    PrioritiesInsert(sorted, i, p);
    InsertContents(sorted, i, p);
    Insert(sorted, i, p)
  }

  /** A stable sort by descending priority: each parcel in turn goes after
      every parcel of at least its priority, as Python's sort(reverse=True)
      keeps equal parcels in their original order. */
  function SortDescending(ps: seq<Parcel>): (r: seq<Parcel>)
    reads set p | p in ps
    ensures multiset(r) == multiset(ps)
    ensures forall x :: x in r ==> x in ps
  {
    if ps == [] then []
    else
      var front, last := ps[..|ps| - 1], ps[|ps| - 1];
      assert ps == front + [last];
      SliceMembers(ps, |ps| - 1);
      var sorted := SortDescending(front);
      InsertByPriority(sorted, last, ps)
  }

  /** The sort leaves the priorities non-increasing. */
  lemma {:induction false} SortDescendingOrdered(ps: seq<Parcel>)
    ensures NonIncreasing(Priorities(SortDescending(ps)))
  {
    if ps != [] {
      SortDescendingOrdered(ps[..|ps| - 1]);
    }
  }

  /** The parcels of `ps` of priority `k`, in their order in `ps`. */
  ghost function OfPriority(ps: seq<Parcel>, k: ExtInt): seq<Parcel>
    reads ps
  {
    if ps == [] then []
    else OfPriority(ps[..|ps| - 1], k) + (if ps[|ps| - 1].priority == k then [ps[|ps| - 1]] else [])
  }

  lemma {:induction false} OfPriorityAppend(a: seq<Parcel>, b: seq<Parcel>, k: ExtInt)
    ensures OfPriority(a + b, k) == OfPriority(a, k) + OfPriority(b, k)
  {
    if b == [] {
      assert a + b == a;
    } else {
      var front := b[..|b| - 1];
      assert (a + b)[..|a + b| - 1] == a + front;
      assert (a + b)[|a + b| - 1] == b[|b| - 1];
      OfPriorityAppend(a, front, k);
    }
  }

  lemma {:induction false} OfPriorityBelow(ps: seq<Parcel>, k: ExtInt)
    requires forall j :: 0 <= j < |ps| ==> ps[j].priority.Lt(k)
    ensures OfPriority(ps, k) == []
  {
    if ps != [] {
      OfPriorityBelow(ps[..|ps| - 1], k);
    }
  }

  /** Inserting `x` after every key at least its own and before every
      smaller key adds it after the parcels of its priority. */
  lemma OfPriorityInsert(s: seq<Parcel>, i: nat, x: Parcel, k: ExtInt)
    requires i <= |s|
    requires forall j :: i <= j < |s| ==> s[j].priority.Lt(x.priority)
    ensures OfPriority(Insert(s, i, x), k) == OfPriority(s, k) + (if x.priority == k then [x] else [])
  {
    OfPriorityAppend(s[..i] + [x], s[i..], k);
    OfPriorityAppend(s[..i], [x], k);
    assert [x][..0] == [];
    assert s == s[..i] + s[i..];
    OfPriorityAppend(s[..i], s[i..], k);
    if k == x.priority {
      OfPriorityBelow(s[i..], k);
    }
  }

  /** The sort is stable: for every priority, the parcels of that priority
      come out in the order they went in. */
  lemma {:induction false} SortDescendingStable(ps: seq<Parcel>, k: ExtInt)
    ensures OfPriority(SortDescending(ps), k) == OfPriority(ps, k)
  {
    if ps != [] {
      var front, x := ps[..|ps| - 1], ps[|ps| - 1];
      var sorted := SortDescending(front);
      SortDescendingStable(front, k);
      SortDescendingOrdered(front);
      var i := InsertIndex(Priorities(sorted), x.priority);
      InsertIndexSplits(Priorities(sorted), x.priority);
      assert SortDescending(ps) == Insert(sorted, i, x);
      OfPriorityInsert(sorted, i, x, k);
    }
  }

  // ---------------------------------------------------------------------
  // The greedy loops of build_parcel_list (loader.py:117-140), on values.
  // A parcel is seen through its Entry, and a load of complete groups
  // through its destinations: the group bound for n holds the table
  // parcels bound for n (Loaders.Complete), so the destinations fix the
  // load.

  /** What build_parcel_list reads of a parcel: its id (the key of its
      equality), its node and whether it is linked. */
  datatype Entry = Entry(id: int, node: Node?, linked: bool)

  ghost function EntryOf(p: Parcel): Entry
    reads p
  {
    Entry(p.id, p.deliveryNode, p.linked)
  }

  /** The entry of each parcel, in order. */
  ghost function Entries(ps: seq<Parcel>): (es: seq<Entry>)
    reads ps
    ensures |es| == |ps|
  {
    if ps == [] then []
    else
      SliceMembers(ps, |ps| - 1);
      Entries(ps[..|ps| - 1]) + [EntryOf(ps[|ps| - 1])]
  }

  lemma {:induction false} EntriesIndex(ps: seq<Parcel>)
    ensures forall i :: 0 <= i < |ps| ==> Entries(ps)[i] == EntryOf(ps[i])
  {
    if ps != [] {
      EntriesIndex(ps[..|ps| - 1]);
    }
  }

  lemma {:induction false} EntryAt(ps: seq<Parcel>, i: nat)
    requires i < |ps|
    ensures Entries(ps)[i] == EntryOf(ps[i])
  {
    if i < |ps| - 1 {
      EntryAt(ps[..|ps| - 1], i);
    }
  }

  lemma EntriesAppend(a: seq<Parcel>, b: seq<Parcel>)
    ensures Entries(a + b) == Entries(a) + Entries(b)
  {
    EntriesIndex(a);
    EntriesIndex(b);
    EntriesIndex(a + b);
  }

  /** The linked entries of `t`, in order. */
  function LinkedEntries(t: seq<Entry>): seq<Entry>
  {
    if t == [] then []
    else LinkedEntries(t[..|t| - 1]) + (if t[|t| - 1].linked then [t[|t| - 1]] else [])
  }

  /** get_all_linked_parcels seen through entries. */
  lemma {:induction false} EntriesLinked(ps: seq<Parcel>)
    ensures Entries(LinkedOf(ps)) == LinkedEntries(Entries(ps))
  {
    if ps != [] {
      var front := ps[..|ps| - 1];
      EntriesLinked(front);
      assert Entries(ps)[..|ps| - 1] == Entries(front);
      var x := ps[|ps| - 1];
      var tail := if x.linked then [x] else [];
      EntriesAppend(LinkedOf(front), tail);
    }
  }

  /** The ids of the entries of `t` bound for `n`. */
  ghost function IdsAt(t: seq<Entry>, n: Node?): set<int>
  {
    if t == [] then {}
    else IdsAt(t[..|t| - 1], n) + (if t[|t| - 1].node == n then {t[|t| - 1].id} else {})
  }

  /** An id is among IdsAt exactly when some entry bound for `n` has it. */
  lemma {:induction false} IdsAtMembers(t: seq<Entry>, n: Node?)
    ensures forall id :: id in IdsAt(t, n) <==> exists e :: e in t && e.node == n && e.id == id
  {
    if t != [] {
      var front := t[..|t| - 1];
      IdsAtMembers(front, n);
      assert t == front + [t[|t| - 1]];
    }
  }

  /** The ids of the entries bound for `n` are those of the parcels. */
  lemma EntriesIds(ps: seq<Parcel>, n: Node?)
    ensures IdsAt(Entries(ps), n) == set q | q in ps && q.deliveryNode == n :: q.id
  {
    var t := Entries(ps);
    EntriesIndex(ps);
    IdsAtMembers(t, n);
    forall id | id in IdsAt(t, n) ensures exists q :: q in ps && q.deliveryNode == n && q.id == id {
      var e :| e in t && e.node == n && e.id == id;
      var i :| 0 <= i < |t| && t[i] == e;
      assert ps[i] in ps && EntryOf(ps[i]) == e;
    }
    forall q | q in ps && q.deliveryNode == n ensures q.id in IdsAt(t, n) {
      var i :| 0 <= i < |ps| && ps[i] == q;
      assert t[i] in t && t[i] == EntryOf(q);
    }
  }

  /** check_duplicates: a group of the load bound for `nodes` holds `id`. */
  ghost predicate HeldAt(t: seq<Entry>, nodes: seq<Node?>, id: int)
  {
    nodes != [] && (HeldAt(t, nodes[..|nodes| - 1], id) || id in IdsAt(t, nodes[|nodes| - 1]))
  }

  /** HeldAt holds when one of the groups bound for `nodes` has the id. */
  lemma {:induction false} HeldAtSome(t: seq<Entry>, nodes: seq<Node?>, id: int)
    ensures HeldAt(t, nodes, id) <==> exists i :: 0 <= i < |nodes| && id in IdsAt(t, nodes[i])
  {
    if nodes != [] {
      var front := nodes[..|nodes| - 1];
      HeldAtSome(t, front, id);
      if HeldAt(t, front, id) {
        var i :| 0 <= i < |front| && id in IdsAt(t, front[i]);
        assert nodes[i] == front[i];
      }
      if i :| 0 <= i < |nodes| && id in IdsAt(t, nodes[i]) {
        if i < |front| {
          assert front[i] == nodes[i];
        }
      }
    }
  }

  /** get_load_count of the load bound for `nodes`. */
  ghost function CountAt(t: seq<Entry>, nodes: seq<Node?>): nat
  {
    if nodes == [] then 0
    else CountAt(t, nodes[..|nodes| - 1]) + |IdsAt(t, nodes[|nodes| - 1])|
  }

  /** A group for `p` joins the load unless a group already holds it. */
  ghost function AddAt(t: seq<Entry>, nodes: seq<Node?>, p: Entry): seq<Node?>
  {
    if HeldAt(t, nodes, p.id) then nodes else nodes + [p.node]
  }

  /** The loop over get_all_linked_parcels: each of `lps` in turn. */
  ghost function ExpandAt(t: seq<Entry>, nodes: seq<Node?>, lps: seq<Entry>): seq<Node?>
    decreases |lps|
  {
    if lps == [] then nodes else ExpandAt(t, AddAt(t, nodes, lps[0]), lps[1..])
  }

  /** A candidate taken into a load that is not full: nothing when the
      load already holds it; otherwise its group, and then, for a linked
      candidate, the groups of the linked parcels of the table. */
  ghost function TakeAt(t: seq<Entry>, nodes: seq<Node?>, c: Entry): seq<Node?>
  {
    if HeldAt(t, nodes, c.id) then nodes
    else if c.linked then ExpandAt(t, nodes + [c.node], LinkedEntries(t))
    else nodes + [c.node]
  }

  /** TakeAt as the candidate test computes it: the candidate's group,
      then the linked expansion exactly when a linked candidate's group
      joined. */
  lemma TakeOutcome(t: seq<Entry>, nodes: seq<Node?>, mid: seq<Node?>, after: seq<Node?>, c: Entry, expanded: bool)
    requires mid == AddAt(t, nodes, c)
    requires expanded <==> |mid| > |nodes| && c.linked
    requires expanded ==> after == ExpandAt(t, mid, LinkedEntries(t))
    requires !expanded ==> after == mid
    ensures after == TakeAt(t, nodes, c)
  {
  }

  /** One candidate offered: taken in unless the load is full. */
  ghost function OfferAt(t: seq<Entry>, capacity: nat, nodes: seq<Node?>, c: Entry): seq<Node?>
  {
    if CountAt(t, nodes) >= capacity then nodes else TakeAt(t, nodes, c)
  }

  /** The candidates `cs` offered in turn. */
  ghost function GreedyAt(t: seq<Entry>, capacity: nat, nodes: seq<Node?>, cs: seq<Entry>): seq<Node?>
    decreases |cs|
  {
    if cs == [] then nodes else GreedyAt(t, capacity, OfferAt(t, capacity, nodes, cs[0]), cs[1..])
  }

  lemma ExpandStep(t: seq<Entry>, nodes: seq<Node?>, lps: seq<Entry>, i: nat)
    requires i < |lps|
    ensures ExpandAt(t, nodes, lps[i..]) == ExpandAt(t, AddAt(t, nodes, lps[i]), lps[i + 1..])
  {
    assert lps[i..][1..] == lps[i + 1..];
  }

  /** The first `i` of `lps` added in turn: the state of the loop over
      get_all_linked_parcels after `i` passes. */
  ghost function ExpandUpTo(t: seq<Entry>, nodes: seq<Node?>, lps: seq<Entry>, i: nat): seq<Node?>
    requires i <= |lps|
  {
    if i == 0 then nodes else AddAt(t, ExpandUpTo(t, nodes, lps, i - 1), lps[i - 1])
  }

  /** The loop state after `i` passes, expanded over the rest, is the
      whole expansion. */
  lemma {:induction false} ExpandUpToRest(t: seq<Entry>, nodes: seq<Node?>, lps: seq<Entry>, i: nat)
    requires i <= |lps|
    ensures ExpandAt(t, ExpandUpTo(t, nodes, lps, i), lps[i..]) == ExpandAt(t, nodes, lps)
  {
    if i == 0 {
      assert lps[0..] == lps;
    } else {
      var prev := ExpandUpTo(t, nodes, lps, i - 1);
      ExpandUpToRest(t, nodes, lps, i - 1);
      ExpandStep(t, prev, lps, i - 1);
      assert ExpandUpTo(t, nodes, lps, i) == AddAt(t, prev, lps[i - 1]);
    }
  }

  /** After every pass, the loop state is the expansion. */
  lemma ExpandUpToAll(t: seq<Entry>, nodes: seq<Node?>, lps: seq<Entry>)
    ensures ExpandUpTo(t, nodes, lps, |lps|) == ExpandAt(t, nodes, lps)
  {
    ExpandUpToRest(t, nodes, lps, |lps|);
    assert lps[|lps|..] == [];
  }

  /** The first `i` candidates offered in turn: the state of the
      candidate loop after `i` passes. */
  ghost function GreedyUpTo(t: seq<Entry>, capacity: nat, nodes: seq<Node?>, cs: seq<Entry>, i: nat): seq<Node?>
    requires i <= |cs|
  {
    if i == 0 then nodes else OfferAt(t, capacity, GreedyUpTo(t, capacity, nodes, cs, i - 1), cs[i - 1])
  }

  lemma GreedyUpToNext(t: seq<Entry>, capacity: nat, nodes: seq<Node?>, cs: seq<Entry>, i: nat)
    requires i < |cs|
    ensures GreedyUpTo(t, capacity, nodes, cs, i + 1) == OfferAt(t, capacity, GreedyUpTo(t, capacity, nodes, cs, i), cs[i])
  {
  }

  /** The loop state after `i` passes, offered the rest, is the whole
      greedy pass. */
  lemma {:induction false} GreedyUpToRest(t: seq<Entry>, capacity: nat, nodes: seq<Node?>, cs: seq<Entry>, i: nat)
    requires i <= |cs|
    ensures GreedyAt(t, capacity, GreedyUpTo(t, capacity, nodes, cs, i), cs[i..]) == GreedyAt(t, capacity, nodes, cs)
  {
    if i == 0 {
      assert cs[0..] == cs;
    } else {
      var prev := GreedyUpTo(t, capacity, nodes, cs, i - 1);
      GreedyUpToRest(t, capacity, nodes, cs, i - 1);
      GreedyStep(t, capacity, prev, cs, i - 1);
      assert GreedyUpTo(t, capacity, nodes, cs, i) == OfferAt(t, capacity, prev, cs[i - 1]);
    }
  }

  /** After every pass, the loop state is the greedy pass. */
  lemma GreedyUpToAll(t: seq<Entry>, capacity: nat, nodes: seq<Node?>, cs: seq<Entry>)
    ensures GreedyUpTo(t, capacity, nodes, cs, |cs|) == GreedyAt(t, capacity, nodes, cs)
  {
    GreedyUpToRest(t, capacity, nodes, cs, |cs|);
    assert cs[|cs|..] == [];
  }

  lemma GreedyStep(t: seq<Entry>, capacity: nat, nodes: seq<Node?>, cs: seq<Entry>, i: nat)
    requires i < |cs|
    ensures GreedyAt(t, capacity, nodes, cs[i..]) == GreedyAt(t, capacity, OfferAt(t, capacity, nodes, cs[i]), cs[i + 1..])
  {
    assert cs[i..][1..] == cs[i + 1..];
  }

  /** The two loops of build_parcel_list are one greedy pass over the
      deadline candidates followed by the sorted remaining ones. */
  lemma {:induction false} GreedyAppend(t: seq<Entry>, capacity: nat, nodes: seq<Node?>, a: seq<Entry>, b: seq<Entry>)
    ensures GreedyAt(t, capacity, nodes, a + b) == GreedyAt(t, capacity, GreedyAt(t, capacity, nodes, a), b)
    decreases |a|
  {
    if a == [] {
      assert a + b == b;
    } else {
      assert (a + b)[0] == a[0] && (a + b)[1..] == a[1..] + b;
      GreedyAppend(t, capacity, OfferAt(t, capacity, nodes, a[0]), a[1..], b);
    }
  }

  /** Groups are only ever appended: the load so far stays a prefix. */
  lemma {:induction false} ExpandExtends(t: seq<Entry>, nodes: seq<Node?>, lps: seq<Entry>)
    ensures |nodes| <= |ExpandAt(t, nodes, lps)|
    ensures ExpandAt(t, nodes, lps)[..|nodes|] == nodes
    decreases |lps|
  {
    if lps != [] {
      var next := AddAt(t, nodes, lps[0]);
      ExpandExtends(t, next, lps[1..]);
      assert next[..|nodes|] == nodes;
    }
  }

  lemma OfferExtends(t: seq<Entry>, capacity: nat, nodes: seq<Node?>, c: Entry)
    ensures |nodes| <= |OfferAt(t, capacity, nodes, c)|
    ensures OfferAt(t, capacity, nodes, c)[..|nodes|] == nodes
  {
    if CountAt(t, nodes) < capacity && !HeldAt(t, nodes, c.id) && c.linked {
      var next := nodes + [c.node];
      ExpandExtends(t, next, LinkedEntries(t));
      assert next[..|nodes|] == nodes;
    }
  }

  lemma {:induction false} GreedyExtends(t: seq<Entry>, capacity: nat, nodes: seq<Node?>, cs: seq<Entry>)
    ensures |nodes| <= |GreedyAt(t, capacity, nodes, cs)|
    ensures GreedyAt(t, capacity, nodes, cs)[..|nodes|] == nodes
    decreases |cs|
  {
    if cs != [] {
      var next := OfferAt(t, capacity, nodes, cs[0]);
      OfferExtends(t, capacity, nodes, cs[0]);
      GreedyExtends(t, capacity, next, cs[1..]);
      assert next[..|nodes|] == nodes;
    }
  }

  lemma {:induction false} LinkedEntriesMembers(t: seq<Entry>)
    ensures forall e :: e in LinkedEntries(t) <==> e in t && e.linked
  {
    if t != [] {
      var front := t[..|t| - 1];
      LinkedEntriesMembers(front);
      assert t == front + [t[|t| - 1]];
    }
  }

  /** Every group the expansion adds is bound for one of `lps`. */
  lemma {:induction false} ExpandOrigin(t: seq<Entry>, nodes: seq<Node?>, lps: seq<Entry>)
    ensures forall n :: n in ExpandAt(t, nodes, lps) ==> n in nodes || exists e :: e in lps && e.node == n
    decreases |lps|
  {
    if lps != [] {
      var next := AddAt(t, nodes, lps[0]);
      ExpandOrigin(t, next, lps[1..]);
      forall n | n in ExpandAt(t, nodes, lps) ensures n in nodes || exists e :: e in lps && e.node == n {
        if n !in next {
          var e :| e in lps[1..] && e.node == n;
          assert e in lps;
        } else if n !in nodes {
          assert n == lps[0].node;
        }
      }
    }
  }

  /** Every group the pass adds is bound for a candidate's node or for a
      linked parcel's node. */
  lemma {:induction false} GreedyOrigin(t: seq<Entry>, capacity: nat, nodes: seq<Node?>, cs: seq<Entry>)
    ensures forall n :: n in GreedyAt(t, capacity, nodes, cs) ==>
      || n in nodes
      || (exists c :: c in cs && c.node == n)
      || (exists e :: e in t && e.linked && e.node == n)
    decreases |cs|
  {
    if cs != [] {
      var next := OfferAt(t, capacity, nodes, cs[0]);
      GreedyOrigin(t, capacity, next, cs[1..]);
      LinkedEntriesMembers(t);
      if CountAt(t, nodes) < capacity && !HeldAt(t, nodes, cs[0].id) && cs[0].linked {
        ExpandOrigin(t, nodes + [cs[0].node], LinkedEntries(t));
      }
      forall n | n in GreedyAt(t, capacity, nodes, cs)
        ensures || n in nodes
                || (exists c :: c in cs && c.node == n)
                || (exists e :: e in t && e.linked && e.node == n)
      {
        if n !in next {
          if c :| c in cs[1..] && c.node == n {
            assert c in cs;
          }
        } else if n !in nodes && n != cs[0].node {
          var e :| e in LinkedEntries(t) && e.node == n;
          assert e in t && e.linked;
        }
      }
    }
  }

  /** A load that holds a parcel still holds it once more groups join. */
  lemma HeldExtends(t: seq<Entry>, nodes: seq<Node?>, more: seq<Node?>, id: int)
    requires |nodes| <= |more| && more[..|nodes|] == nodes
    requires HeldAt(t, nodes, id)
    ensures HeldAt(t, more, id)
  {
    HeldAtSome(t, nodes, id);
    HeldAtSome(t, more, id);
    var i :| 0 <= i < |nodes| && id in IdsAt(t, nodes[i]);
    assert more[i] == nodes[i];
  }

  /** After the expansion over `lps` the load holds every one of them
      that is an entry of the table. */
  lemma {:induction false} ExpandHolds(t: seq<Entry>, nodes: seq<Node?>, lps: seq<Entry>)
    ensures forall e :: e in lps && e in t ==> HeldAt(t, ExpandAt(t, nodes, lps), e.id)
    decreases |lps|
  {
    if lps != [] {
      var first := lps[0];
      var next := AddAt(t, nodes, first);
      var after := ExpandAt(t, next, lps[1..]);
      ExpandHolds(t, next, lps[1..]);
      if first in t {
        if !HeldAt(t, nodes, first.id) {
          IdsAtMembers(t, first.node);
          assert next[..|nodes|] == nodes;
        }
        ExpandExtends(t, next, lps[1..]);
        HeldExtends(t, next, after, first.id);
      }
      forall e | e in lps && e in t ensures HeldAt(t, after, e.id) {
        if e != first {
          assert e in lps[1..];
        }
      }
    }
  }

  /** An offered table parcel ends up in the load, unless the load was
      already full when it was offered. */
  lemma {:induction false} GreedyPlaced(t: seq<Entry>, capacity: nat, nodes: seq<Node?>, cs: seq<Entry>, i: nat)
    requires i < |cs| && cs[i] in t
    ensures || HeldAt(t, GreedyAt(t, capacity, nodes, cs), cs[i].id)
            || CountAt(t, GreedyAt(t, capacity, nodes, cs[..i])) >= capacity
  {
    var c := cs[i];
    var before := GreedyAt(t, capacity, nodes, cs[..i]);
    var after := OfferAt(t, capacity, before, c);
    assert cs == cs[..i] + [c] + cs[i + 1..];
    GreedyAppend(t, capacity, nodes, cs[..i] + [c], cs[i + 1..]);
    GreedyAppend(t, capacity, nodes, cs[..i], [c]);
    assert GreedyAt(t, capacity, before, [c]) == after;
    if CountAt(t, before) < capacity {
      if !HeldAt(t, before, c.id) {
        var next := before + [c.node];
        IdsAtMembers(t, c.node);
        assert c.id in IdsAt(t, next[|before|]);
        assert next[..|before|] == before;
        if c.linked {
          ExpandExtends(t, next, LinkedEntries(t));
        }
        HeldExtends(t, next, after, c.id);
      }
      GreedyExtends(t, capacity, after, cs[i + 1..]);
      HeldExtends(t, after, GreedyAt(t, capacity, after, cs[i + 1..]), c.id);
    }
  }

  /** get_load_count only grows as groups join. */
  lemma {:induction false} CountExtends(t: seq<Entry>, nodes: seq<Node?>, more: seq<Node?>)
    requires |nodes| <= |more| && more[..|nodes|] == nodes
    ensures CountAt(t, nodes) <= CountAt(t, more)
    decreases |more|
  {
    if |more| == |nodes| {
      assert more == nodes;
    } else {
      var front := more[..|more| - 1];
      assert front[..|nodes|] == nodes;
      CountExtends(t, nodes, front);
    }
  }

  /** After the greedy pass every offered table parcel is held, unless
      the load has reached the capacity. */
  lemma GreedyPlacedAll(t: seq<Entry>, capacity: nat, nodes: seq<Node?>, cs: seq<Entry>)
    ensures forall i :: 0 <= i < |cs| && cs[i] in t ==>
      HeldAt(t, GreedyAt(t, capacity, nodes, cs), cs[i].id) || CountAt(t, GreedyAt(t, capacity, nodes, cs)) >= capacity
  {
    var all := GreedyAt(t, capacity, nodes, cs);
    forall i | 0 <= i < |cs| && cs[i] in t
      ensures HeldAt(t, all, cs[i].id) || CountAt(t, all) >= capacity
    {
      GreedyPlaced(t, capacity, nodes, cs, i);
      var before := GreedyAt(t, capacity, nodes, cs[..i]);
      assert cs == cs[..i] + cs[i..];
      GreedyAppend(t, capacity, nodes, cs[..i], cs[i..]);
      GreedyExtends(t, capacity, before, cs[i..]);
      CountExtends(t, before, all);
    }
  }

  // ---------------------------------------------------------------------
  // The overflow trim of build_parcel_list (loader.py:142-152)

  /** The linked groups of `load`, in order. */
  ghost function LinkedGroups(load: seq<ParcelGroup>): (r: seq<ParcelGroup>)
    reads load`linked
    ensures forall g :: g in r ==> g in load
  {
    if load == [] then []
    else
      SliceMembers(load, |load| - 1);
      LinkedGroups(load[..|load| - 1]) + (if load[|load| - 1].linked then [load[|load| - 1]] else [])
  }

  lemma {:induction false} LinkedGroupsMembers(load: seq<ParcelGroup>)
    ensures forall g :: g in LinkedGroups(load) <==> g in load && g.linked
  {
    if load != [] {
      var front := load[..|load| - 1];
      LinkedGroupsMembers(front);
      assert load == front + [load[|load| - 1]];
    }
  }

  lemma {:induction false} LinkedGroupsAppend(a: seq<ParcelGroup>, b: seq<ParcelGroup>)
    ensures LinkedGroups(a + b) == LinkedGroups(a) + LinkedGroups(b)
    decreases |b|
  {
    if b == [] {
      assert a + b == a;
    } else {
      var m := |b| - 1;
      assert (a + b)[..|a + b| - 1] == a + b[..m];
      LinkedGroupsAppend(a, b[..m]);
    }
  }

  lemma {:induction false} LinkedGroupsTotal(load: seq<ParcelGroup>)
    ensures TotalParcels(LinkedGroups(load)) <= TotalParcels(load)
  {
    if load != [] {
      var front := load[..|load| - 1];
      var last := load[|load| - 1];
      LinkedGroupsTotal(front);
      if last.linked {
        TotalParcelsAppend(LinkedGroups(front), [last]);
        assert [last][..0] == [];
      } else {
        assert LinkedGroups(front) + [] == LinkedGroups(front);
      }
    }
  }

  /** The load once the trim has passed its first k groups: the linked ones
      among them kept, the rest of the load untouched. */
  ghost function TrimmedAt(load: seq<ParcelGroup>, k: nat): (r: seq<ParcelGroup>)
    requires k <= |load|
    reads load`linked, load`parcels
    ensures forall g :: g in r ==> g in load
    ensures forall i :: 0 <= i < |r| ==> r[i] in load
  {
    SliceMembers(load, k);
    LinkedGroups(load[..k]) + load[k..]
  }

  /** However far the trim gets, the linked groups stay and their parcels
      remain counted. */
  lemma TrimmedAtFloor(load: seq<ParcelGroup>, k: nat)
    requires k <= |load|
    ensures TotalParcels(LinkedGroups(load)) <= TotalParcels(TrimmedAt(load, k))
  {
    assert load == load[..k] + load[k..];
    LinkedGroupsAppend(load[..k], load[k..]);
    TotalParcelsAppend(LinkedGroups(load[..k]), LinkedGroups(load[k..]));
    TotalParcelsAppend(LinkedGroups(load[..k]), load[k..]);
    LinkedGroupsTotal(load[k..]);
  }

  /** list.remove of an element whose first occurrence is at i takes out
      exactly position i. */
  lemma {:induction false} RemoveFirstAt<T>(s: seq<T>, i: nat)
    requires i < |s| && forall j :: 0 <= j < i ==> s[j] != s[i]
    ensures RemoveFirst(s, s[i]) == s[..i] + s[i + 1..]
    decreases i
  {
    if i > 0 {
      var tail := s[1..];
      assert tail[i - 1] == s[i];
      forall j | 0 <= j < i - 1 ensures tail[j] != tail[i - 1] {
        assert tail[j] == s[j + 1];
      }
      RemoveFirstAt(tail, i - 1);
      assert s[..i] == [s[0]] + tail[..i - 1];
      assert s[i + 1..] == tail[i..];
    }
  }

  /** One pass of the trim loop: with `offset` the number of linked groups
      among the first k, the group at `offset` is the k-th of the load; it
      is kept and skipped when linked, and removed otherwise. */
  lemma TrimStep(load: seq<ParcelGroup>, k: nat)
    requires k < |load|
    ensures var cur, offset := TrimmedAt(load, k), |LinkedGroups(load[..k])|;
      && offset < |cur| && cur[offset] == load[k]
      && (load[k].linked ==> TrimmedAt(load, k + 1) == cur && |LinkedGroups(load[..k + 1])| == offset + 1)
      && (!load[k].linked ==>
            TrimmedAt(load, k + 1) == RemoveFirst(cur, cur[offset]) && |LinkedGroups(load[..k + 1])| == offset)
  {
    var lg := LinkedGroups(load[..k]);
    var cur := TrimmedAt(load, k);
    var offset := |lg|;
    var front := load[..k + 1];
    assert front[..k] == load[..k];
    assert LinkedGroups(front) == lg + (if load[k].linked then [load[k]] else []);
    assert load[k..] == [load[k]] + load[k + 1..];
    assert cur == lg + [load[k]] + load[k + 1..];
    if !load[k].linked {
      LinkedGroupsMembers(load[..k]);
      forall j | 0 <= j < offset ensures cur[j] != cur[offset] {
        assert cur[j] == lg[j] && lg[j] in lg;
      }
      RemoveFirstAt(cur, offset);
      assert cur[..offset] == lg;
      assert cur[offset + 1..] == load[k + 1..];
    }
  }

  /** Past a point where the load does not fit, the trim goes on. */
  lemma TrimFromNext(load: seq<ParcelGroup>, capacity: nat, k: nat)
    requires k < |load| && TotalParcels(TrimmedAt(load, k)) > capacity
    ensures TrimFrom(load, capacity, k) == TrimFrom(load, capacity, k + 1)
  {
  }

  /** The trim from the k-th group on: it stops at the first point where
      the load fits, and raises IndexError (None) if it runs off the end. */
  ghost function TrimFrom(load: seq<ParcelGroup>, capacity: nat, k: nat): Option<seq<ParcelGroup>>
    requires k <= |load|
    reads load`linked, load`parcels
    decreases |load| - k
  {
    if TotalParcels(TrimmedAt(load, k)) <= capacity then Some(TrimmedAt(load, k))
    else if k == |load| then None
    else TrimFrom(load, capacity, k + 1)
  }

  ghost function Trim(load: seq<ParcelGroup>, capacity: nat): Option<seq<ParcelGroup>>
    reads load`linked, load`parcels
  {
    TrimFrom(load, capacity, 0)
  }

  /** The trim fails exactly when the linked groups alone are over
      capacity; otherwise the load fits, keeps every linked group and holds
      only groups it had. */
  lemma {:induction false} TrimFromOutcome(load: seq<ParcelGroup>, capacity: nat, k: nat)
    requires k <= |load|
    ensures TrimFrom(load, capacity, k).None? <==> TotalParcels(LinkedGroups(load)) > capacity
    ensures TrimFrom(load, capacity, k).Some? ==>
      exists j :: k <= j <= |load| && TrimFrom(load, capacity, k).value == TrimmedAt(load, j)
    decreases |load| - k
  {
    TrimmedAtFloor(load, k);
    if TotalParcels(TrimmedAt(load, k)) > capacity {
      if k == |load| {
        assert load[..k] == load;
        assert TrimmedAt(load, k) == LinkedGroups(load);
      } else {
        TrimFromOutcome(load, capacity, k + 1);
      }
    }
  }

  /** Every group the trim leaves was in the load, and every linked group
      of the load is left. */
  lemma TrimmedAtMembers(load: seq<ParcelGroup>, k: nat)
    requires k <= |load|
    ensures forall g :: g in load && g.linked ==> g in TrimmedAt(load, k)
  {
    LinkedGroupsMembers(load[..k]);
    assert load == load[..k] + load[k..];
    forall g | g in load && g.linked ensures g in TrimmedAt(load, k) {
      if g !in load[k..] {
        assert g in load[..k];
      }
    }
  }

  /** What the trim promises on normal exit: the load fits, every linked
      group stays, and only groups of the load remain; it raises exactly
      when the linked groups alone exceed the capacity. */
  lemma TrimOutcome(load: seq<ParcelGroup>, capacity: nat)
    ensures Trim(load, capacity).None? <==> TotalParcels(LinkedGroups(load)) > capacity
    ensures Trim(load, capacity).Some? ==> TotalParcels(Trim(load, capacity).value) <= capacity
    ensures Trim(load, capacity).Some? ==>
      (forall g :: g in Trim(load, capacity).value ==> g in load)
      && (forall g :: g in load && g.linked ==> g in Trim(load, capacity).value)
  {
    TrimFromOutcome(load, capacity, 0);
    if Trim(load, capacity).Some? {
      var j :| 0 <= j <= |load| && Trim(load, capacity).value == TrimmedAt(load, j);
      TrimFits(load, capacity, 0);
      TrimmedAtMembers(load, j);
    }
  }

  /** Two loads with distinct destinations, none shared, join into one
      with distinct destinations. */
  lemma DistinctDestsAppend(a: seq<ParcelGroup>, b: seq<ParcelGroup>)
    requires Distinct(Dests(a)) && Distinct(Dests(b))
    requires forall g, h :: g in a && h in b ==> g.destination != h.destination
    ensures Distinct(Dests(a + b))
  {
    var ab := a + b;
    forall i, j | 0 <= i < j < |ab| ensures ab[i].destination != ab[j].destination {
      if j < |a| {
        assert Dests(a)[i] != Dests(a)[j];
      } else if i >= |a| {
        assert Dests(b)[i - |a|] != Dests(b)[j - |a|];
      } else {
        assert ab[i] in a && ab[j] in b;
      }
    }
    assert forall i, j :: 0 <= i < j < |ab| ==> Dests(ab)[i] != Dests(ab)[j];
  }

  /** Keeping only the linked groups keeps destinations distinct. */
  lemma {:induction false} LinkedGroupsDistinct(load: seq<ParcelGroup>)
    requires Distinct(Dests(load))
    ensures Distinct(Dests(LinkedGroups(load)))
  {
    if load != [] {
      var m := |load| - 1;
      var front := load[..m];
      assert Distinct(Dests(front)) by {
        assert forall i :: 0 <= i < m ==> Dests(front)[i] == Dests(load)[i];
      }
      LinkedGroupsDistinct(front);
      if load[m].linked {
        LinkedGroupsMembers(front);
        forall g | g in LinkedGroups(front) ensures g.destination != load[m].destination {
          var i :| 0 <= i < m && front[i] == g;
          assert Dests(load)[i] != Dests(load)[m];
        }
        DistinctDestsAppend(LinkedGroups(front), [load[m]]);
      }
    }
  }

  /** A slice of a load with distinct destinations has distinct
      destinations. */
  lemma DistinctDestsSlice(load: seq<ParcelGroup>, i: nat, j: nat)
    requires Distinct(Dests(load)) && i <= j <= |load|
    ensures Distinct(Dests(load[i..j]))
  {
    var s := load[i..j];
    assert forall k :: 0 <= k < |s| ==> Dests(s)[k] == Dests(load)[k + i];
  }

  /** The load at any point of the trim keeps destinations distinct. */
  lemma TrimmedAtDistinct(load: seq<ParcelGroup>, j: nat)
    requires Distinct(Dests(load)) && j <= |load|
    ensures Distinct(Dests(TrimmedAt(load, j)))
  {
    var front, back := load[..j], load[j..];
    DistinctDestsSlice(load, 0, j);
    DistinctDestsSlice(load, j, |load|);
    assert load[0..j] == front && load[j..|load|] == back;
    LinkedGroupsDistinct(front);
    LinkedGroupsMembers(front);
    forall g, h | g in LinkedGroups(front) && h in back ensures g.destination != h.destination {
      var i :| 0 <= i < j && front[i] == g;
      var k :| 0 <= k < |back| && back[k] == h;
      assert Dests(load)[i] != Dests(load)[k + j];
    }
    DistinctDestsAppend(LinkedGroups(front), back);
  }

  /** The trim keeps destinations distinct: it drops groups and keeps the
      order of the rest. */
  lemma TrimDistinct(load: seq<ParcelGroup>, capacity: nat)
    requires Distinct(Dests(load))
    ensures Trim(load, capacity).Some? ==> Distinct(Dests(Trim(load, capacity).value))
  {
    TrimFromOutcome(load, capacity, 0);
    if Trim(load, capacity).Some? {
      var j :| 0 <= j <= |load| && Trim(load, capacity).value == TrimmedAt(load, j);
      TrimmedAtDistinct(load, j);
    }
  }

  lemma {:induction false} TrimFits(load: seq<ParcelGroup>, capacity: nat, k: nat)
    requires k <= |load|
    ensures TrimFrom(load, capacity, k).Some? ==> TotalParcels(TrimFrom(load, capacity, k).value) <= capacity
    decreases |load| - k
  {
    if TotalParcels(TrimmedAt(load, k)) > capacity && k < |load| {
      TrimFits(load, capacity, k + 1);
    }
  }

  /** A load that fits is left as it is. */
  lemma TrimFitting(load: seq<ParcelGroup>, capacity: nat)
    requires TotalParcels(load) <= capacity
    ensures Trim(load, capacity) == Some(load)
  {
    assert load[..0] == [] && load[0..] == load;
    assert TrimmedAt(load, 0) == load;
  }

  // ---------------------------------------------------------------------
  // reorder_parcels (loader.py:62-81)

  /** `a < b` on distances the way Python compares a float with a float or
      with infinity; None is excluded by Connected. */
  predicate Closer(a: Dist, b: Dist) {
    a.Weight? && (b.Infinite? || (b.Weight? && a.w < b.w))
  }

  /** The destination of each group, in load order. */
  function Dests(load: seq<ParcelGroup>): (ds: seq<Node?>)
    reads load
    ensures |ds| == |load|
    ensures forall i :: 0 <= i < |load| ==> ds[i] == load[i].destination
  {
    seq(|load|, i reads load requires 0 <= i < |load| => load[i].destination)
  }

  /** The inner loop of the route: starting from None (at infinite
      distance), a node replaces the choice only when strictly closer. */
  function Nearest(curr: Node, ns: seq<Node?>): Node?
    reads curr
  {
    if ns == [] then null
    else
      var m := Nearest(curr, ns[..|ns| - 1]);
      if Closer(curr.Distance(ns[|ns| - 1]), curr.Distance(m)) then ns[|ns| - 1] else m
  }

  /** The chosen node is the first of the nearest: no node is closer, and
      it is strictly closer than every node before it. */
  lemma {:induction false} NearestFirstMinimum(curr: Node, ns: seq<Node?>)
    requires forall i :: 0 <= i < |ns| ==> curr.Distance(ns[i]).Weight?
    ensures ns == [] <==> Nearest(curr, ns) == null
    ensures ns != [] ==> exists i :: (0 <= i < |ns| && ns[i] == Nearest(curr, ns)
      && forall j :: 0 <= j < i ==> Closer(curr.Distance(ns[i]), curr.Distance(ns[j])))
    ensures forall j :: 0 <= j < |ns| ==> !Closer(curr.Distance(ns[j]), curr.Distance(Nearest(curr, ns)))
  {
    if ns != [] {
      var m := |ns| - 1;
      var front := ns[..m];
      assert forall i :: 0 <= i < m ==> front[i] == ns[i];
      NearestFirstMinimum(curr, front);
      var best := Nearest(curr, front);
      SelfDistanceNull(curr);
      if Closer(curr.Distance(ns[m]), curr.Distance(best)) {
        assert Nearest(curr, ns) == ns[m];
        forall j | 0 <= j < m ensures Closer(curr.Distance(ns[m]), curr.Distance(ns[j])) {
          assert !Closer(curr.Distance(front[j]), curr.Distance(best));
        }
      } else {
        assert front != [];
        assert Nearest(curr, ns) == best;
        var i :| 0 <= i < m && front[i] == best
          && forall j :: 0 <= j < i ==> Closer(curr.Distance(front[i]), curr.Distance(front[j]));
        assert ns[i] == best;
      }
    }
  }

  /** The distance to None is infinite (graph.py:26-27). */
  lemma SelfDistanceNull(curr: Node)
    ensures curr.Distance(null) == Infinite
  {
  }

  /** Every node the route visits is a node and is at a known distance
      from the start and from each other: reorder_parcels calls
      get_distance on them, and a missing connection (None) would make the
      comparison raise. */
  ghost predicate Connected(curr: Node?, ns: seq<Node?>)
    reads curr, ns
  {
    && curr != null
    && (forall i :: 0 <= i < |ns| ==> ns[i] != null)
    && (forall i :: 0 <= i < |ns| ==> curr.Distance(ns[i]).Weight?)
    && (forall i, j :: 0 <= i < |ns| && 0 <= j < |ns| ==> ns[i].Distance(ns[j]).Weight?)
  }

  lemma ConnectedStep(curr: Node?, ns: seq<Node?>)
    requires Connected(curr, ns) && ns != []
    ensures Nearest(curr, ns) in ns
    ensures forall x :: x in RemoveFirst(ns, Nearest(curr, ns)) ==> x in ns
    ensures Connected(Nearest(curr, ns), RemoveFirst(ns, Nearest(curr, ns)))
  {
    NearestFirstMinimum(curr, ns);
    var n := Nearest(curr, ns);
    var rest := RemoveFirst(ns, n);
    forall i | 0 <= i < |rest| ensures rest[i] in ns {
      assert rest[i] in rest;
    }
  }

  /** The route of reorder_parcels: from `curr`, go to the nearest of the
      remaining destinations, take it off the list, and go on from there.
      Where no listed node is at a known distance, None is appended and its
      removal raises; the route ends there (never when Connected holds). */
  ghost function Route(curr: Node?, ns: seq<Node?>): (r: seq<Node?>)
    reads curr, ns
    decreases |ns|
  {
    if ns == [] || curr == null then []
    else
      var n := Nearest(curr, ns);
      if n in ns then
        var rest := RemoveFirst(ns, n);
        assert forall i :: 0 <= i < |rest| ==> rest[i] in ns by {
          forall i | 0 <= i < |rest| ensures rest[i] in ns { assert rest[i] in rest; }
        }
        [n] + Route(n, rest)
      else [n]
  }

  /** One step of the route, from a node whose nearest choice is listed. */
  lemma RouteStep(curr: Node?, ns: seq<Node?>)
    requires curr != null && Nearest(curr, ns) in ns
    ensures Route(curr, ns) == [Nearest(curr, ns)] + Route(Nearest(curr, ns), RemoveFirst(ns, Nearest(curr, ns)))
  {
  }

  /** A route over distinct destinations visits each of them once. */
  lemma {:induction false} RouteVisitsAll(curr: Node?, ns: seq<Node?>)
    requires Connected(curr, ns) && Distinct(ns)
    ensures |Route(curr, ns)| == |ns|
    ensures Distinct(Route(curr, ns))
    ensures forall n :: n in Route(curr, ns) <==> n in ns
    decreases |ns|
  {
    if ns != [] {
      ConnectedStep(curr, ns);
      var n := Nearest(curr, ns);
      var rest := RemoveFirst(ns, n);
      RemoveFirstDistinct(ns, n);
      RouteVisitsAll(n, rest);
      var tail := Route(n, rest);
      assert Route(curr, ns) == [n] + tail;
      DistinctCons(n, tail);
      assert forall x :: x in Route(curr, ns) <==> x == n || x in tail;
    }
  }

  /** The groups of `load` bound for `dest`, in load order, where ds[j]
      is the destination of load[j]: one pass of the inner loop over the
      load. The destinations are a value taken before any priority
      changes, so that the arrangement does not depend on the heap. */
  ghost function BoundFor(load: seq<ParcelGroup>, ds: seq<Node?>, dest: Node?): seq<ParcelGroup>
    requires |ds| == |load|
  {
    if load == [] then []
    else
      var m := |load| - 1;
      BoundFor(load[..m], ds[..m], dest) + (if ds[m] == dest then [load[m]] else [])
  }

  /** The new load: for each stop of the route in turn, the groups bound
      for it. */
  ghost function Arrange(route: seq<Node?>, load: seq<ParcelGroup>, ds: seq<Node?>): seq<ParcelGroup>
    requires |ds| == |load|
  {
    if route == [] then [] else Arrange(route[..|route| - 1], load, ds) + BoundFor(load, ds, route[|route| - 1])
  }

  /** The position of the first `x` in `s`. */
  function IndexOf<T(==)>(s: seq<T>, x: T): (i: nat)
    requires x in s
    ensures i < |s| && s[i] == x
    ensures forall j :: 0 <= j < i ==> s[j] != x
  {
    if s[0] == x then 0 else 1 + IndexOf(s[1..], x)
  }

  /** No group is bound for a node that is no group's destination. */
  lemma {:induction false} BoundForAbsent(load: seq<ParcelGroup>, ds: seq<Node?>, dest: Node?)
    requires |ds| == |load| && dest !in ds
    ensures BoundFor(load, ds, dest) == []
  {
    if load != [] {
      var m := |load| - 1;
      assert forall x :: x in ds[..m] ==> x in ds;
      BoundForAbsent(load[..m], ds[..m], dest);
    }
  }

  /** With distinct destinations, the one group bound for a listed node is
      the group at its position. */
  lemma {:induction false} BoundForOne(load: seq<ParcelGroup>, ds: seq<Node?>, dest: Node?)
    requires |ds| == |load| && Distinct(ds) && dest in ds
    ensures BoundFor(load, ds, dest) == [load[IndexOf(ds, dest)]]
  {
    var m := |load| - 1;
    var front, fds := load[..m], ds[..m];
    var k := IndexOf(ds, dest);
    if ds[m] == dest {
      assert k == m;
      forall i | 0 <= i < m ensures fds[i] != dest {
        assert ds[i] != ds[m];
      }
      BoundForAbsent(front, fds, dest);
    } else {
      assert k < m && fds[k] == dest;
      assert Distinct(fds);
      BoundForOne(front, fds, dest);
      assert IndexOf(fds, dest) == k;
    }
  }

  /** Over stops that are all destinations, distinct ones, the new load
      lists for stop k the group whose destination it is. */
  lemma {:induction false} ArrangeDistinct(route: seq<Node?>, load: seq<ParcelGroup>, ds: seq<Node?>)
    requires |ds| == |load| && Distinct(ds)
    requires forall d :: d in route ==> d in ds
    ensures |Arrange(route, load, ds)| == |route|
    ensures forall k :: 0 <= k < |route| ==> Arrange(route, load, ds)[k] == load[IndexOf(ds, route[k])]
  {
    if route != [] {
      var m := |route| - 1;
      var front := route[..m];
      assert forall d :: d in front ==> d in route;
      ArrangeDistinct(front, load, ds);
      assert route[m] in route;
      BoundForOne(load, ds, route[m]);
      var a := Arrange(front, load, ds);
      assert Arrange(route, load, ds) == a + [load[IndexOf(ds, route[m])]];
      forall k | 0 <= k < m ensures a[k] == load[IndexOf(ds, route[k])] {
        assert front[k] == route[k];
      }
    }
  }

  /** The groups bound for a node are groups of the load. */
  lemma {:induction false} BoundForWithin(load: seq<ParcelGroup>, ds: seq<Node?>, dest: Node?)
    requires |ds| == |load|
    ensures forall g :: g in BoundFor(load, ds, dest) ==> g in load
  {
    if load != [] {
      var m := |load| - 1;
      BoundForWithin(load[..m], ds[..m], dest);
      assert forall g :: g in load[..m] ==> g in load;
    }
  }

  /** Whatever the route, the new load holds only groups of the old one. */
  lemma {:induction false} ArrangeWithin(route: seq<Node?>, load: seq<ParcelGroup>, ds: seq<Node?>)
    requires |ds| == |load|
    ensures forall g :: g in Arrange(route, load, ds) ==> g in load
  {
    if route != [] {
      ArrangeWithin(route[..|route| - 1], load, ds);
      BoundForWithin(load, ds, route[|route| - 1]);
    }
  }

  /** When the route visits each destination once, the new load is a
      rearrangement of the old: the same groups, each once. */
  lemma ArrangePermutes(route: seq<Node?>, load: seq<ParcelGroup>, ds: seq<Node?>)
    requires |ds| == |load| && Distinct(ds) && Distinct(load)
    requires Distinct(route) && |route| == |load|
    requires forall d :: d in route <==> d in ds
    ensures |Arrange(route, load, ds)| == |load|
    ensures Distinct(Arrange(route, load, ds))
    ensures forall g :: g in Arrange(route, load, ds) <==> g in load
  {
    ArrangeDistinct(route, load, ds);
    var r := Arrange(route, load, ds);
    forall i, j | 0 <= i < j < |r| ensures r[i] != r[j] {
      assert route[i] != route[j];
      assert ds[IndexOf(ds, route[i])] != ds[IndexOf(ds, route[j])];
    }
    forall g | g in load ensures g in r {
      var j :| 0 <= j < |load| && load[j] == g;
      assert ds[j] in route;
      var k :| 0 <= k < |route| && route[k] == ds[j];
      assert IndexOf(ds, route[k]) == j;
      assert r[k] == g;
    }
  }

  /** Groups with distinct destinations are distinct groups. */
  lemma DistinctDests(load: seq<ParcelGroup>)
    requires Distinct(Dests(load))
    ensures Distinct(load)
  {
    forall i, j | 0 <= i < j < |load| ensures load[i] != load[j] {
      assert Dests(load)[i] != Dests(load)[j];
    }
  }

  /** Prepending an element not yet listed keeps a sequence distinct. */
  lemma DistinctCons<T>(x: T, a: seq<T>)
    requires Distinct(a) && x !in a
    ensures Distinct([x] + a)
  {
    var r := [x] + a;
    forall i, j | 0 <= i < j < |r| ensures r[i] != r[j] {
      assert r[j] == a[j - 1];
      if i == 0 {
        assert r[j] in a;
      } else {
        assert r[i] == a[i - 1];
      }
    }
  }

  /** Appending an element not yet listed keeps a sequence distinct. */
  lemma DistinctSnoc<T>(a: seq<T>, x: T)
    requires Distinct(a) && x !in a
    ensures Distinct(a + [x])
  {
    var r := a + [x];
    forall i, j | 0 <= i < j < |r| ensures r[i] != r[j] {
      if j == |a| {
        assert r[i] in a;
      }
    }
  }

  /** The parcels of a load's groups. */
  ghost function ParcelsOf(load: seq<ParcelGroup>): set<Parcel>
    reads load`parcels
  {
    set g, p | g in load && p in g.parcels :: p
  }

  /** Each group's parcels are parcels of the load. */
  lemma ParcelsOfGroup(load: seq<ParcelGroup>, i: nat)
    requires i < |load|
    ensures forall p :: p in load[i].parcels ==> p in ParcelsOf(load)
  {
  }

  /** The groups of a load hold no parcels besides those of a load that
      has all its groups. */
  lemma ParcelsOfWithin(a: seq<ParcelGroup>, b: seq<ParcelGroup>)
    requires forall g :: g in a ==> g in b
    ensures ParcelsOf(a) <= ParcelsOf(b)
  {
  }

  /** The priority reorder_parcels gives the group met at route position
      i of a load of n groups: n + p**2 - i, where an infinite p stays
      infinite. */
  function ReorderPriority(n: int, p: ExtInt, i: int): (r: ExtInt)
    ensures p.Fin? <==> r.Fin?
    ensures p.Fin? ==> r.n + i == n + p.n * p.n
  {
    match p
    case Fin(k) => Fin(n + k * k - i)
    case _ => PosInf
  }

  /** The new priorities do not follow the route by themselves: in a load
      of three, a group of priority 2 at position 1 outranks a group of
      priority 0 at position 0, so the truck's queue puts it first. */
  lemma ReorderPriorityNotRouteOrder()
    ensures ReorderPriority(3, Fin(0), 0).Lt(ReorderPriority(3, Fin(2), 1))
  {
  }

  /** Groups of equal old priority do keep route order. */
  lemma ReorderPriorityEqualKeys(n: int, p: ExtInt, i: int, j: int)
    requires p.Fin? && i < j
    ensures ReorderPriority(n, p, j).Lt(ReorderPriority(n, p, i))
  {
  }

  // ---------------------------------------------------------------------
  // The deadline share of run (loader.py:169-187)

  /** len(deadline_parcels) // len(trucks) + len(deadline_parcels) %
      len(trucks). */
  function DeadlineShare(n: nat, k: nat): (s: nat)
    requires k > 0
    ensures s * k >= n
  {
    var q, r := n / k, n % k;
    assert n == q * k + r;
    assert (q + r) * k == q * k + r * k;
    q + r
  }

  /** For two trucks the share is the ceiling, but for three trucks and
      five deadline parcels it is three, where two would do. */
  lemma DeadlineShareExamples()
    ensures DeadlineShare(5, 3) == 3 && 2 * 3 >= 5
    ensures DeadlineShare(5, 2) == 3
    ensures DeadlineShare(6, 1) == 6
  {
  }

  /** With two trucks the share is exactly the ceiling. */
  lemma DeadlineShareTwoTrucks(n: nat)
    ensures (DeadlineShare(n, 2) - 1) * 2 < n <= DeadlineShare(n, 2) * 2
  {
  }

  /** The deadline parcels one truck takes: the first `share` of them, or
      all when there are no more. */
  function TakeShare(ds: seq<Parcel>, share: nat): (r: seq<Parcel>)
    ensures |r| <= share && |r| <= |ds| && r == ds[..|r|]
    ensures |r| < share ==> r == ds
  {
    if share < |ds| then ds[..share] else ds
  }
}
