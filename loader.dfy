/** The Loader of loader.py: it scores and links the parcels of the parcel
    table, builds a load for each truck from the parcels still at the hub,
    orders the load along a nearest-neighbour route and hands it to the
    truck. */
module Loaders {
  import opened Util
  import opened Tables
  import opened Graphs
  import opened Parcels
  import opened ParcelGroups
  import opened Queues
  import opened Lookups
  import opened Trucks
  import opened LoadPlans

  /** lookup(status='AT HUB', deadline='not None'): the deadline parcels. */
  const DeadlineCriteria := NoCriteria.(status := Some("AT HUB"), deadline := DeadlineText("not None"))

  /** lookup(status='AT HUB', deadline='None'): the remaining parcels. */
  const RemainingCriteria := NoCriteria.(status := Some("AT HUB"), deadline := DeadlineText("None"))

  /** lookup(delivery_node=node): the parcels bound for one node. */
  function NodeCriteria(node: Node?): Criteria {
    NoCriteria.(node := node)
  }

  /** A lookup finds only items. */
  lemma FilterWithin(items: seq<Parcel>, c: Criteria, p: Parcel)
    requires Filter(items, c).Some? && p in Filter(items, c).value
    ensures p in items
  {
    FilterMembers(items, c);
  }

  /** A lookup that gives no id never raises, and finds only items. */
  lemma FilterWithoutId(items: seq<Parcel>, c: Criteria)
    requires c.id == AnyId
    ensures Filter(items, c).Some?
    ensures forall p: Parcel :: p in Filter(items, c).value ==> p in items
  {
    FilterMembers(items, c);
    forall p: Parcel | p in Filter(items, c).value ensures p in items {
      FilterWithin(items, c, p);
    }
  }

  /** A lookup by node finds only parcels bound for the node... */
  lemma FilterNodeOnly(items: seq<Parcel>, node: Node, q: Parcel)
    requires Filter(items, NodeCriteria(node)).Some? && q in Filter(items, NodeCriteria(node)).value
    ensures q.deliveryNode == node
  {
    FilterMembers(items, NodeCriteria(node));
  }

  /** ... and finds every item bound for it. */
  lemma FilterNodeFinds(items: seq<Parcel>, node: Node, q: Parcel)
    requires q in items && q.deliveryNode == node
    ensures Filter(items, NodeCriteria(node)).Some? && q in Filter(items, NodeCriteria(node)).value
  {
    FilterWithoutId(items, NodeCriteria(node));
    FilterMembers(items, NodeCriteria(node));
  }

  /** Appending a parcel keeps every id that was present and adds its own. */
  lemma HasIdSnoc(ps: seq<Parcel>, p: Parcel, seen: seq<Parcel>)
    requires forall j :: 0 <= j < |seen| - 1 ==> HasId(ps, seen[j].id)
    requires seen != [] && seen[|seen| - 1] == p
    ensures var qs := if HasId(ps, p.id) then ps else ps + [p];
      forall j :: 0 <= j < |seen| ==> HasId(qs, seen[j].id)
  {
    var qs := if HasId(ps, p.id) then ps else ps + [p];
    forall j | 0 <= j < |seen| ensures HasId(qs, seen[j].id) {
      if j < |seen| - 1 {
        assert HasId(ps, seen[j].id);
        var k :| 0 <= k < |ps| && ps[k].id == seen[j].id;
        assert qs[k] == ps[k];
      } else if !HasId(ps, p.id) {
        assert qs[|ps|] == p;
      }
    }
  }

  /** A group added to a load: what the load then holds. */
  lemma HoldsSnoc(q: seq<ParcelGroup>, g: ParcelGroup, id: int)
    ensures Holds(q + [g], id) <==> Holds(q, id) || HasId(g.parcels, id)
  {
    var r := q + [g];
    if Holds(q, id) {
      var i :| 0 <= i < |q| && HasId(q[i].parcels, id);
      assert r[i] == q[i];
    }
    if HasId(g.parcels, id) {
      assert r[|q|] == g;
    }
    if Holds(r, id) {
      var i :| 0 <= i < |r| && HasId(r[i].parcels, id);
      if i < |q| {
        assert r[i] == q[i];
      }
    }
  }

  /** Every parcel of `ps` has its delivery node: what set_node finds for
      the parcel addresses of a consistent input. */
  ghost predicate Resolved(ps: seq<Parcel>)
    reads ps
  {
    forall p :: p in ps ==> p.deliveryNode != null
  }

  /** A group as create_parcel_group builds it for a parcel of `ps` with a
      node: built by add_parcel from parcels of `ps`, bound for that node,
      and holding every parcel of `ps` bound there. */
  ghost predicate Complete(g: ParcelGroup, ps: seq<Parcel>)
    reads g, ps
  {
    && (forall i :: 0 <= i < |g.parcels| ==> g.parcels[i] in ps)
    && BuiltFrom(g, g.parcels)
    && g.parcels != [] && g.destination != null
    && (forall q {:trigger HasId(g.parcels, q.id)} :: q in ps && q.deliveryNode == g.destination ==> HasId(g.parcels, q.id))
  }

  /** A load as build_parcel_list grows it from the parcels `ps`: every
      group complete, and no two groups bound for the same node. */
  ghost predicate Sound(load: seq<ParcelGroup>, ps: seq<Parcel>)
    reads load, ps
  {
    && Distinct(Dests(load))
    && forall i :: 0 <= i < |load| ==> Complete(load[i], ps)
  }

  /** The ids of the parcels of `s`. */
  ghost function IdsOf(s: seq<Parcel>): set<int>
  {
    set i | 0 <= i < |s| :: s[i].id
  }

  lemma {:induction false} DistinctIdsCount(s: seq<Parcel>)
    requires DistinctIds(s)
    ensures |IdsOf(s)| == |s|
  {
    if s != [] {
      var front, x := s[..|s| - 1], s[|s| - 1];
      DistinctIdsCount(front);
      forall y ensures y in IdsOf(s) <==> y in IdsOf(front) || y == x.id {
        if y in IdsOf(s) {
          var i :| 0 <= i < |s| && s[i].id == y;
          if i < |front| {
            assert front[i] == s[i];
          }
        }
        if y in IdsOf(front) {
          var i :| 0 <= i < |front| && front[i].id == y;
          assert s[i] == front[i];
        }
      }
      assert x.id !in IdsOf(front) by {
        forall i | 0 <= i < |front| ensures front[i].id != x.id {
          assert front[i] == s[i];
        }
      }
      assert IdsOf(s) == IdsOf(front) + {x.id};
    }
  }

  /** A complete group holds exactly the ids of the parcels of `ps` bound
      for its destination, each once. */
  lemma CompleteIds(g: ParcelGroup, ps: seq<Parcel>)
    requires Complete(g, ps)
    ensures forall id :: HasId(g.parcels, id) <==> id in IdsAt(Entries(ps), g.destination)
    ensures |g.parcels| == |IdsAt(Entries(ps), g.destination)|
  {
    var s := g.parcels;
    var at := set q | q in ps && q.deliveryNode == g.destination :: q.id;
    EntriesIds(ps, g.destination);
    forall id ensures HasId(s, id) <==> id in at {
      if HasId(s, id) {
        var i :| 0 <= i < |s| && s[i].id == id;
        assert s[i] in ps && s[i].deliveryNode == g.destination;
      }
    }
    assert IdsOf(s) == at;
    DistinctIdsCount(s);
  }

  /** check_duplicates on a load of complete groups is HeldAt on its
      destinations. */
  lemma HoldsAt(load: seq<ParcelGroup>, ps: seq<Parcel>, id: int)
    requires forall i :: 0 <= i < |load| ==> Complete(load[i], ps)
    ensures Holds(load, id) <==> HeldAt(Entries(ps), Dests(load), id)
  {
    HeldAtSome(Entries(ps), Dests(load), id);
    forall i | 0 <= i < |load| ensures HasId(load[i].parcels, id) <==> id in IdsAt(Entries(ps), Dests(load)[i]) {
      CompleteIds(load[i], ps);
    }
  }

  /** get_load_count on a load of complete groups is CountAt on its
      destinations. */
  lemma {:induction false} TotalAt(load: seq<ParcelGroup>, ps: seq<Parcel>)
    requires forall i :: 0 <= i < |load| ==> Complete(load[i], ps)
    ensures TotalParcels(load) == CountAt(Entries(ps), Dests(load))
  {
    if load != [] {
      var front := load[..|load| - 1];
      assert Dests(front) == Dests(load)[..|load| - 1];
      TotalAt(front, ps);
      CompleteIds(load[|load| - 1], ps);
    }
  }

  /** get_load_count of a sound load, through entries. */
  lemma SoundCount(load: seq<ParcelGroup>, ps: seq<Parcel>, t: seq<Entry>, nodes: seq<Node?>)
    requires Sound(load, ps) && t == Entries(ps) && nodes == Dests(load)
    ensures TotalParcels(load) == CountAt(t, nodes)
  {
    TotalAt(load, ps);
  }

  /** The nodes of the parcels of `ps`. */
  ghost function NodesOf(ps: seq<Parcel>): set<Node?>
    reads ps`deliveryNode
  {
    set p | p in ps :: p.deliveryNode
  }

  /** The hub and the node of every parcel of `ps` are each at a known
      distance from one another: what a complete distance table gives
      once every parcel has its node. */
  ghost predicate Routable(hub: Node?, ps: seq<Parcel>)
    reads hub, ps`deliveryNode, NodesOf(ps)
  {
    && hub != null
    && (forall p :: p in ps ==> p.deliveryNode != null && hub.Distance(p.deliveryNode).Weight?)
    && (forall p, q :: p in ps && q in ps && p.deliveryNode != null ==> p.deliveryNode.Distance(q.deliveryNode).Weight?)
  }

  /** Over routable parcels, the destinations of complete groups can all
      be reached from the hub and from one another. */
  lemma LoadConnected(hub: Node?, load: seq<ParcelGroup>, ps: seq<Parcel>)
    requires Routable(hub, ps)
    requires forall g :: g in load ==> Complete(g, ps)
    ensures Resolved(ps)
    ensures Connected(hub, Dests(load))
  {
    var ds := Dests(load);
    forall i | 0 <= i < |ds|
      ensures load[i].parcels != [] && load[i].parcels[0] in ps && load[i].parcels[0].deliveryNode == ds[i]
    {
      assert Complete(load[i], ps);
    }
  }

  /** What run needs of a trimmed load built from routable parcels: its
      groups come from the load, its parcels from the table, it fits the
      truck and its destinations can all be reached from the hub. */
  lemma TrimmedLoad(hub: Node?, built: seq<ParcelGroup>, load: seq<ParcelGroup>, ps: seq<Parcel>, capacity: nat)
    requires Routable(hub, ps) && Sound(built, ps)
    requires Trim(built, capacity) == Some(load)
    ensures forall g :: g in load ==> g in built
    ensures ParcelsOf(load) <= set p | p in ps
    ensures TotalParcels(load) <= capacity
    ensures Connected(hub, Dests(load))
    ensures Distinct(Dests(load))
  {
    TrimOutcome(built, capacity);
    TrimDistinct(built, capacity);
    forall g | g in load ensures Complete(g, ps) {
      var i :| 0 <= i < |built| && built[i] == g;
    }
    LoadConnected(hub, load, ps);
  }

  /** A complete group for a parcel that no group of a sound load holds
      is bound for a node no group of the load is bound for. */
  lemma SoundSnoc(load: seq<ParcelGroup>, g: ParcelGroup, p: Parcel, ps: seq<Parcel>)
    requires Sound(load, ps) && Complete(g, ps)
    requires p in ps && p.deliveryNode == g.destination && !Holds(load, p.id)
    ensures Sound(load + [g], ps)
  {
    var r := load + [g];
    assert g.destination !in Dests(load);
    assert Dests(r) == Dests(load) + [g.destination];
    DistinctSnoc(Dests(load), g.destination);
    forall i | 0 <= i < |r| ensures Complete(r[i], ps) {
      if i < |load| {
        assert r[i] == load[i];
      }
    }
  }

  /** A load that grows at its end keeps holding what it held. */
  lemma HoldsExtend(a: seq<ParcelGroup>, r: seq<ParcelGroup>)
    requires |a| <= |r| && r[..|a|] == a
    ensures forall id :: Holds(a, id) ==> Holds(r, id)
  {
    forall id | Holds(a, id) ensures Holds(r, id) {
      var i :| 0 <= i < |a| && HasId(a[i].parcels, id);
      assert r[i] == a[i];
    }
  }

  /** A candidate is placed when some group holds it or the load has
      reached the capacity, so that build_parcel_list passed it over. */
  ghost predicate Placed(load: seq<ParcelGroup>, c: Parcel, capacity: nat)
    reads load
  {
    Holds(load, c.id) || TotalParcels(load) >= capacity
  }

  /** The loop of the linked expansion after `i` of the parcels
      `linked`, started on the load `start`: the load so far extends it
      and, for a sound start, is the first `i` entries added in turn. */
  ghost predicate Expanded(load: seq<ParcelGroup>, start: seq<ParcelGroup>, linked: seq<Parcel>,
                           good: bool, sound: bool, ps: seq<Parcel>, t: seq<Entry>, es: seq<Entry>, ld: seq<Node?>, i: nat)
    reads load, linked, ps
  {
    && i <= |linked| && |es| == |linked|
    && |start| <= |load| && load[..|start|] == start
    && (good ==> Resolved(ps) && forall q :: q in linked ==> q in ps)
    && (sound ==> good && Sound(load, ps) && t == Entries(ps) && es == Entries(linked))
    && (sound ==> Dests(load) == ExpandUpTo(t, ld, es, i))
  }

  /** The candidate loop of build_parcel_list after `i` of the
      candidates `cs`, started on the load `start`: the load so far extends
      it and, for a sound start, is the greedy pass over the first `i`
      entries. */
  ghost predicate Offered(load: seq<ParcelGroup>, start: seq<ParcelGroup>, cs: seq<Parcel>, capacity: nat,
                          good: bool, sound: bool, ps: seq<Parcel>, t: seq<Entry>, es: seq<Entry>, ld: seq<Node?>, i: nat)
    reads load, cs, ps
  {
    && i <= |cs| && |es| == |cs|
    && |start| <= |load| && load[..|start|] == start
    && (good ==> Resolved(ps) && forall c :: c in cs ==> c in ps)
    && (sound ==> good && Sound(load, ps) && t == Entries(ps) && es == Entries(cs))
    && (sound ==> Dests(load) == GreedyUpTo(t, capacity, ld, es, i))
  }

  /** At the end of the linked expansion the load extends its start and,
      for a sound start, is every entry added in turn. */
  lemma ExpandedDone(load: seq<ParcelGroup>, start: seq<ParcelGroup>, linked: seq<Parcel>,
                     good: bool, sound: bool, ps: seq<Parcel>, t: seq<Entry>, es: seq<Entry>, ld: seq<Node?>)
    requires Expanded(load, start, linked, good, sound, ps, t, es, ld, |linked|)
    ensures |start| <= |load| && load[..|start|] == start
    ensures sound ==> Sound(load, ps) && Dests(load) == ExpandAt(t, ld, es)
  {
    ExpandUpToAll(t, ld, es);
  }

  /** At the end of a candidate loop the load extends its start and, for
      a sound start, is the greedy pass over every entry. */
  lemma OfferedDone(load: seq<ParcelGroup>, start: seq<ParcelGroup>, cs: seq<Parcel>, capacity: nat,
                    good: bool, sound: bool, ps: seq<Parcel>, t: seq<Entry>, es: seq<Entry>, ld: seq<Node?>)
    requires Offered(load, start, cs, capacity, good, sound, ps, t, es, ld, |cs|)
    ensures |start| <= |load| && load[..|start|] == start
    ensures sound ==> Sound(load, ps) && Dests(load) == GreedyAt(t, capacity, ld, es)
  {
    GreedyUpToAll(t, capacity, ld, es);
  }

  /** The load the two candidate loops leave, offered the deadline
      candidates and then the sorted ones: sound, every candidate held
      unless the load has reached the capacity, and the load
      exactly the greedy pass over the candidates' entries. */
  ghost predicate Filled(load: seq<ParcelGroup>, ps: seq<Parcel>, deadline: seq<Parcel>, sorted: seq<Parcel>, capacity: nat)
    reads load, ps, deadline, sorted
  {
    && Sound(load, ps)
    && (forall c :: c in deadline ==> Placed(load, c, capacity))
    && (forall c :: c in sorted ==> Placed(load, c, capacity))
    && Dests(load) == GreedyAt(Entries(ps), capacity, [], Entries(deadline + sorted))
  }

  /** The two candidate loops as one greedy pass, which leaves the load
      Filled. */
  lemma FillPlan(load: seq<ParcelGroup>, ps: seq<Parcel>, deadline: seq<Parcel>, sorted: seq<Parcel>, capacity: nat,
                 first: seq<Node?>)
    requires Sound(load, ps)
    requires (forall c :: c in deadline ==> c in ps) && (forall c :: c in sorted ==> c in ps)
    requires first == GreedyAt(Entries(ps), capacity, [], Entries(deadline))
    requires Dests(load) == GreedyAt(Entries(ps), capacity, first, Entries(sorted))
    ensures Filled(load, ps, deadline, sorted, capacity)
  {
    EntriesAppend(deadline, sorted);
    GreedyAppend(Entries(ps), capacity, [], Entries(deadline), Entries(sorted));
    PlacedByPlan(load, ps, capacity, [], deadline + sorted);
  }

  twostate lemma FreshMembers(new s: seq<ParcelGroup>)
    requires forall i :: 0 <= i < |s| ==> fresh(s[i])
    ensures forall g :: g in s ==> fresh(g)
  {
  }

  /** After the linked expansion of a sound load every linked parcel of
      the table is held. */
  lemma LinkedHeld(load: seq<ParcelGroup>, ps: seq<Parcel>, nodes: seq<Node?>)
    requires Sound(load, ps)
    requires Dests(load) == ExpandAt(Entries(ps), nodes, LinkedEntries(Entries(ps)))
    ensures forall q :: q in ps && q.linked ==> Holds(load, q.id)
  {
    var t := Entries(ps);
    ExpandHolds(t, nodes, LinkedEntries(t));
    LinkedEntriesMembers(t);
    EntriesIndex(ps);
    forall q | q in ps && q.linked ensures Holds(load, q.id) {
      var i :| 0 <= i < |ps| && ps[i] == q;
      assert t[i] == EntryOf(q) && t[i] in t;
      HoldsAt(load, ps, q.id);
    }
  }

  /** Marking the parcels of load[i] keeps the parcels of the groups
      before it as they were marked. */
  twostate lemma StatusesKept(load: seq<ParcelGroup>, i: nat, s: string)
    requires i < |load|
    requires forall j :: 0 <= j < |load| ==> load[j].parcels == old(load[j].parcels)
    requires forall j, p :: 0 <= j < i && p in load[j].parcels ==> old(p.status) == s
    requires forall p :: p in load[i].parcels ==> p.status == s
    requires forall p: Parcel :: old(allocated(p)) && p !in load[i].parcels ==> p.status == old(p.status)
    ensures forall j :: 0 <= j <= i ==> forall p :: p in load[j].parcels ==> p.status == s
  {
  }

  /** The groups before load[i] and load[i] itself marked: the groups
      up to load[i] are. */
  lemma SentUpTo(load: seq<ParcelGroup>, i: nat, s: string)
    requires i < |load|
    requires forall j :: 0 <= j < i ==> forall p :: p in load[j].parcels ==> p.status == s
    requires forall p :: p in load[i].parcels ==> p.status == s
    ensures forall j :: 0 <= j <= i ==> forall p :: p in load[j].parcels ==> p.status == s
  {
  }

  /** Over the distinct destinations of a load the route visits each
      destination once, and the groups are distinct. */
  lemma RouteOver(hub: Node?, load: seq<ParcelGroup>, nodes: seq<Node?>)
    requires nodes == Dests(load) && Connected(hub, nodes)
    ensures Distinct(nodes) ==>
      && Distinct(load) && Distinct(Route(hub, nodes)) && |Route(hub, nodes)| == |load|
      && SameElements(Route(hub, nodes), nodes)
  {
    if Distinct(nodes) {
      RouteVisitsAll(hub, nodes);
      assert SameElements(Route(hub, nodes), nodes);
      DistinctDests(load);
    }
  }

  /** A sound load that is the greedy pass over candidates of the table
      holds each of them, unless it has reached the capacity. */
  lemma PlacedByPlan(load: seq<ParcelGroup>, ps: seq<Parcel>, capacity: nat, nodes: seq<Node?>, cs: seq<Parcel>)
    requires Sound(load, ps) && forall c :: c in cs ==> c in ps
    requires Dests(load) == GreedyAt(Entries(ps), capacity, nodes, Entries(cs))
    ensures forall c :: c in cs ==> Placed(load, c, capacity)
  {
    var t := Entries(ps);
    var es := Entries(cs);
    GreedyPlacedAll(t, capacity, nodes, es);
    SoundCount(load, ps, t, Dests(load));
    EntriesIndex(ps);
    EntriesIndex(cs);
    forall c | c in cs ensures Placed(load, c, capacity) {
      var i :| 0 <= i < |cs| && cs[i] == c;
      var k :| 0 <= k < |ps| && ps[k] == c;
      assert es[i] == EntryOf(c) == t[k];
      HoldsAt(load, ps, c.id);
    }
  }

  /** A parcel some group of a sound load holds adds nothing. */
  lemma GroupHeld(load: seq<ParcelGroup>, lp: Parcel, ps: seq<Parcel>)
    requires Sound(load, ps) && Holds(load, lp.id)
    ensures Dests(load) == AddAt(Entries(ps), Dests(load), EntryOf(lp))
  {
    HoldsAt(load, ps, lp.id);
  }

  /** The complete group of a parcel that no group holds joins the load:
      the parcel is held, and a sound load stays sound and grows by the
      parcel's node, as AddAt says. */
  lemma GroupJoins(load: seq<ParcelGroup>, lg: ParcelGroup, lp: Parcel, ps: seq<Parcel>, sound: bool)
    requires lp in ps && Complete(lg, ps) && lg.destination == lp.deliveryNode
    requires !Holds(load, lp.id)
    requires sound ==> Sound(load, ps)
    ensures Holds(load + [lg], lp.id)
    ensures sound ==> Sound(load + [lg], ps) && Dests(load + [lg]) == AddAt(Entries(ps), Dests(load), EntryOf(lp))
  {
    LinkedStep(load, lg, lp, [], ps, true);
    if sound {
      HoldsAt(load, ps, lp.id);
      assert Dests(load + [lg]) == Dests(load) + [lg.destination];
    }
  }

  /** One group of the linked expansion: what the load held stays held,
      the new parcel is held, and soundness is kept. */
  lemma LinkedStep(r: seq<ParcelGroup>, lg: ParcelGroup, lp: Parcel, seen: seq<Parcel>, ps: seq<Parcel>, good: bool)
    requires good ==> lp in ps && Complete(lg, ps) && lg.destination == lp.deliveryNode
    requires !Holds(r, lp.id)
    ensures forall id :: Holds(r, id) ==> Holds(r + [lg], id)
    ensures (forall q :: q in seen ==> Holds(r, q.id)) ==> forall q :: q in seen ==> Holds(r + [lg], q.id)
    ensures good ==> Holds(r + [lg], lp.id)
    ensures good && Sound(r, ps) ==> Sound(r + [lg], ps)
  {
    forall id | Holds(r, id) ensures Holds(r + [lg], id) {
      HoldsSnoc(r, lg, id);
    }
    forall q | q in seen && Holds(r, q.id) ensures Holds(r + [lg], q.id) {
      HoldsSnoc(r, lg, q.id);
    }
    if good {
      HoldsSnoc(r, lg, lp.id);
      if Sound(r, ps) {
        SoundSnoc(r, lg, lp, ps);
      }
    }
  }

  /** One pass of the route loop keeps its invariant: the route so far
      followed by the route from the nearest node over the rest is the
      whole route, and the rest is still connected and shorter. */
  lemma RouteAdvance(route: seq<Node?>, curr: Node?, nodes: seq<Node?>, whole: seq<Node?>)
    requires Connected(curr, nodes) && nodes != []
    requires route + Route(curr, nodes) == whole
    ensures var n := Nearest(curr, nodes); var rest := RemoveFirst(nodes, n);
      && Connected(n, rest) && |rest| < |nodes|
      && (route + [n]) + Route(n, rest) == whole
  {
    ConnectedStep(curr, nodes);
    var n := Nearest(curr, nodes);
    var rest := RemoveFirst(nodes, n);
    RouteStep(curr, nodes);
    var tail := Route(n, rest);
    assert route + ([n] + tail) == (route + [n]) + tail;
  }

  /** The inner loop of the route: each listed node strictly closer than
      the choice so far (None, at infinity, to begin with) replaces it.
      The chosen node is the nearest, and the route loop's invariant, with
      the ghost `route` so far and `whole` route, holds again once it is appended
      and taken off the list. */
  method NextStop(curr: Node, nodes: seq<Node?>, ghost route: seq<Node?>, ghost whole: seq<Node?>)
    returns (next: Node?)
    requires Connected(curr, nodes) && nodes != []
    requires route + Route(curr, nodes) == whole
    ensures next == Nearest(curr, nodes)
    ensures Connected(next, RemoveFirst(nodes, next)) && |RemoveFirst(nodes, next)| < |nodes|
    ensures (route + [next]) + Route(next, RemoveFirst(nodes, next)) == whole
  {
    next := null;
    var j := 0;
    while j < |nodes|
      invariant 0 <= j <= |nodes|
      invariant next == Nearest(curr, nodes[..j])
    {
      assert nodes[..j + 1][..j] == nodes[..j];
      if Closer(curr.Distance(nodes[j]), curr.Distance(next)) {
        next := nodes[j];
      }
      j := j + 1;
    }
    assert nodes[..j] == nodes;
    RouteAdvance(route, curr, nodes, whole);
  }

  /** The route loop of reorder_parcels: from `start`, the nearest of the
      destinations still listed (the first of equals, None at infinity
      never chosen over a node at a known distance) is appended to the
      route, taken off the list, and becomes the current node. */
  method RouteFrom(start: Node?, ns: seq<Node?>) returns (route: seq<Node?>)
    requires Connected(start, ns)
    ensures route == old(Route(start, ns))
  {
    ghost var whole := Route(start, ns);
    var nodes := ns;
    var curr := start;
    route := [];
    while |nodes| > 0
      invariant Connected(curr, nodes)
      invariant route + Route(curr, nodes) == whole
      decreases |nodes|
    {
      var next := NextStop(curr, nodes, route, whole);
      route := route + [next];
      nodes := RemoveFirst(nodes, next);
      curr := next;
    }
  }

  class Loader {
    const parcelTable: Table<Parcel>
    const graph: Graph

    /** The parcel table and the graph are well formed. */
    ghost predicate Valid()
      reads parcelTable, parcelTable.buckets, graph, graph.nodes, graph.nodes.buckets
    {
      parcelTable.Valid() && graph.Valid()
    }

    /** Valid depends only on the two tables. */
    twostate lemma ValidKept()
      requires old(Valid())
      requires unchanged(parcelTable, parcelTable.buckets, graph.nodes, graph.nodes.buckets)
      ensures Valid()
    {
    }

    /** The parcels of the table, in items() order. */
    ghost function Parcels(): seq<Parcel>
      reads parcelTable, parcelTable.buckets
    {
      parcelTable.AllValues()
    }

    constructor (parcelTable: Table<Parcel>, graph: Graph)
      ensures this.parcelTable == parcelTable && this.graph == graph
    {
      this.parcelTable := parcelTable;
      this.graph := graph;
    }

    /** get_remaining_parcels: the parcels at the hub without a deadline. */
    method GetRemainingParcels() returns (r: seq<Parcel>)
      ensures Filter(Parcels(), RemainingCriteria) == Some(r)
      ensures forall p :: p in r ==> p in Parcels()
    {
      var found := Lookup(parcelTable, RemainingCriteria);
      FilterWithoutId(Parcels(), RemainingCriteria);
      r := found.value;
    }

    /** The deadline lookup of run: the parcels at the hub with a
        deadline. */
    method DeadlineParcels() returns (r: seq<Parcel>)
      ensures Filter(Parcels(), DeadlineCriteria) == Some(r)
      ensures forall p :: p in r ==> p in Parcels()
    {
      var found := Lookup(parcelTable, DeadlineCriteria);
      FilterWithoutId(Parcels(), DeadlineCriteria);
      r := found.value;
    }

    /** set_parcel_priority: 0 without a deadline, else 5 minus the hours
        (rounded up) from 8:00 to the deadline. */
    method SetParcelPriority(p: Parcel)
      modifies p`priority
      ensures p.priority == DeadlinePriority(p.deadline)
    {
      var priority := Fin(0);
      if p.deadline.Some? {
        priority := Fin(5 - CeilDiv(p.deadline.value - 800, 60));
      }
      p.SetPriority(priority);
    }

    /** confirm_links: a parcel that names companions is linked; otherwise
        it is linked when some parcel of the table names it. */
    method ConfirmLinks(p: Parcel)
      requires Valid()
      modifies p`linked
      ensures p.linked == (old(p.linked) || p.companionParcels || Named(Parcels(), p.id))
    {
      if p.companionParcels {
        p.linked := true;
      } else {
        var items := parcelTable.Items();
        var i := 0;
        while i < |items|
          invariant 0 <= i <= |items|
          invariant p.linked == (old(p.linked) || exists j :: 0 <= j < i && p.id in items[j].companions)
        {
          if |items[i].companions| > 0 {
            if p.id in items[i].companions {
              p.linked := true;
            }
          }
          i := i + 1;
        }
      }
    }

    /** load: every parcel of the table gets its deadline priority and its
        linked flag, and nothing else changes. */
    method Load()
      requires Valid()
      // the values of a generic table are not known to be allocated otherwise
      requires forall p :: p in Parcels() ==> allocated(p)
      modifies Parcels()`priority, Parcels()`linked
      ensures forall p :: p in Parcels() ==>
        && p.priority == DeadlinePriority(p.deadline)
        && p.linked == (old(p.linked) || p.companionParcels || Named(Parcels(), p.id))
    {
      var items := parcelTable.Items();
      ghost var done: set<Parcel> := {};
      var i := 0;
      while i < |items|
        invariant 0 <= i <= |items|
        invariant forall j :: 0 <= j < i ==> items[j] in done
        invariant forall p :: p in items && p !in done ==> p.linked == old(p.linked)
        invariant forall p :: p in items && p in done ==>
          p.priority == DeadlinePriority(p.deadline)
          && p.linked == (old(p.linked) || p.companionParcels || Named(items, p.id))
      {
        var p := items[i];
        Prepare(p);
        done := done + {p};
        i := i + 1;
      }
    }

    /** The body of load's loop, for one parcel. */
    method Prepare(p: Parcel)
      requires Valid()
      modifies p`priority, p`linked
      ensures p.priority == DeadlinePriority(p.deadline)
      ensures p.linked == (old(p.linked) || p.companionParcels || Named(Parcels(), p.id))
    {
      SetParcelPriority(p);
      ConfirmLinks(p);
    }

    /** create_parcel_group: a new group holding the table's parcels bound
        for the parcel's node, added one by one; `ok` is false where
        add_parcel raises for a parcel bound elsewhere. A parcel with a node
        gets a group without raising; for a parcel of the table, the group
        is complete. */
    method CreateParcelGroup(p: Parcel) returns (g: ParcelGroup, ok: bool)
      requires Valid()
      requires forall q :: q in Parcels() ==> allocated(q)
      ensures fresh(g)
      ensures forall q :: q in g.parcels ==> q in Parcels()
      ensures DistinctIds(g.parcels)
      ensures p.deliveryNode != null ==>
        ok && BuiltFrom(g, g.parcels) && (g.parcels != [] ==> g.destination == p.deliveryNode)
      ensures p.deliveryNode != null && p in Parcels() ==> Complete(g, Parcels())
    {
      var destination := p.deliveryNode;
      var items := ParcelsAt(destination);
      g, ok := FillGroup(items, destination);
      if destination != null && p in Parcels() {
        assert HasId(g.parcels, p.id);
      }
    }

    /** create_parcel_group for a parcel that the load does not hold: the
        new group leaves the load as it was. */
    method NewGroup(p: Parcel, ghost load: seq<ParcelGroup>, ghost sound: bool, ghost ps: seq<Parcel>,
                    ghost t: seq<Entry>, ghost nodes: seq<Node?>, ghost e: Entry)
      returns (g: ParcelGroup, ok: bool)
      requires Valid()
      requires forall q :: q in Parcels() ==> allocated(q)
      requires ps == Parcels()
      requires !Holds(load, p.id)
      requires sound ==> Sound(load, ps) && t == Entries(ps) && nodes == Dests(load) && e == EntryOf(p)
      ensures Valid() && Parcels() == ps
      ensures fresh(g)
      ensures !Holds(load, p.id)
      ensures sound ==> t == Entries(ps) && nodes == Dests(load) && e == EntryOf(p)
      ensures p.deliveryNode != null ==>
        ok && BuiltFrom(g, g.parcels) && (g.parcels != [] ==> g.destination == p.deliveryNode)
      ensures p.deliveryNode != null && p in ps ==> Complete(g, ps)
      ensures sound ==> Sound(load, ps)
    {
      g, ok := CreateParcelGroup(p);
    }

    /** The loop of create_parcel_group: a new group, and add_parcel for
        each item in turn until one raises. */
    method FillGroup(items: seq<Parcel>, ghost destination: Node?) returns (g: ParcelGroup, ok: bool)
      requires destination != null ==> forall q :: q in items ==> q.deliveryNode == destination
      ensures fresh(g)
      ensures Growing(g, destination)
      ensures forall q :: q in g.parcels ==> q in items
      ensures ok ==> forall q :: q in items ==> HasId(g.parcels, q.id)
      ensures destination != null ==> ok
    {
      g := new ParcelGroup();
      ok := true;
      var i := 0;
      while i < |items|
        invariant 0 <= i <= |items|
        invariant ok && Growing(g, destination)
        invariant forall q :: q in g.parcels ==> q in items
        invariant forall j :: 0 <= j < i ==> HasId(g.parcels, items[j].id)
      {
        var item := items[i];
        ghost var before := g.parcels;
        ok := AddItem(g, item, destination);
        HasIdSnoc(before, item, items[..i + 1]);
        if !ok {
          return;
        }
        i := i + 1;
      }
      forall q | q in items ensures HasId(g.parcels, q.id) {
        var k :| 0 <= k < |items| && items[k] == q;
      }
    }

    /** lookup(delivery_node=destination): with no node, every parcel of
        the table; with a node, exactly the table's parcels bound for it. */
    method ParcelsAt(destination: Node?) returns (items: seq<Parcel>)
      ensures destination == null ==> forall q :: q in Parcels() ==> q in items
      ensures forall q :: q in items ==> q in Parcels()
      ensures destination != null ==> forall q :: q in items ==> q.deliveryNode == destination
      ensures destination != null ==> forall q :: q in Parcels() && q.deliveryNode == destination ==> q in items
    {
      var found := Lookup(parcelTable, NodeCriteria(destination));
      FilterWithoutId(Parcels(), NodeCriteria(destination));
      items := found.value;
      if destination == null {
        FilterNoCriteria(Parcels());
      } else {
        forall q | q in items ensures q.deliveryNode == destination {
          FilterNodeOnly(Parcels(), destination, q);
        }
        forall q | q in Parcels() && q.deliveryNode == destination ensures q in items {
          FilterNodeFinds(Parcels(), destination, q);
        }
      }
    }

    /** A group being filled for `destination`: its ids are distinct, and
        when the destination is a node, the group is built from its parcels
        and bound for that node once it has any. */
    ghost predicate Growing(g: ParcelGroup, destination: Node?)
      reads g, g.parcels
    {
      && DistinctIds(g.parcels)
      && (destination != null ==>
            && BuiltFrom(g, g.parcels)
            && (g.destination == null <==> g.parcels == [])
            && (g.destination != null ==> g.destination == destination))
    }

    /** One pass of the loop of create_parcel_group: add_parcel on the
        group. A parcel bound for the group's node never makes it raise. */
    method AddItem(g: ParcelGroup, item: Parcel, ghost destination: Node?) returns (ok: bool)
      requires Growing(g, destination)
      requires destination != null ==> item.deliveryNode == destination
      modifies g
      ensures Growing(g, destination)
      ensures g.parcels == if HasId(old(g.parcels), item.id) then old(g.parcels) else old(g.parcels) + [item]
      ensures destination != null ==> ok
    {
      ghost var before := g.parcels;
      if !HasId(before, item.id) {
        AddParcelDistinct(before, item);
        if destination != null {
          AddParcelKeepsBuilt(g, before, item, MaxExt(g.maxPriority, item.priority),
            if g.destination == null then item.deliveryNode else g.destination, g.linked || item.linked);
        }
      }
      ok := g.AddParcel(item);
    }

    /** get_all_linked_parcels: the linked parcels of the table, in items()
        order. */
    method GetAllLinkedParcels() returns (r: seq<Parcel>)
      requires Valid()
      ensures r == LinkedOf(Parcels())
    {
      var items := parcelTable.Items();
      r := [];
      var i := 0;
      while i < |items|
        invariant 0 <= i <= |items|
        invariant r == LinkedOf(items[..i])
      {
        assert items[..i + 1][..i] == items[..i];
        if items[i].linked {
          r := r + [items[i]];
        }
        i := i + 1;
      }
      assert items[..i] == items;
    }

    /** One candidate of build_parcel_list (loader.py:119-128, 131-140):
        while the load is under capacity, a parcel no group holds gets the
        group of its node, and a linked parcel then brings the group of
        every linked parcel not yet held. `ok` is false where add_parcel
        raises; `ps` is the table's parcels. `good` says the table parcels
        all have their nodes and `p` is one of them, `sound` that the load
        is sound as well: under them the load grows as OfferAt says. */
    method AddCandidate(load: seq<ParcelGroup>, p: Parcel, capacity: nat,
                        ghost good: bool, ghost sound: bool, ghost ps: seq<Parcel>,
                        ghost t: seq<Entry>, ghost nodes: seq<Node?>, ghost e: Entry)
      returns (r: seq<ParcelGroup>, ok: bool)
      requires Valid()
      requires forall q :: q in Parcels() ==> allocated(q)
      requires ps == Parcels()
      requires good ==> Resolved(ps) && p in ps
      requires sound ==> good && Sound(load, ps)
      requires sound ==> t == Entries(ps) && nodes == Dests(load) && e == EntryOf(p)
      ensures Valid() && Parcels() == ps
      ensures |load| <= |r| && r[..|load|] == load
      ensures forall g :: g in r && g !in load ==> fresh(g)
      ensures TotalParcels(load) >= capacity || Holds(load, p.id) ==> r == load && ok
      ensures good ==> ok
      ensures good && TotalParcels(load) < capacity ==> Holds(r, p.id)
      ensures sound && TotalParcels(load) < capacity && !Holds(load, p.id) && p.linked ==>
        forall q :: q in ps && q.linked ==> Holds(r, q.id)
      ensures sound ==> Sound(r, ps) && Dests(r) == OfferAt(t, capacity, nodes, e)
    {
      r, ok := load, true;
      var count := GetLoadCount(load);
      if sound {
        SoundCount(load, ps, t, nodes);
      }
      if count < capacity {
        r, ok := AddWithLinks(load, p, good, sound, ps, t, nodes, e, count);
      }
    }

    /** The body of the candidate test: the parcel's group, and for a
        linked parcel the linked expansion after it. */
    method AddWithLinks(load: seq<ParcelGroup>, p: Parcel, ghost good: bool, ghost sound: bool, ghost ps: seq<Parcel>,
                        ghost t: seq<Entry>, ghost nodes: seq<Node?>, ghost e: Entry, ghost count: nat)
      returns (r: seq<ParcelGroup>, ok: bool)
      requires Valid()
      requires forall q :: q in Parcels() ==> allocated(q)
      requires ps == Parcels()
      requires good ==> Resolved(ps) && p in ps
      requires sound ==> good && Sound(load, ps)
      requires sound ==> t == Entries(ps) && nodes == Dests(load) && e == EntryOf(p)
      requires count == TotalParcels(load)
      ensures Valid() && Parcels() == ps
      ensures count == TotalParcels(load)
      ensures |load| <= |r| && r[..|load|] == load
      ensures forall g :: g in r && g !in load ==> fresh(g)
      ensures Holds(load, p.id) ==> r == load && ok
      ensures good ==> ok && Holds(r, p.id)
      ensures sound && !Holds(load, p.id) && p.linked ==> forall q :: q in ps && q.linked ==> Holds(r, q.id)
      ensures sound ==> Sound(r, ps) && Dests(r) == TakeAt(t, nodes, e)
    {
      r, ok := AddGroupFor(load, p, good, sound, ps, t, nodes, e);
      ghost var mid := r;
      ghost var expanded := ok && |r| > |load| && p.linked;
      if ok && |r| > |load| && p.linked {
        r, ok := AddLinkedGroups(r, good, sound, ps, t, Dests(mid));
        HoldsExtend(mid, r);
      }
      if sound {
        TakeOutcome(t, nodes, Dests(mid), Dests(r), e, expanded);
      }
    }

    /** The linked expansion of build_parcel_list (loader.py:124-128,
        136-140): each linked parcel of the table that no group holds gets
        the group of its node, whatever the load count. */
    method AddLinkedGroups(load: seq<ParcelGroup>, ghost good: bool, ghost sound: bool, ghost ps: seq<Parcel>,
                           ghost t: seq<Entry>, ghost nodes: seq<Node?>)
      returns (r: seq<ParcelGroup>, ok: bool)
      requires Valid()
      requires forall q :: q in Parcels() ==> allocated(q)
      requires ps == Parcels()
      requires good ==> Resolved(ps)
      requires sound ==> good && Sound(load, ps)
      requires sound ==> t == Entries(ps) && nodes == Dests(load)
      ensures Valid() && Parcels() == ps
      ensures |load| <= |r| && r[..|load|] == load
      ensures forall g :: g in r && g !in load ==> fresh(g)
      ensures good ==> ok
      ensures sound ==> Sound(r, ps) && Dests(r) == ExpandAt(t, nodes, LinkedEntries(t))
      ensures sound ==> forall q :: q in ps && q.linked ==> Holds(r, q.id)
    {
      var linked := LinkedParcels(load, sound, ps, t, nodes);
      ghost var es := LinkedEntries(Entries(ps));
      LinkedOfIn(ps);
      EntriesLinked(ps);
      r, ok := AddEach(load, linked, good, sound, ps, t, nodes, es);
      if sound {
        LinkedHeld(r, ps, nodes);
      }
    }

    /** get_all_linked_parcels, keeping what is known of the load. */
    method LinkedParcels(ghost load: seq<ParcelGroup>, ghost sound: bool, ghost ps: seq<Parcel>,
                         ghost t: seq<Entry>, ghost nodes: seq<Node?>)
      returns (linked: seq<Parcel>)
      requires Valid()
      requires ps == Parcels()
      requires sound ==> Sound(load, ps) && t == Entries(ps) && nodes == Dests(load)
      ensures Valid() && Parcels() == ps
      ensures linked == LinkedOf(ps)
      ensures sound ==> Sound(load, ps) && t == Entries(ps) && nodes == Dests(load)
    {
      linked := GetAllLinkedParcels();
    }

    /** The loop of the linked expansion, over a list of table parcels. */
    method AddEach(load: seq<ParcelGroup>, linked: seq<Parcel>, ghost good: bool, ghost sound: bool, ghost ps: seq<Parcel>,
                   ghost t: seq<Entry>, ghost ld: seq<Node?>, ghost es: seq<Entry>)
      returns (r: seq<ParcelGroup>, ok: bool)
      requires Valid()
      requires forall q :: q in Parcels() ==> allocated(q)
      requires ps == Parcels()
      requires good ==> Resolved(ps) && forall q :: q in linked ==> q in ps
      requires sound ==> good && Sound(load, ps)
      requires es == Entries(linked)
      requires sound ==> t == Entries(ps) && ld == Dests(load)
      ensures Valid() && Parcels() == ps
      ensures |load| <= |r| && r[..|load|] == load
      ensures forall g :: g in r && g !in load ==> fresh(g)
      ensures good ==> ok
      ensures sound ==> Sound(r, ps) && Dests(r) == ExpandAt(t, ld, es)
    {
      r, ok := load, true;
      var i := 0;
      while i < |linked|
        invariant Valid() && Parcels() == ps
        invariant ok
        invariant forall g :: g in r && g !in load ==> fresh(g)
        invariant Expanded(r, load, linked, good, sound, ps, t, es, ld, i)
      {
        r, ok := Link(r, load, linked, i, good, sound, ps, t, es, ld);
        if !ok {
          return;
        }
        i := i + 1;
      }
      ExpandedDone(r, load, linked, good, sound, ps, t, es, ld);
    }

    /** One pass of the linked expansion: linked[i] gets its group unless
        the load holds it, and the parcels before it stay held. */
    method Link(load: seq<ParcelGroup>, ghost start: seq<ParcelGroup>, linked: seq<Parcel>, i: nat,
                ghost good: bool, ghost sound: bool, ghost ps: seq<Parcel>,
                ghost t: seq<Entry>, ghost es: seq<Entry>, ghost ld: seq<Node?>)
      returns (r: seq<ParcelGroup>, ok: bool)
      requires Valid()
      requires forall q :: q in Parcels() ==> allocated(q)
      requires ps == Parcels()
      requires i < |linked|
      requires Expanded(load, start, linked, good, sound, ps, t, es, ld, i)
      ensures Valid() && Parcels() == ps
      ensures forall g :: g in r && g !in load ==> fresh(g)
      ensures good ==> ok && Holds(r, linked[i].id)
      ensures Expanded(r, start, linked, good, sound, ps, t, es, ld, i + 1)
    {
      EntryAt(linked, i);
      ghost var nodes := ExpandUpTo(t, ld, es, i);
      r, ok := AddGroupFor(load, linked[i], good, sound, ps, t, nodes, es[i]);
      if r != load {
        assert r == load + [r[|load|]];
        assert r[..|start|] == load[..|start|];
      }
    }

    /** `if not check_duplicates(load, p): load.append(create_parcel_group(p))`:
        the group of the parcel's node is added unless some group already
        holds the parcel. `ok` is false where add_parcel raises. */
    method AddGroupFor(load: seq<ParcelGroup>, lp: Parcel, ghost good: bool, ghost sound: bool, ghost ps: seq<Parcel>,
                       ghost t: seq<Entry>, ghost nodes: seq<Node?>, ghost e: Entry)
      returns (r: seq<ParcelGroup>, ok: bool)
      requires Valid()
      requires forall q :: q in Parcels() ==> allocated(q)
      requires ps == Parcels()
      requires good ==> Resolved(ps) && lp in ps
      requires sound ==> good && Sound(load, ps)
      requires sound ==> t == Entries(ps) && nodes == Dests(load) && e == EntryOf(lp)
      ensures Valid() && Parcels() == ps
      ensures r == load || (|r| == |load| + 1 && r[..|load|] == load && fresh(r[|load|]))
      ensures Holds(load, lp.id) ==> r == load && ok
      ensures !Holds(load, lp.id) && ok ==> |r| == |load| + 1
      ensures good ==> ok && Holds(r, lp.id)
      ensures sound ==> Sound(r, ps) && Dests(r) == AddAt(t, nodes, e)
    {
      r, ok := load, true;
      var duplicate := CheckDuplicates(load, lp);
      if duplicate {
        if sound {
          GroupHeld(load, lp, ps);
        }
      } else {
        var lg;
        lg, ok := NewGroup(lp, load, sound, ps, t, nodes, e);
        if ok {
          r := load + [lg];
          HoldsExtend(load, r);
          if good {
            GroupJoins(load, lg, lp, ps, sound);
          }
        }
      }
    }

    /** build_parcel_list: the deadline parcels first, then the remaining
        parcels by descending priority, each offered to the load as a
        candidate; the load is then trimmed to the truck's capacity. `r` is
        None where add_parcel or the trim raises; `built` is the load before
        the trim. For table parcels with their nodes, the load is sound,
        every candidate is held unless the load filled up, and the result
        is the trim of the load. */
    method BuildParcelList(truck: Truck, deadline: seq<Parcel>, remaining: seq<Parcel>, ghost ps: seq<Parcel>)
      returns (r: Option<seq<ParcelGroup>>, ghost built: seq<ParcelGroup>)
      requires Valid()
      requires forall q :: q in Parcels() ==> allocated(q)
      requires ps == Parcels()
      ensures forall g :: g in built ==> fresh(g)
      ensures r.Some? ==> r == Trim(built, truck.capacity)
      ensures Resolved(ps) && (forall c :: c in deadline ==> c in ps) && (forall c :: c in remaining ==> c in ps) ==>
        && r == Trim(built, truck.capacity)
        && Filled(built, ps, deadline, old(SortDescending(remaining)), truck.capacity)
        && (forall c :: c in remaining ==> Placed(built, c, truck.capacity))
    {
      var capacity := truck.capacity;
      var sorted := SortRemaining(remaining);
      ghost var good := Resolved(ps) && (forall c :: c in deadline ==> c in ps) && (forall c :: c in remaining ==> c in ps);
      var load, ok := FillLoad(deadline, sorted, capacity, good, ps);
      built := load;
      if !ok {
        return None, built;
      }
      r := TrimFilled(load, capacity, good, ps, deadline, sorted, remaining);
    }

    /** The trim after the candidate loops, which changes no group. */
    method TrimFilled(load: seq<ParcelGroup>, capacity: nat, ghost good: bool, ghost ps: seq<Parcel>,
                      ghost deadline: seq<Parcel>, ghost sorted: seq<Parcel>, ghost remaining: seq<Parcel>)
      returns (r: Option<seq<ParcelGroup>>)
      requires good ==> Filled(load, ps, deadline, sorted, capacity) && forall c :: c in remaining ==> Placed(load, c, capacity)
      ensures r == Trim(load, capacity)
      ensures good ==> Filled(load, ps, deadline, sorted, capacity) && forall c :: c in remaining ==> Placed(load, c, capacity)
    {
      r := TrimLoad(load, capacity);
    }

    /** The two candidate loops of build_parcel_list: the deadline parcels,
        then the sorted remaining parcels, offered to one load that starts
        empty. */
    method FillLoad(deadline: seq<Parcel>, sorted: seq<Parcel>, capacity: nat, ghost good: bool, ghost ps: seq<Parcel>)
      returns (load: seq<ParcelGroup>, ok: bool)
      requires Valid()
      requires forall q :: q in Parcels() ==> allocated(q)
      requires ps == Parcels()
      requires good ==> Resolved(ps) && (forall c :: c in deadline ==> c in ps) && (forall c :: c in sorted ==> c in ps)
      ensures Valid() && Parcels() == ps
      ensures forall g :: g in load ==> fresh(g)
      ensures good ==> ok && Filled(load, ps, deadline, sorted, capacity)
    {
      ghost var t, ed, es := Entries(ps), Entries(deadline), Entries(sorted);
      ghost var mid := GreedyAt(t, capacity, [], ed);
      var first;
      first, ok := AddCandidates([], deadline, capacity, good, good, ps, t, [], ed);
      load := first;
      if !ok {
        return;
      }
      load, ok := AddCandidates(first, sorted, capacity, good, good, ps, t, mid, es);
      if good {
        FillPlan(load, ps, deadline, sorted, capacity, Dests(first));
      }
    }

    /** remaining_parcels.sort(reverse=True): the stable sort by
        descending priority, which keeps every parcel. */
    method SortRemaining(remaining: seq<Parcel>) returns (sorted: seq<Parcel>)
      ensures sorted == old(SortDescending(remaining))
      ensures forall c :: c in sorted <==> c in remaining
    {
      sorted := SortDescending(remaining);
      assert multiset(sorted) == multiset(remaining);
      assert forall c :: c in remaining ==> c in multiset(remaining);
    }

    /** The candidate loop of build_parcel_list, over one list. */
    method AddCandidates(load: seq<ParcelGroup>, cs: seq<Parcel>, capacity: nat,
                         ghost good: bool, ghost sound: bool, ghost ps: seq<Parcel>,
                         ghost t: seq<Entry>, ghost ld: seq<Node?>, ghost es: seq<Entry>)
      returns (r: seq<ParcelGroup>, ok: bool)
      requires Valid()
      requires forall q :: q in Parcels() ==> allocated(q)
      requires ps == Parcels()
      requires good ==> Resolved(ps) && forall c :: c in cs ==> c in ps
      requires sound ==> good && Sound(load, ps)
      requires |es| == |cs|
      requires sound ==> t == Entries(ps) && es == Entries(cs) && ld == Dests(load)
      ensures Valid() && Parcels() == ps
      ensures |load| <= |r| && r[..|load|] == load
      ensures forall g :: g in r && g !in load ==> fresh(g)
      ensures good ==> ok
      ensures sound ==> Sound(r, ps) && Dests(r) == GreedyAt(t, capacity, ld, es)
    {
      r, ok := load, true;
      var i := 0;
      while i < |cs|
        invariant Valid() && Parcels() == ps
        invariant forall g :: g in r && g !in load ==> fresh(g)
        invariant good ==> ok
        invariant Offered(r, load, cs, capacity, good, sound, ps, t, es, ld, i)
      {
        r, ok := Offer(r, load, cs, i, capacity, good, sound, ps, t, es, ld);
        if !ok {
          return;
        }
        i := i + 1;
      }
      OfferedDone(r, load, cs, capacity, good, sound, ps, t, es, ld);
    }

    /** One pass of the candidate loop: candidate cs[i] is offered to the
        load the candidates before it left, and ends up held unless that
        load was full. */
    method Offer(load: seq<ParcelGroup>, ghost start: seq<ParcelGroup>, cs: seq<Parcel>, i: nat, capacity: nat,
                 ghost good: bool, ghost sound: bool, ghost ps: seq<Parcel>,
                 ghost t: seq<Entry>, ghost es: seq<Entry>, ghost ld: seq<Node?>)
      returns (r: seq<ParcelGroup>, ok: bool)
      requires Valid()
      requires forall q :: q in Parcels() ==> allocated(q)
      requires ps == Parcels()
      requires i < |cs|
      requires Offered(load, start, cs, capacity, good, sound, ps, t, es, ld, i)
      ensures Valid() && Parcels() == ps
      ensures forall g :: g in r && g !in load ==> fresh(g)
      ensures good ==> ok
      ensures good ==> Holds(r, cs[i].id) || TotalParcels(load) >= capacity
      ensures Offered(r, start, cs, capacity, good, sound, ps, t, es, ld, i + 1)
    {
      EntryAt(cs, i);
      ghost var nodes := GreedyUpTo(t, capacity, ld, es, i);
      r, ok := AddCandidate(load, cs[i], capacity, good, sound, ps, t, nodes, es[i]);
      GreedyUpToNext(t, capacity, ld, es, i);
      assert r[..|start|] == load[..|start|];
    }

    /** The trim of build_parcel_list: while the load is over capacity,
        the group at `offset` is removed if it is not linked and skipped
        if it is; running off the end raises IndexError (None). The count
        get_load_count takes each time is TotalParcels (see GetLoadCount). */
    method TrimLoad(load: seq<ParcelGroup>, capacity: nat) returns (r: Option<seq<ParcelGroup>>)
      ensures r == Trim(load, capacity)
    {
      var cur := load;
      var offset := 0;
      ghost var k := 0;
      assert load[..0] == [] && load[0..] == load;
      while TotalParcels(cur) > capacity
        invariant 0 <= k <= |load|
        invariant cur == TrimmedAt(load, k)
        invariant offset == |LinkedGroups(load[..k])|
        invariant |cur| == offset + (|load| - k)
        invariant Trim(load, capacity) == TrimFrom(load, capacity, k)
        decreases |load| - k
      {
        if offset >= |cur| {
          return None;
        }
        TrimStep(load, k);
        TrimFromNext(load, capacity, k);
        if !cur[offset].IsLinked() {
          cur := RemoveFirst(cur, cur[offset]);
        } else {
          offset := offset + 1;
        }
        k := k + 1;
      }
      r := Some(cur);
    }

    /** The node get_node(1) returns: the hub, where every route starts. */
    ghost function Hub(): Node?
      reads graph, graph.nodes
    {
      if 1 in graph.nodes.contents then graph.nodes.contents[1] else null
    }

    /** reorder_parcels: the route from the hub through the load's
        destinations, nearest first; then the groups in route order, each
        given the priority n + p**2 - i for its route position i. With
        distinct destinations the new load is a rearrangement of the old
        one, group k is bound for stop k of the route, and its priority is
        the new one for position k. */
    method ReorderParcels(load: seq<ParcelGroup>) returns (r: seq<ParcelGroup>)
      requires Valid()
      requires allocated(Hub())
      requires Connected(Hub(), Dests(load))
      modifies load`maxPriority
      ensures r == Arrange(old(Route(Hub(), Dests(load))), load, old(Dests(load)))
      ensures old(Distinct(Dests(load))) ==> |r| == |load| && Distinct(r) && forall g :: g in r <==> g in load
      ensures old(Distinct(Dests(load))) ==>
        && |old(Route(Hub(), Dests(load)))| == |r|
        && forall k :: 0 <= k < |r| ==>
          && r[k] in load
          && r[k].destination == old(Route(Hub(), Dests(load)))[k]
          && r[k].maxPriority == ReorderPriority(|load|, old(r[k].maxPriority), k)
    {
      var route, nodes := PlanRoute(load);
      ghost var unique := Distinct(nodes) && Distinct(load);
      if unique {
        ArrangePermutes(route, load, nodes);
        ArrangeDistinct(route, load, nodes);
      }
      r := AssignPriorities(route, load, nodes);
      if unique {
        forall k | 0 <= k < |r|
          ensures r[k] in load && r[k].destination == route[k]
          ensures r[k].maxPriority == ReorderPriority(|load|, old(r[k].maxPriority), k)
        {
          var m := IndexOf(nodes, route[k]);
          assert r[k] == load[m];
        }
      }
    }

    /** The first half of reorder_parcels: the destinations of the load
        and the route through them from the hub. Over distinct
        destinations the route visits each of them once. */
    method PlanRoute(load: seq<ParcelGroup>) returns (route: seq<Node?>, nodes: seq<Node?>)
      requires Valid()
      requires allocated(Hub())
      requires Connected(Hub(), Dests(load))
      ensures nodes == old(Dests(load))
      ensures route == old(Route(Hub(), Dests(load)))
      ensures Distinct(nodes) ==>
        && Distinct(load) && Distinct(route) && |route| == |load|
        && SameElements(route, nodes)
    {
      nodes := Dests(load);
      RouteOver(Hub(), load, nodes);
      var hub := graph.GetNode(1);
      route := RouteFrom(hub, nodes);
    }

    /** The priority pass of reorder_parcels: for each stop of the route,
        the groups bound for it (by their destinations `ds`) are given
        their new priority and appended. Over a load of distinct groups
        and a route of distinct stops, each group bound for stop k gets
        the priority for position k. */
    method AssignPriorities(route: seq<Node?>, load: seq<ParcelGroup>, ghost ds: seq<Node?>)
      returns (r: seq<ParcelGroup>)
      requires |ds| == |load| && forall m :: 0 <= m < |load| ==> load[m].destination == ds[m]
      modifies load`maxPriority
      ensures r == Arrange(route, load, ds)
      ensures forall m :: 0 <= m < |load| ==> load[m].destination == ds[m]
      ensures Distinct(load) && Distinct(route) ==>
        forall k :: 0 <= k < |route| ==> forall m :: 0 <= m < |load| && ds[m] == route[k] ==>
          load[m].maxPriority == ReorderPriority(|load|, old(load[m].maxPriority), k)
    {
      ghost var orig := seq(|load|, m requires 0 <= m < |load| reads load => load[m].maxPriority);
      r := [];
      var i := 0;
      while i < |route|
        invariant 0 <= i <= |route|
        invariant r == Arrange(route[..i], load, ds)
        invariant forall m :: 0 <= m < |load| ==> load[m].destination == ds[m]
        invariant Distinct(load) && Distinct(route) ==> PrioritiesSoFar(route, load, ds, i, orig)
      {
        r := AssignNext(route, load, ds, i, r, orig);
        i := i + 1;
      }
      assert route[..i] == route;
    }

    /** The priorities after the first `i` stops of a route that visits no
        destination twice: groups bound for a visited stop carry the
        priority for its position, all others their `orig`inal one. */
    ghost predicate PrioritiesSoFar(route: seq<Node?>, load: seq<ParcelGroup>, ds: seq<Node?>, i: nat, orig: seq<ExtInt>)
      requires i <= |route| && |ds| == |load| && |orig| == |load|
      reads load
    {
      && (forall m :: 0 <= m < |load| && ds[m] !in route[..i] ==> load[m].maxPriority == orig[m])
      && (forall k :: 0 <= k < i ==> forall m :: 0 <= m < |load| && ds[m] == route[k] ==>
            load[m].maxPriority == ReorderPriority(|load|, orig[m], k))
    }

    /** One pass of the priority loop: the groups bound for the i-th stop
        are appended to `r` and given their priorities. */
    method AssignNext(route: seq<Node?>, load: seq<ParcelGroup>, ghost ds: seq<Node?>, i: nat, r: seq<ParcelGroup>, ghost orig: seq<ExtInt>)
      returns (r': seq<ParcelGroup>)
      requires i < |route| && |ds| == |load| && |orig| == |load|
      requires forall m :: 0 <= m < |load| ==> load[m].destination == ds[m]
      requires r == Arrange(route[..i], load, ds)
      requires Distinct(load) && Distinct(route) ==> PrioritiesSoFar(route, load, ds, i, orig)
      modifies load`maxPriority
      ensures r' == Arrange(route[..i + 1], load, ds)
      ensures forall m :: 0 <= m < |load| ==> load[m].destination == ds[m]
      ensures Distinct(load) && Distinct(route) ==> PrioritiesSoFar(route, load, ds, i + 1, orig)
    {
      var found := AssignStop(load, ds, route[i], i);
      ghost var next := route[..i + 1];
      assert next[..i] == route[..i] && next[i] == route[i];
      assert Arrange(next, load, ds) == r + found;
      r' := r + found;
      if Distinct(load) && Distinct(route) {
        assert next == route[..i] + [route[i]];
        forall m | 0 <= m < |load| && ds[m] !in next ensures load[m].maxPriority == orig[m] {
          assert ds[m] != route[i] && ds[m] !in route[..i];
        }
        forall k | 0 <= k < i + 1 ensures forall m :: 0 <= m < |load| && ds[m] == route[k] ==>
            load[m].maxPriority == ReorderPriority(|load|, orig[m], k) {
          if k < i {
            assert route[k] in route[..i];
            assert route[k] != route[i];
          }
        }
      }
    }

    /** One stop of the priority pass: the groups bound for `dest`, in load
        order, each given the priority for route position i; no group
        bound elsewhere changes. */
    method AssignStop(load: seq<ParcelGroup>, ghost ds: seq<Node?>, dest: Node?, i: int)
      returns (found: seq<ParcelGroup>)
      requires |ds| == |load| && forall m :: 0 <= m < |load| ==> load[m].destination == ds[m]
      modifies load`maxPriority
      ensures found == BoundFor(load, ds, dest)
      ensures forall m :: 0 <= m < |load| ==> load[m].destination == ds[m]
      ensures forall m :: 0 <= m < |load| && ds[m] != dest ==> load[m].maxPriority == old(load[m].maxPriority)
      ensures Distinct(load) ==> forall m :: 0 <= m < |load| && ds[m] == dest ==>
        load[m].maxPriority == ReorderPriority(|load|, old(load[m].maxPriority), i)
    {
      ghost var unique := Distinct(load);
      found := [];
      var j := 0;
      while j < |load|
        invariant 0 <= j <= |load|
        invariant found == BoundFor(load[..j], ds[..j], dest)
        invariant forall m :: 0 <= m < |load| ==> load[m].destination == ds[m]
        invariant forall m :: 0 <= m < |load| && ds[m] != dest ==> load[m].maxPriority == old(load[m].maxPriority)
        invariant unique ==> forall m :: j <= m < |load| ==> load[m].maxPriority == old(load[m].maxPriority)
        invariant unique ==> forall m :: 0 <= m < j && ds[m] == dest ==>
          load[m].maxPriority == ReorderPriority(|load|, old(load[m].maxPriority), i)
      {
        var g := load[j];
        assert load[..j + 1][..j] == load[..j];
        assert ds[..j + 1][..j] == ds[..j];
        if g.destination == dest {
          g.SetPriority(ReorderPriority(|load|, g.maxPriority, i));
          found := found + [g];
        }
        j := j + 1;
      }
      assert load[..j] == load && ds[..j] == ds;
    }

    /** send_to_truck: each group of the load is pushed onto the truck in
        turn, and its parcels are marked en route on it. `ps` names the
        parcels the call may change: at least those of the load. */
    method SendToTruck(truck: Truck, load: seq<ParcelGroup>, ghost ps: set<Parcel>)
      requires truck.cargo.Valid()
      requires ParcelsOf(load) <= ps
      modifies truck.cargo, ps`status
      ensures truck.cargo.Valid()
      ensures truck.cargo.queue == old(PushAll(truck.cargo.queue, load))
      ensures forall j :: 0 <= j < |load| ==> forall p :: p in load[j].parcels ==> p.status == EnRouteStatus(truck.id)
      ensures forall p :: p in ps && p !in ParcelsOf(load) ==> p.status == old(p.status)
    {
      ghost var outside := set p | p in ps && p !in ParcelsOf(load);
      var i := 0;
      while i < |load|
        invariant 0 <= i <= |load|
        invariant truck.cargo.Valid()
        invariant truck.cargo.queue == old(PushAll(truck.cargo.queue, load[..i]))
        invariant forall j :: 0 <= j < i ==> forall p :: p in load[j].parcels ==> p.status == EnRouteStatus(truck.id)
        invariant forall p :: p in outside ==> p.status == old(p.status)
      {
        ParcelsOfGroup(load, i);
        assert forall p :: p in outside ==> p !in load[i].parcels;
        assert load[..i + 1][..i] == load[..i];
        assert old(PushAll(truck.cargo.queue, load[..i + 1])) == old(PushSpec(PushAll(truck.cargo.queue, load[..i]), load[i]));
        ghost var next := PushSpec(truck.cargo.queue, load[i]);
        assert next == old(PushSpec(PushAll(truck.cargo.queue, load[..i]), load[i]));
        assert forall p :: p in load[i].parcels ==> p in ps;
        SendGroup(truck, load, i, outside);
        SentUpTo(load, i, EnRouteStatus(truck.id));
        assert truck.cargo.queue == next;
        i := i + 1;
      }
      assert load[..i] == load;
    }

    /** send_to_truck as the end of a pass of run's loop sees it: the table,
        its parcels and their destinations are as they were. */
    method SendLoad(truck: Truck, load: seq<ParcelGroup>, ghost ps: set<Parcel>)
      requires Valid() && Routable(Hub(), Parcels())
      requires allocated(Hub()) && forall q :: q in Parcels() ==> allocated(q)
      requires truck.cargo.Valid()
      requires ParcelsOf(load) <= ps
      modifies truck.cargo, ps`status
      ensures allocated(Hub()) && forall q :: q in Parcels() ==> allocated(q)
      ensures Valid() && Parcels() == old(Parcels()) && Routable(Hub(), Parcels())
      ensures truck.cargo.Valid() && ParcelsOf(load) <= ps
      ensures truck.cargo.queue == old(PushAll(truck.cargo.queue, load))
      ensures forall j :: 0 <= j < |load| ==> forall p :: p in load[j].parcels ==> p.status == EnRouteStatus(truck.id)
      ensures forall p :: p in ps && p !in ParcelsOf(load) ==> p.status == old(p.status)
      ensures forall g :: g in load ==> g.parcels == old(g.parcels)
    {
      SendToTruck(truck, load, ps);
    }

    /** reorder_parcels as a pass of run's loop sees it: the load arranged
        along the route from the hub, and the table, its parcels and their
        destinations as they were. */
    method ReorderLoad(load: seq<ParcelGroup>, ghost ds: seq<Node?>, ghost route: seq<Node?>) returns (r: seq<ParcelGroup>)
      requires ds == Dests(load) && route == Route(Hub(), ds)
      requires Valid() && Routable(Hub(), Parcels())
      requires allocated(Hub()) && forall q :: q in Parcels() ==> allocated(q)
      requires Connected(Hub(), Dests(load))
      modifies load`maxPriority
      ensures Valid() && Parcels() == old(Parcels()) && Routable(Hub(), Parcels())
      ensures allocated(Hub()) && forall q :: q in Parcels() ==> allocated(q)
      ensures r == Arrange(route, load, ds)
      ensures Distinct(ds) ==> |r| == |load| && Distinct(r) && forall g :: g in r <==> g in load
      ensures forall g :: g in load ==> g.parcels == old(g.parcels)
    {
      r := ReorderParcels(load);
    }

    /** One pass of send_to_truck's loop: the i-th group is pushed, and its
        parcels join those of the groups before it as en route. */
    method SendGroup(truck: Truck, load: seq<ParcelGroup>, i: nat, ghost outside: set<Parcel>)
      requires i < |load|
      requires forall p :: p in outside ==> p !in load[i].parcels
      requires truck.cargo.Valid()
      requires forall j :: 0 <= j < i ==> forall p :: p in load[j].parcels ==> p.status == EnRouteStatus(truck.id)
      modifies truck.cargo, load[i].parcels`status
      ensures truck.cargo.Valid()
      ensures truck.cargo.queue == old(PushSpec(truck.cargo.queue, load[i]))
      ensures forall j :: 0 <= j < i ==> forall p :: p in load[j].parcels ==> p.status == EnRouteStatus(truck.id)
      ensures forall p :: p in load[i].parcels ==> p.status == EnRouteStatus(truck.id)
      ensures forall p :: p in outside ==> p.status == old(p.status)
    {
      truck.AddParcelGroup(load[i]);
    }

    /** One pass of run's loop over the trucks: the deadline parcels still
        at the hub, the first `share` of them (`mine`) and the remaining
        parcels become a load, which is reordered and sent to the truck.
        `ps`, the parcels of the table, are those whose status may change.
        `built` is the load before the trim (BuildLoad states its plan and
        its trim); `ok` is false exactly where the trim of
        build_parcel_list raises, and then the truck's queue and every
        status are as they were. Otherwise
        `kept` is the trimmed load (PrepareLoad states the trim), groups
        of `built`, and `sent` the same groups each once in route order,
        within the truck's capacity, of table parcels each now en route on
        the truck, in groups the truck now holds. */
    method LoadTruck(truck: Truck, share: nat, ghost ps: set<Parcel>)
      returns (ok: bool, ghost sent: seq<ParcelGroup>, ghost kept: seq<ParcelGroup>,
               ghost built: seq<ParcelGroup>, ghost mine: seq<Parcel>, ghost remaining: seq<Parcel>)
      requires Valid()
      requires allocated(Hub()) && forall q :: q in Parcels() ==> allocated(q)
      requires Routable(Hub(), Parcels())
      requires truck.cargo.Valid()
      requires ps == set p | p in Parcels()
      modifies truck.cargo, ps`status
      ensures allocated(Hub()) && forall q :: q in Parcels() ==> allocated(q)
      ensures Valid() && Parcels() == old(Parcels()) && Routable(Hub(), Parcels())
      ensures truck.cargo.Valid()
      ensures old(allocated(mine)) && old(allocated(remaining))
      ensures old(Shared(mine, remaining, share))
      ensures !ok ==> Trim(built, truck.capacity).None? && sent == [] && truck.cargo.queue == old(truck.cargo.queue)
      ensures ok ==> |sent| == |kept| && Distinct(sent) && forall g :: g in sent <==> g in kept
      ensures ok ==> forall g :: g in kept ==> g in built
      ensures ok ==> TotalParcels(sent) <= truck.capacity
      ensures forall g :: g in truck.cargo.queue <==> g in old(truck.cargo.queue) || g in sent
      ensures ParcelsOf(sent) <= ps
      ensures forall j :: 0 <= j < |sent| ==> forall p :: p in sent[j].parcels ==> p.status == EnRouteStatus(truck.id)
      ensures forall p :: p in ps && p !in ParcelsOf(sent) ==> p.status == old(p.status)
    {
      var deadline, rest := Candidates(share);
      mine, remaining := deadline, rest;
      var trimmed;
      trimmed, built := PrepareLoad(truck, deadline, rest);
      if trimmed.None? {
        return false, [], [], built, mine, remaining;
      }
      kept := trimmed.value;
      sent := DeliverLoad(truck, trimmed.value, ps);
      ok := true;
    }

    /** The end of one pass of run's loop: reorder_parcels, then
        send_to_truck on the reordered load. Over distinct destinations
        `sent`, the load the truck received, is a rearrangement of the
        load, holding as many parcels. */
    method DeliverLoad(truck: Truck, load: seq<ParcelGroup>, ghost ps: set<Parcel>) returns (ghost sent: seq<ParcelGroup>)
      requires Valid() && Routable(Hub(), Parcels())
      requires allocated(Hub()) && forall q :: q in Parcels() ==> allocated(q)
      requires Connected(Hub(), Dests(load))
      requires ParcelsOf(load) <= ps
      requires truck.cargo.Valid()
      modifies load`maxPriority, truck.cargo, ps`status
      ensures allocated(Hub()) && forall q :: q in Parcels() ==> allocated(q)
      ensures Valid() && Parcels() == old(Parcels()) && Routable(Hub(), Parcels())
      ensures truck.cargo.Valid()
      ensures sent == Arrange(old(Route(Hub(), Dests(load))), load, old(Dests(load)))
      ensures old(Distinct(Dests(load))) ==>
        && |sent| == |load| && Distinct(sent)
        && (forall g :: g in sent <==> g in load)
        && TotalParcels(sent) == old(TotalParcels(load))
      ensures forall g :: g in truck.cargo.queue <==> g in old(truck.cargo.queue) || g in sent
      ensures ParcelsOf(sent) <= ps
      ensures forall j :: 0 <= j < |sent| ==> forall p :: p in sent[j].parcels ==> p.status == EnRouteStatus(truck.id)
      ensures forall p :: p in ps && p !in ParcelsOf(sent) ==> p.status == old(p.status)
    {
      ghost var ds := Dests(load);
      ghost var route := Route(Hub(), ds);
      ghost var unique := Distinct(ds);
      var arranged := ReorderLoad(load, ds, route);
      assert forall p :: p in ps ==> p.status == old(p.status);
      ArrangeWithin(route, load, ds);
      ParcelsOfWithin(arranged, load);
      PushAllMembers(truck.cargo.queue, arranged);
      SendLoad(truck, arranged, ps);
      sent := arranged;
      if unique {
        TotalParcelsRearranged(sent, load);
        TotalParcelsKept(load);
      }
    }

    /** BuildLoad as the rest of run's loop sees it: the trim of the built
        groups, and what reorder_parcels and send_to_truck need of it. */
    method PrepareLoad(truck: Truck, mine: seq<Parcel>, remaining: seq<Parcel>)
      returns (r: Option<seq<ParcelGroup>>, ghost built: seq<ParcelGroup>)
      requires Valid()
      requires forall q :: q in Parcels() ==> allocated(q)
      requires Routable(Hub(), Parcels())
      requires forall c :: c in mine ==> c in Parcels()
      requires forall c :: c in remaining ==> c in Parcels()
      ensures Valid() && Parcels() == old(Parcels()) && Routable(Hub(), Parcels())
      ensures r == Trim(built, truck.capacity)
      ensures r.Some? ==> forall i :: 0 <= i < |r.value| ==> fresh(r.value[i])
      ensures r.Some? ==> Connected(Hub(), Dests(r.value)) && Distinct(Dests(r.value))
      ensures r.Some? ==> ParcelsOf(r.value) <= set p | p in Parcels()
      ensures r.Some? ==> TotalParcels(r.value) <= truck.capacity
      ensures r.Some? ==> forall g :: g in r.value ==> g in built
    {
      r, built := BuildLoad(truck, mine, remaining);
      if r.Some? {
        forall i | 0 <= i < |r.value| ensures fresh(r.value[i]) {
          assert r.value[i] in r.value;
        }
      }
    }

    /** The load of one pass of run's loop before it is reordered:
        build_parcel_list over the truck's candidates, deadline parcels
        first and then the rest by descending priority, which leaves the
        groups `built`, and the trim of those to the truck's capacity.
        None exactly where the trim raises; otherwise new groups of table
        parcels with distinct destinations, all reachable from the hub,
        within the capacity, each linked group of `built` among them. */
    method BuildLoad(truck: Truck, mine: seq<Parcel>, remaining: seq<Parcel>)
      returns (r: Option<seq<ParcelGroup>>, ghost built: seq<ParcelGroup>)
      requires Valid()
      requires forall q :: q in Parcels() ==> allocated(q)
      requires Routable(Hub(), Parcels())
      requires forall c :: c in mine ==> c in Parcels()
      requires forall c :: c in remaining ==> c in Parcels()
      ensures Valid() && Parcels() == old(Parcels()) && Routable(Hub(), Parcels())
      ensures forall g :: g in built ==> fresh(g)
      ensures r == Trim(built, truck.capacity)
      ensures Filled(built, Parcels(), mine, old(SortDescending(remaining)), truck.capacity)
      ensures r.Some? ==> forall g :: g in r.value ==> fresh(g)
      ensures r.Some? ==> Connected(Hub(), Dests(r.value)) && Distinct(Dests(r.value))
      ensures r.Some? ==> ParcelsOf(r.value) <= set p | p in Parcels()
      ensures r.Some? ==> TotalParcels(r.value) <= truck.capacity
      ensures r.Some? ==> forall g :: g in r.value ==> g in built
      ensures r.Some? ==> forall g :: g in built && g.linked ==> g in r.value
    {
      ghost var ps := Parcels();
      LoadConnected(Hub(), [], ps);
      assert Resolved(ps);
      r, built := BuildParcelList(truck, mine, remaining, ps);
      ValidKept();
      if r.Some? {
        TrimmedLoad(Hub(), built, r.value, ps, truck.capacity);
        TrimOutcome(built, truck.capacity);
      }
    }

    /** The candidates of a pass of run's loop: `mine`, the first `share`
        of the deadline parcels at the hub (or all of them), and
        `remaining`, the other parcels at the hub. */
    ghost predicate Shared(mine: seq<Parcel>, remaining: seq<Parcel>, share: nat)
      reads parcelTable, parcelTable.buckets, Parcels()
    {
      && Filter(Parcels(), DeadlineCriteria).Some?
      && mine == TakeShare(Filter(Parcels(), DeadlineCriteria).value, share)
      && Filter(Parcels(), RemainingCriteria) == Some(remaining)
    }

    /** The lookups at the head of each pass of run's loop: the truck's
        share of the deadline parcels at the hub (the first `share` of
        them, or all), and the remaining parcels. */
    method Candidates(share: nat) returns (mine: seq<Parcel>, remaining: seq<Parcel>)
      requires forall q :: q in Parcels() ==> allocated(q)
      ensures old(Filter(Parcels(), DeadlineCriteria)).Some?
      ensures mine == TakeShare(old(Filter(Parcels(), DeadlineCriteria)).value, share)
      ensures old(Filter(Parcels(), RemainingCriteria)) == Some(remaining)
      ensures forall c :: c in mine ==> c in Parcels()
      ensures forall c :: c in remaining ==> c in Parcels()
    {
      var deadline := DeadlineParcels();
      ghost var items := Parcels();
      assert old(Filter(Parcels(), DeadlineCriteria)) == Some(deadline);
      remaining := GetRemainingParcels();
      assert Parcels() == items;
      mine := TakeShare(deadline, share);
      assert forall c :: c in mine ==> c in deadline;
    }

    /** run: the share of deadline parcels per truck is computed first
        (raising ZeroDivisionError, None, for no trucks); with no remaining
        parcels at the hub it returns 1 and changes nothing; otherwise each
        truck in turn is loaded, and it returns 0. A raise while loading
        some truck is None; the trucks before it keep their loads. */
    method Run(trucks: seq<Truck>) returns (r: Option<int>)
      requires Valid()
      requires allocated(Hub()) && forall q :: q in Parcels() ==> allocated(q)
      requires Routable(Hub(), Parcels())
      requires forall t :: t in trucks ==> t.cargo.Valid()
      modifies set t | t in trucks :: t.cargo, Parcels()`status
      ensures trucks == [] ==> r == None
      ensures trucks != [] ==> (r == Some(1) <==> old(Filter(Parcels(), RemainingCriteria)) == Some([]))
      ensures r == None || r == Some(0) || r == Some(1)
      ensures r == Some(1) ==> forall t :: t in trucks ==> t.cargo.queue == old(t.cargo.queue)
      ensures r == Some(1) ==> forall p :: p in Parcels() ==> p.status == old(p.status)
      ensures forall t :: t in trucks ==> t.cargo.Valid()
      ensures Valid() && Parcels() == old(Parcels()) && Routable(Hub(), Parcels())
      ensures allocated(Hub()) && forall q :: q in Parcels() ==> allocated(q)
    {
      var share, remaining := Survey(|trucks|);
      if share.None? {
        return None;
      }
      if |remaining| == 0 {
        return Some(1);
      }
      var ok := LoadTrucks(trucks, share.value, set p | p in Parcels());
      r := if ok then Some(0) else None;
    }

    /** The part of run before its loop over `n` trucks: the deadline
        lookup, the share per truck (None, the ZeroDivisionError, for no
        trucks) and the remaining parcels. Nothing changes. */
    method Survey(n: nat) returns (share: Option<nat>, remaining: seq<Parcel>)
      requires Valid() && Routable(Hub(), Parcels())
      requires allocated(Hub()) && forall q :: q in Parcels() ==> allocated(q)
      ensures Valid() && Parcels() == old(Parcels()) && Routable(Hub(), Parcels())
      ensures allocated(Hub()) && forall q :: q in Parcels() ==> allocated(q)
      ensures share.None? <==> n == 0
      ensures old(Filter(Parcels(), DeadlineCriteria)).Some?
      ensures share.Some? ==> share.value == DeadlineShare(|old(Filter(Parcels(), DeadlineCriteria)).value|, n)
      ensures share.Some? ==> old(Filter(Parcels(), RemainingCriteria)) == Some(remaining)
    {
      ghost var items := Parcels();
      var deadline := DeadlineParcels();
      assert Parcels() == items;
      assert old(Filter(Parcels(), DeadlineCriteria)) == Some(deadline);
      if n == 0 {
        return None, [];
      }
      share := Some(DeadlineShare(|deadline|, n));
      remaining := GetRemainingParcels();
      assert Parcels() == items;
    }

    /** The loop of run over the trucks, each loaded in turn with the same
        deadline share; false where loading one raises, the trucks before
        it keeping their loads. */
    method LoadTrucks(trucks: seq<Truck>, share: nat, ghost ps: set<Parcel>) returns (ok: bool)
      requires Valid()
      requires allocated(Hub()) && forall q :: q in Parcels() ==> allocated(q)
      requires Routable(Hub(), Parcels())
      requires forall t :: t in trucks ==> t.cargo.Valid()
      requires ps == set p | p in Parcels()
      modifies set t | t in trucks :: t.cargo, ps`status
      ensures Valid() && Parcels() == old(Parcels()) && Routable(Hub(), Parcels())
      ensures allocated(Hub()) && forall q :: q in Parcels() ==> allocated(q)
      ensures forall t :: t in trucks ==> t.cargo.Valid()
    {
      ghost var items := Parcels();
      var i := 0;
      while i < |trucks|
        invariant 0 <= i <= |trucks|
        invariant Valid() && Parcels() == items
        invariant allocated(Hub()) && forall q :: q in items ==> allocated(q)
        invariant Routable(Hub(), items)
        invariant forall t :: t in trucks ==> t.cargo.Valid()
      {
        assert trucks[i] in trucks;
        var loaded, sent, kept, built, mine, remaining := LoadTruck(trucks[i], share, ps);
        if !loaded {
          return false;
        }
        i := i + 1;
      }
      ok := true;
    }

    /** check_duplicates: whether some group of the load holds a parcel
        equal (by id) to `p`. Every group is looked at. */
    method CheckDuplicates(load: seq<ParcelGroup>, p: Parcel) returns (r: bool)
      ensures r <==> Holds(load, p.id)
    {
      r := false;
      var i := 0;
      while i < |load|
        invariant 0 <= i <= |load|
        invariant r <==> exists j :: 0 <= j < i && HasId(load[j].parcels, p.id)
      {
        if HasId(load[i].Items(), p.id) {
          r := true;
        }
        i := i + 1;
      }
    }

    /** get_load_count: the number of parcels in the load. */
    method GetLoadCount(load: seq<ParcelGroup>) returns (count: nat)
      ensures count == TotalParcels(load)
    {
      count := 0;
      var i := 0;
      while i < |load|
        invariant 0 <= i <= |load|
        invariant count == TotalParcels(load[..i])
      {
        assert load[..i + 1][..i] == load[..i];
        count := count + load[i].Count();
        i := i + 1;
      }
      assert load[..i] == load;
    }
  }
}
