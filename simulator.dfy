/** The Simulator of main.py: each update ticks the clock, updates both
    trucks, sends a truck that is back at the hub to the loader and starts
    it again, retires it when no parcel without a deadline is left at the
    hub, and lets delayed parcels whose arrival time has come reach the
    hub. */
module Simulators {
  import opened Util
  import opened Times
  import opened Clocks
  import opened Parcels
  import opened Queues
  import opened Lookups
  import opened Trucks
  import opened Loaders

  /** The status a parcel has before it reaches the hub. */
  const InformationReceived := "INFORMATION RECEIVED"

  /** lookup(status='INFORMATION RECEIVED'). */
  const ReceivedCriteria := NoCriteria.(status := Some(InformationReceived))

  /** A string without the separator splits into itself alone. */
  lemma {:induction false} SplitOnAbsent(s: string, sep: char)
    requires sep !in s
    ensures SplitOn(s, sep) == [s]
  {
    if s != [] {
      assert sep !in s[1..] by {
        forall k | 0 <= k < |s[1..]| ensures s[1..][k] != sep { assert s[1..][k] == s[k + 1]; }
      }
      SplitOnAbsent(s[1..], sep);
      assert [s[0]] + s[1..] == s;
    }
  }

  /** A status criterion of one word, not negated, holds exactly when
      the word occurs in the status. */
  lemma OneWordStatusOk(word: string, status: string)
    requires ',' !in word && |word| > 0 && word[0] != '-'
    ensures StatusOk(Some(word), status) == HasSubstring(status, word)
  {
    SplitOnAbsent(word, ',');
    var ws := SplitOn(word, ',');
    assert forall w :: w in ws <==> w == word;
    assert StatusWordOk(word, status) == HasSubstring(status, word);
    if HasSubstring(status, word) {
      forall w | w in ws ensures StatusWordOk(w, status) { assert w == word; }
    } else {
      assert word in ws && !StatusWordOk(word, status);
    }
  }

  /** The status criterion holds one word, which must occur in the
      status. */
  lemma ReceivedStatusOk(status: string)
    ensures StatusOk(Some(InformationReceived), status) == HasSubstring(status, InformationReceived)
  {
    NoCommaInReceived();
    assert InformationReceived[0] == 'I';
    OneWordStatusOk(InformationReceived, status);
  }

  lemma NoCommaInReceived()
    ensures ',' !in InformationReceived
  {
  }

  /** The lookup finds a parcel exactly when its status holds the words
      INFORMATION RECEIVED; it never raises. */
  lemma ReceivedMatches(v: View)
    ensures Matches(ReceivedCriteria, v) == Some(HasSubstring(v.status, InformationReceived))
  {
    ReceivedStatusOk(v.status);
  }

  /** The test run makes before loading (loader.py:173-176) reads only
      the parcels without a deadline whose status holds AT HUB: the
      remaining lookup is empty, so run returns 1 and update retires the
      truck (main.py:219-222), exactly when there is no such parcel,
      whatever parcels with a deadline, or delayed parcels, still wait. */
  lemma RemainingEmpty(ps: seq<Parcel>)
    ensures Filter(ps, RemainingCriteria) == Some([]) <==>
      forall p :: p in ps && p.deadline.None? ==> !HasSubstring(p.status, "AT HUB")
  {
    FilterWithoutId(ps, RemainingCriteria);
    FilterMembers(ps, RemainingCriteria);
    var found := Filter(ps, RemainingCriteria).value;
    forall p | p in ps
      ensures p in found <==> p.deadline.None? && HasSubstring(p.status, "AT HUB")
    {
      OneWordStatusOk("AT HUB", p.status);
    }
    if found != [] {
      assert found[0] in found;
    }
  }

  /** A parcel with a deadline still at the hub does not stop run from
      returning 1 once every parcel without a deadline is delivered. */
  lemma DeadlineParcelLeftAtHub(ps: seq<Parcel>, p: Parcel)
    requires p in ps && p.status == "AT HUB" && p.deadline.Some?
    requires forall q :: q in ps && q.deadline.None? ==> q.status == "DELIVERED"
    ensures Filter(ps, RemainingCriteria) == Some([])
  {
    forall q | q in ps && q.deadline.None? ensures !HasSubstring(q.status, "AT HUB") {
      NoSubstringWithoutFirst(q.status, "AT HUB");
    }
    RemainingEmpty(ps);
  }

  /** What run returns: None where it raises, else 0 or 1. */
  predicate RunOutcome(r: Option<int>)
  {
    r == None || r == Some(0) || r == Some(1)
  }

  /** The statuses after the first `i` parcels found waiting have been
      handled: those among them whose arrival time has come are AT HUB,
      every other parcel keeps its status from `before`. */
  ghost predicate PromotedSoFar(waiting: seq<Parcel>, now: nat, items: seq<Parcel>, i: nat, before: map<Parcel, string>)
    requires i <= |waiting|
    requires forall k :: 0 <= k < i ==> waiting[k].arrivalTime.Some?
    reads set q | q in items, set q | q in waiting
  {
    forall q :: q in items ==>
      && q in before
      && q.status == (if q in waiting[..i] && q.arrivalTime.value <= now then "AT HUB" else before[q])
  }

  /** A parcel that has reached the hub is no longer found. */
  lemma AtHubNotReceived()
    ensures !HasSubstring("AT HUB", InformationReceived)
  {
  }

  class Simulator {
    const clock: Clock
    const truck1: Truck
    const truck2: Truck
    const loader: Loader

    /** The simulator's clock, the two trucks and the loader over the
        parcel table and the graph; main.py holds the last three as
        module globals, here they are fields. */
    constructor (clock: Clock, truck1: Truck, truck2: Truck, loader: Loader)
      ensures this.clock == clock && this.truck1 == truck1 && this.truck2 == truck2 && this.loader == loader
    {
      this.clock := clock;
      this.truck1 := truck1;
      this.truck2 := truck2;
      this.loader := loader;
    }

    /** The clock is in a state its transitions reach, and has a time. */
    ghost predicate ClockReady()
      reads clock
    {
      Reachable(clock.State()) && clock.currentTime.Some?
    }

    /** Two trucks, each with a well-formed cargo queue of its own. */
    ghost predicate TrucksReady()
      reads truck1.cargo, truck2.cargo
    {
      && truck1 != truck2 && truck1.cargo != truck2.cargo
      && truck1.cargo.Valid() && truck2.cargo.Valid()
    }

    /** The time the trucks are given: the clock's time after its tick,
        where the clock is running and not paused. */
    ghost function Now(): nat
      reads clock
      requires clock.currentTime.Some?
    {
      if clock.running && !clock.paused then TickTime(clock.currentTime.value, clock.interval) else clock.currentTime.value
    }

    /** update (main.py:198-227), without the console output. A running
        clock ticks, and a paused one raises StateError (ok false) before
        anything else happens. Both trucks are updated with the new time;
        a truck replying 1 is back at the hub with nothing aboard, so the
        loader runs for it alone and it starts from the hub; when that run
        found no parcel without a deadline at the hub (1) the truck's day
        is finished. Last, waiting parcels whose arrival time has come are
        put at the hub.
        `ok` is false where the source raises: the tick, a run of the
        loader, a start over a leg without a distance, or a waiting parcel
        without an arrival time. What the clock, the trucks and the loader
        need of one another holds again afterwards. */
    method Update() returns (ok: bool, reply1: Reply, reply2: Reply,
                             reload1: Option<int>, reload2: Option<int>)
      requires ClockReady() && TrucksReady()
      requires loader.Valid() && Routable(loader.Hub(), loader.Parcels())
      requires allocated(loader.Hub()) && forall q :: q in loader.Parcels() ==> allocated(q)
      requires truck1.CanUpdate(Now()) && truck2.CanUpdate(Now())
      modifies clock, truck1, truck2, truck1.cargo, truck2.cargo, loader.Parcels()`status
      modifies FrontParcels(truck1.cargo.queue)`status, FrontParcels(truck2.cargo.queue)`status
      ensures ClockReady() && TrucksReady()
      ensures loader.Valid() && Routable(loader.Hub(), loader.Parcels())
      ensures allocated(loader.Hub()) && forall q :: q in loader.Parcels() ==> allocated(q)
      ensures clock.State() == if old(clock.running) then TickStep(old(clock.State()), clock.interval).0 else old(clock.State())
      ensures old(clock.running && clock.paused) ==> !ok && unchanged(truck1, truck2, truck1.cargo, truck2.cargo)
      ensures ok ==> truck1.currentTime == clock.currentTime && truck2.currentTime == clock.currentTime
      ensures ok ==> (truck1.finished <==> old(truck1.finished) || (reply1 == One && reload1 == Some(1)))
      ensures ok ==> (truck2.finished <==> old(truck2.finished) || (reply2 == One && reload2 == Some(1)))
      ensures ok && reply1 == One ==> truck1.currNode == truck1.hubNode
      ensures ok && reply2 == One ==> truck2.currNode == truck2.hubNode
      ensures RunOutcome(reload1) && RunOutcome(reload2)
      ensures reply1 != One ==> reload1 == None
      ensures reply2 != One ==> reload2 == None
      ensures ok ==> forall p :: p in loader.Parcels() && p.arrivalTime.Some? && p.arrivalTime.value <= clock.currentTime.value ==>
        !HasSubstring(p.status, InformationReceived)
    {
      reply1, reply2, reload1, reload2 := NoReply, NoReply, None, None;
      ok := TickClock();
      if !ok {
        return;
      }
      var now := clock.currentTime.value;
      reply1, reply2 := UpdateTrucks(now);
      ok, reload1, reload2 := Reloads(now, reply1, reply2);
      if !ok {
        return;
      }
      ok := Promotion(now);
    }

    /** The first step of update: a running clock ticks; a paused one
        raises StateError (false) and stays as it was. */
    method TickClock() returns (ok: bool)
      requires ClockReady() && TrucksReady()
      requires loader.Valid() && Routable(loader.Hub(), loader.Parcels())
      requires allocated(loader.Hub()) && forall q :: q in loader.Parcels() ==> allocated(q)
      modifies clock
      ensures ClockReady() && TrucksReady()
      ensures loader.Valid() && Routable(loader.Hub(), loader.Parcels())
      ensures allocated(loader.Hub()) && forall q :: q in loader.Parcels() ==> allocated(q)
      ensures loader.Parcels() == old(loader.Parcels())
      ensures clock.State() == if old(clock.running) then TickStep(old(clock.State()), clock.interval).0 else old(clock.State())
      ensures ok <==> !old(clock.running && clock.paused)
      ensures ok ==> clock.currentTime.value == old(Now())
    {
      ok := true;
      if clock.running {
        StepsKeepReachable(clock.State(), clock.startTime, clock.interval);
        var t := clock.Tick();
        ok := t.Ok?;
      }
    }

    /** The truck updates of update, truck 1 before truck 2, both with the
        time `now`. */
    method UpdateTrucks(now: nat) returns (reply1: Reply, reply2: Reply)
      requires ClockReady() && TrucksReady()
      requires loader.Valid() && Routable(loader.Hub(), loader.Parcels())
      requires allocated(loader.Hub()) && forall q :: q in loader.Parcels() ==> allocated(q)
      requires truck1.CanUpdate(now) && truck2.CanUpdate(now)
      modifies truck1, truck2, truck1.cargo, truck2.cargo
      modifies FrontParcels(truck1.cargo.queue)`status, FrontParcels(truck2.cargo.queue)`status
      ensures ClockReady() && TrucksReady()
      ensures loader.Valid() && Routable(loader.Hub(), loader.Parcels())
      ensures allocated(loader.Hub()) && forall q :: q in loader.Parcels() ==> allocated(q)
      ensures loader.Parcels() == old(loader.Parcels()) && unchanged(clock)
      ensures truck1.currentTime == Some(now) && truck2.currentTime == Some(now)
      ensures truck1.finished == old(truck1.finished) && truck2.finished == old(truck2.finished)
    {
      reply1 := UpdateTruck(truck1, truck2, now);
      reply2 := UpdateTruck(truck2, truck1, now);
    }

    /** One truck's update; the clock, the other truck and the loader's
        tables and parcels are left as they were. */
    method UpdateTruck(t: Truck, other: Truck, now: nat) returns (reply: Reply)
      requires loader.Valid() && Routable(loader.Hub(), loader.Parcels())
      requires allocated(loader.Hub()) && forall q :: q in loader.Parcels() ==> allocated(q)
      requires t.cargo.Valid() && t.CanUpdate(now)
      requires t != other && t.cargo != other.cargo
      modifies t, t.cargo, FrontParcels(t.cargo.queue)`status
      ensures loader.Valid() && Routable(loader.Hub(), loader.Parcels())
      ensures allocated(loader.Hub()) && forall q :: q in loader.Parcels() ==> allocated(q)
      ensures loader.Parcels() == old(loader.Parcels())
      ensures unchanged(clock, other, other.cargo)
      ensures t.cargo.Valid() && t.currentTime == Some(now) && t.finished == old(t.finished)
    {
      reply := t.Update(now);
    }

    /** The reloads of update: each truck that replied 1 is reloaded and
        started, truck 1 first, and a truck whose reload found nothing
        left finishes its day. `ok` is false where a reload or a start
        raises. */
    method Reloads(now: nat, reply1: Reply, reply2: Reply) returns (ok: bool, reload1: Option<int>, reload2: Option<int>)
      requires ClockReady() && TrucksReady()
      requires loader.Valid() && Routable(loader.Hub(), loader.Parcels())
      requires allocated(loader.Hub()) && forall q :: q in loader.Parcels() ==> allocated(q)
      modifies truck1, truck2, truck1.cargo, truck2.cargo, loader.Parcels()`status
      ensures ClockReady() && TrucksReady()
      ensures loader.Valid() && Routable(loader.Hub(), loader.Parcels())
      ensures allocated(loader.Hub()) && forall q :: q in loader.Parcels() ==> allocated(q)
      ensures loader.Parcels() == old(loader.Parcels()) && unchanged(clock)
      ensures ok ==> truck1.currentTime == old(truck1.currentTime) || (reply1 == One && truck1.currentTime == Some(now))
      ensures ok ==> truck2.currentTime == old(truck2.currentTime) || (reply2 == One && truck2.currentTime == Some(now))
      ensures ok ==> (truck1.finished <==> old(truck1.finished) || (reply1 == One && reload1 == Some(1)))
      ensures ok ==> (truck2.finished <==> old(truck2.finished) || (reply2 == One && reload2 == Some(1)))
      ensures ok && reply1 == One ==> truck1.currNode == truck1.hubNode
      ensures ok && reply2 == One ==> truck2.currNode == truck2.hubNode
      ensures RunOutcome(reload1) && RunOutcome(reload2)
      ensures reply1 != One ==> reload1 == None
      ensures reply2 != One ==> reload2 == None
      ensures reply1 == One ==> (reload1 == Some(1) <==> old(Filter(loader.Parcels(), RemainingCriteria)) == Some([]))
      ensures reply1 != One && reply2 == One ==>
        (reload2 == Some(1) <==> old(Filter(loader.Parcels(), RemainingCriteria)) == Some([]))
    {
      ok, reload1, reload2 := true, None, None;
      if reply1 == One {
        reload1, ok := ReloadTruck(truck1, now);
        if !ok {
          return;
        }
      }
      if reply2 == One {
        reload2, ok := ReloadTruck(truck2, now);
        if !ok {
          return;
        }
      }
      FinishDays(reload1 == Some(1), reload2 == Some(1));
    }

    /** The reload of one of the two trucks, as update sees it: what
        Reload states, with the clock, the trucks and the loader still
        fit for the next step. */
    method ReloadTruck(truck: Truck, now: nat) returns (r: Option<int>, started: bool)
      requires ClockReady() && TrucksReady()
      requires loader.Valid() && Routable(loader.Hub(), loader.Parcels())
      requires allocated(loader.Hub()) && forall q :: q in loader.Parcels() ==> allocated(q)
      requires truck == truck1 || truck == truck2
      modifies truck, truck.cargo, loader.Parcels()`status
      ensures ClockReady() && TrucksReady()
      ensures loader.Valid() && Routable(loader.Hub(), loader.Parcels())
      ensures allocated(loader.Hub()) && forall q :: q in loader.Parcels() ==> allocated(q)
      ensures loader.Parcels() == old(loader.Parcels()) && unchanged(clock)
      ensures truck == truck1 ==> unchanged(truck2)
      ensures truck == truck2 ==> unchanged(truck1)
      ensures RunOutcome(r)
      ensures r == Some(1) <==> old(Filter(loader.Parcels(), RemainingCriteria)) == Some([])
      ensures r == Some(1) ==> truck.cargo.queue == old(truck.cargo.queue)
      ensures r == Some(1) ==> forall p :: p in loader.Parcels() ==> p.status == old(p.status)
      ensures started ==> r.Some? && truck.currentTime == Some(now) && truck.currNode == truck.hubNode
      ensures started ==> truck.nextNode == NextNode(truck.cargo.queue, truck.hubNode)
      ensures truck.finished == old(truck.finished)
    {
      r, started := Reload(truck, now);
    }

    /** The reload of update for one truck back at the hub: run([truck])
        and then start. `r` is run's result, None where it raises; 1
        exactly when no parcel without a deadline is left at the hub, and
        then the cargo is untouched. `started` is false where run raised
        or where the first leg has no usable distance (start raises);
        otherwise the truck stands at the hub, timed for the front group's
        destination. */
    method Reload(truck: Truck, now: nat) returns (r: Option<int>, started: bool)
      requires loader.Valid() && Routable(loader.Hub(), loader.Parcels())
      requires allocated(loader.Hub()) && forall q :: q in loader.Parcels() ==> allocated(q)
      requires truck.cargo.Valid()
      modifies truck, truck.cargo, loader.Parcels()`status
      ensures loader.Valid() && Routable(loader.Hub(), loader.Parcels())
      ensures allocated(loader.Hub()) && forall q :: q in loader.Parcels() ==> allocated(q)
      ensures truck.cargo.Valid()
      ensures RunOutcome(r)
      ensures r == Some(1) <==> old(Filter(loader.Parcels(), RemainingCriteria)) == Some([])
      ensures r == Some(1) ==> truck.cargo.queue == old(truck.cargo.queue)
      ensures r == Some(1) ==> forall p :: p in loader.Parcels() ==> p.status == old(p.status)
      ensures started <==> r.Some? && Leg(truck.hubNode, NextNode(truck.cargo.queue, truck.hubNode))
      ensures started ==>
        && truck.currentTime == Some(now) && truck.currNode == truck.hubNode
        && truck.nextNode == NextNode(truck.cargo.queue, truck.hubNode)
        && truck.arrivalTime == Some(ArrivalTime(truck.hubNode, truck.nextNode, now))
      ensures truck.finished == old(truck.finished)
    {
      r := loader.Run([truck]);
      if r.None? || !Leg(truck.hubNode, NextNode(truck.cargo.queue, truck.hubNode)) {
        return r, false;
      }
      StartTruck(truck, now);
      started := true;
    }

    /** start, with the loader's tables and parcels left as they were. */
    method StartTruck(truck: Truck, now: nat)
      requires loader.Valid() && Routable(loader.Hub(), loader.Parcels())
      requires allocated(loader.Hub()) && forall q :: q in loader.Parcels() ==> allocated(q)
      requires Leg(truck.hubNode, NextNode(truck.cargo.queue, truck.hubNode))
      modifies truck
      ensures loader.Valid() && Routable(loader.Hub(), loader.Parcels())
      ensures allocated(loader.Hub()) && forall q :: q in loader.Parcels() ==> allocated(q)
      ensures loader.Parcels() == old(loader.Parcels())
      ensures truck.currentTime == Some(now) && truck.currNode == truck.hubNode
      ensures truck.nextNode == NextNode(truck.cargo.queue, truck.hubNode)
      ensures truck.arrivalTime == Some(ArrivalTime(truck.hubNode, truck.nextNode, now))
      ensures truck.finished == old(truck.finished)
    {
      truck.Start(now);
    }

    /** The finish_day calls of update, for each truck whose reload
        returned 1; nothing else changes. */
    method FinishDays(first: bool, second: bool)
      requires ClockReady() && TrucksReady()
      requires loader.Valid() && Routable(loader.Hub(), loader.Parcels())
      requires allocated(loader.Hub()) && forall q :: q in loader.Parcels() ==> allocated(q)
      modifies truck1`finished, truck2`finished
      ensures ClockReady() && TrucksReady()
      ensures loader.Valid() && Routable(loader.Hub(), loader.Parcels())
      ensures allocated(loader.Hub()) && forall q :: q in loader.Parcels() ==> allocated(q)
      ensures loader.Parcels() == old(loader.Parcels()) && unchanged(clock)
      ensures truck1.finished == (old(truck1.finished) || first) && truck2.finished == (old(truck2.finished) || second)
      ensures truck1.currentTime == old(truck1.currentTime) && truck2.currentTime == old(truck2.currentTime)
      ensures truck1.currNode == old(truck1.currNode) && truck2.currNode == old(truck2.currNode)
      ensures truck1.nextNode == old(truck1.nextNode) && truck2.nextNode == old(truck2.nextNode)
    {
      if first {
        truck1.FinishDay();
      }
      if second {
        truck2.FinishDay();
      }
    }

    /** The promotion step of update, with the clock, the trucks and the
        loader as they were: no parcel whose arrival time has come is
        still waiting once it succeeds. */
    method Promotion(now: nat) returns (ok: bool)
      requires ClockReady() && TrucksReady()
      requires loader.Valid() && Routable(loader.Hub(), loader.Parcels())
      requires allocated(loader.Hub()) && forall q :: q in loader.Parcels() ==> allocated(q)
      modifies loader.Parcels()`status
      ensures ClockReady() && TrucksReady()
      ensures loader.Valid() && Routable(loader.Hub(), loader.Parcels())
      ensures allocated(loader.Hub()) && forall q :: q in loader.Parcels() ==> allocated(q)
      ensures loader.Parcels() == old(loader.Parcels())
      ensures unchanged(clock, truck1, truck2)
      ensures ok <==> forall q :: q in loader.Parcels() && old(HasSubstring(q.status, InformationReceived)) ==> q.arrivalTime.Some?
      ensures ok ==> forall q :: q in loader.Parcels() ==>
        q.status == (if old(HasSubstring(q.status, InformationReceived)) && q.arrivalTime.value <= now then "AT HUB" else old(q.status))
      ensures ok ==> forall q :: q in loader.Parcels() && q.arrivalTime.Some? && q.arrivalTime.value <= now ==>
        !HasSubstring(q.status, InformationReceived)
    {
      ghost var waiting;
      ok, waiting := PromoteArrivals(now);
    }

    /** The last loop of update: the parcels the status lookup finds
        `waiting` are each put AT HUB once their arrival time is no later
        than `now`. The comparison raises for a waiting parcel with no
        arrival time (ok false), the parcels before it having been
        handled. When it succeeds, no parcel whose arrival time has come
        is still waiting. */
    method PromoteArrivals(now: nat) returns (ok: bool, ghost waiting: seq<Parcel>)
      requires forall q :: q in loader.Parcels() ==> allocated(q)
      modifies loader.Parcels()`status
      ensures loader.Parcels() == old(loader.Parcels())
      ensures forall q :: q in waiting <==> q in loader.Parcels() && old(HasSubstring(q.status, InformationReceived))
      ensures ok <==> forall k :: 0 <= k < |waiting| ==> waiting[k].arrivalTime.Some?
      ensures ok ==> forall q :: q in loader.Parcels() ==>
        q.status == (if q in waiting && q.arrivalTime.value <= now then "AT HUB" else old(q.status))
      ensures ok ==> forall q :: q in loader.Parcels() && q.arrivalTime.Some? && q.arrivalTime.value <= now ==>
        !HasSubstring(q.status, InformationReceived)
    {
      var found := Lookup(loader.parcelTable, ReceivedCriteria);
      ghost var items := loader.Parcels();
      FilterMembers(items, ReceivedCriteria);
      forall q | q in items ensures Matches(ReceivedCriteria, ViewOf(q)) == Some(HasSubstring(q.status, InformationReceived)) {
        ReceivedMatches(ViewOf(q));
      }
      var list := found.value;
      waiting := list;
      ok := Promote(list, now, items);
    }

    /** The loop over the parcels found waiting. */
    method Promote(waiting: seq<Parcel>, now: nat, ghost items: seq<Parcel>) returns (ok: bool)
      requires items == loader.Parcels()
      requires forall q :: q in items ==> allocated(q)
      requires forall q :: q in waiting <==> q in items && HasSubstring(q.status, InformationReceived)
      modifies items`status
      ensures loader.Parcels() == items
      ensures forall q :: q in waiting <==> q in items && old(HasSubstring(q.status, InformationReceived))
      ensures ok <==> forall k :: 0 <= k < |waiting| ==> waiting[k].arrivalTime.Some?
      ensures ok ==> forall q :: q in items ==>
        q.status == (if q in waiting && q.arrivalTime.value <= now then "AT HUB" else old(q.status))
      ensures ok ==> forall q :: q in items && q.arrivalTime.Some? && q.arrivalTime.value <= now ==>
        !HasSubstring(q.status, InformationReceived)
    {
      ghost var before := map q | q in items :: q.status;
      var i := 0;
      while i < |waiting|
        invariant 0 <= i <= |waiting|
        invariant forall k :: 0 <= k < i ==> waiting[k].arrivalTime.Some?
        invariant PromotedSoFar(waiting, now, items, i, before)
      {
        assert waiting[i] in waiting;
        ok := PromoteNext(waiting[i], waiting, now, items, i, before);
        if !ok {
          return;
        }
        i := i + 1;
      }
      assert waiting[..i] == waiting;
      ok := true;
      forall q | q in items && q.arrivalTime.Some? && q.arrivalTime.value <= now
        ensures !HasSubstring(q.status, InformationReceived)
      {
        if q in waiting {
          AtHubNotReceived();
        }
      }
    }

    /** One step of the loop: parcel `i` raises without an arrival time, and
        is put AT HUB once that time has come. */
    method PromoteNext(p: Parcel, waiting: seq<Parcel>, now: nat, ghost items: seq<Parcel>, i: nat, ghost before: map<Parcel, string>)
      returns (ok: bool)
      requires i < |waiting| && p == waiting[i] && p in items
      requires forall k :: 0 <= k < i ==> waiting[k].arrivalTime.Some?
      requires PromotedSoFar(waiting, now, items, i, before)
      modifies p`status
      ensures ok <==> p.arrivalTime.Some?
      ensures ok ==> forall k :: 0 <= k < i + 1 ==> waiting[k].arrivalTime.Some?
      ensures ok ==> PromotedSoFar(waiting, now, items, i + 1, before)
    {
      if p.arrivalTime.None? {
        return false;
      }
      if now >= p.arrivalTime.value {
        p.SetStatus("AT HUB");
      }
      assert waiting[..i + 1] == waiting[..i] + [p];
      ok := true;
    }
  }
}
