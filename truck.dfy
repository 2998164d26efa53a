/** The truck of truck.py: a cargo queue of parcel groups delivered one
    destination at a time, with the clock time, the nodes it travels
    between and the miles it has driven. */
module Trucks {
  import opened Util
  import opened Times
  import opened Graphs
  import opened Parcels
  import opened ParcelGroups
  import opened Queues

  /** What update returns: 0, 1, or None (the delivery branch). */
  datatype Reply = Zero | One | NoReply

  /** 18 mph in miles per minute. */
  const Speed: real := 0.4

  /** math.ceil on a real. */
  function Ceiling(x: real): (r: int)
    ensures r as real - 1.0 < x <= r as real
  {
    var f := x.Floor;
    if f as real == x then f else f + 1
  }

  /** The minutes a leg of `miles` takes, rounded up (truck.py:80-81). */
  function TravelMinutes(miles: real): (m: nat)
    requires miles >= 0.0
    ensures (m as real - 1.0) * Speed < miles <= m as real * Speed
  {
    Ceiling(miles / Speed)
  }

  /** A leg calc_arrival_time can time: the same node (no travel), or a
      node that reaches the next one by a connection of non-negative
      weight. Anything else makes the source raise a TypeError or
      AttributeError, or compute with an infinite distance. */
  predicate Leg(curr: Node?, next: Node?)
    reads curr
  {
    curr == next || (curr != null && curr.Distance(next).Weight? && curr.Distance(next).w >= 0.0)
  }

  /** calc_arrival_time (truck.py:71-84): leaving at `t`, the arrival time,
      in HHMM with the minute-60 correction made once. */
  function ArrivalTime(curr: Node?, next: Node?, t: nat): (r: nat)
    reads curr
    requires Leg(curr, next)
    ensures curr == next ==> r == t
    ensures curr != next ==>
      var m := TravelMinutes(curr.Distance(next).w);
      t + m <= r <= t + m + 40 && (r == t + m + 40 <==> LastTwoValue(t + m) >= 60)
  {
    if curr == next then t else ArrivalClock(t, TravelMinutes(curr.Distance(next).w))
  }

  /** Leaving at a valid HHMM time on a leg that ends within the same hour
      or the next, the arrival time is a valid HHMM time exactly the
      travel minutes later. */
  lemma ArrivalTimeCountsMinutes(curr: Node?, next: Node?, t: nat)
    requires Leg(curr, next) && ValidHhmm(t)
    requires curr != next ==> t % 100 + TravelMinutes(curr.Distance(next).w) < 100
    ensures ValidHhmm(ArrivalTime(curr, next, t))
    ensures curr != next ==>
      ToMinutes(ArrivalTime(curr, next, t)) == ToMinutes(t) + TravelMinutes(curr.Distance(next).w)
  {
    if curr != next {
      ArrivalClockShortTrip(t, TravelMinutes(curr.Distance(next).w));
    }
  }

  /** The status deliver_parcels gives a parcel delivered at `time`
      (truck.py:53-59). */
  function DeliveredStatus(deadline: Option<int>, time: nat): (s: string)
    ensures s == "DELIVERED LATE" <==> deadline.Some? && time > deadline.value
    ensures s == "DELIVERED" <==> deadline.None? || time <= deadline.value
  {
    if deadline.Some? && time > deadline.value then "DELIVERED LATE" else "DELIVERED"
  }

  /** The status add_parcel_group gives a loaded parcel (truck.py:43). */
  function EnRouteStatus(truckId: int): (s: string)
    ensures |s| > 17 && s[..17] == "EN ROUTE - TRUCK "
    ensures ParseInt(s[17..]) == Some(truckId)
  {
    var s := "EN ROUTE - TRUCK " + IntToString(truckId);
    assert s[17..] == IntToString(truckId);
    ParseIntOfIntToString(truckId);
    s
  }

  /** Different trucks give different statuses. */
  lemma EnRouteStatusInjective(a: int, b: int)
    requires EnRouteStatus(a) == EnRouteStatus(b)
    ensures a == b
  {
    assert EnRouteStatus(a)[17..] == EnRouteStatus(b)[17..];
  }

  /** get_next_node (truck.py:61-69): the front group's destination, or
      the hub when the cargo is empty. */
  function NextNode(q: seq<ParcelGroup>, hub: Node?): (n: Node?)
    reads q
    ensures q == [] ==> n == hub
    ensures q != [] ==> n == q[0].destination
  {
    if q == [] then hub else q[0].destination
  }

  /** Where update sends the truck after a delivery (truck.py:128-131):
      the hub once the cargo holds no parcel, else the next group's
      destination. */
  ghost function AfterDelivery(q: seq<ParcelGroup>, hub: Node?): (n: Node?)
    reads q
    ensures TotalParcels(q) == 0 ==> n == hub
    ensures TotalParcels(q) > 0 ==> q != [] && n == q[0].destination
  {
    if TotalParcels(q) == 0 then hub else NonEmptyCargo(q); NextNode(q, hub)
  }

  /** Parcels in the cargo mean a group in the cargo. */
  lemma NonEmptyCargo(q: seq<ParcelGroup>)
    requires TotalParcels(q) > 0
    ensures q != []
  {
  }

  /** The parcels of the front group, which a delivery updates. */
  ghost function FrontParcels(q: seq<ParcelGroup>): set<Parcel>
    reads q
  {
    if q == [] then {} else set p | p in q[0].parcels
  }

  /** The loop of add_parcel_group over the group's parcels (truck.py:42-43). */
  method MarkEnRoute(ps: seq<Parcel>, status: string)
    modifies ps`status
    ensures forall p :: p in ps ==> p.status == status
  {
    var i := 0;
    while i < |ps|
      invariant 0 <= i <= |ps|
      invariant forall k :: 0 <= k < i ==> ps[k].status == status
    {
      ps[i].SetStatus(status);
      i := i + 1;
    }
  }

  /** The loop of deliver_parcels over the popped group (truck.py:52-59). */
  method MarkDelivered(ps: seq<Parcel>, time: nat)
    modifies ps`status
    ensures forall p :: p in ps ==> p.status == DeliveredStatus(p.deadline, time)
  {
    var i := 0;
    while i < |ps|
      invariant 0 <= i <= |ps|
      invariant forall k :: 0 <= k < i ==> ps[k].status == DeliveredStatus(ps[k].deadline, time)
    {
      var parcel := ps[i];
      if parcel.deadline.Some? {
        if time <= parcel.deadline.value {
          parcel.SetStatus("DELIVERED");
        } else {
          parcel.SetStatus("DELIVERED LATE");
        }
      } else {
        parcel.SetStatus("DELIVERED");
      }
      i := i + 1;
    }
  }

  class Truck {
    const id: int
    const capacity: nat
    const hubNode: Node?
    const cargo: PriorityQueue
    var totalMiles: real
    var currentTime: Option<nat>
    var arrivalTime: Option<nat>
    var prevNode: Node?
    var currNode: Node?
    var nextNode: Node?
    var finished: bool

    /** Truck(id_, capacity=16, hub_node) (truck.py:8-30); the driver is not
        modelled. */
    constructor (id: int, capacity: nat, hubNode: Node?)
      ensures this.id == id && this.capacity == capacity && this.hubNode == hubNode
      ensures fresh(cargo) && cargo.Valid() && cargo.queue == []
      ensures totalMiles == 0.0 && currentTime == None && arrivalTime == None
      ensures prevNode == null && currNode == null && nextNode == null && !finished
    {
      this.id := id;
      this.capacity := capacity;
      this.hubNode := hubNode;
      cargo := new PriorityQueue();
      totalMiles := 0.0;
      currentTime := None;
      arrivalTime := None;
      prevNode := null;
      currNode := null;
      nextNode := null;
      finished := false;
    }

    /** add_parcel_group: push the group, then mark each of its parcels as
        en route on this truck; nothing else about the parcels changes. */
    method AddParcelGroup(g: ParcelGroup)
      requires cargo.Valid()
      modifies cargo, g.parcels`status
      ensures cargo.Valid()
      ensures cargo.queue == old(PushSpec(cargo.queue, g))
      ensures forall p :: p in g.parcels ==> p.status == EnRouteStatus(id)
    {
      cargo.Push(g);
      MarkEnRoute(g.Items(), EnRouteStatus(id));
    }

    /** deliver_parcels: pop the front group and mark each of its parcels
        delivered, late exactly when it has a deadline the current time is
        past. */
    method DeliverParcels()
      requires cargo.Valid() && cargo.queue != [] && currentTime.Some?
      modifies cargo, FrontParcels(cargo.queue)`status
      ensures cargo.Valid() && cargo.queue == old(cargo.queue)[1..]
      ensures forall p :: p in old(cargo.queue)[0].parcels ==> p.status == DeliveredStatus(p.deadline, currentTime.value)
    {
      var g := cargo.Pop();
      MarkDelivered(g.Items(), currentTime.value);
    }

    /** get_next_node, reading the front of the cargo with peek. */
    method GetNextNode() returns (n: Node?)
      ensures n == NextNode(cargo.queue, hubNode)
    {
      var front := cargo.Peek();
      if front != null {
        n := front.destination;
      } else {
        n := hubNode;
      }
    }

    /** calc_arrival_time, from the current time and the leg ahead. */
    function CalcArrivalTime(): (r: nat)
      reads this, currNode
      requires currentTime.Some? && Leg(currNode, nextNode)
      ensures r >= currentTime.value
      ensures currNode == nextNode ==> r == currentTime.value
    {
      ArrivalTime(currNode, nextNode, currentTime.value)
    }

    /** load_count: the parcels in the cargo. */
    method LoadCount() returns (r: nat)
      ensures r == TotalParcels(cargo.queue)
    {
      r := cargo.Count();
    }

    /** start (truck.py:102-108): leave the hub for the front group's
        destination, or stay at the hub when there is no cargo. */
    method Start(timestamp: nat)
      requires Leg(hubNode, NextNode(cargo.queue, hubNode))
      modifies this
      ensures currentTime == Some(timestamp) && currNode == hubNode
      ensures nextNode == NextNode(cargo.queue, hubNode)
      ensures arrivalTime == Some(ArrivalTime(hubNode, nextNode, timestamp))
      ensures totalMiles == old(totalMiles) && prevNode == old(prevNode) && finished == old(finished)
    {
      currentTime := Some(timestamp);
      currNode := hubNode;
      nextNode := GetNextNode();
      arrivalTime := Some(CalcArrivalTime());
    }

    /** finish_day: from now on update adds no mileage. */
    method FinishDay()
      modifies this`finished
      ensures finished
      ensures totalMiles == old(totalMiles) && currentTime == old(currentTime) && arrivalTime == old(arrivalTime)
      ensures prevNode == old(prevNode) && currNode == old(currNode) && nextNode == old(nextNode)
    {
      finished := true;
    }

    /** What update needs of the state to run without raising: an
        arrival time to compare with, a distance to the next node while the
        day is not finished, and a leg to time after a delivery. */
    ghost predicate CanUpdate(timestamp: nat)
      reads this, cargo, cargo.queue, currNode, nextNode
    {
      && arrivalTime.Some?
      && (timestamp >= arrivalTime.value ==>
            && (!finished ==> currNode != null && currNode.Distance(nextNode).Weight?)
            && (TotalParcels(cargo.queue) > 0 ==> Leg(nextNode, AfterDelivery(cargo.queue[1..], hubNode))))
    }

    /** update (truck.py:110-147). Before the arrival time only the clock
        moves and the reply is 0. On arrival the mileage of the leg is
        added unless the day is finished and the truck moves on; with cargo
        it delivers the front group, heads for the next stop and replies
        None; with none it replies 1 at the hub and 0 elsewhere. */
    method Update(timestamp: nat) returns (r: Reply)
      requires cargo.Valid() && CanUpdate(timestamp)
      modifies this, cargo, FrontParcels(cargo.queue)`status
      ensures cargo.Valid() && currentTime == Some(timestamp) && finished == old(finished)
      ensures timestamp < old(arrivalTime.value) ==>
        && r == Zero && cargo.queue == old(cargo.queue) && arrivalTime == old(arrivalTime)
        && totalMiles == old(totalMiles) && prevNode == old(prevNode)
        && currNode == old(currNode) && nextNode == old(nextNode)
        && forall p :: p in FrontParcels(old(cargo.queue)) ==> p.status == old(p.status)
      ensures timestamp >= old(arrivalTime.value) ==>
        && totalMiles == old(totalMiles) + (if old(finished) then 0.0 else old(currNode.Distance(nextNode).w))
        && prevNode == old(currNode) && currNode == old(nextNode)
      ensures timestamp >= old(arrivalTime.value) && old(TotalParcels(cargo.queue)) > 0 ==>
        && r == NoReply && cargo.queue == old(cargo.queue)[1..]
        && nextNode == AfterDelivery(cargo.queue, hubNode)
        && Leg(currNode, nextNode) && arrivalTime == Some(ArrivalTime(currNode, nextNode, timestamp))
        && forall p :: p in old(cargo.queue)[0].parcels ==> p.status == DeliveredStatus(p.deadline, timestamp)
      ensures timestamp >= old(arrivalTime.value) && old(TotalParcels(cargo.queue)) == 0 ==>
        && r == (if currNode == hubNode then One else Zero)
        && cargo.queue == old(cargo.queue) && nextNode == old(nextNode) && arrivalTime == old(arrivalTime)
        && forall p :: p in FrontParcels(old(cargo.queue)) ==> p.status == old(p.status)
    {
      currentTime := Some(timestamp);
      if timestamp >= arrivalTime.value {
        Arrive();
        var count := cargo.Count();
        if count > 0 {
          DeliverAndSetOff();
          r := NoReply;
        } else if currNode == hubNode {
          r := One;
        } else {
          r := Zero;
        }
      } else {
        r := Zero;
      }
    }

    /** The arrival step of update (truck.py:119-122): the leg's mileage,
        unless the day is finished, and the move to the next node. */
    method Arrive()
      requires !finished ==> currNode != null && currNode.Distance(nextNode).Weight?
      modifies this
      ensures totalMiles == old(totalMiles) + (if old(finished) then 0.0 else old(currNode.Distance(nextNode).w))
      ensures prevNode == old(currNode) && currNode == old(nextNode)
      ensures nextNode == old(nextNode) && currentTime == old(currentTime)
      ensures arrivalTime == old(arrivalTime) && finished == old(finished)
    {
      if !finished {
        totalMiles := totalMiles + currNode.Distance(nextNode).w;
      }
      prevNode := currNode;
      currNode := nextNode;
    }

    /** The delivery branch of update (truck.py:124-133): deliver the front
        group, then head for the hub if no parcel is left, else for the new
        front group, and time the leg. */
    method DeliverAndSetOff()
      requires cargo.Valid() && TotalParcels(cargo.queue) > 0 && currentTime.Some?
      requires Leg(currNode, AfterDelivery(cargo.queue[1..], hubNode))
      modifies this, cargo, FrontParcels(cargo.queue)`status
      ensures currentTime == old(currentTime) && finished == old(finished)
      ensures totalMiles == old(totalMiles) && prevNode == old(prevNode) && currNode == old(currNode)
      ensures cargo.Valid() && cargo.queue == old(cargo.queue)[1..]
      ensures nextNode == AfterDelivery(cargo.queue, hubNode) && Leg(currNode, nextNode)
      ensures arrivalTime == Some(ArrivalTime(currNode, nextNode, currentTime.value))
      ensures forall p :: p in old(cargo.queue)[0].parcels ==> p.status == DeliveredStatus(p.deadline, currentTime.value)
    {
      NonEmptyCargo(cargo.queue);
      ghost var rest := cargo.queue[1..];
      ghost var target := AfterDelivery(rest, hubNode);
      DeliverParcels();
      assert cargo.queue == rest;
      var count := cargo.Count();
      if count == 0 {
        nextNode := hubNode;
      } else {
        nextNode := GetNextNode();
      }
      assert nextNode == target;
      arrivalTime := Some(CalcArrivalTime());
    }
  }
}
