/** The parcel group of parcel_group.py: parcels bound for one delivery
    node, with the group's running maximum priority and a flag that is set
    once any linked parcel joins. */
module ParcelGroups {
  import opened Util
  import opened Graphs
  import opened Parcels

  /** Some parcel of `ps` has this id: Python's `parcel in ps`, since
      parcels compare equal by id. */
  predicate HasId(ps: seq<Parcel>, id: int) {
    exists i :: 0 <= i < |ps| && ps[i].id == id
  }

  /** The ids of `ps` are distinct. */
  predicate DistinctIds(ps: seq<Parcel>) {
    forall i, j :: 0 <= i < j < |ps| ==> ps[i].id != ps[j].id
  }

  /** The maximum priority of `ps`, starting from `start`, folded the way
      successive add_parcel calls fold it. */
  ghost function FoldMax(start: ExtInt, ps: seq<Parcel>): ExtInt
    reads ps
  {
    if ps == [] then start else MaxExt(FoldMax(start, ps[..|ps| - 1]), ps[|ps| - 1].priority)
  }

  /** The fold is the least upper bound of the start and the priorities. */
  lemma {:induction false} FoldMaxIsMax(start: ExtInt, ps: seq<Parcel>)
    ensures start.Le(FoldMax(start, ps))
    ensures forall i :: 0 <= i < |ps| ==> ps[i].priority.Le(FoldMax(start, ps))
    ensures FoldMax(start, ps) == start || exists i :: 0 <= i < |ps| && FoldMax(start, ps) == ps[i].priority
  {
    if ps != [] {
      var front := ps[..|ps| - 1];
      FoldMaxIsMax(start, front);
      var m := FoldMax(start, front);
      assert forall i :: 0 <= i < |front| ==> front[i] == ps[i];
      forall i | 0 <= i < |ps| ensures ps[i].priority.Le(FoldMax(start, ps)) {
        if i < |front| {
          assert ps[i].priority.Le(m);
          LtStrictTotalOrder(m, ps[i].priority, FoldMax(start, ps));
          LtStrictTotalOrder(FoldMax(start, ps), ps[i].priority, m);
        }
      }
      LtStrictTotalOrder(start, m, FoldMax(start, ps));
      LtStrictTotalOrder(FoldMax(start, ps), start, m);
      if m != start {
        var i :| 0 <= i < |front| && m == front[i].priority;
        assert m == ps[i].priority;
      }
    }
  }

  class ParcelGroup {
    var parcels: seq<Parcel>
    var maxPriority: ExtInt
    var destination: Node?
    var linked: bool

    constructor ()
      ensures parcels == [] && maxPriority == NegInf && destination == null && !linked
    {
      parcels := [];
      maxPriority := NegInf;
      destination := null;
      linked := false;
    }

    /** add_parcel: a parcel whose id is already present changes nothing.
        Otherwise the parcel is appended and the maximum updated; the first
        parcel fixes the destination, and a parcel bound elsewhere (by node
        identity) makes the source raise, which `ok` false stands for, after
        the append and before the linked flag is updated. */
    method AddParcel(parcel: Parcel) returns (ok: bool)
      modifies this
      ensures HasId(old(parcels), parcel.id) ==>
        ok && parcels == old(parcels) && maxPriority == old(maxPriority)
        && destination == old(destination) && linked == old(linked)
      ensures !HasId(old(parcels), parcel.id) ==>
        && parcels == old(parcels) + [parcel]
        && maxPriority == MaxExt(old(maxPriority), parcel.priority)
        && destination == (if old(destination) == null then parcel.deliveryNode else old(destination))
        && ok == (old(destination) == null || old(destination) == parcel.deliveryNode)
        && linked == (old(linked) || (ok && parcel.linked))
    {
      ok := true;
      var i := 0;
      while i < |parcels| && parcels[i].id != parcel.id
        invariant 0 <= i <= |parcels|
        invariant forall j :: 0 <= j < i ==> parcels[j].id != parcel.id
      {
        i := i + 1;
      }
      if i == |parcels| {
        parcels := parcels + [parcel];
        if maxPriority.Lt(parcel.priority) {
          maxPriority := parcel.priority;
        }
        if destination == null {
          destination := parcel.deliveryNode;
        } else if destination != parcel.deliveryNode {
          ok := false;
          return;
        }
        if parcel.linked {
          linked := true;
        }
      }
    }

    function Destination(): Node?
      reads this
    {
      destination
    }

    predicate IsLinked()
      reads this
    {
      linked
    }

    function Count(): nat
      reads this
    {
      |parcels|
    }

    function Items(): seq<Parcel>
      reads this
    {
      parcels
    }

    method SetPriority(value: ExtInt)
      modifies this`maxPriority
      ensures maxPriority == value
    {
      maxPriority := value;
    }

    // Comparison operators (parcel_group.py:55-73): max_priority only.

    predicate Lt(other: ParcelGroup)
      reads this, other
    {
      maxPriority.Lt(other.maxPriority)
    }

    predicate Gt(other: ParcelGroup)
      reads this, other
    {
      other.maxPriority.Lt(maxPriority)
    }

    predicate Le(other: ParcelGroup)
      reads this, other
    {
      maxPriority.Le(other.maxPriority)
    }

    predicate Ge(other: ParcelGroup)
      reads this, other
    {
      other.maxPriority.Le(maxPriority)
    }
  }

  /** Groups are ordered by max_priority alone, and totally so. */
  lemma GroupComparisons(a: ParcelGroup, b: ParcelGroup)
    ensures a.Gt(b) <==> b.Lt(a)
    ensures a.Le(b) <==> a.Lt(b) || a.maxPriority == b.maxPriority
    ensures a.Lt(b) || a.Ge(b)
  {
  }

  /** A group built by successive add_parcel calls that all succeed and
      all add new ids: what its fields then say about its parcels. */
  ghost predicate BuiltFrom(g: ParcelGroup, ps: seq<Parcel>)
    reads g, ps
  {
    && g.parcels == ps
    && g.maxPriority == FoldMax(NegInf, ps)
    && g.linked == AnyLinked(ps)
    && (forall i :: 0 <= i < |ps| ==> ps[i].deliveryNode == g.destination)
    && DistinctIds(ps)
  }

  /** Some parcel of `ps` is linked. */
  ghost predicate AnyLinked(ps: seq<Parcel>)
    reads ps
  {
    exists i :: 0 <= i < |ps| && ps[i].linked
  }

  /** Appending a parcel folds its priority into the maximum. */
  lemma AddParcelMax(ps: seq<Parcel>, p: Parcel)
    ensures FoldMax(NegInf, ps + [p]) == MaxExt(FoldMax(NegInf, ps), p.priority)
  {
    assert (ps + [p])[..|ps|] == ps;
  }

  /** Appending a parcel makes the group linked exactly when it was or the
      parcel is. */
  lemma AddParcelLinked(ps: seq<Parcel>, p: Parcel)
    ensures AnyLinked(ps + [p]) <==> AnyLinked(ps) || p.linked
  {
    var qs := ps + [p];
    if AnyLinked(ps) {
      var i :| 0 <= i < |ps| && ps[i].linked;
      assert qs[i] == ps[i];
    }
    if p.linked {
      assert qs[|ps|] == p;
    }
    if AnyLinked(qs) {
      var i :| 0 <= i < |qs| && qs[i].linked;
      if i < |ps| {
        assert qs[i] == ps[i];
      }
    }
  }

  /** Appending a parcel with a new id keeps the ids distinct. */
  lemma AddParcelDistinct(ps: seq<Parcel>, p: Parcel)
    requires DistinctIds(ps) && !HasId(ps, p.id)
    ensures DistinctIds(ps + [p])
  {
    var qs := ps + [p];
    forall i, j | 0 <= i < j < |qs| ensures qs[i].id != qs[j].id {
      assert qs[i] == ps[i];
      if j == |ps| {
        assert qs[j] == p;
      } else {
        assert qs[j] == ps[j];
      }
    }
  }

  /** One more successful add_parcel of a new id keeps the group built from
      its parcels: max_priority is their maximum, `linked` says whether any
      is linked, every parcel has the group's destination. This needs the
      parcel to have a node: a first parcel without one leaves the
      destination unset for the next parcel to set (parcel_group.py:27-36). */
  lemma AddParcelKeepsBuilt(g: ParcelGroup, ps: seq<Parcel>, p: Parcel,
      newMax: ExtInt, newDest: Node?, newLinked: bool)
    requires BuiltFrom(g, ps) && !HasId(ps, p.id)
    requires g.destination == null <==> ps == []
    requires p.deliveryNode != null
    requires g.destination == null || g.destination == p.deliveryNode
    requires newMax == MaxExt(g.maxPriority, p.priority)
    requires newDest == (if g.destination == null then p.deliveryNode else g.destination)
    requires newLinked == (g.linked || p.linked)
    ensures newMax == FoldMax(NegInf, ps + [p])
    ensures newLinked == AnyLinked(ps + [p])
    ensures forall i :: 0 <= i < |ps| + 1 ==> (ps + [p])[i].deliveryNode == newDest
    ensures DistinctIds(ps + [p])
    ensures newDest != null
  {
    AddParcelMax(ps, p);
    AddParcelLinked(ps, p);
    AddParcelDistinct(ps, p);
    if ps != [] {
      assert ps[0].deliveryNode == g.destination;
    }
    assert forall i :: 0 <= i < |ps| ==> (ps + [p])[i] == ps[i];
  }
}
