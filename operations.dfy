/** The write operations of the backend as transitions of the database value:
    what each commits on success, or the error it raises (after which the
    transaction is rolled back and the database is unchanged). */
module Operations {
  import opened Records
  import opened Store

  /** The ids `start, start + 1, ..., start + n - 1`, in order: the keys a
      counter hands out to `n` rows added one after another. */
  function IdRange(start: nat, n: nat): (ids: seq<nat>)
    ensures |ids| == n
    ensures forall i :: 0 <= i < n ==> ids[i] == start + i
    ensures forall x :: x in ids <==> start <= x < start + n
  {
    if n == 0 then [] else IdRange(start, n - 1) + [start + n - 1]
  }

  /** The capacity row built from an input: racks store name and value only
      (api.py:159, 197), flavors store the unit as well (api.py:262). */
  function MakeCapacity(c: CapacityInput, withUnit: bool): (row: Capacity)
    ensures row.name == c.name && row.value == c.value
    ensures row.unit == if withUnit then c.unit else None
  {
    Capacity(c.name, c.value, if withUnit then c.unit else None)
  }

  /** The row that the input at position `k - start` of `cs` becomes. */
  function CapacityAt(start: nat, cs: seq<CapacityInput>, k: nat, withUnit: bool): Capacity
    requires start <= k < start + |cs|
  {
    MakeCapacity(cs[k - start], withUnit)
  }

  /** The capacity rows created for `cs`, keyed by the ids handed out from `start`. */
  function NewCapacities(start: nat, cs: seq<CapacityInput>, withUnit: bool): (rows: map<nat, Capacity>)
    ensures forall k :: k in rows <==> start <= k < start + |cs|
  {
    map k: nat | start <= k < start + |cs| :: CapacityAt(start, cs, k, withUnit)
  }

  function NodeAt(start: nat, ns: seq<NodeInput>, k: nat): Node
    requires start <= k < start + |ns|
  {
    Node(ns[k - start].id)
  }

  /** The node rows created for `ns`, keyed by the ids handed out from `start`. */
  function NewNodes(start: nat, ns: seq<NodeInput>): (rows: map<nat, Node>)
    ensures forall k :: k in rows <==> start <= k < start + |ns|
  {
    map k: nat | start <= k < start + |ns| :: NodeAt(start, ns, k)
  }

  // ---------------------------------------------------------------------
  // Racks

  /** create_rack: one rack row from name, slots, subnet and the chassis id
      when a chassis is given, then one capacity and one node row per input
      element, owned by the new rack in input order. */
  function CreateRack(db: Db, input: RackInput): (r: Db)
    ensures r.racks.Keys == db.racks.Keys + {db.nextRack}
    ensures r.resourceClasses == db.resourceClasses && r.flavors == db.flavors
  {
    var cs := Items(input.capacities);
    var ns := Items(input.nodes);
    var rack := Rack(input.name, input.slots, input.subnet, input.chassis, None,
                     IdRange(db.nextCapacity, |cs|), IdRange(db.nextNode, |ns|));
    db.(racks := db.racks[db.nextRack := rack],
        nextRack := db.nextRack + 1,
        capacities := db.capacities + NewCapacities(db.nextCapacity, cs, false),
        nextCapacity := db.nextCapacity + |cs|,
        nodes := db.nodes + NewNodes(db.nextNode, ns),
        nextNode := db.nextNode + |ns|)
  }

  /** The scalar part of update_rack: a field is overwritten only by a truthy input. */
  function UpdateScalars(rack: Rack, input: RackInput): (r: Rack)
    ensures r == rack.(name := r.name, slots := r.slots, subnet := r.subnet, chassisId := r.chassisId)
  {
    rack.(name := if TruthyString(input.name) then input.name else rack.name,
          slots := if TruthyInt(input.slots) then input.slots else rack.slots,
          subnet := if TruthyString(input.subnet) then input.subnet else rack.subnet,
          chassisId := if input.chassis.Some? then input.chassis else rack.chassisId)
  }

  /** The scalar assignments of update_rack applied to the stored rack. */
  function ApplyScalars(db: Db, input: RackInput): (r: Db)
    requires input.id in db.racks
    ensures r.racks.Keys == db.racks.Keys
    ensures forall k :: k in db.racks && k != input.id ==> r.racks[k] == db.racks[k]
    ensures r.racks[input.id] == UpdateScalars(db.racks[input.id], input)
    ensures r == db.(racks := r.racks)
  {
    db.(racks := db.racks[input.id := UpdateScalars(db.racks[input.id], input)])
  }

  /** Replace the capacities of rack `id` unless the field is Unset: delete
      every capacity row it owns, then own one new row per input element.
      Nothing but the capacities table, its counter and that rack's list changes. */
  function ReplaceCapacities(db: Db, id: nat, f: Field<seq<CapacityInput>>): (r: Db)
    requires id in db.racks
    ensures r.racks.Keys == db.racks.Keys
    ensures forall k :: k in db.racks && k != id ==> r.racks[k] == db.racks[k]
    ensures r.racks[id] == db.racks[id].(capacities := r.racks[id].capacities)
    ensures r == db.(racks := r.racks, capacities := r.capacities, nextCapacity := r.nextCapacity)
    ensures f.Unset? ==> r == db
  {
    match f
    case Unset => db
    case Value(cs) =>
      var rack := db.racks[id];
      db.(capacities := (db.capacities - Elements(rack.capacities))
                        + NewCapacities(db.nextCapacity, cs, false),
          nextCapacity := db.nextCapacity + |cs|,
          racks := db.racks[id := rack.(capacities := IdRange(db.nextCapacity, |cs|))])
  }

  /** Replace the nodes of rack `id` unless the field is Unset. Nothing but
      the nodes table, its counter and that rack's list changes. */
  function ReplaceNodes(db: Db, id: nat, f: Field<seq<NodeInput>>): (r: Db)
    requires id in db.racks
    ensures r.racks.Keys == db.racks.Keys
    ensures forall k :: k in db.racks && k != id ==> r.racks[k] == db.racks[k]
    ensures r.racks[id] == db.racks[id].(nodes := r.racks[id].nodes)
    ensures r == db.(racks := r.racks, nodes := r.nodes, nextNode := r.nextNode)
    ensures f.Unset? ==> r == db
  {
    match f
    case Unset => db
    case Value(ns) =>
      var rack := db.racks[id];
      db.(nodes := (db.nodes - Elements(rack.nodes)) + NewNodes(db.nextNode, ns),
          nextNode := db.nextNode + |ns|,
          racks := db.racks[id := rack.(nodes := IdRange(db.nextNode, |ns|))])
  }

  /** update_rack: fails with RackNotFound when there is no such rack. */
  function UpdateRack(db: Db, input: RackInput): (r: Result<Db>)
    ensures r.Err? <==> input.id !in db.racks
    ensures r.Err? ==> r.error == RackNotFound(input.id)
    ensures r.Ok? ==> && r.value.racks.Keys == db.racks.Keys
                      && r.value.resourceClasses == db.resourceClasses
                      && r.value.flavors == db.flavors
  {
    if input.id !in db.racks then Err(RackNotFound(input.id))
    else
      var db1 := ReplaceCapacities(ApplyScalars(db, input), input.id, input.capacities);
      Ok(ReplaceNodes(db1, input.id, input.nodes))
  }

  /** delete_rack: the rack row and every capacity and node row it owns. */
  function DeleteRack(db: Db, id: nat): (r: Result<Db>)
    ensures r.Err? <==> id !in db.racks
    ensures r.Err? ==> r.error == RackNotFound(id)
    ensures r.Ok? ==> && r.value.racks.Keys == db.racks.Keys - {id}
                      && r.value.resourceClasses == db.resourceClasses
                      && r.value.flavors == db.flavors
  {
    if id !in db.racks then Err(RackNotFound(id))
    else
      var rack := db.racks[id];
      Ok(db.(racks := db.racks - {id},
             capacities := db.capacities - Elements(rack.capacities),
             nodes := db.nodes - Elements(rack.nodes)))
  }

  // ---------------------------------------------------------------------
  // Resource classes

  /** Point each listed rack, in list order, at resource class `rc`; the first
      listed id without a rack fails with RackNotFound. */
  function AssignResourceClass(racks: map<nat, Rack>, ids: seq<nat>, rc: nat): (r: Result<map<nat, Rack>>)
    ensures r.Ok? ==> r.value.Keys == racks.Keys
    ensures r.Err? ==> r.error.RackNotFound? && r.error.rack in ids && r.error.rack !in racks
    decreases |ids|
  {
    if ids == [] then Ok(racks)
    else if ids[0] !in racks then Err(RackNotFound(ids[0]))
    else AssignResourceClass(racks[ids[0] := racks[ids[0]].(resourceClassId := Some(rc))], ids[1..], rc)
  }

  /** create_resource_class: a new row from name and service type, and the
      listed racks assigned to it; a missing rack aborts the whole write. */
  function CreateResourceClass(db: Db, input: ResourceClassInput): (r: Result<Db>)
    ensures r.Err? ==> r.error.RackNotFound? && r.error.rack in Items(input.racks)
    ensures r.Ok? ==> && r.value.resourceClasses.Keys == db.resourceClasses.Keys + {db.nextResourceClass}
                      && r.value.racks.Keys == db.racks.Keys
                      && r.value.flavors == db.flavors && r.value.capacities == db.capacities
                      && r.value.nodes == db.nodes
  {
    var id := db.nextResourceClass;
    var db1 := db.(resourceClasses := db.resourceClasses[id := ResourceClass(input.name, input.serviceType)],
                   nextResourceClass := id + 1);
    match AssignResourceClass(db1.racks, Items(input.racks), id)
    case Err(e) => Err(e)
    case Ok(racks) => Ok(db1.(racks := racks))
  }

  /** delete_resource_class: a bulk delete of the row with that id, if any;
      racks keep their reference to it. */
  function DeleteResourceClass(db: Db, id: nat): (r: Db)
    ensures r.resourceClasses.Keys == db.resourceClasses.Keys - {id}
    ensures r == db.(resourceClasses := r.resourceClasses)
  {
    db.(resourceClasses := db.resourceClasses - {id})
  }

  // ---------------------------------------------------------------------
  // Flavors

  /** create_flavor: a new row from the name and one capacity row (with its
      unit) per input element; iterating an Unset list raises. */
  function CreateFlavor(db: Db, input: FlavorInput): (r: Result<Db>)
    ensures r.Err? <==> input.capacities.Unset?
    ensures r.Err? ==> r.error == UnsetNotIterable
    ensures r.Ok? ==> && r.value.flavors.Keys == db.flavors.Keys + {db.nextFlavor}
                      && r.value.racks == db.racks && r.value.nodes == db.nodes
                      && r.value.resourceClasses == db.resourceClasses
  {
    match input.capacities
    case Unset => Err(UnsetNotIterable)
    case Value(cs) =>
      Ok(db.(flavors := db.flavors[db.nextFlavor := Flavor(input.name, IdRange(db.nextCapacity, |cs|))],
             nextFlavor := db.nextFlavor + 1,
             capacities := db.capacities + NewCapacities(db.nextCapacity, cs, true),
             nextCapacity := db.nextCapacity + |cs|))
  }

  predicate OwnerExists(db: Db, owner: Owner)
  {
    match owner
    case RackOwner(k) => k in db.racks
    case FlavorOwner(k) => k in db.flavors
  }

  /** The capacity ids the owner's relationship lists. */
  function OwnedCapacities(db: Db, owner: Owner): seq<nat>
    requires OwnerExists(db, owner)
  {
    match owner
    case RackOwner(k) => db.racks[k].capacities
    case FlavorOwner(k) => db.flavors[k].capacities
  }

  /** delete_capacities: every capacity row the owner lists is deleted, and
      once the session flushes the owner's relationship lists none. */
  function DeleteCapacities(db: Db, owner: Owner): (r: Db)
    requires OwnerExists(db, owner)
    ensures OwnerExists(r, owner) && OwnedCapacities(r, owner) == []
    ensures r.capacities.Keys == db.capacities.Keys - Elements(OwnedCapacities(db, owner))
    ensures r.nodes == db.nodes && r.resourceClasses == db.resourceClasses
  {
    var db1 := db.(capacities := db.capacities - Elements(OwnedCapacities(db, owner)));
    match owner
    case RackOwner(k) => db1.(racks := db.racks[k := db.racks[k].(capacities := [])])
    case FlavorOwner(k) => db1.(flavors := db.flavors[k := db.flavors[k].(capacities := [])])
  }

  /** delete_flavor: the flavor's capacities first, then the flavor row. */
  function DeleteFlavor(db: Db, id: nat): (r: Result<Db>)
    ensures r.Err? <==> id !in db.flavors
    ensures r.Err? ==> r.error == FlavorNotFound(id)
    ensures r.Ok? ==> && r.value.flavors.Keys == db.flavors.Keys - {id}
                      && r.value.racks == db.racks && r.value.nodes == db.nodes
                      && r.value.resourceClasses == db.resourceClasses
  {
    if id !in db.flavors then Err(FlavorNotFound(id))
    else
      var db1 := DeleteCapacities(db, FlavorOwner(id));
      Ok(db1.(flavors := db1.flavors - {id}))
  }

  // ---------------------------------------------------------------------
  // One step of the loops that build these tables

  /** The rows for the first `j + 1` inputs are those for the first `j`
      plus the row for input `j`, under the next id. */
  lemma NewCapacitiesExtend(start: nat, cs: seq<CapacityInput>, j: nat, withUnit: bool)
    requires j < |cs|
    ensures NewCapacities(start, cs[..j + 1], withUnit)
            == NewCapacities(start, cs[..j], withUnit)[start + j := MakeCapacity(cs[j], withUnit)]
  {
    var a := NewCapacities(start, cs[..j + 1], withUnit);
    var b := NewCapacities(start, cs[..j], withUnit)[start + j := MakeCapacity(cs[j], withUnit)];
    assert a.Keys == b.Keys;
    forall k | k in a ensures a[k] == b[k] {
      assert cs[..j + 1][k - start] == if k < start + j then cs[..j][k - start] else cs[j];
    }
  }

  /** One iteration of a loop adding capacity rows to a table. */
  lemma NewCapacitiesStep(base: map<nat, Capacity>, rows: map<nat, Capacity>, start: nat,
                          cs: seq<CapacityInput>, j: nat, withUnit: bool)
    requires j < |cs|
    requires rows == base + NewCapacities(start, cs[..j], withUnit)
    ensures rows[start + j := MakeCapacity(cs[j], withUnit)] == base + NewCapacities(start, cs[..j + 1], withUnit)
  {
    NewCapacitiesExtend(start, cs, j, withUnit);
    var added := NewCapacities(start, cs[..j], withUnit);
    var v := MakeCapacity(cs[j], withUnit);
    assert (base + added)[start + j := v] == base + added[start + j := v];
  }

  lemma NewNodesExtend(start: nat, ns: seq<NodeInput>, j: nat)
    requires j < |ns|
    ensures NewNodes(start, ns[..j + 1]) == NewNodes(start, ns[..j])[start + j := Node(ns[j].id)]
  {
    var a := NewNodes(start, ns[..j + 1]);
    var b := NewNodes(start, ns[..j])[start + j := Node(ns[j].id)];
    assert a.Keys == b.Keys;
    forall k | k in a ensures a[k] == b[k] {
      assert ns[..j + 1][k - start] == if k < start + j then ns[..j][k - start] else ns[j];
    }
  }

  /** One iteration of a loop adding node rows to a table. */
  lemma NewNodesStep(base: map<nat, Node>, rows: map<nat, Node>, start: nat, ns: seq<NodeInput>, j: nat)
    requires j < |ns|
    requires rows == base + NewNodes(start, ns[..j])
    ensures rows[start + j := Node(ns[j].id)] == base + NewNodes(start, ns[..j + 1])
  {
    NewNodesExtend(start, ns, j);
    var added := NewNodes(start, ns[..j]);
    var v := Node(ns[j].id);
    assert (base + added)[start + j := v] == base + added[start + j := v];
  }
}
