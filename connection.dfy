/** The SQLAlchemy backend's `Connection` as an object over one database:
    each table is a field the methods update row by row, as the session
    does, and each write is proved to commit exactly the transition of
    `Operations` (or, on error, to roll back to the state it began in) and
    to keep the database invariant. */
module Api {
  import opened Records
  import Store
  import Operations
  import Properties

  class Connection {
    var racks: map<nat, Rack>
    var resourceClasses: map<nat, ResourceClass>
    var flavors: map<nat, Flavor>
    var capacities: map<nat, Capacity>
    var nodes: map<nat, Node>
    var nextRack: nat
    var nextResourceClass: nat
    var nextFlavor: nat
    var nextCapacity: nat
    var nextNode: nat

    /** The committed database the lookups of `Store` are evaluated on. */
    function State(): Store.Db
      reads this
    {
      Store.Db(racks, resourceClasses, flavors, capacities, nodes,
               nextRack, nextResourceClass, nextFlavor, nextCapacity, nextNode)
    }

    ghost predicate Valid()
      reads this
    {
      Store.Valid(State())
    }

    /** A connection to the configured database, whatever rows it holds. */
    constructor (db: Store.Db)
      requires Store.Valid(db)
      ensures State() == db
      ensures Valid()
    {
      racks, resourceClasses, flavors, capacities, nodes :=
        db.racks, db.resourceClasses, db.flavors, db.capacities, db.nodes;
      nextRack, nextResourceClass, nextFlavor, nextCapacity, nextNode :=
        db.nextRack, db.nextResourceClass, db.nextFlavor, db.nextCapacity, db.nextNode;
    }

    /** session.rollback(): every change since `saved` was taken is undone. */
    method Rollback(saved: Store.Db)
      modifies this
      ensures State() == saved
    {
      racks, resourceClasses, flavors, capacities, nodes :=
        saved.racks, saved.resourceClasses, saved.flavors, saved.capacities, saved.nodes;
      nextRack, nextResourceClass, nextFlavor, nextCapacity, nextNode :=
        saved.nextRack, saved.nextResourceClass, saved.nextFlavor, saved.nextCapacity, saved.nextNode;
    }

    // -------------------------------------------------------------------
    // Adding and deleting child rows

    /** One `session.add(Capacity(...))` per input, in order; returns the
        new rows' ids for the owner to append. */
    method AddCapacities(cs: seq<CapacityInput>, withUnit: bool) returns (ids: seq<nat>)
      modifies this`capacities, this`nextCapacity
      ensures ids == Operations.IdRange(old(nextCapacity), |cs|)
      ensures capacities == old(capacities) + Operations.NewCapacities(old(nextCapacity), cs, withUnit)
      ensures nextCapacity == old(nextCapacity) + |cs|
    {
      var base, start := capacities, nextCapacity;
      var rows := base;
      var next := start;
      ids := [];
      var i := 0;
      while i < |cs|
        invariant 0 <= i <= |cs|
        invariant next == start + i
        invariant ids == Operations.IdRange(start, i)
        invariant rows == base + Operations.NewCapacities(start, cs[..i], withUnit)
      {
        Operations.NewCapacitiesStep(base, rows, start, cs, i, withUnit);
        rows := rows[next := Operations.MakeCapacity(cs[i], withUnit)];
        ids := ids + [next];
        next := next + 1;
        i := i + 1;
      }
      assert cs[..|cs|] == cs;
      capacities, nextCapacity := rows, next;
    }

    /** One `session.add(Node(node_id=...))` per input, in order. */
    method AddNodes(ns: seq<NodeInput>) returns (ids: seq<nat>)
      modifies this`nodes, this`nextNode
      ensures ids == Operations.IdRange(old(nextNode), |ns|)
      ensures nodes == old(nodes) + Operations.NewNodes(old(nextNode), ns)
      ensures nextNode == old(nextNode) + |ns|
    {
      var base, start := nodes, nextNode;
      var rows := base;
      var next := start;
      ids := [];
      var i := 0;
      while i < |ns|
        invariant 0 <= i <= |ns|
        invariant next == start + i
        invariant ids == Operations.IdRange(start, i)
        invariant rows == base + Operations.NewNodes(start, ns[..i])
      {
        Operations.NewNodesStep(base, rows, start, ns, i);
        rows := rows[next := Node(ns[i].id)];
        ids := ids + [next];
        next := next + 1;
        i := i + 1;
      }
      assert ns[..|ns|] == ns;
      nodes, nextNode := rows, next;
    }

    /** One `session.delete(c)` per listed capacity. */
    method DeleteCapacityRows(ids: seq<nat>)
      modifies this`capacities
      ensures capacities == old(capacities) - Store.Elements(ids)
    {
      ghost var before := State();
      var i := 0;
      while i < |ids|
        invariant 0 <= i <= |ids|
        invariant capacities == before.capacities - Store.Elements(ids[..i])
      {
        assert Store.Elements(ids[..i + 1]) == Store.Elements(ids[..i]) + {ids[i]} by {
          assert ids[..i + 1] == ids[..i] + [ids[i]];
        }
        capacities := capacities - {ids[i]};
        i := i + 1;
      }
      assert ids[..|ids|] == ids;
    }

    /** One `session.delete(n)` per listed node. */
    method DeleteNodeRows(ids: seq<nat>)
      modifies this`nodes
      ensures nodes == old(nodes) - Store.Elements(ids)
    {
      ghost var before := State();
      var i := 0;
      while i < |ids|
        invariant 0 <= i <= |ids|
        invariant nodes == before.nodes - Store.Elements(ids[..i])
      {
        assert Store.Elements(ids[..i + 1]) == Store.Elements(ids[..i]) + {ids[i]} by {
          assert ids[..i + 1] == ids[..i] + [ids[i]];
        }
        nodes := nodes - {ids[i]};
        i := i + 1;
      }
      assert ids[..|ids|] == ids;
    }

    // -------------------------------------------------------------------
    // Racks

    /** create_rack: commits `Operations.CreateRack` and returns the new rack
        as stored, with its id. */
    method CreateRack(input: RackInput) returns (row: Row<Rack>)
      requires Valid()
      modifies this
      ensures Valid()
      ensures State() == Operations.CreateRack(old(State()), input)
      ensures row.id == old(nextRack) && row.id in racks && row.data == racks[row.id]
    {
      ghost var before := State();
      var id := nextRack;
      // The rack object lives in the session and reaches the table at commit;
      // `Items` is empty when the input list is falsy, so no row is added then.
      var rack := Rack(input.name, input.slots, input.subnet, None, None, [], []);
      if input.chassis.Some? {
        rack := rack.(chassisId := input.chassis);
      }
      var capacityIds := AddCapacities(Items(input.capacities), false);
      var nodeIds := AddNodes(Items(input.nodes));
      rack := rack.(capacities := capacityIds, nodes := nodeIds);
      racks, nextRack := racks[id := rack], nextRack + 1;
      assert State() == Operations.CreateRack(before, input);
      Properties.CreateRackPreservesValid(before, input);
      row := Row(id, rack);
    }

    /** update_rack: looks the rack up inside the transaction; a missing rack
        rolls back and raises RackNotFound, otherwise the result of
        `Operations.UpdateRack` is committed and the stored rack returned. */
    method UpdateRack(input: RackInput) returns (r: Result<Rack>)
      requires Valid()
      modifies this
      ensures Valid()
      ensures r.Err? <==> Operations.UpdateRack(old(State()), input).Err?
      ensures r.Err? ==> r.error == Operations.UpdateRack(old(State()), input).error
                         && State() == old(State())
      ensures r.Ok? ==> Operations.UpdateRack(old(State()), input) == Ok(State())
                        && input.id in racks && r.value == racks[input.id]
    {
      var saved := State();
      var found := Store.GetRack(State(), input.id);
      if found.Err? {
        Rollback(saved);
        r := Err(found.error);
        return;
      }
      var id := input.id;
      var rack := found.value;
      // Each scalar is overwritten only by a truthy input value.
      rack := Operations.UpdateScalars(rack, input);
      racks := racks[id := rack];
      assert State() == Operations.ApplyScalars(saved, input);
      ReplaceRackCapacities(id, input.capacities);
      ReplaceRackNodes(id, input.nodes);
      assert Operations.UpdateRack(saved, input) == Ok(State());
      Properties.UpdateRackPreservesValid(saved, input, State());
      r := Ok(racks[id]);
    }

    /** The capacities part of update_rack: unless the field is Unset, delete
        each capacity row the rack owns and append one new row per input. */
    method ReplaceRackCapacities(id: nat, f: Field<seq<CapacityInput>>)
      requires id in racks
      modifies this
      ensures State() == Operations.ReplaceCapacities(old(State()), id, f)
    {
      if f.Value? {
        var rack := racks[id];
        DeleteCapacityRows(rack.capacities);
        // The deleted rows leave the relationship when the session flushes,
        // so the rack ends up owning only the capacities appended here.
        var ids := AddCapacities(f.value, false);
        racks := racks[id := rack.(capacities := ids)];
      }
    }

    /** The nodes part of update_rack, by the same rule. */
    method ReplaceRackNodes(id: nat, f: Field<seq<NodeInput>>)
      requires id in racks
      modifies this
      ensures State() == Operations.ReplaceNodes(old(State()), id, f)
    {
      if f.Value? {
        var rack := racks[id];
        DeleteNodeRows(rack.nodes);
        var ids := AddNodes(f.value);
        racks := racks[id := rack.(nodes := ids)];
      }
    }

    /** delete_rack: looks the rack up before the transaction (RackNotFound
        when missing, nothing changed), then deletes the rack row and each
        capacity and node row it owns. */
    method DeleteRack(id: nat) returns (r: Result<()>)
      requires Valid()
      modifies this
      ensures Valid()
      ensures r.Err? <==> Operations.DeleteRack(old(State()), id).Err?
      ensures r.Err? ==> r.error == Operations.DeleteRack(old(State()), id).error
                         && State() == old(State())
      ensures r.Ok? ==> Operations.DeleteRack(old(State()), id) == Ok(State())
    {
      ghost var before := State();
      var found := Store.GetRack(State(), id);
      if found.Err? {
        r := Err(found.error);
        return;
      }
      var rack := found.value;
      racks := racks - {id};
      DeleteCapacityRows(rack.capacities);
      DeleteNodeRows(rack.nodes);
      Properties.DeleteRackPreservesValid(before, id, State());
      r := Ok(());
    }

    // -------------------------------------------------------------------
    // Resource classes

    /** create_resource_class: adds the row, then assigns each listed rack
        in order, looking it up; the first missing rack rolls the whole
        transaction back (the new row included) and raises RackNotFound. */
    method CreateResourceClass(input: ResourceClassInput) returns (r: Result<Row<ResourceClass>>)
      requires Valid()
      modifies this
      ensures Valid()
      ensures r.Err? <==> Operations.CreateResourceClass(old(State()), input).Err?
      ensures r.Err? ==> r.error == Operations.CreateResourceClass(old(State()), input).error
                         && State() == old(State())
      ensures r.Ok? ==> Operations.CreateResourceClass(old(State()), input) == Ok(State())
                        && r.value.id == old(nextResourceClass)
                        && r.value.id in resourceClasses
                        && r.value.data == resourceClasses[r.value.id]
    {
      var saved := State();
      var id := nextResourceClass;
      var rc := ResourceClass(input.name, input.serviceType);
      resourceClasses := resourceClasses[id := rc];
      nextResourceClass := nextResourceClass + 1;
      ghost var db1 := State();
      var ids := Items(input.racks);
      if TruthyField(input.racks) {
        var i := 0;
        while i < |ids|
          invariant 0 <= i <= |ids|
          invariant State() == db1.(racks := racks)
          invariant Operations.AssignResourceClass(racks, ids[i..], id)
                    == Operations.AssignResourceClass(db1.racks, ids, id)
        {
          assert ids[i..][0] == ids[i] && ids[i..][1..] == ids[i + 1..];
          var found := Store.GetRack(State(), ids[i]);
          if found.Err? {
            Rollback(saved);
            r := Err(found.error);
            return;
          }
          racks := racks[ids[i] := found.value.(resourceClassId := Some(id))];
          i := i + 1;
        }
      }
      assert ids[|ids|..] == [];
      Properties.CreateResourceClassPreservesValid(saved, input, State());
      r := Ok(Row(id, rc));
    }

    /** delete_resource_class: a bulk delete of the row; racks keep the
        reference (see `Properties.DeleteResourceClassLeavesDanglingRacks`). */
    method DeleteResourceClass(id: nat)
      requires Valid()
      modifies this
      ensures Valid()
      ensures State() == Operations.DeleteResourceClass(old(State()), id)
    {
      resourceClasses := resourceClasses - {id};
    }

    // -------------------------------------------------------------------
    // Flavors

    /** create_flavor: adds the flavor row, then one capacity row (with its
        unit) per input capacity; iterating an Unset list raises, which rolls
        the transaction back. */
    method CreateFlavor(input: FlavorInput) returns (r: Result<Row<Flavor>>)
      requires Valid()
      modifies this
      ensures Valid()
      ensures r.Err? <==> Operations.CreateFlavor(old(State()), input).Err?
      ensures r.Err? ==> r.error == Operations.CreateFlavor(old(State()), input).error
                         && State() == old(State())
      ensures r.Ok? ==> Operations.CreateFlavor(old(State()), input) == Ok(State())
                        && r.value.id == old(nextFlavor)
                        && r.value.id in flavors
                        && r.value.data == flavors[r.value.id]
    {
      var saved := State();
      var id := nextFlavor;
      nextFlavor := nextFlavor + 1;
      var flavor := Flavor(input.name, []);
      match input.capacities {
        case Unset =>
          Rollback(saved);
          r := Err(UnsetNotIterable);
        case Value(cs) =>
          var ids := AddCapacities(cs, true);
          flavor := flavor.(capacities := ids);
          flavors := flavors[id := flavor];
          Properties.CreateFlavorPreservesValid(saved, input, State());
          r := Ok(Row(id, flavor));
      }
    }

    /** delete_capacities: deletes each capacity row the owner (a rack or a
        flavor) lists and reports success. The deleted rows leave the
        owner's relationship when the session flushes. */
    method DeleteCapacities(owner: Owner) returns (ok: bool)
      requires Valid()
      requires Operations.OwnerExists(State(), owner)
      modifies this
      ensures Valid()
      ensures ok
      ensures State() == Operations.DeleteCapacities(old(State()), owner)
    {
      ghost var before := State();
      DeleteCapacityRows(Operations.OwnedCapacities(State(), owner));
      match owner {
        case RackOwner(k) =>
          racks := racks[k := racks[k].(capacities := [])];
        case FlavorOwner(k) =>
          flavors := flavors[k := flavors[k].(capacities := [])];
      }
      assert State() == Operations.DeleteCapacities(before, owner);
      Properties.DeleteCapacitiesPreservesValid(before, owner);
      ok := true;
    }

    /** delete_flavor: looks the flavor up before the transaction
        (FlavorNotFound when missing, nothing changed), deletes its
        capacities, then the flavor row, and returns true. */
    method DeleteFlavor(id: nat) returns (r: Result<bool>)
      requires Valid()
      modifies this
      ensures Valid()
      ensures r.Err? <==> Operations.DeleteFlavor(old(State()), id).Err?
      ensures r.Err? ==> r.error == Operations.DeleteFlavor(old(State()), id).error
                         && State() == old(State())
      ensures r.Ok? ==> Operations.DeleteFlavor(old(State()), id) == Ok(State()) && r.value
    {
      ghost var before := State();
      var found := Store.GetFlavor(State(), id);
      if found.Err? {
        r := Err(found.error);
        return;
      }
      var ok := DeleteCapacities(FlavorOwner(id));
      if ok {
        flavors := flavors - {id};
      }
      Properties.DeleteFlavorPreservesValid(before, id, State());
      r := Ok(ok);
    }
  }
}
