/** What the backend's writes promise: the update rules of update_rack, the
    cascades of delete_rack and delete_flavor, the all-or-nothing
    create_resource_class, the dangling references delete_resource_class
    leaves, and that every write keeps the database invariant `Valid`. */
module Properties {
  import opened Records
  import opened Store
  import opened Operations

  // ---------------------------------------------------------------------
  // Facts about valid databases used below

  /** Every id an owner lists is below the child table's counter. */
  lemma OwnedIdsBelowCounters(db: Db)
    requires FreshCounters(db) && OwnedRowsExist(db)
    ensures forall r, c :: r in db.racks && c in db.racks[r].capacities ==> c < db.nextCapacity
    ensures forall r, n :: r in db.racks && n in db.racks[r].nodes ==> n < db.nextNode
    ensures forall f, c :: f in db.flavors && c in db.flavors[f].capacities ==> c < db.nextCapacity
  {
    forall r, c | r in db.racks && c in db.racks[r].capacities ensures c < db.nextCapacity {
      assert c in db.capacities;
    }
    forall r, n | r in db.racks && n in db.racks[r].nodes ensures n < db.nextNode {
      assert n in db.nodes;
    }
    forall f, c | f in db.flavors && c in db.flavors[f].capacities ensures c < db.nextCapacity {
      assert c in db.capacities;
    }
  }

  /** Rows added from a counter at least every existing key: each input
      element gets its own new key, in order, and no existing row changes. */
  lemma NewCapacitiesAttach(rows: map<nat, Capacity>, start: nat, cs: seq<CapacityInput>, withUnit: bool)
    requires KeysBelow(rows, start)
    ensures var m := rows + NewCapacities(start, cs, withUnit);
            var ids := IdRange(start, |cs|);
            && (forall i :: 0 <= i < |cs| ==>
                  ids[i] !in rows && ids[i] in m && m[ids[i]] == MakeCapacity(cs[i], withUnit))
            && m.Keys == rows.Keys + Elements(ids)
            && (forall c :: c in rows ==> m[c] == rows[c])
  {
    var added := NewCapacities(start, cs, withUnit);
    var m := rows + added;
    var ids := IdRange(start, |cs|);
    forall i | 0 <= i < |cs| ensures ids[i] !in rows && m[ids[i]] == MakeCapacity(cs[i], withUnit) {
      assert ids[i] == start + i && ids[i] in added;
      assert added[ids[i]] == CapacityAt(start, cs, start + i, withUnit);
    }
    forall x ensures x in m <==> x in rows || x in Elements(ids) {
    }
  }

  lemma NewNodesAttach(rows: map<nat, Node>, start: nat, ns: seq<NodeInput>)
    requires KeysBelow(rows, start)
    ensures var m := rows + NewNodes(start, ns);
            var ids := IdRange(start, |ns|);
            && (forall i :: 0 <= i < |ns| ==> ids[i] !in rows && ids[i] in m && m[ids[i]] == Node(ns[i].id))
            && m.Keys == rows.Keys + Elements(ids)
            && (forall n :: n in rows ==> m[n] == rows[n])
  {
    var added := NewNodes(start, ns);
    var m := rows + added;
    var ids := IdRange(start, |ns|);
    forall i | 0 <= i < |ns| ensures ids[i] !in rows && m[ids[i]] == Node(ns[i].id) {
      assert ids[i] == start + i && ids[i] in added;
      assert added[ids[i]] == NodeAt(start, ns, start + i);
    }
    forall x ensures x in m <==> x in rows || x in Elements(ids) {
    }
  }

  // ---------------------------------------------------------------------
  // create_rack

  /** create_rack adds exactly one rack, under a new id, holding the input's
      name, slots and subnet, the chassis id only when a chassis is given, and
      no resource class; no other rack, resource class or flavor changes. */
  lemma CreateRackAddsOneRack(db: Db, input: RackInput, after: Db)
    requires Valid(db)
    requires after == CreateRack(db, input)
    ensures db.nextRack !in db.racks
    ensures after.racks.Keys == db.racks.Keys + {db.nextRack}
    ensures forall k :: k in db.racks ==> after.racks[k] == db.racks[k]
    ensures GetRack(after, db.nextRack).Ok?
    ensures var rack := GetRack(after, db.nextRack).value;
            && rack.name == input.name && rack.slots == input.slots && rack.subnet == input.subnet
            && (input.chassis.Some? ==> rack.chassisId == input.chassis)
            && (input.chassis.None? ==> rack.chassisId.None?)
            && rack.resourceClassId.None?
    ensures after.resourceClasses == db.resourceClasses && after.flavors == db.flavors
  {
  }

  /** Each input capacity becomes one new capacity row (name and value, no
      unit) owned by the new rack in input order; an Unset or empty list
      attaches nothing, and no existing capacity row changes. */
  lemma CreateRackAttachesCapacities(db: Db, input: RackInput, after: Db)
    requires FreshCounters(db)
    requires after == CreateRack(db, input)
    ensures var rack := after.racks[db.nextRack];
            var cs := Items(input.capacities);
            && |rack.capacities| == |cs|
            && (forall i :: 0 <= i < |cs| ==>
                  && rack.capacities[i] !in db.capacities
                  && rack.capacities[i] in after.capacities
                  && after.capacities[rack.capacities[i]] == Capacity(cs[i].name, cs[i].value, None))
            && after.capacities.Keys == db.capacities.Keys + Elements(rack.capacities)
    ensures forall c :: c in db.capacities ==> after.capacities[c] == db.capacities[c]
    ensures !TruthyField(input.capacities) ==> after.capacities == db.capacities
  {
    NewCapacitiesAttach(db.capacities, db.nextCapacity, Items(input.capacities), false);
    if !TruthyField(input.capacities) {
      assert NewCapacities(db.nextCapacity, [], false) == map[];
    }
  }

  /** Each input node becomes one new node row whose node id is the input's
      id, owned by the new rack in input order; an Unset or empty list
      attaches nothing, and no existing node row changes. */
  lemma CreateRackAttachesNodes(db: Db, input: RackInput, after: Db)
    requires FreshCounters(db)
    requires after == CreateRack(db, input)
    ensures var rack := after.racks[db.nextRack];
            var ns := Items(input.nodes);
            && |rack.nodes| == |ns|
            && (forall i :: 0 <= i < |ns| ==>
                  && rack.nodes[i] !in db.nodes
                  && rack.nodes[i] in after.nodes
                  && after.nodes[rack.nodes[i]] == Node(ns[i].id))
            && after.nodes.Keys == db.nodes.Keys + Elements(rack.nodes)
    ensures forall n :: n in db.nodes ==> after.nodes[n] == db.nodes[n]
    ensures !TruthyField(input.nodes) ==> after.nodes == db.nodes
  {
    NewNodesAttach(db.nodes, db.nextNode, Items(input.nodes));
    if !TruthyField(input.nodes) {
      assert NewNodes(db.nextNode, []) == map[];
    }
  }

  lemma CreateRackKeepsOwnedRows(db: Db, input: RackInput)
    requires OwnedRowsExist(db)
    requires KeysBelow(db.capacities, db.nextCapacity) && KeysBelow(db.nodes, db.nextNode)
    ensures OwnedRowsExist(CreateRack(db, input))
  {
    var after := CreateRack(db, input);
    NewCapacitiesAttach(db.capacities, db.nextCapacity, Items(input.capacities), false);
    NewNodesAttach(db.nodes, db.nextNode, Items(input.nodes));
    forall r | r in after.racks
      ensures AllIn(after.racks[r].capacities, after.capacities) && Distinct(after.racks[r].capacities)
      ensures AllIn(after.racks[r].nodes, after.nodes) && Distinct(after.racks[r].nodes)
    {
      if r != db.nextRack {
        assert after.racks[r] == db.racks[r];
        assert forall c :: c in db.racks[r].capacities ==> c in db.capacities;
        assert forall n :: n in db.racks[r].nodes ==> n in db.nodes;
      }
    }
    forall f | f in after.flavors
      ensures AllIn(after.flavors[f].capacities, after.capacities) && Distinct(after.flavors[f].capacities)
    {
      assert after.flavors[f] == db.flavors[f];
      assert forall c :: c in db.flavors[f].capacities ==> c in db.capacities;
    }
  }

  lemma CreateRackKeepsOwnershipExclusive(db: Db, input: RackInput)
    requires FreshCounters(db) && OwnedRowsExist(db) && ExclusiveOwnership(db)
    ensures ExclusiveOwnership(CreateRack(db, input))
  {
    var after := CreateRack(db, input);
    var rack := after.racks[db.nextRack];
    OwnedIdsBelowCounters(db);
    forall r | r in db.racks
      ensures Disjoint(rack.capacities, db.racks[r].capacities)
      ensures Disjoint(db.racks[r].capacities, rack.capacities)
      ensures Disjoint(rack.nodes, db.racks[r].nodes)
      ensures Disjoint(db.racks[r].nodes, rack.nodes)
    {
    }
    forall f | f in db.flavors ensures Disjoint(rack.capacities, db.flavors[f].capacities) {
    }
  }

  lemma CreateRackPreservesValid(db: Db, input: RackInput)
    requires Valid(db)
    ensures Valid(CreateRack(db, input))
  {
    CreateRackKeepsOwnedRows(db, input);
    CreateRackKeepsOwnershipExclusive(db, input);
  }

  // ---------------------------------------------------------------------
  // update_rack

  /** update_rack and delete_rack fail on a missing id with RackNotFound
      carrying it, and succeed otherwise. */
  lemma RackWritesFailOnlyOnMissingRack(db: Db, input: RackInput, id: nat)
    ensures UpdateRack(db, input).Err? <==> input.id !in db.racks
    ensures UpdateRack(db, input).Err? ==> UpdateRack(db, input).error == RackNotFound(input.id)
    ensures DeleteRack(db, id).Err? <==> id !in db.racks
    ensures DeleteRack(db, id).Err? ==> DeleteRack(db, id).error == RackNotFound(id)
  {
  }

  /** Each of name, slots, subnet and chassis is overwritten when the input
      field is truthy and kept when it is falsy; the resource class reference
      is kept, and no other rack, resource class or flavor changes. */
  lemma UpdateRackScalarRules(db: Db, input: RackInput, after: Db)
    requires UpdateRack(db, input) == Ok(after)
    ensures input.id in db.racks && input.id in after.racks
    ensures var before := db.racks[input.id];
            var rack := after.racks[input.id];
            && (TruthyString(input.name) ==> rack.name == input.name)
            && (!TruthyString(input.name) ==> rack.name == before.name)
            && (TruthyInt(input.slots) ==> rack.slots == input.slots)
            && (!TruthyInt(input.slots) ==> rack.slots == before.slots)
            && (TruthyString(input.subnet) ==> rack.subnet == input.subnet)
            && (!TruthyString(input.subnet) ==> rack.subnet == before.subnet)
            && (input.chassis.Some? ==> rack.chassisId == input.chassis)
            && (input.chassis.None? ==> rack.chassisId == before.chassisId)
            && rack.resourceClassId == before.resourceClassId
    ensures after.racks.Keys == db.racks.Keys
    ensures forall k :: k in db.racks && k != input.id ==> after.racks[k] == db.racks[k]
    ensures after.resourceClasses == db.resourceClasses && after.flavors == db.flavors
  {
    var db0 := ApplyScalars(db, input);
    var db1 := ReplaceCapacities(db0, input.id, input.capacities);
    assert after == ReplaceNodes(db1, input.id, input.nodes);
  }

  /** Replacing a rack's capacities by a list deletes every row it owned,
      gives it one new row per element in order, and keeps every other row. */
  lemma ReplaceCapacitiesRules(db: Db, id: nat, cs: seq<CapacityInput>)
    requires id in db.racks
    requires KeysBelow(db.capacities, db.nextCapacity) && AllIn(db.racks[id].capacities, db.capacities)
    ensures var after := ReplaceCapacities(db, id, Value(cs));
            var owned := after.racks[id].capacities;
            && (forall c :: c in db.racks[id].capacities ==> c !in after.capacities)
            && |owned| == |cs|
            && (forall i :: 0 <= i < |cs| ==>
                  && owned[i] !in db.capacities && owned[i] in after.capacities
                  && after.capacities[owned[i]] == Capacity(cs[i].name, cs[i].value, None))
            && (forall c :: c in db.capacities && c !in db.racks[id].capacities ==>
                  c in after.capacities && after.capacities[c] == db.capacities[c])
            && after.capacities.Keys == (db.capacities.Keys - Elements(db.racks[id].capacities)) + Elements(owned)
  {
    var after := ReplaceCapacities(db, id, Value(cs));
    var kept := db.capacities - Elements(db.racks[id].capacities);
    assert after.capacities == kept + NewCapacities(db.nextCapacity, cs, false);
    NewCapacitiesAttach(kept, db.nextCapacity, cs, false);
  }

  /** Replacing a rack's nodes by a list deletes every node row it owned,
      gives it one new row per element in order, and keeps every other row. */
  lemma ReplaceNodesRules(db: Db, id: nat, ns: seq<NodeInput>)
    requires id in db.racks
    requires KeysBelow(db.nodes, db.nextNode) && AllIn(db.racks[id].nodes, db.nodes)
    ensures var after := ReplaceNodes(db, id, Value(ns));
            var owned := after.racks[id].nodes;
            && (forall n :: n in db.racks[id].nodes ==> n !in after.nodes)
            && |owned| == |ns|
            && (forall i :: 0 <= i < |ns| ==>
                  && owned[i] !in db.nodes && owned[i] in after.nodes
                  && after.nodes[owned[i]] == Node(ns[i].id))
            && (forall n :: n in db.nodes && n !in db.racks[id].nodes ==>
                  n in after.nodes && after.nodes[n] == db.nodes[n])
            && after.nodes.Keys == (db.nodes.Keys - Elements(db.racks[id].nodes)) + Elements(owned)
  {
    var after := ReplaceNodes(db, id, Value(ns));
    var kept := db.nodes - Elements(db.racks[id].nodes);
    assert after.nodes == kept + NewNodes(db.nextNode, ns);
    NewNodesAttach(kept, db.nextNode, ns);
  }

  /** An Unset capacities field leaves the rack's capacities and every
      capacity row untouched. Otherwise every capacity the rack owned is
      deleted and the rack owns exactly one new row (name and value) per
      input element, in order, so an empty list clears it; capacity rows of
      other racks and of flavors are kept. */
  lemma UpdateRackCapacityRules(db: Db, input: RackInput, after: Db)
    requires Valid(db)
    requires UpdateRack(db, input) == Ok(after)
    ensures input.id in db.racks && input.id in after.racks
    ensures input.capacities.Unset? ==>
              && after.racks[input.id].capacities == db.racks[input.id].capacities
              && after.capacities == db.capacities
    ensures input.capacities.Value? ==>
              var cs := input.capacities.value;
              var owned := after.racks[input.id].capacities;
              && (forall c :: c in db.racks[input.id].capacities ==> c !in after.capacities)
              && |owned| == |cs|
              && (forall i :: 0 <= i < |cs| ==>
                    && owned[i] !in db.capacities && owned[i] in after.capacities
                    && after.capacities[owned[i]] == Capacity(cs[i].name, cs[i].value, None))
    ensures forall k, c :: k in db.racks && k != input.id && c in db.racks[k].capacities ==>
              c in after.capacities && after.capacities[c] == db.capacities[c]
    ensures forall f, c :: f in db.flavors && c in db.flavors[f].capacities ==>
              c in after.capacities && after.capacities[c] == db.capacities[c]
  {
    var id := input.id;
    var db0 := ApplyScalars(db, input);
    var db1 := ReplaceCapacities(db0, id, input.capacities);
    assert after == ReplaceNodes(db1, id, input.nodes);
    assert after.capacities == db1.capacities;
    assert after.racks[id].capacities == db1.racks[id].capacities;
    assert db0.capacities == db.capacities && db0.nextCapacity == db.nextCapacity;
    assert db0.racks[id].capacities == db.racks[id].capacities;
    if input.capacities.Value? {
      ReplaceCapacitiesRules(db0, id, input.capacities.value);
      forall k, c | k in db.racks && k != id && c in db.racks[k].capacities
        ensures c in db.capacities && c !in db.racks[id].capacities
      {
        assert Disjoint(db.racks[k].capacities, db.racks[id].capacities);
      }
      forall f, c | f in db.flavors && c in db.flavors[f].capacities
        ensures c in db.capacities && c !in db.racks[id].capacities
      {
        assert Disjoint(db.racks[id].capacities, db.flavors[f].capacities);
      }
    }
  }

  /** The same rules for nodes: Unset keeps them, a list replaces them by one
      new node row per element with that node id; nodes of other racks are kept. */
  lemma UpdateRackNodeRules(db: Db, input: RackInput, after: Db)
    requires Valid(db)
    requires UpdateRack(db, input) == Ok(after)
    ensures input.id in db.racks && input.id in after.racks
    ensures input.nodes.Unset? ==>
              && after.racks[input.id].nodes == db.racks[input.id].nodes
              && after.nodes == db.nodes
    ensures input.nodes.Value? ==>
              var ns := input.nodes.value;
              var owned := after.racks[input.id].nodes;
              && (forall n :: n in db.racks[input.id].nodes ==> n !in after.nodes)
              && |owned| == |ns|
              && (forall i :: 0 <= i < |ns| ==>
                    && owned[i] !in db.nodes && owned[i] in after.nodes
                    && after.nodes[owned[i]] == Node(ns[i].id))
    ensures forall k, n :: k in db.racks && k != input.id && n in db.racks[k].nodes ==>
              n in after.nodes && after.nodes[n] == db.nodes[n]
  {
    var id := input.id;
    var db0 := ApplyScalars(db, input);
    var db1 := ReplaceCapacities(db0, id, input.capacities);
    assert after == ReplaceNodes(db1, id, input.nodes);
    assert db1.nodes == db.nodes && db1.nextNode == db.nextNode;
    assert db1.racks[id].nodes == db.racks[id].nodes;
    if input.nodes.Value? {
      ReplaceNodesRules(db1, id, input.nodes.value);
      forall k, n | k in db.racks && k != id && n in db.racks[k].nodes
        ensures n in db.nodes && n !in db.racks[id].nodes
      {
        assert Disjoint(db.racks[k].nodes, db.racks[id].nodes);
      }
    }
  }

  lemma ReplaceCapacitiesKeepsOwnedRows(db: Db, id: nat, cs: seq<CapacityInput>)
    requires OwnedRowsExist(db) && ExclusiveOwnership(db) && id in db.racks
    requires KeysBelow(db.capacities, db.nextCapacity)
    ensures OwnedRowsExist(ReplaceCapacities(db, id, Value(cs)))
  {
    var after := ReplaceCapacities(db, id, Value(cs));
    var kept := db.capacities - Elements(db.racks[id].capacities);
    assert after.capacities == kept + NewCapacities(db.nextCapacity, cs, false);
    NewCapacitiesAttach(kept, db.nextCapacity, cs, false);
    forall r | r in after.racks
      ensures AllIn(after.racks[r].capacities, after.capacities) && Distinct(after.racks[r].capacities)
      ensures AllIn(after.racks[r].nodes, after.nodes) && Distinct(after.racks[r].nodes)
    {
      assert after.racks[r].nodes == db.racks[r].nodes;
      if r != id {
        assert after.racks[r] == db.racks[r];
        forall x | x in db.racks[r].capacities ensures x in after.capacities {
          assert Disjoint(db.racks[r].capacities, db.racks[id].capacities);
        }
      }
    }
    forall f | f in after.flavors
      ensures AllIn(after.flavors[f].capacities, after.capacities) && Distinct(after.flavors[f].capacities)
    {
      assert after.flavors[f] == db.flavors[f];
      forall c | c in db.flavors[f].capacities ensures c in after.capacities {
        assert Disjoint(db.racks[id].capacities, db.flavors[f].capacities);
      }
    }
  }

  lemma ReplaceCapacitiesKeepsOwnershipExclusive(db: Db, id: nat, cs: seq<CapacityInput>)
    requires FreshCounters(db) && OwnedRowsExist(db) && ExclusiveOwnership(db) && id in db.racks
    ensures ExclusiveOwnership(ReplaceCapacities(db, id, Value(cs)))
  {
    var after := ReplaceCapacities(db, id, Value(cs));
    var added := after.racks[id].capacities;
    OwnedIdsBelowCounters(db);
    forall r | r in db.racks && r != id
      ensures Disjoint(added, db.racks[r].capacities)
      ensures Disjoint(db.racks[r].capacities, added)
    {
    }
    forall f | f in db.flavors ensures Disjoint(added, db.flavors[f].capacities) {
    }
  }

  lemma ReplaceNodesKeepsOwnedRows(db: Db, id: nat, ns: seq<NodeInput>)
    requires OwnedRowsExist(db) && ExclusiveOwnership(db) && id in db.racks
    requires KeysBelow(db.nodes, db.nextNode)
    ensures OwnedRowsExist(ReplaceNodes(db, id, Value(ns)))
  {
    var after := ReplaceNodes(db, id, Value(ns));
    var kept := db.nodes - Elements(db.racks[id].nodes);
    assert after.nodes == kept + NewNodes(db.nextNode, ns);
    NewNodesAttach(kept, db.nextNode, ns);
    forall r | r in after.racks
      ensures AllIn(after.racks[r].nodes, after.nodes) && Distinct(after.racks[r].nodes)
      ensures AllIn(after.racks[r].capacities, after.capacities) && Distinct(after.racks[r].capacities)
    {
      assert after.racks[r].capacities == db.racks[r].capacities;
      if r != id {
        assert after.racks[r] == db.racks[r];
        forall x | x in db.racks[r].nodes ensures x in after.nodes {
          assert Disjoint(db.racks[r].nodes, db.racks[id].nodes);
        }
      }
    }
    assert after.flavors == db.flavors && after.capacities == db.capacities;
  }

  lemma ReplaceNodesKeepsOwnershipExclusive(db: Db, id: nat, ns: seq<NodeInput>)
    requires FreshCounters(db) && OwnedRowsExist(db) && ExclusiveOwnership(db) && id in db.racks
    ensures ExclusiveOwnership(ReplaceNodes(db, id, Value(ns)))
  {
    var after := ReplaceNodes(db, id, Value(ns));
    var added := after.racks[id].nodes;
    OwnedIdsBelowCounters(db);
    forall r | r in db.racks && r != id
      ensures Disjoint(added, db.racks[r].nodes)
      ensures Disjoint(db.racks[r].nodes, added)
    {
    }
  }

  /** A write that keeps every rack's owned lists and every child table, and
      only refers racks to resource class ids handed out, keeps the invariant. */
  lemma SameOwnersPreservesValid(db: Db, after: Db)
    requires Valid(db)
    requires after == db.(racks := after.racks, resourceClasses := after.resourceClasses,
                          nextResourceClass := after.nextResourceClass)
    requires after.racks.Keys == db.racks.Keys
    requires forall k :: k in db.racks ==>
               after.racks[k].capacities == db.racks[k].capacities && after.racks[k].nodes == db.racks[k].nodes
    requires KeysBelow(after.resourceClasses, after.nextResourceClass)
    requires forall r :: r in after.racks && after.racks[r].resourceClassId.Some? ==>
               after.racks[r].resourceClassId.value < after.nextResourceClass
    ensures Valid(after)
  {
    assert OwnedRowsExist(after) by {
      forall r | r in after.racks
        ensures AllIn(after.racks[r].capacities, after.capacities) && Distinct(after.racks[r].capacities)
        ensures AllIn(after.racks[r].nodes, after.nodes) && Distinct(after.racks[r].nodes)
      {
        assert after.racks[r].capacities == db.racks[r].capacities;
        assert after.racks[r].nodes == db.racks[r].nodes;
      }
    }
    assert ExclusiveOwnership(after) by {
      forall r1, r2 | r1 in after.racks && r2 in after.racks && r1 != r2
        ensures Disjoint(after.racks[r1].capacities, after.racks[r2].capacities)
        ensures Disjoint(after.racks[r1].nodes, after.racks[r2].nodes)
      {
        assert after.racks[r1].capacities == db.racks[r1].capacities;
        assert after.racks[r2].capacities == db.racks[r2].capacities;
        assert after.racks[r1].nodes == db.racks[r1].nodes;
        assert after.racks[r2].nodes == db.racks[r2].nodes;
      }
      forall r, f | r in after.racks && f in after.flavors
        ensures Disjoint(after.racks[r].capacities, after.flavors[f].capacities)
      {
        assert after.racks[r].capacities == db.racks[r].capacities;
      }
    }
  }

  lemma ApplyScalarsPreservesValid(db: Db, input: RackInput)
    requires Valid(db) && input.id in db.racks
    ensures Valid(ApplyScalars(db, input))
  {
    var after := ApplyScalars(db, input);
    forall r | r in after.racks && after.racks[r].resourceClassId.Some?
      ensures after.racks[r].resourceClassId.value < after.nextResourceClass
    {
      assert after.racks[r].resourceClassId == db.racks[r].resourceClassId;
    }
    SameOwnersPreservesValid(db, after);
  }

  lemma ReplaceCapacitiesKeepsFreshCounters(db: Db, id: nat, cs: seq<CapacityInput>)
    requires FreshCounters(db) && id in db.racks
    ensures FreshCounters(ReplaceCapacities(db, id, Value(cs)))
  {
    var after := ReplaceCapacities(db, id, Value(cs));
    forall r | r in after.racks && after.racks[r].resourceClassId.Some?
      ensures after.racks[r].resourceClassId.value < after.nextResourceClass
    {
      assert after.racks[r].resourceClassId == db.racks[r].resourceClassId;
    }
    forall k | k in after.capacities ensures k < after.nextCapacity {
      assert k in db.capacities || db.nextCapacity <= k < after.nextCapacity;
    }
  }

  lemma ReplaceCapacitiesPreservesValid(db: Db, id: nat, f: Field<seq<CapacityInput>>)
    requires Valid(db) && id in db.racks
    ensures Valid(ReplaceCapacities(db, id, f))
  {
    if f.Value? {
      ReplaceCapacitiesKeepsFreshCounters(db, id, f.value);
      ReplaceCapacitiesKeepsOwnedRows(db, id, f.value);
      ReplaceCapacitiesKeepsOwnershipExclusive(db, id, f.value);
    }
  }

  lemma ReplaceNodesKeepsFreshCounters(db: Db, id: nat, ns: seq<NodeInput>)
    requires FreshCounters(db) && id in db.racks
    ensures FreshCounters(ReplaceNodes(db, id, Value(ns)))
  {
    var after := ReplaceNodes(db, id, Value(ns));
    forall r | r in after.racks && after.racks[r].resourceClassId.Some?
      ensures after.racks[r].resourceClassId.value < after.nextResourceClass
    {
      assert after.racks[r].resourceClassId == db.racks[r].resourceClassId;
    }
    forall k | k in after.nodes ensures k < after.nextNode {
      assert k in db.nodes || db.nextNode <= k < after.nextNode;
    }
  }

  lemma ReplaceNodesPreservesValid(db: Db, id: nat, f: Field<seq<NodeInput>>)
    requires Valid(db) && id in db.racks
    ensures Valid(ReplaceNodes(db, id, f))
  {
    if f.Value? {
      ReplaceNodesKeepsFreshCounters(db, id, f.value);
      ReplaceNodesKeepsOwnedRows(db, id, f.value);
      ReplaceNodesKeepsOwnershipExclusive(db, id, f.value);
    }
  }

  lemma UpdateRackPreservesValid(db: Db, input: RackInput, after: Db)
    requires Valid(db)
    requires UpdateRack(db, input) == Ok(after)
    ensures Valid(after)
  {
    var id := input.id;
    var db0 := ApplyScalars(db, input);
    ApplyScalarsPreservesValid(db, input);
    var db1 := ReplaceCapacities(db0, id, input.capacities);
    ReplaceCapacitiesPreservesValid(db0, id, input.capacities);
    assert id in db1.racks;
    ReplaceNodesPreservesValid(db1, id, input.nodes);
    assert after == ReplaceNodes(db1, id, input.nodes);
  }

  // ---------------------------------------------------------------------
  // delete_rack

  /** A successful delete_rack removes the rack row and every capacity and
      node row it owned; a later get_rack fails with RackNotFound. */
  lemma DeleteRackRemovesOwnedRows(db: Db, id: nat, after: Db)
    requires DeleteRack(db, id) == Ok(after)
    ensures id in db.racks
    ensures GetRack(after, id) == Err(RackNotFound(id))
    ensures forall c :: c in db.racks[id].capacities ==> c !in after.capacities
    ensures forall n :: n in db.racks[id].nodes ==> n !in after.nodes
  {
  }

  /** All other racks, their capacities and nodes, the resource classes, the
      flavors and their capacities are untouched by delete_rack. */
  lemma DeleteRackKeepsOthers(db: Db, id: nat, after: Db)
    requires Valid(db)
    requires DeleteRack(db, id) == Ok(after)
    ensures after.racks.Keys == db.racks.Keys - {id}
    ensures forall k :: k in after.racks ==> after.racks[k] == db.racks[k]
    ensures forall k, c :: k in db.racks && k != id && c in db.racks[k].capacities ==>
              c in after.capacities && after.capacities[c] == db.capacities[c]
    ensures forall k, n :: k in db.racks && k != id && n in db.racks[k].nodes ==>
              n in after.nodes && after.nodes[n] == db.nodes[n]
    ensures after.resourceClasses == db.resourceClasses && after.flavors == db.flavors
    ensures forall f, c :: f in db.flavors && c in db.flavors[f].capacities ==>
              c in after.capacities && after.capacities[c] == db.capacities[c]
    ensures after.capacities.Keys == db.capacities.Keys - Elements(db.racks[id].capacities)
    ensures after.nodes.Keys == db.nodes.Keys - Elements(db.racks[id].nodes)
    ensures forall c :: c in after.capacities ==> after.capacities[c] == db.capacities[c]
    ensures forall n :: n in after.nodes ==> after.nodes[n] == db.nodes[n]
  {
    forall k, c | k in db.racks && k != id && c in db.racks[k].capacities
      ensures c in after.capacities && after.capacities[c] == db.capacities[c]
    {
      assert Disjoint(db.racks[k].capacities, db.racks[id].capacities);
    }
    forall k, n | k in db.racks && k != id && n in db.racks[k].nodes
      ensures n in after.nodes && after.nodes[n] == db.nodes[n]
    {
      assert Disjoint(db.racks[k].nodes, db.racks[id].nodes);
    }
    forall f, c | f in db.flavors && c in db.flavors[f].capacities
      ensures c in after.capacities && after.capacities[c] == db.capacities[c]
    {
      assert Disjoint(db.racks[id].capacities, db.flavors[f].capacities);
    }
  }

  lemma DeleteRackPreservesValid(db: Db, id: nat, after: Db)
    requires Valid(db)
    requires DeleteRack(db, id) == Ok(after)
    ensures Valid(after)
  {
    DeleteRackKeepsOthers(db, id, after);
    forall r | r in after.racks
      ensures AllIn(after.racks[r].capacities, after.capacities)
      ensures AllIn(after.racks[r].nodes, after.nodes)
    {
    }
    forall f | f in after.flavors ensures AllIn(after.flavors[f].capacities, after.capacities) {
    }
  }

  // ---------------------------------------------------------------------
  // create_resource_class, delete_resource_class

  /** Assigning walks the list in order: it fails exactly when some listed id
      has no rack, with RackNotFound for the first such id; otherwise exactly
      the listed racks point at `rc` and nothing else changes. */
  lemma {:induction false} AssignResourceClassSpec(racks: map<nat, Rack>, ids: seq<nat>, rc: nat)
    ensures AssignResourceClass(racks, ids, rc).Ok? <==> (forall x :: x in ids ==> x in racks)
    ensures AssignResourceClass(racks, ids, rc).Err? ==>
              exists i :: && 0 <= i < |ids| && ids[i] !in racks
                          && (forall j :: 0 <= j < i ==> ids[j] in racks)
                          && AssignResourceClass(racks, ids, rc).error == RackNotFound(ids[i])
    ensures AssignResourceClass(racks, ids, rc).Ok? ==>
              var m := AssignResourceClass(racks, ids, rc).value;
              && m.Keys == racks.Keys
              && (forall k :: k in racks && k in ids ==> m[k] == racks[k].(resourceClassId := Some(rc)))
              && (forall k :: k in racks && k !in ids ==> m[k] == racks[k])
    decreases |ids|
  {
    if ids == [] {
    } else if ids[0] !in racks {
      assert ids[0] in ids;
    } else {
      var x := ids[0];
      var racks' := racks[x := racks[x].(resourceClassId := Some(rc))];
      var rest := ids[1..];
      AssignResourceClassSpec(racks', rest, rc);
      assert forall y :: y in ids <==> y == x || y in rest;
      var res := AssignResourceClass(racks, ids, rc);
      assert res == AssignResourceClass(racks', rest, rc);
      if res.Err? {
        var i :| && 0 <= i < |rest| && rest[i] !in racks'
                 && (forall j :: 0 <= j < i ==> rest[j] in racks')
                 && res.error == RackNotFound(rest[i]);
        assert ids[i + 1] == rest[i];
        forall j | 0 <= j < i + 1 ensures ids[j] in racks {
          if j > 0 { assert ids[j] == rest[j - 1]; }
        }
      }
    }
  }

  /** create_resource_class fails exactly when a listed rack is missing, with
      RackNotFound naming a listed id that has no rack; nothing persists then,
      the resource class included. */
  lemma CreateResourceClassFailsOnMissingRack(db: Db, input: ResourceClassInput)
    ensures CreateResourceClass(db, input).Err? <==> exists x :: x in Items(input.racks) && x !in db.racks
    ensures CreateResourceClass(db, input).Err? ==>
              var e := CreateResourceClass(db, input).error;
              e.RackNotFound? && e.rack in Items(input.racks) && e.rack !in db.racks
  {
    AssignResourceClassSpec(db.racks, Items(input.racks), db.nextResourceClass);
  }

  /** A successful create_resource_class adds one resource class under a new
      id with the input's name and service type, points exactly the listed
      racks at it (so they are the racks get_racks_by_resource_class finds for
      it), and changes nothing else. */
  lemma CreateResourceClassAssignsRacks(db: Db, input: ResourceClassInput, after: Db)
    requires Valid(db)
    requires CreateResourceClass(db, input) == Ok(after)
    ensures db.nextResourceClass !in db.resourceClasses
    ensures after.resourceClasses.Keys == db.resourceClasses.Keys + {db.nextResourceClass}
    ensures GetResourceClass(after, db.nextResourceClass) == Ok(ResourceClass(input.name, input.serviceType))
    ensures forall k :: k in db.resourceClasses ==> after.resourceClasses[k] == db.resourceClasses[k]
    ensures after.racks.Keys == db.racks.Keys
    ensures forall k :: k in db.racks && k in Items(input.racks) ==>
              after.racks[k] == db.racks[k].(resourceClassId := Some(db.nextResourceClass))
    ensures forall k :: k in db.racks && k !in Items(input.racks) ==> after.racks[k] == db.racks[k]
    ensures GetRacksByResourceClass(after, db.nextResourceClass).Keys == Elements(Items(input.racks))
    ensures after.capacities == db.capacities && after.nodes == db.nodes && after.flavors == db.flavors
  {
    var id := db.nextResourceClass;
    AssignResourceClassSpec(db.racks, Items(input.racks), id);
    var listed := GetRacksByResourceClass(after, id);
    forall k ensures k in listed <==> k in Elements(Items(input.racks)) {
      if k in db.racks && k !in Items(input.racks) && db.racks[k].resourceClassId.Some? {
        assert db.racks[k].resourceClassId.value < id;
      }
    }
  }

  lemma CreateResourceClassPreservesValid(db: Db, input: ResourceClassInput, after: Db)
    requires Valid(db)
    requires CreateResourceClass(db, input) == Ok(after)
    ensures Valid(after)
  {
    var id := db.nextResourceClass;
    AssignResourceClassSpec(db.racks, Items(input.racks), id);
    forall r | r in after.racks && after.racks[r].resourceClassId.Some?
      ensures after.racks[r].resourceClassId.value < after.nextResourceClass
    {
      if r !in Items(input.racks) {
        assert after.racks[r] == db.racks[r];
      }
    }
    SameOwnersPreservesValid(db, after);
  }

  /** delete_resource_class removes that resource class row only: every rack
      keeps its reference, so get_racks_by_resource_class with the deleted id
      still returns the same racks, which now refer to no resource class. */
  lemma DeleteResourceClassLeavesDanglingRacks(db: Db, id: nat)
    ensures var after := DeleteResourceClass(db, id);
            && GetResourceClass(after, id) == Err(ResourceClassNotFound(id))
            && (forall k :: k != id ==> GetResourceClass(after, k) == GetResourceClass(db, k))
            && after.racks == db.racks
            && GetRacksByResourceClass(after, id) == GetRacksByResourceClass(db, id)
            && (forall k :: k in GetRacksByResourceClass(after, id) ==>
                  after.racks[k].resourceClassId == Some(id) && id !in after.resourceClasses)
            && after.capacities == db.capacities && after.nodes == db.nodes && after.flavors == db.flavors
    ensures Valid(db) ==> Valid(DeleteResourceClass(db, id))
  {
  }

  // ---------------------------------------------------------------------
  // create_flavor, delete_capacities, delete_flavor

  /** create_flavor fails on an Unset capacity list, and otherwise succeeds. */
  lemma CreateFlavorFailsOnlyOnUnset(db: Db, input: FlavorInput)
    ensures CreateFlavor(db, input).Err? <==> input.capacities.Unset?
    ensures CreateFlavor(db, input).Err? ==> CreateFlavor(db, input).error == UnsetNotIterable
  {
  }

  /** create_flavor adds one flavor under a new id with the input name and
      one new capacity row, with its unit, per input capacity in order;
      nothing else changes. */
  lemma CreateFlavorAttachesCapacities(db: Db, input: FlavorInput, after: Db)
    requires FreshCounters(db)
    requires CreateFlavor(db, input) == Ok(after)
    ensures db.nextFlavor !in db.flavors
    ensures after.flavors.Keys == db.flavors.Keys + {db.nextFlavor}
    ensures forall k :: k in db.flavors ==> after.flavors[k] == db.flavors[k]
    ensures GetFlavor(after, db.nextFlavor).Ok?
    ensures var flavor := GetFlavor(after, db.nextFlavor).value;
            var cs := input.capacities.value;
            && flavor.name == input.name
            && |flavor.capacities| == |cs|
            && (forall i :: 0 <= i < |cs| ==>
                  && flavor.capacities[i] !in db.capacities
                  && flavor.capacities[i] in after.capacities
                  && after.capacities[flavor.capacities[i]] == Capacity(cs[i].name, cs[i].value, cs[i].unit))
            && after.capacities.Keys == db.capacities.Keys + Elements(flavor.capacities)
    ensures forall c :: c in db.capacities ==> after.capacities[c] == db.capacities[c]
    ensures after.racks == db.racks && after.nodes == db.nodes && after.resourceClasses == db.resourceClasses
  {
    NewCapacitiesAttach(db.capacities, db.nextCapacity, input.capacities.value, true);
  }

  lemma CreateFlavorKeepsOwnedRows(db: Db, input: FlavorInput, after: Db)
    requires OwnedRowsExist(db) && KeysBelow(db.capacities, db.nextCapacity)
    requires CreateFlavor(db, input) == Ok(after)
    ensures OwnedRowsExist(after)
  {
    NewCapacitiesAttach(db.capacities, db.nextCapacity, input.capacities.value, true);
    forall r | r in after.racks ensures AllIn(after.racks[r].capacities, after.capacities) {
      assert after.racks[r] == db.racks[r];
    }
    forall g | g in after.flavors ensures AllIn(after.flavors[g].capacities, after.capacities) {
      if g != db.nextFlavor {
        assert after.flavors[g] == db.flavors[g];
      }
    }
  }

  lemma CreateFlavorKeepsOwnershipExclusive(db: Db, input: FlavorInput, after: Db)
    requires FreshCounters(db) && OwnedRowsExist(db) && ExclusiveOwnership(db)
    requires CreateFlavor(db, input) == Ok(after)
    ensures ExclusiveOwnership(after)
  {
    var added := after.flavors[db.nextFlavor].capacities;
    OwnedIdsBelowCounters(db);
    forall g | g in db.flavors
      ensures Disjoint(added, db.flavors[g].capacities)
      ensures Disjoint(db.flavors[g].capacities, added)
    {
    }
    forall r | r in db.racks ensures Disjoint(db.racks[r].capacities, added) {
    }
  }

  lemma CreateFlavorPreservesValid(db: Db, input: FlavorInput, after: Db)
    requires Valid(db)
    requires CreateFlavor(db, input) == Ok(after)
    ensures Valid(after)
  {
    CreateFlavorKeepsOwnedRows(db, input, after);
    CreateFlavorKeepsOwnershipExclusive(db, input, after);
    forall k | k in after.capacities ensures k < after.nextCapacity {
      assert k in db.capacities || db.nextCapacity <= k < after.nextCapacity;
    }
  }

  /** delete_capacities removes exactly the capacity rows the owner lists,
      leaves the owner listing none, and changes no other owner or row. */
  lemma DeleteCapacitiesRemovesExactly(db: Db, owner: Owner)
    requires OwnerExists(db, owner)
    ensures var after := DeleteCapacities(db, owner);
            var ids := OwnedCapacities(db, owner);
            && (forall c :: c in after.capacities <==> c in db.capacities && c !in ids)
            && (forall c :: c in after.capacities ==> after.capacities[c] == db.capacities[c])
            && (match owner
                case RackOwner(k) =>
                  && GetRack(after, k) == Ok(db.racks[k].(capacities := []))
                  && after.racks.Keys == db.racks.Keys
                  && (forall r :: r in db.racks && r != k ==> after.racks[r] == db.racks[r])
                  && after.flavors == db.flavors
                case FlavorOwner(k) =>
                  && GetFlavor(after, k) == Ok(db.flavors[k].(capacities := []))
                  && after.flavors.Keys == db.flavors.Keys
                  && (forall f :: f in db.flavors && f != k ==> after.flavors[f] == db.flavors[f])
                  && after.racks == db.racks)
            && after.nodes == db.nodes && after.resourceClasses == db.resourceClasses
  {
  }

  lemma DeleteCapacitiesPreservesValid(db: Db, owner: Owner)
    requires Valid(db)
    requires OwnerExists(db, owner)
    ensures Valid(DeleteCapacities(db, owner))
  {
    match owner {
      case RackOwner(k) => DeleteRackCapacitiesPreservesValid(db, k);
      case FlavorOwner(k) => DeleteFlavorCapacitiesPreservesValid(db, k);
    }
  }

  lemma DeleteRackCapacitiesPreservesValid(db: Db, k: nat)
    requires Valid(db)
    requires k in db.racks
    ensures Valid(DeleteCapacities(db, RackOwner(k)))
  {
    var after := DeleteCapacities(db, RackOwner(k));
    DeleteRackCapacitiesKeepsOwnedRows(db, k);
    assert after == db.(capacities := after.capacities, racks := db.racks[k := db.racks[k].(capacities := [])]);
    forall r1, r2 | r1 in after.racks && r2 in after.racks && r1 != r2
      ensures Disjoint(after.racks[r1].capacities, after.racks[r2].capacities)
      ensures Disjoint(after.racks[r1].nodes, after.racks[r2].nodes)
    {
      assert Disjoint(db.racks[r1].capacities, db.racks[r2].capacities);
    }
    forall r, f | r in after.racks && f in after.flavors
      ensures Disjoint(after.racks[r].capacities, after.flavors[f].capacities)
    {
      assert Disjoint(db.racks[r].capacities, db.flavors[f].capacities);
    }
  }

  lemma DeleteFlavorCapacitiesPreservesValid(db: Db, k: nat)
    requires Valid(db)
    requires k in db.flavors
    ensures Valid(DeleteCapacities(db, FlavorOwner(k)))
  {
    var after := DeleteCapacities(db, FlavorOwner(k));
    DeleteFlavorCapacitiesKeepsOwnedRows(db, k);
    assert after == db.(capacities := after.capacities, flavors := db.flavors[k := db.flavors[k].(capacities := [])]);
    forall f1, f2 | f1 in after.flavors && f2 in after.flavors && f1 != f2
      ensures Disjoint(after.flavors[f1].capacities, after.flavors[f2].capacities)
    {
      assert Disjoint(db.flavors[f1].capacities, db.flavors[f2].capacities);
    }
    forall r, f | r in after.racks && f in after.flavors
      ensures Disjoint(after.racks[r].capacities, after.flavors[f].capacities)
    {
      assert Disjoint(db.racks[r].capacities, db.flavors[f].capacities);
    }
  }

  lemma DeleteRackCapacitiesKeepsOwnedRows(db: Db, k: nat)
    requires OwnedRowsExist(db) && ExclusiveOwnership(db)
    requires k in db.racks
    ensures OwnedRowsExist(DeleteCapacities(db, RackOwner(k)))
  {
    var after := DeleteCapacities(db, RackOwner(k));
    forall r | r in after.racks && r != k
      ensures AllIn(after.racks[r].capacities, after.capacities)
    {
      assert Disjoint(db.racks[r].capacities, db.racks[k].capacities);
    }
    forall f | f in after.flavors
      ensures AllIn(after.flavors[f].capacities, after.capacities)
    {
      assert Disjoint(db.racks[k].capacities, db.flavors[f].capacities);
    }
  }

  lemma DeleteFlavorCapacitiesKeepsOwnedRows(db: Db, k: nat)
    requires OwnedRowsExist(db) && ExclusiveOwnership(db)
    requires k in db.flavors
    ensures OwnedRowsExist(DeleteCapacities(db, FlavorOwner(k)))
  {
    var after := DeleteCapacities(db, FlavorOwner(k));
    forall r | r in after.racks
      ensures AllIn(after.racks[r].capacities, after.capacities)
    {
      assert Disjoint(db.racks[r].capacities, db.flavors[k].capacities);
    }
    forall f | f in after.flavors && f != k
      ensures AllIn(after.flavors[f].capacities, after.capacities)
    {
      assert Disjoint(db.flavors[f].capacities, db.flavors[k].capacities);
    }
  }

  /** delete_flavor fails with FlavorNotFound exactly on a missing id. */
  lemma DeleteFlavorFailsOnlyOnMissingFlavor(db: Db, id: nat)
    ensures DeleteFlavor(db, id).Err? <==> id !in db.flavors
    ensures DeleteFlavor(db, id).Err? ==> DeleteFlavor(db, id).error == FlavorNotFound(id)
  {
  }

  /** A successful delete_flavor removes the flavor and all its capacities,
      and keeps every rack, node, resource class and other flavor, and the
      capacities of all of those. */
  lemma DeleteFlavorCascade(db: Db, id: nat, after: Db)
    requires Valid(db)
    requires DeleteFlavor(db, id) == Ok(after)
    ensures id in db.flavors
    ensures GetFlavor(after, id) == Err(FlavorNotFound(id))
    ensures forall c :: c in db.flavors[id].capacities ==> c !in after.capacities
    ensures after.flavors.Keys == db.flavors.Keys - {id}
    ensures forall k :: k in after.flavors ==> after.flavors[k] == db.flavors[k]
    ensures forall k, c :: k in db.flavors && k != id && c in db.flavors[k].capacities ==>
              c in after.capacities && after.capacities[c] == db.capacities[c]
    ensures forall r, c :: r in db.racks && c in db.racks[r].capacities ==>
              c in after.capacities && after.capacities[c] == db.capacities[c]
    ensures after.racks == db.racks && after.nodes == db.nodes && after.resourceClasses == db.resourceClasses
    ensures after.capacities.Keys == db.capacities.Keys - Elements(db.flavors[id].capacities)
    ensures forall c :: c in after.capacities ==> after.capacities[c] == db.capacities[c]
  {
    forall k, c | k in db.flavors && k != id && c in db.flavors[k].capacities
      ensures c in after.capacities && after.capacities[c] == db.capacities[c]
    {
      assert Disjoint(db.flavors[k].capacities, db.flavors[id].capacities);
    }
    forall r, c | r in db.racks && c in db.racks[r].capacities
      ensures c in after.capacities && after.capacities[c] == db.capacities[c]
    {
      assert Disjoint(db.racks[r].capacities, db.flavors[id].capacities);
    }
  }

  lemma DeleteFlavorPreservesValid(db: Db, id: nat, after: Db)
    requires Valid(db)
    requires DeleteFlavor(db, id) == Ok(after)
    ensures Valid(after)
  {
    DeleteFlavorCascade(db, id, after);
    forall r | r in after.racks ensures AllIn(after.racks[r].capacities, after.capacities) {
    }
    forall f | f in after.flavors ensures AllIn(after.flavors[f].capacities, after.capacities) {
    }
  }

  // ---------------------------------------------------------------------
  // Worked examples on a fresh database

  /** A flavor with one capacity, created in an empty database, gets id 1
      and its capacity row keeps the unit. */
  lemma CreateFlavorExample()
    ensures var input := FlavorInput("m1.small", Value([CapacityInput("ram", "2048", Some("MB"))]));
            var r := CreateFlavor(Empty(), input);
            && r.Ok?
            && GetFlavor(r.value, 1) == Ok(Flavor("m1.small", [1]))
            && r.value.capacities == map[1 := Capacity("ram", "2048", Some("MB"))]
  {
    var input := FlavorInput("m1.small", Value([CapacityInput("ram", "2048", Some("MB"))]));
    var after := CreateFlavor(Empty(), input).value;
    assert IdRange(1, 1) == [1];
    NewCapacitiesAttach(map[], 1, input.capacities.value, true);
    assert after.capacities.Keys == {1};
  }

  /** A rack assigned to a resource class still refers to it once the class
      is deleted: get_resource_class fails, get_racks_by_resource_class still
      returns the rack. */
  lemma DanglingReferenceExample()
    ensures var db1 := CreateRack(Empty(), RackInput(0, "rack-1", 2, "10.0.0.0/24", None, Unset, Unset));
            var r := CreateResourceClass(db1, ResourceClassInput("compute", "compute", Value([1])));
            && r.Ok?
            && var db3 := DeleteResourceClass(r.value, 1);
               && GetResourceClass(db3, 1) == Err(ResourceClassNotFound(1))
               && GetRacksByResourceClass(db3, 1).Keys == {1}
  {
    var rack := RackInput(0, "rack-1", 2, "10.0.0.0/24", None, Unset, Unset);
    var db1 := CreateRack(Empty(), rack);
    var input := ResourceClassInput("compute", "compute", Value([1]));
    CreateRackPreservesValid(Empty(), rack);
    assert 1 in db1.racks;
    CreateResourceClassFailsOnMissingRack(db1, input);
    var db2 := CreateResourceClass(db1, input).value;
    CreateResourceClassAssignsRacks(db1, input, db2);
    assert Elements(Items(input.racks)) == {1};
    DeleteResourceClassLeavesDanglingRacks(db2, 1);
  }
}
