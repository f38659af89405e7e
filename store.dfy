/** The database as one value: the five tables keyed by id, the next id each
    table hands out, the invariant every committed state keeps, and the
    read-only queries of the backend. */
module Store {
  import opened Records

  datatype Db = Db(
    racks: map<nat, Rack>,
    resourceClasses: map<nat, ResourceClass>,
    flavors: map<nat, Flavor>,
    capacities: map<nat, Capacity>,
    nodes: map<nat, Node>,
    nextRack: nat,
    nextResourceClass: nat,
    nextFlavor: nat,
    nextCapacity: nat,
    nextNode: nat)

  /** A database with no rows; ids start at 1 like an auto-increment key. */
  function Empty(): (db: Db)
    ensures Valid(db)
    ensures db.racks == map[] && db.resourceClasses == map[] && db.flavors == map[]
    ensures db.capacities == map[] && db.nodes == map[]
  {
    Db(map[], map[], map[], map[], map[], 1, 1, 1, 1, 1)
  }

  // ---------------------------------------------------------------------
  // The invariant

  function Elements(s: seq<nat>): (e: set<nat>)
    ensures forall x :: x in e <==> x in s
  {
    set x | x in s
  }

  ghost predicate KeysBelow<T>(m: map<nat, T>, next: nat)
  {
    forall k :: k in m ==> k < next
  }

  ghost predicate AllIn<T>(s: seq<nat>, m: map<nat, T>)
  {
    forall x :: x in s ==> x in m
  }

  ghost predicate Distinct(s: seq<nat>)
  {
    forall i, j :: 0 <= i < j < |s| ==> s[i] != s[j]
  }

  ghost predicate Disjoint(a: seq<nat>, b: seq<nat>)
  {
    forall x :: x in a ==> x !in b
  }

  /** Every id a table has handed out lies below its counter, so the counter
      is never a key already in use; a rack only refers to resource class ids
      that have been handed out. */
  ghost predicate FreshCounters(db: Db)
  {
    && KeysBelow(db.racks, db.nextRack)
    && KeysBelow(db.resourceClasses, db.nextResourceClass)
    && KeysBelow(db.flavors, db.nextFlavor)
    && KeysBelow(db.capacities, db.nextCapacity)
    && KeysBelow(db.nodes, db.nextNode)
    && (forall r :: r in db.racks && db.racks[r].resourceClassId.Some? ==>
          db.racks[r].resourceClassId.value < db.nextResourceClass)
  }

  /** Every child id an owner lists is a row of the child table, once. */
  ghost predicate OwnedRowsExist(db: Db)
  {
    && (forall r :: r in db.racks ==>
          && AllIn(db.racks[r].capacities, db.capacities) && Distinct(db.racks[r].capacities)
          && AllIn(db.racks[r].nodes, db.nodes) && Distinct(db.racks[r].nodes))
    && (forall f :: f in db.flavors ==>
          AllIn(db.flavors[f].capacities, db.capacities) && Distinct(db.flavors[f].capacities))
  }

  /** A capacity belongs to at most one rack or flavor, a node to at most one rack. */
  ghost predicate ExclusiveOwnership(db: Db)
  {
    && (forall r1, r2 :: r1 in db.racks && r2 in db.racks && r1 != r2 ==>
          Disjoint(db.racks[r1].capacities, db.racks[r2].capacities)
          && Disjoint(db.racks[r1].nodes, db.racks[r2].nodes))
    && (forall f1, f2 :: f1 in db.flavors && f2 in db.flavors && f1 != f2 ==>
          Disjoint(db.flavors[f1].capacities, db.flavors[f2].capacities))
    && (forall r, f :: r in db.racks && f in db.flavors ==>
          Disjoint(db.racks[r].capacities, db.flavors[f].capacities))
  }

  ghost predicate Valid(db: Db)
  {
    FreshCounters(db) && OwnedRowsExist(db) && ExclusiveOwnership(db)
  }

  // ---------------------------------------------------------------------
  // Queries

  /** All racks (get_racks); the unused `columns` argument is dropped. */
  function GetRacks(db: Db): map<nat, Rack>
  {
    db.racks
  }

  function GetRack(db: Db, id: nat): (r: Result<Rack>)
    ensures r.Ok? <==> id in GetRacks(db)
    ensures r.Ok? ==> r.value == GetRacks(db)[id]
    ensures r.Err? ==> r.error == RackNotFound(id)
  {
    if id in db.racks then Ok(db.racks[id]) else Err(RackNotFound(id))
  }

  /** The racks whose resource class reference is `rcId`, keyed by rack id. */
  function GetRacksByResourceClass(db: Db, rcId: nat): (rows: map<nat, Rack>)
    ensures forall k :: k in rows <==> k in GetRacks(db) && GetRacks(db)[k].resourceClassId == Some(rcId)
    ensures forall k :: k in rows ==> rows[k] == GetRacks(db)[k]
  {
    map k | k in db.racks && db.racks[k].resourceClassId == Some(rcId) :: db.racks[k]
  }

  function GetResourceClasses(db: Db): map<nat, ResourceClass>
  {
    db.resourceClasses
  }

  function GetResourceClass(db: Db, id: nat): (r: Result<ResourceClass>)
    ensures r.Ok? <==> id in GetResourceClasses(db)
    ensures r.Ok? ==> r.value == GetResourceClasses(db)[id]
    ensures r.Err? ==> r.error == ResourceClassNotFound(id)
  {
    if id in db.resourceClasses then Ok(db.resourceClasses[id]) else Err(ResourceClassNotFound(id))
  }

  function GetFlavors(db: Db): map<nat, Flavor>
  {
    db.flavors
  }

  function GetFlavor(db: Db, id: nat): (r: Result<Flavor>)
    ensures r.Ok? <==> id in GetFlavors(db)
    ensures r.Ok? ==> r.value == GetFlavors(db)[id]
    ensures r.Err? ==> r.error == FlavorNotFound(id)
  {
    if id in db.flavors then Ok(db.flavors[id]) else Err(FlavorNotFound(id))
  }
}
