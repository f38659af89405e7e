/** The entities Tuskar stores, the objects its API layer hands to the
    storage backend, and the errors the backend raises. */
module Records {

  datatype Option<T> = None | Some(value: T)

  /** A collection field of an API object: wsme's `Unset` marker (the field
      was omitted) or an explicit value, which may be empty. */
  datatype Field<T> = Unset | Value(value: T)

  /** The not-found errors of the backend, each carrying the id looked up.
      UnsetNotIterable stands for the TypeError Python raises when a loop
      runs over the `Unset` marker. */
  datatype Error =
    | RackNotFound(rack: nat)
    | ResourceClassNotFound(resourceClass: nat)
    | FlavorNotFound(flavor: nat)
    | UnsetNotIterable

  datatype Result<T> = Ok(value: T) | Err(error: Error)

  /** A stored row together with its primary key, as the backend returns it. */
  datatype Row<T> = Row(id: nat, data: T)

  // ---------------------------------------------------------------------
  // Stored rows. Ids of child rows are keys of the capacities / nodes tables.

  datatype Capacity = Capacity(name: string, value: string, unit: Option<string>)

  datatype Node = Node(nodeId: string)

  datatype Rack = Rack(
    name: string,
    slots: int,
    subnet: string,
    chassisId: Option<nat>,
    resourceClassId: Option<nat>,
    capacities: seq<nat>,
    nodes: seq<nat>)

  datatype ResourceClass = ResourceClass(name: string, serviceType: string)

  datatype Flavor = Flavor(name: string, capacities: seq<nat>)

  /** A row that owns capacities: a rack or a flavor, by id. */
  datatype Owner = RackOwner(rack: nat) | FlavorOwner(flavor: nat)

  // ---------------------------------------------------------------------
  // Objects received from the API layer.

  datatype CapacityInput = CapacityInput(name: string, value: string, unit: Option<string>)

  /** A node reference; `id` is the external node identifier. */
  datatype NodeInput = NodeInput(id: string)

  /** A rack as the API layer sends it; `chassis` is the id of the chassis
      object when one is given. `id` is only read by update. */
  datatype RackInput = RackInput(
    id: nat,
    name: string,
    slots: int,
    subnet: string,
    chassis: Option<nat>,
    capacities: Field<seq<CapacityInput>>,
    nodes: Field<seq<NodeInput>>)

  /** A resource class; `racks` lists the ids of the racks to assign to it. */
  datatype ResourceClassInput = ResourceClassInput(
    name: string,
    serviceType: string,
    racks: Field<seq<nat>>)

  datatype FlavorInput = FlavorInput(name: string, capacities: Field<seq<CapacityInput>>)

  // ---------------------------------------------------------------------
  // Python truthiness of the input fields.

  predicate TruthyString(s: string) { s != "" }

  predicate TruthyInt(n: int) { n != 0 }

  /** A collection field is truthy when it is given and not empty. */
  predicate TruthyField<T>(f: Field<seq<T>>) { f.Value? && f.value != [] }

  /** The elements a `if field: for x in field` loop visits. */
  function Items<T>(f: Field<seq<T>>): (xs: seq<T>)
    ensures xs != [] <==> TruthyField(f)
    ensures f.Value? ==> xs == f.value
  {
    match f
    case Unset => []
    case Value(s) => s
  }
}
