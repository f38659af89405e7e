# Tuskar storage backend, modelled in Dafny

Tuskar's SQLAlchemy backend (`tuskar/db/sqlalchemy/api.py`, class `Connection`)
stores five tables. Racks have a name, slots, a subnet, an optional chassis and
an optional resource class. Each rack owns capacity rows and node rows.
Resource classes have a name and a service type. Each flavor owns capacity
rows. Every write runs in one transaction. A missing row raises `RackNotFound`,
`ResourceClassNotFound` or `FlavorNotFound`, carrying the id looked up, and any
error rolls the transaction back.

The model has four layers:

- `Records` (records.dfy) has the stored rows and the objects the API layer
  passes in. A collection field of those objects is either `Unset` (the field
  was omitted) or a list. Python truthiness is written out: an empty string, 0,
  no chassis, `Unset` and an empty list are all falsy.
- `Store` (store.dfy) has the database as one value `Db`: five maps keyed by
  id, plus one id counter per table. It also defines the invariant `Valid` and
  the lookups (`get_racks`, `get_rack`, `get_racks_by_resource_class`,
  `get_resource_classes`, `get_resource_class`, `get_flavors`, `get_flavor`)
  as functions. `Valid` says three things:
  - every id lies below its table's counter;
  - every child id an owner lists is a row of the child table, listed once;
  - no capacity or node row has two owners.
- `Operations` (operations.dfy) gives each write as a pure transition.
  Success is `Ok` of the committed database, and an error is `Err`.
- `Api.Connection` (connection.dfy) is the backend object. Its fields are the
  tables and counters, and its methods add and delete rows one at a time,
  looping as the source does. Each method is proved to commit exactly its
  `Operations` transition, to leave the database unchanged on error (the
  rollback), and to keep `Valid`.

`Properties` (properties.dfy) proves what the writes promise:

- the truthiness rules of `update_rack`;
- the replace-everything rule for its collections;
- the cascades of `delete_rack` and `delete_flavor`;
- that `create_resource_class` is all-or-nothing;
- the dangling rack references that `delete_resource_class` leaves behind;
- that every write keeps `Valid`.

## Model

| member | source | states |
|---|---|---|
| Store.Valid | tuskar/db/sqlalchemy/api.py:195-207 | the invariant every committed state keeps: ids below their counters, rack resource class references below the class counter, every id an owner's relationship lists is an existing row listed once, and no capacity or node row with two owners |
| Store.GetRacks | tuskar/db/sqlalchemy/api.py:66-71 | all stored racks keyed by id; the other rack lookups are stated against it |
| Store.GetRack | tuskar/db/sqlalchemy/api.py:73-83 | succeeds exactly when the id is a rack, giving that rack; otherwise fails with RackNotFound carrying the id |
| Store.GetRacksByResourceClass | tuskar/db/sqlalchemy/api.py:85-89 | returns exactly the racks whose resource class reference is the given id, as stored |
| Store.GetResourceClasses | tuskar/db/sqlalchemy/api.py:91-93 | all stored resource classes keyed by id |
| Store.GetResourceClass | tuskar/db/sqlalchemy/api.py:95-105 | succeeds exactly when the id is a resource class; otherwise fails with ResourceClassNotFound carrying the id |
| Store.GetFlavors | tuskar/db/sqlalchemy/api.py:242-244 | all stored flavors keyed by id |
| Store.GetFlavor | tuskar/db/sqlalchemy/api.py:246-254 | succeeds exactly when the id is a flavor; otherwise fails with FlavorNotFound carrying the id |
| Records.Items | tuskar/db/sqlalchemy/api.py:195-196 | the elements an `if field: for x in field` loop visits: none unless the field is truthy, else the given list |
| Operations.IdRange | tuskar/db/sqlalchemy/api.py:196-200 | the ids handed to rows added one after another: consecutive from the counter, in order |
| Operations.NewCapacities | tuskar/db/sqlalchemy/api.py:196-199 | the new capacity rows are keyed by exactly the ids handed out for the inputs |
| Operations.NewNodes | tuskar/db/sqlalchemy/api.py:203-206 | the new node rows are keyed by exactly the ids handed out for the inputs |
| Operations.MakeCapacity | tuskar/db/sqlalchemy/api.py:157-160 | a rack capacity row keeps name and value and has no unit; a flavor capacity row also keeps the unit (line 262) |
| Operations.CreateRack | tuskar/db/sqlalchemy/api.py:180-211 | the create_rack transition: exactly one new rack key, the next rack id; resource classes and flavors unchanged |
| Operations.UpdateScalars | tuskar/db/sqlalchemy/api.py:137-147 | only name, slots, subnet and chassis of the rack can change; its resource class and owned lists are kept |
| Operations.UpdateRack | tuskar/db/sqlalchemy/api.py:128-178 | the update_rack transition fails exactly when the rack is missing, with RackNotFound; on success the rack keys, resource classes and flavors are unchanged |
| Operations.DeleteRack | tuskar/db/sqlalchemy/api.py:216-227 | the delete_rack transition fails exactly when the rack is missing, with RackNotFound; on success exactly that rack key goes and resource classes and flavors are unchanged |
| Operations.AssignResourceClass | tuskar/db/sqlalchemy/api.py:114-119 | the rack loop keeps the set of rack ids; a failure names a listed id that has no rack |
| Operations.CreateResourceClass | tuskar/db/sqlalchemy/api.py:107-126 | a failure is RackNotFound for a listed id; on success exactly one new resource class key, rack keys unchanged, and flavors, capacities and nodes untouched |
| Operations.DeleteResourceClass | tuskar/db/sqlalchemy/api.py:229-240 | exactly the given resource class key goes and nothing else changes |
| Operations.CreateFlavor | tuskar/db/sqlalchemy/api.py:256-266 | fails exactly on an Unset capacity list, with UnsetNotIterable; on success exactly one new flavor key, and racks, nodes and resource classes untouched |
| Operations.DeleteCapacities | tuskar/db/sqlalchemy/api.py:276-283 | exactly the capacity rows the owner lists leave the table, the owner then lists none, and nodes and resource classes are untouched |
| Operations.DeleteFlavor | tuskar/db/sqlalchemy/api.py:268-274 | fails exactly when the flavor is missing, with FlavorNotFound; on success exactly that flavor key goes, and racks, nodes and resource classes are untouched |
| Operations.ApplyScalars | tuskar/db/sqlalchemy/api.py:137-149 | the scalar update touches only the updated rack |
| Operations.ReplaceCapacities | tuskar/db/sqlalchemy/api.py:155-162 | only the capacities table, its counter and the rack's capacity list change; Unset changes nothing |
| Operations.ReplaceNodes | tuskar/db/sqlalchemy/api.py:164-171 | only the nodes table, its counter and the rack's node list change; Unset changes nothing |
| Operations.NewCapacitiesStep | tuskar/db/sqlalchemy/api.py:196-199 | one loop iteration adds the row for the next input under the next id |
| Operations.NewNodesStep | tuskar/db/sqlalchemy/api.py:203-206 | one loop iteration adds the node row for the next input under the next id |
| Properties.CreateRackAddsOneRack | tuskar/db/sqlalchemy/api.py:180-193 | create_rack adds exactly one rack under a new id: input name, slots and subnet, the chassis id only when a chassis is given, no resource class; other racks, resource classes and flavors are unchanged |
| Properties.CreateRackAttachesCapacities | tuskar/db/sqlalchemy/api.py:195-200 | each input capacity becomes one new row (name and value, no unit) owned by the rack in input order; a falsy list adds none; existing rows are kept |
| Properties.CreateRackAttachesNodes | tuskar/db/sqlalchemy/api.py:202-207 | each input node becomes one new node row with that node id, owned in input order; a falsy list adds none |
| Properties.CreateRackPreservesValid | tuskar/db/sqlalchemy/api.py:180-211 | create_rack keeps the database invariant |
| Properties.RackWritesFailOnlyOnMissingRack | tuskar/db/sqlalchemy/api.py:128-178 | update_rack and delete_rack (whose lookup is at line 218) fail exactly when the rack is missing, with RackNotFound carrying its id |
| Properties.UpdateRackScalarRules | tuskar/db/sqlalchemy/api.py:137-147 | name, slots, subnet and chassis are each overwritten by a truthy input and kept otherwise; the resource class and all other racks are kept |
| Properties.ReplaceCapacitiesRules | tuskar/db/sqlalchemy/api.py:155-162 | replacing by a list deletes every row the rack owned, gives it one new row per element in order, and keeps every other row |
| Properties.ReplaceNodesRules | tuskar/db/sqlalchemy/api.py:164-171 | the same for node rows |
| Properties.UpdateRackCapacityRules | tuskar/db/sqlalchemy/api.py:155-162 | Unset keeps the rack's capacities; a list (even an empty one) replaces all of them by new rows in order; rows of other racks and of flavors are kept |
| Properties.UpdateRackNodeRules | tuskar/db/sqlalchemy/api.py:164-171 | Unset keeps the rack's nodes; a list replaces all of them; nodes of other racks are kept |
| Properties.UpdateRackPreservesValid | tuskar/db/sqlalchemy/api.py:128-175 | update_rack keeps the database invariant |
| Properties.DeleteRackRemovesOwnedRows | tuskar/db/sqlalchemy/api.py:216-224 | delete_rack removes the rack and every capacity and node it owned; a later get_rack fails |
| Properties.DeleteRackKeepsOthers | tuskar/db/sqlalchemy/api.py:216-224 | every other rack and its rows, the resource classes, the flavors and their capacities are untouched |
| Properties.DeleteRackPreservesValid | tuskar/db/sqlalchemy/api.py:216-227 | delete_rack keeps the database invariant |
| Properties.AssignResourceClassSpec | tuskar/db/sqlalchemy/api.py:114-119 | assigning listed racks succeeds exactly when all exist, fails with RackNotFound for the first missing one in list order, and otherwise changes exactly the listed racks |
| Properties.CreateResourceClassFailsOnMissingRack | tuskar/db/sqlalchemy/api.py:114-122 | create_resource_class fails exactly when a listed rack is missing, naming a listed id that has no rack; nothing persists |
| Properties.CreateResourceClassAssignsRacks | tuskar/db/sqlalchemy/api.py:107-126 | on success one new resource class with the input name and service type, exactly the listed racks refer to it, and get_racks_by_resource_class finds exactly them |
| Properties.CreateResourceClassPreservesValid | tuskar/db/sqlalchemy/api.py:107-126 | create_resource_class keeps the database invariant |
| Properties.DeleteResourceClassLeavesDanglingRacks | tuskar/db/sqlalchemy/api.py:229-240 | only the resource class row goes; racks keep the reference to the deleted id, and get_racks_by_resource_class still returns them |
| Properties.CreateFlavorFailsOnlyOnUnset | tuskar/db/sqlalchemy/api.py:258-261 | create_flavor fails exactly when the capacity list is Unset, which cannot be iterated |
| Properties.CreateFlavorAttachesCapacities | tuskar/db/sqlalchemy/api.py:256-266 | one new flavor with the input name, owning one new capacity row with its unit per input, in order; nothing else changes |
| Properties.CreateFlavorPreservesValid | tuskar/db/sqlalchemy/api.py:256-266 | create_flavor keeps the database invariant |
| Properties.DeleteCapacitiesRemovesExactly | tuskar/db/sqlalchemy/api.py:276-283 | delete_capacities, for a rack or a flavor, removes exactly the capacity rows that owner lists, leaves it listing none, and changes no other owner, row or table |
| Properties.DeleteCapacitiesPreservesValid | tuskar/db/sqlalchemy/api.py:276-283 | delete_capacities keeps the database invariant |
| Properties.DeleteFlavorFailsOnlyOnMissingFlavor | tuskar/db/sqlalchemy/api.py:270 | delete_flavor fails exactly when the flavor is missing, with FlavorNotFound |
| Properties.DeleteFlavorCascade | tuskar/db/sqlalchemy/api.py:268-274 | delete_flavor removes the flavor and all its capacities and keeps every other row |
| Properties.DeleteFlavorPreservesValid | tuskar/db/sqlalchemy/api.py:268-274 | delete_flavor keeps the database invariant |
| Properties.CreateFlavorExample | tuskar/db/sqlalchemy/api.py:256-266 | a flavor with one capacity in an empty database gets id 1 and its capacity row keeps the unit |
| Properties.DanglingReferenceExample | tuskar/db/sqlalchemy/api.py:233-236 | a rack assigned to a deleted resource class is still found by that class's id |
| Api.Connection.constructor | tuskar/db/sqlalchemy/api.py:63-64 | a connection works on the configured database, whatever valid rows it already holds |
| Api.Connection.Rollback | tuskar/db/sqlalchemy/api.py:120-122 | restores the state saved when the transaction began |
| Api.Connection.AddCapacities | tuskar/db/sqlalchemy/api.py:196-199 | the loop adds exactly the new capacity rows under consecutive ids and returns those ids in order |
| Api.Connection.AddNodes | tuskar/db/sqlalchemy/api.py:203-206 | the loop adds exactly the new node rows under consecutive ids and returns those ids in order |
| Api.Connection.DeleteCapacityRows | tuskar/db/sqlalchemy/api.py:222 | the loop removes exactly the listed capacity rows |
| Api.Connection.DeleteNodeRows | tuskar/db/sqlalchemy/api.py:223 | the loop removes exactly the listed node rows |
| Api.Connection.CreateRack | tuskar/db/sqlalchemy/api.py:180-211 | commits Operations.CreateRack, keeps Valid and returns the stored rack with its new id |
| Api.Connection.UpdateRack | tuskar/db/sqlalchemy/api.py:128-178 | on a missing rack, rolls back and returns RackNotFound; otherwise commits Operations.UpdateRack and returns the stored rack; keeps Valid |
| Api.Connection.ReplaceRackCapacities | tuskar/db/sqlalchemy/api.py:155-162 | commits Operations.ReplaceCapacities |
| Api.Connection.ReplaceRackNodes | tuskar/db/sqlalchemy/api.py:164-171 | commits Operations.ReplaceNodes |
| Api.Connection.DeleteRack | tuskar/db/sqlalchemy/api.py:216-227 | on a missing rack, fails before any change; otherwise commits Operations.DeleteRack; keeps Valid |
| Api.Connection.CreateResourceClass | tuskar/db/sqlalchemy/api.py:107-126 | on the first missing listed rack, rolls back and returns its RackNotFound; otherwise commits Operations.CreateResourceClass and returns the new row; keeps Valid |
| Api.Connection.DeleteResourceClass | tuskar/db/sqlalchemy/api.py:229-240 | commits Operations.DeleteResourceClass and keeps Valid |
| Api.Connection.CreateFlavor | tuskar/db/sqlalchemy/api.py:256-266 | an Unset capacity list rolls back and fails; otherwise commits Operations.CreateFlavor and returns the new flavor; keeps Valid |
| Api.Connection.DeleteCapacities | tuskar/db/sqlalchemy/api.py:276-283 | deletes the owner's capacity rows one by one, commits Operations.DeleteCapacities, keeps Valid and reports success |
| Api.Connection.DeleteFlavor | tuskar/db/sqlalchemy/api.py:268-274 | on a missing flavor, fails before any change; otherwise commits Operations.DeleteFlavor and returns true; keeps Valid |

## Left out

- Sessions, engines, `subqueryload`, `refresh` and the exact `commit` semantics
  are not modelled. Each method acts on one database value. Rows written
  inside a transaction are visible to it at once, and rollback restores the
  state saved when the transaction began.
- The `columns` argument of `get_racks`, `get_resource_classes` and
  `get_flavors` is dropped because the source never reads it.
- Concurrency and transaction isolation are not modelled: one caller acts on
  the database at a time.
- The errors modelled are the three not-found errors and `UnsetNotIterable`,
  which stands for the `TypeError` of a loop over the `Unset` marker in
  `create_flavor`. Other storage failures are not modelled: constraint
  violations, lost connections and the like. The model can therefore not
  fail midway through a loop.
- A connection is given the database it works on. `get_session` and the
  configured engine are not modelled. `Store.Empty` is only the starting
  point of the worked examples.
- Api.Connection.DeleteCapacities: the failure branch of `delete_capacities`
  (api.py:280-282) is not modelled, because the model has no storage failure.
  The method always reports success. In the source, that branch's
  `return false` names `false`, which is not defined in Python, so it would
  raise `NameError` rather than return a false value.
- Ids are handed out by one counter per table. A rollback restores the
  counters, so an id handed out inside a failed write is handed out again by
  the next write. A delete never lowers a counter, so the id of a deleted row
  is never reused. `Properties.CreateResourceClassAssignsRacks` relies on
  this: a rack that still refers to a deleted resource class refers to an id
  below the counter (`Store.FreshCounters`), so a new class gets another id.
  A database whose auto-increment hands out max(id)+1 after the highest
  class has been deleted would let the new class inherit those dangling
  racks. The model does not capture that auto-increment behaviour.
- Scalar fields that the API layer leaves `Unset` are modelled as their falsy
  value, "" or 0. Update treats both the same way, because it tests
  truthiness.
- The chassis is modelled by its id only. `None` stands for a chassis field
  that is `None` or `Unset`. A given chassis object is truthy, so its id is
  stored even when that id is 0.
- A resource class lists its racks by id. In the source it lists rack objects
  and reads each one's `get_id()`.
- Query results are maps keyed by id. The order in which the database
  returns rows is not modelled.
- `update_rack` deletes a rack's capacities and nodes and then appends new
  rows to the same relationship list. `delete_capacities` deletes the rows
  of an owner's relationship. The model assumes the deleted rows leave that
  list when the session flushes. After `update_rack` the rack owns only the
  new rows. After `delete_capacities` the owner lists none.
- The API layer, the models' table definitions and the other backends are
  not part of this model.
