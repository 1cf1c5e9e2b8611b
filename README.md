# Inventory registry

A model of the `InventoryController` of the HealthEdge API. The controller is an in-memory
inventory keyed by the lower-cased item name, and it exists in two revisions:

- `TrackingController` models `HealthEdgeApi/InventoryController.cs`. This revision keeps two
  static dictionaries, the items and a per-key `Activity` counter, and always updates them
  together:
  - `Put` upserts one item.
  - `Post` upserts a batch in order.
  - `Delete` removes a key from both dictionaries.
  - `Get` answers seven query options, one of them "most activity".
- `PlainController` models the earlier revision `HealthEdgeApi/Controllers/InventoryController.cs`.
  It has one dictionary:
  - `Post` creates an item and answers Conflict when the key exists.
  - `Put` upserts an item.
  - The "most activity" query returns null.

Shared modules:

- `Keys`: key normalisation (`ToLower`) and the blank-name test (`IsNullOrWhiteSpace`).
- `InventoryItems`: the `InventoryItem` record, its key `GetKeyName()` and the three seeded records.
- `Activities`: the `Activity` record, whose `ushort` counter wraps modulo 65536.
- `Responses`: the action results, in place of `IActionResult`.
- `Queries`: the read-only query branches that are the same in both revisions.

In both revisions the dictionaries are fields of an `InventoryController` class. Its methods change
them in place and are proved against pure functions on snapshots: `Registry.Upsert`,
`Registry.UpsertAll`, `Registry.Remove` and `PlainController.Upserted`. The queries are pure
functions over a snapshot. Each exception the source catches becomes `ServerError`:

- LINQ `Max`/`Min` over an empty sequence;
- the dictionary indexer on an absent key.

`CreatedOn` is a `DateTime` tick count. `Count` is a `ushort` that `Count++` wraps.

## Model

| member | source | states |
|---|---|---|
| Keys.ToLowerIdempotent | HealthEdgeApi/Model/InventoryItem.cs:17 | lowering a key again leaves it unchanged |
| Keys.ToLowerHasNoUpper | HealthEdgeApi/Model/InventoryItem.cs:17 | a lowered name contains no upper-case letter |
| Keys.SameKeyIffEqualIgnoringCase | HealthEdgeApi/Model/InventoryItem.cs:17 | two names give the same key if and only if they differ only in letter case (stated without `ToLower`) |
| InventoryItems.KeyName | HealthEdgeApi/Model/InventoryItem.cs:17 | `GetKeyName()`: the key has the name's length and is in normal form (lowering it again gives the same key) |
| InventoryItems.KeyNameIsNormalisedName | HealthEdgeApi/Model/InventoryItem.cs:17 | an item's key has no upper-case letter and equals the name up to letter case |
| InventoryItems.SameSlotIffNamesEqualIgnoringCase | HealthEdgeApi/Model/InventoryItem.cs:17 | two items share a dictionary slot exactly when their names differ only in letter case |
| InventoryItems.SeedKeys | HealthEdgeApi/InventoryController.cs:28-53 | the keys of the seeded Apples, Oranges and Pomegranates records are "apples", "oranges" and "pomegranates" |
| Activities.Bumped | HealthEdgeApi/Model/Activity.cs:10 | `Count++` on a `ushort` keeps the item name and adds one modulo 65536 |
| Queries.Max | HealthEdgeApi/InventoryController.cs:93 | the maximum of a non-empty set is an element that bounds every element |
| Queries.Min | HealthEdgeApi/InventoryController.cs:94 | the minimum of a non-empty set is an element below every element |
| Queries.HasMaximum | HealthEdgeApi/InventoryController.cs:93 | every non-empty finite set of integers has a greatest element |
| Queries.HasMinimum | HealthEdgeApi/InventoryController.cs:94 | every non-empty finite set of integers has a least element |
| Queries.Extremal | HealthEdgeApi/InventoryController.cs:86-110 | an extremal query is a server error exactly on an empty inventory (Max/Min throws); otherwise it is a non-empty subset of the stored items |
| Queries.ExtremalIsArgmaxSet | HealthEdgeApi/InventoryController.cs:86-110 | on a non-empty inventory the result is exactly the stored items ranking at least as high as every item, ties included |
| Queries.ExtremalQuery | HealthEdgeApi/Controllers/InventoryController.cs:69-93 | the four extremal options fail exactly on an empty inventory and otherwise return stored items |
| Queries.HighestQuantityIsArgmax | HealthEdgeApi/InventoryController.cs:92-97 | HighestQuantity returns exactly the items whose quantity no stored item exceeds |
| Queries.LowestQuantityIsArgmin | HealthEdgeApi/InventoryController.cs:92-97 | LowestQuantity returns exactly the items whose quantity no stored item undercuts |
| Queries.NewestItemIsArgmax | HealthEdgeApi/InventoryController.cs:105-110 | NewestItem returns exactly the items with the latest CreatedOn |
| Queries.OldestItemIsArgmin | HealthEdgeApi/InventoryController.cs:105-110 | OldestItem returns exactly the items with the earliest CreatedOn |
| Queries.ByNameQuery | HealthEdgeApi/InventoryController.cs:112-114 | ByName is a server error exactly when the lowered name is absent (the indexer throws); otherwise it is the one-item list of that key, and on an inventory keyed by name the item listed has the requested name up to letter case |
| Queries.GetByName | HealthEdgeApi/InventoryController.cs:146-170 | a blank name is a bad request; otherwise not found exactly when the lowered key is absent; an item found is the one stored under that key and has the requested name up to case; no other outcome |
| TrackingController.Registry.Upsert | HealthEdgeApi/InventoryController.cs:232-251 | an upsert keeps both dictionaries on the same keys, each item under its key and each counter naming its key; it adds exactly the item's key |
| TrackingController.Registry.UpsertAll | HealthEdgeApi/InventoryController.cs:185-208 | a batch upsert keeps the two-dictionary invariant |
| TrackingController.Registry.Remove | HealthEdgeApi/InventoryController.cs:283-284 | removal keeps the invariant and takes exactly that key away |
| TrackingController.Registry.Get | HealthEdgeApi/InventoryController.cs:75-138 | bad request if and only if ByName with a blank name; None lists every item; the extremal, ByName and MostActivity options give their queries; MostActivity fails exactly on an empty inventory; every listed item is stored |
| TrackingController.MostActive | HealthEdgeApi/InventoryController.cs:116-126 | MostActivity is a server error exactly when there is no counter (Max throws); otherwise it lists stored items only |
| TrackingController.MostActiveIsArgmaxSet | HealthEdgeApi/InventoryController.cs:116-126 | on a non-empty registry MostActivity returns exactly the items whose count is the highest, ties included |
| TrackingController.Seeded | HealthEdgeApi/InventoryController.cs:21-61 | the seeded registry satisfies the two-dictionary invariant |
| TrackingController.SeededContents | HealthEdgeApi/InventoryController.cs:21-61 | after seeding both dictionaries hold exactly apples, oranges and pomegranates, with the three records and every count 1 |
| TrackingController.UpsertExisting | HealthEdgeApi/InventoryController.cs:232-239 | Put on an existing key stores the new item, raises that count by one modulo 65536 and changes no other key |
| TrackingController.UpsertNew | HealthEdgeApi/InventoryController.cs:240-251 | Put on a new key stores the item with a count of 1 and changes no other key |
| TrackingController.LastFor | HealthEdgeApi/InventoryController.cs:185-191 | the item picked for a key has that key and belongs to the batch |
| TrackingController.LastForIsLast | HealthEdgeApi/InventoryController.cs:185-191 | that item is the last occurrence of the key: it sits at a position of the batch after which no item has the key |
| TrackingController.UpsertSlot | HealthEdgeApi/InventoryController.cs:188-206 | one upsert seen from one key is one `Step`: the item's key gets the item and one more count modulo 65536 (1 for a new key); every other key is unchanged |
| TrackingController.UpsertAllSlot | HealthEdgeApi/InventoryController.cs:185-208 | a batch seen from one key is the in-order fold of its writes to that key |
| TrackingController.StepAllClosedForm | HealthEdgeApi/InventoryController.cs:185-208 | the in-order fold equals `AfterBatch`, the closed form: the key untouched when the batch never names it, otherwise the last item naming it and n more counts modulo 65536 |
| TrackingController.UpsertAllEffect | HealthEdgeApi/InventoryController.cs:185-208 | every key ends as `AfterBatch` says: a key repeated n times in a batch ends with the last such item and a count of old+n (0+n for a new key) modulo 65536; keys not named are unchanged |
| TrackingController.RemoveEffect | HealthEdgeApi/InventoryController.cs:283-284 | Delete removes the key from both dictionaries and keeps every other key |
| TrackingController.SeedLookups | HealtEdge.Api.UnitTests/InventoryControllerUnitTests.cs:23-60 | on the seeded registry, listing gives the three records and "aPpLeS" finds Apples |
| TrackingController.SeedUnknownName | HealthEdgeApi/InventoryController.cs:155-160 | a scenario: on the seeded registry a lookup by a name never stored ("dummy") is not found |
| TrackingController.MangosScenario | HealthEdgeApi/InventoryController.cs:185-207 | a scenario: writing "Mangos" twice onto the seed leaves the second item under "mangos" with count 2, as the sole most active item |
| TrackingController.MangosLookup | HealthEdgeApi/InventoryController.cs:146-162 | a registry holding the Mangos item under "mangos" finds it by "mangos" |
| TrackingController.MangosMostActive | HealthEdgeApi/InventoryController.cs:116-126 | a registry where only "mangos" has count 2 and the rest 1 reports only that item as most active |
| TrackingController.InventoryController.constructor | HealthEdgeApi/InventoryController.cs:21-61 | the static constructor produces the seeded registry |
| TrackingController.InventoryController.UpsertItem | HealthEdgeApi/InventoryController.cs:188-207 | one in-place upsert on both dictionaries equals the snapshot's `Upsert` and keeps the invariant |
| TrackingController.InventoryController.Put | HealthEdgeApi/InventoryController.cs:227-253 | Put upserts in place and answers Accepted with the item |
| TrackingController.InventoryController.Post | HealthEdgeApi/InventoryController.cs:176-209 | an empty batch is a bad request and changes nothing; otherwise the loop applies the items in order (equal to `UpsertAll`) and answers Ok |
| TrackingController.InventoryController.Delete | HealthEdgeApi/InventoryController.cs:267-286 | blank: bad request, unchanged; absent: not found, unchanged; present: removed from both dictionaries, NoContent, and a later GetByName is not found |
| PlainController.Seeded | HealthEdgeApi/Controllers/InventoryController.cs:20-44 | the seed holds exactly apples, oranges and pomegranates with the three records (quantities 3, 7, 55), each under its own key |
| PlainController.Get | HealthEdgeApi/Controllers/InventoryController.cs:58-112 | bad request if and only if ByName with a blank name; null if and only if MostActivity; None lists every item; the extremal and ByName options give their queries; every listed item is stored |
| PlainController.Upserted | HealthEdgeApi/Controllers/InventoryController.cs:186-196 | Put keeps every item under its own key and adds exactly the item's key |
| PlainController.UpsertedStores | HealthEdgeApi/Controllers/InventoryController.cs:186-196 | after Put the item's key holds the item and other keys keep theirs |
| PlainController.UpsertedIdempotent | HealthEdgeApi/Controllers/InventoryController.cs:182-198 | applying the same Put twice gives the same store as applying it once |
| PlainController.SeedLookups | HealtEdge.Api.UnitTests/InventoryControllerUnitTests.cs:23-60 | on the seed, listing gives the three records and "aPpLeS" finds Apples |
| PlainController.InventoryController.constructor | HealthEdgeApi/Controllers/InventoryController.cs:20-45 | the static constructor produces the seeded store |
| PlainController.InventoryController.Post | HealthEdgeApi/Controllers/InventoryController.cs:151-171 | an existing key gives Conflict with the store unchanged; otherwise the item is added under its lowered name and the result is Created |
| PlainController.InventoryController.Put | HealthEdgeApi/Controllers/InventoryController.cs:182-205 | Put changes the store to `Upserted` and answers Accepted with the item |
| PlainController.InventoryController.Delete | HealthEdgeApi/Controllers/InventoryController.cs:212-237 | blank: bad request, unchanged; absent: not found, unchanged; present: removed, NoContent, and a later GetByName is not found |

## Left out

- ASP.NET Core plumbing is not modelled: routing, `[Http*]` and `[ProducesResponseType]` attributes, `[FromBody]` binding and the location URLs of `Accepted`/`Created`. Results are the `Response` datatype.
- `ILogger` calls are side-effect-only logging and are not modelled.
- Concurrency of the static `ConcurrentDictionary` fields is not modelled. Each action is one atomic step on one shared object, so interleavings of the check-then-act sequences are not covered.
- Null arguments are not modelled: a null name, a null `items` array, a null item or a null `Name`. Strings and items are non-null values, so the null branch of `IsNullOrWhiteSpace` and the `NullReferenceException` → 500 paths are absent.
- `string.ToLower` is culture-sensitive Unicode lower-casing; the model lowers ASCII letters only.
- `char.IsWhiteSpace` is modelled only on the ASCII and Latin-1 white-space characters.
- `DateTime.Parse` is not modelled. `CreatedOn` is a tick count, and the seed dates are written as day numbers.
- Dictionary enumeration order and duplicate entries in returned lists are not modelled: query results are sets. `Values` of two keys holding equal items show once.
- `QueryOptions` values outside the seven named ones are not modelled (the `default` branch would list everything).
- TrackingController.InventoryController.Post: no item of the model can throw, so the state left by an exception halfway through a batch is not modelled.
- Model validation of the `[Required]` fields happens in the framework before the action runs, and is not modelled.
- The MostActivity join is modelled as a set comprehension over counters whose item name is a stored key. Under the invariant, every counter's name is a stored key.
