/** The earlier controller revision: one inventory dictionary keyed by the lower-cased
    item name, no activity tracking. `Post` creates and refuses an existing key, `Put`
    creates or replaces, and the `MostActivity` query is not implemented. */
module PlainController {
  import opened Keys
  import opened InventoryItems
  import opened Responses
  import opened Queries

  /** The dictionary after the static constructor: the three example records under their
      literal keys. */
  function Seeded(): (inventory: map<string, Item>)
    ensures KeyedByName(inventory)
    ensures inventory.Keys == {"apples", "oranges", "pomegranates"}
    ensures inventory.Values == {Apples, Oranges, Pomegranates}
    ensures inventory["apples"].quantity == 3 && inventory["oranges"].quantity == 7
         && inventory["pomegranates"].quantity == 55
  {
    SeedKeys();
    map["apples" := Apples, "oranges" := Oranges, "pomegranates" := Pomegranates]
  }

  /** `Get`: a blank name with `ByName` is a bad request; `MostActivity` returns null;
      otherwise the query the option selects, exceptions becoming a server error. */
  function Get(inventory: map<string, Item>, name: string, options: QueryOptions): (r: Response)
    ensures r == BadRequest <==> options == ByName && IsNullOrWhiteSpace(name)
    ensures r == NullResult <==> options == MostActivity
    ensures options == None ==> r == OkItems(inventory.Values)
    ensures options.IsExtremal() ==> r == ExtremalQuery(inventory, options)
    ensures options == ByName && !IsNullOrWhiteSpace(name) ==> r == ByNameQuery(inventory, name)
    ensures r.OkItems? ==> r.items <= inventory.Values
  {
    if options == ByName && IsNullOrWhiteSpace(name) then BadRequest
    else
      match options
      case HighestQuantity | LowestQuantity | OldestItem | NewestItem => ExtremalQuery(inventory, options)
      case ByName => ByNameQuery(inventory, name)
      case MostActivity => NullResult
      case None => OkItems(inventory.Values)
  }

  /** `Put`'s effect on the dictionary: the item is stored under its key, whether or not
      the key was present. */
  function Upserted(inventory: map<string, Item>, item: Item): (r: map<string, Item>)
    requires KeyedByName(inventory)
    ensures KeyedByName(r)
    ensures r.Keys == inventory.Keys + {KeyName(item)}
  {
    inventory[KeyName(item) := item]
  }

  /** After `Put(item)` the item is what its key holds and every other key keeps its item. */
  lemma UpsertedStores(inventory: map<string, Item>, item: Item)
    requires KeyedByName(inventory)
    ensures Upserted(inventory, item)[KeyName(item)] == item
    ensures forall k :: k in inventory && k != KeyName(item) ==> Upserted(inventory, item)[k] == inventory[k]
  {
  }

  /** `Put` is idempotent: writing the same item twice leaves what writing it once does. */
  lemma UpsertedIdempotent(inventory: map<string, Item>, item: Item)
    requires KeyedByName(inventory)
    ensures Upserted(Upserted(inventory, item), item) == Upserted(inventory, item)
  {
  }

  /** The seeded dictionary answers the shipped unit tests: listing gives the three
      records, and a lookup by "aPpLeS" finds Apples. */
  lemma SeedLookups()
    ensures Get(Seeded(), "", None) == OkItems({Apples, Oranges, Pomegranates})
    ensures GetByName(Seeded(), "aPpLeS") == OkItem(Apples)
  {
    var s := Seeded();
    assert s.Values == {Apples, Oranges, Pomegranates} by {
      assert s["apples"] == Apples;
      assert s["oranges"] == Oranges;
      assert s["pomegranates"] == Pomegranates;
    }
    ToLowerGives("aPpLeS", "apples");
    assert !IsNullOrWhiteSpace("aPpLeS") by { assert !IsWhiteSpace("aPpLeS"[0]); }
  }

  /** The controller's shared state: the static dictionary. */
  class InventoryController {
    var inventory: map<string, Item>

    ghost predicate Valid()
      reads this
    {
      KeyedByName(inventory)
    }

    /** The static constructor: seed the dictionary. */
    constructor ()
      ensures Valid()
      ensures inventory == Seeded()
    {
      inventory := Seeded();
    }

    /** `Post`: strict create. An existing key is a conflict and changes nothing;
        otherwise the item is added under its key and the result is Created. */
    method Post(item: Item) returns (r: Response)
      requires Valid()
      modifies this
      ensures Valid()
      ensures KeyName(item) in old(inventory) ==> r == Conflict && inventory == old(inventory)
      ensures KeyName(item) !in old(inventory) ==>
        r == Created(item) && inventory == old(inventory)[KeyName(item) := item]
    {
      var key := ToLower(item.name);
      if key in inventory {
        return Conflict;
      }
      inventory := inventory[key := item];
      r := Created(item);
    }

    /** `Put`: create or replace; the result is Accepted with the item. */
    method Put(item: Item) returns (r: Response)
      requires Valid()
      modifies this
      ensures Valid()
      ensures inventory == Upserted(old(inventory), item)
      ensures r == Accepted(item)
    {
      var key := ToLower(item.name);
      if key in inventory {
        inventory := inventory[key := item];
      } else {
        inventory := inventory[key := item];
      }
      r := Accepted(item);
    }

    /** `Delete`: a blank name is a bad request; an absent key is not found and changes
        nothing; a present key is removed and the result is NoContent, after which a
        lookup of the name is not found. */
    method Delete(name: string) returns (r: Response)
      requires Valid()
      modifies this
      ensures Valid()
      ensures IsNullOrWhiteSpace(name) ==> r == BadRequest && inventory == old(inventory)
      ensures !IsNullOrWhiteSpace(name) && ToLower(name) !in old(inventory) ==>
        r == NotFound && inventory == old(inventory)
      ensures !IsNullOrWhiteSpace(name) && ToLower(name) in old(inventory) ==>
        r == NoContent && inventory == old(inventory) - {ToLower(name)}
      ensures r == NoContent ==> GetByName(inventory, name) == NotFound
    {
      if IsNullOrWhiteSpace(name) {
        return BadRequest;
      }
      var key := ToLower(name);
      if key !in inventory {
        return NotFound;
      }
      inventory := inventory - {key};
      r := NoContent;
    }
  }
}
