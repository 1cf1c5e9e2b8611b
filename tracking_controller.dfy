/** The controller revision with activity tracking: an inventory dictionary and an
    activity-counter dictionary, both keyed by the lower-cased item name and kept in
    lock-step. Reads are pure queries over a snapshot (`Registry`); writes change the two
    dictionaries of the `InventoryController` object in place. */
module TrackingController {
  import opened Keys
  import opened InventoryItems
  import opened Activities
  import opened Responses
  import opened Queries

  /** A snapshot of the two dictionaries. */
  datatype Registry = Registry(inventory: map<string, Item>, counters: map<string, Activity>) {

    /** Both dictionaries have the same keys, every item is stored under its own key,
        and every counter names the key it is stored under. */
    ghost predicate Valid() {
      && inventory.Keys == counters.Keys
      && KeyedByName(inventory)
      && (forall k :: k in counters ==> counters[k].itemName == k)
    }

    /** The body of `Put` and of each step of `Post`: replace the item and bump its
        counter when the key exists, otherwise add the item with a counter of 1. */
    function Upsert(item: Item): (r: Registry)
      requires Valid()
      ensures r.Valid()
      ensures r.inventory.Keys == inventory.Keys + {KeyName(item)}
    {
      var key := KeyName(item);
      if key in inventory then
        Registry(inventory[key := item], counters[key := Bumped(counters[key])])
      else
        Registry(inventory[key := item], counters[key := Started(key)])
    }

    /** `Post`'s loop: the items upserted one after the other, in order. */
    function UpsertAll(items: seq<Item>): (r: Registry)
      requires Valid()
      ensures r.Valid()
      decreases |items|
    {
      if items == [] then this
      else UpsertAll(items[..|items| - 1]).Upsert(items[|items| - 1])
    }

    /** `Delete`'s removal of a key from both dictionaries. */
    function Remove(key: string): (r: Registry)
      requires Valid()
      ensures r.Valid()
      ensures r.inventory.Keys == inventory.Keys - {key}
    {
      Registry(inventory - {key}, counters - {key})
    }

    /** `Get`: a blank name with `ByName` is a bad request; otherwise the query the
        option selects. Every exception a query raises becomes a server error. */
    function Get(name: string, options: QueryOptions): (r: Response)
      requires Valid()
      ensures r == BadRequest <==> options == ByName && IsNullOrWhiteSpace(name)
      ensures options == None ==> r == OkItems(inventory.Values)
      ensures options.IsExtremal() ==> r == ExtremalQuery(inventory, options)
      ensures options == ByName && !IsNullOrWhiteSpace(name) ==> r == ByNameQuery(inventory, name)
      ensures options == MostActivity ==> r == MostActive(inventory, counters)
      ensures options == MostActivity ==> (r == ServerError <==> inventory == map[])
      ensures r.OkItems? ==> r.items <= inventory.Values
    {
      if options == ByName && IsNullOrWhiteSpace(name) then BadRequest
      else
        match options
        case HighestQuantity | LowestQuantity | OldestItem | NewestItem => ExtremalQuery(inventory, options)
        case ByName => ByNameQuery(inventory, name)
        case MostActivity => MostActive(inventory, counters)
        case None => OkItems(inventory.Values)
    }
  }

  /** The `MostActivity` query: the highest count over all counters (LINQ `Max`, which
      throws when there are none), then the inventory items whose counter has that count,
      joined on the counter's item name. */
  function MostActive(inventory: map<string, Item>, counters: map<string, Activity>): (r: Response)
    ensures counters == map[] <==> r == ServerError
    ensures r != ServerError ==> r.OkItems? && r.items <= inventory.Values
  {
    if counters == map[] then ServerError
    else
      EmptyOrHasKey(counters);
      var k0 :| k0 in counters;
      assert counters[k0].count in Counts(counters);
      var top := Max(Counts(counters));
      OkItems(set a | a in counters.Values && a.count == top && a.itemName in inventory
                    :: inventory[a.itemName])
  }

  /** The counts of all counters. */
  function Counts(counters: map<string, Activity>): set<int> {
    set k | k in counters :: counters[k].count as int
  }

  /** The two dictionaries after the static constructor: the three example records, each
      with a counter of 1. */
  function Seeded(): (r: Registry)
    ensures r.Valid()
  {
    SeedKeys();
    var a, o, p := KeyName(Apples), KeyName(Oranges), KeyName(Pomegranates);
    Registry(map[a := Apples, o := Oranges, p := Pomegranates],
             map[a := Started(a), o := Started(o), p := Started(p)])
  }

  /** After seeding both dictionaries hold exactly the keys "apples", "oranges" and
      "pomegranates", with the example records and every count 1. */
  lemma SeededContents()
    ensures Seeded().inventory.Keys == {"apples", "oranges", "pomegranates"}
    ensures Seeded().counters.Keys == {"apples", "oranges", "pomegranates"}
    ensures Seeded().inventory["apples"] == Apples
    ensures Seeded().inventory["oranges"] == Oranges
    ensures Seeded().inventory["pomegranates"] == Pomegranates
    ensures forall k :: k in Seeded().counters ==> Seeded().counters[k].count == 1
  {
    SeedKeys();
  }

  /** Upserting an item whose key exists replaces the item, bumps that key's count by
      one (modulo 65536) and changes no other key. */
  lemma UpsertExisting(s: Registry, item: Item)
    requires s.Valid() && KeyName(item) in s.inventory
    ensures s.Upsert(item).inventory[KeyName(item)] == item
    ensures s.Upsert(item).counters[KeyName(item)].count
         == (s.counters[KeyName(item)].count + 1) % UShortModulus
    ensures s.Upsert(item).inventory.Keys == s.inventory.Keys
    ensures forall k :: k in s.inventory && k != KeyName(item) ==>
      s.Upsert(item).inventory[k] == s.inventory[k] && s.Upsert(item).counters[k] == s.counters[k]
  {
  }

  /** Upserting an item with a new key adds it with a count of 1 and changes no other key. */
  lemma UpsertNew(s: Registry, item: Item)
    requires s.Valid() && KeyName(item) !in s.inventory
    ensures s.Upsert(item).inventory[KeyName(item)] == item
    ensures s.Upsert(item).counters[KeyName(item)].count == 1
    ensures forall k :: k in s.inventory ==>
      s.Upsert(item).inventory[k] == s.inventory[k] && s.Upsert(item).counters[k] == s.counters[k]
  {
  }

  /** How many items of a batch have the given key. */
  function Occurrences(items: seq<Item>, key: string): nat
    decreases |items|
  {
    if items == [] then 0
    else Occurrences(items[..|items| - 1], key) + (if KeyName(items[|items| - 1]) == key then 1 else 0)
  }

  /** The last item of a batch that has the given key. */
  function LastFor(items: seq<Item>, key: string): (item: Item)
    requires Occurrences(items, key) > 0
    ensures KeyName(item) == key && item in items
    decreases |items|
  {
    if KeyName(items[|items| - 1]) == key then items[|items| - 1]
    else LastFor(items[..|items| - 1], key)
  }

  /** `LastFor` is the last occurrence: it sits at some position of the batch, and no
      item after that position has the key. */
  lemma {:induction false} LastForIsLast(items: seq<Item>, key: string)
    requires Occurrences(items, key) > 0
    ensures exists i :: 0 <= i < |items| && items[i] == LastFor(items, key)
                        && forall j :: i < j < |items| ==> KeyName(items[j]) != key
    decreases |items|
  {
    var n := |items| - 1;
    if KeyName(items[n]) == key {
      assert items[n] == LastFor(items, key);
    } else {
      var prefix := items[..n];
      LastForIsLast(prefix, key);
      var i :| 0 <= i < |prefix| && prefix[i] == LastFor(prefix, key)
               && forall j :: i < j < |prefix| ==> KeyName(prefix[j]) != key;
      forall j | i < j < |items| ensures KeyName(items[j]) != key {
        if j < n { assert items[j] == prefix[j]; }
      }
      assert items[i] == LastFor(items, key);
    }
  }

  /** What one key holds: nothing, or an item with its count. */
  datatype Slot = Vacant | Held(item: Item, count: int)

  function SlotOf(s: Registry, key: string): Slot {
    if key in s.inventory && key in s.counters then Held(s.inventory[key], s.counters[key].count)
    else Vacant
  }

  /** The count a key has: its counter, or 0 when it holds nothing. */
  function CountOf(slot: Slot): int {
    if slot.Held? then slot.count else 0
  }

  lemma WrapStep(a: int)
    ensures ((a % UShortModulus) + 1) % UShortModulus == (a + 1) % UShortModulus
  {
  }

  /** One write seen from one key: the written item with one more count when the item
      has that key, the slot unchanged otherwise. */
  function Step(slot: Slot, item: Item, key: string): Slot {
    if KeyName(item) == key then Held(item, (CountOf(slot) + 1) % UShortModulus) else slot
  }

  /** One upsert, seen from one key, is one `Step`: the item's own key ends with the item
      and one more count than before (modulo 65536; a new key starts at 1); every other
      key keeps what it held. */
  lemma UpsertSlot(s: Registry, item: Item, key: string)
    requires s.Valid()
    ensures SlotOf(s.Upsert(item), key) == Step(SlotOf(s, key), item, key)
  {
  }

  /** A batch seen from one key: the writes folded over the slot, in order. */
  function StepAll(slot: Slot, items: seq<Item>, key: string): Slot
    decreases |items|
  {
    if items == [] then slot
    else Step(StepAll(slot, items[..|items| - 1], key), items[|items| - 1], key)
  }

  /** Upserting a batch, seen from one key, is the per-key fold of its writes. */
  lemma {:induction false} UpsertAllSlot(s: Registry, items: seq<Item>, key: string)
    requires s.Valid()
    ensures SlotOf(s.UpsertAll(items), key) == StepAll(SlotOf(s, key), items, key)
    decreases |items|
  {
    if items != [] {
      var prefix, last := items[..|items| - 1], items[|items| - 1];
      assert s.UpsertAll(items) == s.UpsertAll(prefix).Upsert(last);
      UpsertAllSlot(s, prefix, key);
      UpsertSlot(s.UpsertAll(prefix), last, key);
    }
  }

  /** What a batch leaves in one key's slot, in closed form: the slot untouched when the
      batch never names the key, otherwise the last item naming it and n more counts,
      modulo 65536. */
  function AfterBatch(slot: Slot, items: seq<Item>, key: string): Slot {
    if Occurrences(items, key) == 0 then slot
    else Held(LastFor(items, key), (CountOf(slot) + Occurrences(items, key)) % UShortModulus)
  }

  /** The per-key fold equals its closed form. */
  lemma {:induction false} StepAllClosedForm(slot: Slot, items: seq<Item>, key: string)
    ensures StepAll(slot, items, key) == AfterBatch(slot, items, key)
    decreases |items|
  {
    if items != [] {
      var prefix, last := items[..|items| - 1], items[|items| - 1];
      StepAllClosedForm(slot, prefix, key);
      var n := Occurrences(prefix, key);
      if KeyName(last) == key && n > 0 {
        WrapStep(CountOf(slot) + n);
      }
    }
  }

  /** The effect of a batch on one key: a key the batch does not name keeps what it held;
      a key it names n times ends with the last such item and a count of n more than
      before (counting from 0 for a new key), modulo 65536. */
  lemma {:induction false} UpsertAllEffect(s: Registry, items: seq<Item>, key: string)
    requires s.Valid()
    ensures SlotOf(s.UpsertAll(items), key) == AfterBatch(SlotOf(s, key), items, key)
  {
    UpsertAllSlot(s, items, key);
    StepAllClosedForm(SlotOf(s, key), items, key);
  }

  /** Deleting a key removes it from both dictionaries and changes no other key. */
  lemma RemoveEffect(s: Registry, key: string)
    requires s.Valid()
    ensures key !in s.Remove(key).inventory && key !in s.Remove(key).counters
    ensures forall k :: k in s.inventory && k != key ==>
      s.Remove(key).inventory[k] == s.inventory[k] && s.Remove(key).counters[k] == s.counters[k]
  {
  }

  /** `MostActivity` returns exactly the items whose count is the highest of all counts,
      ties included. */
  lemma MostActiveIsArgmaxSet(s: Registry)
    requires s.Valid() && s.inventory != map[]
    ensures MostActive(s.inventory, s.counters).OkItems?
    ensures forall it :: it in MostActive(s.inventory, s.counters).items <==>
      exists k :: k in s.inventory && s.inventory[k] == it
        && forall k' :: k' in s.counters ==> s.counters[k'].count <= s.counters[k].count
  {
    var r := MostActive(s.inventory, s.counters);
    EmptyOrHasKey(s.counters);
    var k0 :| k0 in s.counters;
    assert s.counters[k0].count in Counts(s.counters);
    var top := Max(Counts(s.counters));
    assert r.items == set a | a in s.counters.Values && a.count == top && a.itemName in s.inventory
                             :: s.inventory[a.itemName];
    forall it | it in r.items
      ensures exists k :: (k in s.inventory && s.inventory[k] == it
        && forall k' :: k' in s.counters ==> s.counters[k'].count <= s.counters[k].count)
    {
      var a :| a in s.counters.Values && a.count == top && a.itemName in s.inventory
               && it == s.inventory[a.itemName];
      var ka :| ka in s.counters && s.counters[ka] == a;
      forall k' | k' in s.counters ensures s.counters[k'].count <= s.counters[ka].count {
        assert s.counters[k'].count in Counts(s.counters);
      }
    }
    forall it | exists k :: (k in s.inventory && s.inventory[k] == it
        && forall k' :: k' in s.counters ==> s.counters[k'].count <= s.counters[k].count)
      ensures it in r.items
    {
      var k :| k in s.inventory && s.inventory[k] == it
        && forall k' :: k' in s.counters ==> s.counters[k'].count <= s.counters[k].count;
      var kt :| kt in s.counters && s.counters[kt].count == top;
      assert s.counters[k].count in Counts(s.counters);
      assert s.counters[kt].count <= s.counters[k].count;
      assert s.counters[k] in s.counters.Values;
    }
  }

  /** On the seeded registry, listing everything gives the three records and a lookup by
      "aPpLeS" finds Apples, as the unit tests assert. */
  lemma SeedLookups()
    ensures Seeded().Get("", None) == OkItems({Apples, Oranges, Pomegranates})
    ensures GetByName(Seeded().inventory, "aPpLeS") == OkItem(Apples)
  {
    SeededContents();
    var s := Seeded();
    assert s.inventory.Values == {Apples, Oranges, Pomegranates} by {
      assert s.inventory["apples"] == Apples;
      assert s.inventory["oranges"] == Oranges;
      assert s.inventory["pomegranates"] == Pomegranates;
    }
    ToLowerGives("aPpLeS", "apples");
    assert !IsNullOrWhiteSpace("aPpLeS") by { assert !IsWhiteSpace("aPpLeS"[0]); }
  }

  /** A scenario: on the seeded registry a lookup by "dummy", a name never stored, is not
      found. */
  lemma SeedUnknownName()
    ensures GetByName(Seeded().inventory, "dummy") == NotFound
  {
    SeededContents();
    ToLowerGives("dummy", "dummy");
    assert !IsNullOrWhiteSpace("dummy") by { assert !IsWhiteSpace("dummy"[0]); }
  }

  /** A scenario: writing Mangos twice onto the seeded registry leaves
      it with the second quantity and a count of 2, and makes it the only most active
      item. */
  lemma MangosScenario(m1: Item, m2: Item)
    requires m1.name == "Mangos" && m2.name == "Mangos"
    ensures var s := Seeded().Upsert(m1).Upsert(m2);
      && GetByName(s.inventory, "mangos") == OkItem(m2)
      && "mangos" in s.counters && s.counters["mangos"].count == 2
      && s.Get("", MostActivity) == OkItems({m2})
  {
    var s0 := Seeded();
    SeededContents();
    ToLowerGives("Mangos", "mangos");
    assert KeyName(m1) == "mangos" && KeyName(m2) == "mangos";
    assert "mangos" !in s0.inventory;
    var s1 := s0.Upsert(m1);
    UpsertNew(s0, m1);
    var s := s1.Upsert(m2);
    UpsertExisting(s1, m2);
    assert s.counters["mangos"].count == 2;
    assert forall k :: k in s.counters && k != "mangos" ==> s.counters[k].count == 1;
    MangosLookup(s, m2);
    MangosMostActive(s, m2);
  }

  lemma MangosLookup(s: Registry, m2: Item)
    requires s.Valid() && m2.name == "Mangos" && "mangos" in s.inventory && s.inventory["mangos"] == m2
    ensures GetByName(s.inventory, "mangos") == OkItem(m2)
  {
    ToLowerGives("mangos", "mangos");
    assert !IsNullOrWhiteSpace("mangos") by { assert !IsWhiteSpace("mangos"[0]); }
  }

  lemma MangosMostActive(s: Registry, m2: Item)
    requires s.Valid() && "mangos" in s.inventory && s.inventory["mangos"] == m2
    requires s.counters["mangos"].count == 2
    requires forall k :: k in s.counters && k != "mangos" ==> s.counters[k].count == 1
    ensures s.Get("", MostActivity) == OkItems({m2})
  {
    MostActiveIsArgmaxSet(s);
    var r := s.Get("", MostActivity);
    forall it | it in r.items ensures it == m2 {
      var k :| k in s.inventory && s.inventory[k] == it
        && forall k' :: k' in s.counters ==> s.counters[k'].count <= s.counters[k].count;
      assert s.counters["mangos"].count <= s.counters[k].count;
    }
    assert m2 in r.items;
  }

  /** The controller's shared state: the two static dictionaries. */
  class InventoryController {
    var inventory: map<string, Item>
    var activityCounters: map<string, Activity>

    /** The current snapshot the queries run on. */
    function State(): Registry
      reads this
    {
      Registry(inventory, activityCounters)
    }

    ghost predicate Valid()
      reads this
    {
      State().Valid()
    }

    /** The static constructor: seed both dictionaries. */
    constructor ()
      ensures Valid()
      ensures State() == Seeded()
    {
      var seed := Seeded();
      inventory := seed.inventory;
      activityCounters := seed.counters;
    }

    /** Replace-and-bump or add-with-count-1 for one item, on both dictionaries. */
    method UpsertItem(item: Item)
      requires Valid()
      modifies this
      ensures Valid()
      ensures State() == old(State()).Upsert(item)
    {
      var key := KeyName(item);
      if key in inventory {
        inventory := inventory[key := item];
        activityCounters := activityCounters[key := Bumped(activityCounters[key])];
      } else {
        inventory := inventory[key := item];
        activityCounters := activityCounters[key := Started(key)];
      }
    }

    /** `Put`: upsert one item; the result is Accepted with that item. */
    method Put(item: Item) returns (r: Response)
      requires Valid()
      modifies this
      ensures Valid()
      ensures State() == old(State()).Upsert(item)
      ensures r == Accepted(item)
    {
      UpsertItem(item);
      r := Accepted(item);
    }

    /** `Post`: an empty batch is a bad request and changes nothing; otherwise the items
        are upserted in order and the result is Ok. */
    method Post(items: seq<Item>) returns (r: Response)
      requires Valid()
      modifies this
      ensures Valid()
      ensures items == [] ==> r == BadRequest && State() == old(State())
      ensures items != [] ==> r == Ok && State() == old(State()).UpsertAll(items)
    {
      if |items| == 0 {
        return BadRequest;
      }
      for i := 0 to |items|
        invariant Valid()
        invariant State() == old(State()).UpsertAll(items[..i])
      {
        assert items[..i + 1][..i] == items[..i];
        UpsertItem(items[i]);
      }
      assert items[..|items|] == items;
      r := Ok;
    }

    /** `Delete`: a blank name is a bad request; an absent key is not found and changes
        nothing; otherwise the key leaves both dictionaries and the result is NoContent,
        after which a lookup of the name is not found. */
    method Delete(name: string) returns (r: Response)
      requires Valid()
      modifies this
      ensures Valid()
      ensures IsNullOrWhiteSpace(name) ==> r == BadRequest && State() == old(State())
      ensures !IsNullOrWhiteSpace(name) && ToLower(name) !in old(inventory) ==>
        r == NotFound && State() == old(State())
      ensures !IsNullOrWhiteSpace(name) && ToLower(name) in old(inventory) ==>
        r == NoContent && State() == old(State()).Remove(ToLower(name))
      ensures r == NoContent ==> GetByName(inventory, name) == NotFound
    {
      if IsNullOrWhiteSpace(name) {
        return BadRequest;
      }
      var key := ToLower(name);
      if key !in inventory {
        return NotFound;
      }
      inventory := inventory - {key};
      activityCounters := activityCounters - {key};
      r := NoContent;
    }
  }
}
