/** The `InventoryItem` record and its key. */
module InventoryItems {
  import opened Keys

  /** A stored item. `quantity` is a plain int with no range constraint (zero and
      negative values are storable); `createdOn` is a `DateTime` as its tick count
      (100-nanosecond units since 0001-01-01). */
  datatype Item = Item(name: string, quantity: int, createdOn: int)

  const TicksPerDay: int := 864_000_000_000

  /** Midnight of the given day, counting 0001-01-01 as day 0. */
  function Midnight(day: nat): int {
    day * TicksPerDay
  }

  /** The three example records both controller revisions seed. */
  const Apples: Item := Item("Apples", 3, Midnight(737424))        // 2020-01-01
  const Oranges: Item := Item("Oranges", 7, Midnight(737455))      // 2020-02-01
  const Pomegranates: Item := Item("Pomegranates", 55, Midnight(737464))  // 2020-02-10

  /** `GetKeyName()`: the dictionary key of an item is its name lower-cased. The key has
      the name's length and is in normal form: lowering it again gives the same key. */
  function KeyName(item: Item): (key: string)
    ensures |key| == |item.name|
    ensures ToLower(key) == key
  {
    ToLowerIdempotent(item.name);
    ToLower(item.name)
  }

  /** The key holds no upper-case letter and equals the name up to letter case. */
  lemma KeyNameIsNormalisedName(item: Item)
    ensures forall i :: 0 <= i < |KeyName(item)| ==> !IsUpper(KeyName(item)[i])
    ensures EqualIgnoringCase(KeyName(item), item.name)
  {
    ToLowerHasNoUpper(item.name);
    ToLowerIdempotent(item.name);
    SameKeyIffEqualIgnoringCase(ToLower(item.name), item.name);
  }

  /** Every item of the dictionary is stored under its own key. */
  ghost predicate KeyedByName(inventory: map<string, Item>) {
    forall k :: k in inventory ==> KeyName(inventory[k]) == k
  }

  /** Two items share a slot exactly when their names differ only in letter case. */
  lemma SameSlotIffNamesEqualIgnoringCase(a: Item, b: Item)
    ensures KeyName(a) == KeyName(b) <==> EqualIgnoringCase(a.name, b.name)
  {
    SameKeyIffEqualIgnoringCase(a.name, b.name);
  }

  /** Lower-casing a name gives `key` when they agree character by character. */
  lemma ToLowerGives(name: string, key: string)
    requires |name| == |key|
    requires forall i :: 0 <= i < |name| ==> LowerChar(name[i]) == key[i]
    ensures ToLower(name) == key
  {
  }

  /** The keys of the seeded records are the literal keys "apples", "oranges" and
      "pomegranates". */
  lemma SeedKeys()
    ensures KeyName(Apples) == "apples"
    ensures KeyName(Oranges) == "oranges"
    ensures KeyName(Pomegranates) == "pomegranates"
  {
    ToLowerGives("Apples", "apples");
    ToLowerGives("Oranges", "oranges");
    ToLowerGives("Pomegranates", "pomegranates");
  }
}
