/** The read-only query branches both controller revisions share: `QueryOptions`,
    the extremal queries (LINQ `Max`/`Min` followed by `Where`) and the `ByName` query. */
module Queries {
  import opened Keys
  import opened InventoryItems
  import opened Responses

  /** `QueryOptions`: which query `Get` runs. */
  datatype QueryOptions =
    | None | HighestQuantity | LowestQuantity | OldestItem | NewestItem | ByName | MostActivity
  {
    /** The four options answered by a maximum or minimum of one field. */
    predicate IsExtremal() {
      HighestQuantity? || LowestQuantity? || OldestItem? || NewestItem?
    }
  }

  /** A set with no element is the empty set. */
  lemma EmptyOrHasElement(s: set<int>)
    ensures s == {} || exists y :: y in s
  {
    if forall y :: y !in s {
      assert s == {};
    }
  }

  /** A map with no key is the empty map. */
  lemma EmptyOrHasKey<V>(m: map<string, V>)
    ensures m == map[] || exists k :: k in m
  {
    if forall k :: k !in m {
      assert m == map[];
    }
  }

  lemma {:induction false} HasMaximum(s: set<int>)
    requires s != {}
    ensures exists m :: m in s && forall x :: x in s ==> x <= m
  {
    EmptyOrHasElement(s);
    var y :| y in s;
    if s != {y} {
      var rest := s - {y};
      HasMaximum(rest);
      var m :| m in rest && forall x :: x in rest ==> x <= m;
      var top := if m < y then y else m;
      forall x | x in s ensures x <= top {
        if x != y { assert x in rest; }
      }
      assert top in s;
    }
  }

  lemma {:induction false} HasMinimum(s: set<int>)
    requires s != {}
    ensures exists m :: m in s && forall x :: x in s ==> m <= x
  {
    EmptyOrHasElement(s);
    var y :| y in s;
    if s != {y} {
      var rest := s - {y};
      HasMinimum(rest);
      var m :| m in rest && forall x :: x in rest ==> m <= x;
      var bottom := if y < m then y else m;
      forall x | x in s ensures bottom <= x {
        if x != y { assert x in rest; }
      }
      assert bottom in s;
    }
  }

  /** LINQ `Max` over a non-empty sequence. */
  function Max(s: set<int>): (m: int)
    requires s != {}
    ensures m in s && forall x :: x in s ==> x <= m
  {
    HasMaximum(s);
    var m :| m in s && forall x :: x in s ==> x <= m;
    m
  }

  /** LINQ `Min` over a non-empty sequence. */
  function Min(s: set<int>): (m: int)
    requires s != {}
    ensures m in s && forall x :: x in s ==> m <= x
  {
    HasMinimum(s);
    var m :| m in s && forall x :: x in s ==> m <= x;
    m
  }

  /** The field an extremal query ranks items by. */
  datatype Field = Quantity | CreatedOn

  function FieldOf(item: Item, f: Field): int {
    match f
    case Quantity => item.quantity
    case CreatedOn => item.createdOn
  }

  /** The values of one field over the whole inventory. */
  function Column(inventory: map<string, Item>, f: Field): set<int> {
    set k | k in inventory :: FieldOf(inventory[k], f)
  }

  /** `a` ranks at least as high as `b` in the query's direction. */
  predicate Ranks(a: Item, b: Item, f: Field, highest: bool) {
    if highest then FieldOf(a, f) >= FieldOf(b, f) else FieldOf(a, f) <= FieldOf(b, f)
  }

  /** An extremal query: the maximum (or minimum) of the field over all items, then every
      item whose field equals it. `Max`/`Min` of an empty sequence throws, and the
      action's catch-all turns that into a server error. */
  function Extremal(inventory: map<string, Item>, f: Field, highest: bool): (r: Response)
    ensures inventory == map[] <==> r == ServerError
    ensures r != ServerError ==> r.OkItems? && r.items != {} && r.items <= inventory.Values
  {
    if inventory == map[] then ServerError
    else
      EmptyOrHasKey(inventory);
      var k0 :| k0 in inventory;
      assert FieldOf(inventory[k0], f) in Column(inventory, f);
      var v := if highest then Max(Column(inventory, f)) else Min(Column(inventory, f));
      var k1 :| k1 in inventory && FieldOf(inventory[k1], f) == v;
      var items := set k | k in inventory && FieldOf(inventory[k], f) == v :: inventory[k];
      assert inventory[k1] in items;
      OkItems(items)
  }

  /** An extremal query on a non-empty inventory returns exactly the items that rank at
      least as high as every item: all tied items and nothing else. */
  lemma ExtremalIsArgmaxSet(inventory: map<string, Item>, f: Field, highest: bool)
    requires inventory != map[]
    ensures Extremal(inventory, f, highest).OkItems?
    ensures forall it :: it in Extremal(inventory, f, highest).items <==>
      it in inventory.Values && forall o :: o in inventory.Values ==> Ranks(it, o, f, highest)
  {
    var r := Extremal(inventory, f, highest);
    var col := Column(inventory, f);
    EmptyOrHasKey(inventory);
    var k0 :| k0 in inventory;
    assert FieldOf(inventory[k0], f) in col;
    var v := if highest then Max(col) else Min(col);
    assert r.items == set k | k in inventory && FieldOf(inventory[k], f) == v :: inventory[k];
    forall it | it in inventory.Values && forall o :: o in inventory.Values ==> Ranks(it, o, f, highest)
      ensures it in r.items
    {
      var k :| k in inventory && inventory[k] == it;
      assert FieldOf(it, f) in col;
      var kv :| kv in inventory && FieldOf(inventory[kv], f) == v;
      assert Ranks(it, inventory[kv], f, highest);
    }
    forall it | it in r.items
      ensures it in inventory.Values && forall o :: o in inventory.Values ==> Ranks(it, o, f, highest)
    {
      var k :| k in inventory && FieldOf(inventory[k], f) == v && inventory[k] == it;
      forall o | o in inventory.Values ensures Ranks(it, o, f, highest) {
        var ko :| ko in inventory && inventory[ko] == o;
        assert FieldOf(o, f) in col;
      }
    }
  }

  /** The four extremal options: quantity or creation time, highest or lowest. */
  function ExtremalQuery(inventory: map<string, Item>, options: QueryOptions): (r: Response)
    requires options.IsExtremal()
    ensures inventory == map[] <==> r == ServerError
    ensures r != ServerError ==> r.OkItems? && r.items != {} && r.items <= inventory.Values
  {
    match options
    case HighestQuantity => Extremal(inventory, Quantity, true)
    case LowestQuantity => Extremal(inventory, Quantity, false)
    case OldestItem => Extremal(inventory, CreatedOn, false)
    case NewestItem => Extremal(inventory, CreatedOn, true)
  }

  /** `HighestQuantity` returns exactly the items tied for the highest quantity. */
  lemma HighestQuantityIsArgmax(inventory: map<string, Item>)
    requires inventory != map[]
    ensures forall it :: it in ExtremalQuery(inventory, HighestQuantity).items <==>
      it in inventory.Values && forall o :: o in inventory.Values ==> o.quantity <= it.quantity
  {
    ExtremalIsArgmaxSet(inventory, Quantity, true);
  }

  /** `LowestQuantity` returns exactly the items tied for the lowest quantity. */
  lemma LowestQuantityIsArgmin(inventory: map<string, Item>)
    requires inventory != map[]
    ensures forall it :: it in ExtremalQuery(inventory, LowestQuantity).items <==>
      it in inventory.Values && forall o :: o in inventory.Values ==> it.quantity <= o.quantity
  {
    ExtremalIsArgmaxSet(inventory, Quantity, false);
  }

  /** `NewestItem` returns exactly the items tied for the latest creation time. */
  lemma NewestItemIsArgmax(inventory: map<string, Item>)
    requires inventory != map[]
    ensures forall it :: it in ExtremalQuery(inventory, NewestItem).items <==>
      it in inventory.Values && forall o :: o in inventory.Values ==> o.createdOn <= it.createdOn
  {
    ExtremalIsArgmaxSet(inventory, CreatedOn, true);
  }

  /** `OldestItem` returns exactly the items tied for the earliest creation time. */
  lemma OldestItemIsArgmin(inventory: map<string, Item>)
    requires inventory != map[]
    ensures forall it :: it in ExtremalQuery(inventory, OldestItem).items <==>
      it in inventory.Values && forall o :: o in inventory.Values ==> it.createdOn <= o.createdOn
  {
    ExtremalIsArgmaxSet(inventory, CreatedOn, false);
  }

  /** The `ByName` query: a one-item list for the lower-cased name; the dictionary
      indexer throws on an absent key, which the catch-all reports as a server error. */
  function ByNameQuery(inventory: map<string, Item>, name: string): (r: Response)
    ensures r == ServerError <==> ToLower(name) !in inventory
    ensures r != ServerError ==> r == OkItems({inventory[ToLower(name)]})
    ensures KeyedByName(inventory) && r.OkItems? ==>
      forall it :: it in r.items ==> EqualIgnoringCase(it.name, name)
  {
    var key := ToLower(name);
    if key in inventory then
      SameSlotIffNamesEqualIgnoringCase(inventory[key], Item(name, 0, 0));
      OkItems({inventory[key]})
    else ServerError
  }

  /** `GetByName`: a blank name is a bad request; otherwise the item stored under the
      lower-cased name, or not found. On an inventory keyed by name, the item found has
      the requested name up to letter case. */
  function GetByName(inventory: map<string, Item>, name: string): (r: Response)
    requires KeyedByName(inventory)
    ensures IsNullOrWhiteSpace(name) ==> r == BadRequest
    ensures !IsNullOrWhiteSpace(name) ==> (r == NotFound <==> ToLower(name) !in inventory)
    ensures r.OkItem? ==> ToLower(name) in inventory && r.item == inventory[ToLower(name)]
    ensures r.OkItem? ==> EqualIgnoringCase(r.item.name, name)
    ensures r.BadRequest? || r.NotFound? || r.OkItem?
  {
    if IsNullOrWhiteSpace(name) then BadRequest
    else
      var key := ToLower(name);
      if key !in inventory then NotFound
      else
        SameSlotIffNamesEqualIgnoringCase(inventory[key], Item(name, 0, 0));
        OkItem(inventory[key])
  }
}
