/**
 * The in-memory inventory table behind the logistics endpoints.
 *
 * `inventory.json` groups items by category; on start-up the service
 * flattens it into one table keyed by `part_number`. When two items share a
 * part number, the one met later in iteration order (categories in order,
 * items of a category in order) overwrites the earlier one.
 */
module InventoryTable {

  /** One inventory record: which part, where it is stocked, and how many. */
  datatype Item = Item(part_number: string, location: string, quantity: int)

  /** One category of `inventory.json`: its name and its list of items. */
  datatype Category = Category(name: string, items: seq<Item>)

  /** The flattened table, from part number to inventory record. */
  type Table = map<string, Item>

  /** Every entry sits under the key equal to its own part number. */
  ghost predicate Keyed(db: Table)
  {
    forall k :: k in db ==> db[k].part_number == k
  }

  /** The items of all categories, categories in order, each category's items in order. */
  function AllItems(cats: seq<Category>): seq<Item>
  {
    if cats == [] then [] else AllItems(cats[..|cats| - 1]) + cats[|cats| - 1].items
  }

  /** The table obtained by writing `items` in order, each under its part number. */
  function TableOf(items: seq<Item>): Table
  {
    if items == [] then map[]
    else
      var last := items[|items| - 1];
      TableOf(items[..|items| - 1])[last.part_number := last]
  }

  /** Writing one more item updates the table under that item's part number. */
  lemma TableOfSnoc(s: seq<Item>, x: Item)
    ensures TableOf(s + [x]) == TableOf(s)[x.part_number := x]
  {
  }

  /** Visiting one more category appends its items. */
  lemma AllItemsSnoc(cats: seq<Category>, c: int)
    requires 0 <= c < |cats|
    ensures AllItems(cats[..c + 1]) == AllItems(cats[..c]) + cats[c].items
  {
    assert cats[..c + 1][..c] == cats[..c];
  }

  /** The start-up flattening loop, over the already parsed categories. */
  method LoadInventoryDb(cats: seq<Category>) returns (flat: Table)
    ensures flat == TableOf(AllItems(cats))
    ensures Keyed(flat)
  {
    flat := map[];
    ghost var done: seq<Item> := [];
    var c := 0;
    while c < |cats|
      invariant 0 <= c <= |cats|
      invariant done == AllItems(cats[..c])
      invariant flat == TableOf(done)
    {
      var items := cats[c].items;
      ghost var base := done;
      var j := 0;
      assert items[..0] == [];
      assert done == base + items[..0];
      while j < |items|
        invariant 0 <= j <= |items|
        invariant done == base + items[..j]
        invariant flat == TableOf(done)
      {
        var item := items[j];
        TableOfSnoc(done, item);
        assert items[..j + 1] == items[..j] + [item];
        done := done + [item];
        flat := flat[item.part_number := item];
        j := j + 1;
      }
      assert items[..j] == items;
      AllItemsSnoc(cats, c);
      c := c + 1;
    }
    assert cats[..c] == cats;
    TableIsKeyed(AllItems(cats));
  }

  /** The table holds exactly the part numbers that occur among the items. */
  lemma {:induction false} TableKeys(items: seq<Item>, p: string)
    ensures p in TableOf(items) <==> exists i :: 0 <= i < |items| && items[i].part_number == p
  {
    if items != [] {
      var init := items[..|items| - 1];
      TableKeys(init, p);
      if p in TableOf(init) {
        var i :| 0 <= i < |init| && init[i].part_number == p;
        assert items[i].part_number == p;
      }
      if i :| 0 <= i < |items| && items[i].part_number == p {
        if i < |init| {
          assert init[i].part_number == p;
        }
      }
    }
  }

  /** Flattening files every entry under its own part number. */
  lemma {:induction false} TableIsKeyed(items: seq<Item>)
    ensures Keyed(TableOf(items))
  {
    if items != [] {
      TableIsKeyed(items[..|items| - 1]);
    }
  }

  /** Last writer wins: an item that no later item overwrites is the table's entry for its part number. */
  lemma {:induction false} LastWriterWins(items: seq<Item>, i: int)
    requires 0 <= i < |items|
    requires forall j :: i < j < |items| ==> items[j].part_number != items[i].part_number
    ensures items[i].part_number in TableOf(items)
    ensures TableOf(items)[items[i].part_number] == items[i]
  {
    if i < |items| - 1 {
      var init := items[..|items| - 1];
      assert init[i] == items[i];
      LastWriterWins(init, i);
      assert items[|items| - 1].part_number != items[i].part_number;
    }
  }

  /** Every table entry is one of the items, and no later item carries its part number. */
  lemma {:induction false} EntryIsLastWriter(items: seq<Item>, p: string)
    requires p in TableOf(items)
    ensures exists i :: 0 <= i < |items| && items[i] == TableOf(items)[p]
                        && forall j :: i < j < |items| ==> items[j].part_number != p
  {
    var n := |items|;
    var last := items[n - 1];
    if last.part_number == p {
      assert items[n - 1] == TableOf(items)[p];
    } else {
      var init := items[..n - 1];
      EntryIsLastWriter(init, p);
      var i :| 0 <= i < |init| && init[i] == TableOf(init)[p]
               && forall j :: i < j < |init| ==> init[j].part_number != p;
      assert items[i] == TableOf(items)[p];
      assert forall j :: i < j < n ==> items[j].part_number != p by {
        forall j | i < j < n ensures items[j].part_number != p {
          if j < n - 1 { assert items[j] == init[j]; }
        }
      }
    }
  }

  /** Flattening a concatenation of category lists concatenates their item lists. */
  lemma {:induction false} AllItemsAppend(a: seq<Category>, b: seq<Category>)
    ensures AllItems(a + b) == AllItems(a) + AllItems(b)
  {
    if b != [] {
      var ab := a + b;
      var binit := b[..|b| - 1];
      assert ab[..|ab| - 1] == a + binit;
      assert ab[|ab| - 1] == b[|b| - 1];
      AllItemsAppend(a, binit);
    } else {
      assert a + b == a;
    }
  }

  /**
   * Item `j` of category `c` sits in the flattened order right after the items
   * of all earlier categories.
   */
  lemma ItemPosition(cats: seq<Category>, c: int, j: int)
    requires 0 <= c < |cats| && 0 <= j < |cats[c].items|
    ensures |AllItems(cats[..c])| + j < |AllItems(cats)|
    ensures AllItems(cats)[|AllItems(cats[..c])| + j] == cats[c].items[j]
  {
    assert cats == cats[..c] + ([cats[c]] + cats[c + 1..]);
    AllItemsAppend(cats[..c], [cats[c]] + cats[c + 1..]);
    AllItemsAppend([cats[c]], cats[c + 1..]);
    assert [cats[c]][..0] == [];
    assert AllItems([cats[c]]) == cats[c].items;
  }

  /** Every item of every category ends up in the table under its own part number. */
  lemma EveryItemLoaded(cats: seq<Category>, c: int, j: int)
    requires 0 <= c < |cats| && 0 <= j < |cats[c].items|
    ensures cats[c].items[j].part_number in TableOf(AllItems(cats))
  {
    ItemPosition(cats, c, j);
    var p := cats[c].items[j].part_number;
    var k := |AllItems(cats[..c])| + j;
    assert AllItems(cats)[k].part_number == p;
    TableKeys(AllItems(cats), p);
  }
}
