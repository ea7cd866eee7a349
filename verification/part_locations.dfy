/**
 * GET /api/get_part_locations?part_id=...: every table entry of one part that
 * has stock, as (location, quantity) pairs.
 *
 * The handler walks the table's values; here the walk visits the keys in an
 * unspecified order and looks each value up. Since the loaded table is keyed
 * by part number, at most one entry can match, so the order never shows.
 */
module PartLocations {
  import opened Http
  import opened InventoryTable

  /** One element of the reply's `locations` list. */
  datatype LocationStock = LocationStock(location: string, quantity: int)

  /** The reply body, on 200 and on 404 alike. */
  datatype LocationsBody = LocationsBody(part_number: string, locations: seq<LocationStock>)

  const PART_ID_REQUIRED: string := "part_id is required"

  /** The filter the handler applies to each table entry. */
  predicate Stocks(item: Item, partId: string)
  {
    item.part_number == partId && item.quantity > 0
  }

  function StockOf(item: Item): LocationStock
  {
    LocationStock(item.location, item.quantity)
  }

  /** Every location listed comes from a stocked entry of the part. */
  ghost predicate Sound(db: Table, partId: string, found: seq<LocationStock>)
  {
    forall n :: 0 <= n < |found| ==>
      exists k :: k in db && Stocks(db[k], partId) && found[n] == StockOf(db[k])
  }

  /** Every stocked entry of the part is listed. */
  ghost predicate Complete(db: Table, partId: string, found: seq<LocationStock>)
  {
    forall k :: k in db && Stocks(db[k], partId) ==> StockOf(db[k]) in found
  }

  /** The filtering loop over the table. */
  method FindLocations(db: Table, partId: string) returns (found: seq<LocationStock>)
    ensures Sound(db, partId, found) && Complete(db, partId, found)
    ensures forall n :: 0 <= n < |found| ==> found[n].quantity > 0
    ensures Keyed(db) ==>
              found == if partId in db && db[partId].quantity > 0 then [StockOf(db[partId])] else []
  {
    found := [];
    ghost var src: seq<string> := [];
    var remaining := db.Keys;
    while remaining != {}
      invariant remaining <= db.Keys
      invariant |src| == |found|
      invariant forall n :: 0 <= n < |found| ==>
                  src[n] in db && src[n] !in remaining && Stocks(db[src[n]], partId)
                  && found[n] == StockOf(db[src[n]])
      invariant forall k :: k in db && k !in remaining && Stocks(db[k], partId) ==> StockOf(db[k]) in found
      invariant Keyed(db) ==>
                  found == if partId in db && partId !in remaining && db[partId].quantity > 0
                           then [StockOf(db[partId])] else []
      decreases remaining
    {
      var k :| k in remaining;
      var item := db[k];
      remaining := remaining - {k};
      if Stocks(item, partId) {
        found := found + [StockOf(item)];
        src := src + [k];
      }
    }
    forall n | 0 <= n < |found|
      ensures exists k :: k in db && Stocks(db[k], partId) && found[n] == StockOf(db[k])
    {
      assert src[n] in db && Stocks(db[src[n]], partId) && found[n] == StockOf(db[src[n]]);
    }
  }

  /** The endpoint: 400 without a `part_id`, otherwise the stocked locations, 404 when there are none. */
  method GetPartLocations(db: Table, partId: Option<string>) returns (reply: Reply<LocationsBody>)
    ensures reply.status == BAD_REQUEST <==> partId.None? || partId.value == ""
    ensures reply.status == BAD_REQUEST ==> reply.payload == Error(PART_ID_REQUIRED)
    ensures reply.status != BAD_REQUEST ==>
              && reply.payload.Json?
              && reply.payload.value.part_number == partId.value
              && Sound(db, partId.value, reply.payload.value.locations)
              && Complete(db, partId.value, reply.payload.value.locations)
              && (reply.status == NOT_FOUND <==> reply.payload.value.locations == [])
              && (reply.status == NOT_FOUND || reply.status == OK)
    ensures reply.status != BAD_REQUEST && Keyed(db) ==>
              |reply.payload.value.locations| <= 1
  {
    if partId.None? || partId.value == "" {
      return Reply(BAD_REQUEST, Error(PART_ID_REQUIRED));
    }
    var found := FindLocations(db, partId.value);
    if found == [] {
      return Reply(NOT_FOUND, Json(LocationsBody(partId.value, [])));
    }
    reply := Reply(OK, Json(LocationsBody(partId.value, found)));
  }

  /**
   * On a loaded table, the part is found exactly when its entry is stocked,
   * and then the one location reported is that entry's.
   */
  lemma {:induction false} FoundIffStocked(items: seq<Item>, partId: string, found: seq<LocationStock>)
    requires Sound(TableOf(items), partId, found) && Complete(TableOf(items), partId, found)
    ensures found != [] <==> exists i :: 0 <= i < |items| && items[i].part_number == partId
                                       && (forall j :: i < j < |items| ==> items[j].part_number != partId)
                                       && items[i].quantity > 0
    ensures forall n :: 0 <= n < |found| ==>
              partId in TableOf(items) && found[n] == StockOf(TableOf(items)[partId])
  {
    var db := TableOf(items);
    TableIsKeyed(items);
    forall n | 0 <= n < |found| ensures partId in db && found[n] == StockOf(db[partId]) {
      var fn := found[n];
      assert exists k :: k in db && Stocks(db[k], partId) && fn == StockOf(db[k]);
    }
    if found != [] {
      var f0 := found[0];
      assert exists k :: k in db && Stocks(db[k], partId) && f0 == StockOf(db[k]);
      var k :| k in db && Stocks(db[k], partId) && found[0] == StockOf(db[k]);
      assert k == partId;
      EntryIsLastWriter(items, partId);
    }
    if i :| 0 <= i < |items| && items[i].part_number == partId
            && (forall j :: i < j < |items| ==> items[j].part_number != partId)
            && items[i].quantity > 0 {
      LastWriterWins(items, i);
      assert StockOf(db[partId]) in found;
    }
  }
}
