/**
 * POST /api/check_inventory: classify each requested (part, location) pair
 * against the inventory table.
 *
 * A request item's `part_number` and `location` are read with `dict.get`, so
 * either may be absent (`None`); an absent part number is looked up like any
 * other key and is never found, and an absent location never equals a stocked
 * location.
 */
module CheckInventoryEndpoint {
  import opened Http
  import opened InventoryTable

  /** One entry of the request's `parts` list. */
  datatype PartRequest = PartRequest(part_number: Option<string>, location: Option<string>)

  /** The request body; `parts` is `None` when the key is missing. */
  datatype CheckBody = CheckBody(parts: Option<seq<PartRequest>>)

  /** One entry of `inventory_status` in the reply. */
  datatype Report =
    | UnknownPart(part_number: Option<string>)
    | InStockLocal(part_number: Option<string>, quantity_local: int, location: string)
    | OutOfStockLocal(part_number: Option<string>, required_at: Option<string>)

  const INVALID_REQUEST: string := "Invalid request"

  /** Whether the table knows the requested part. */
  predicate Known(db: Table, req: PartRequest)
  {
    req.part_number.Some? && req.part_number.value in db
  }

  /** The verdict for one requested part. */
  function Classify(db: Table, req: PartRequest): (r: Report)
    ensures r.part_number == req.part_number
    ensures r.UnknownPart? <==> !Known(db, req)
    ensures r.InStockLocal? <==>
              Known(db, req)
              && req.location == Some(db[req.part_number.value].location)
              && db[req.part_number.value].quantity > 0
    ensures r.InStockLocal? ==>
              r.quantity_local == db[req.part_number.value].quantity > 0
              && r.location == db[req.part_number.value].location
              && Some(r.location) == req.location
    ensures r.OutOfStockLocal? ==> Known(db, req) && r.required_at == req.location
  {
    match req.part_number
    case None => UnknownPart(req.part_number)
    case Some(p) =>
      if p !in db then UnknownPart(req.part_number)
      else
        var entry := db[p];
        if Some(entry.location) == req.location && entry.quantity > 0 then
          InStockLocal(req.part_number, entry.quantity, entry.location)
        else
          OutOfStockLocal(req.part_number, req.location)
  }

  /** `reports` answers `reqs` one for one, in request order. */
  ghost predicate ReportsFor(db: Table, reqs: seq<PartRequest>, reports: seq<Report>)
  {
    |reports| == |reqs| && forall i :: 0 <= i < |reqs| ==> reports[i] == Classify(db, reqs[i])
  }

  /** The endpoint: 400 without a body or a `parts` key, otherwise 200 and one report per requested part. */
  method CheckInventory(db: Table, body: Option<CheckBody>) returns (reply: Reply<seq<Report>>)
    ensures reply.status == BAD_REQUEST <==> body.None? || body.value.parts.None?
    ensures reply.status == BAD_REQUEST ==> reply.payload == Error(INVALID_REQUEST)
    ensures reply.status != BAD_REQUEST ==>
              reply.status == OK && reply.payload.Json?
              && ReportsFor(db, body.value.parts.value, reply.payload.value)
  {
    if body.None? || body.value.parts.None? {
      return Reply(BAD_REQUEST, Error(INVALID_REQUEST));
    }
    var requested := body.value.parts.value;
    var statusReport: seq<Report> := [];
    for i := 0 to |requested|
      invariant |statusReport| == i
      invariant forall j :: 0 <= j < i ==> statusReport[j] == Classify(db, requested[j])
    {
      var req := requested[i];
      var entry := if req.part_number.Some? && req.part_number.value in db
                   then Some(db[req.part_number.value]) else None;
      if entry.None? {
        statusReport := statusReport + [UnknownPart(req.part_number)];
        continue;
      }
      if Some(entry.value.location) == req.location && entry.value.quantity > 0 {
        statusReport := statusReport + [InStockLocal(req.part_number, entry.value.quantity, entry.value.location)];
      } else {
        statusReport := statusReport + [OutOfStockLocal(req.part_number, req.location)];
      }
    }
    reply := Reply(OK, Json(statusReport));
  }
}
