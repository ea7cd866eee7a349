# Inventory core of the Techgium logistics backend

This project models the in-memory inventory logic behind the backend's two logistics
endpoints. It covers three pieces:

- **Flattening.** At start-up, `inventory.json` (categories, each a list of items) is
  flattened into one table keyed by `part_number`. A later item overwrites an earlier one
  with the same part number (`InventoryTable`).
- **`POST /api/check_inventory`.** Each requested `{part_number, location}` pair is
  classified against the table as `unknown_part`, `in_stock_local` or `out_of_stock_local`
  (`CheckInventoryEndpoint`).
- **`GET /api/get_part_locations`.** The handler collects the stocked table entries of
  one part. It answers 404 with an empty list when there are none (`PartLocations`).

HTTP is reduced to values: a `Reply` carries a status code and a payload, which is either
the `{"error": ...}` object or the endpoint's data (`Http`). The JSON members that the
handlers read with `dict.get` are `Option`s. The table is passed to each handler as an
immutable `map`, so no handler can change it.

Facts about the code that the model keeps:
- Reports have three statuses, including `unknown_part` for a part the table does not
  hold (backend/app.py:133).
- An `in_stock_local` report carries `quantity_local` and the table's `location`
  (backend/app.py:138-143); only `out_of_stock_local` carries `required_at`.
- A 404 from the location lookup still carries `{"part_number", "locations": []}`
  (backend/app.py:174).

## Model

| member | source | states |
|---|---|---|
| `InventoryTable.LoadInventoryDb` | backend/app.py:40-45 | The nested loop builds exactly the table obtained by writing every item of every category, in iteration order, under its part number. Every entry sits under its own part number. |
| `InventoryTable.TableKeys` | backend/app.py:41-43 | A part number is a key of the table exactly when some item carries it. |
| `InventoryTable.TableIsKeyed` | backend/app.py:43 | Every table entry is filed under the key equal to its own `part_number`. |
| `InventoryTable.LastWriterWins` | backend/app.py:41-43 | An item that no later item overwrites is the table's entry for its part number. |
| `InventoryTable.EntryIsLastWriter` | backend/app.py:41-43 | Every table entry is one of the items, and no later item carries the same part number. |
| `InventoryTable.AllItemsAppend` | backend/app.py:41-42 | Iterating over two runs of categories visits the items of the first run, then those of the second. |
| `InventoryTable.ItemPosition` | backend/app.py:41-42 | Item `j` of category `c` is visited right after all items of the earlier categories. |
| `InventoryTable.EveryItemLoaded` | backend/app.py:41-43 | Every item of every category has its part number in the loaded table. |
| `CheckInventoryEndpoint.Classify` | backend/app.py:127-150 | Each report echoes the requested part number. It is `unknown_part` exactly when the part is missing or not in the table. It is `in_stock_local` exactly when the entry's location equals the requested one and its quantity is positive; then it carries that quantity (> 0) and that location. Otherwise it is `out_of_stock_local` with `required_at` equal to the requested location. |
| `CheckInventoryEndpoint.CheckInventory` | backend/app.py:119-152 | With no body, or no `parts` key, the reply is 400 "Invalid request" and holds no reports. Otherwise the reply is 200 with exactly one report per requested part, in request order, each the classification of that request. |
| `PartLocations.FindLocations` | backend/app.py:165-171 | The filter is sound and complete: every location listed comes from a table entry of the part with quantity > 0, and every such entry is listed. On a table keyed by part number, the result is that part's single entry when it is stocked and empty otherwise. |
| `PartLocations.GetPartLocations` | backend/app.py:161-176 | A missing or empty `part_id` gives 400 "part_id is required". Otherwise the reply echoes `part_id` and lists every stocked entry of the part and nothing else; on a keyed table, exactly that one entry. The status is 404 exactly when that list is empty, and 200 otherwise. On a keyed table at most one location is returned. |
| `PartLocations.FoundIffStocked` | backend/app.py:165-174 | On a loaded table, a location is found exactly when the last item written for the part has positive quantity. Every location reported is that entry's. |

## Left out

- `generate_plan` and the Gemini model setup: the plan comes from a nondeterministic call to a remote model.
- Environment loading (`.env`, API key), Flask app creation, CORS, routing and `app.run`: the framework layer is reduced to the `Reply` value and the handlers' inputs.
- Opening and parsing `inventory.json`, and the fallback to an empty table when the file is missing or malformed. The model starts from already-parsed categories whose items all carry `part_number`, `location` and `quantity`.
- Request bodies of `check_inventory` that are not JSON objects, `parts` values that are not lists, and list entries that are not objects. `Option<CheckBody>` only represents `get_json()` returning nothing or a JSON object. In the code the other inputs get 400, 200 or 500 depending on the value: a falsy body (`[]`, `""`, `0`, `false`) or a list or string body without `"parts"` gets 400 "Invalid request"; `{"parts": ""}` or `{"parts": {}}` gets 200 with an empty `inventory_status`; a non-empty string or a list of non-objects as `parts` raises inside the handler and gives a framework 500.
- JSON value types: part numbers and locations are strings and quantities are integers, in `inventory.json` and in requests alike. Other JSON types are not modelled: a numeric part number matching through the table lookup, a float quantity such as 0.5 passing `> 0` and being echoed, or a list or object part number. Such a part number in a request raises a TypeError at the table lookup (a 500); in `inventory.json` the same TypeError during flattening is caught and the table falls back to empty.
- Category names are kept but play no part in the flattening.
- `PartLocations.FindLocations`: the loop visits the table's keys in an unspecified order, not in the dictionary's insertion order. On a keyed table at most one entry matches, and the contract then fixes the result exactly; on an arbitrary map it states soundness and completeness, but neither the order nor how many times each entry is listed.
- Console diagnostics (`print`).
