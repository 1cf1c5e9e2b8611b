/** The action results the controllers return, in place of `IActionResult`. */
module Responses {
  import opened InventoryItems

  datatype Response =
    | Ok                          // 200 without a body
    | OkItems(items: set<Item>)   // 200 with a list of items (order not modelled)
    | OkItem(item: Item)          // 200 with one item
    | Accepted(item: Item)        // 202 with the item written
    | Created(item: Item)         // 201 with the item written
    | NoContent                   // 204
    | BadRequest                  // 400
    | NotFound                    // 404
    | Conflict                    // 409
    | ServerError                 // 500, an exception caught by the action
    | NullResult                  // the action returned null
}
