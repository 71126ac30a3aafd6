/** Small shared datatypes: an optional value and the HTTP outcomes the controllers return. */
module Wrappers {

  datatype Option<+T> = None | Some(value: T)

  /** The response codes the controllers produce, reduced to their meaning. */
  datatype Status =
    | Ok          // 200
    | Created     // 201
    | BadRequest  // 400
    | Forbidden   // 403
    | NotFound    // 404

  function Min(a: int, b: int): int {
    if a <= b then a else b
  }
}
