/** The optional-value datatype shared by the model: `None` stands for the
    `undefined`/`null` of the JavaScript service. */
module Wrappers {

  datatype Option<+T> = None | Some(value: T) {

    /** Returns the value in Some, or `default` for None (the `x || default`
        idiom on a possibly missing property). */
    function GetOr(default: T): T {
      match this
      case Some(v) => v
      case None => default
    }
  }

  function Min(a: int, b: int): int {
    if a <= b then a else b
  }
}
