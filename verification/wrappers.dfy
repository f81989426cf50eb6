/** The optional value used for every `undefined`/`null`-able field of the model. */
module Wrappers {

  datatype Option<+T> = None | Some(value: T) {

    /** The `??` operator of the original: the value if present, the default otherwise. */
    function GetOr(default: T): T
    {
      match this
      case Some(v) => v
      case None => default
    }
  }
}
