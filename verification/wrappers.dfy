/** An optional value, used for results that may be absent
    (a regular-expression match that found nothing, a parse that threw). */
module Wrappers {

  datatype Option<+T> = None | Some(value: T) {

    /** Returns the wrapped value, or `default` when there is none
        (TypeScript's `??` operator). */
    function GetOr(default: T): T {
      match this
      case Some(v) => v
      case None => default
    }
  }
}
