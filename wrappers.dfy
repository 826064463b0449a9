/** Option for the source's `null` / "no row" results. */
module Wrappers {

  datatype Option<+T> = None | Some(value: T) {

    function GetOr(default: T): T {
      match this
      case Some(v) => v
      case None => default
    }
  }
}

/** Octets, as Node's `Buffer` holds them. */
module Bytes {
  type byte = x: int | 0 <= x < 256
}
