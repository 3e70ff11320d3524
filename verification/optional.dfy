/** The Some/None datatype that stands for Rust's `Option`. */
module Optional {

  datatype Option<+T> = None | Some(value: T) {

    /** Returns the value held in Some, or `default` for None (Rust's `unwrap_or`). */
    function GetOr(default: T): T {
      match this
      case Some(v) => v
      case None => default
    }
  }
}
