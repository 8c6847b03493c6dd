/** The "no value" marker shared by every part of the model: `meta::null_type` for the
    type-level code, `std::optional` (`sf::Maybe`) for the constexpr code. */
module Wrappers {

  datatype Option<+T> = None | Some(value: T) {

    /** The value, or `default` when there is none. */
    function GetOr(default: T): T {
      match this
      case Some(v) => v
      case None => default
    }
  }
}
