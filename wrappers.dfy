/** The failure-carrying value used where the game's Rust code panics. */
module Wrappers {

  /** `None` stands for a panic of the Rust code; `Some(v)` for a normal return of `v`. */
  datatype Option<+T> = None | Some(value: T)
}
