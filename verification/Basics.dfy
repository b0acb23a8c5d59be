/** What several modules share. */
module Basics {

  datatype Option<T> = None | Some(value: T)

  /** The last `n` elements, or all there are. */
  function Tail<T>(s: seq<T>, n: nat): seq<T> {
    if |s| <= n then s else s[|s| - n..]
  }
}
