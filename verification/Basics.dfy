/** Small things that several components share. */
module Basics {

  datatype Option<+T> = None | Some(value: T)

  function Max(a: int, b: int): int {
    if a < b then b else a
  }

  function Elems(s: seq<string>): set<string> {
    set x | x in s
  }

  /** What becomes of a request to write: it is done and acknowledged, it is done and the reply is lost,
      or it is not done. */
  datatype Reply = Committed | ReplyLost | Refused
}
