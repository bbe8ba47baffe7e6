module Wrappers {
  datatype Option<+T> = None | Some(value: T)

  /** The parts of `ss` one after another. */
  function Flat<T>(ss: seq<seq<T>>): seq<T> {
    if ss == [] then [] else ss[0] + Flat(ss[1..])
  }
}
