/** What every other module uses: the optional value, wherever the sources have a nil pointer, null or undefined,
    and a fact about sequences. */
module Wrappers {
  datatype Option<+T> = None | Some(value: T)

  lemma Associates<T>(a: seq<T>, b: seq<T>, c: seq<T>)
    ensures a + (b + c) == (a + b) + c
  {
  }
}
