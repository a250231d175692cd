/** Sequences as orders, stacks and walks. */
module Sequences {

  function Elements<T(==)>(sequence: seq<T>): set<T> {
    set element | element in sequence
  }

  ghost predicate Repeats<T>(sequence: seq<T>) {
    exists i, j :: 0 <= i < j < |sequence| && sequence[i] == sequence[j]
  }
}
