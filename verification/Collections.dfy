/** Sequences as sets. */
module Collections {
  function Elems<T>(s: seq<T>): set<T> {
    set x | x in s
  }
}
