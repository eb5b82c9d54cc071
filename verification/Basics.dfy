// What the model of every component uses: optional results, and words of memory.
module Basics {

  const WORD := 0x1_0000_0000 // unsigned int arithmetic wraps here

  datatype Option<T> = None | Some(value: T)

  /** One word of a memory written. */
  function Set<K(==, !new), V>(f: K -> V, k: K, v: V): (r: K -> V)
    ensures forall x :: r(x) == if x == k then v else f(x)
  {
    x => if x == k then v else f(x)
  }
}
