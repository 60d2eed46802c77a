/** Concatenation of a sequence of sequences: the samples of several calls, the bytes of several
    parts. */
module Sequences {
  function Flatten<T>(parts: seq<seq<T>>): seq<T>
  {
    if parts == [] then [] else Flatten(parts[..|parts| - 1]) + parts[|parts| - 1]
  }

  lemma {:induction false} FlattenAppends<T>(p: seq<seq<T>>, q: seq<seq<T>>)
    ensures Flatten(p + q) == Flatten(p) + Flatten(q)
  {
    if q == [] {
      assert p + q == p;
    } else {
      var m := |q|;
      FlattenAppends(p, q[..m - 1]);
      assert (p + q)[..|p + q| - 1] == p + q[..m - 1];
    }
  }
}
