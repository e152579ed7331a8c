/** Sequences of anything. */
module Seqs {

  function Splice<T>(s: seq<T>, from: nat, to: nat, t: seq<T>): seq<T>
    requires from <= to <= |s|
  {
    s[..from] + t + s[to..]
  }

  lemma Assoc<T>(a: seq<T>, b: seq<T>, c: seq<T>)
    ensures a + (b + c) == a + b + c
  {
  }
}
