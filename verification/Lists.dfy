/** Concatenation that leaves a list alone when there is nothing to add to it. */
module Lists {
  function Join<T>(a: seq<T>, b: seq<T>): seq<T> { if a == [] then b else if b == [] then a else a + b }

  lemma JoinIs<T>(a: seq<T>, b: seq<T>)
    ensures Join(a, b) == a + b
  {
  }
}
