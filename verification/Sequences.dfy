/** Facts about sequences that the solver needs spelled out. */
module Sequences {

  lemma Regroup<T>(a: seq<T>, b: T, x: seq<T>)
    ensures a + ([b] + x) == (a + [b]) + x
  {
  }

  lemma SameHead<T>(a: T, s: seq<T>, b: T, t: seq<T>)
    ensures [a] + s == [b] + t <==> a == b && s == t
  {
    assert ([a] + s)[0] == a && ([a] + s)[1..] == s && ([b] + t)[0] == b && ([b] + t)[1..] == t;
  }
}
