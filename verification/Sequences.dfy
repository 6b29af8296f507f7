module Sequences {
  lemma Associative<T>(a: seq<T>, b: seq<T>, c: seq<T>)
    ensures a + (b + c) == a + b + c
  {
  }

  lemma NothingMore<T>(a: seq<T>)
    ensures a + [] == a
  {
  }

  lemma WholeSlices<T>(a: seq<T>)
    ensures a[..|a|] == a && a[|a|..] == []
  {
  }
}
