/** Small functions and facts that several modules share. */
module Common {
  function Least(a: int, b: int): int {
    if a <= b then a else b
  }

  function Greatest(a: int, b: int): int {
    if a >= b then a else b
  }

  predicate Distinct<T(==)>(s: seq<T>) {
    forall i, j :: 0 <= i < j < |s| ==> s[i] != s[j]
  }

  lemma Assoc<T>(a: seq<T>, b: seq<T>, c: seq<T>)
    ensures a + (b + c) == (a + b) + c
  {
  }
}
