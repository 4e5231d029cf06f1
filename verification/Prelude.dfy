/** Small things shared by the modules. */
module Prelude {
  datatype Option<T> = None | Some(value: T)

  type Byte = x: nat | x < 256

  function Min(a: int, b: int): int {
    if b < a then b else a
  }

  function Max(a: int, b: int): int {
    if a < b then b else a
  }

  ghost predicate Distinct(s: seq<nat>) {
    forall i, j :: 0 <= i < j < |s| ==> s[i] != s[j]
  }

  /** A list without an element. */
  function Without(s: seq<nat>, a: nat): (r: seq<nat>)
    ensures forall x :: x in r <==> x in s && x != a
  {
    if s == [] then []
    else if s[0] == a then Without(s[1..], a)
    else [s[0]] + Without(s[1..], a)
  }

  lemma {:induction false} WithoutDistinct(s: seq<nat>, a: nat)
    requires Distinct(s)
    ensures Distinct(Without(s, a))
  {
    if s != [] {
      WithoutDistinct(s[1..], a);
      var rest := Without(s[1..], a);
      forall i | 0 <= i < |rest| ensures rest[i] != s[0] {
        assert rest[i] in rest;
      }
    }
  }
}
