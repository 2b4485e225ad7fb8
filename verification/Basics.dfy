/** Small value types shared by the other modules. */
module Basics {
  datatype Option<+T> = None | Some(value: T)

  type Byte = x: int | 0 <= x < 256

  function Min(a: int, b: int): int {
    if a <= b then a else b
  }

  ghost predicate Within<T>(c: seq<T>, s: set<T>) {
    forall x | x in c :: x in s
  }

  ghost predicate Distinct<T>(c: seq<T>) {
    forall j, k | 0 <= j < k < |c| :: c[j] != c[k]
  }

  /** A list without its element number `k`. */
  lemma {:induction false} Spliced<T>(c: seq<T>, k: nat)
    requires k < |c| && Distinct(c)
    ensures var s := c[..k] + c[k + 1..];
            |s| == |c| - 1 && Distinct(s) && forall j | 0 <= j < |s| :: s[j] == c[if j < k then j else j + 1]
  {
  }

  lemma {:induction false} Taken<T>(q: seq<T>, k: nat)
    requires k < |q|
    ensures q[..k] + [q[k]] == q[..k + 1]
  {
  }

  /** The elements of a set as a list, in some order. */
  method Enumerate<T(==)>(s: set<T>) returns (q: seq<T>)
    ensures forall x :: x in q <==> x in s
    ensures forall i, j | 0 <= i < j < |q| :: q[i] != q[j]
  {
    q := [];
    var rest := s;
    while rest != {}
      invariant rest <= s
      invariant forall x :: x in q <==> x in s && x !in rest
      invariant forall i, j | 0 <= i < j < |q| :: q[i] != q[j]
      decreases |rest|
    {
      var x :| x in rest;
      q := q + [x];
      rest := rest - {x};
    }
  }
}
