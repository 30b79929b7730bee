/** Order and division facts shared by the index computations. */
module Arithmetic {

  function Min(x: nat, y: nat): nat {
    if x < y then x else y
  }

  function Max(x: nat, y: nat): nat {
    if x < y then y else x
  }

  lemma {:induction false} ScaleOrder(a: nat, b: nat, m: nat)
    ensures a <= b ==> a * m <= b * m
    ensures a < b ==> a * m + m <= b * m
    decreases b
  {
    if a < b {
      ScaleOrder(a, b - 1, m);
      assert b * m == (b - 1) * m + m;
    }
  }

  lemma DivisionUnique(t: nat, m: nat, q: nat, r: nat)
    requires r < m && t == q * m + r
    ensures t / m == q && t % m == r
  {
    RemainderUnique(t / m, t % m, q, r, m);
  }

  lemma RemainderUnique(d: nat, e: nat, q: nat, r: nat, m: nat)
    requires e < m && r < m && d * m + e == q * m + r
    ensures d == q && e == r
  {
    ScaleOrder(d, q, m);
    ScaleOrder(q, d, m);
  }
}
