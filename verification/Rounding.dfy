/** Rounding real numbers up. */
module Rounding {

  /** The least integer not below x. */
  function Ceil(x: real): (n: int)
    ensures (n - 1) as real < x <= n as real
  {
    if x == x.Floor as real then x.Floor else x.Floor + 1
  }

  lemma CeilUnique(x: real, n: int)
    requires (n - 1) as real < x <= n as real
    ensures Ceil(x) == n
  {
  }

  function Times(n: nat, x: real): real {
    n as real * x
  }

  lemma TimesNext(n: nat, x: real)
    ensures Times(n + 1, x) == Times(n, x) + x
  {
  }
}
