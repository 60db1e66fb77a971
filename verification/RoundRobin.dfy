/** Dealing things out in turn: the share of each of n takers. */
module RoundRobin {

  /** How many of the first c items, dealt out to n takers in turn, taker k gets. */
  function Share(c: nat, n: nat, k: nat): (s: nat)
    requires n > 0
  {
    c / n + if k < c % n then 1 else 0
  }

  lemma DivModNext(c: nat, n: nat)
    requires n > 0
    ensures if c % n == n - 1 then (c + 1) / n == c / n + 1 && (c + 1) % n == 0
            else (c + 1) / n == c / n && (c + 1) % n == c % n + 1
  {
    var q, r := c / n, c % n;
    assert c + 1 == n * q + (r + 1);
    if r == n - 1 {
      assert c + 1 == n * (q + 1) + 0;
      DivModUnique(c + 1, n, q + 1, 0);
    } else {
      DivModUnique(c + 1, n, q, r + 1);
    }
  }

  lemma DivModUnique(c: nat, n: nat, q: nat, r: nat)
    requires n > 0 && r < n && c == n * q + r
    ensures c / n == q && c % n == r
  {
    var d := c / n - q;
    assert c == n * (c / n) + c % n;
    assert n * d == r - c % n;
  }

  /** Item c goes to taker c mod n, as number c div n of that taker's items. */
  lemma ShareNext(c: nat, n: nat, k: nat)
    requires n > 0 && k < n
    ensures Share(c + 1, n, k) == Share(c, n, k) + if k == c % n then 1 else 0
    ensures Share(c, n, c % n) == c / n
  {
    DivModNext(c, n);
  }

  lemma ShareNone(n: nat, k: nat)
    requires n > 0
    ensures Share(0, n, k) == 0
  {
  }

  /** No two takers' shares differ by more than one. */
  lemma SharesEven(c: nat, n: nat, j: nat, k: nat)
    requires n > 0
    ensures Share(c, n, j) <= Share(c, n, k) + 1
  {
  }

  /** The shares of the first m takers together. */
  function SumShares(c: nat, n: nat, m: nat): nat
    requires n > 0
  {
    if m == 0 then 0 else SumShares(c, n, m - 1) + Share(c, n, m - 1)
  }

  lemma {:induction false} SumOfShares(c: nat, n: nat, m: nat)
    requires n > 0
    ensures SumShares(c, n, m) == m * (c / n) + if m < c % n then m else c % n
  {
    if m > 0 {
      SumOfShares(c, n, m - 1);
      assert m * (c / n) == (m - 1) * (c / n) + c / n;
    }
  }

  /** All the shares together are everything. */
  lemma SharesComplete(c: nat, n: nat)
    requires n > 0
    ensures SumShares(c, n, n) == c
  {
    SumOfShares(c, n, n);
    assert n * (c / n) + c % n == c;
  }
}
