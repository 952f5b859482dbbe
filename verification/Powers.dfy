/** Powers of integers. */
module Powers {
  function IPow(x: int, n: nat): int {
    if n == 0 then 1 else x * IPow(x, n - 1)
  }

  lemma {:induction false} IPowAdd(x: int, m: nat, n: nat)
    ensures IPow(x, m + n) == IPow(x, m) * IPow(x, n)
  {
    if m > 0 {
      IPowAdd(x, m - 1, n);
      assert m - 1 + n == m + n - 1;
      var (a, b) := (IPow(x, m - 1), IPow(x, n));
      assert x * (a * b) == (x * a) * b;
    }
  }

  lemma {:induction false} IPowPositive(x: int, n: nat)
    requires x > 0
    ensures IPow(x, n) > 0
  {
    if n > 0 {
      IPowPositive(x, n - 1);
      PositiveProduct(x, IPow(x, n - 1));
    }
  }

  lemma PositiveProduct(x: int, y: int)
    requires x > 0 && y > 0
    ensures x * y > 0
  {}

  lemma {:induction false} IPowNonZero(x: int, n: nat)
    requires x != 0
    ensures IPow(x, n) != 0
  {
    if n > 0 {
      IPowNonZero(x, n - 1);
      NonZeroProduct(x, IPow(x, n - 1));
    }
  }

  lemma NonZeroProduct(a: int, b: int)
    requires a != 0 && b != 0
    ensures a * b != 0
  {}
}
