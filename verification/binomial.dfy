/**
  `binomialCoefficient`: the multiplicative formula for C(n, i), computed by a
  multiply-then-divide loop after reducing i to the smaller of i and n - i.
  Pascal's rule defines the reference `Choose`; the factorial formula is
  proved of it as an independent characterisation.
 */
module Binomial {

  /** Pascal's triangle, zero outside 0 <= k <= n. */
  function Choose(n: int, k: int): nat
    decreases n
  {
    if k < 0 || k > n then 0
    else if k == 0 || k == n then 1
    else Choose(n - 1, k - 1) + Choose(n - 1, k)
  }

  function Fact(n: nat): (r: nat)
    ensures r >= 1
  {
    if n == 0 then 1 else n * Fact(n - 1)
  }

  /** C(n, k) * k! * (n - k)! == n!: the closed form n! / (k! (n - k)!). */
  lemma {:induction false} ChooseFactorial(n: nat, k: nat)
    requires k <= n
    ensures Choose(n, k) * Fact(k) * Fact(n - k) == Fact(n)
    decreases n
  {
    if 0 < k < n {
      ChooseFactorial(n - 1, k - 1);
      ChooseFactorial(n - 1, k);
      var c, a, b := Choose(n, k), Choose(n - 1, k - 1), Choose(n - 1, k);
      var fk, fnk, f := Fact(k), Fact(n - k), Fact(n - 1);
      var fk1, fnk1 := Fact(k - 1), Fact(n - 1 - k);
      assert c == a + b;
      assert Fact(n) == n * f;
      PascalTerms(a, b, k, n, fk, fk1, fnk, fnk1, f);
    }
  }

  /** The algebra of one Pascal step on the factorial form. */
  lemma PascalTerms(a: int, b: int, k: int, n: int, fk: int, fk1: int, fnk: int, fnk1: int, f: int)
    requires fk == k * fk1 && fnk == (n - k) * fnk1
    requires a * fk1 * fnk == f && b * fk * fnk1 == f
    ensures (a + b) * fk * fnk == n * f
  {
    assert (a + b) * fk * fnk == a * fk * fnk + b * fk * fnk;
    assert a * fk * fnk == k * (a * fk1 * fnk);
    assert b * fk * fnk == (n - k) * (b * fk * fnk1);
    assert k * f + (n - k) * f == n * f;
  }

  /** Pascal's triangle is symmetric: C(n, k) == C(n, n - k). */
  lemma {:induction false} ChooseSymmetric(n: int, k: int)
    ensures Choose(n, k) == Choose(n, n - k)
    decreases n
  {
    if 0 < k < n {
      ChooseSymmetric(n - 1, k - 1);
      ChooseSymmetric(n - 1, k);
    }
  }

  lemma CancelProduct(x: int, y: int, a: int, b: int)
    requires a > 0 && b > 0 && x * a * b == y * a * b
    ensures x == y
  {
    assert (x - y) * (a * b) == 0;
  }

  /** The loop step: (k + 1) * C(n, k + 1) == (n - k) * C(n, k), so `/= (k + 1)` divides exactly. */
  lemma ChooseStep(n: nat, k: nat)
    requires k < n
    ensures (k + 1) * Choose(n, k + 1) == (n - k) * Choose(n, k)
  {
    ChooseFactorial(n, k);
    ChooseFactorial(n, k + 1);
    assert n - (k + 1) == n - k - 1;
    StepAlgebra(Choose(n, k), Choose(n, k + 1), k, n, Fact(k), Fact(k + 1), Fact(n - k - 1), Fact(n - k), Fact(n));
  }

  /** Both factorial forms equal n!, so cancelling k! (n - k - 1)! gives the step identity. */
  lemma StepAlgebra(c0: int, c1: int, k: int, n: int, fk: int, fk1: int, fr: int, fnk: int, f: int)
    requires fk > 0 && fr > 0
    requires fk1 == (k + 1) * fk && fnk == (n - k) * fr
    requires c1 * fk1 * fr == f && c0 * fk * fnk == f
    ensures (k + 1) * c1 == (n - k) * c0
  {
    assert (k + 1) * c1 * fk * fr == c1 * fk1 * fr;
    assert (n - k) * c0 * fk * fr == c0 * fk * fnk;
    CancelProduct((k + 1) * c1, (n - k) * c0, fk, fr);
  }

  lemma ExactDivision(p: int, q: int, d: int)
    requires d > 0 && p == d * q
    ensures p / d == q
  {
    var e := p / d - q;
    assert d * e == -(p % d);
    SmallMultiple(d, e, p % d);
  }

  /** A multiple of d strictly inside (-d, 0] is zero. */
  lemma SmallMultiple(d: int, e: int, m: int)
    requires d > 0 && 0 <= m < d && d * e == -m
    ensures e == 0
  {
    MultipleBounds(d, e);
  }

  lemma MultipleBounds(d: int, e: int)
    requires d > 0
    ensures e >= 1 ==> d * e >= d
    ensures e <= -1 ==> d * e <= -d
  {
    if e >= 1 {
      assert d * e == d + d * (e - 1);
    } else if e <= -1 {
      assert d * e == -d + d * (e + 1);
    }
  }

  /**
    `binomialCoefficient(n, i)` as written (main.cpp:34-50), over unbounded
    integers. For 0 <= i <= n it is C(n, i); above n it is 0; but a negative
    i passes both guards and returns 1.
   */
  method BinomialCoefficient(n: int, i: int) returns (r: int)
    ensures i > n ==> r == 0
    ensures i <= n && (i == 0 || i == n) ==> r == 1
    ensures 0 <= i <= n ==> r == Choose(n, i)
    ensures i < 0 && i <= n ==> r == 1 && r != Choose(n, i)
  {
    if i > n {
      return 0;
    }
    if i == 0 || i == n {
      return 1;
    }
    var j := i;
    if j > n - j {
      j := n - j;
    }
    var result := 1;
    var k := 0;
    while k < j
      invariant 0 <= j ==> 0 <= k <= j
      invariant 0 <= j ==> result == Choose(n, k)
      invariant j < 0 ==> k == 0 && result == 1
    {
      ChooseStep(n, k);
      var product := result * (n - k);
      ExactDivision(product, Choose(n, k + 1), k + 1);
      result := product / (k + 1);
      k := k + 1;
    }
    if 0 <= i {
      ChooseSymmetric(n, i);
    }
    return result;
  }

  /**
    The negative-index guard the source lacks: a negative i yields 0, as
    Pascal's triangle does; every other input agrees with the code.
   */
  method BinomialCoefficientChecked(n: int, i: int) returns (r: int)
    ensures r == Choose(n, i)
    ensures r >= 0
    ensures 0 <= i <= n ==> r * Fact(i) * Fact(n - i) == Fact(n)
  {
    if i < 0 {
      return 0;
    }
    r := BinomialCoefficient(n, i);
    if i <= n {
      ChooseFactorial(n, i);
    }
  }
}
