/** Products and quotients of reals behind names, so that proofs about sums stay linear. */
module RealArith {

  function Product(a: real, b: real): real { a * b }

  function Quotient(a: real, b: real): real { if b == 0.0 then 0.0 else a / b }

  lemma ProductSum(a: real, b: real, c: real)
    ensures Product(a, b + c) == Product(a, b) + Product(a, c)
    ensures Product(b + c, a) == Product(b, a) + Product(c, a)
  {}

  lemma ProductDifference(a: real, b: real, c: real)
    ensures Product(a, b - c) == Product(a, b) - Product(a, c)
    ensures Product(b - c, a) == Product(b, a) - Product(c, a)
  {}

  lemma ProductUnits(a: real)
    ensures Product(a, 0.0) == 0.0 && Product(0.0, a) == 0.0
    ensures Product(a, 1.0) == a && Product(1.0, a) == a
  {}

  lemma ProductCommutes(a: real, b: real)
    ensures Product(a, b) == Product(b, a)
  {}

  lemma ProductAssociates(a: real, b: real, c: real)
    ensures Product(a, Product(b, c)) == Product(Product(a, b), c)
  {}

  lemma ProductSign(a: real, b: real)
    ensures a >= 0.0 && b >= 0.0 ==> Product(a, b) >= 0.0
    ensures a > 0.0 && b > 0.0 ==> Product(a, b) > 0.0
    ensures a < 0.0 && b > 0.0 ==> Product(a, b) < 0.0
  {}

  /** A non-negative factor keeps an inequality. */
  lemma ProductMonotone(a: real, b: real, c: real)
    requires a <= b && c >= 0.0
    ensures Product(a, c) <= Product(b, c) && Product(c, a) <= Product(c, b)
  {
    ProductSign(b - a, c);
    ProductDifference(c, b, a);
  }

  /** A positive factor can be cancelled from an inequality and from an equation. */
  lemma ProductCancel(a: real, b: real, c: real)
    requires c > 0.0
    ensures Product(a, c) <= Product(b, c) <==> a <= b
    ensures Product(a, c) == Product(b, c) <==> a == b
  {
    ProductSign(b - a, c);
    ProductSign(a - b, c);
    ProductDifference(c, b, a);
    ProductDifference(c, a, b);
  }

  lemma ProductZero(a: real, b: real)
    ensures Product(a, b) == 0.0 <==> a == 0.0 || b == 0.0
  {}

  lemma QuotientTimes(a: real, b: real)
    requires b != 0.0
    ensures Product(Quotient(a, b), b) == a
  {}

  /** A quotient is the only solution of its equation. */
  lemma QuotientUnique(q: real, a: real, b: real)
    requires b != 0.0 && Product(q, b) == a
    ensures q == Quotient(a, b)
  {}
}
