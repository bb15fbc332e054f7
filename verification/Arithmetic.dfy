/** Non-linear integer facts used by more than one component. */
module Arithmetic {
  lemma MulMono(a: int, b: int, c: int, d: int)
    requires 0 <= a <= b && 0 <= c <= d
    ensures a * c <= b * d
  {
    assert a * c <= b * c;
    assert b * c <= b * d;
  }

  lemma Cancel(a: int, b: int, l: int)
    requires l > 0 && a * l <= b * l
    ensures a <= b
  {
    if a > b {
      MulMono(1, a - b, l, l);
      assert false;
    }
  }

  lemma Swap(a: int, b: int, c: int)
    ensures (a * b) * c == (a * c) * b
  {
  }

  lemma Distribute(a: int, b: int, c: int)
    ensures (a + b) * c == a * c + b * c
  {
  }

  /** Truncating division of big integers. */
  function BnDiv(n: nat, d: nat): (q: nat)
    requires d > 0
    ensures q * d <= n < q * d + d
  {
    n / d
  }

  lemma DivisionIsUnique(n: nat, d: nat, q: nat)
    requires d > 0 && q * d <= n < q * d + d
    ensures n / d == q
  {
    var p := BnDiv(n, d);
    if p < q {
      MulMono(p + 1, q, d, d);
      Distribute(p, 1, d);
      assert false;
    }
    if p > q {
      MulMono(q + 1, p, d, d);
      Distribute(q, 1, d);
      assert false;
    }
  }
}
