/** Whole-number facts that several cores share. */
module Numbers {
  function Pow2(k: nat): (p: nat)
    ensures p > 0
  {
    if k == 0 then 1 else 2 * Pow2(k - 1)
  }

  lemma MulAssociates(a: int, b: int, c: int)
    ensures a * (b * c) == a * b * c
  {
  }

  lemma MulDistributes(a: int, b: int, c: int)
    ensures (a + b) * c == a * c + b * c
  {
  }

  lemma {:induction false} Pow2Add(a: nat, b: nat)
    ensures Pow2(a + b) == Pow2(a) * Pow2(b)
  {
    if a > 0 {
      Pow2Add(a - 1, b);
      MulAssociates(2, Pow2(a - 1), Pow2(b));
    }
  }

  lemma {:induction false} MulStep(k: nat, q: nat, p: nat)
    ensures k < q ==> k * p + p <= q * p
    decreases q
  {
    if k < q {
      MulStep(k, q - 1, p);
      MulDistributes(q - 1, 1, p);
    }
  }

  lemma QuotientIs(a: nat, p: nat, q: nat)
    requires q * p <= a < q * p + p
    ensures a / p == q && a % p == a - q * p
  {
    var k := a / p;
    assert k * p <= a < k * p + p;
    MulStep(k, q, p);
    MulStep(q, k, p);
  }
}
