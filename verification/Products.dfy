/**
 Multiplication and division by quantities that are not literals, under names, so that a proof can
 work from their laws.
 */
module Products {
  type Positive = n: int | 0 < n witness 1

  function Times(a: nat, b: nat): nat {
    a * b
  }

  function Quotient(a: nat, d: Positive): nat {
    a / d
  }

  function Remainder(a: nat, d: Positive): (r: nat)
    ensures r < d
  {
    a % d
  }

  lemma TimesGrows(a: nat, b: nat, c: nat)
    requires a <= b
    ensures Times(a, c) <= Times(b, c) && Times(c, a) <= Times(c, b)
  {
  }

  lemma TimesPositive(a: nat, b: nat)
    requires a > 0 && b > 0
    ensures Times(a, b) > 0
  {
  }

  lemma TimesZero(a: nat)
    ensures Times(0, a) == 0 && Times(a, 0) == 0
  {
  }

  lemma TimesOne(a: nat)
    ensures Times(1, a) == a && Times(a, 1) == a
  {
  }

  lemma TimesLess(a: nat, b: nat, c: nat)
    requires a < b && c > 0
    ensures Times(a, c) < Times(b, c)
  {
  }

  lemma TimesSum(a: nat, b: nat, c: nat)
    ensures Times(a + b, c) == Times(a, c) + Times(b, c)
  {
  }

  lemma TimesCommutes(a: nat, b: nat)
    ensures Times(a, b) == Times(b, a)
  {
  }

  lemma TimesIsAssociative(a: nat, b: nat, c: nat)
    ensures Times(Times(a, b), c) == Times(a, Times(b, c))
  {
    assert (a * b) * c == a * (b * c);
  }

  lemma Division(a: nat, d: Positive)
    ensures a == Times(Quotient(a, d), d) + Remainder(a, d)
  {
  }

  lemma QuotientBelow(a: nat, n: nat, d: Positive)
    ensures a < Times(n, d) <==> Quotient(a, d) < n
  {
    var q := Quotient(a, d);
    Division(a, d);
    if q < n {
      TimesGrows(q + 1, n, d);
      TimesSum(q, 1, d);
    } else {
      TimesGrows(n, q, d);
    }
  }

  lemma QuotientIsSmaller(a: nat, d: Positive)
    ensures Quotient(a, d) <= a
  {
    Division(a, d);
    TimesGrows(1, d, Quotient(a, d));
  }

  /** a = q * d + r is division with remainder. */
  lemma DivideExactly(q: nat, r: nat, d: Positive)
    requires r < d
    ensures Quotient(Times(q, d) + r, d) == q && Remainder(Times(q, d) + r, d) == r
  {
    var a := Times(q, d) + r;
    TimesSum(q, 1, d);
    QuotientBelow(a, q, d);
    QuotientBelow(a, q + 1, d);
    Division(a, d);
  }

  lemma SameRemainder(a: nat, n: nat, d: Positive)
    ensures Remainder(a + Times(n, d), d) == Remainder(a, d)
  {
    Division(a, d);
    TimesSum(Quotient(a, d), n, d);
    DivideExactly(Quotient(a, d) + n, Remainder(a, d), d);
  }
}
