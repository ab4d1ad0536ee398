/** Division of positions by a cluster size, kept linear: quotient, remainder and product by repeated steps. */
module Division {

  function Quot(x: nat, b: nat): nat
    requires b > 0
  {
    if x < b then 0 else 1 + Quot(x - b, b)
  }

  function Rem(x: nat, b: nat): (r: nat)
    requires b > 0
    ensures r < b
  {
    if x < b then x else Rem(x - b, b)
  }

  function Times(n: nat, b: nat): nat {
    if n == 0 then 0 else Times(n - 1, b) + b
  }

  /** They are C's operators on non-negative numbers. */
  lemma {:induction false} TimesIsProduct(n: nat, b: nat)
    ensures Times(n, b) == n * b
  {
    if n > 0 {
      TimesIsProduct(n - 1, b);
      OneMore(n - 1, b);
    }
  }

  lemma {:induction false} StepsAreOperators(x: nat, b: nat)
    requires b > 0
    ensures x == Quot(x, b) * b + Rem(x, b)
  {
    if x >= b {
      StepsAreOperators(x - b, b);
      OneMore(Quot(x - b, b), b);
    }
  }

  lemma OneMore(n: nat, b: nat)
    ensures (n + 1) * b == n * b + b
  {
  }

  lemma {:induction false} Decompose(x: nat, b: nat)
    requires b > 0
    ensures x == Times(Quot(x, b), b) + Rem(x, b)
  {
    if x >= b {
      Decompose(x - b, b);
    }
  }

  lemma {:induction false} Compose(q: nat, b: nat, r: nat)
    requires r < b
    ensures Quot(Times(q, b) + r, b) == q && Rem(Times(q, b) + r, b) == r
  {
    if q > 0 {
      Compose(q - 1, b, r);
    }
  }

  lemma {:induction false} TimesMono(k: nat, n: nat, b: nat)
    requires k <= n
    ensures Times(k, b) <= Times(n, b)
  {
    if k < n {
      TimesMono(k, n - 1, b);
    }
  }

  /** Positions short of the next boundary have the same quotient. */
  lemma {:induction false} SameQuot(x: nat, i: nat, b: nat)
    requires b > 0 && i < b - Rem(x, b)
    ensures Quot(x + i, b) == Quot(x, b) && Rem(x + i, b) == Rem(x, b) + i
  {
    if x >= b {
      SameQuot(x - b, i, b);
    }
  }

  /** From a position to the next boundary. */
  lemma {:induction false} NextQuot(x: nat, b: nat)
    requires b > 0
    ensures Quot(x + (b - Rem(x, b)), b) == Quot(x, b) + 1 && Rem(x + (b - Rem(x, b)), b) == 0
  {
    if x >= b {
      NextQuot(x - b, b);
    }
  }

  lemma {:induction false} QuotMono(x: nat, y: nat, b: nat)
    requires b > 0 && x <= y
    ensures Quot(x, b) <= Quot(y, b)
  {
    if x >= b {
      QuotMono(x - b, y - b, b);
    }
  }

  lemma QuotIsDivision(x: nat, b: nat)
    requires b > 0
    ensures Quot(x, b) == x / b && Rem(x, b) == x % b
  {
    hide Quot;
    hide Rem;
    StepsAreOperators(x, b);
    DivisionUnique(b, Quot(x, b), Rem(x, b), x / b, x % b);
  }

  lemma DivisionUnique(b: nat, q: nat, r: nat, q': nat, r': nat)
    requires r < b && r' < b && q * b + r == q' * b + r'
    ensures q == q' && r == r'
  {
    TimesIsProduct(q, b);
    TimesIsProduct(q', b);
    Compose(q, b, r);
    Compose(q', b, r');
  }
}
