/** The primes, one after the other, as far as a sieve by 2 to 17 goes. */
module Primes {

  ghost predicate IsPrime(p: nat) {
    p >= 2 && forall d: nat :: 2 <= d < p ==> p % d != 0
  }

  /** `n` is a prime up to 17, or none of these divides it. */
  predicate Sieved(n: nat) {
    || n in {2, 3, 5, 7, 11, 13, 17}
    || (n > 17 && n % 2 != 0 && n % 3 != 0 && n % 5 != 0 && n % 7 != 0 && n % 11 != 0 && n % 13 != 0 && n % 17 != 0)
  }

  /** The sieve decides below the square of 19. */
  lemma SievedIffPrime(n: nat)
    requires n < 361
    ensures Sieved(n) <==> IsPrime(n)
  {
    if Sieved(n) {
      forall d: nat | 2 <= d < n
        ensures n % d != 0
      {
        if n % d == 0 {
          SmallFactor(n, d, n / d);
        }
      }
    } else if n >= 2 {
      FactorFound(n);
    }
  }

  lemma FactorFound(n: nat)
    requires n >= 2 && !Sieved(n)
    ensures exists d: nat :: 2 <= d < n && n % d == 0
  {
    if n % 2 == 0 {
    } else if n % 3 == 0 {
    } else if n % 5 == 0 {
    } else if n % 7 == 0 {
    } else if n % 11 == 0 {
    } else if n % 13 == 0 {
    }
  }

  lemma SmallFactor(n: nat, d: nat, e: nat)
    requires n < 361 && 2 <= d < n && d * e == n
    ensures !Sieved(n)
  {
    if d <= e {
      LesserFactor(n, d, e);
    } else {
      Products(d, e);
      LesserFactor(n, e, d);
    }
  }

  lemma Products(d: nat, e: nat)
    ensures e == 0 ==> d * e == 0
    ensures e == 1 ==> d * e == d
    ensures d >= 19 && e >= 19 ==> d * e >= 361
  {
    if d >= 19 && e >= 19 {
      assert (d - 19) * (e - 19) >= 0;
    }
  }

  lemma LesserFactor(n: nat, k: nat, q: nat)
    requires n < 361 && 2 <= k <= q && k * q == n
    ensures !Sieved(n)
  {
    Products(k, q);
    assert k < 19;
    if k % 2 == 0 {
      Multiple(n, 2, k / 2, k, q);
    } else if k % 3 == 0 {
      Multiple(n, 3, k / 3, k, q);
    } else {
      Multiple(n, k, 1, k, q);
    }
  }

  lemma Multiple(n: nat, p: nat, j: nat, k: nat, q: nat)
    requires p in {2, 3, 5, 7, 11, 13, 17} && k == p * j && k * q == n && j > 0 && q >= 2
    ensures !Sieved(n)
  {
    var m := j * q;
    assert m >= 2 by {
      assert (j - 1) * q >= 0;
    }
    assert k * q == p * m by {
      assert p * j * q == p * (j * q);
    }
    MultipleOf(p, m);
    Struck(n, p);
  }

  lemma Struck(n: nat, p: nat)
    requires p in {2, 3, 5, 7, 11, 13, 17} && n % p == 0 && n > p
    ensures !Sieved(n)
  {
  }

  lemma MultipleOf(p: nat, m: nat)
    requires p in {2, 3, 5, 7, 11, 13, 17}
    ensures (p * m) % p == 0
  {
    assert (2 * m) % 2 == 0 && (3 * m) % 3 == 0 && (5 * m) % 5 == 0 && (7 * m) % 7 == 0;
    assert (11 * m) % 11 == 0 && (13 * m) % 13 == 0 && (17 * m) % 17 == 0;
  }

  /** `q` is the next prime behind the prime `p`. */
  ghost predicate Consecutive(p: nat, q: nat) {
    p < q && IsPrime(p) && IsPrime(q) && forall m: nat :: p < m < q ==> !IsPrime(m)
  }

  predicate NoneBetween(p: nat, q: nat)
    decreases q - p
  {
    p + 1 >= q || (!Sieved(p + 1) && NoneBetween(p + 1, q))
  }

  lemma {:induction false} NotSieved(p: nat, q: nat, m: nat)
    requires NoneBetween(p, q) && p < m < q
    ensures !Sieved(m)
    decreases q - p
  {
    if p + 1 < m {
      NotSieved(p + 1, q, m);
    }
  }

  lemma Follows(p: nat, q: nat)
    requires p < q < 361 && Sieved(p) && Sieved(q) && NoneBetween(p, q)
    ensures Consecutive(p, q)
  {
    hide IsPrime, Sieved, NoneBetween;
    SievedIffPrime(p);
    SievedIffPrime(q);
    forall m: nat | p < m < q
      ensures !IsPrime(m)
    {
      NotSieved(p, q, m);
      SievedIffPrime(m);
    }
  }
}
