/** Congruences, powers and Fermat's little theorem. */
module Residues {

  ghost predicate Congruent(a: int, b: int, m: int)
    requires m > 0
  {
    exists k :: a - b == Times(k, m)
  }

  function Times(k: int, m: int): int {
    k * m
  }

  lemma Witness(a: int, b: int, k: int, m: int)
    requires m > 0 && a - b == k * m
    ensures Congruent(a, b, m)
  {
    assert a - b == Times(k, m);
  }

  lemma Reflexive(a: int, m: int)
    requires m > 0
    ensures Congruent(a, a, m)
  {
    Witness(a, a, 0, m);
  }

  lemma Symmetric(a: int, b: int, m: int)
    requires m > 0 && Congruent(a, b, m)
    ensures Congruent(b, a, m)
  {
    var k :| a - b == Times(k, m);
    Witness(b, a, -k, m);
  }

  lemma Transitive(a: int, b: int, c: int, m: int)
    requires m > 0 && Congruent(a, b, m) && Congruent(b, c, m)
    ensures Congruent(a, c, m)
  {
    var k :| a - b == Times(k, m);
    var l :| b - c == Times(l, m);
    assert a - c == (k + l) * m;
    Witness(a, c, k + l, m);
  }

  lemma Sum(a: int, b: int, c: int, d: int, m: int)
    requires m > 0 && Congruent(a, b, m) && Congruent(c, d, m)
    ensures Congruent(a + c, b + d, m)
  {
    var k :| a - b == Times(k, m);
    var l :| c - d == Times(l, m);
    assert a + c - (b + d) == (k + l) * m;
    Witness(a + c, b + d, k + l, m);
  }

  lemma Scaled(a: int, b: int, c: int, m: int)
    requires m > 0 && Congruent(a, b, m)
    ensures Congruent(a * c, b * c, m)
  {
    var k :| a - b == Times(k, m);
    assert a * c - b * c == (a - b) * c == (k * m) * c == (k * c) * m;
    Witness(a * c, b * c, k * c, m);
  }

  lemma Product(a: int, b: int, c: int, d: int, m: int)
    requires m > 0 && Congruent(a, b, m) && Congruent(c, d, m)
    ensures Congruent(a * c, b * d, m)
  {
    Scaled(a, b, c, m);
    Scaled(c, d, b, m);
    assert c * b == b * c && d * b == b * d;
    Transitive(a * c, b * c, b * d, m);
  }

  lemma MultipleIsLarge(k: int, m: int)
    requires m > 0
    ensures k >= 1 ==> k * m >= m
    ensures k <= -1 ==> k * m <= -m
  {
  }

  lemma Remainder(a: int, m: int)
    requires m > 0
    ensures Congruent(a, a % m, m)
  {
    assert a - a % m == (a / m) * m;
    Witness(a, a % m, a / m, m);
  }

  lemma SameRemainder(a: int, b: int, m: int)
    requires m > 0
    ensures Congruent(a, b, m) <==> a % m == b % m
  {
    Remainder(a, m);
    Remainder(b, m);
    if Congruent(a, b, m) {
      Symmetric(a, a % m, m);
      Transitive(a % m, a, b, m);
      Transitive(a % m, b, b % m, m);
      var k :| a % m - b % m == Times(k, m);
      MultipleIsLarge(k, m);
    }
    if a % m == b % m {
      Symmetric(b, b % m, m);
      Transitive(a, a % m, b, m);
    }
  }

  function Pow(b: int, e: nat): int {
    if e == 0 then 1 else b * Pow(b, e - 1)
  }

  lemma {:induction false} PowCongruent(a: int, b: int, e: nat, m: int)
    requires m > 0 && Congruent(a, b, m)
    ensures Congruent(Pow(a, e), Pow(b, e), m)
  {
    if e == 0 {
      Reflexive(1, m);
    } else {
      PowCongruent(a, b, e - 1, m);
      Product(a, b, Pow(a, e - 1), Pow(b, e - 1), m);
    }
  }

  lemma {:induction false} PowSum(b: int, d: nat, e: nat)
    ensures Pow(b, d + e) == Pow(b, d) * Pow(b, e)
  {
    if d > 0 {
      PowSum(b, d - 1, e);
      assert b * (Pow(b, d - 1) * Pow(b, e)) == (b * Pow(b, d - 1)) * Pow(b, e);
    }
  }

  lemma {:induction false} PowPow(b: int, d: nat, e: nat)
    ensures d * e >= 0 && Pow(Pow(b, d), e) == Pow(b, d * e)
  {
    if e == 0 {
      assert d * e == 0;
    } else {
      PowPow(b, d, e - 1);
      assert d * e == d + d * (e - 1);
      PowSum(b, d, d * (e - 1));
    }
  }

  lemma {:induction false} PowOfOne(e: nat)
    ensures Pow(1, e) == 1
  {
    if e > 0 {
      PowOfOne(e - 1);
    }
  }

  ghost predicate Prime(p: int) {
    p > 1 && forall k :: 1 < k < p ==> p % k != 0
  }

  /** A prime that divides a product with a smaller factor divides the other factor. */
  lemma {:induction false} Euclid(k: int, n: int, p: int)
    requires Prime(p) && 0 < k < p && Congruent(k * n, 0, p)
    ensures Congruent(n, 0, p)
    decreases k
  {
    if k == 1 {
      assert k * n == n;
    } else {
      var r := p % k;
      assert 0 < r < k;
      Scaled(k * n, 0, -(p / k), p);
      Witness(n * p, 0, n, p);
      Sum(n * p, 0, k * n * -(p / k), 0, p);
      assert p == k * (p / k) + r;
      assert n * p + k * n * -(p / k) == r * n by {
        assert n * p == n * (k * (p / k)) + n * r;
        assert k * n * -(p / k) == -(n * (k * (p / k)));
      }
      Euclid(r, n, p);
    }
  }

  /** Pascal's triangle. */
  function Choose(n: nat, k: nat): nat {
    if k == 0 then 1
    else if n == 0 then 0
    else Choose(n - 1, k - 1) + Choose(n - 1, k)
  }

  lemma {:induction false} ChooseTooMany(n: nat, k: nat)
    requires k > n
    ensures Choose(n, k) == 0
  {
    if n > 0 {
      ChooseTooMany(n - 1, k - 1);
      ChooseTooMany(n - 1, k);
    }
  }

  lemma {:induction false} ChooseAll(n: nat)
    ensures Choose(n, n) == 1
  {
    if n > 0 {
      ChooseAll(n - 1);
      ChooseTooMany(n - 1, n);
    }
  }

  lemma AbsorptionStep(n: int, k: int, c: int, d: int, e: int, f: int)
    requires c == e + f && k * d == (n - 1) * f && (k - 1) * c == (n - 1) * e
    ensures k * (c + d) == n * c
  {
    assert k * (c + d) == (k - 1) * c + c + k * d;
    assert (n - 1) * e + (n - 1) * f == (n - 1) * c;
  }

  lemma {:induction false} Absorption(n: nat, k: nat)
    requires n > 0 && k > 0
    ensures k * Choose(n, k) == n * Choose(n - 1, k - 1)
    decreases n
  {
    var c, d := Choose(n - 1, k - 1), Choose(n - 1, k);
    if n == 1 {
      assert d == 0;
      assert k > 1 ==> c == 0;
    } else {
      Absorption(n - 1, k);
      var f := Choose(n - 2, k - 1);
      if k == 1 {
        AbsorptionStep(n, k, c, d, 0, f);
      } else {
        Absorption(n - 1, k - 1);
        AbsorptionStep(n, k, c, d, Choose(n - 2, k - 2), f);
      }
    }
  }

  lemma PrimeDividesChoose(p: nat, k: nat)
    requires Prime(p) && 0 < k < p
    ensures Congruent(Choose(p, k), 0, p)
  {
    hide Congruent, Choose, Prime;
    Absorption(p, k);
    var c := Choose(p - 1, k - 1);
    assert p * c == c * p;
    Witness(k * Choose(p, k), 0, c, p);
    Euclid(k, Choose(p, k), p);
  }

  /** The first `k` terms of the expansion of (a + 1) to the power of `n`. */
  function Expansion(n: nat, a: int, k: nat): int {
    if k == 0 then 0 else Expansion(n, a, k - 1) + Choose(n, k - 1) * Pow(a, k - 1)
  }

  lemma Distribute(x: int, y: int, a: int, b: int, c: int, p: int)
    ensures b + a * c + (x + y) * (a * p) == b + y * (a * p) + a * (c + x * p)
  {
    assert (x + y) * (a * p) == x * (a * p) + y * (a * p);
    assert x * (a * p) == a * (x * p);
    assert a * (c + x * p) == a * c + a * (x * p);
  }

  lemma {:induction false} ExpansionStep(n: nat, a: int, k: nat)
    ensures Expansion(n + 1, a, k + 1) == Expansion(n, a, k + 1) + a * Expansion(n, a, k)
  {
    if k == 0 {
      assert Expansion(n + 1, a, 1) == Expansion(n + 1, a, 0) + Choose(n + 1, 0) * Pow(a, 0);
      assert Expansion(n, a, 1) == Expansion(n, a, 0) + Choose(n, 0) * Pow(a, 0);
    } else {
      ExpansionStep(n, a, k - 1);
      Distribute(Choose(n, k - 1), Choose(n, k), a, Expansion(n, a, k), Expansion(n, a, k - 1), Pow(a, k - 1));
    }
  }

  lemma Successor(a: int, x: int)
    ensures (a + 1) * x == x + a * x
  {
  }

  lemma TermVanishes(n: nat, a: int, k: nat)
    requires Choose(n, k) == 0
    ensures Expansion(n, a, k + 1) == Expansion(n, a, k)
  {
    hide Choose, Pow;
    assert 0 * Pow(a, k) == 0;
  }

  lemma {:induction false} Binomial(n: nat, a: int)
    ensures Expansion(n, a, n + 1) == Pow(a + 1, n)
  {
    if n == 0 {
      assert Expansion(0, a, 1) == Expansion(0, a, 0) + Choose(0, 0) * Pow(a, 0);
    } else {
      hide Choose, Expansion;
      Binomial(n - 1, a);
      ExpansionStep(n - 1, a, n);
      ChooseTooMany(n - 1, n);
      TermVanishes(n - 1, a, n);
      Successor(a, Pow(a + 1, n - 1));
    }
  }

  /** Modulo a prime, all but the outer terms of the expansion vanish. */
  lemma {:induction false} InnerTerms(p: nat, a: int, k: nat)
    requires Prime(p) && 0 < k <= p
    ensures Congruent(Expansion(p, a, k), 1, p)
  {
    if k == 1 {
      assert Expansion(p, a, 1) == Expansion(p, a, 0) + Choose(p, 0) * Pow(a, 0);
      Reflexive(1, p);
    } else {
      InnerTerms(p, a, k - 1);
      PrimeDividesChoose(p, k - 1);
      Scaled(Choose(p, k - 1), 0, Pow(a, k - 1), p);
      Sum(Expansion(p, a, k - 1), 1, Choose(p, k - 1) * Pow(a, k - 1), 0, p);
    }
  }

  lemma {:induction false} FermatPower(a: nat, p: nat)
    requires Prime(p)
    ensures Congruent(Pow(a, p), a, p)
  {
    if a == 0 {
      assert Pow(0, p) == 0 * Pow(0, p - 1) == 0;
      Reflexive(0, p);
    } else {
      FermatPower(a - 1, p);
      InnerTerms(p, a - 1, p);
      Binomial(p, a - 1);
      ChooseAll(p);
      assert Pow(a, p) == Expansion(p, a - 1, p) + 1 * Pow(a - 1, p);
      Sum(Expansion(p, a - 1, p), 1, Pow(a - 1, p), a - 1, p);
    }
  }

  /** Fermat's little theorem. */
  lemma Fermat(a: nat, p: nat)
    requires Prime(p) && a % p != 0
    ensures Congruent(Pow(a, p - 1), 1, p)
  {
    var r := a % p;
    FermatPower(r, p);
    var n := Pow(r, p - 1);
    Reflexive(-r, p);
    Sum(Pow(r, p), r, -r, -r, p);
    assert Pow(r, p) - r == r * n - r == r * (n - 1);
    Euclid(r, n - 1, p);
    Reflexive(1, p);
    Sum(n - 1, 0, 1, 1, p);
    Remainder(a, p);
    PowCongruent(a, r, p - 1, p);
    Transitive(Pow(a, p - 1), n, 1, p);
  }
}
