/** The numbers of an exported RSA private key. */
module RsaDer {
  import opened Primitives
  import opened Residues

  /** The result of big-integer arithmetic, which panics where it is not defined. */
  datatype Checked<+T> = Panic | Value(value: T) {
    predicate IsFailure() {
      Panic?
    }

    function PropagateFailure<U>(): Checked<U>
      requires Panic?
    {
      Panic
    }

    function Extract(): T
      requires Value?
    {
      value
    }
  }

  /** `BigUint::sub`, which cannot go below zero. */
  function Minus(a: nat, b: nat): Checked<nat> {
    if a < b then Panic else Value(a - b)
  }

  function Over(a: nat, b: nat): Checked<nat> {
    if b == 0 then Panic else Value(a / b)
  }

  function Modulo(a: nat, b: nat): Checked<nat> {
    if b == 0 then Panic else Value(a % b)
  }

  /** The integers `rsa_private` writes, in order. */
  function RsaPrivate(n: nat, e: nat, d: nat, p: nat, q: nat, u: nat): Checked<seq<nat>> {
    Nonnegative(u, p);
    var up :- Minus(u * p, 1);
    var k :- Over(up, q);
    var minusK :- Modulo(k, p);
    var difference :- Minus(p, minusK);
    var coeff :- Modulo(difference, p);
    var pLess :- Minus(p, 1);
    var e1 :- Modulo(d, pLess);
    var qLess :- Minus(q, 1);
    var e2 :- Modulo(d, qLess);
    Value([0, n, e, d, p, q, e1, e2, coeff])
  }

  lemma Nonnegative(a: nat, b: nat)
    ensures a * b >= 0
    ensures a * b > 0 <==> a > 0 && b > 0
  {
  }

  /** The coefficient, where nothing panics. */
  function Coefficient(p: nat, q: nat, u: nat): (c: nat)
    requires p > 0 && q > 0 && u * p > 0
    ensures c < p
  {
    var minusK := ((u * p - 1) / q) % p;
    (p - minusK) % p
  }

  /** When exactly the export panics, and what it writes if it does not. */
  lemma ExportPanics(n: nat, e: nat, d: nat, p: nat, q: nat, u: nat)
    ensures RsaPrivate(n, e, d, p, q, u).Panic? <==> u == 0 || p <= 1 || q <= 1
    ensures u > 0 && p > 1 && q > 1 ==>
      && u * p > 0
      && RsaPrivate(n, e, d, p, q, u)
         == Value([0, n, e, d, p, q, d % (p - 1), d % (q - 1), Coefficient(p, q, u)])
  {
    Nonnegative(u, p);
    if u > 0 && p > 0 && q > 0 {
      var k := (u * p - 1) / q;
      Division(u * p - 1, q);
      assert k % p < p;
    }
  }

  lemma Division(a: nat, b: nat)
    requires b > 0
    ensures a / b >= 0
  {
  }

  /** `a` and `b` cancel modulo `m`. */
  predicate Inverse(a: nat, b: nat, m: nat) {
    m > 1 && (a * b) % m == 1
  }

  lemma InverseIsCongruent(a: nat, b: nat, m: nat)
    requires Inverse(a, b, m)
    ensures Congruent(a * b, 1, m)
  {
    SameRemainder(a * b, 1, m);
  }

  lemma CongruentIsInverse(a: nat, b: nat, m: nat)
    requires m > 1 && Congruent(a * b, 1, m)
    ensures Inverse(a, b, m)
  {
    SameRemainder(a * b, 1, m);
  }

  lemma NegatedRemainder(k: int, p: nat)
    requires p > 0
    ensures Congruent((p - k % p) % p, -k, p)
  {
    hide Congruent;
    var r := k % p;
    Remainder(p - r, p);
    Symmetric(p - r, (p - r) % p, p);
    Remainder(k, p);
    var t := k / p;
    assert k == t * p + r;
    assert (p - r) - -k == (t + 1) * p;
    Witness(p - r, -k, t + 1, p);
    Transitive((p - r) % p, p - r, -k, p);
  }

  lemma Moved(a: int, q: int, k: int, r: int)
    requires a - 1 == q * k + r
    ensures -k * q - (1 + r) == -a
  {
    assert -k * q == -(q * k);
  }

  /** Modulo `p`, the coefficient undoes `q` up to the remainder that the division drops. */
  lemma CoefficientTimesQ(p: nat, q: nat, u: nat)
    requires p > 1 && q > 1 && u * p > 0
    ensures Congruent(q * Coefficient(p, q, u), 1 + (u * p - 1) % q, p)
  {
    hide Congruent;
    var a := u * p;
    var k, r, c := (a - 1) / q, (a - 1) % q, Coefficient(p, q, u);
    NegatedRemainder(k, p);
    Scaled(c, -k, q, p);
    Moved(a, q, k, r);
    var minusU := 0 - u;
    assert -a == minusU * p;
    Witness(-k * q, 1 + r, minusU, p);
    assert c * q == q * c;
    Transitive(q * c, -k * q, 1 + r, p);
  }

  lemma OneLess(a: nat, q: nat)
    requires q > 1 && a % q == 1
    ensures a > 0 && (a - 1) % q == 0
  {
    hide Congruent;
    Remainder(a, q);
    Reflexive(-1, q);
    Sum(a, 1, -1, -1, q);
    SameRemainder(a - 1, 0, q);
  }

  /** For an OpenPGP `u`, the division is exact and the coefficient is the inverse of `q`. */
  lemma CoefficientInverts(p: nat, q: nat, u: nat)
    requires p > 1 && Inverse(u, p, q)
    ensures u * p > 0 && (u * p - 1) % q == 0
    ensures Coefficient(p, q, u) < p && Inverse(q, Coefficient(p, q, u), p)
  {
    hide Congruent, Coefficient;
    OneLess(u * p, q);
    hide Inverse;
    CoefficientTimesQ(p, q, u);
    CongruentIsInverse(q, Coefficient(p, q, u), p);
  }

  /** For an arbitrary `u`: when exactly the coefficient is the inverse of `q`. */
  lemma WhenCoefficientInverts(p: nat, q: nat, u: nat)
    requires p > 1 && q > 1 && u * p > 0
    ensures Inverse(q, Coefficient(p, q, u), p) <==> ((u * p - 1) % q) % p == 0
  {
    hide Congruent, Coefficient;
    var r := (u * p - 1) % q;
    CoefficientTimesQ(p, q, u);
    SameRemainder(q * Coefficient(p, q, u), 1 + r, p);
    OneMore(r, p);
  }

  lemma OneMore(r: nat, p: nat)
    requires p > 1
    ensures (1 + r) % p == 1 <==> r % p == 0
  {
    hide Congruent;
    SameRemainder(1 + r, 1, p);
    SameRemainder(r, 0, p);
    if Congruent(1 + r, 1, p) {
      Reflexive(-1, p);
      Sum(1 + r, 1, -1, -1, p);
    }
    if Congruent(r, 0, p) {
      Reflexive(1, p);
      Sum(r, 0, 1, 1, p);
    }
  }

  /** Step 2.b of section 5.1.2 of RFC 8017: two residues are recombined. */
  function Recombine(m1: nat, m2: nat, p: nat, q: nat, c: nat): int
    requires p > 0
  {
    m2 + q * (((m1 - m2) * c) % p)
  }

  lemma ProductBounds(x: nat, y: nat, p: nat, q: nat)
    requires x < q && y < p
    ensures 0 <= x + q * y < p * q
  {
    assert q * y <= q * (p - 1);
  }

  lemma DivisibleQuotient(t: int, p: nat, q: nat, c: nat)
    requires p > 0 && Congruent(t * q, 0, p) && Congruent(q * c, 1, p)
    ensures Congruent(t, 0, p)
  {
    hide Congruent;
    Scaled(t * q, 0, c, p);
    Scaled(q * c, 1, t, p);
    assert t * q * c == q * c * t;
    Symmetric(q * c * t, t, p);
    Transitive(t, q * c * t, 0, p);
  }

  lemma Difference(x: int, y: int, p: nat)
    requires p > 0 && Congruent(x, y, p)
    ensures Congruent(x - y, 0, p)
  {
    hide Congruent;
    Reflexive(-y, p);
    Sum(x, y, -y, -y, p);
  }

  lemma Quotient(x: int, p: nat) returns (k: int)
    requires p > 0 && Congruent(x, 0, p)
    ensures x == k * p
  {
    k :| x - 0 == Times(k, p);
  }

  lemma Associate(s: int, p: int, q: int)
    ensures (s * p) * q == s * (p * q)
  {
  }

  /** A number below `n == p * q` is fixed by its residues if `q` has an inverse modulo `p`. */
  lemma ResiduesAreUnique(x: int, y: int, p: nat, q: nat, n: nat, c: nat)
    requires p > 1 && q > 1 && n == p * q && Congruent(q * c, 1, p)
    requires 0 <= x < n && 0 <= y < n
    requires Congruent(x, y, p) && Congruent(x, y, q)
    ensures x == y
  {
    hide Congruent;
    Difference(x, y, p);
    Difference(x, y, q);
    var t := Quotient(x - y, q);
    DivisibleQuotient(t, p, q, c);
    var s := Quotient(t, p);
    Associate(s, p, q);
    MultipleIsLarge(s, n);
  }

  /** The coefficient recovers every number below `n == p * q` from its residues. */
  lemma RecombineRecovers(x: nat, p: nat, q: nat, n: nat, c: nat)
    requires p > 1 && q > 1 && x < n == p * q && Congruent(q * c, 1, p)
    ensures Recombine(x % p, x % q, p, q, c) == x
  {
    hide Congruent, Recombine;
    RecombineBounds(x, p, q, n, c);
    RecombineModP(x, p, q, c);
    RecombineModQ(x, p, q, c);
    ResiduesAreUnique(x, Recombine(x % p, x % q, p, q, c), p, q, n, c);
  }

  lemma RecombineBounds(x: nat, p: nat, q: nat, n: nat, c: nat)
    requires p > 1 && q > 1 && n == p * q
    ensures 0 <= Recombine(x % p, x % q, p, q, c) < n
  {
    ProductBounds(x % q, ((x % p - x % q) * c) % p, p, q);
  }

  lemma RecombineModP(x: nat, p: nat, q: nat, c: nat)
    requires p > 1 && q > 1 && Congruent(q * c, 1, p)
    ensures Congruent(x, Recombine(x % p, x % q, p, q, c), p)
  {
    hide Congruent;
    var m1, m2 := x % p, x % q;
    RecombinedModP(m1, m2, p, q, c);
    var y := Recombine(m1, m2, p, q, c);
    hide Recombine;
    Remainder(x, p);
    Symmetric(y, m1, p);
    Transitive(x, m1, y, p);
  }

  lemma RecombineModQ(x: nat, p: nat, q: nat, c: nat)
    requires p > 1 && q > 1
    ensures Congruent(x, Recombine(x % p, x % q, p, q, c), q)
  {
    hide Congruent;
    var m1, m2 := x % p, x % q;
    RecombinedModQ(m2, ((m1 - m2) * c) % p, q);
    var y := Recombine(m1, m2, p, q, c);
    Remainder(x, q);
    Symmetric(y, m2, q);
    Transitive(x, m2, y, q);
  }

  lemma RecombinedModQ(m2: int, h: int, q: nat)
    requires q > 0
    ensures Congruent(m2 + q * h, m2, q)
  {
    Witness(m2 + q * h, m2, h, q);
  }

  lemma RecombinedModP(m1: int, m2: int, p: nat, q: nat, c: nat)
    requires p > 0 && Congruent(q * c, 1, p)
    ensures Congruent(m2 + q * (((m1 - m2) * c) % p), m1, p)
  {
    var g := m1 - m2;
    Remainder(g * c, p);
    Symmetric(g * c, (g * c) % p, p);
    Scaled((g * c) % p, g * c, q, p);
    Scaled(q * c, 1, g, p);
    assert (g * c) * q == q * c * g;
    Transitive(((g * c) % p) * q, q * c * g, 1 * g, p);
    Reflexive(m2, p);
    Sum(m2, m2, ((g * c) % p) * q, g, p);
    assert m2 + ((g * c) % p) * q == m2 + q * ((g * c) % p);
  }

  /** Modulo a prime, an exponent may be reduced; but not to zero, since zero to the power of
      zero is one. */
  lemma ExponentReduces(d: nat, p: nat)
    requires Prime(p)
    ensures (forall x: nat :: Congruent(Pow(x, d % (p - 1)), Pow(x, d), p)) <==> d == 0 || d % (p - 1) != 0
  {
    if d == 0 || d % (p - 1) != 0 {
      forall x: nat
        ensures Congruent(Pow(x, d % (p - 1)), Pow(x, d), p)
      {
        PowReduces(x, d, p);
      }
    } else {
      assert Pow(0, 0) == 1 && Pow(0, d) == 0 * Pow(0, d - 1) == 0;
      SameRemainder(1, 0, p);
      assert !Congruent(Pow(0, d % (p - 1)), Pow(0, d), p);
    }
  }

  lemma PowReduces(x: nat, d: nat, p: nat)
    requires Prime(p) && (d == 0 || d % (p - 1) != 0)
    ensures Congruent(Pow(x, d % (p - 1)), Pow(x, d), p)
  {
    hide Congruent, Pow;
    var r := d % (p - 1);
    hide Prime;
    if d == 0 {
      assert r == 0;
      Reflexive(Pow(x, 0), p);
    } else if x % p == 0 {
      ZeroPow(x, r, p);
      ZeroPow(x, d, p);
      Symmetric(Pow(x, d), 0, p);
      Transitive(Pow(x, r), 0, Pow(x, d), p);
    } else {
      FullTurns(x, d, p);
      Symmetric(Pow(x, d), Pow(x, r), p);
    }
  }

  lemma ZeroPow(x: nat, e: nat, p: nat)
    requires p > 0 && x % p == 0 && e > 0
    ensures Congruent(Pow(x, e), 0, p)
  {
    SameRemainder(x, 0, p);
    Scaled(x, 0, Pow(x, e - 1), p);
  }

  lemma WholeTurns(x: nat, p: nat, k: nat, w: nat)
    requires Prime(p) && x % p != 0 && w == (p - 1) * k
    ensures Congruent(Pow(x, w), 1, p)
  {
    hide Congruent, Pow;
    PowPow(x, p - 1, k);
    Fermat(x, p);
    PowCongruent(Pow(x, p - 1), 1, k, p);
    PowOfOne(k);
  }

  lemma TurnsBy(x: nat, d: nat, r: nat, w: nat, p: nat)
    requires p > 0 && d == r + w && Congruent(Pow(x, w), 1, p)
    ensures Congruent(Pow(x, d), Pow(x, r), p)
  {
    hide Congruent, Pow;
    PowSum(x, r, w);
    Reflexive(Pow(x, r), p);
    Product(Pow(x, r), Pow(x, r), Pow(x, w), 1, p);
  }

  /** By Fermat, multiples of `p - 1` in the exponent change nothing. */
  lemma FullTurns(x: nat, d: nat, p: nat)
    requires Prime(p) && x % p != 0
    ensures Congruent(Pow(x, d), Pow(x, d % (p - 1)), p)
  {
    hide Congruent, Pow;
    var r, k := d % (p - 1), d / (p - 1);
    var w := (p - 1) * k;
    assert d == r + w;
    MultipleIsLarge(k, p - 1);
    WholeTurns(x, p, k, w);
    TurnsBy(x, d, r, w, p);
  }

  /** The numbers of a key, in the order in which they are written. */
  predicate IsKey(key: seq<nat>) {
    |key| == 9 && key[4] > 0 && key[5] > 0
  }

  /** Decryption with the exported numbers (section 5.1.2 of RFC 8017). */
  function Decrypt(key: seq<nat>, x: nat): int
    requires IsKey(key)
  {
    var (p, q) := (key[4], key[5]);
    Recombine(Residue(x, key[6], p), Residue(x, key[7], q), p, q, key[8])
  }

  function Residue(x: nat, e: nat, m: nat): (r: nat)
    requires m > 0
    ensures r < m
  {
    Pow(x, e) % m
  }

  /** Neither exponent is reduced to zero, unless it is zero anyway. */
  predicate ExponentsStay(d: nat, p: nat, q: nat)
    requires p > 1 && q > 1
  {
    d == 0 || (d % (p - 1) != 0 && d % (q - 1) != 0)
  }

  /** The exported numbers compute what the private exponent computes, for every number, if and
      only if neither exponent is reduced to zero. */
  lemma ExportedKeyDecrypts(n: nat, e: nat, d: nat, p: nat, q: nat, u: nat, key: seq<nat>)
    requires Prime(p) && Prime(q) && Inverse(u, p, q)
    requires RsaPrivate(n, e, d, p, q, u) == Value(key)
    ensures IsKey(key) && p * q > 0
    ensures (forall x: nat :: Decrypt(key, x) == Residue(x, d, p * q)) <==> ExponentsStay(d, p, q)
  {
    hide Decrypt, RsaPrivate, Coefficient, Congruent, Residue, Recombine, Prime, Inverse;
    PrimeIsLarge(p);
    PrimeIsLarge(q);
    MultipleIsLarge(p, q);
    var c := Exported(n, e, d, p, q, u);
    InverseIsCongruent(q, c, p);
    if ExponentsStay(d, p, q) {
      forall x: nat
        ensures Decrypt(key, x) == Residue(x, d, p * q)
      {
        ByRemainders(x, d, p, q, p * q, c);
        DecryptedBy(n, e, d, p, q, d % (p - 1), d % (q - 1), c, x);
      }
    } else {
      ZeroIsNotDecrypted(d, d % (p - 1), d % (q - 1), p, q, p * q, c);
      DecryptedBy(n, e, d, p, q, d % (p - 1), d % (q - 1), c, 0);
      assert Decrypt(key, 0) != Residue(0, d, p * q);
    }
  }

  /** Zero to the power of zero is one. */
  lemma ZeroIsNotDecrypted(d: nat, e1: nat, e2: nat, p: nat, q: nat, n: nat, c: nat)
    requires p > 1 && q > 1 && n > 0 && Congruent(q * c, 1, p)
    requires d > 0 && (e1 == 0 || e2 == 0)
    ensures Recombine(Residue(0, e1, p), Residue(0, e2, q), p, q, c) != Residue(0, d, n)
  {
    hide Congruent, Recombine, Pow, Residue;
    ResidueOfZero(d, n);
    ResidueOfZero(e1, p);
    ResidueOfZero(e2, q);
    if e1 == 0 {
      FirstResidueOne(Residue(0, e2, q), p, q, c);
    } else {
      SecondResidueOne(Residue(0, e1, p), p, q, c);
    }
  }

  lemma ResidueOfZero(e: nat, m: nat)
    requires m > 0
    ensures e > 0 ==> Residue(0, e, m) == 0
    ensures e == 0 && m > 1 ==> Residue(0, e, m) == 1
  {
    if e > 0 {
      assert 0 * Pow(0, e - 1) == 0;
    }
  }

  lemma FirstResidueOne(m2: nat, p: nat, q: nat, c: nat)
    requires p > 1 && Congruent(q * c, 1, p)
    ensures Recombine(1, m2, p, q, c) != 0
  {
    RecombinedModP(1, m2, p, q, c);
    SameRemainder(0, 1, p);
  }

  lemma SecondResidueOne(m1: nat, p: nat, q: nat, c: nat)
    requires p > 0
    ensures Recombine(m1, 1, p, q, c) != 0
  {
    Nonnegative(q, ((m1 - 1) * c) % p);
  }

  lemma Exported(n: nat, e: nat, d: nat, p: nat, q: nat, u: nat) returns (c: nat)
    requires p > 1 && q > 1 && Inverse(u, p, q)
    ensures RsaPrivate(n, e, d, p, q, u) == Value([0, n, e, d, p, q, d % (p - 1), d % (q - 1), c])
    ensures Inverse(q, c, p)
  {
    hide RsaPrivate, Coefficient, Inverse;
    CoefficientInverts(p, q, u);
    c := Coefficient(p, q, u);
    Nonnegative(u, p);
    ExportPanics(n, e, d, p, q, u);
  }

  lemma DecryptedBy(n: nat, e: nat, d: nat, p: nat, q: nat, e1: nat, e2: nat, c: nat, x: nat)
    requires p > 0 && q > 0
    ensures Decrypt([0, n, e, d, p, q, e1, e2, c], x) == Recombine(Residue(x, e1, p), Residue(x, e2, q), p, q, c)
  {
    hide Recombine, Residue;
  }

  lemma ByRemainders(x: nat, d: nat, p: nat, q: nat, n: nat, c: nat)
    requires Prime(p) && Prime(q) && 0 < n == p * q && Congruent(q * c, 1, p)
    requires ExponentsStay(d, p, q)
    ensures Recombine(Residue(x, d % (p - 1), p), Residue(x, d % (q - 1), q), p, q, c) == Residue(x, d, n)
  {
    PrimeIsLarge(p);
    PrimeIsLarge(q);
    hide Recombine, Congruent, Pow, Prime;
    SameResidue(x, d, p, q, n);
    SameResidue(x, d, q, p, n);
    RecombineRecovers(Residue(x, d, n), p, q, n, c);
  }

  lemma PrimeIsLarge(p: nat)
    requires Prime(p)
    ensures p > 1
  {
  }

  /** Reducing the exponent, and the result modulo a multiple first, changes no residue. */
  lemma SameResidue(x: nat, d: nat, p: nat, q: nat, n: nat)
    requires Prime(p) && q > 0 && n > 0 && (n == p * q || n == q * p)
    requires d == 0 || d % (p - 1) != 0
    ensures Residue(x, d % (p - 1), p) == Residue(x, d, n) % p
  {
    hide Congruent, Pow;
    PowReduces(x, d, p);
    Remainder(Pow(x, d), n);
    CongruentFactor(Pow(x, d), Residue(x, d, n), p, q, n);
    Transitive(Pow(x, d % (p - 1)), Pow(x, d), Residue(x, d, n), p);
    SameRemainder(Pow(x, d % (p - 1)), Residue(x, d, n), p);
  }

  /** The exported key decrypts what was encrypted with the public key. */
  lemma DecryptsEncrypted(e: nat, d: nat, p: nat, q: nat, u: nat, m: nat)
    requires Prime(p) && Prime(q) && Inverse(u, p, q)
    requires Inverse(e, d, p - 1) && Inverse(e, d, q - 1)
    requires m < p * q
    ensures RsaPrivate(p * q, e, d, p, q, u).Value? && IsKey(RsaPrivate(p * q, e, d, p, q, u).value)
    ensures Decrypt(RsaPrivate(p * q, e, d, p, q, u).value, Residue(m, e, p * q)) == m
  {
    PrimeIsLarge(p);
    PrimeIsLarge(q);
    hide Decrypt, Residue, RsaPrivate, Prime, Coefficient, Inverse;
    InverseIsNoMultiple(e, d, p - 1);
    InverseIsNoMultiple(e, d, q - 1);
    var _ := Exported(p * q, e, d, p, q, u);
    ExportedKeyDecrypts(p * q, e, d, p, q, u, RsaPrivate(p * q, e, d, p, q, u).value);
    CoefficientInverts(p, q, u);
    RoundTrip(m, e, d, p, q, p * q, Coefficient(p, q, u));
  }

  lemma InverseIsNoMultiple(e: nat, d: nat, m: nat)
    requires Inverse(e, d, m)
    ensures m > 1 && d % m != 0
  {
    if d % m == 0 {
      SameRemainder(d, 0, m);
      Scaled(d, 0, e, m);
      assert d * e == e * d;
      SameRemainder(e * d, 0, m);
    }
  }

  /** Modulo a prime, the exponents cancel. */
  lemma ExponentsCancel(m: nat, ed: nat, p: nat)
    requires Prime(p) && p > 2 && ed % (p - 1) == 1
    ensures Congruent(m, Pow(m, ed), p)
  {
    PowReduces(m, ed, p);
    assert Pow(m, 1) == m * Pow(m, 0) == m;
  }

  lemma RaisedTwice(m: nat, e: nat, d: nat, ed: nat, n: nat)
    requires n > 0 && ed == e * d
    ensures Congruent(Pow(m, ed), Residue(Residue(m, e, n), d, n), n)
  {
    hide Congruent, Pow;
    var x := Residue(m, e, n);
    Remainder(Pow(m, e), n);
    PowCongruent(Pow(m, e), x, d, n);
    PowPow(m, e, d);
    Remainder(Pow(x, d), n);
    Transitive(Pow(m, ed), Pow(x, d), Residue(x, d, n), n);
  }

  lemma RestoredModPrime(m: nat, y: nat, ed: nat, p: nat, q: nat, n: nat)
    requires Prime(p) && p > 2 && ed % (p - 1) == 1
    requires q > 0 && n > 0 && (n == p * q || n == q * p) && Congruent(Pow(m, ed), y, n)
    ensures Congruent(m, y, p)
  {
    hide Congruent, Pow;
    CongruentFactor(Pow(m, ed), y, p, q, n);
    ExponentsCancel(m, ed, p);
    Transitive(m, Pow(m, ed), y, p);
  }

  lemma RoundTrip(m: nat, e: nat, d: nat, p: nat, q: nat, n: nat, c: nat)
    requires Prime(p) && Prime(q) && Inverse(q, c, p)
    requires Inverse(e, d, p - 1) && Inverse(e, d, q - 1)
    requires m < n == p * q
    ensures Residue(Residue(m, e, n), d, n) == m
  {
    hide Congruent, Pow, Prime, Residue;
    var y := Residue(Residue(m, e, n), d, n);
    RaisedTwice(m, e, d, e * d, n);
    RestoredModPrime(m, y, e * d, p, q, n);
    RestoredModPrime(m, y, e * d, q, p, n);
    InverseIsCongruent(q, c, p);
    hide Inverse;
    ResiduesAreUnique(m, y, p, q, n, c);
  }

  lemma CongruentFactor(a: int, b: int, p: nat, q: nat, n: nat)
    requires p > 0 && q > 0 && n > 0 && (n == p * q || n == q * p) && Congruent(a, b, n)
    ensures Congruent(a, b, p)
  {
    var k :| a - b == Times(k, n);
    Associate(k, q, p);
    assert q * p == p * q;
    Witness(a, b, k * q, p);
  }
}
