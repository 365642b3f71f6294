/**
  The number theory behind square roots modulo a prime p with p % 4 == 3:
  Euclid's lemma, Fermat's little theorem and Euler's criterion.
 */
module NumberTheory {

  ghost predicate Divides(d: int, n: int) {
    d != 0 && n % d == 0
  }

  ghost predicate IsPrime(p: int) {
    2 <= p && forall d :: 2 <= d < p ==> !Divides(d, p)
  }

  ghost predicate Congruent(a: int, b: int, m: int) {
    m > 0 && a % m == b % m
  }

  function Pow(b: int, e: nat): int {
    if e == 0 then 1 else b * Pow(b, e - 1)
  }

  /** Python's three-argument pow(b, e, m) for a positive modulus. */
  function PowMod(b: int, e: nat, m: nat): (r: nat)
    requires m > 0
    ensures r < m
  {
    Pow(b, e) % m
  }

  // ----- Arithmetic modulo m

  lemma SmallMultiple(d: int, m: int)
    requires -m < d * m < m
    ensures d == 0
  {
  }

  lemma ModUnique(a: int, m: int, q: int, r: int)
    requires 0 <= r < m && a == q * m + r
    ensures a % m == r
  {
    var d := q - a / m;
    assert d * m == a % m - r by {
      assert a == (a / m) * m + a % m;
      assert d * m == q * m - (a / m) * m;
    }
    SmallMultiple(d, m);
  }

  /** Reduced numbers are congruent only to themselves. */
  lemma CongruentReduced(a: int, b: int, m: int)
    requires Congruent(a, b, m) && 0 <= a < m && 0 <= b < m
    ensures a == b
  {
    ModUnique(a, m, 0, a);
    ModUnique(b, m, 0, b);
  }

  lemma CongruentShift(a: int, k: int, m: int)
    requires m > 0
    ensures Congruent(a + k * m, a, m)
  {
    assert a + k * m == (a / m + k) * m + a % m by {
      assert a == (a / m) * m + a % m;
      assert (a / m + k) * m == (a / m) * m + k * m;
    }
    ModUnique(a + k * m, m, a / m + k, a % m);
  }

  lemma CongruentResidue(a: int, m: int)
    requires m > 0
    ensures Congruent(a % m, a, m)
  {
    ModUnique(a % m, m, 0, a % m);
  }

  /** Two numbers are congruent exactly when the modulus divides their difference. */
  lemma CongruentIffDivides(a: int, b: int, m: int)
    requires m > 0
    ensures Congruent(a, b, m) <==> Divides(m, a - b)
  {
    assert a == (a / m) * m + a % m && b == (b / m) * m + b % m;
    if a % m == b % m {
      assert a - b == (a / m - b / m) * m + 0 by {
        assert (a / m - b / m) * m == (a / m) * m - (b / m) * m;
      }
      ModUnique(a - b, m, a / m - b / m, 0);
    }
    if Divides(m, a - b) {
      var k := (a - b) / m;
      assert a - b == k * m;
      CongruentShift(b, k, m);
    }
  }

  lemma CongruentMulLeft(a: int, a': int, b: int, m: int)
    requires Congruent(a, a', m)
    ensures Congruent(a * b, a' * b, m)
  {
    CongruentIffDivides(a, a', m);
    var k := (a - a') / m;
    assert a == a' + k * m;
    assert a * b == a' * b + (k * b) * m by {
      assert (a' + k * m) * b == a' * b + (k * m) * b;
      assert (k * m) * b == (k * b) * m;
    }
    CongruentShift(a' * b, k * b, m);
  }

  lemma CongruentMul(a: int, a': int, b: int, b': int, m: int)
    requires Congruent(a, a', m) && Congruent(b, b', m)
    ensures Congruent(a * b, a' * b', m)
  {
    CongruentMulLeft(a, a', b, m);
    CongruentMulLeft(b, b', a', m);
    assert b * a' == a' * b && b' * a' == a' * b';
  }

  // ----- Powers

  lemma {:induction false} PowAdd(b: int, d: nat, e: nat)
    ensures Pow(b, d + e) == Pow(b, d) * Pow(b, e)
  {
    if d == 0 {
    } else {
      PowAdd(b, d - 1, e);
      assert b * (Pow(b, d - 1) * Pow(b, e)) == (b * Pow(b, d - 1)) * Pow(b, e);
    }
  }

  lemma {:induction false} PowOfSquare(b: int, e: nat)
    ensures Pow(b * b, e) == Pow(b, 2 * e)
  {
    if e == 0 {
    } else {
      PowOfSquare(b, e - 1);
      assert Pow(b, 2 * e) == b * (b * Pow(b, 2 * (e - 1)));
      assert b * (b * Pow(b, 2 * (e - 1))) == (b * b) * Pow(b, 2 * (e - 1));
    }
  }

  lemma {:induction false} PowOfZero(h: nat)
    requires h > 0
    ensures Pow(0, h) == 0
  {
  }

  lemma {:induction false} PowCongruent(a: int, b: int, e: nat, m: nat)
    requires Congruent(a, b, m)
    ensures Congruent(Pow(a, e), Pow(b, e), m)
  {
    if e == 0 {
    } else {
      hide Congruent;
      PowCongruent(a, b, e - 1, m);
      CongruentMul(a, b, Pow(a, e - 1), Pow(b, e - 1), m);
    }
  }

  lemma PowModCongruent(b: int, e: nat, m: nat)
    requires m > 0
    ensures Congruent(PowMod(b, e, m), Pow(b, e), m)
  {
    hide Pow;
    CongruentResidue(Pow(b, e), m);
  }

  // ----- Euclid's lemma

  /** A prime that divides a product divides one of its factors. */
  lemma {:induction false} EuclidReduced(p: int, a: int, b: int)
    requires IsPrime(p) && 0 < a < p && Divides(p, a * b)
    ensures Divides(p, b)
    decreases a
  {
    if a == 1 {
    } else {
      var q, r := p / a, p % a;
      assert !Divides(a, p);
      var k := (a * b) / p;
      assert r * b == (b - q * k) * p + 0 by {
        assert p == q * a + r && a * b == k * p;
        assert r * b == p * b - q * (a * b);
        assert q * (k * p) == (q * k) * p;
        assert (b - q * k) * p == b * p - (q * k) * p;
      }
      ModUnique(r * b, p, b - q * k, 0);
      EuclidReduced(p, r, b);
    }
  }

  lemma Euclid(p: int, a: int, b: int)
    requires IsPrime(p) && Divides(p, a * b)
    ensures Divides(p, a) || Divides(p, b)
  {
    if a % p != 0 {
      CongruentResidue(a, p);
      CongruentMulLeft(a % p, a, b, p);
      EuclidReduced(p, a % p, b);
    }
  }

  /** A factor that a prime does not divide cancels modulo the prime. */
  lemma Cancel(p: int, f: int, a: int, b: int)
    requires IsPrime(p) && !Divides(p, f) && Congruent(f * a, f * b, p)
    ensures Congruent(a, b, p)
  {
    hide Congruent;
    CongruentIffDivides(f * a, f * b, p);
    assert f * a - f * b == f * (a - b);
    Euclid(p, f, a - b);
    CongruentIffDivides(a, b, p);
  }

  // ----- Fermat's little theorem

  function Product(s: seq<int>): int {
    if s == [] then 1 else s[0] * Product(s[1..])
  }

  lemma {:induction false} ProductPull(s: seq<int>, i: nat)
    requires i < |s|
    ensures Product(s) == s[i] * Product(s[..i] + s[i + 1..])
  {
    var rest := s[..i] + s[i + 1..];
    if i == 0 {
      assert rest == s[1..];
    } else {
      ProductPull(s[1..], i - 1);
      assert rest[1..] == s[1..][..i - 1] + s[1..][i..];
      assert s[1..][i - 1 + 1..] == s[1..][i..];
      assert s[0] * (s[i] * Product(rest[1..])) == s[i] * (s[0] * Product(rest[1..]));
    }
  }

  lemma RemoveFromMultiset(t: seq<int>, i: nat)
    requires i < |t|
    ensures multiset(t[..i] + t[i + 1..]) == multiset(t) - multiset{t[i]}
  {
    assert t == t[..i] + [t[i]] + t[i + 1..];
  }

  lemma {:induction false} ProductOfPermutation(s: seq<int>, t: seq<int>)
    requires multiset(s) == multiset(t)
    ensures Product(s) == Product(t)
  {
    if s == [] {
      assert |multiset(t)| == 0;
    } else {
      assert s[0] in multiset(t);
      var i :| 0 <= i < |t| && t[i] == s[0];
      RemoveFromMultiset(s, 0);
      RemoveFromMultiset(t, i);
      assert s[..0] + s[1..] == s[1..];
      ProductOfPermutation(s[1..], t[..i] + t[i + 1..]);
      ProductPull(t, i);
    }
  }

  ghost predicate Distinct(s: seq<int>) {
    forall i, j :: 0 <= i < j < |s| ==> s[i] != s[j]
  }

  function Elements(s: seq<int>): set<int> {
    set x | x in s
  }

  lemma {:induction false} DistinctCount(s: seq<int>, x: int)
    requires Distinct(s)
    ensures multiset(s)[x] == if x in s then 1 else 0
  {
    if s != [] {
      assert s == [s[0]] + s[1..];
      DistinctCount(s[1..], x);
    }
  }

  lemma {:induction false} DistinctCard(s: seq<int>)
    requires Distinct(s)
    ensures |Elements(s)| == |s|
  {
    if s != [] {
      DistinctCard(s[1..]);
      assert Elements(s) == {s[0]} + Elements(s[1..]);
      assert s[0] !in Elements(s[1..]);
    }
  }

  /** The numbers 1, 2, ..., n. */
  function UpTo(n: nat): (s: seq<int>)
    ensures |s| == n && forall i :: 0 <= i < n ==> s[i] == i + 1
  {
    seq(n, i => i + 1)
  }

  lemma SubsetOfEqualSize(a: set<int>, b: set<int>)
    requires a <= b && |a| == |b|
    ensures a == b
  {
    assert b == a + (b - a);
    assert |b| == |a| + |b - a|;
  }

  /** n distinct numbers between 1 and n are a permutation of 1, ..., n. */
  lemma Pigeonhole(s: seq<int>)
    requires Distinct(s) && forall x :: x in s ==> 1 <= x <= |s|
    ensures multiset(s) == multiset(UpTo(|s|))
  {
    var all := UpTo(|s|);
    DistinctCard(s);
    DistinctCard(all);
    assert Elements(s) <= Elements(all) by {
      forall x | x in Elements(s) ensures x in Elements(all) { assert all[x - 1] == x; }
    }
    SubsetOfEqualSize(Elements(s), Elements(all));
    forall x ensures multiset(s)[x] == multiset(all)[x] {
      DistinctCount(s, x);
      DistinctCount(all, x);
      assert x in s <==> x in Elements(s);
      assert x in all <==> x in Elements(all);
    }
  }

  /** The residue of a * i modulo p, as one opaque number. */
  function Multiple(a: int, i: int, p: nat): (r: int)
    requires p > 0
    ensures 0 <= r < p
  {
    (a * i) % p
  }

  /** The residues a, 2a, ..., na modulo p. */
  function Multiples(a: int, n: nat, p: nat): (s: seq<int>)
    requires p > 0
    ensures |s| == n && forall i :: 0 <= i < n ==> s[i] == Multiple(a, i + 1, p)
  {
    seq(n, i => Multiple(a, i + 1, p))
  }

  lemma MultiplesDiffer(a: int, i: nat, j: nat, p: nat)
    requires IsPrime(p) && !Divides(p, a) && i < j < p
    ensures Multiple(a, i, p) != Multiple(a, j, p)
  {
    if Multiple(a, i, p) == Multiple(a, j, p) {
      Cancel(p, a, i, j);
      CongruentReduced(i, j, p);
    }
  }

  lemma MultiplesPermute(a: int, p: nat)
    requires IsPrime(p) && !Divides(p, a)
    ensures multiset(Multiples(a, p - 1, p)) == multiset(UpTo(p - 1))
  {
    var s := Multiples(a, p - 1, p);
    assert Multiple(a, 0, p) == 0;
    hide Multiple;
    assert Distinct(s) by {
      forall i, j | 0 <= i < j < |s| ensures s[i] != s[j] {
        MultiplesDiffer(a, i + 1, j + 1, p);
      }
    }
    forall x | x in s ensures 1 <= x <= |s| {
      var i :| 0 <= i < |s| && s[i] == x;
      MultiplesDiffer(a, 0, i + 1, p);
    }
    Pigeonhole(s);
  }

  lemma Rearrange(a: int, b: int, c: int, d: int)
    ensures (a * b) * (c * d) == (a * c) * (b * d)
  {
    assert (a * b) * (c * d) == a * (b * (c * d));
    assert b * (c * d) == c * (b * d);
    assert a * (c * (b * d)) == (a * c) * (b * d);
  }

  lemma {:induction false} ProductOfMultiples(a: int, n: nat, p: nat)
    requires p > 0
    ensures Congruent(Product(Multiples(a, n, p)), Pow(a, n) * Product(UpTo(n)), p)
  {
    if n == 0 {
    } else {
      hide Congruent, Product, Multiple;
      var s, u := Multiples(a, n, p), UpTo(n);
      ProductPull(s, n - 1);
      ProductPull(u, n - 1);
      assert s[..n - 1] + s[n..] == Multiples(a, n - 1, p);
      assert u[..n - 1] + u[n..] == UpTo(n - 1);
      ProductOfMultiples(a, n - 1, p);
      MultipleCongruent(a, n, p);
      var rest, restU := Product(Multiples(a, n - 1, p)), Product(UpTo(n - 1));
      CongruentMul(Multiple(a, n, p), a * n, rest, Pow(a, n - 1) * restU, p);
      Rearrange(a, n, Pow(a, n - 1), restU);
    }
  }

  lemma MultipleCongruent(a: int, i: int, p: nat)
    requires p > 0
    ensures Congruent(Multiple(a, i, p), a * i, p)
  {
    CongruentResidue(a * i, p);
  }

  lemma NotDivisible(y: int, p: int)
    requires 0 < y < p
    ensures !Divides(p, y)
  {
    ModUnique(y, p, 0, y);
  }

  lemma ProductNotDivisible(p: int, a: int, b: int)
    requires IsPrime(p) && !Divides(p, a) && !Divides(p, b)
    ensures !Divides(p, a * b)
  {
    if Divides(p, a * b) {
      Euclid(p, a, b);
    }
  }

  lemma {:induction false} FactorialNotDivisible(p: nat, n: nat)
    requires IsPrime(p) && n < p
    ensures !Divides(p, Product(UpTo(n)))
  {
    if n == 0 {
    } else {
      hide Divides, IsPrime, Product;
      var u := UpTo(n);
      ProductPull(u, n - 1);
      assert u[..n - 1] + u[n..] == UpTo(n - 1);
      FactorialNotDivisible(p, n - 1);
      NotDivisible(n, p);
      ProductNotDivisible(p, n, Product(UpTo(n - 1)));
    }
  }

  /** Fermat's little theorem. */
  lemma Fermat(a: int, p: nat)
    requires IsPrime(p) && !Divides(p, a)
    ensures Congruent(Pow(a, p - 1), 1, p)
  {
    hide Congruent, Product, Pow;
    var f, power := Product(UpTo(p - 1)), Pow(a, p - 1);
    MultiplesPermute(a, p);
    ProductOfPermutation(Multiples(a, p - 1, p), UpTo(p - 1));
    ProductOfMultiples(a, p - 1, p);
    FactorialNotDivisible(p, p - 1);
    assert power * f == f * power && f == f * 1;
    CongruentSymmetric(f, f * power, p);
    CongruentSymmetric(f * 1, f * power, p);
    Cancel(p, f, power, 1);
  }

  lemma CongruentSymmetric(a: int, b: int, m: int)
    ensures Congruent(a, b, m) <==> Congruent(b, a, m)
  {
  }

  lemma CongruentTransitive(a: int, b: int, c: int, m: int)
    requires Congruent(a, b, m) && Congruent(b, c, m)
    ensures Congruent(a, c, m)
  {
  }

  // ----- Square roots modulo p

  /** A square modulo p has at most the two reduced roots y and p - y. */
  lemma RootsUpToSign(p: nat, r: int, y: int)
    requires IsPrime(p) && 0 <= r < p && 0 < y < p && Congruent(r * r, y * y, p)
    ensures r == y || r == p - y
  {
    hide Congruent;
    CongruentIffDivides(r * r, y * y, p);
    assert r * r - y * y == (r - y) * (r + y);
    Euclid(p, r - y, r + y);
    if Divides(p, r - y) {
      SmallMultiple((r - y) / p, p);
    } else {
      var k := (r + y) / p;
      assert r + y - p == (k - 1) * p;
      SmallMultiple(k - 1, p);
    }
  }

  /** The square of z^q is z times z^h when 2q = h + 1. */
  lemma SquareOfPower(z: int, q: nat, h: nat, p: nat)
    requires p > 0 && q + q == h + 1
    ensures Congruent(PowMod(z, q, p) * PowMod(z, q, p), z * PowMod(z, h, p), p)
  {
    PowAdd(z, q, q);
    assert Pow(z, h + 1) == z * Pow(z, h);
    hide Congruent, Pow, PowMod;
    PowModCongruent(z, q, p);
    PowModCongruent(z, h, p);
    CongruentMul(PowMod(z, q, p), Pow(z, q), PowMod(z, q, p), Pow(z, q), p);
    CongruentMulLeft(PowMod(z, h, p), Pow(z, h), z, p);
    assert PowMod(z, h, p) * z == z * PowMod(z, h, p) && Pow(z, h) * z == z * Pow(z, h);
    CongruentSymmetric(z * PowMod(z, h, p), z * Pow(z, h), p);
    CongruentTransitive(PowMod(z, q, p) * PowMod(z, q, p), z * Pow(z, h), z * PowMod(z, h, p), p);
  }

  /** Euler's test value of a nonzero square is 1. */
  lemma EulerOfSquare(y: int, z: int, h: nat, p: nat)
    requires IsPrime(p) && p == 2 * h + 1 && 0 < y < p && Congruent(z, y * y, p)
    ensures PowMod(z, h, p) == 1
  {
    PowCongruent(z, y * y, h, p);
    PowOfSquare(y, h);
    NotDivisible(y, p);
    Fermat(y, p);
    hide Pow, PowMod;
    PowModCongruent(z, h, p);
    CongruentReduced(PowMod(z, h, p), 1, p);
  }

  /** Euler's test value 1 makes z^q a nonzero square root of z, for any odd p (prime or not). */
  lemma RootFromTest(z: int, q: nat, h: nat, p: nat)
    requires q + q == h + 1 && p > 1 && PowMod(z, h, p) == 1
    ensures Congruent(PowMod(z, q, p) * PowMod(z, q, p), z, p)
    ensures PowMod(z, q, p) != 0
  {
    SquareOfPower(z, q, h, p);
    assert z * 1 == z;
    if PowMod(z, q, p) == 0 {
      PowCongruent(z, 0, h, p);
      PowOfZero(h);
    }
  }

  /** The exponent q with 2q = h + 1 and p = 2h + 1 gives a square root of every nonzero square. */
  lemma RootOfSquare(y: int, z: int, q: nat, h: nat, p: nat)
    requires IsPrime(p) && p == 2 * h + 1 && q + q == h + 1 && 0 < y < p && Congruent(z, y * y, p)
    ensures PowMod(z, q, p) == y || PowMod(z, q, p) == p - y
  {
    hide PowMod, Congruent;
    EulerOfSquare(y, z, h, p);
    RootFromTest(z, q, h, p);
    CongruentTransitive(PowMod(z, q, p) * PowMod(z, q, p), z, y * y, p);
    RootsUpToSign(p, PowMod(z, q, p), y);
  }

  ghost predicate IsRoot(y: int, z: int, p: int) {
    0 < y < p && Congruent(y * y, z, p)
  }

  /** Euler's criterion for p % 4 == 3: the test value is 1 exactly at the nonzero squares. */
  lemma EulerCriterion(z: int, q: nat, h: nat, p: nat)
    requires IsPrime(p) && p == 2 * h + 1 && q + q == h + 1
    ensures PowMod(z, h, p) == 1 <==> exists y :: IsRoot(y, z, p)
  {
    hide PowMod, Congruent;
    if PowMod(z, h, p) == 1 {
      RootFromTest(z, q, h, p);
      assert IsRoot(PowMod(z, q, p), z, p);
    }
    if y :| IsRoot(y, z, p) {
      CongruentSymmetric(y * y, z, p);
      EulerOfSquare(y, z, h, p);
    }
  }
}
