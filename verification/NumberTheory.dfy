/** Congruences, powers, the extended Euclidean algorithm and Fermat's little theorem. */
module NumberTheory {
  import opened Modular

  predicate Divides(d: int, x: int) {
    if d == 0 then x == 0 else x % d == 0
  }

  /** a and b leave the same remainder by n. */
  predicate Cong(a: int, b: int, n: int)
    requires n > 0
  {
    (a - b) % n == 0
  }

  lemma CongBy(a: int, b: int, k: int, n: int)
    requires n > 0 && a == b + k * n
    ensures Cong(a, b, n)
  {
    ModIs(a - b, k, 0, n);
  }

  lemma CongMeans(a: int, b: int, n: int) returns (k: int)
    requires n > 0 && Cong(a, b, n)
    ensures a == b + k * n
  {
    k := (a - b) / n;
  }

  lemma CongSym(a: int, b: int, n: int)
    requires n > 0 && Cong(a, b, n)
    ensures Cong(b, a, n)
  {
    var k := CongMeans(a, b, n);
    assert b == a + (-k) * n;
    CongBy(b, a, -k, n);
  }

  lemma CongTrans(a: int, b: int, c: int, n: int)
    requires n > 0 && Cong(a, b, n) && Cong(b, c, n)
    ensures Cong(a, c, n)
  {
    var k := CongMeans(a, b, n);
    var l := CongMeans(b, c, n);
    assert a == c + (k + l) * n by { assert (k + l) * n == k * n + l * n; }
    CongBy(a, c, k + l, n);
  }

  lemma CongAdd(a: int, b: int, c: int, d: int, n: int)
    requires n > 0 && Cong(a, b, n) && Cong(c, d, n)
    ensures Cong(a + c, b + d, n)
  {
    var k := CongMeans(a, b, n);
    var l := CongMeans(c, d, n);
    assert (k + l) * n == k * n + l * n;
    CongBy(a + c, b + d, k + l, n);
  }

  lemma CongMul(a: int, b: int, c: int, d: int, n: int)
    requires n > 0 && Cong(a, b, n) && Cong(c, d, n)
    ensures Cong(a * c, b * d, n)
  {
    var k := CongMeans(a, b, n);
    var l := CongMeans(c, d, n);
    calc {
      a * c;
      (b + k * n) * c;
      b * c + (k * n) * c;
      b * (d + l * n) + (k * n) * c;
      b * d + b * (l * n) + (k * n) * c;
      b * d + (b * l + k * c) * n;
    }
    CongBy(a * c, b * d, b * l + k * c, n);
  }

  lemma CongRemainder(a: int, n: int)
    requires n > 0
    ensures Cong(a, a % n, n) && Cong(a % n, a, n)
  {
    assert a == a % n + (a / n) * n;
    CongBy(a, a % n, a / n, n);
    CongSym(a, a % n, n);
  }

  /** Congruence is equality of remainders. */
  lemma CongIffSameRemainder(a: int, b: int, n: int)
    requires n > 0
    ensures Cong(a, b, n) <==> a % n == b % n
  {
    CongRemainder(a, n);
    CongRemainder(b, n);
    if Cong(a, b, n) {
      CongTrans(a % n, a, b, n);
      CongTrans(a % n, b, b % n, n);
      var k := CongMeans(a % n, b % n, n);
      SmallMultiple(k, n);
    } else if a % n == b % n {
      CongTrans(a, a % n, b, n);
      assert false;
    }
  }

  // ------------------------------------------------------------------- powers

  function Pow(b: int, e: nat): int {
    if e == 0 then 1 else b * Pow(b, e - 1)
  }

  lemma {:induction false} PowAdd(b: int, i: nat, j: nat)
    ensures Pow(b, i + j) == Pow(b, i) * Pow(b, j)
  {
    if i > 0 {
      PowAdd(b, i - 1, j);
      assert b * (Pow(b, i - 1) * Pow(b, j)) == (b * Pow(b, i - 1)) * Pow(b, j);
    }
  }

  lemma {:induction false} PowMul(b: int, i: nat, j: nat)
    ensures i * j >= 0 && Pow(b, i * j) == Pow(Pow(b, i), j)
  {
    if j > 0 {
      PowMul(b, i, j - 1);
      assert i * j == i + i * (j - 1);
      PowAdd(b, i, i * (j - 1));
    }
  }

  lemma {:induction false} PowCong(a: int, b: int, e: nat, n: int)
    requires n > 0 && Cong(a, b, n)
    ensures Cong(Pow(a, e), Pow(b, e), n)
  {
    if e > 0 {
      PowCong(a, b, e - 1, n);
      CongMul(a, b, Pow(a, e - 1), Pow(b, e - 1), n);
    }
  }

  lemma {:induction false} PowOfOne(e: nat)
    ensures Pow(1, e) == 1
  {
    if e > 0 { PowOfOne(e - 1); }
  }

  /** A positive power of a multiple of n is a multiple of n. */
  lemma PowOfMultiple(m: int, e: nat, n: int)
    requires n > 0 && e > 0 && Divides(n, m)
    ensures Cong(Pow(m, e), 0, n)
  {
    PowCong(m, 0, e, n);
    assert Pow(0, e) == 0;
  }

  // -------------------------------------------------------------------- egcd

  /** Python's floored remainder and quotient, for a divisor of either sign. */
  function PyMod(b: int, a: int): (r: int)
    requires a != 0
  {
    if a > 0 then b % a else -((-b) % (-a))
  }

  function PyDiv(b: int, a: int): (q: int)
    requires a != 0
  {
    if a > 0 then b / a else (-b) / (-a)
  }

  lemma PyDivMod(b: int, a: int)
    requires a != 0
    ensures b == a * PyDiv(b, a) + PyMod(b, a)
    ensures if a > 0 then 0 <= PyMod(b, a) < a else a < PyMod(b, a) <= 0
  {
    if a < 0 {
      assert -b == (-a) * ((-b) / (-a)) + (-b) % (-a);
      assert (-a) * PyDiv(b, a) == -(a * PyDiv(b, a));
    }
  }

  function Abs(a: int): nat {
    if a < 0 then -a else a
  }

  /** (g, x, y) as the recursive routine computes it, with the remainder's sign following a. */
  function Egcd(a: int, b: int): (r: (int, int, int))
    decreases Abs(a)
  {
    if a == 0 then (b, 0, 1) else
      PyDivMod(b, a);
      var (g, y, x) := Egcd(PyMod(b, a), a);
      (g, x - PyDiv(b, a) * y, y)
  }

  /** Bezout's identity, for every pair of integers. */
  lemma {:induction false} EgcdBezout(a: int, b: int)
    ensures var (g, x, y) := Egcd(a, b); g == a * x + b * y
    decreases Abs(a)
  {
    if a != 0 {
      PyDivMod(b, a);
      var c, q := PyMod(b, a), PyDiv(b, a);
      EgcdBezout(c, a);
      var (g, y, x) := Egcd(c, a);
      BackSubstitute(a, b, c, q, x, y);
    }
  }

  lemma BackSubstitute(a: int, b: int, c: int, q: int, x: int, y: int)
    requires b == a * q + c
    ensures c * y + a * x == a * (x - q * y) + b * y
  {
    assert b * y == a * q * y + c * y;
    assert a * (x - q * y) == a * x - a * q * y;
  }

  lemma CombinationCong(n: int, a: int, b: int, u: int, v: int)
    requires n > 0 && Cong(a, 0, n) && Cong(b, 0, n)
    ensures Cong(a * u + b * v, 0, n)
  {
    CongRemainder(0, n);
    CongMul(a, 0, u, u, n);
    CongMul(b, 0, v, v, n);
    CongAdd(a * u, 0, b * v, 0, n);
  }

  lemma DividesAbs(d: int, x: int)
    requires d != 0
    ensures Divides(d, x) <==> Cong(x, 0, Abs(d))
  {
  }

  lemma DividesCombination(g: int, a: int, b: int, u: int, v: int)
    requires Divides(g, a) && Divides(g, b)
    ensures Divides(g, a * u + b * v)
  {
    if g != 0 {
      DividesAbs(g, a);
      DividesAbs(g, b);
      DividesAbs(g, a * u + b * v);
      CombinationCong(Abs(g), a, b, u, v);
    }
  }

  /** The first component divides both arguments. */
  lemma {:induction false} EgcdDivides(a: int, b: int)
    ensures Divides(Egcd(a, b).0, a) && Divides(Egcd(a, b).0, b)
    decreases Abs(a)
  {
    var g := Egcd(a, b).0;
    if a == 0 {
      assert g != 0 ==> 0 % g == 0 && g % g == 0;
    } else {
      PyDivMod(b, a);
      EgcdDivides(PyMod(b, a), a);
      DividesCombination(g, a, PyMod(b, a), PyDiv(b, a), 1);
    }
  }

  /** Every common divisor divides it: it is a greatest common divisor. */
  lemma EgcdGreatest(a: int, b: int, d: int)
    requires Divides(d, a) && Divides(d, b)
    ensures Divides(d, Egcd(a, b).0)
  {
    EgcdBezout(a, b);
    var (g, x, y) := Egcd(a, b);
    DividesCombination(d, a, b, x, y);
  }

  lemma {:induction false} EgcdPositive(a: nat, b: nat)
    requires a + b > 0
    ensures Egcd(a, b).0 > 0
    decreases a
  {
    if a > 0 {
      PyDivMod(b, a);
      EgcdPositive(PyMod(b, a), a);
    }
  }

  // ------------------------------------------------------------------ primes

  ghost predicate Prime(p: int) {
    p >= 2 && forall d :: 2 <= d < p ==> !Divides(d, p)
  }

  lemma DivisorBound(d: int, x: int)
    requires d > 0 && x > 0 && Divides(d, x)
    ensures d <= x
  {
    var k := CongMeans(x, 0, d);
    if d > x {
      SmallMultiple(k, d);
      assert false;
    }
  }

  lemma CoprimeToPrime(p: int, a: nat)
    requires Prime(p) && !Divides(p, a)
    ensures Egcd(a, p).0 == 1
  {
    EgcdDivides(a, p);
    EgcdPositive(a, p);
    var g := Egcd(a, p).0;
    DivisorBound(g, p);
  }

  lemma EuclidNat(p: int, a: nat, b: int)
    requires Prime(p) && Divides(p, a * b) && !Divides(p, a)
    ensures Divides(p, b)
  {
    CoprimeToPrime(p, a);
    EgcdBezout(a, p);
    var (g, x, y) := Egcd(a, p);
    Cancel(p, a, b, x, y);
  }

  lemma Cancel(p: int, a: int, b: int, x: int, y: int)
    requires p > 0 && a * x + p * y == 1 && Divides(p, a * b)
    ensures Divides(p, b)
  {
    Regroup(a, b, p, x, y);
    var ab, yb := a * b, y * b;
    MultipleOfBoth(p, b, ab, x, yb);
  }

  lemma MultipleOfBoth(p: int, b: int, ab: int, x: int, z: int)
    requires p > 0 && b == ab * x + p * z && Divides(p, ab)
    ensures Divides(p, b)
  {
    CongBy(p, 0, 1, p);
    CombinationCong(p, ab, p, x, z);
  }

  lemma Regroup(a: int, b: int, p: int, x: int, y: int)
    requires a * x + p * y == 1
    ensures b == (a * b) * x + p * (y * b)
  {
    assert b == (a * x + p * y) * b;
    assert (a * x) * b == (a * b) * x;
    assert (p * y) * b == p * (y * b);
  }

  /** Euclid's lemma. */
  lemma Euclid(p: int, a: int, b: int)
    requires Prime(p) && Divides(p, a * b) && !Divides(p, a)
    ensures Divides(p, b)
  {
    if a >= 0 {
      EuclidNat(p, a, b);
    } else {
      assert (-a) * b == -(a * b);
      DividesCombination(p, a * b, 0, -1, 0);
      if Divides(p, -a) {
        DividesCombination(p, -a, 0, -1, 0);
        assert false;
      }
      EuclidNat(p, -a, b);
    }
  }

  // ---------------------------------------------------- Fermat's little theorem

  function Choose(n: nat, k: nat): nat {
    if k == 0 then 1 else if n == 0 then 0 else Choose(n - 1, k - 1) + Choose(n - 1, k)
  }

  lemma {:induction false} ChooseBeyond(n: nat, k: nat)
    requires k > n
    ensures Choose(n, k) == 0
  {
    if n > 0 {
      ChooseBeyond(n - 1, k - 1);
      ChooseBeyond(n - 1, k);
    }
  }

  lemma {:induction false} ChooseAll(n: nat)
    ensures Choose(n, n) == 1
  {
    if n > 0 {
      ChooseAll(n - 1);
      ChooseBeyond(n - 1, n);
    }
  }

  lemma {:induction false} Absorption(n: nat, k: nat)
    requires n > 0 && k > 0
    ensures k * Choose(n, k) == n * Choose(n - 1, k - 1)
  {
    if n == 1 {
      if k > 1 {
        ChooseBeyond(n, k);
        ChooseBeyond(0, k - 1);
      }
    } else if k == 1 {
      Absorption(n - 1, 1);
      assert Choose(n, 1) == 1 + Choose(n - 1, 1);
    } else {
      Absorption(n - 1, k);
      Absorption(n - 1, k - 1);
      AbsorptionStep(n, k, Choose(n - 1, k), Choose(n - 2, k - 1), Choose(n - 2, k - 2));
    }
  }

  lemma AbsorptionStep(n: int, k: int, c: int, d: int, e: int)
    requires k * c == (n - 1) * d && (k - 1) * (e + d) == (n - 1) * e
    ensures k * ((e + d) + c) == n * (e + d)
  {
    assert k * ((e + d) + c) == (k - 1) * (e + d) + (e + d) + k * c;
    assert n * (e + d) == (n - 1) * e + (n - 1) * d + (e + d);
  }

  lemma PrimeDividesChoose(p: int, k: nat)
    requires Prime(p) && 0 < k < p
    ensures Divides(p, Choose(p, k))
  {
    Absorption(p, k);
    DividesCombination(p, p, 0, Choose(p - 1, k - 1), 0);
    if Divides(p, k) {
      DivisorBound(p, k);
      assert false;
    }
    Euclid(p, k, Choose(p, k));
  }

  /** The first k + 1 terms of the binomial expansion of (a + 1)^n. */
  function Expansion(n: nat, a: int, k: nat): int {
    if k == 0 then 1 else Expansion(n, a, k - 1) + Choose(n, k) * Pow(a, k)
  }

  lemma {:induction false} ExpansionStep(n: nat, a: int, k: nat)
    requires k > 0
    ensures Expansion(n + 1, a, k) == Expansion(n, a, k) + a * Expansion(n, a, k - 1)
  {
    if k == 1 {
      assert Choose(n + 1, 1) == 1 + Choose(n, 1);
    } else {
      ExpansionStep(n, a, k - 1);
      SplitTerm(a, Choose(n, k - 1), Choose(n, k), Pow(a, k - 1), Expansion(n, a, k - 2));
    }
  }

  lemma SplitTerm(a: int, c: int, d: int, power: int, rest: int)
    ensures (c + d) * (a * power) + a * rest == d * (a * power) + a * (rest + c * power)
  {
    assert (c + d) * (a * power) == c * (a * power) + d * (a * power);
    assert c * (a * power) == a * (c * power);
  }

  lemma {:induction false} BinomialTheorem(n: nat, a: int)
    ensures Expansion(n, a, n) == Pow(a + 1, n)
  {
    if n > 0 {
      ExpansionStep(n - 1, a, n);
      ChooseBeyond(n - 1, n);
      BinomialTheorem(n - 1, a);
    }
  }

  lemma {:induction false} MiddleTermsVanish(p: int, a: int, k: nat)
    requires Prime(p) && k < p
    ensures Cong(Expansion(p, a, k), 1, p)
  {
    if k > 0 {
      MiddleTermsVanish(p, a, k - 1);
      PrimeDividesChoose(p, k);
      DividesCombination(p, Choose(p, k), 0, Pow(a, k), 0);
      CongAdd(Expansion(p, a, k - 1), 1, Choose(p, k) * Pow(a, k), 0, p);
    }
  }

  /** Leaving off the top term of (a + 1)^n. */
  lemma TopTerm(n: nat, a: int)
    requires n > 0
    ensures Pow(a + 1, n) == Expansion(n, a, n - 1) + Pow(a, n)
  {
    BinomialTheorem(n, a);
    ChooseAll(n);
  }

  lemma PrimePositive(p: int)
    requires Prime(p)
    ensures p >= 2
  {
  }

  lemma PowerOfZero(p: int)
    requires p > 0
    ensures Cong(Pow(0, p), 0, p)
  {
  }

  /** a^p leaves the remainder of a. */
  lemma {:induction false} Fermat(p: int, a: nat)
    requires Prime(p)
    ensures Cong(Pow(a, p), a, p)
  {
    hide Pow, Expansion, Cong, Prime;
    PrimePositive(p);
    if a == 0 {
      PowerOfZero(p);
    } else {
      TopTerm(p, a - 1);
      MiddleTermsVanish(p, a - 1, p - 1);
      Fermat(p, a - 1);
      CongAdd(Expansion(p, a - 1, p - 1), 1, Pow(a - 1, p), a - 1, p);
    }
  }

  lemma FermatUnit(p: int, a: nat)
    requires Prime(p) && !Divides(p, a)
    ensures Cong(Pow(a, p - 1), 1, p)
  {
    Fermat(p, a);
    var x := Pow(a, p - 1);
    assert Pow(a, p) - a == a * (x - 1);
    Euclid(p, a, x - 1);
  }

  lemma PowSplit(a: int, k: nat, q: nat, r: nat)
    ensures k * q >= 0 && Pow(a, k * q + r) == Pow(Pow(a, k), q) * Pow(a, r)
  {
    PowMul(a, k, q);
    PowAdd(a, k * q, r);
  }

  /** Away from multiples of p, whole multiples of p - 1 drop out of an exponent. */
  lemma PowReducesBy(p: int, a: nat, q: nat, r: nat)
    requires Prime(p) && !Divides(p, a)
    ensures (p - 1) * q >= 0 && Cong(Pow(a, (p - 1) * q + r), Pow(a, r), p)
  {
    PowSplit(a, p - 1, q, r);
    FermatUnit(p, a);
    PowCong(Pow(a, p - 1), 1, q, p);
    PowOfOne(q);
    var y := Pow(a, r);
    CongMul(Pow(Pow(a, p - 1), q), 1, y, y, p);
    assert 1 * y == y;
  }
}
