/** The Apple-Challenge signature: RSA with the Chinese remainder theorem,
    step 2.b of section 5.2.1 of RFC 8017. */
module CrtSignature {
  import opened Common
  import opened Modular
  import opened NumberTheory

  datatype Failure = NoInverse | ZeroDivision

  /** The inverse of a modulo m, or the exception the routine raises. */
  function ModInv(a: int, m: int): (r: Result<int, Failure>) {
    var (g, x, y) := Egcd(a, m);
    if g != 1 then Err(NoInverse)
    else if m == 0 then Err(ZeroDivision)
    else Ok(PyMod(x, m))
  }

  /** Python's three-argument pow for a non-negative exponent and a positive modulus. */
  function PowMod(b: int, e: nat, n: int): int
    requires n > 0
  {
    Pow(b, e) % n
  }

  function Recombine(m1: int, m2: int, p: int, q: int, qInv: int): int
    requires p > 0
  {
    m2 + ((qInv * (m1 - m2)) % p) * q
  }

  function Sign(p: int, q: int, d: nat, message: nat): (r: Result<int, Failure>)
    requires p > 1 && q > 1
  {
    var dP := d % (p - 1);
    var dQ := d % (q - 1);
    var qInv := ModInv(q, p);
    if qInv.Err? then Err(qInv.error) else
      Ok(Recombine(PowMod(message, dP, p), PowMod(message, dQ, q), p, q, qInv.value))
  }

  /** For a positive modulus: an answer exactly when an inverse exists, and then it is one, reduced. */
  lemma ModInvCorrect(a: nat, m: int)
    requires m > 0
    ensures ModInv(a, m).Ok? <==> exists x :: Cong(a * x, 1, m)
    ensures ModInv(a, m).Ok? ==> 0 <= ModInv(a, m).value < m && Cong(a * ModInv(a, m).value, 1, m)
  {
    if Egcd(a, m).0 == 1 {
      InverseFromBezout(a, m);
    } else if exists z :: Cong(a * z, 1, m) {
      var z :| Cong(a * z, 1, m);
      InverseNeedsCoprime(a, m, z);
      assert false;
    }
  }

  lemma InverseFromBezout(a: nat, m: int)
    requires m > 0 && Egcd(a, m).0 == 1
    ensures var r := PyMod(Egcd(a, m).1, m); 0 <= r < m && Cong(a * r, 1, m)
  {
    EgcdBezout(a, m);
    var (g, x, y) := Egcd(a, m);
    PyDivMod(x, m);
    BezoutCong(a, m, x, y);
    var r := PyMod(x, m);
    CongRemainder(x, m);
    CongMul(a, a, r, x, m);
    CongTrans(a * r, a * x, 1, m);
  }

  lemma BezoutCong(a: int, m: int, x: int, y: int)
    requires m > 0 && a * x + m * y == 1
    ensures Cong(a * x, 1, m)
  {
    assert (-y) * m == -(m * y);
    CongBy(a * x, 1, -y, m);
  }

  lemma InverseNeedsCoprime(a: nat, m: int, z: int)
    requires m > 0 && Cong(a * z, 1, m)
    ensures Egcd(a, m).0 == 1
  {
    var g := Egcd(a, m).0;
    var k := CongMeans(a * z, 1, m);
    EgcdDivides(a, m);
    EgcdPositive(a, m);
    DividesCombination(g, a, m, z, -k);
    assert m * (-k) == -(k * m);
    DivisorBound(g, 1);
  }

  /** Recombination meets both residues and stays below p * q. */
  lemma RecombineCorrect(m1: int, m2: int, p: int, q: int, qInv: int)
    requires p > 0 && q > 0 && 0 <= m1 < p && 0 <= m2 < q && Cong(q * qInv, 1, p)
    ensures var m := Recombine(m1, m2, p, q, qInv);
            Cong(m, m1, p) && Cong(m, m2, q) && 0 <= m < p * q
  {
    var t := qInv * (m1 - m2);
    var h := t % p;
    CongBy(m2 + h * q, m2, h, q);
    RecombineModP(m1, m2, p, q, qInv, h);
    Below(h, p, m2, q);
  }

  lemma RecombineModP(m1: int, m2: int, p: int, q: int, qInv: int, h: int)
    requires p > 0 && Cong(q * qInv, 1, p) && h == (qInv * (m1 - m2)) % p
    ensures Cong(m2 + h * q, m1, p)
  {
    var diff := m1 - m2;
    CongRemainder(qInv * diff, p);
    CongMul(h, qInv * diff, q, q, p);
    CongMul(q * qInv, 1, diff, diff, p);
    Swap(q, qInv, diff);
    CongTrans(h * q, (qInv * diff) * q, diff, p);
    CongAdd(m2, m2, h * q, diff, p);
  }

  lemma Swap(q: int, r: int, diff: int)
    ensures (q * r) * diff == (r * diff) * q
  {
  }

  lemma Below(h: int, p: int, m: int, q: int)
    requires 0 <= h < p && 0 <= m < q
    ensures 0 <= m + h * q < p * q
  {
    assert p * q == h * q + (p - h) * q;
    MulGrows(p - h, q);
    assert h * q >= 0;
  }

  lemma ModInvOfPrimes(p: int, q: int)
    requires Prime(p) && Prime(q)
    ensures ModInv(q, p).Ok? <==> p != q
  {
    if p == q {
      EgcdGreatest(q, p, p);
      EgcdPositive(q, p);
      assert Divides(p, p);
    } else {
      if Divides(p, q) {
        DivisorBound(p, q);
        assert false;
      }
      CoprimeToPrime(p, q);
    }
  }

  /** Equal residues by two distinct primes are equal residues by the product. */
  lemma CombineModuli(p: int, q: int, a: int, b: int)
    requires Prime(p) && Prime(q) && p != q
    requires Cong(a, b, p) && Cong(a, b, q)
    ensures p * q > 0 && Cong(a, b, p * q)
  {
    var k := CongMeans(a, b, p);
    if Divides(q, p) {
      DivisorBound(q, p);
      assert false;
    }
    assert p * k == a - b;
    Euclid(q, p, k);
    var l := CongMeans(k, 0, q);
    assert a == b + l * (p * q) by { assert (l * q) * p == l * (p * q); }
    CongBy(a, b, l, p * q);
  }

  lemma SplitModuli(p: int, q: int, a: int, b: int)
    requires p > 0 && q > 0 && p * q > 0 && Cong(a, b, p * q)
    ensures Cong(a, b, p) && Cong(a, b, q)
  {
    var k := CongMeans(a, b, p * q);
    assert a == b + (k * q) * p && a == b + (k * p) * q by { Reassociate(k, p, q); }
    CongBy(a, b, k * q, p);
    CongBy(a, b, k * p, q);
  }

  lemma Reassociate(k: int, p: int, q: int)
    ensures k * (p * q) == (k * q) * p == (k * p) * q
  {
  }

  /** The one way a reduced exponent goes wrong: it becomes 0 while the message is a multiple of the prime. */
  predicate Degenerate(p: int, d: nat, message: nat)
    requires p > 1
  {
    Divides(p, message) && d > 0 && Divides(p - 1, d)
  }

  lemma ReducedExponent(p: int, d: nat, message: nat)
    requires Prime(p)
    ensures PowMod(message, d % (p - 1), p) == PowMod(message, d, p) <==> !Degenerate(p, d, message)
  {
    var r := d % (p - 1);
    if !Divides(p, message) {
      ReduceAny(p, d, message);
      CongIffSameRemainder(Pow(message, d), Pow(message, r), p);
    } else if d > 0 {
      PowOfMultiple(message, d, p);
      CongIffSameRemainder(Pow(message, d), 0, p);
      if r > 0 {
        PowOfMultiple(message, r, p);
        CongIffSameRemainder(Pow(message, r), 0, p);
      } else {
        ModIs(1, 0, 1, p);
        ModIs(0, 0, 0, p);
      }
    }
  }

  lemma ReduceAny(p: int, d: nat, message: nat)
    requires Prime(p) && !Divides(p, message)
    ensures Cong(Pow(message, d), Pow(message, d % (p - 1)), p)
  {
    Division(d, p - 1);
    PowReducesBy(p, message, d / (p - 1), d % (p - 1));
  }

  lemma Division(d: nat, n: int)
    requires n > 0
    ensures d / n >= 0 && d == n * (d / n) + d % n
  {
  }

  /** For every message, the fast signature is message^d mod p*q exactly when
      neither prime divides the message while its p - 1 divides the exponent. */
  lemma SignCorrectIff(p: int, q: int, d: nat, message: nat)
    requires Prime(p) && Prime(q) && p != q
    ensures p * q > 0 && Sign(p, q, d, message).Ok?
    ensures Sign(p, q, d, message).value == Pow(message, d) % (p * q)
            <==> !Degenerate(p, d, message) && !Degenerate(q, d, message)
  {
    ModInvOfPrimes(p, q);
    ModInvCorrect(q, p);
    var qInv := ModInv(q, p).value;
    var m1, m2 := PowMod(message, d % (p - 1), p), PowMod(message, d % (q - 1), q);
    RecombineCorrect(m1, m2, p, q, qInv);
    var m, full := Recombine(m1, m2, p, q, qInv), Pow(message, d);
    SameResidues(p, q, m, full, m1, m2);
    ReducedExponent(p, d, message);
    ReducedExponent(q, d, message);
  }

  lemma SameResidues(p: int, q: int, m: int, full: int, m1: int, m2: int)
    requires Prime(p) && Prime(q) && p != q
    requires 0 <= m1 < p && 0 <= m2 < q && Cong(m, m1, p) && Cong(m, m2, q) && 0 <= m < p * q
    ensures m == full % (p * q) <==> m1 == full % p && m2 == full % q
  {
    var n := p * q;
    CongIffSameRemainder(m, m1, p);
    CongIffSameRemainder(m, m2, q);
    CongIffSameRemainder(m, full, p);
    CongIffSameRemainder(m, full, q);
    CongIffSameRemainder(m, full, n);
    ModIs(m1, 0, m1, p);
    ModIs(m2, 0, m2, q);
    ModIs(m, 0, m, n);
    if m == full % n { SplitModuli(p, q, m, full); }
    if m1 == full % p && m2 == full % q { CombineModuli(p, q, m, full); }
  }

  /** With one prime used twice the routine raises instead of signing. */
  lemma SignRejectsEqualPrimes(p: int, d: nat, message: nat)
    requires Prime(p)
    ensures Sign(p, p, d, message) == Err(NoInverse)
  {
    ModInvOfPrimes(p, p);
  }

  /** A failing input: 2 * 3, exponent 2, message 3. The signature is 1; 3^2 mod 6 is 3. */
  lemma DegenerateExample()
    ensures Sign(2, 3, 2, 3) == Ok(1) && Pow(3, 2) % 6 == 3
  {
    assert PyMod(2, 1) == 0 && PyDiv(2, 1) == 2;
    assert Egcd(1, 2) == (1, 1, 0) by { assert Egcd(0, 1) == (1, 0, 1); }
    assert PyMod(3, 2) == 1 && PyDiv(3, 2) == 1;
    assert Egcd(2, 3) == (1, -1, 1);
    assert PyMod(2, 3) == 2 && PyDiv(2, 3) == 0;
    assert Egcd(3, 2) == (1, 1, -1);
    assert ModInv(3, 2) == Ok(1);
    assert PowMod(3, 0, 2) == 1 && PowMod(3, 0, 3) == 1;
    assert Pow(3, 2) == 3 * Pow(3, 1) && Pow(3, 1) == 3;
  }

  // --------------------------------------------------------------- round trip

  lemma RoundTripModPrime(p: int, d: nat, e: nat, message: nat)
    requires Prime(p) && p > 2 && Cong(e * d, 1, p - 1)
    ensures e * d >= 0 && Cong(Pow(message, e * d), message, p)
  {
    var k := CongMeans(e * d, 1, p - 1);
    if Divides(p, message) {
      if e * d == 0 {
        DivisorBound(p - 1, 1);
        assert false;
      }
      PowOfMultiple(message, e * d, p);
      CongSym(message, 0, p);
      CongTrans(Pow(message, e * d), 0, message, p);
    } else {
      if k < 0 {
        MulGrows(-k, p - 1);
        assert false;
      }
      PowReducesBy(p, message, k, 1);
      assert Pow(message, 1) == message;
    }
  }

  lemma NotDegenerate(p: int, d: nat, e: nat, message: nat)
    requires p > 2 && Cong(e * d, 1, p - 1)
    ensures !Degenerate(p, d, message)
  {
    if Divides(p - 1, d) {
      DividesCombination(p - 1, d, 0, e, 0);
      var k := CongMeans(e * d, 1, p - 1);
      DividesCombination(p - 1, e * d, p - 1, 1, -k);
      assert (p - 1) * (-k) == -(k * (p - 1));
      DivisorBound(p - 1, 1);
      assert false;
    }
  }

  /** What the signature is for: a client holding the public exponent recovers the
      signed message from it, for every message below the modulus. */
  lemma SignatureVerifies(p: int, q: int, d: nat, e: nat, message: nat)
    requires Prime(p) && Prime(q) && p != q && p > 2 && q > 2
    requires Cong(e * d, 1, p - 1) && Cong(e * d, 1, q - 1)
    requires message < p * q
    ensures Sign(p, q, d, message).Ok? && PowMod(Sign(p, q, d, message).value, e, p * q) == message
  {
    var n := p * q;
    NotDegenerate(p, d, e, message);
    NotDegenerate(q, d, e, message);
    SignCorrectIff(p, q, d, message);
    RoundTripModPrime(p, d, e, message);
    RoundTripModPrime(q, d, e, message);
    CombineModuli(p, q, Pow(message, e * d), message);
    var sig := Sign(p, q, d, message).value;
    var full := Pow(message, d);
    CongRemainder(full, n);
    PowCong(sig, full, e, n);
    PowMul(message, d, e);
    assert d * e == e * d;
    CongTrans(Pow(sig, e), Pow(full, e), message, n);
    CongIffSameRemainder(Pow(sig, e), message, n);
    ModIs(message, 0, message, n);
  }
}
