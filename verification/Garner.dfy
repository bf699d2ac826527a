/**
  * Garner's recombination in the RSA decryption of crypto/crypto.go: a number is put together from its residues, one
  * modulus at a time, with precomputed inverses.
  */
module Garner {
  import opened Modular

  /** The product of the first `i` moduli. */
  function Product(ps: seq<nat>, i: nat): nat
    requires i <= |ps|
  {
    if i == 0 then 1 else Product(ps, i - 1) * ps[i - 1]
  }

  predicate Congruent(a: int, b: int, n: nat)
    requires n > 0
  {
    a % n == b % n
  }

  /** The correction for one more modulus. */
  function Correction(m: nat, x: nat, coeff: nat, p: nat): nat
    requires p > 0
  {
    (x - m) * coeff % p
  }

  function Extend(m: nat, x: nat, coeff: nat, p: nat, r: nat): nat
    requires p > 0
  {
    m + Correction(m, x, coeff, p) * r
  }

  lemma {:induction false} Divides(ps: seq<nat>, i: nat, k: nat) returns (q: nat)
    requires k < i <= |ps|
    ensures Product(ps, i) == q * ps[k]
    decreases i
  {
    if k == i - 1 {
      q := Product(ps, i - 1);
    } else {
      var q' := Divides(ps, i - 1, k);
      q := q' * ps[i - 1];
      assert q' * ps[k] * ps[i - 1] == q' * ps[i - 1] * ps[k];
    }
  }

  /** The residues already right stay right. */
  lemma OldResidue(m: nat, t: nat, q: nat, p: nat)
    requires p > 0
    ensures Congruent(m + t * (q * p), m, p)
  {
    assert t * (q * p) == (t * q) * p;
    ModShift(m, p, t * q);
  }

  lemma UnitTimes(d: int, c: int, r: int, p: nat)
    requires p > 0 && Congruent(c * r, 1, p)
    ensures Congruent(d * c * r, d, p)
  {
    assert d * c * r == d * (c * r);
    ModMul(d, c * r, p);
    ModMul(d, 1, p);
  }

  /** The new residue becomes right. */
  lemma NewResidue(m: nat, x: nat, coeff: nat, p: nat, r: nat)
    requires p > 0 && Congruent(coeff * r, 1, p)
    ensures Congruent(Extend(m, x, coeff, p, r), x, p)
  {
    var d := x - m;
    var y := (d * coeff % p) * r;
    ModMul(d * coeff, r, p);
    UnitTimes(d, coeff, r, p);
    assert Congruent(y, d, p);
    ModAddRight(m, y, p);
    ModAddRight(m, d, p);
    assert m + d == x;
  }

  /** Each coefficient is the inverse of the product of the earlier moduli. */
  predicate Precomputed(ps: seq<nat>, qinv: nat, coeffs: seq<nat>) {
    && |ps| == |coeffs| + 2 && (forall i | 0 <= i < |ps| :: ps[i] > 0)
    && Congruent(qinv * ps[1], 1, ps[0])
    && forall i | 2 <= i < |ps| :: Congruent(coeffs[i - 2] * Product(ps, i), 1, ps[i])
  }

  predicate Residues(m: nat, xs: seq<nat>, ps: seq<nat>, i: nat)
    requires i <= |ps| == |xs| && forall k | 0 <= k < |ps| :: ps[k] > 0
  {
    forall k | 0 <= k < i :: Congruent(m, xs[k], ps[k])
  }

  lemma OldKept(m: nat, m': nat, t: nat, ps: seq<nat>, i: nat, k: nat, x: nat)
    requires k < i <= |ps| && ps[k] > 0 && m' == m + t * Product(ps, i) && Congruent(m, x, ps[k])
    ensures Congruent(m', x, ps[k])
  {
    var q := Divides(ps, i, k);
    OldResidue(m, t, q, ps[k]);
  }

  lemma KeepResidues(m: nat, m': nat, t: nat, xs: seq<nat>, ps: seq<nat>, i: nat)
    requires i < |ps| == |xs| && (forall k | 0 <= k < |ps| :: ps[k] > 0) && Residues(m, xs, ps, i)
    requires m' == m + t * Product(ps, i)
    ensures Residues(m', xs, ps, i)
  {
    forall k | 0 <= k < i ensures Congruent(m', xs[k], ps[k]) {
      assert Congruent(m, xs[k], ps[k]);
      OldKept(m, m', t, ps, i, k, xs[k]);
    }
  }

  lemma OneResidueMore(m: nat, xs: seq<nat>, ps: seq<nat>, i: nat)
    requires i < |ps| == |xs| && (forall k | 0 <= k < |ps| :: ps[k] > 0) && Residues(m, xs, ps, i)
    requires Congruent(m, xs[i], ps[i])
    ensures Residues(m, xs, ps, i + 1)
  {
  }

  lemma ExtendResidues(m: nat, xs: seq<nat>, ps: seq<nat>, i: nat, coeff: nat)
    requires i < |ps| == |xs| && (forall k | 0 <= k < |ps| :: ps[k] > 0) && Residues(m, xs, ps, i)
    requires Congruent(coeff * Product(ps, i), 1, ps[i])
    ensures Residues(Extend(m, xs[i], coeff, ps[i], Product(ps, i)), xs, ps, i + 1)
  {
    var m' := Extend(m, xs[i], coeff, ps[i], Product(ps, i));
    KeepResidues(m, m', Correction(m, xs[i], coeff, ps[i]), xs, ps, i);
    NewResidue(m, xs[i], coeff, ps[i], Product(ps, i));
    OneResidueMore(m', xs, ps, i);
  }

  lemma ExtendBound(m: nat, t: nat, r: nat, p: nat)
    requires m < r && t < p
    ensures m + t * r < r * p
  {
    var k := p - 1 - t;
    assert r * p == t * r + r + k * r;
    assert k * r >= 0;
  }

  /** The first two residues. */
  method FirstTwo(x0: nat, x1: nat, p0: nat, p1: nat, qinv: nat) returns (m: nat)
    requires p0 > 0 && p1 > 0 && Congruent(qinv * p1, 1, p0)
    ensures Congruent(m, x0, p0) && Congruent(m, x1, p1) && (x1 < p1 ==> m < p0 * p1)
  {
    var d: int := x0 - x1;
    if d < 0 {
      d := d + p0;
      ModShift(x0 - x1, p0, 1);
    }
    var t := d * qinv % p0;
    m := t * p1 + x1;
    ModShift(x1, p1, t);
    ModMul(d * qinv, p1, p0);
    UnitTimes(d, qinv, p1, p0);
    ModAddLeft(t * p1, x1, p0);
    ModAddLeft(d, x1, p0);
    ModAddLeft(x0 - x1, x1, p0);
    if x1 < p1 {
      ExtendBound(x1, t, p1, p0);
    }
  }

  lemma TwoModuli(ps: seq<nat>)
    requires |ps| >= 2
    ensures Product(ps, 2) == ps[0] * ps[1]
  {
    assert Product(ps, 1) == ps[0];
  }

  method OneMore(m: nat, x: nat, coeff: nat, p: nat, r: nat) returns (m': nat)
    requires p > 0
    ensures m' == Extend(m, x, coeff, p, r) && (m < r ==> m' < r * p)
  {
    var m2 := (x - m) * coeff % p;
    m' := m + m2 * r;
    if m < r {
      ExtendBound(m, m2, r, p);
    }
  }

  /**
    * Recombination gives a number with all the residues asked for, below the product of the moduli if the residues are
    * reduced.
    */
  method Recombine(xs: seq<nat>, ps: seq<nat>, qinv: nat, coeffs: seq<nat>) returns (m: nat)
    requires Precomputed(ps, qinv, coeffs) && |xs| == |ps|
    ensures Residues(m, xs, ps, |ps|)
    ensures xs[1] < ps[1] ==> m < Product(ps, |ps|)
  {
    m := FirstTwo(xs[0], xs[1], ps[0], ps[1], qinv);
    TwoModuli(ps);
    var r: nat, i: nat := ps[0] * ps[1], 2;
    while i < |ps|
      invariant 2 <= i <= |ps| && r == Product(ps, i) && Residues(m, xs, ps, i) && (xs[1] < ps[1] ==> m < r)
    {
      ExtendResidues(m, xs, ps, i, coeffs[i - 2]);
      m := OneMore(m, xs[i], coeffs[i - 2], ps[i], r);
      r := r * ps[i];
      i := i + 1;
    }
  }
}
