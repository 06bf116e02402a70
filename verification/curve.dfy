/** The exponent model of the BN254 groups: a point k·G is represented by
    its discrete logarithm k modulo the group order p, so scalar
    multiplication is multiplication of exponents and the pairing
    e(b·G2, a·G1) is read as a·b modulo p. */
module Curve {
  import opened ModArith

  /** A point of G1, k·G1, represented by k. */
  datatype G1 = G1(exp: int)

  /** A point of G2, k·G2, represented by k. */
  datatype G2 = G2(exp: int)

  /** The generators G1 and G2. */
  const G1Gen: G1 := G1(1)
  const G2Gen: G2 := G2(1)

  /** `multiply(pt, n)` on G1 for n >= 0 (the point at infinity is exponent 0). */
  function MulG1(pt: G1, n: nat, p: int): (r: G1)
    requires p > 1
    ensures 0 <= r.exp < p
  {
    G1((pt.exp * n) % p)
  }

  /** `multiply(pt, n)` on G2 for n >= 0. */
  function MulG2(pt: G2, n: nat, p: int): (r: G2)
    requires p > 1
    ensures 0 <= r.exp < p
  {
    G2((pt.exp * n) % p)
  }

  /** `pairing(q, pt)`, represented by its exponent in the target group. */
  function Pairing(q: G2, pt: G1, p: int): int
    requires p > 1
  {
    (q.exp * pt.exp) % p
  }

  /** Bilinearity, e(a·Q, b·P) = e(Q, P)^(a·b), holds of the exponent model. */
  lemma PairingBilinear(q: G2, pt: G1, a: nat, b: nat, p: int)
    requires p > 1
    ensures Pairing(MulG2(q, a, p), MulG1(pt, b, p), p) == (Pairing(q, pt, p) * (a * b)) % p
  {
    calc {
      Pairing(MulG2(q, a, p), MulG1(pt, b, p), p);
      (((q.exp * a) % p) * ((pt.exp * b) % p)) % p;
      { ModMulLeft(q.exp * a, (pt.exp * b) % p, p); }
      ((q.exp * a) * ((pt.exp * b) % p)) % p;
      { ModMulRight(q.exp * a, pt.exp * b, p); }
      ((q.exp * a) * (pt.exp * b)) % p;
      { assert (q.exp * a) * (pt.exp * b) == (q.exp * pt.exp) * (a * b); }
      ((q.exp * pt.exp) * (a * b)) % p;
      { ModMulLeft(q.exp * pt.exp, a * b, p); }
      (Pairing(q, pt, p) * (a * b)) % p;
    }
  }
}
