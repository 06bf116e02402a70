/** The pairing check of `verifier/verifier.py` on a loaded proof (A, B, C),
    read in the exponent model of the curve groups. */
module Verifier {
  import opened Results
  import opened ModArith
  import opened Curve

  /** The three proof points: A and C in G1, B in G2. */
  datatype Proof = Proof(a: G1, b: G2, c: G1)

  /** `assert pairing(B, A) == pairing(G2, C)`; success returns True. */
  function Verify(proof: Proof, p: int): (r: Result<bool>)
    requires p > 1
    ensures r.Ok? ==> r.value
    ensures r.Ok? <==> (proof.a.exp * proof.b.exp) % p == proof.c.exp % p
    ensures r.Err? ==> r.error == PairingCheckFails
  {
    if Pairing(proof.b, proof.a, p) == Pairing(G2Gen, proof.c, p) then Ok(true) else Err(PairingCheckFails)
  }

  /** For a proof built as (u·G1, v·G2, c·G1) the check accepts exactly when
      c ≡ u·v modulo the group order. */
  lemma VerifyIffProductRelation(u: nat, v: nat, c: nat, p: int)
    requires p > 1
    ensures Verify(Proof(MulG1(G1Gen, u, p), MulG2(G2Gen, v, p), MulG1(G1Gen, c, p)), p).Ok?
        <==> (u * v) % p == c % p
  {
    calc {
      (((1 * u) % p) * ((1 * v) % p)) % p;
      { ModMulLeft(u, v % p, p); }
      (u * (v % p)) % p;
      { ModMulRight(u, v, p); }
      (u * v) % p;
    }
    ModMod(c, p);
  }
}
