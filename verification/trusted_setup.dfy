/** The scalar content of `trusted_setup/trusted_setup.py` in the exponent
    model: the powers of tau in G1 and G2, t(tau), the t(tau)·δ⁻¹ powers,
    the psi values with their γ⁻¹/δ⁻¹ scaling, and the public/private split.
    The toxic waste tau, alpha, beta, gamma, delta is a parameter. */
module TrustedSetup {
  import opened Results
  import opened ModArith
  import opened Utils
  import opened Witness
  import opened Curve
  import opened Qap

  /** `get_constraints_number`: (number of rows, length of the first row);
      reading L[0] of an empty L is an IndexError. */
  function GetConstraintsNumber(L: Matrix): (r: Result<(nat, nat)>)
    ensures r.Ok? <==> |L| > 0
    ensures r.Ok? ==> r.value.0 == |L| && r.value.1 == |L[0]|
    ensures r.Err? ==> r.error == IndexOutOfRange
  {
    if |L| == 0 then Err(IndexOutOfRange) else Ok((|L|, |L[0]|))
  }

  /** Length of a list that starts with one entry and then grows once per
      iteration of `for i in range(0, degree)`. */
  function GrownLength(degree: int): nat {
    if degree > 0 then degree + 1 else 1
  }

  /** Entry k of the G1 sequence is τ^k·G1. */
  predicate PowersOfTauG1(srs: seq<G1>, tau: int, p: int)
    requires p > 1
  {
    forall k :: 0 <= k < |srs| ==> srs[k].exp == Pow(tau, k) % p
  }

  /** Entry k of the G2 sequence is τ^k·G2. */
  predicate PowersOfTauG2(srs: seq<G2>, tau: int, p: int)
    requires p > 1
  {
    forall k :: 0 <= k < |srs| ==> srs[k].exp == Pow(tau, k) % p
  }

  /** `power_of_tau_G1`: [G1, τ·G1, …, τ^(m−1)·G1], and just [G1] when m <= 1. */
  method PowerOfTauG1(constraintsNb: int, tau: nat, p: int) returns (srs: seq<G1>)
    requires p > 1
    ensures |srs| == GrownLength(constraintsNb - 1)
    ensures constraintsNb >= 1 ==> |srs| == constraintsNb
    ensures PowersOfTauG1(srs, tau, p)
  {
    srs := [MulG1(G1Gen, 1, p)];
    var degree := constraintsNb - 1;
    var i := 0;
    while i < degree
      invariant 0 <= i <= (if degree > 0 then degree else 0)
      invariant |srs| == i + 1
      invariant PowersOfTauG1(srs, tau, p)
    {
      PowStep(tau, i, p);
      srs := srs + [MulG1(srs[i], tau, p)];
      i := i + 1;
    }
  }

  /** `power_of_tau_G2`: [G2, τ·G2, …, τ^(m−1)·G2], and just [G2] when m <= 1. */
  method PowerOfTauG2(constraintsNb: int, tau: nat, p: int) returns (srs: seq<G2>)
    requires p > 1
    ensures |srs| == GrownLength(constraintsNb - 1)
    ensures constraintsNb >= 1 ==> |srs| == constraintsNb
    ensures PowersOfTauG2(srs, tau, p)
  {
    srs := [MulG2(G2Gen, 1, p)];
    var degree := constraintsNb - 1;
    var i := 0;
    while i < degree
      invariant 0 <= i <= (if degree > 0 then degree else 0)
      invariant |srs| == i + 1
      invariant PowersOfTauG2(srs, tau, p)
    {
      PowStep(tau, i, p);
      srs := srs + [MulG2(srs[i], tau, p)];
      i := i + 1;
    }
  }

  /** Consecutive G1 powers are linked by the pairing with τ·G2:
      e(τ·G2, srs[i]) = e(G2, srs[i+1]), the self-check a setup can run. */
  lemma PowersOfTauPairingLink(srs: seq<G1>, tau: nat, p: int)
    requires p > 1 && PowersOfTauG1(srs, tau, p)
    ensures forall i :: 0 <= i < |srs| - 1 ==>
      Pairing(MulG2(G2Gen, tau, p), srs[i], p) == Pairing(G2Gen, srs[i + 1], p)
  {
    forall i | 0 <= i < |srs| - 1
      ensures Pairing(MulG2(G2Gen, tau, p), srs[i], p) == Pairing(G2Gen, srs[i + 1], p)
    {
      calc {
        Pairing(MulG2(G2Gen, tau, p), srs[i], p);
        ((tau % p) * (Pow(tau, i) % p)) % p;
        { ModMulLeft(tau, Pow(tau, i) % p, p); }
        (tau * (Pow(tau, i) % p)) % p;
        { ModMulRight(tau, Pow(tau, i), p); }
        (tau * Pow(tau, i)) % p;
        { assert tau * Pow(tau, i) == Pow(tau, i + 1); }
        Pow(tau, i + 1) % p;
        { ModMod(Pow(tau, i + 1), p); }
        Pairing(G2Gen, srs[i + 1], p);
      }
    }
  }

  /** `calculate_t_at_tau_G1`: t(τ)·G1, with t(τ) accumulated and reduced
      after every factor. */
  method CalculateTAtTauG1(tau: int, constraintsNb: int, p: int) returns (t: G1)
    requires p > 1
    ensures t.exp == Vanishing(tau, constraintsNb) % p
  {
    var acc := 1;
    var i := 1;
    while i < constraintsNb + 1
      invariant 1 <= i <= (if constraintsNb >= 0 then constraintsNb + 1 else 1)
      invariant acc == Vanishing(tau, i - 1) % p
    {
      ModMulLeft(Vanishing(tau, i - 1), tau - i, p);
      acc := (acc * (tau - i)) % p;
      i := i + 1;
    }
    ModMod(acc, p);
    t := MulG1(G1Gen, acc, p);
  }

  /** One step of a scaled power sequence: reducing c·τ^k and multiplying
      by τ gives c·τ^(k+1). */
  lemma ScaledPowStep(c: int, tau: int, k: nat, p: int)
    requires p > 1
    ensures (((c * Pow(tau, k)) % p) * tau) % p == (c * Pow(tau, k + 1)) % p
  {
    ModMulLeft(c * Pow(tau, k), tau, p);
    assert (c * Pow(tau, k)) * tau == c * Pow(tau, k + 1);
  }

  /** `power_of_tau_G1_with_t`: [t(τ)δ⁻¹·G1, t(τ)δ⁻¹τ·G1, …], m − 1 entries
      when m >= 2 and one otherwise; `pow(delta, -1, p)` fails when δ has no
      inverse. */
  method PowerOfTauG1WithT(constraintsNb: int, tau: nat, delta: int, p: int) returns (r: Result<seq<G1>>)
    requires p > 1
    ensures r.Ok? <==> ModInverse(delta, p).Some?
    ensures Prime(p) ==> (r.Ok? <==> delta % p != 0)
    ensures r.Err? ==> r.error == NotInvertible
    ensures r.Ok? ==> |r.value| == GrownLength(constraintsNb - 2)
    ensures r.Ok? && constraintsNb >= 2 ==> |r.value| == constraintsNb - 1
    ensures r.Ok? ==> forall k :: 0 <= k < |r.value| ==>
      (r.value[k].exp * delta) % p == (Vanishing(tau, constraintsNb) * Pow(tau, k)) % p
  {
    if Prime(p) && delta % p != 0 {
      InverseExists(delta, p);
    }
    var degree := constraintsNb - 2;
    var t := CalculateTAtTauG1(tau, constraintsNb, p);
    var inverse := ModInverse(delta, p);
    if inverse.None? {
      return Err(NotInvertible);
    }
    var dinv := inverse.value;
    var v := Vanishing(tau, constraintsNb);
    var c := v * dinv;
    ModMulLeft(v, dinv, p);
    assert c * Pow(tau, 0) == c;
    var srs := [MulG1(t, dinv, p)];
    var i := 0;
    while i < degree
      invariant 0 <= i <= (if degree > 0 then degree else 0)
      invariant |srs| == i + 1
      invariant forall k :: 0 <= k < |srs| ==> srs[k].exp == (c * Pow(tau, k)) % p
    {
      ScaledPowStep(c, tau, i, p);
      srs := srs + [MulG1(srs[i], tau, p)];
      i := i + 1;
    }
    forall k | 0 <= k < |srs|
      ensures (srs[k].exp * delta) % p == (v * Pow(tau, k)) % p
    {
      MulSwapRight(v, dinv, Pow(tau, k));
      InverseCancels(v * Pow(tau, k), dinv, delta, p);
    }
    r := Ok(srs);
  }

  // ---------------------------------------------------------------------
  // psi
  // ---------------------------------------------------------------------

  /** α·R_i(τ) + β·L_i(τ) + O_i(τ) in the field: the unscaled psi_i. */
  function PsiNumerator(i: nat, lEval: seq<int>, rEval: seq<int>, oEval: seq<int>, alpha: int, beta: int, p: int): int
    requires p > 1 && i < |lEval| && i < |rEval| && i < |oEval|
  {
    (alpha * rEval[i] + beta * lEval[i] + oEval[i]) % p
  }

  /** The divisor a psi entry is scaled by: γ for a public index, δ otherwise. */
  function PsiScale(i: nat, numPublic: int, delta: int, gamma: int): int {
    if i < numPublic then gamma else delta
  }

  /** One iteration of the psi loop: read R_i(τ), L_i(τ), O_i(τ) (an
      IndexError past the end of any), then scale by the inverse of γ or δ. */
  function PsiEntry(i: nat, lEval: seq<int>, rEval: seq<int>, oEval: seq<int>, alpha: int, beta: int,
                    numPublic: int, delta: int, gamma: int, p: int): (r: Result<G1>)
    requires p > 1
  {
    if i >= |rEval| || i >= |lEval| || i >= |oEval| then Err(IndexOutOfRange)
    else
      match ModInverse(PsiScale(i, numPublic, delta, gamma), p)
      case None => Err(NotInvertible)
      case Some(inv) => Ok(MulG1(MulG1(G1Gen, PsiNumerator(i, lEval, rEval, oEval, alpha, beta, p), p), inv, p))
  }

  /** A psi entry times its scale is the unscaled combination; the entry
      exists exactly when the evaluations reach index i and the scale is
      invertible (over a prime: nonzero). */
  lemma PsiEntryMeaning(i: nat, lEval: seq<int>, rEval: seq<int>, oEval: seq<int>, alpha: int, beta: int,
                        numPublic: int, delta: int, gamma: int, p: int)
    requires p > 1
    ensures PsiEntry(i, lEval, rEval, oEval, alpha, beta, numPublic, delta, gamma, p).Ok? ==>
      var e := PsiEntry(i, lEval, rEval, oEval, alpha, beta, numPublic, delta, gamma, p).value;
      && 0 <= e.exp < p
      && (e.exp * PsiScale(i, numPublic, delta, gamma)) % p == (alpha * rEval[i] + beta * lEval[i] + oEval[i]) % p
    ensures Prime(p) ==>
      (PsiEntry(i, lEval, rEval, oEval, alpha, beta, numPublic, delta, gamma, p).Ok? <==>
         (i < |lEval| && i < |rEval| && i < |oEval| && PsiScale(i, numPublic, delta, gamma) % p != 0))
  {
    var scale := PsiScale(i, numPublic, delta, gamma);
    if Prime(p) && scale % p != 0 {
      InverseExists(scale, p);
    }
    if i < |lEval| && i < |rEval| && i < |oEval| && ModInverse(scale, p).Some? {
      var s := PsiNumerator(i, lEval, rEval, oEval, alpha, beta, p);
      var inv := ModInverse(scale, p).value;
      ModMod(s, p);
      InverseCancels(s, inv, scale, p);
      ModMod(alpha * rEval[i] + beta * lEval[i] + oEval[i], p);
    }
  }

  /** Every psi entry below index n exists. */
  predicate AllPsiEntriesOk(n: int, lEval: seq<int>, rEval: seq<int>, oEval: seq<int>, alpha: int, beta: int,
                            numPublic: int, delta: int, gamma: int, p: int)
    requires p > 1
  {
    forall i :: 0 <= i < n ==> PsiEntry(i, lEval, rEval, oEval, alpha, beta, numPublic, delta, gamma, p).Ok?
  }

  /** Over a prime, with δ a nonzero residue and at least one public input
      (so index 0 is scaled by γ), the first n psi entries all exist exactly
      when the evaluations reach index n − 1 and, if there is an entry at
      all, γ is not the draw p. */
  lemma {:induction false} PsiEntriesAllOk(n: nat, lEval: seq<int>, rEval: seq<int>, oEval: seq<int>, alpha: int, beta: int,
                                           numPublic: int, delta: int, gamma: int, p: int)
    requires Prime(p) && numPublic >= 1 && 1 <= delta < p && 1 <= gamma <= p
    ensures AllPsiEntriesOk(n, lEval, rEval, oEval, alpha, beta, numPublic, delta, gamma, p)
        <==> (n <= |lEval| && n <= |rEval| && n <= |oEval| && (n > 0 ==> gamma < p))
  {
    ModUnique(delta, 0, delta, p);
    ModUnique(p, 1, 0, p);
    if gamma < p {
      ModUnique(gamma, 0, gamma, p);
    }
    if n > 0 {
      PsiEntryMeaning(0, lEval, rEval, oEval, alpha, beta, numPublic, delta, gamma, p);
      PsiEntryMeaning(n - 1, lEval, rEval, oEval, alpha, beta, numPublic, delta, gamma, p);
    }
    if n <= |lEval| && n <= |rEval| && n <= |oEval| && (n > 0 ==> gamma < p) {
      forall i | 0 <= i < n
        ensures PsiEntry(i, lEval, rEval, oEval, alpha, beta, numPublic, delta, gamma, p).Ok?
      {
        PsiEntryMeaning(i, lEval, rEval, oEval, alpha, beta, numPublic, delta, gamma, p);
      }
    }
  }

  /** With at least one public input, index 0 is scaled by γ; when γ has no
      inverse, the first failing psi entry is that one, with `pow`'s error. */
  lemma FirstPsiFailureAtGamma(n: int, lEval: seq<int>, rEval: seq<int>, oEval: seq<int>, alpha: int, beta: int,
                               numPublic: int, delta: int, gamma: int, p: int, e: Error)
    requires p > 1 && numPublic >= 1 && 0 < |lEval| && 0 < |rEval| && 0 < |oEval| && gamma % p == 0
    requires exists i :: (&& 0 <= i < n
                          && PsiEntry(i, lEval, rEval, oEval, alpha, beta, numPublic, delta, gamma, p) == Err(e)
                          && forall j :: 0 <= j < i ==> PsiEntry(j, lEval, rEval, oEval, alpha, beta, numPublic, delta, gamma, p).Ok?)
    ensures e == NotInvertible
  {
    var i :| (&& 0 <= i < n
              && PsiEntry(i, lEval, rEval, oEval, alpha, beta, numPublic, delta, gamma, p) == Err(e)
              && forall j :: 0 <= j < i ==> PsiEntry(j, lEval, rEval, oEval, alpha, beta, numPublic, delta, gamma, p).Ok?);
    assert PsiEntry(0, lEval, rEval, oEval, alpha, beta, numPublic, delta, gamma, p) == Err(NotInvertible);
  }

  /** `calculate_psi_values` with the Lagrange evaluations L_i(τ), R_i(τ),
      O_i(τ) given: the field conversions of τ, α, β, then one entry per
      variable index below `numPolynomials`, the first failing entry
      aborting. */
  method CalculatePsiValues(lEval: seq<int>, rEval: seq<int>, oEval: seq<int>, tau: int, numPolynomials: int,
                            alpha: int, beta: int, numPublic: int, delta: int, gamma: int, p: int)
    returns (r: Result<seq<G1>>)
    requires p > 1
    ensures !(0 <= tau < p && 0 <= alpha < p && 0 <= beta < p) ==> r == Err(NotAFieldElement)
    ensures r.Ok? <==> (&& 0 <= tau < p && 0 <= alpha < p && 0 <= beta < p
                        && AllPsiEntriesOk(numPolynomials, lEval, rEval, oEval, alpha, beta, numPublic, delta, gamma, p))
    ensures r.Ok? ==> |r.value| == (if numPolynomials > 0 then numPolynomials else 0)
    ensures r.Ok? ==> |r.value| <= |lEval| && |r.value| <= |rEval| && |r.value| <= |oEval|
    ensures r.Ok? ==> forall i :: 0 <= i < |r.value| ==>
      r.value[i] == PsiEntry(i, lEval, rEval, oEval, alpha, beta, numPublic, delta, gamma, p).value
    ensures r.Ok? ==> forall i :: 0 <= i < |r.value| ==>
      (r.value[i].exp * PsiScale(i, numPublic, delta, gamma)) % p == (alpha * rEval[i] + beta * lEval[i] + oEval[i]) % p
    ensures r.Err? && 0 <= tau < p && 0 <= alpha < p && 0 <= beta < p ==>
      exists i :: (&& 0 <= i < numPolynomials
                   && PsiEntry(i, lEval, rEval, oEval, alpha, beta, numPublic, delta, gamma, p) == Err(r.error)
                   && forall j :: 0 <= j < i ==> PsiEntry(j, lEval, rEval, oEval, alpha, beta, numPublic, delta, gamma, p).Ok?)
  {
    var tauField := FieldElement(tau, p);
    var alphaField := FieldElement(alpha, p);
    var betaField := FieldElement(beta, p);
    if tauField.Err? || alphaField.Err? || betaField.Err? {
      return Err(NotAFieldElement);
    }
    var psi: seq<G1> := [];
    var i := 0;
    while i < numPolynomials
      invariant 0 <= i <= (if numPolynomials > 0 then numPolynomials else 0)
      invariant |psi| == i
      invariant i <= |lEval| && i <= |rEval| && i <= |oEval|
      invariant forall j :: 0 <= j < i ==> PsiEntry(j, lEval, rEval, oEval, alpha, beta, numPublic, delta, gamma, p).Ok?
      invariant forall j :: 0 <= j < i ==> psi[j] == PsiEntry(j, lEval, rEval, oEval, alpha, beta, numPublic, delta, gamma, p).value
      invariant forall j :: 0 <= j < i ==>
        (psi[j].exp * PsiScale(j, numPublic, delta, gamma)) % p == (alpha * rEval[j] + beta * lEval[j] + oEval[j]) % p
    {
      var entry := PsiEntry(i, lEval, rEval, oEval, alpha, beta, numPublic, delta, gamma, p);
      if entry.Err? {
        return Err(entry.error);
      }
      PsiEntryMeaning(i, lEval, rEval, oEval, alpha, beta, numPublic, delta, gamma, p);
      psi := psi + [entry.value];
      i := i + 1;
    }
    r := Ok(psi);
  }

  // ---------------------------------------------------------------------
  // The public/private split and the assembled reference string
  // ---------------------------------------------------------------------

  /** The bound Python uses for `s[:k]` and `s[k:]` on a list of length n:
      a negative k counts from the end, and the bound is clamped to [0, n]. */
  function SliceBound(k: int, n: nat): (c: nat)
    ensures c <= n
  {
    if k >= n then n
    else if k >= 0 then k
    else if n + k > 0 then n + k
    else 0
  }

  /** `verifying_psi = psi[:k]` and `proving_psi = psi[k:]`. */
  function SplitPsi(psi: seq<G1>, numPublic: int): (r: (seq<G1>, seq<G1>))
    ensures r.0 + r.1 == psi
    ensures numPublic >= 0 ==> |r.0| == (if numPublic < |psi| then numPublic else |psi|)
    ensures numPublic >= 0 ==> |r.1| == |psi| - (if numPublic < |psi| then numPublic else |psi|)
    ensures forall i :: 0 <= i < |r.0| ==> r.0[i] == psi[i]
    ensures forall i :: 0 <= i < |r.1| ==> r.1[i] == psi[|r.0| + i]
  {
    var c := SliceBound(numPublic, |psi|);
    assert psi[..c] + psi[c..] == psi;
    (psi[..c], psi[c..])
  }

  /** Every point of `pts`, standing at psi index offset + i, is the unscaled
      combination α·R(τ) + β·L(τ) + O(τ) divided by `scale`. */
  predicate ScaledBy(pts: seq<G1>, offset: nat, scale: int, lEval: seq<int>, rEval: seq<int>, oEval: seq<int>,
                     alpha: int, beta: int, p: int)
    requires p > 1 && offset + |pts| <= |lEval| && offset + |pts| <= |rEval| && offset + |pts| <= |oEval|
  {
    forall i :: 0 <= i < |pts| ==>
      (pts[i].exp * scale) % p == (alpha * rEval[offset + i] + beta * lEval[offset + i] + oEval[offset + i]) % p
  }

  /** Splitting at the public input count keeps the convention of the psi
      loop: the verifying part is exactly the γ-scaled entries and the
      proving part exactly the δ-scaled ones. */
  lemma SplitPsiScaling(psi: seq<G1>, lEval: seq<int>, rEval: seq<int>, oEval: seq<int>, alpha: int, beta: int,
                        numPublic: nat, delta: int, gamma: int, p: int)
    requires p > 1 && |psi| <= |lEval| && |psi| <= |rEval| && |psi| <= |oEval|
    requires forall i :: 0 <= i < |psi| ==>
      (psi[i].exp * PsiScale(i, numPublic, delta, gamma)) % p == (alpha * rEval[i] + beta * lEval[i] + oEval[i]) % p
    ensures ScaledBy(SplitPsi(psi, numPublic).0, 0, gamma, lEval, rEval, oEval, alpha, beta, p)
    ensures ScaledBy(SplitPsi(psi, numPublic).1, |SplitPsi(psi, numPublic).0|, delta, lEval, rEval, oEval, alpha, beta, p)
  {
    var split := SplitPsi(psi, numPublic);
    forall i | 0 <= i < |split.1|
      ensures var j := |split.0| + i;
        (split.1[i].exp * delta) % p == (alpha * rEval[j] + beta * lEval[j] + oEval[j]) % p
    {
      var j := |split.0| + i;
      assert split.1[i] == psi[j];
      assert PsiScale(j, numPublic, delta, gamma) == delta;
    }
    forall i | 0 <= i < |split.0|
      ensures (split.0[i].exp * gamma) % p == (alpha * rEval[i] + beta * lEval[i] + oEval[i]) % p
    {
      assert split.0[i] == psi[i];
      assert PsiScale(i, numPublic, delta, gamma) == gamma;
    }
  }

  /** What `generate_srs` computes and hands to the key writers. */
  datatype Srs = Srs(srs1: seq<G1>, srs2: seq<G2>, srs3: seq<G1>, psi: seq<G1>,
                     verifyingPsi: seq<G1>, provingPsi: seq<G1>,
                     alphaG1: G1, betaG2: G2, deltaG2: G2, gammaG2: G2)

  /** The data flow of `generate_srs` after the R1CS has been loaded: the
      constraint and variable counts, the public input count, the three SRS
      sequences, psi, its split, and the toxic waste in the groups. The five
      random draws `randint(1, p)` are parameters. */
  method GenerateSrs(L: Matrix, lEval: seq<int>, rEval: seq<int>, oEval: seq<int>, publicWitness: seq<int>,
                     tau: int, alpha: int, beta: int, delta: int, gamma: int, p: int)
    returns (r: Result<Srs>)
    requires p > 1
    requires 1 <= tau <= p && 1 <= alpha <= p && 1 <= beta <= p && 1 <= delta <= p && 1 <= gamma <= p
    ensures |L| == 0 ==> r == Err(IndexOutOfRange)
    ensures |L| > 0 && |publicWitness| == 0 ==> r == Err(EmptyPublicWitness)
    ensures Prime(p) && |L| > 0 && |publicWitness| > 0 && delta == p ==> r == Err(NotInvertible)
    ensures (Prime(p) && |L| > 0 && |publicWitness| > 0 && delta < p && (tau == p || alpha == p || beta == p))
      ==> r == Err(NotAFieldElement)
    ensures (&& Prime(p) && |L| > 0 && |L[0]| > 0 && |publicWitness| > 0 && |lEval| > 0 && |rEval| > 0 && |oEval| > 0
             && delta < p && tau < p && alpha < p && beta < p && gamma == p)
      ==> r == Err(NotInvertible)
    ensures Prime(p) ==>
      (r.Ok? <==> (&& |L| > 0 && |publicWitness| > 0 && delta < p && tau < p && alpha < p && beta < p
                   && |L[0]| <= |lEval| && |L[0]| <= |rEval| && |L[0]| <= |oEval| && (|L[0]| > 0 ==> gamma < p)))
    ensures r.Ok? ==> |r.value.srs1| == |L| && |r.value.srs2| == |L| && |r.value.srs3| == GrownLength(|L| - 2)
    ensures r.Ok? ==> PowersOfTauG1(r.value.srs1, tau, p) && PowersOfTauG2(r.value.srs2, tau, p)
    ensures r.Ok? ==> forall k :: 0 <= k < |r.value.srs3| ==>
      (r.value.srs3[k].exp * delta) % p == (Vanishing(tau, |L|) * Pow(tau, k)) % p
    ensures r.Ok? ==> |r.value.psi| == |L[0]|
    ensures r.Ok? ==> |r.value.psi| <= |lEval| && |r.value.psi| <= |rEval| && |r.value.psi| <= |oEval|
    ensures r.Ok? ==> r.value.verifyingPsi + r.value.provingPsi == r.value.psi
    ensures r.Ok? ==> |r.value.verifyingPsi| == (if |publicWitness| < |L[0]| then |publicWitness| else |L[0]|)
    ensures r.Ok? ==> ScaledBy(r.value.verifyingPsi, 0, gamma, lEval, rEval, oEval, alpha, beta, p)
    ensures r.Ok? ==> ScaledBy(r.value.provingPsi, |r.value.verifyingPsi|, delta, lEval, rEval, oEval, alpha, beta, p)
    ensures r.Ok? ==> (&& r.value.alphaG1.exp == alpha % p && r.value.betaG2.exp == beta % p
                       && r.value.deltaG2.exp == delta % p && r.value.gammaG2.exp == gamma % p)
  {
    var counts := GetConstraintsNumber(L);
    if counts.Err? {
      return Err(counts.error);
    }
    var constraintsNb, numVariables := counts.value.0, counts.value.1;
    var numPublicResult := PublicInputsLength(publicWitness);
    if numPublicResult.Err? {
      return Err(numPublicResult.error);
    }
    var numPublic := numPublicResult.value;
    var srs1 := PowerOfTauG1(constraintsNb, tau, p);
    var srs2 := PowerOfTauG2(constraintsNb, tau, p);
    if delta < p {
      ModUnique(delta, 0, delta, p);
    }
    var srs3 := PowerOfTauG1WithT(constraintsNb, tau, delta, p);
    if srs3.Err? {
      return Err(srs3.error);
    }
    ModUnique(p, 1, 0, p);
    assert delta != p;
    var psi := CalculatePsiValues(lEval, rEval, oEval, tau, numVariables, alpha, beta, numPublic, delta, gamma, p);
    if Prime(p) {
      PsiEntriesAllOk(numVariables, lEval, rEval, oEval, alpha, beta, numPublic, delta, gamma, p);
    }
    if psi.Err? {
      if gamma == p && 0 < numVariables && 0 < |lEval| && 0 < |rEval| && 0 < |oEval| && tau < p && alpha < p && beta < p {
        FirstPsiFailureAtGamma(numVariables, lEval, rEval, oEval, alpha, beta, numPublic, delta, gamma, p, psi.error);
      }
      return Err(psi.error);
    }
    var split := SplitPsi(psi.value, numPublic);
    SplitPsiScaling(psi.value, lEval, rEval, oEval, alpha, beta, numPublic, delta, gamma, p);
    r := Ok(Srs(srs1, srs2, srs3.value, psi.value, split.0, split.1,
                MulG1(G1Gen, alpha, p), MulG2(G2Gen, beta, p), MulG2(G2Gen, delta, p), MulG2(G2Gen, gamma, p)));
  }
}
