/** The scalar part of `prover/prover.py`: the QAP proof (A, B, C) built from
    a witness and the Lagrange evaluations at τ, and the "somewhat zero
    knowledge" proof that lifts every witness entry into G1 and G2. */
module Prover {
  import opened Results
  import opened ModArith
  import opened Utils
  import opened Witness
  import opened Curve
  import opened Qap
  import opened Verifier

  function Min(a: nat, b: nat): nat {
    if a <= b then a else b
  }

  /** Σ w[i]·e[i] over the pairs `zip` produces, which stops at the shorter
      list. */
  function ZipDot(w: seq<int>, e: seq<int>): int {
    var n := Min(|w|, |e|);
    Dot(w[..n], e[..n])
  }

  // ---------------------------------------------------------------------
  // generate_qap_proof
  // ---------------------------------------------------------------------

  /** `acc = GF(0); for w, e in zip(ws, es): acc += w * e` in GF(p). */
  method WeightedSum(w: seq<int>, e: seq<int>, p: int) returns (s: int)
    requires p > 1
    ensures 0 <= s < p
    ensures s == ZipDot(w, e) % p
  {
    var n := Min(|w|, |e|);
    s := 0;
    var i := 0;
    while i < n
      invariant 0 <= i <= n
      invariant 0 <= s < p
      invariant s == Dot(w[..i], e[..i]) % p
    {
      assert w[..i + 1][..i] == w[..i];
      assert e[..i + 1][..i] == e[..i];
      assert Dot(w[..i + 1], e[..i + 1]) == Dot(w[..i], e[..i]) + w[i] * e[i];
      ModAddLeft(Dot(w[..i], e[..i]), (w[i] * e[i]) % p, p);
      ModAddLeft(w[i] * e[i], Dot(w[..i], e[..i]), p);
      s := (s + (w[i] * e[i]) % p) % p;
      i := i + 1;
    }
  }

  /** `t = GF(1); for i in range(1, m + 1): t = t * (tau - GF(i))`: the
      vanishing polynomial at τ, with the field refusing GF(i) once i
      reaches p. */
  method VanishingInField(tau: int, m: nat, p: int) returns (r: Result<int>)
    requires p > 1 && 0 <= tau < p
    ensures r.Ok? <==> m < p
    ensures r.Err? ==> r.error == NotAFieldElement
    ensures r.Ok? ==> r.value == Vanishing(tau, m) % p
  {
    var t := 1;
    var i := 1;
    while i <= m
      invariant 1 <= i <= m + 1
      invariant i - 1 < p
      invariant t == Vanishing(tau, i - 1) % p
    {
      var gi := FieldElement(i, p);
      if gi.Err? {
        return Err(gi.error);
      }
      var prev := Vanishing(tau, i - 1);
      ModMulRight(t, tau - i, p);
      ModMulLeft(prev, tau - i, p);
      assert (t * ((tau - gi.value) % p)) % p == Vanishing(tau, i) % p;
      t := (t * ((tau - gi.value) % p)) % p;
      i := i + 1;
    }
    ModMod(Vanishing(tau, m), p);
    return Ok(t);
  }

  /** `h = (u*v - w) // t` in GF(p): division by the inverse of t, and
      ZeroDivisionError when t has none. */
  function QapQuotient(u: int, v: int, w: int, t: int, p: int): (r: Result<int>)
    requires p > 1
    ensures r.Ok? <==> ModInverse(t, p).Some?
    ensures r.Err? ==> r.error == DivisionByZero
    ensures r.Ok? ==> 0 <= r.value < p && ((r.value * t) % p + w) % p == (u * v) % p
  {
    match ModInverse(t, p)
    case None => Err(DivisionByZero)
    case Some(inv) =>
      var diff := ((u * v) % p - w) % p;
      var h := (diff * inv) % p;
      assert ((h * t) % p + w) % p == (u * v) % p by {
        assert (t * inv) % p == 1;
        InverseCancels(diff, inv, t, p);
        ModMod((u * v) % p - w, p);
        ModAddLeft((u * v) % p - w, w, p);
        ModMod(u * v, p);
      }
      Ok(h)
  }

  /** `assert u*v == w + h*t` in GF(p). */
  function QapCheck(u: int, v: int, w: int, h: int, t: int, p: int): (r: Result<int>)
    requires p > 1
    ensures r.Ok? <==> (u * v) % p == (w + (h * t) % p) % p
    ensures r.Ok? ==> r.value == (u * v) % p
    ensures r.Err? ==> r.error == QapRelationFails
  {
    var rhs := (w + (h * t) % p) % p;
    if (u * v) % p == rhs then Ok(rhs) else Err(QapRelationFails)
  }

  /** The quotient the prover computes always passes its own assertion. */
  lemma QapCheckNeverFails(u: int, v: int, w: int, t: int, p: int)
    requires p > 1 && QapQuotient(u, v, w, t, p).Ok?
    ensures QapCheck(u, v, w, QapQuotient(u, v, w, t, p).value, t, p).Ok?
  {
    var h := QapQuotient(u, v, w, t, p).value;
    assert (h * t) % p + w == w + (h * t) % p;
  }

  /** The tail of `generate_qap_proof` once u, v, w and t are known: the
      quotient h, the asserted relation, and A = u·G1, B = v·G2,
      C = (w + h·t)·G1. */
  method AssembleProof(u: int, v: int, w: int, t: int, p: int) returns (r: Result<Proof>)
    requires p > 1 && 0 <= u < p && 0 <= v < p
    ensures r.Ok? <==> ModInverse(t, p).Some?
    ensures r.Err? ==> r.error == DivisionByZero
    ensures r.Ok? ==> r.value.a.exp == u && r.value.b.exp == v && r.value.c.exp == (u * v) % p
    ensures r.Ok? ==> Verify(r.value, p) == Ok(true)
  {
    var h := QapQuotient(u, v, w, t, p);
    if h.Err? {
      return Err(h.error);
    }
    QapCheckNeverFails(u, v, w, t, p);
    var c := QapCheck(u, v, w, h.value, t, p);
    assert c.Ok?;  // the source's `assert u*v == w + h*t` never fires
    var proof := Proof(MulG1(G1Gen, u, p), MulG2(G2Gen, v, p), MulG1(G1Gen, c.value, p));
    assert proof.a.exp == u by {
      ModUnique(u, 0, u, p);
    }
    assert proof.b.exp == v by {
      ModUnique(v, 0, v, p);
    }
    assert proof.c.exp == (u * v) % p by {
      ModMod(u * v, p);
    }
    VerifyIffProductRelation(u, v, c.value, p);
    return Ok(proof);
  }

  /** `generate_qap_proof` after loading: the witness reduced modulo p, the
      Lagrange evaluations at τ as inputs (one per column of L, R, O), the
      draw of `random.randint(0, p)` as `tauDraw`, and the constraint count
      |L|. */
  method GenerateQapProof(witnessData: seq<int>, L: Matrix, lEval: seq<int>, rEval: seq<int>, oEval: seq<int>,
                          tauDraw: int, p: int) returns (r: Result<Proof>)
    requires p > 1
    ensures r != Err(QapRelationFails)
    ensures r.Ok? ==> Verify(r.value, p) == Ok(true)
    ensures r.Ok? ==> (var w := Reduce(witnessData, p);
                       && r.value.a.exp == ZipDot(w, lEval) % p
                       && r.value.b.exp == ZipDot(w, rEval) % p
                       && r.value.c.exp == (r.value.a.exp * r.value.b.exp) % p)
    ensures |witnessData| == 0 ==> r == Err(EmptyWitness)
    ensures |witnessData| > 0 && !(0 <= tauDraw < p) ==> r == Err(NotAFieldElement)
    ensures |witnessData| > 0 && 0 <= tauDraw < p && |L| >= p ==> r == Err(NotAFieldElement)
    ensures (|witnessData| > 0 && 0 <= tauDraw < p && |L| < p && Vanishing(tauDraw, |L|) % p == 0)
      ==> r == Err(DivisionByZero)
    ensures Prime(p) ==>
      (r.Ok? <==> |witnessData| > 0 && 0 <= tauDraw < p && |L| < p && Vanishing(tauDraw, |L|) % p != 0)
  {
    var loaded := LoadWitness(witnessData, Some(p), None);
    if loaded.Err? {
      return Err(loaded.error);
    }
    var ws := loaded.value;
    var tau := FieldElement(tauDraw, p);
    if tau.Err? {
      return Err(tau.error);
    }
    var u := WeightedSum(ws, lEval, p);
    var v := WeightedSum(ws, rEval, p);
    var w := WeightedSum(ws, oEval, p);
    var t := VanishingInField(tau.value, |L|, p);
    if t.Err? {
      return Err(t.error);
    }
    ModMod(Vanishing(tau.value, |L|), p);
    if Prime(p) && t.value % p != 0 {
      InverseExists(t.value, p);
    }
    assert ws == Reduce(witnessData, p);
    r := AssembleProof(u, v, w, t.value, p);
  }

  // ---------------------------------------------------------------------
  // generate_somewhate_zk_proof_r1cs
  // ---------------------------------------------------------------------

  predicate NonNegative(ws: seq<int>) {
    forall i :: 0 <= i < |ws| ==> ws[i] >= 0
  }

  /** The scalars behind a list of points. G1 and G2 are distinct types in
      the model, as py_ecc's two curves are, so each group has its own
      extractor. */
  function ExpsG1(pts: seq<G1>): (r: seq<int>)
    ensures |r| == |pts| && forall i :: 0 <= i < |pts| ==> r[i] == pts[i].exp
  {
    seq(|pts|, i requires 0 <= i < |pts| => pts[i].exp)
  }

  function ExpsG2(pts: seq<G2>): (r: seq<int>)
    ensures |r| == |pts| && forall i :: 0 <= i < |pts| ==> r[i] == pts[i].exp
  {
    seq(|pts|, i requires 0 <= i < |pts| => pts[i].exp)
  }

  /** `generate_somewhate_zk_proof_r1cs` after loading the raw witness:
      [w·G1 for w] and [w·G2 for w]. A negative entry makes `multiply`
      recurse without end. */
  function SomewhatZkProof(data: seq<int>, p: int): (r: Result<(seq<G1>, seq<G2>)>)
    requires p > 1
    ensures |data| == 0 ==> r == Err(EmptyWitness)
    ensures r.Ok? <==> |data| > 0 && NonNegative(data)
    ensures r.Err? && |data| > 0 ==> r.error == NegativeScalar
    ensures r.Ok? ==> |r.value.0| == |data| && |r.value.1| == |data|
    ensures r.Ok? ==> forall i :: 0 <= i < |data| ==> r.value.0[i].exp == data[i] % p && r.value.1[i].exp == data[i] % p
  {
    var ws :- LoadWitness(data, None, None);
    if !NonNegative(ws) then Err(NegativeScalar)
    else
      Ok((seq(|ws|, i requires 0 <= i < |ws| => MulG1(G1Gen, ws[i], p)),
          seq(|ws|, i requires 0 <= i < |ws| => MulG2(G2Gen, ws[i], p))))
  }

  /** Both lists carry the same scalars: e(w_i·G2, G1) = e(G2, w_i·G1). */
  lemma SomewhatZkGroupsAgree(data: seq<int>, p: int)
    requires p > 1 && SomewhatZkProof(data, p).Ok?
    ensures var (g1, g2) := SomewhatZkProof(data, p).value;
      forall i :: 0 <= i < |data| ==> Pairing(g2[i], G1Gen, p) == Pairing(G2Gen, g1[i], p)
  {
  }

  /** The constraint-wise pairing check a verifier of the somewhat zero
      knowledge proof runs: e(Σ_j R[k][j]·B_j, Σ_j L[k][j]·A_j) =
      e(G2, Σ_j O[k][j]·A_j) for every constraint k. */
  predicate PairingCheckPasses(L: Matrix, R: Matrix, O: Matrix, g1: seq<G1>, g2: seq<G2>, p: int)
    requires p > 1 && |L| == |R| == |O| && |g1| == |g2|
    requires Conforms(L, ExpsG1(g1)) && Conforms(R, ExpsG1(g1)) && Conforms(O, ExpsG1(g1))
  {
    forall k :: 0 <= k < |O| ==>
      Pairing(G2(Dot(R[k], ExpsG2(g2))), G1(Dot(L[k], ExpsG1(g1))), p) == Pairing(G2Gen, G1(Dot(O[k], ExpsG1(g1))), p)
  }

  /** The lifted witness passes the pairing check exactly when the witness
      satisfies the R1CS modulo the group order. */
  lemma SomewhatZkCheckIffSatisfies(L: Matrix, R: Matrix, O: Matrix, data: seq<int>, p: int)
    requires p > 1 && |L| == |R| == |O| && SomewhatZkProof(data, p).Ok?
    requires Conforms(L, data) && Conforms(R, data) && Conforms(O, data)
    ensures var (g1, g2) := SomewhatZkProof(data, p).value;
      PairingCheckPasses(L, R, O, g1, g2, p) <==> Satisfies(L, R, O, data, p)
  {
    var (g1, g2) := SomewhatZkProof(data, p).value;
    var e1 := ExpsG1(g1);
    var e2 := ExpsG2(g2);
    forall k | 0 <= k < |O|
      ensures (Pairing(G2(Dot(R[k], e2)), G1(Dot(L[k], e1)), p) == Pairing(G2Gen, G1(Dot(O[k], e1)), p))
          <==> Congruent(Dot(O[k], data), Dot(L[k], data) * Dot(R[k], data), p)
    {
      forall j | 0 <= j < |data|
        ensures Congruent(e1[j], data[j], p) && Congruent(e2[j], data[j], p)
      {
        PyModIdempotent(data[j], p);
      }
      DotCongruentRight(L[k], e1, data, p);
      DotCongruentRight(R[k], e2, data, p);
      DotCongruentRight(O[k], e1, data, p);
      CongruentMul(Dot(R[k], e2), Dot(L[k], e1), Dot(R[k], data), Dot(L[k], data), p);
      assert Dot(R[k], data) * Dot(L[k], data) == Dot(L[k], data) * Dot(R[k], data);
    }
  }

  /** Congruent vectors give congruent inner products with the same row. */
  lemma DotCongruentRight(c: seq<int>, v: seq<int>, v': seq<int>, m: int)
    requires m != 0 && |c| == |v| == |v'|
    requires forall i :: 0 <= i < |c| ==> Congruent(v[i], v'[i], m)
    ensures Congruent(Dot(c, v), Dot(c, v'), m)
  {
    DotCongruent(c, v, c, v', m);
  }
}
