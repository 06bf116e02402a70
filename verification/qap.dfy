/** The vanishing polynomial t(x) = (x − 1)(x − 2)…(x − m) of an m-constraint
    QAP, evaluated at a point, and where it vanishes modulo p. */
module Qap {
  import opened ModArith

  /** t(tau) = Π_{i=1..m} (tau − i) over the integers (1 when m <= 0). */
  function Vanishing(tau: int, m: int): int
    decreases m
  {
    if m <= 0 then 1 else Vanishing(tau, m - 1) * (tau - m)
  }

  /** tau coincides with the constraint index i modulo p. */
  predicate IsRoot(tau: int, i: int, p: int)
    requires p > 0
  {
    (tau - i) % p == 0
  }

  /** t(tau) ≡ 0 whenever tau ≡ i for some constraint index i in 1..m. */
  lemma {:induction false} VanishingAtRoot(tau: int, m: int, i: int, p: int)
    requires p > 0 && 1 <= i <= m && IsRoot(tau, i, p)
    ensures Vanishing(tau, m) % p == 0
  {
    if i < m {
      VanishingAtRoot(tau, m - 1, i, p);
    }
    ZeroFactor(Vanishing(tau, m - 1), tau - m, p);
  }

  /** Over a prime modulus t(tau) ≢ 0 when tau is none of 1..m. */
  lemma {:induction false} VanishingAwayFromRoots(tau: int, m: int, p: int)
    requires Prime(p)
    requires forall i :: 1 <= i <= m ==> !IsRoot(tau, i, p)
    ensures Vanishing(tau, m) % p != 0
  {
    if m > 0 {
      VanishingAwayFromRoots(tau, m - 1, p);
      assert !IsRoot(tau, m, p);
      EuclidLemma(Vanishing(tau, m - 1), tau - m, p);
    }
  }

  /** Over a prime modulus t(tau) ≡ 0 exactly when tau ≡ i for some i in 1..m. */
  lemma VanishingZeroIff(tau: int, m: int, p: int)
    requires Prime(p)
    ensures Vanishing(tau, m) % p == 0 <==> exists i :: 1 <= i <= m && IsRoot(tau, i, p)
  {
    if i :| 1 <= i <= m && IsRoot(tau, i, p) {
      VanishingAtRoot(tau, m, i, p);
    } else {
      VanishingAwayFromRoots(tau, m, p);
    }
  }
}
