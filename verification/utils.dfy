/** The modular vector helpers of `utils/utils.py` and the R1CS point check
    O·a ≡ (L·a) ∘ (R·a) (mod m) built from them. */
module Utils {
  import opened Results
  import opened ModArith

  type Matrix = seq<seq<int>>

  /** Σ c[i]*v[i], accumulated left to right as Python's `sum` does. */
  function Dot(c: seq<int>, v: seq<int>): int
    requires |c| == |v|
  {
    if |c| == 0 then 0 else Dot(c[..|c| - 1], v[..|v| - 1]) + c[|c| - 1] * v[|v| - 1]
  }

  /** Replacing every entry by a congruent one leaves Σ c[i]*v[i] congruent. */
  lemma {:induction false} DotCongruent(c: seq<int>, v: seq<int>, c': seq<int>, v': seq<int>, m: int)
    requires m != 0 && |c| == |v| == |c'| == |v'|
    requires forall i :: 0 <= i < |c| ==> Congruent(c[i], c'[i], m) && Congruent(v[i], v'[i], m)
    ensures Congruent(Dot(c, v), Dot(c', v'), m)
  {
    if |c| > 0 {
      var n := |c| - 1;
      DotCongruent(c[..n], v[..n], c'[..n], v'[..n], m);
      CongruentMul(c[n], v[n], c'[n], v'[n], m);
      CongruentAdd(Dot(c[..n], v[..n]), c[n] * v[n], Dot(c'[..n], v'[..n]), c'[n] * v'[n], m);
    }
  }

  // ---------------------------------------------------------------------
  // linear_combination
  // ---------------------------------------------------------------------

  /** `linear_combination(coeffs, vars, modulo)`: the length assertion, then
      the sum reduced with Python's `%` (which fails on a zero modulus, even
      for an empty sum). */
  function LinearCombination(coeffs: seq<int>, vars: seq<int>, modulo: int): (r: Result<int>)
    ensures |coeffs| != |vars| ==> r == Err(LengthMismatch)
    ensures |coeffs| == |vars| && modulo == 0 ==> r == Err(DivisionByZero)
    ensures r.Ok? <==> |coeffs| == |vars| && modulo != 0
    ensures r.Ok? ==> Congruent(r.value, Dot(coeffs, vars), modulo)
    ensures r.Ok? && modulo > 0 ==> 0 <= r.value < modulo
  {
    if |coeffs| != |vars| then Err(LengthMismatch)
    else if modulo == 0 then Err(DivisionByZero)
    else
      PyModIdempotent(Dot(coeffs, vars), modulo);
      Ok(PyMod(Dot(coeffs, vars), modulo))
  }

  lemma LinearCombinationEmpty(modulo: int)
    requires modulo != 0
    ensures LinearCombination([], [], modulo) == Ok(0)
  {
  }

  /** The result depends only on the residues of the inputs. */
  lemma LinearCombinationCongruent(c: seq<int>, v: seq<int>, c': seq<int>, v': seq<int>, m: int)
    requires m != 0 && |c| == |v| == |c'| == |v'|
    requires forall i :: 0 <= i < |c| ==> Congruent(c[i], c'[i], m) && Congruent(v[i], v'[i], m)
    ensures LinearCombination(c, v, m) == LinearCombination(c', v', m)
  {
    DotCongruent(c, v, c', v', m);
  }

  // ---------------------------------------------------------------------
  // matrix_vector_product
  // ---------------------------------------------------------------------

  /** `matrix_vector_product`: one linear combination per row, in row order;
      the first row whose combination fails makes the whole product fail. */
  function MatrixVectorProduct(matrix: Matrix, vector: seq<int>, modulo: int): (r: Result<seq<int>>)
    ensures r.Ok? <==> (forall k :: 0 <= k < |matrix| ==> LinearCombination(matrix[k], vector, modulo).Ok?)
    ensures r.Ok? ==> |r.value| == |matrix|
    ensures r.Ok? ==> forall k :: 0 <= k < |matrix| ==> r.value[k] == LinearCombination(matrix[k], vector, modulo).value
    ensures r.Err? ==> exists k :: FirstFailingRow(matrix, vector, modulo, k, r.error)
  {
    if |matrix| == 0 then Ok([])
    else
      var head := LinearCombination(matrix[0], vector, modulo);
      if head.Err? then
        assert FirstFailingRow(matrix, vector, modulo, 0, head.error);
        Err(head.error)
      else
        var tail := MatrixVectorProduct(matrix[1..], vector, modulo);
        if tail.Err? then
          FirstFailureShift(matrix, vector, modulo, tail.error);
          Err(tail.error)
        else
          assert forall k :: 1 <= k < |matrix| ==> matrix[k] == matrix[1..][k - 1];
          Ok([head.value] + tail.value)
  }

  /** Row k of `matrix` is the first whose combination fails, with error e. */
  predicate FirstFailingRow(matrix: Matrix, vector: seq<int>, modulo: int, k: int, e: Error) {
    && 0 <= k < |matrix| && LinearCombination(matrix[k], vector, modulo) == Err(e)
    && forall j :: 0 <= j < k ==> LinearCombination(matrix[j], vector, modulo).Ok?
  }

  /** A first failing row of the tail, behind a succeeding head row, is a
      first failing row of the whole matrix. */
  lemma FirstFailureShift(matrix: Matrix, vector: seq<int>, modulo: int, e: Error)
    requires |matrix| > 0 && LinearCombination(matrix[0], vector, modulo).Ok?
    requires exists k :: FirstFailingRow(matrix[1..], vector, modulo, k, e)
    ensures exists k :: FirstFailingRow(matrix, vector, modulo, k, e)
  {
    var k :| FirstFailingRow(matrix[1..], vector, modulo, k, e);
    assert matrix[k + 1] == matrix[1..][k];
    forall j | 0 <= j < k + 1
      ensures LinearCombination(matrix[j], vector, modulo).Ok?
    {
      if j > 0 {
        assert matrix[j] == matrix[1..][j - 1];
      }
    }
    assert FirstFailingRow(matrix, vector, modulo, k + 1, e);
  }

  /** With a nonzero modulus the product succeeds exactly when every row is
      as long as the vector, and entry k is row k's combination. */
  lemma MatrixVectorProductShape(matrix: Matrix, vector: seq<int>, modulo: int)
    requires modulo != 0
    ensures MatrixVectorProduct(matrix, vector, modulo).Ok?
        <==> forall k :: 0 <= k < |matrix| ==> |matrix[k]| == |vector|
    ensures (exists k :: 0 <= k < |matrix| && |matrix[k]| != |vector|)
        ==> MatrixVectorProduct(matrix, vector, modulo) == Err(LengthMismatch)
    ensures MatrixVectorProduct(matrix, vector, modulo).Ok? ==>
      forall k :: 0 <= k < |matrix| ==> Congruent(MatrixVectorProduct(matrix, vector, modulo).value[k], Dot(matrix[k], vector), modulo)
  {
  }

  // ---------------------------------------------------------------------
  // vectors_modular_equal
  // ---------------------------------------------------------------------

  /** `all(a % m == b % m for a, b in zip(vec1, vec2))`, pair by pair; the
      first pair evaluated fails on a zero modulus. */
  function AllPairsCongruent(vec1: seq<int>, vec2: seq<int>, modulo: int): (r: Result<bool>)
    requires |vec1| == |vec2|
    ensures modulo == 0 ==> (r.Err? <==> |vec1| > 0)
    ensures modulo != 0 ==> r == Ok(forall i :: 0 <= i < |vec1| ==> Congruent(vec1[i], vec2[i], modulo))
  {
    if |vec1| == 0 then Ok(true)
    else if modulo == 0 then Err(DivisionByZero)
    else if PyMod(vec1[0], modulo) != PyMod(vec2[0], modulo) then Ok(false)
    else
      var rest := AllPairsCongruent(vec1[1..], vec2[1..], modulo);
      assert forall i :: 1 <= i < |vec1| ==> vec1[i] == vec1[1..][i - 1] && vec2[i] == vec2[1..][i - 1];
      rest
  }

  /** `vectors_modular_equal`: false on a length mismatch, otherwise whether
      every pair is congruent modulo `modulo`. */
  function VectorsModularEqual(vec1: seq<int>, vec2: seq<int>, modulo: int): (r: Result<bool>)
    ensures |vec1| != |vec2| ==> r == Ok(false)
    ensures |vec1| == |vec2| && modulo != 0 ==>
      r == Ok(forall i :: 0 <= i < |vec1| ==> Congruent(vec1[i], vec2[i], modulo))
    ensures r.Err? <==> |vec1| == |vec2| > 0 && modulo == 0
  {
    if |vec1| != |vec2| then Ok(false)
    else AllPairsCongruent(vec1, vec2, modulo)
  }

  lemma VectorsModularEqualReflexive(v: seq<int>, modulo: int)
    requires modulo != 0
    ensures VectorsModularEqual(v, v, modulo) == Ok(true)
  {
  }

  lemma VectorsModularEqualSymmetric(v: seq<int>, w: seq<int>, modulo: int)
    ensures VectorsModularEqual(v, w, modulo) == VectorsModularEqual(w, v, modulo)
  {
  }

  // ---------------------------------------------------------------------
  // hadamard_product
  // ---------------------------------------------------------------------

  /** `hadamard_product`: the length assertion, then the entrywise products
      reduced modulo `modulo`. */
  function HadamardProduct(vec1: seq<int>, vec2: seq<int>, modulo: int): (r: Result<seq<int>>)
    ensures |vec1| != |vec2| ==> r == Err(LengthMismatch)
    ensures r.Ok? <==> |vec1| == |vec2| && (modulo != 0 || |vec1| == 0)
    ensures r.Ok? ==> |r.value| == |vec1|
    ensures r.Ok? ==> forall i :: 0 <= i < |vec1| ==> Congruent(r.value[i], vec1[i] * vec2[i], modulo)
    ensures r.Ok? && modulo > 0 ==> forall i :: 0 <= i < |vec1| ==> 0 <= r.value[i] < modulo
  {
    if |vec1| != |vec2| then Err(LengthMismatch)
    else if modulo == 0 && |vec1| > 0 then Err(DivisionByZero)
    else
      var prod := seq(|vec1|, i requires 0 <= i < |vec1| => PyMod(vec1[i] * vec2[i], modulo));
      assert forall i :: 0 <= i < |vec1| ==> Congruent(prod[i], vec1[i] * vec2[i], modulo) by {
        forall i | 0 <= i < |vec1| {
          PyModIdempotent(vec1[i] * vec2[i], modulo);
        }
      }
      Ok(prod)
  }

  lemma HadamardProductCommutative(vec1: seq<int>, vec2: seq<int>, modulo: int)
    ensures HadamardProduct(vec1, vec2, modulo) == HadamardProduct(vec2, vec1, modulo)
  {
    if |vec1| == |vec2| && (modulo != 0 || |vec1| == 0) {
      var a := HadamardProduct(vec1, vec2, modulo).value;
      var b := HadamardProduct(vec2, vec1, modulo).value;
      forall i | 0 <= i < |a|
        ensures a[i] == b[i]
      {
        assert vec1[i] * vec2[i] == vec2[i] * vec1[i];
      }
      assert a == b;
    }
  }

  // ---------------------------------------------------------------------
  // The R1CS point check
  // ---------------------------------------------------------------------

  /** The check the verifier tests run: O·a ≡ (L·a) ∘ (R·a) (mod modulo),
      composed from the helpers above. */
  function R1csPointCheck(L: Matrix, R: Matrix, O: Matrix, a: seq<int>, modulo: int): Result<bool> {
    var la :- MatrixVectorProduct(L, a, modulo);
    var ra :- MatrixVectorProduct(R, a, modulo);
    var oa :- MatrixVectorProduct(O, a, modulo);
    var lr :- HadamardProduct(la, ra, modulo);
    VectorsModularEqual(oa, lr, modulo)
  }

  /** Every row of every matrix has one column per witness entry. */
  predicate Conforms(M: Matrix, a: seq<int>) {
    forall k :: 0 <= k < |M| ==> |M[k]| == |a|
  }

  /** Reference meaning of R1CS satisfaction: each constraint k holds as a
      congruence between plain integer inner products. */
  predicate Satisfies(L: Matrix, R: Matrix, O: Matrix, a: seq<int>, modulo: int)
    requires modulo != 0 && |L| == |R| == |O|
    requires Conforms(L, a) && Conforms(R, a) && Conforms(O, a)
  {
    forall k :: 0 <= k < |O| ==> Congruent(Dot(O[k], a), Dot(L[k], a) * Dot(R[k], a), modulo)
  }

  /** The point check decides R1CS satisfaction: it succeeds on conforming
      matrices and answers exactly whether every constraint holds. */
  lemma {:induction false} R1csPointCheckDecides(L: Matrix, R: Matrix, O: Matrix, a: seq<int>, modulo: int)
    requires modulo != 0 && |L| == |R| == |O|
    requires Conforms(L, a) && Conforms(R, a) && Conforms(O, a)
    ensures R1csPointCheck(L, R, O, a, modulo) == Ok(Satisfies(L, R, O, a, modulo))
  {
    MatrixVectorProductShape(L, a, modulo);
    MatrixVectorProductShape(R, a, modulo);
    MatrixVectorProductShape(O, a, modulo);
    var la := MatrixVectorProduct(L, a, modulo).value;
    var ra := MatrixVectorProduct(R, a, modulo).value;
    var oa := MatrixVectorProduct(O, a, modulo).value;
    var lr := HadamardProduct(la, ra, modulo).value;
    forall k | 0 <= k < |O|
      ensures Congruent(oa[k], lr[k], modulo) <==> Congruent(Dot(O[k], a), Dot(L[k], a) * Dot(R[k], a), modulo)
    {
      CongruentMul(la[k], ra[k], Dot(L[k], a), Dot(R[k], a), modulo);
    }
  }

  /** A witness whose length differs from the rows of L is an error, not a
      failed check. */
  lemma R1csPointCheckRejectsShortWitness(L: Matrix, R: Matrix, O: Matrix, a: seq<int>, modulo: int)
    requires modulo != 0 && |L| > 0 && |L[0]| != |a|
    ensures R1csPointCheck(L, R, O, a, modulo) == Err(LengthMismatch)
  {
    MatrixVectorProductShape(L, a, modulo);
  }
}
