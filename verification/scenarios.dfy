/** The repository's unit-test cases, stated as facts about the model: the
    R1CS point check on concrete witnesses, the loader's shape errors, and
    the witness loader. */
module Scenarios {
  import opened Results
  import opened ModArith
  import opened Utils
  import opened R1cs
  import opened Witness

  /** One constraint z = x·y selecting entries 1, 2 and 3 of a four-entry
      witness. */
  const SelL: Matrix := [[0, 1, 0, 0]]
  const SelR: Matrix := [[0, 0, 1, 0]]
  const SelO: Matrix := [[0, 0, 0, 1]]

  /** Inner products of short rows, written out term by term. */
  lemma Dot3(c: seq<int>, v: seq<int>)
    requires |c| == |v| == 3
    ensures Dot(c, v) == c[0] * v[0] + c[1] * v[1] + c[2] * v[2]
  {
    assert c[..2][..1][..0] == [] && v[..2][..1][..0] == [];
    assert c[..2][..1] == [c[0]] && v[..2][..1] == [v[0]];
    assert Dot(c[..2][..1], v[..2][..1]) == c[0] * v[0];
    assert c[..2] == [c[0], c[1]] && v[..2] == [v[0], v[1]];
  }

  lemma Dot4(c: seq<int>, v: seq<int>)
    requires |c| == |v| == 4
    ensures Dot(c, v) == c[0] * v[0] + c[1] * v[1] + c[2] * v[2] + c[3] * v[3]
  {
    Dot3(c[..3], v[..3]);
  }

  lemma Dot5(c: seq<int>, v: seq<int>)
    requires |c| == |v| == 5
    ensures Dot(c, v) == c[0] * v[0] + c[1] * v[1] + c[2] * v[2] + c[3] * v[3] + c[4] * v[4]
  {
    Dot4(c[..4], v[..4]);
  }

  /** The single-constraint circuit accepts [1, x, y, z] modulo m exactly
      when z ≡ x·y. */
  lemma SingleProductCheck(x: int, y: int, z: int, m: int)
    requires m > 0
    ensures R1csPointCheck(SelL, SelR, SelO, [1, x, y, z], m) == Ok(Congruent(z, x * y, m))
  {
    var a := [1, x, y, z];
    R1csPointCheckDecides(SelL, SelR, SelO, a, m);
    Dot4(SelL[0], a);
    Dot4(SelR[0], a);
    Dot4(SelO[0], a);
  }

  /** 12 = 3·4 modulo 101; 0 = 0·5; −6 = −2·3; 3 ≡ 5·4 modulo 17;
      20000 = 100·200 modulo 1000000007; 4 ≡ 10·12 modulo 29. */
  lemma SingleConstraintWitnessesAccepted()
    ensures R1csPointCheck(SelL, SelR, SelO, [1, 3, 4, 12], 101) == Ok(true)
    ensures R1csPointCheck(SelL, SelR, SelO, [1, 0, 5, 0], 101) == Ok(true)
    ensures R1csPointCheck(SelL, SelR, SelO, [1, -2, 3, -6], 101) == Ok(true)
    ensures R1csPointCheck(SelL, SelR, SelO, [1, 5, 4, 3], 17) == Ok(true)
    ensures R1csPointCheck(SelL, SelR, SelO, [1, 100, 200, 20000], 1000000007) == Ok(true)
    ensures R1csPointCheck(SelL, SelR, SelO, [1, 10, 12, 4], 29) == Ok(true)
  {
    SingleProductCheck(3, 4, 12, 101);
    SingleProductCheck(0, 5, 0, 101);
    SingleProductCheck(-2, 3, -6, 101);
    SingleProductCheck(5, 4, 3, 17);
    SingleProductCheck(100, 200, 20000, 1000000007);
    SingleProductCheck(10, 12, 4, 29);
  }

  /** Two constraints, z1 = x·y and z2 − y = z1 (a −1 entry in O), on
      [1, 2, 3, 6, 9] modulo 101. */
  lemma TwoConstraintWitnessAccepted()
    ensures R1csPointCheck([[0, 1, 0, 0, 0], [0, 0, 0, 1, 0]],
                           [[0, 0, 1, 0, 0], [1, 0, 0, 0, 0]],
                           [[0, 0, 0, 1, 0], [0, 0, -1, 0, 1]],
                           [1, 2, 3, 6, 9], 101) == Ok(true)
  {
    var L: Matrix := [[0, 1, 0, 0, 0], [0, 0, 0, 1, 0]];
    var R: Matrix := [[0, 0, 1, 0, 0], [1, 0, 0, 0, 0]];
    var O: Matrix := [[0, 0, 0, 1, 0], [0, 0, -1, 0, 1]];
    var a := [1, 2, 3, 6, 9];
    assert Conforms(L, a) && Conforms(R, a) && Conforms(O, a);
    Dot5(L[0], a);
    Dot5(R[0], a);
    Dot5(O[0], a);
    Dot5(L[1], a);
    Dot5(R[1], a);
    Dot5(O[1], a);
    assert Satisfies(L, R, O, a, 101) by {
      assert Congruent(Dot(O[0], a), Dot(L[0], a) * Dot(R[0], a), 101);
      assert Congruent(Dot(O[1], a), Dot(L[1], a) * Dot(R[1], a), 101);
    }
    R1csPointCheckDecides(L, R, O, a, 101);
  }

  /** O·a = 6 while (L·a)(R·a) = 14·14 = 196 ≡ 95 modulo 101. */
  lemma FailingWitnessRejected()
    ensures R1csPointCheck([[1, 2, 3]], [[1, 2, 3]], [[1, 1, 1]], [1, 2, 3], 101) == Ok(false)
  {
    var a := [1, 2, 3];
    R1csPointCheckDecides([[1, 2, 3]], [[1, 2, 3]], [[1, 1, 1]], a, 101);
    Dot3([1, 2, 3], a);
    Dot3([1, 1, 1], a);
  }

  /** Rows of four columns against a witness of three. */
  lemma MismatchedDimensionsRejected()
    ensures R1csPointCheck([[1, 2, 3, 4], [5, 6, 7, 8]], [[9, 10, 11, 12], [13, 14, 15, 16]],
                           [[17, 18, 19, 20], [21, 22, 23, 24]], [1, 2, 3], 101) == Err(LengthMismatch)
  {
    R1csPointCheckRejectsShortWitness([[1, 2, 3, 4], [5, 6, 7, 8]], [[9, 10, 11, 12], [13, 14, 15, 16]],
                                      [[17, 18, 19, 20], [21, 22, 23, 24]], [1, 2, 3], 101);
  }

  /** The loader's test documents and the verdict on each. */
  lemma LoaderScenarios()
    ensures LoadMatrices(map["L" := [[1, 2, 3], [4, 5, 6]], "R" := [[7, 8, 9], [10, 11, 12]],
                             "O" := [[13, 14, 15], [16, 17, 18]]])
         == Ok(([[1, 2, 3], [4, 5, 6]], [[7, 8, 9], [10, 11, 12]], [[13, 14, 15], [16, 17, 18]]))
    ensures LoadMatrices(map["L" := [[1, 2, 3], [4, 5, 6]], "R" := [[7, 8, 9]],
                             "O" := [[10, 11, 12], [13, 14, 15]]]) == Err(RowCountMismatch)
    ensures LoadMatrices(map["L" := [[1, 2, 3], [4, 5]], "R" := [[6, 7, 8], [9, 10, 11]],
                             "O" := [[12, 13, 14], [15, 16, 17]]]) == Err(RaggedColumns(MatrixL))
    ensures LoadMatrices(map["L" := [[1, 2, 3], [4, 5, 6]], "R" := [[7, 8, 9], [10, 11]],
                             "O" := [[12, 13, 14], [15, 16, 17]]]) == Err(RaggedColumns(MatrixR))
    ensures LoadMatrices(map["L" := [[1, 2, 3], [4, 5, 6]], "R" := [[7, 8, 9], [10, 11, 12]],
                             "O" := [[13, 14, 15], [16, 17]]]) == Err(RaggedColumns(MatrixO))
    ensures LoadMatrices(map["L" := [], "R" := [], "O" := []]) == Err(EmptyMatrices)
    ensures LoadMatrices(map["L" := [[]], "R" := [[]], "O" := [[]]]) == Err(EmptyMatrices)
    ensures LoadMatrices(map["L" := [[1, 2, 3]], "R" := [[4, 5, 6]]]) == Err(MissingKey("O"))
  {
    var ragged: Matrix := [[1, 2, 3], [4, 5]];
    assert |ragged[0]| != |ragged[1]|;
    var raggedR: Matrix := [[7, 8, 9], [10, 11]];
    assert |raggedR[0]| != |raggedR[1]|;
    var raggedO: Matrix := [[13, 14, 15], [16, 17]];
    assert |raggedO[0]| != |raggedO[1]|;
  }

  /** The witness loader's two test cases. */
  lemma WitnessScenarios()
    ensures LoadWitness([1, 2, 3, 4], None, None) == Ok([1, 2, 3, 4])
    ensures LoadWitness([], None, None) == Err(EmptyWitness)
  {
  }
}
