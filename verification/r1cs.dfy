/** The shape validation that `load_matrices_from_json` applies to the parsed
    R1CS document before handing back the three matrices. */
module R1cs {
  import opened Results
  import opened Utils

  /** The parsed JSON document: a dictionary from key to integer matrix. */
  type Document = map<string, Matrix>

  /** Python's `all(len(row) == len(M[0]) for row in M)`: every row as long
      as the first (vacuously true with no rows, where M[0] is never read). */
  predicate RowsMatchFirst(M: Matrix) {
    |M| == 0 || forall k :: 0 <= k < |M| ==> |M[k]| == |M[0]|
  }

  /** Reference notion of a rectangular matrix: any two rows agree in length. */
  predicate Rectangular(M: Matrix) {
    forall i, j :: 0 <= i < |M| && 0 <= j < |M| ==> |M[i]| == |M[j]|
  }

  /** The R1CS invariant: three m×n matrices with m ≥ 1 and n ≥ 1 for L, each
      rectangular on its own. Widths are not compared across matrices. */
  predicate WellShaped(L: Matrix, R: Matrix, O: Matrix) {
    && |L| == |R| == |O|
    && Rectangular(L) && Rectangular(R) && Rectangular(O)
    && |L| > 0 && |L[0]| > 0
  }

  lemma RowsMatchFirstIsRectangular(M: Matrix)
    ensures RowsMatchFirst(M) <==> Rectangular(M)
  {
  }

  /** The five assertions of the loader, in source order. */
  function CheckShape(L: Matrix, R: Matrix, O: Matrix): (r: Result<(Matrix, Matrix, Matrix)>)
    ensures r.Ok? <==> WellShaped(L, R, O)
    ensures r.Ok? ==> r.value == (L, R, O)
    ensures !(|L| == |R| == |O|) ==> r == Err(RowCountMismatch)
    ensures |L| == |R| == |O| && !Rectangular(L) ==> r == Err(RaggedColumns(MatrixL))
    ensures |L| == |R| == |O| && Rectangular(L) && !Rectangular(R) ==> r == Err(RaggedColumns(MatrixR))
    ensures (|L| == |R| == |O| && Rectangular(L) && Rectangular(R) && !Rectangular(O))
      ==> r == Err(RaggedColumns(MatrixO))
    ensures (|L| == |R| == |O| && Rectangular(L) && Rectangular(R) && Rectangular(O)
             && (|L| == 0 || |L[0]| == 0))
      ==> r == Err(EmptyMatrices)
  {
    RowsMatchFirstIsRectangular(L);
    RowsMatchFirstIsRectangular(R);
    RowsMatchFirstIsRectangular(O);
    if !(|L| == |R| == |O|) then Err(RowCountMismatch)
    else if !RowsMatchFirst(L) then Err(RaggedColumns(MatrixL))
    else if !RowsMatchFirst(R) then Err(RaggedColumns(MatrixR))
    else if !RowsMatchFirst(O) then Err(RaggedColumns(MatrixO))
    else if !(|L| > 0 && |L[0]| > 0) then Err(EmptyMatrices)
    else Ok((L, R, O))
  }

  /** `load_matrices_from_json` once `json.load` has produced `data`: the
      lookups of "L", "R", "O" (a KeyError for the first one missing), then
      the shape checks. */
  function LoadMatrices(data: Document): (r: Result<(Matrix, Matrix, Matrix)>)
    ensures "L" !in data ==> r == Err(MissingKey("L"))
    ensures "L" in data && "R" !in data ==> r == Err(MissingKey("R"))
    ensures "L" in data && "R" in data && "O" !in data ==> r == Err(MissingKey("O"))
    ensures r.Ok? <==> "L" in data && "R" in data && "O" in data && WellShaped(data["L"], data["R"], data["O"])
    ensures r.Ok? ==> r.value == (data["L"], data["R"], data["O"])
  {
    if "L" !in data then Err(MissingKey("L"))
    else if "R" !in data then Err(MissingKey("R"))
    else if "O" !in data then Err(MissingKey("O"))
    else CheckShape(data["L"], data["R"], data["O"])
  }

  /** A missing key is never reported as a shape error, and a shape error
      never as a missing key. */
  lemma MissingKeyDistinctFromShape(data: Document)
    ensures LoadMatrices(data).Err? && LoadMatrices(data).error.MissingKey?
        <==> !("L" in data && "R" in data && "O" in data)
  {
  }
}
