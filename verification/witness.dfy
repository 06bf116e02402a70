/** The witness loaders of `witness/witness.py`, once `json.load` has
    produced the list of integers. */
module Witness {
  import opened Results
  import opened ModArith

  /** Conversion of one integer into a prime field of order q: the field
      accepts exactly the representatives 0 <= x < q. */
  function FieldElement(x: int, q: int): (r: Result<int>)
    ensures r.Ok? <==> 0 <= x < q
    ensures r.Ok? ==> r.value == x
  {
    if 0 <= x < q then Ok(x) else Err(NotAFieldElement)
  }

  /** Every entry of `data` lies in [0, q). */
  predicate AllInField(data: seq<int>, q: int) {
    forall i :: 0 <= i < |data| ==> 0 <= data[i] < q
  }

  /** `[galois_field(val) for val in data]`: the first entry outside the
      field aborts the conversion. */
  function ToField(data: seq<int>, q: int): (r: Result<seq<int>>)
    ensures r.Ok? <==> AllInField(data, q)
    ensures r.Ok? ==> r.value == data
    ensures r.Err? ==> r.error == NotAFieldElement
  {
    if |data| == 0 then Ok([])
    else
      var head :- FieldElement(data[0], q);
      var tail :- ToField(data[1..], q);
      assert forall i :: 1 <= i < |data| ==> data[i] == data[1..][i - 1];
      assert [head] + tail == data;
      Ok([head] + tail)
  }

  /** `[int(val) % modulo for val in data]` with Python's `%`. */
  function Reduce(data: seq<int>, modulo: int): (r: seq<int>)
    requires modulo != 0
    ensures |r| == |data|
    ensures forall i :: 0 <= i < |data| ==> Congruent(r[i], data[i], modulo)
    ensures modulo > 0 ==> AllInField(r, modulo)
  {
    var reduced := seq(|data|, i requires 0 <= i < |data| => PyMod(data[i], modulo));
    assert forall i :: 0 <= i < |data| ==> Congruent(reduced[i], data[i], modulo) by {
      forall i | 0 <= i < |data| {
        PyModIdempotent(data[i], modulo);
      }
    }
    reduced
  }

  /** Reducing twice equals reducing once. */
  lemma {:induction false} ReduceIdempotent(data: seq<int>, modulo: int)
    requires modulo != 0
    ensures Reduce(Reduce(data, modulo), modulo) == Reduce(data, modulo)
  {
    var once := Reduce(data, modulo);
    var twice := Reduce(once, modulo);
    forall i | 0 <= i < |data|
      ensures twice[i] == once[i]
    {
      PyModIdempotent(data[i], modulo);
    }
  }

  /** The shared body of both loaders: the non-emptiness assertion (with the
      loader's own error), then the field conversion if a field is given,
      else the reduction if a modulus is given, else the list as loaded.
      `field` holds the order of the field the caller passes. */
  function LoadList(data: seq<int>, modulo: Option<int>, field: Option<int>, emptyError: Error): (r: Result<seq<int>>)
    ensures |data| == 0 ==> r == Err(emptyError)
    ensures |data| > 0 && field.Some? ==> r == ToField(data, field.value)
    ensures |data| > 0 && field.None? && modulo.Some? && modulo.value == 0 ==> r == Err(DivisionByZero)
    ensures r.Ok? <==> (&& |data| > 0
                        && (field.Some? ==> AllInField(data, field.value))
                        && (field.None? && modulo.Some? ==> modulo.value != 0))
    ensures r.Ok? ==> |r.value| == |data|
    ensures r.Ok? && field.None? && modulo.None? ==> r.value == data
    ensures r.Ok? && field.None? && modulo.Some? ==> r.value == Reduce(data, modulo.value)
  {
    if |data| == 0 then Err(emptyError)
    else if field.Some? then ToField(data, field.value)
    else if modulo.Some? then
      if modulo.value == 0 then Err(DivisionByZero) else Ok(Reduce(data, modulo.value))
    else Ok(data)
  }

  /** `load_witness_from_json`. */
  function LoadWitness(data: seq<int>, modulo: Option<int>, field: Option<int>): (r: Result<seq<int>>)
    ensures r == LoadList(data, modulo, field, EmptyWitness)
    ensures |data| == 0 <==> r == Err(EmptyWitness)
    ensures r.Ok? ==> |r.value| > 0
  {
    LoadList(data, modulo, field, EmptyWitness)
  }

  /** `load_public_witness_from_json`. */
  function LoadPublicWitness(data: seq<int>, modulo: Option<int>, field: Option<int>): (r: Result<seq<int>>)
    ensures r == LoadList(data, modulo, field, EmptyPublicWitness)
    ensures |data| == 0 <==> r == Err(EmptyPublicWitness)
    ensures r.Ok? ==> |r.value| > 0
  {
    LoadList(data, modulo, field, EmptyPublicWitness)
  }

  /** `public_inputs_length`: the length of the public witness loaded with
      neither modulus nor field. */
  function PublicInputsLength(data: seq<int>): (r: Result<nat>)
    ensures r.Ok? <==> |data| > 0
    ensures r.Ok? ==> r.value == |data| && r.value >= 1
    ensures r.Err? ==> r.error == EmptyPublicWitness
  {
    var pw :- LoadPublicWitness(data, None, None);
    Ok(|pw|)
  }

  /** Loading an already reduced witness with the same modulus returns it
      unchanged. */
  lemma LoadWitnessReducedIsFixed(data: seq<int>, modulo: int)
    requires modulo != 0 && |data| > 0
    ensures LoadWitness(Reduce(data, modulo), Some(modulo), None) == Ok(Reduce(data, modulo))
  {
    ReduceIdempotent(data, modulo);
  }

  /** With both given, the field conversion wins and the modulus is ignored. */
  lemma FieldTakesPrecedence(data: seq<int>, modulo: int, q: int)
    ensures LoadWitness(data, Some(modulo), Some(q)) == LoadWitness(data, None, Some(q))
    ensures LoadPublicWitness(data, Some(modulo), Some(q)) == LoadPublicWitness(data, None, Some(q))
  {
  }
}
