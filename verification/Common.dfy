/** Vocabulary shared by every module of the project. */
module Common {

  /** One octet. */
  type Byte = x: int | 0 <= x < 256

  function Min(a: nat, b: nat): nat { if a < b then a else b }

  function Max(a: nat, b: nat): nat { if a < b then b else a }

  lemma Associative(a: seq<Byte>, b: seq<Byte>, c: seq<Byte>)
    ensures a + b + c == a + (b + c)
  {
  }

  /** The outcome of an operation that may throw. */
  datatype Result<+T> = Ok(value: T) | Err {
    predicate IsFailure() { Err? }
    function PropagateFailure<U>(): Result<U>
      requires Err?
    {
      Err
    }
    function Extract(): T
      requires Ok?
    {
      value
    }
  }

  datatype Option<+T> = None | Some(value: T)

  /** `map` with a function that may throw. */
  function MapResult<A, B>(f: A -> Result<B>, xs: seq<A>): (r: Result<seq<B>>)
    ensures r.Ok? <==> forall i :: 0 <= i < |xs| ==> f(xs[i]).Ok?
    ensures r.Ok? ==> |r.value| == |xs| && forall i :: 0 <= i < |xs| ==> f(xs[i]) == Ok(r.value[i])
  {
    if forall i :: 0 <= i < |xs| ==> f(xs[i]).Ok? then
      Ok(seq(|xs|, i requires 0 <= i < |xs| && f(xs[i]).Ok? => f(xs[i]).value))
    else
      Err
  }

  lemma MapSnoc<A, B>(f: A -> Result<B>, xs: seq<A>, x: A)
    requires MapResult(f, xs).Ok? && f(x).Ok?
    ensures MapResult(f, xs + [x]) == Ok(MapResult(f, xs).value + [f(x).value])
  {
    assert MapResult(f, xs + [x]).value == MapResult(f, xs).value + [f(x).value];
  }

  /** Mapping is inverted element by element. */
  lemma MapExact<A, B>(wf: A -> bool, enc: A -> Result<B>, dec: B -> Result<A>, xs: seq<A>, ys: seq<B>)
    requires |xs| == |ys| ==>
               forall i :: 0 <= i < |xs| ==> (dec(ys[i]) == Ok(xs[i]) <==> wf(xs[i]) && enc(xs[i]) == Ok(ys[i]))
    ensures MapResult(dec, ys) == Ok(xs) <==>
            (forall i :: 0 <= i < |xs| ==> wf(xs[i])) && MapResult(enc, xs) == Ok(ys)
  {
    if MapResult(dec, ys) == Ok(xs) {
      assert MapResult(enc, xs).value == ys;
    }
    if (forall i :: 0 <= i < |xs| ==> wf(xs[i])) && MapResult(enc, xs) == Ok(ys) {
      assert MapResult(dec, ys).value == xs;
    }
  }

  /** Copies bytes into a buffer at an offset. */
  method SetBytes(output: array<Byte>, chunk: seq<Byte>, offset: nat)
    requires offset + |chunk| <= output.Length
    modifies output
    ensures output[..offset + |chunk|] == old(output[..offset]) + chunk
    ensures output[offset + |chunk|..] == old(output[offset + |chunk|..])
  {
    forall i | 0 <= i < |chunk| { output[offset + i] := chunk[i]; }
  }
}
