/**
 * Payload conversion between string arguments and a signal body
 * (`stringsToIterfaces`, `iterfacesToStrings`). Go's type assertion
 * `str.(string)` panics on any element that is not a Go string; here that
 * panic is an explicit `PayloadError`.
 */
module Payload {
  import opened Wrappers
  import opened Bus

  /** The body element at `index` is `found`, which is not a string. */
  datatype PayloadError = NotAString(index: nat, found: Value)

  /** Every element of the body is the `String` variant. */
  predicate AllStrings(body: seq<Value>) {
    forall i :: 0 <= i < |body| ==> body[i].String?
  }

  /** Each argument wrapped as a `String` value, in order. */
  function ToValues(xs: seq<string>): (body: seq<Value>)
    ensures |body| == |xs|
    ensures forall i :: 0 <= i < |xs| ==> body[i] == String(xs[i])
  {
    if xs == [] then [] else [String(xs[0])] + ToValues(xs[1..])
  }

  /**
   * The strings of a body, or the first element that is not a string.
   * Succeeds exactly when every element is a string.
   */
  function AsStrings(body: seq<Value>): (r: Result<seq<string>, PayloadError>)
    ensures r.Success? <==> AllStrings(body)
    ensures r.Success? ==>
      |r.value| == |body| && forall i :: 0 <= i < |body| ==> body[i] == String(r.value[i])
    ensures r.Failure? ==>
      r.error.index < |body| && r.error.found == body[r.error.index] &&
      !body[r.error.index].String? &&
      forall j :: 0 <= j < r.error.index ==> body[j].String?
  {
    if body == [] then Success([])
    else if !body[0].String? then Failure(NotAString(0, body[0]))
    else match AsStrings(body[1..])
      case Success(rest) => Success([body[0].s] + rest)
      case Failure(e) => Failure(NotAString(e.index + 1, e.found))
  }

  /**
   * `stringsToIterfaces`: allocates a body as long as the input and stores
   * each argument at its own index.
   */
  method StringsToInterfaces(input: seq<string>) returns (ret: seq<Value>)
    ensures ret == ToValues(input)
  {
    var a := new Value[|input|](_ => Nil);
    var i := 0;
    while i < |input|
      invariant 0 <= i <= |input|
      invariant forall j :: 0 <= j < i ==> a[j] == String(input[j])
    {
      a[i] := String(input[i]);
      i := i + 1;
    }
    ret := a[..];
  }

  /**
   * `iterfacesToStrings`: allocates a string slice as long as the body and
   * fills it index by index, stopping at the first element that is not a
   * string.
   */
  method InterfacesToStrings(input: seq<Value>) returns (r: Result<seq<string>, PayloadError>)
    ensures r == AsStrings(input)
  {
    var a := new string[|input|](_ => "");
    var i := 0;
    while i < |input|
      invariant 0 <= i <= |input|
      invariant forall j :: 0 <= j < i ==> input[j] == String(a[j])
    {
      if !input[i].String? {
        assert AsStrings(input).error.index == i;
        return Failure(NotAString(i, input[i]));
      }
      a[i] := input[i].s;
      i := i + 1;
    }
    r := Success(a[..]);
    assert a[..] == AsStrings(input).value by {
      assert forall j :: 0 <= j < |input| ==> String(a[..][j]) == String(AsStrings(input).value[j]);
    }
  }

  /** Wrapping arguments and reading them back gives the arguments. */
  lemma {:induction false} StringsRoundTrip(xs: seq<string>)
    ensures AsStrings(ToValues(xs)) == Success(xs)
  {
    var r := AsStrings(ToValues(xs));
    assert r.value == xs by {
      assert forall i :: 0 <= i < |xs| ==> String(r.value[i]) == String(xs[i]);
    }
  }

  /** A body that reads back as strings is exactly those strings wrapped. */
  lemma {:induction false} ValuesRoundTrip(body: seq<Value>, xs: seq<string>)
    requires AsStrings(body) == Success(xs)
    ensures ToValues(xs) == body
  {
    assert forall i :: 0 <= i < |body| ==> ToValues(xs)[i] == body[i];
  }

  /** Any element that is not a string makes the conversion fail, however the rest looks. */
  lemma NonStringFails(body: seq<Value>, k: nat)
    requires k < |body| && !body[k].String?
    ensures AsStrings(body).Failure? && AsStrings(body).error.index <= k
  {
  }
}
