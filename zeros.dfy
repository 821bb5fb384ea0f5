/** Construction of a nested list of a given shape filled with one value
    (rots/tensors/matrices.py, zeros).  The function as written tests the
    shape the wrong way round; `ZerosAsWritten` models it as written and
    `Zeros` is the construction its documentation describes.  As written,
    no shape gets a structure of that shape: the empty shape raises and
    every other shape gets a single value. */
module Zeros {

  /** A nested list: a single value or a list of nested lists. */
  datatype Tensor = Scalar(v: real) | Array(items: seq<Tensor>)

  /** The outcome of a call: a value, or the IndexError raised by indexing
      an empty shape. */
  datatype Result = Ok(value: Tensor) | IndexError

  /** `t` has dimensions s[0] × s[1] × …; the empty shape is a single value. */
  predicate HasShape(t: Tensor, s: seq<nat>)
    decreases |s|
  {
    if |s| == 0 then t.Scalar?
    else t.Array? && |t.items| == s[0] && forall i :: 0 <= i < |t.items| ==> HasShape(t.items[i], s[1..])
  }

  /** Every value stored in `t` is `fill`. */
  predicate FilledWith(t: Tensor, fill: real)
  {
    match t
    case Scalar(v) => v == fill
    case Array(items) => forall i :: 0 <= i < |items| ==> FilledWith(items[i], fill)
  }

  /** matrices.py:92 as written: the comprehension runs when the shape is
      empty, where s[0] raises IndexError; any other shape yields the fill
      value itself.  The recursive call in the comprehension, which would
      also drop the fill value, is never reached. */
  function ZerosAsWritten(s: seq<nat>, zero: real): (r: Result)
    ensures r.IndexError? <==> |s| == 0
    ensures r.Ok? ==> !HasShape(r.value, s) && FilledWith(r.value, zero)
  {
    if |s| == 0 then IndexError else Ok(Scalar(zero))
  }

  /** The documented construction: s[0] copies of the structure for s[1..],
      down to the fill value for the empty shape. */
  function Zeros(s: seq<nat>, zero: real): Tensor
    decreases |s|
  {
    if |s| == 0 then Scalar(zero)
    else Array(seq(s[0], _ => Zeros(s[1..], zero)))
  }

  /** The construction has the requested shape and holds only the fill value. */
  lemma {:induction false} ZerosShape(s: seq<nat>, zero: real)
    ensures HasShape(Zeros(s, zero), s)
    ensures FilledWith(Zeros(s, zero), zero)
    decreases |s|
  {
    if |s| > 0 {
      ZerosShape(s[1..], zero);
    }
  }

  /** It is the only structure of that shape holding only the fill value. */
  lemma {:induction false} ZerosUnique(t: Tensor, s: seq<nat>, zero: real)
    requires HasShape(t, s) && FilledWith(t, zero)
    ensures t == Zeros(s, zero)
    decreases |s|
  {
    if |s| > 0 {
      var z := Zeros(s, zero);
      forall i | 0 <= i < s[0]
        ensures t.items[i] == z.items[i]
      {
        ZerosUnique(t.items[i], s[1..], zero);
      }
    }
  }

  /** zeros([2, 3]) returns 0 instead of a 2×3 list of zeros, and zeros([])
      raises instead of returning 0. */
  lemma {:induction false} ZerosAsWrittenExample()
    ensures ZerosAsWritten([2, 3], 0.0) == Ok(Scalar(0.0))
    ensures Zeros([2, 3], 0.0) == Array([Array([Scalar(0.0), Scalar(0.0), Scalar(0.0)]), Array([Scalar(0.0), Scalar(0.0), Scalar(0.0)])])
    ensures ZerosAsWritten([], 0.0) == IndexError && Zeros([], 0.0) == Scalar(0.0)
  {
    var row := Array([Scalar(0.0), Scalar(0.0), Scalar(0.0)]);
    assert [2, 3][1..] == [3] && [3][1..] == [];
    assert Zeros([3], 0.0) == row;
  }
}
