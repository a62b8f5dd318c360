/** Target selection and the scalar objective of one visualization call.

    The model's output, flattened, is a sequence of scores. The code picks a
    target `index` (by default `int(torch.max(out))`), builds a zero mask of the
    same length, writes a 1 at `index` and returns `torch.sum(mask * out)`, the
    value that is then back-propagated. Scores are real numbers here. */
module Objective {
  import opened Wrappers

  datatype Error =
    | EmptyScores                              // `torch.max` of an empty tensor
    | IndexOutOfRange(index: int, size: nat)   // `one_hot_mask[index]` outside the tensor

  /** The largest score, as `torch.max` of the whole output gives it. */
  function MaxScore(out: seq<real>): (m: real)
    requires |out| > 0
    ensures exists i :: 0 <= i < |out| && out[i] == m
    ensures forall i :: 0 <= i < |out| ==> out[i] <= m
  {
    if |out| == 1 then out[0]
    else
      var rest := MaxScore(out[1..]);
      assert forall i :: 1 <= i < |out| ==> out[i] == out[1..][i - 1];
      if out[0] >= rest then out[0] else rest
  }

  /** Python's `int(x)` on a number: truncation toward zero. */
  function Truncate(x: real): (n: int)
    ensures 0.0 <= x ==> 0 <= n && n as real <= x < n as real + 1.0
    ensures x < 0.0 ==> n <= 0 && n as real - 1.0 < x <= n as real
  {
    if x >= 0.0 then x.Floor else -((-x).Floor)
  }

  /** The index used when the caller gives none: the largest score VALUE,
      truncated toward zero (not the position of that score). */
  function DefaultIndex(out: seq<real>): (r: Result<int, Error>)
    ensures |out| == 0 <==> r == Failure(EmptyScores)
    ensures |out| > 0 ==> r == Success(Truncate(MaxScore(out)))
  {
    if |out| == 0 then Failure(EmptyScores) else Success(Truncate(MaxScore(out)))
  }

  /** The target index of a call: the caller's, or the default when none is given. */
  function ResolveIndex(out: seq<real>, index: Option<int>): (r: Result<int, Error>)
    ensures r.Failure? <==> index.None? && |out| == 0
    ensures index.Some? ==> r == Success(index.value)
  {
    match index
    case Some(i) => Success(i)
    case None => DefaultIndex(out)
  }

  /** The element that `t[index]` denotes in a tensor of `size` elements: a
      non-negative index counts from the front, a negative one from the back;
      anything else is an `IndexError`. */
  function Position(index: int, size: nat): (r: Result<nat, Error>)
    ensures r.Success? <==> -(size as int) <= index < size
    ensures r.Success? ==> r.value < size && r.value % size == index % size
    ensures r.Failure? ==> r.error == IndexOutOfRange(index, size)
  {
    if 0 <= index < size then Success(index)
    else if -(size as int) <= index < 0 then Success(index + size)
    else Failure(IndexOutOfRange(index, size))
  }

  /** A mask of `size` elements that holds 1 at position `k` and 0 everywhere else. */
  ghost predicate IsOneHot(mask: seq<real>, size: nat, k: nat) {
    |mask| == size && k < size &&
    mask[k] == 1.0 && forall i :: 0 <= i < |mask| && i != k ==> mask[i] == 0.0
  }

  /** A zero tensor of `size` elements after a 1 is stored at position `k`. */
  function OneHot(size: nat, k: nat): (mask: seq<real>)
    requires k < size
    ensures IsOneHot(mask, size, k)
  {
    seq(size, i requires 0 <= i < size => if i == k then 1.0 else 0.0)
  }

  /** The sum of all elements, as `torch.sum` computes it. */
  function Sum(s: seq<real>): (t: real)
    ensures (forall i :: 0 <= i < |s| ==> s[i] == 0.0) ==> t == 0.0
    ensures |s| == 1 ==> t == s[0]
  {
    if s == [] then 0.0 else s[0] + Sum(s[1..])
  }

  /** The element-wise product `mask * out`. */
  function Times(a: seq<real>, b: seq<real>): (p: seq<real>)
    requires |a| == |b|
    ensures |p| == |a|
    ensures forall i :: 0 <= i < |p| ==> p[i] == a[i] * b[i]
  {
    seq(|a|, i requires 0 <= i < |a| => a[i] * b[i])
  }

  /** The scalar objective of one call, as the source computes it: resolve the
      index, build the one-hot mask and sum the masked scores. */
  function ObjectiveOf(out: seq<real>, index: Option<int>): (r: Result<real, Error>)
    ensures index.Some? ==> (r.Success? <==> -|out| <= index.value < |out|)
    ensures index.None? ==>
      (r.Success? <==> |out| > 0 && -|out| <= Truncate(MaxScore(out)) < |out|)
    ensures r.Success? ==> exists k :: 0 <= k < |out| && r.value == out[k]
  {
    var raw :- ResolveIndex(out, index);
    var k :- Position(raw, |out|);
    SumOfOneHot(OneHot(|out|, k), out, k);
    Success(Sum(Times(OneHot(|out|, k), out)))
  }

  /** Dropping the first element of both factors drops the first product. */
  lemma TimesTail(a: seq<real>, b: seq<real>)
    requires |a| == |b| > 0
    ensures Times(a, b)[1..] == Times(a[1..], b[1..])
  {
    var p, q := Times(a, b)[1..], Times(a[1..], b[1..]);
    assert |p| == |q|;
    forall i | 0 <= i < |q| ensures p[i] == q[i] {
      assert p[i] == a[i + 1] * b[i + 1];
    }
  }

  /** A mask that is zero everywhere takes nothing from the scores. */
  lemma SumOfZeroMask(mask: seq<real>, out: seq<real>)
    requires |mask| == |out|
    requires forall i :: 0 <= i < |mask| ==> mask[i] == 0.0
    ensures Sum(Times(mask, out)) == 0.0
  {
  }

  /** `sum(mask * out)` for a one-hot mask picks out exactly the score at its 1. */
  lemma {:induction false} SumOfOneHot(mask: seq<real>, out: seq<real>, k: nat)
    requires IsOneHot(mask, |out|, k)
    ensures Sum(Times(mask, out)) == out[k]
    decreases k
  {
    TimesTail(mask, out);
    if k == 0 {
      SumOfZeroMask(mask[1..], out[1..]);
    } else {
      SumOfOneHot(mask[1..], out[1..], k - 1);
    }
  }

  /** With an explicit index, the objective is the score at that index (counted
      from the back when negative), and fails exactly when the index lies
      outside `[-len(out), len(out))`. */
  lemma ObjectiveWithIndex(out: seq<real>, i: int)
    ensures 0 <= i < |out| ==> ObjectiveOf(out, Some(i)) == Success(out[i])
    ensures -|out| <= i < 0 ==> ObjectiveOf(out, Some(i)) == Success(out[|out| + i])
    ensures !(-|out| <= i < |out|) ==> ObjectiveOf(out, Some(i)) == Failure(IndexOutOfRange(i, |out|))
  {
    if -|out| <= i < |out| {
      var k := Position(i, |out|).value;
      SumOfOneHot(OneHot(|out|, k), out, k);
    }
  }

  /** Without an index, the objective is the score at position `int(max(out))`:
      it exists only when that truncated maximum lies in `[-len(out), len(out))`. */
  lemma ObjectiveWithoutIndex(out: seq<real>)
    ensures |out| == 0 ==> ObjectiveOf(out, None) == Failure(EmptyScores)
    ensures |out| > 0 ==>
      var t := Truncate(MaxScore(out));
      && (ObjectiveOf(out, None).Success? <==> -|out| <= t < |out|)
      && (0 <= t < |out| ==> ObjectiveOf(out, None) == Success(out[t]))
      && (-|out| <= t < 0 ==> ObjectiveOf(out, None) == Success(out[|out| + t]))
  {
    if |out| > 0 {
      ObjectiveWithIndex(out, Truncate(MaxScore(out)));
    }
  }

  /** Builds the mask in place: an array of `size` zeros, then a 1 stored at
      `index`, which fails as tensor indexing does when `index` is out of range. */
  method OneHotMask(size: nat, index: int) returns (r: Result<seq<real>, Error>)
    ensures Position(index, size).Failure? ==> r == Failure(IndexOutOfRange(index, size))
    ensures Position(index, size).Success? ==>
      r.Success? && IsOneHot(r.value, size, Position(index, size).value)
  {
    var mask := new real[size];
    for i := 0 to size
      invariant forall j :: 0 <= j < i ==> mask[j] == 0.0
    {
      mask[i] := 0.0;
    }
    var k :- Position(index, size);
    mask[k] := 1.0;
    r := Success(mask[..]);
  }

  /** Lines computing the objective in every `__call__`: resolve the index, build
      the mask in place, and take `torch.sum(mask * out)`. */
  method ScalarObjective(out: seq<real>, index: Option<int>) returns (r: Result<real, Error>)
    ensures r == ObjectiveOf(out, index)
  {
    var raw :- ResolveIndex(out, index);
    var mask :- OneHotMask(|out|, raw);
    var k := Position(raw, |out|).value;
    SumOfOneHot(mask, out, k);
    SumOfOneHot(OneHot(|out|, k), out, k);
    r := Success(Sum(Times(mask, out)));
  }

  /** The default index as written picks the score at the position given by the
      truncated top score:
      for scores `[2.0, 0.0, 1.0]` that is position 2, score 1.0, while the top
      score 2.0 sits at position 0. */
  lemma DefaultIndexMissesTopScore()
    ensures MaxScore([2.0, 0.0, 1.0]) == 2.0
    ensures DefaultIndex([2.0, 0.0, 1.0]) == Success(2)
    ensures ObjectiveOf([2.0, 0.0, 1.0], None) == Success(1.0)
  {
    var out := [2.0, 0.0, 1.0];
    assert MaxScore(out[2..]) == 1.0;
    assert MaxScore(out[1..]) == 1.0;
    ObjectiveWithoutIndex(out);
  }

  /** ... and for scores `[5.0, 1.0]` it is position 5 of a 2-element mask. */
  lemma DefaultIndexOutOfRange()
    ensures ObjectiveOf([5.0, 1.0], None) == Failure(IndexOutOfRange(5, 2))
  {
  }

  /** The position of the first top score. */
  function ArgMax(out: seq<real>): (k: nat)
    requires |out| > 0
    ensures k < |out| && out[k] == MaxScore(out)
    ensures forall i :: 0 <= i < k ==> out[i] < out[k]
  {
    if |out| == 1 then 0
    else
      var k := ArgMax(out[1..]) + 1;
      assert out[k] == out[1..][k - 1];
      if out[0] >= out[k] then 0 else k
  }

  /** The default target that the use of `index` as a class position calls for:
      the position of the top score. */
  function IntendedDefaultIndex(out: seq<real>): (r: Result<int, Error>)
    ensures |out| == 0 <==> r == Failure(EmptyScores)
    ensures r.Success? ==> 0 <= r.value < |out| && forall i :: 0 <= i < |out| ==> out[i] <= out[r.value]
  {
    if |out| == 0 then Failure(EmptyScores) else Success(ArgMax(out))
  }

  /** The objective with the intended default target. */
  function IntendedObjectiveOf(out: seq<real>, index: Option<int>): (r: Result<real, Error>)
    ensures index.Some? ==> r == ObjectiveOf(out, index)
    ensures index.None? ==> (r.Success? <==> |out| > 0)
  {
    match index
    case Some(_) => ObjectiveOf(out, index)
    case None =>
      var k :- IntendedDefaultIndex(out);
      ObjectiveOf(out, Some(k))
  }

  /** With the intended default, a call without an index never fails on a
      non-empty output and back-propagates the top score; with an index, it
      agrees with the code as written. */
  lemma IntendedObjectiveSelectsTopScore(out: seq<real>, index: Option<int>)
    ensures |out| > 0 ==> IntendedObjectiveOf(out, None) == Success(MaxScore(out))
    ensures index.Some? ==> IntendedObjectiveOf(out, index) == ObjectiveOf(out, index)
  {
    if |out| > 0 {
      var k := ArgMax(out);
      SumOfOneHot(OneHot(|out|, k), out, k);
    }
  }
}
