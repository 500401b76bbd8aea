/**
 * The ordering and accumulation part of the number helpers (src/utils/number.ts):
 * `clamp`, `sum` and `mean`. JavaScript numbers are modelled as mathematical reals.
 */
module Numbers {
  import opened Std

  /** The message `mean` throws on an empty list. */
  const EmptyMeanMessage: string := "Cannot compute mean of an empty array"

  /** `Math.max` of two numbers. */
  function Max(a: real, b: real): (r: real)
    ensures r >= a && r >= b && (r == a || r == b)
  {
    if a >= b then a else b
  }

  /** `Math.min` of two numbers. */
  function Min(a: real, b: real): (r: real)
    ensures r <= a && r <= b && (r == a || r == b)
  {
    if a <= b then a else b
  }

  /**
   * `clamp(value, min, max)`, evaluated as `Math.min(Math.max(value, min), max)`; the order
   * of evaluation decides the answer when the bounds are inverted.
   */
  function Clamp(value: real, min: real, max: real): (r: real)
    ensures min <= max ==> min <= r <= max
    ensures min <= value <= max ==> r == value
    ensures value < min <= max ==> r == min
    ensures min <= max < value ==> r == max
    ensures min > max ==> r == max
  {
    Min(Max(value, min), max)
  }

  /** The callback of `values.reduce((total, current) => total + current, total)`. */
  function Fold(total: real, values: seq<real>): real
    decreases |values|
  {
    if values == [] then total else Fold(total + values[0], values[1..])
  }

  /** `sum(values)`: left-to-right accumulation starting at 0. */
  function Sum(values: seq<real>): real
  {
    Fold(0.0, values)
  }

  /** The accumulator of the fold can be taken out of it. */
  lemma {:induction false} FoldShift(total: real, values: seq<real>)
    ensures Fold(total, values) == total + Sum(values)
    decreases |values|
  {
    if values != [] {
      FoldShift(total + values[0], values[1..]);
      FoldShift(values[0], values[1..]);
    }
  }

  /** The sum of a concatenation is the sum of the sums. */
  lemma {:induction false} SumConcat(xs: seq<real>, ys: seq<real>)
    ensures Sum(xs + ys) == Sum(xs) + Sum(ys)
    decreases |xs|
  {
    if xs == [] {
      assert xs + ys == ys;
    } else {
      assert (xs + ys)[1..] == xs[1..] + ys;
      FoldShift(xs[0], xs[1..] + ys);
      FoldShift(xs[0], xs[1..]);
      SumConcat(xs[1..], ys);
    }
  }

  /** The empty sum is 0 and appending a value adds it to the sum. */
  lemma SumSnoc(xs: seq<real>, x: real)
    ensures Sum([]) == 0.0
    ensures Sum(xs + [x]) == Sum(xs) + x
  {
    SumConcat(xs, [x]);
    assert [x][1..] == [];
    assert Sum([x]) == Fold(0.0 + x, []) == x;
  }

  /** When every value lies in [lo, hi], the sum lies between n * lo and n * hi. */
  lemma {:induction false} SumBounds(values: seq<real>, lo: real, hi: real)
    requires forall i :: 0 <= i < |values| ==> lo <= values[i] <= hi
    ensures |values| as real * lo <= Sum(values) <= |values| as real * hi
    decreases |values|
  {
    if values != [] {
      SumBounds(values[1..], lo, hi);
      FoldShift(values[0], values[1..]);
      assert |values| as real * lo == lo + |values[1..]| as real * lo;
      assert |values| as real * hi == hi + |values[1..]| as real * hi;
    }
  }

  /** `mean(values)`: fails on an empty list, otherwise the sum over the length. */
  function Mean(values: seq<real>): (r: Result<real, string>)
    ensures r.Err? <==> values == []
    ensures r.Err? ==> r.error == EmptyMeanMessage
    ensures r.Ok? ==> r.value * |values| as real == Sum(values)
  {
    if |values| == 0 then Err(EmptyMeanMessage) else Ok(Sum(values) / |values| as real)
  }

  /** The mean of values in [lo, hi] lies in [lo, hi]. */
  lemma MeanBounds(values: seq<real>, lo: real, hi: real)
    requires values != []
    requires forall i :: 0 <= i < |values| ==> lo <= values[i] <= hi
    ensures Mean(values).Ok? && lo <= Mean(values).value <= hi
  {
    SumBounds(values, lo, hi);
    var n := |values| as real;
    var m := Mean(values).value;
    assert m * n == Sum(values);
    assert m * n >= lo * n && m * n <= hi * n;
  }

  /** A constant list's mean is that constant. */
  lemma MeanOfConstant(values: seq<real>, c: real)
    requires values != []
    requires forall i :: 0 <= i < |values| ==> values[i] == c
    ensures Mean(values) == Ok(c)
  {
    MeanBounds(values, c, c);
  }
}
