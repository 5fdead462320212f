// Structural helpers over series of doubles (Helper.java). A double is
// modelled as a `real`; a `RuntimeException` or an index failure becomes
// `None`.
module Helper {
  import opened Wrappers

  /** Every array has the length of the first one. */
  predicate SameSize(arrays: seq<array<real>>)
  {
    forall i :: 0 <= i < |arrays| ==> arrays[i].Length == arrays[0].Length
  }

  /** For two arrays, `SameSize` is equality of their lengths. */
  lemma SameSizePair(a: array<real>, b: array<real>)
    ensures SameSize([a, b]) <==> a.Length == b.Length
  {
    assert [a, b][1] == b;
  }

  /** `checkSameSize`: `false` where the source throws "not all same size". */
  method CheckSameSize(arrays: seq<array<real>>) returns (ok: bool)
    ensures |arrays| < 2 ==> ok
    ensures ok <==> SameSize(arrays)
  {
    if |arrays| < 2 {
      return true;
    }
    for i := 0 to |arrays|
      invariant forall k :: 0 <= k < i ==> arrays[k].Length == arrays[0].Length
    {
      if arrays[i].Length != arrays[0].Length {
        return false;
      }
    }
    return true;
  }

  // ---------------------------------------------------------------------
  // Element-wise specifications
  // ---------------------------------------------------------------------

  function Scaled(v: seq<real>, m: real): (r: seq<real>)
    ensures |r| == |v|
  {
    seq(|v|, i requires 0 <= i < |v| => v[i] * m)
  }

  function Offset(v: seq<real>, a: real): (r: seq<real>)
    ensures |r| == |v|
  {
    seq(|v|, i requires 0 <= i < |v| => v[i] + a)
  }

  function Sums(a: seq<real>, b: seq<real>): (r: seq<real>)
    requires |a| == |b|
    ensures |r| == |a|
  {
    seq(|a|, i requires 0 <= i < |a| => a[i] + b[i])
  }

  function Differences(a: seq<real>, b: seq<real>): (r: seq<real>)
    requires |a| == |b|
    ensures |r| == |a|
  {
    seq(|a|, i requires 0 <= i < |a| => a[i] - b[i])
  }

  function Products(a: seq<real>, b: seq<real>): (r: seq<real>)
    requires |a| == |b|
    ensures |r| == |a|
  {
    seq(|a|, i requires 0 <= i < |a| => a[i] * b[i])
  }

  /** A zero divisor gives 0 (the source's double arithmetic gives an infinity or NaN). */
  function Ratio(x: real, y: real): (q: real)
    ensures y != 0.0 ==> q * y == x
  {
    if y == 0.0 then 0.0 else x / y
  }

  function Quotients(a: seq<real>, b: seq<real>): (r: seq<real>)
    requires |a| == |b|
    ensures |r| == |a|
  {
    seq(|a|, i requires 0 <= i < |a| => Ratio(a[i], b[i]))
  }

  /** `v` moved `p` places to the right, the first `p` places holding `fill`. */
  function Shifted(v: seq<real>, p: int, fill: real): (r: seq<real>)
    requires 0 <= p || |v| == 0
    ensures |r| == |v|
  {
    seq(|v|, i requires 0 <= i < |v| => if i < p then fill else v[i - p])
  }

  function Signs(v: seq<real>): (r: seq<real>)
    ensures |r| == |v|
  {
    seq(|v|, i requires 0 <= i < |v| => if v[i] >= 0.0 then 1.0 else -1.0)
  }

  function Positives(v: seq<real>): (r: seq<real>)
    ensures |r| == |v|
  {
    seq(|v|, i requires 0 <= i < |v| => if v[i] > 0.0 then v[i] else 0.0)
  }

  function Negatives(v: seq<real>): (r: seq<real>)
    ensures |r| == |v|
  {
    seq(|v|, i requires 0 <= i < |v| => if v[i] < 0.0 then v[i] else 0.0)
  }

  // ---------------------------------------------------------------------
  // The array operations
  // ---------------------------------------------------------------------

  method MultiplyBy(values: array<real>, multiplier: real) returns (result: array<real>)
    ensures fresh(result) && result[..] == Scaled(values[..], multiplier)
  {
    result := new real[values.Length];
    for i := 0 to values.Length
      invariant forall k :: 0 <= k < i ==> result[k] == values[k] * multiplier
    {
      result[i] := values[i] * multiplier;
    }
    assert forall k :: 0 <= k < values.Length ==> result[..][k] == Scaled(values[..], multiplier)[k];
  }

  method Multiply(values1: array<real>, values2: array<real>) returns (r: Option<array<real>>)
    ensures r.None? <==> values1.Length != values2.Length
    ensures r.Some? ==> fresh(r.value) && r.value[..] == Products(values1[..], values2[..])
  {
    var same := CheckSameSize([values1, values2]);
    SameSizePair(values1, values2);
    if !same {
      return None;
    }
    var result := new real[values1.Length];
    for i := 0 to result.Length
      invariant forall k :: 0 <= k < i ==> result[k] == values1[k] * values2[k]
    {
      result[i] := values1[i] * values2[i];
    }
    assert forall k :: 0 <= k < result.Length ==> result[..][k] == Products(values1[..], values2[..])[k];
    return Some(result);
  }

  /** `divideBy` multiplies by the reciprocal of `divider`. */
  method DivideBy(values: array<real>, divider: real) returns (result: array<real>)
    ensures fresh(result) && result[..] == Scaled(values[..], Ratio(1.0, divider))
  {
    result := MultiplyBy(values, Ratio(1.0, divider));
  }

  method Divide(values1: array<real>, values2: array<real>) returns (r: Option<array<real>>)
    ensures r.None? <==> values1.Length != values2.Length
    ensures r.Some? ==> fresh(r.value) && r.value[..] == Quotients(values1[..], values2[..])
  {
    var same := CheckSameSize([values1, values2]);
    SameSizePair(values1, values2);
    if !same {
      return None;
    }
    var result := new real[values1.Length];
    for i := 0 to result.Length
      invariant forall k :: 0 <= k < i ==> result[k] == Ratio(values1[k], values2[k])
    {
      result[i] := Ratio(values1[i], values2[i]);
    }
    return Some(result);
  }

  method Add(values1: array<real>, values2: array<real>) returns (r: Option<array<real>>)
    ensures r.None? <==> values1.Length != values2.Length
    ensures r.Some? ==> fresh(r.value) && r.value[..] == Sums(values1[..], values2[..])
  {
    var same := CheckSameSize([values1, values2]);
    SameSizePair(values1, values2);
    if !same {
      return None;
    }
    var result := new real[values1.Length];
    for i := 0 to result.Length
      invariant forall k :: 0 <= k < i ==> result[k] == values1[k] + values2[k]
    {
      result[i] := values1[i] + values2[i];
    }
    return Some(result);
  }

  method AddBy(values: array<real>, addition: real) returns (result: array<real>)
    ensures fresh(result) && result[..] == Offset(values[..], addition)
  {
    result := new real[values.Length];
    for i := 0 to result.Length
      invariant forall k :: 0 <= k < i ==> result[k] == values[k] + addition
    {
      result[i] := values[i] + addition;
    }
  }

  /** `subtract` adds the negated second series; its size check is the one in `add`. */
  method Subtract(values1: array<real>, values2: array<real>) returns (r: Option<array<real>>)
    ensures r.None? <==> values1.Length != values2.Length
    ensures r.Some? ==> fresh(r.value) && r.value[..] == Differences(values1[..], values2[..])
  {
    var negated := MultiplyBy(values2, -1.0);
    r := Add(values1, negated);
    if r.Some? {
      assert r.value[..] == Differences(values1[..], values2[..]) by {
        forall k | 0 <= k < values1.Length
          ensures r.value[k] == values1[k] - values2[k]
        {
          assert r.value[..][k] == values1[..][k] + negated[..][k];
        }
      }
    }
  }

  /**
   * `shiftRightAndFillBy`. A negative period reads past the end of `values`
   * once `i - period` reaches its length, which the source reports by an
   * index exception.
   */
  method ShiftRightAndFillBy(period: int, fill: real, values: array<real>) returns (r: Option<array<real>>)
    ensures r.None? <==> period < 0 && values.Length > 0
    ensures r.Some? ==> fresh(r.value) && r.value[..] == Shifted(values[..], period, fill)
  {
    var result := new real[values.Length];
    for i := 0 to result.Length
      invariant period < 0 && 0 < i ==> i - 1 - period < values.Length
      invariant forall k :: 0 <= k < i ==> result[k] == if k < period then fill else values[k - period]
    {
      if i < period {
        result[i] := fill;
      } else {
        if i - period >= values.Length {
          return None;
        }
        result[i] := values[i - period];
      }
    }
    return Some(result);
  }

  method ShiftRight(period: int, values: array<real>) returns (r: Option<array<real>>)
    ensures r.None? <==> period < 0 && values.Length > 0
    ensures r.Some? ==> fresh(r.value) && r.value[..] == Shifted(values[..], period, 0.0)
  {
    r := ShiftRightAndFillBy(period, 0.0, values);
  }

  /**
   * `diff`: each value minus the one `before` places earlier, the first
   * `before` values minus the zero fill.
   */
  method Diff(values: array<real>, before: int) returns (r: Option<array<real>>)
    ensures r.None? <==> before < 0 && values.Length > 0
    ensures r.Some? ==> fresh(r.value) && r.value.Length == values.Length
    ensures r.Some? ==> forall i :: 0 <= i < values.Length ==>
      r.value[i] == if i < before then values[i] else values[i] - values[i - before]
  {
    var shifted := ShiftRight(before, values);
    if shifted.None? {
      return None;
    }
    r := Subtract(values, shifted.value);
    forall i | 0 <= i < values.Length
      ensures r.value[i] == if i < before then values[i] else values[i] - values[i - before]
    {
      assert r.value[..][i] == values[..][i] - shifted.value[..][i];
      assert shifted.value[..][i] == Shifted(values[..], before, 0.0)[i];
    }
  }

  method ExtractSign(values: array<real>) returns (result: array<real>)
    ensures fresh(result) && result[..] == Signs(values[..])
  {
    result := new real[values.Length];
    for i := 0 to result.Length
      invariant forall k :: 0 <= k < i ==> result[k] == if values[k] >= 0.0 then 1.0 else -1.0
    {
      if values[i] >= 0.0 {
        result[i] := 1.0;
      } else {
        result[i] := -1.0;
      }
    }
  }

  method KeepPositives(values: array<real>) returns (result: array<real>)
    ensures fresh(result) && result[..] == Positives(values[..])
  {
    result := new real[values.Length];
    for i := 0 to values.Length
      invariant forall k :: 0 <= k < i ==> result[k] == if values[k] > 0.0 then values[k] else 0.0
    {
      if values[i] > 0.0 {
        result[i] := values[i];
      } else {
        result[i] := 0.0;
      }
    }
  }

  method KeepNegatives(values: array<real>) returns (result: array<real>)
    ensures fresh(result) && result[..] == Negatives(values[..])
  {
    result := new real[values.Length];
    for i := 0 to values.Length
      invariant forall k :: 0 <= k < i ==> result[k] == if values[k] < 0.0 then values[k] else 0.0
    {
      if values[i] < 0.0 {
        result[i] := values[i];
      } else {
        result[i] := 0.0;
      }
    }
  }

  // ---------------------------------------------------------------------
  // Properties of the specifications
  // ---------------------------------------------------------------------

  /** Dividing by a non-zero divider undoes multiplying by it. */
  lemma DivideByUndoesMultiplyBy(v: seq<real>, d: real)
    requires d != 0.0
    ensures Scaled(Scaled(v, d), Ratio(1.0, d)) == v
  {
    forall i | 0 <= i < |v|
      ensures Scaled(Scaled(v, d), Ratio(1.0, d))[i] == v[i]
    {
      calc {
        Scaled(Scaled(v, d), Ratio(1.0, d))[i];
        (v[i] * d) * (1.0 / d);
        v[i] * (d * (1.0 / d));
        v[i];
      }
    }
  }

  /** Dividing by a divisor with no zero undoes multiplying by it. */
  lemma DivideUndoesMultiply(a: seq<real>, b: seq<real>)
    requires |a| == |b|
    requires forall i :: 0 <= i < |b| ==> b[i] != 0.0
    ensures Quotients(Products(a, b), b) == a
  {
    forall i | 0 <= i < |a|
      ensures Quotients(Products(a, b), b)[i] == a[i]
    {
      calc {
        Quotients(Products(a, b), b)[i];
        (a[i] * b[i]) / b[i];
        a[i] * (b[i] / b[i]);
        a[i];
      }
    }
  }

  /** Adding `-a` undoes adding `a`. */
  lemma AddByInverse(v: seq<real>, a: real)
    ensures Offset(Offset(v, a), -a) == v
  {
  }

  /** Subtracting `b` undoes adding `b`, and adding it back undoes subtracting it. */
  lemma SubtractUndoesAdd(a: seq<real>, b: seq<real>)
    requires |a| == |b|
    ensures Differences(Sums(a, b), b) == a
    ensures Sums(Differences(a, b), b) == a
  {
  }

  /** Every value splits into its positive part plus its negative part. */
  lemma PositivesPlusNegatives(v: seq<real>)
    ensures Sums(Positives(v), Negatives(v)) == v
  {
    forall i | 0 <= i < |v|
      ensures Sums(Positives(v), Negatives(v))[i] == v[i]
    {
    }
  }

  /**
   * The sign is +1 exactly where the negative part is 0 (zero counts as
   * positive), and sign times value is the positive part minus the negative part.
   */
  lemma SignsAndParts(v: seq<real>)
    ensures forall i :: 0 <= i < |v| ==> (Signs(v)[i] == 1.0 <==> Negatives(v)[i] == 0.0)
    ensures Products(Signs(v), v) == Differences(Positives(v), Negatives(v))
  {
  }

  /** Shifting by 0 changes nothing. */
  lemma ShiftByZero(v: seq<real>, fill: real)
    ensures Shifted(v, 0, fill) == v
  {
  }

  /** Two shifts with the same fill are one shift by the sum of the periods. */
  lemma {:induction false} ShiftTwice(v: seq<real>, p: nat, q: nat, fill: real)
    ensures Shifted(Shifted(v, q, fill), p, fill) == Shifted(v, p + q, fill)
  {
    var twice := Shifted(Shifted(v, q, fill), p, fill);
    forall i | 0 <= i < |v|
      ensures twice[i] == Shifted(v, p + q, fill)[i]
    {
      if i >= p {
        assert twice[i] == Shifted(v, q, fill)[i - p];
      }
    }
  }
}
