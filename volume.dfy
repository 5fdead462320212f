// On-balance volume (VolumeIndicators.obv). Closing prices are `real`s;
// volumes are unbounded `int`s (the source's `long`).
module VolumeIndicators {
  import opened Wrappers

  /** The volume of bar `j`, signed by whether its close rose (+), fell (-) or held (0). */
  function Flow(closing: seq<real>, volume: seq<int>, j: int): (f: int)
    requires |closing| == |volume| && 1 <= j < |closing|
  {
    if closing[j] > closing[j - 1] then volume[j]
    else if closing[j] < closing[j - 1] then -volume[j]
    else 0
  }

  /** The on-balance volume after bar `i`: signed volume summed over bars 1..i. */
  function Balance(closing: seq<real>, volume: seq<int>, i: int): (obv: int)
    requires |closing| == |volume| && 0 <= i < |closing|
  {
    if i == 0 then 0
    else Balance(closing, volume, i - 1) + Flow(closing, volume, i)
  }

  /** Volume of the bars in 1..i whose close rose. */
  function Rising(closing: seq<real>, volume: seq<int>, i: int): (up: int)
    requires |closing| == |volume| && 0 <= i < |closing|
  {
    if i == 0 then 0
    else Rising(closing, volume, i - 1) + (if closing[i] > closing[i - 1] then volume[i] else 0)
  }

  /** Volume of the bars in 1..i whose close fell. */
  function Falling(closing: seq<real>, volume: seq<int>, i: int): (down: int)
    requires |closing| == |volume| && 0 <= i < |closing|
  {
    if i == 0 then 0
    else Falling(closing, volume, i - 1) + (if closing[i] < closing[i - 1] then volume[i] else 0)
  }

  function Abs(x: int): (a: nat)
  {
    if x < 0 then -x else x
  }

  /** Total absolute volume of bars 1..i. */
  function Traded(volume: seq<int>, i: int): (total: int)
    requires 0 <= i < |volume|
    ensures 0 <= total
  {
    if i == 0 then 0 else Traded(volume, i - 1) + Abs(volume[i])
  }

  /**
   * `obv`: `None` where the source throws on different lengths; otherwise
   * bar 0 is 0 and each later bar carries the one before, moved by the volume
   * in the direction of the close.
   */
  method Obv(closing: array<real>, volume: array<int>) returns (r: Option<array<int>>)
    ensures r.None? <==> closing.Length != volume.Length
    ensures r.Some? ==> fresh(r.value) && r.value.Length == volume.Length
    ensures r.Some? && volume.Length > 0 ==> r.value[0] == 0
    ensures r.Some? ==> forall i :: 0 <= i < volume.Length ==>
      r.value[i] == Balance(closing[..], volume[..], i)
  {
    if closing.Length != volume.Length {
      return None;
    }
    ghost var cs, vs := closing[..], volume[..];
    var obv := new int[volume.Length](_ => 0);
    var i := 1;
    while i < obv.Length
      invariant 1 <= i
      invariant obv.Length > 0 ==> i <= obv.Length
      invariant forall k {:trigger obv[k]} :: 0 <= k < i && k < obv.Length ==> obv[k] == Balance(cs, vs, k)
    {
      var next := obv[i - 1];
      if closing[i] > closing[i - 1] {
        next := next + volume[i];
      } else if closing[i] < closing[i - 1] {
        next := next - volume[i];
      }
      assert next == Balance(cs, vs, i);
      obv[i] := next;
      i := i + 1;
    }
    return Some(obv);
  }

  /** The balance is the rising volume minus the falling volume. */
  lemma {:induction false} BalanceIsRisingMinusFalling(closing: seq<real>, volume: seq<int>, i: int)
    requires |closing| == |volume| && 0 <= i < |closing|
    ensures Balance(closing, volume, i) == Rising(closing, volume, i) - Falling(closing, volume, i)
  {
    if i > 0 {
      BalanceIsRisingMinusFalling(closing, volume, i - 1);
    }
  }

  /** A close that never changes leaves the balance at 0 on every bar. */
  lemma {:induction false} ConstantClosingGivesZero(closing: seq<real>, volume: seq<int>, i: int)
    requires |closing| == |volume| && 0 <= i < |closing|
    requires forall j :: 0 <= j < |closing| ==> closing[j] == closing[0]
    ensures Balance(closing, volume, i) == 0
  {
    if i > 0 {
      ConstantClosingGivesZero(closing, volume, i - 1);
      assert closing[i] == closing[i - 1];
    }
  }

  /** The balance never exceeds the total volume traded in either direction. */
  lemma {:induction false} BalanceBounded(closing: seq<real>, volume: seq<int>, i: int)
    requires |closing| == |volume| && 0 <= i < |closing|
    ensures -Traded(volume, i) <= Balance(closing, volume, i) <= Traded(volume, i)
  {
    if i > 0 {
      BalanceBounded(closing, volume, i - 1);
    }
  }
}
