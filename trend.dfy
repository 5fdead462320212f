/**
 * The moving maximum and minimum of class `TrendIndicators`, which keep the
 * last `period` values in an ordered tree and a circular buffer, and the
 * count of steps since the value last changed. Values are the tree's integer
 * keys (numbers already rounded to six decimal places and scaled).
 */
module TrendIndicators {
  import opened Wrappers
  import opened Trees

  // ---------------------------------------------------------------------
  // Windows

  /** The first index of the window of length `period` that ends at index `i` (clipped at 0). */
  function WindowStart(period: int, i: int): (start: int)
    ensures 0 <= start
    ensures start == 0 || start == i - period + 1
    ensures i - period + 1 <= start
  {
    if i - period + 1 < 0 then 0 else i - period + 1
  }

  /** The greatest element of a non-empty sequence. */
  function SeqMax(s: seq<int>): (m: int)
    requires |s| > 0
  {
    if |s| == 1 then s[0]
    else
      var m := SeqMax(s[..|s| - 1]);
      if s[|s| - 1] > m then s[|s| - 1] else m
  }

  /** The least element of a non-empty sequence. */
  function SeqMin(s: seq<int>): (m: int)
    requires |s| > 0
  {
    if |s| == 1 then s[0]
    else
      var m := SeqMin(s[..|s| - 1]);
      if s[|s| - 1] < m then s[|s| - 1] else m
  }

  /** `SeqMax(s)` is an element of `s` and is at least every element. */
  lemma {:induction false} SeqMaxIsGreatest(s: seq<int>)
    requires |s| > 0
    ensures SeqMax(s) in s
    ensures forall x :: x in s ==> x <= SeqMax(s)
  {
    if |s| > 1 {
      var init := s[..|s| - 1];
      SeqMaxIsGreatest(init);
      assert s == init + [s[|s| - 1]];
      forall x | x in s
        ensures x <= SeqMax(s)
      {
        if x != s[|s| - 1] {
          assert x in init;
        }
      }
    }
  }

  /** `SeqMin(s)` is an element of `s` and is at most every element. */
  lemma {:induction false} SeqMinIsLeast(s: seq<int>)
    requires |s| > 0
    ensures SeqMin(s) in s
    ensures forall x :: x in s ==> SeqMin(s) <= x
  {
    if |s| > 1 {
      var init := s[..|s| - 1];
      SeqMinIsLeast(init);
      assert s == init + [s[|s| - 1]];
      forall x | x in s
        ensures SeqMin(s) <= x
      {
        if x != s[|s| - 1] {
          assert x in init;
        }
      }
    }
  }

  /**
   * Sliding the window one step: adding the new value and, once the window is
   * full, dropping the value `period` places back gives the next window.
   */
  lemma WindowSlide(values: seq<int>, period: int, i: int)
    requires 0 < period && 0 <= i < |values|
    ensures var before := multiset(values[WindowStart(period, i - 1)..i]) + multiset{values[i]};
      multiset(values[WindowStart(period, i)..i + 1]) ==
        if i >= period then before - multiset{values[i - period]} else before
  {
    var lo := WindowStart(period, i - 1);
    var w := values[lo..i + 1];
    assert w == values[lo..i] + [values[i]];
    assert multiset(w) == multiset(values[lo..i]) + multiset{values[i]};
    if i >= period {
      assert w == [values[lo]] + values[lo + 1..i + 1];
      assert multiset(w) == multiset{values[lo]} + multiset(values[lo + 1..i + 1]);
    }
  }

  lemma {:induction false} MulAtLeast(k: int, p: int)
    requires 1 <= k && 0 < p
    ensures p <= k * p
    decreases k
  {
    if k > 1 {
      MulAtLeast(k - 1, p);
      assert k * p == (k - 1) * p + p;
    }
  }

  /** Euclidean remainders are unique: `q * p + r` with `0 <= r < p` leaves remainder `r`. */
  lemma ModUnique(a: int, p: int, q: int, r: int)
    requires 0 < p && 0 <= r < p && a == q * p + r
    ensures a % p == r
  {
    var q', r' := a / p, a % p;
    assert a == q' * p + r';
    assert (q - q') * p == r' - r;
    if q - q' >= 1 {
      MulAtLeast(q - q', p);
    } else if q' - q >= 1 {
      MulAtLeast(q' - q, p);
    }
  }

  /** The value evicted at step `i` sits in the slot step `i` writes. */
  lemma SlotReused(period: int, i: int)
    requires 0 < period
    ensures (i - period) % period == i % period
  {
    ModUnique(i, period, (i - period) / period + 1, (i - period) % period);
  }

  /** Slot `j % period` of the circular buffer is not reused by any of the next `period - 1` steps. */
  lemma SlotDistinct(period: int, j: int, i: int)
    requires 0 < period && j < i < j + period
    ensures j % period != i % period
  {
    if j % period == i % period {
      var k := i / period - j / period;
      assert i - j == k * period;
      if k >= 1 {
        MulAtLeast(k, period);
      } else if k <= -1 {
        MulAtLeast(-k, period);
      }
    }
  }


  // ---------------------------------------------------------------------
  // Moving maximum and minimum

  /** `m` occurs in `w` and no element of `w` exceeds it. */
  ghost predicate IsMaximum(w: seq<int>, m: int)
  {
    m in w && forall x :: x in w ==> x <= m
  }

  /** `m` occurs in `w` and no element of `w` is below it. */
  ghost predicate IsMinimum(w: seq<int>, m: int)
  {
    m in w && forall x :: x in w ==> m <= x
  }

  /** The maximum of a non-empty sequence is exactly the value `SeqMax` computes. */
  lemma MaximumIsSeqMax(w: seq<int>, m: int)
    requires |w| > 0
    ensures IsMaximum(w, m) <==> m == SeqMax(w)
  {
    SeqMaxIsGreatest(w);
  }

  /** The minimum of a non-empty sequence is exactly the value `SeqMin` computes. */
  lemma MinimumIsSeqMin(w: seq<int>, m: int)
    requires |w| > 0
    ensures IsMinimum(w, m) <==> m == SeqMin(w)
  {
    SeqMinIsLeast(w);
  }

  /** The greatest key of a tree holding exactly the window is the window's maximum. */
  lemma MaximumOfKeys(w: seq<int>, keys: multiset<int>, m: int)
    requires keys == multiset(w) && m in keys && forall x :: x in keys ==> x <= m
    ensures IsMaximum(w, m)
  {
    forall x | x in w
      ensures x <= m
    {
      assert x in multiset(w);
    }
  }

  /** The least key of a tree holding exactly the window is the window's minimum. */
  lemma MinimumOfKeys(w: seq<int>, keys: multiset<int>, m: int)
    requires keys == multiset(w) && m in keys && forall x :: x in keys ==> m <= x
    ensures IsMinimum(w, m)
  {
    forall x | x in w
      ensures m <= x
    {
      assert x in multiset(w);
    }
  }

  /**
   * Between two steps of the loops of `max` and `min`: the tree holds exactly
   * the window of values before index `n`, and the circular buffer holds each
   * of them in its slot.
   */
  ghost predicate Holds(bst: Tree, buffer: array<int>, vs: seq<int>, period: int, n: int)
    reads bst, bst.Repr, buffer
  {
    0 <= period == buffer.Length && 0 <= n <= |vs| &&
    bst.Valid() && buffer !in bst.Repr &&
    bst.Keys() == multiset(vs[WindowStart(period, n - 1)..n]) &&
    (0 < period ==> forall j :: WindowStart(period, n - 1) <= j < n ==> buffer[j % period] == vs[j])
  }

  /**
   * The tree part of the step at index `i`: inserts the new value `x` and,
   * once the window is full, removes the value that left it, read from its
   * slot of the circular buffer before that slot is overwritten.
   */
  method Track(bst: Tree, buffer: array<int>, ghost vs: seq<int>, x: int, period: int, i: int)
    requires Holds(bst, buffer, vs, period, i) && 0 < period && i < |vs| && x == vs[i]
    modifies bst.Repr
    ensures bst.Valid() && fresh(bst.Repr - old(bst.Repr))
    ensures bst.Keys() == multiset(vs[WindowStart(period, i)..i + 1])
  {
    ghost var hole, leaf := bst.Insert(x);
    if i >= period {
      SlotReused(period, i);
      var found, ctx, sub := bst.Remove(buffer[i % period]);
    }
    WindowSlide(vs, period, i);
  }

  /** Writes the new value `x` into its slot of the circular buffer. */
  method Slide(buffer: array<int>, ghost vs: seq<int>, x: int, period: int, i: int)
    requires 0 < period == buffer.Length && 0 <= i < |vs| && x == vs[i]
    requires forall j :: WindowStart(period, i - 1) <= j < i ==> buffer[j % period] == vs[j]
    modifies buffer
    ensures forall j :: WindowStart(period, i) <= j < i + 1 ==> buffer[j % period] == vs[j]
  {
    buffer[i % period] := x;
    forall j | WindowStart(period, i) <= j < i
      ensures buffer[j % period] == vs[j]
    {
      SlotDistinct(period, j, i);
    }
  }

  /** Moves the window on by the value `x` at index `i`: the tree first, then the buffer. */
  method Advance(bst: Tree, buffer: array<int>, ghost vs: seq<int>, x: int, period: int, i: int)
    requires Holds(bst, buffer, vs, period, i) && 0 < period && i < |vs| && x == vs[i]
    modifies bst.Repr, buffer
    ensures Holds(bst, buffer, vs, period, i + 1) && fresh(bst.Repr - old(bst.Repr))
  {
    Track(bst, buffer, vs, x, period, i);
    Slide(buffer, vs, x, period, i);
  }

  /** `result` holds the maximum of each window ending before index `n`. */
  ghost predicate MaximaBefore(result: array<int>, vs: seq<int>, period: int, n: int)
    reads result
  {
    0 <= period && n <= result.Length && n <= |vs| &&
    forall j :: 0 <= j < n ==> IsMaximum(vs[WindowStart(period, j)..j + 1], result[j])
  }

  /** `result` holds the minimum of each window ending before index `n`. */
  ghost predicate MinimaBefore(result: array<int>, vs: seq<int>, period: int, n: int)
    reads result
  {
    0 <= period && n <= result.Length && n <= |vs| &&
    forall j :: 0 <= j < n ==> IsMinimum(vs[WindowStart(period, j)..j + 1], result[j])
  }

  /** The state at the start of step `i` of the loop of `max`. */
  ghost predicate MaxReady(bst: Tree, buffer: array<int>, result: array<int>, vs: seq<int>, period: int, i: int)
    reads bst, bst.Repr, buffer, result
  {
    Holds(bst, buffer, vs, period, i) && result !in bst.Repr && result != buffer &&
    MaximaBefore(result, vs, period, i) && result.Length == |vs|
  }

  /** The state at the start of step `i` of the loop of `min`. */
  ghost predicate MinReady(bst: Tree, buffer: array<int>, result: array<int>, vs: seq<int>, period: int, i: int)
    reads bst, bst.Repr, buffer, result
  {
    Holds(bst, buffer, vs, period, i) && result !in bst.Repr && result != buffer &&
    MinimaBefore(result, vs, period, i) && result.Length == |vs|
  }

  /** Stores the tree's greatest key, the maximum of the window ending at `i`, as `result[i]`. */
  method RecordMax(bst: Tree, result: array<int>, ghost vs: seq<int>, period: int, i: int)
    requires bst.Valid() && result !in bst.Repr && 0 < period && 0 <= i < |vs| && i < result.Length
    requires bst.Keys() == multiset(vs[WindowStart(period, i)..i + 1])
    requires MaximaBefore(result, vs, period, i)
    modifies result
    ensures MaximaBefore(result, vs, period, i + 1)
  {
    var r := bst.Max();
    MaximumOfKeys(vs[WindowStart(period, i)..i + 1], bst.Keys(), r.value);
    result[i] := r.value;
  }

  /** Stores the tree's least key, the minimum of the window ending at `i`, as `result[i]`. */
  method RecordMin(bst: Tree, result: array<int>, ghost vs: seq<int>, period: int, i: int)
    requires bst.Valid() && result !in bst.Repr && 0 < period && 0 <= i < |vs| && i < result.Length
    requires bst.Keys() == multiset(vs[WindowStart(period, i)..i + 1])
    requires MinimaBefore(result, vs, period, i)
    modifies result
    ensures MinimaBefore(result, vs, period, i + 1)
  {
    var r := bst.Min();
    MinimumOfKeys(vs[WindowStart(period, i)..i + 1], bst.Keys(), r.value);
    result[i] := r.value;
  }

  /** The body of the loop of `max` at index `i`. */
  method MaxStep(bst: Tree, buffer: array<int>, result: array<int>, ghost vs: seq<int>, x: int, period: int, i: int)
    requires MaxReady(bst, buffer, result, vs, period, i) && 0 < period && i < |vs| && x == vs[i]
    modifies bst.Repr, buffer, result
    ensures MaxReady(bst, buffer, result, vs, period, i + 1) && fresh(bst.Repr - old(bst.Repr))
  {
    Advance(bst, buffer, vs, x, period, i);
    RecordMax(bst, result, vs, period, i);
  }

  /** The body of the loop of `min` at index `i`. */
  method MinStep(bst: Tree, buffer: array<int>, result: array<int>, ghost vs: seq<int>, x: int, period: int, i: int)
    requires MinReady(bst, buffer, result, vs, period, i) && 0 < period && i < |vs| && x == vs[i]
    modifies bst.Repr, buffer, result
    ensures MinReady(bst, buffer, result, vs, period, i + 1) && fresh(bst.Repr - old(bst.Repr))
  {
    Advance(bst, buffer, vs, x, period, i);
    RecordMin(bst, result, vs, period, i);
  }

  /** The loop of `max`: fills `result` with the window maxima of `values`. */
  method MaxLoop(bst: Tree, buffer: array<int>, result: array<int>, values: array<int>, ghost vs: seq<int>, period: int)
    requires 0 < period || values.Length == 0
    requires vs == values[..] && values != result && values != buffer && values !in bst.Repr
    requires MaxReady(bst, buffer, result, vs, period, 0)
    modifies bst.Repr, buffer, result
    ensures MaximaBefore(result, vs, period, |vs|)
  {
    for i := 0 to values.Length
      invariant MaxReady(bst, buffer, result, vs, period, i)
      invariant fresh(bst.Repr - old(bst.Repr))
    {
      MaxStep(bst, buffer, result, vs, values[i], period, i);
    }
  }

  /** The loop of `min`: fills `result` with the window minima of `values`. */
  method MinLoop(bst: Tree, buffer: array<int>, result: array<int>, values: array<int>, ghost vs: seq<int>, period: int)
    requires 0 < period || values.Length == 0
    requires vs == values[..] && values != result && values != buffer && values !in bst.Repr
    requires MinReady(bst, buffer, result, vs, period, 0)
    modifies bst.Repr, buffer, result
    ensures MinimaBefore(result, vs, period, |vs|)
  {
    for i := 0 to values.Length
      invariant MinReady(bst, buffer, result, vs, period, i)
      invariant fresh(bst.Repr - old(bst.Repr))
    {
      MinStep(bst, buffer, result, vs, values[i], period, i);
    }
  }

  /**
   * `TrendIndicators.max`: `r[i]` is the maximum of the last `period` values
   * up to index `i` (fewer at the start). A negative period fails the buffer
   * allocation, and a zero period fails the slot computation `i % period` at
   * the first value; both are `None`.
   */
  method Max(period: int, values: array<int>) returns (r: Option<array<int>>)
    ensures r.None? <==> period < 0 || (period == 0 && values.Length > 0)
    ensures r.Some? ==> fresh(r.value) && r.value.Length == values.Length
    ensures r.Some? ==> forall i :: 0 <= i < values.Length ==>
      IsMaximum(values[WindowStart(period, i)..i + 1], r.value[i])
  {
    if period < 0 || (period == 0 && values.Length > 0) {
      return None;
    }
    var result := new int[values.Length];
    var buffer := new int[period];
    var bst := new Tree.New();
    MaxLoop(bst, buffer, result, values, values[..], period);
    return Some(result);
  }

  /**
   * `TrendIndicators.min`: `r[i]` is the minimum of the last `period` values
   * up to index `i` (fewer at the start), failing as `Max` does.
   */
  method Min(period: int, values: array<int>) returns (r: Option<array<int>>)
    ensures r.None? <==> period < 0 || (period == 0 && values.Length > 0)
    ensures r.Some? ==> fresh(r.value) && r.value.Length == values.Length
    ensures r.Some? ==> forall i :: 0 <= i < values.Length ==>
      IsMinimum(values[WindowStart(period, i)..i + 1], r.value[i])
  {
    if period < 0 || (period == 0 && values.Length > 0) {
      return None;
    }
    var result := new int[values.Length];
    var buffer := new int[period];
    var bst := new Tree.New();
    MinLoop(bst, buffer, result, values, values[..], period);
    return Some(result);
  }

  // ---------------------------------------------------------------------
  // Steps since the last change

  /** The value `since` compares index `t` with: the one before it, or 0.0 before the first. */
  function Prior(vs: seq<real>, t: int): (p: real)
    requires 0 <= t <= |vs|
  {
    if t == 0 then 0.0 else vs[t - 1]
  }

  /**
   * The count `since` reports at index `i`: 0 where the value differs from
   * the one before it, otherwise one more than the count before (and 1 at the
   * first index when the first value is 0.0).
   */
  function Run(vs: seq<real>, i: int): (count: nat)
    requires 0 <= i < |vs|
  {
    if vs[i] != Prior(vs, i) then 0
    else if i == 0 then 1
    else Run(vs, i - 1) + 1
  }

  /**
   * `r` counts how many of the values compared before index `i` (including
   * the 0.0 before the start) equal `vs[i]` without a break: the `r` nearest
   * ones do and, unless the count reaches back past the start, the next one
   * does not.
   */
  ghost predicate IsRun(vs: seq<real>, i: int, r: int)
    requires 0 <= i < |vs|
  {
    0 <= r <= i + 1 &&
    (forall t :: i + 1 - r <= t <= i ==> Prior(vs, t) == vs[i]) &&
    (r <= i ==> Prior(vs, i - r) != vs[i])
  }

  /** `Run` is that count. */
  lemma {:induction false} RunIsRun(vs: seq<real>, i: int)
    requires 0 <= i < |vs|
    ensures IsRun(vs, i, Run(vs, i))
  {
    if vs[i] == Prior(vs, i) && i > 0 {
      RunIsRun(vs, i - 1);
      assert vs[i - 1] == vs[i];
    }
  }

  /** There is only one such count. */
  lemma RunUnique(vs: seq<real>, i: int, r1: int, r2: int)
    requires 0 <= i < |vs| && IsRun(vs, i, r1) && IsRun(vs, i, r2)
    ensures r1 == r2
  {
  }

  /**
   * `TrendIndicators.since`: the number of steps since the value last
   * changed, comparing the first value with 0.0.
   */
  method Since(values: array<real>) returns (result: array<int>)
    ensures fresh(result) && result.Length == values.Length
    ensures forall i :: 0 <= i < values.Length ==> result[i] == Run(values[..], i)
  {
    result := new int[values.Length];
    var lastValue := 0.0;
    var sinceLast := 0;
    for i := 0 to values.Length
      invariant lastValue == Prior(values[..], i)
      invariant i == 0 ==> sinceLast == 0
      invariant i > 0 ==> sinceLast == Run(values[..], i - 1)
      invariant forall j :: 0 <= j < i ==> result[j] == Run(values[..], j)
    {
      var value := values[i];
      if value != lastValue {
        lastValue := value;
        sinceLast := 0;
      } else {
        sinceLast := sinceLast + 1;
      }
      result[i] := sinceLast;
    }
  }
}
