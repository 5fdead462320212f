// Signal combinators over the three-valued trading action (Action.java,
// AllStrategy.java, SeparateStrategy.java). A strategy is modelled by the
// action array its `run` returns for the bar series at hand.
module Strategies {
  import opened Wrappers

  datatype Action = Sell | Hold | Buy
  {
    /** The numeric value of the action: -1, 0 or 1. */
    function Value(): (v: int)
      ensures -1 <= v <= 1
      ensures v == 0 <==> this == Hold
      ensures v > 0 <==> this == Buy
    {
      match this
      case Sell => -1
      case Hold => 0
      case Buy => 1
    }
  }

  /** The opposite signal (BUY and SELL swap, HOLD stays), used to state the symmetry of SeparateStrategy. */
  function Flip(a: Action): (b: Action)
    ensures b.Value() == -a.Value()
  {
    match a
    case Sell => Buy
    case Hold => Hold
    case Buy => Sell
  }

  // ---------------------------------------------------------------------
  // AllStrategy: keep an action only where every strategy agrees
  // ---------------------------------------------------------------------

  /** There is a first series and every series covers the first one's bars. */
  predicate Covers(acts: seq<seq<Action>>)
  {
    |acts| > 0 && forall k :: 0 <= k < |acts| ==> |acts[k]| >= |acts[0]|
  }

  /** The first `n` strategies have bar `j` and agree there with the first. */
  predicate AgreeUpTo(acts: seq<seq<Action>>, n: int, j: int)
    requires 0 < |acts| && n <= |acts| && 0 <= j < |acts[0]|
  {
    forall k :: 0 <= k < n ==> j < |acts[k]| && acts[k][j] == acts[0][j]
  }

  /** The first strategy's action at `j` if the first `n` strategies agree there, HOLD otherwise. */
  function Agreed(acts: seq<seq<Action>>, n: int, j: int): (a: Action)
    requires 0 < |acts| && n <= |acts| && 0 <= j < |acts[0]|
  {
    if AgreeUpTo(acts, n, j) then acts[0][j] else Hold
  }

  /** The combined series: unanimous actions kept, every disagreement HOLD. */
  function Unanimity(acts: seq<seq<Action>>): (r: seq<Action>)
    requires Covers(acts)
    ensures |r| == |acts[0]|
  {
    seq(|acts[0]|, j requires 0 <= j < |acts[0]| => Agreed(acts, |acts|, j))
  }

  /**
   * Comparing the running result with strategy `n` moves the combination
   * from `n` to `n + 1` strategies: a mismatch turns it to HOLD.
   */
  lemma AgreedStep(acts: seq<seq<Action>>, n: int, j: int)
    requires 0 <= n < |acts| && 0 <= j < |acts[0]| && j < |acts[n]|
    ensures Agreed(acts, n + 1, j) ==
      if Agreed(acts, n, j) != acts[n][j] then Hold else Agreed(acts, n, j)
  {
    if AgreeUpTo(acts, n, j) && acts[n][j] == acts[0][j] {
      assert AgreeUpTo(acts, n + 1, j);
    }
  }

  /** Bar by bar, the combination is the first action if all agree, HOLD otherwise. */
  lemma UnanimityMeaning(acts: seq<seq<Action>>, j: int)
    requires Covers(acts) && 0 <= j < |acts[0]|
    ensures (forall k :: 0 <= k < |acts| ==> acts[k][j] == acts[0][j]) ==> Unanimity(acts)[j] == acts[0][j]
    ensures (exists k :: 0 <= k < |acts| && acts[k][j] != acts[0][j]) ==> Unanimity(acts)[j] == Hold
    ensures acts[0][j] == Hold ==> Unanimity(acts)[j] == Hold
  {
  }

  /** With a single strategy the combination is that strategy's series. */
  lemma UnanimityOfOne(acts: seq<seq<Action>>)
    requires |acts| == 1
    ensures Covers(acts) && Unanimity(acts) == acts[0]
  {
  }

  /** The order of the strategies after the first does not matter. */
  lemma UnanimityIgnoresOrder(acts: seq<seq<Action>>, others: seq<seq<Action>>)
    requires Covers(acts) && |others| > 0 && others[0] == acts[0]
    requires multiset(others[1..]) == multiset(acts[1..])
    ensures Covers(others) && Unanimity(others) == Unanimity(acts)
  {
    forall k | 0 <= k < |others|
      ensures others[k] in acts
    {
      if k > 0 {
        assert others[k] == others[1..][k - 1];
        assert others[k] in multiset(acts[1..]);
      }
    }
    forall k | 0 <= k < |acts|
      ensures acts[k] in others
    {
      if k > 0 {
        assert acts[k] == acts[1..][k - 1];
        assert acts[k] in multiset(others[1..]);
      }
    }
    forall j | 0 <= j < |acts[0]|
      ensures Agreed(others, |others|, j) == Agreed(acts, |acts|, j)
    {
      if !AgreeUpTo(acts, |acts|, j) {
        var k :| 0 <= k < |acts| && acts[k][j] != acts[0][j];
        var m :| 0 <= m < |others| && others[m] == acts[k];
        assert !AgreeUpTo(others, |others|, j);
      }
    }
  }

  /** Combining again, with the first series replaced by the result, changes nothing. */
  lemma UnanimityIdempotent(acts: seq<seq<Action>>)
    requires Covers(acts)
    ensures Covers([Unanimity(acts)] + acts[1..])
    ensures Unanimity([Unanimity(acts)] + acts[1..]) == Unanimity(acts)
  {
    var again := [Unanimity(acts)] + acts[1..];
    forall k | 1 <= k < |again|
      ensures again[k] == acts[k]
    {
    }
    forall j | 0 <= j < |acts[0]|
      ensures Agreed(again, |again|, j) == Agreed(acts, |acts|, j)
    {
      if AgreeUpTo(acts, |acts|, j) {
        assert AgreeUpTo(again, |again|, j);
      }
    }
  }

  class AllStrategy {
    /** The action array each strategy's `run` returns; the first is the one overwritten. */
    var all: seq<array<Action>>

    /** The strategies' action series as values. */
    ghost function Results(): (r: seq<seq<Action>>)
      reads this, set k | 0 <= k < |all| :: all[k]
      ensures |r| == |all|
    {
      var arrays := all;
      seq(|arrays|, k requires 0 <= k < |arrays| reads arrays => arrays[k][..])
    }

    constructor (all: seq<array<Action>>)
      ensures this.all == all
    {
      this.all := all;
    }

    /** The `allStrategy` factory. */
    static method Of(all: seq<array<Action>>) returns (s: AllStrategy)
      ensures fresh(s) && s.all == all
    {
      s := new AllStrategy(all);
    }

    /**
     * `run`: `None` for no strategies (the source's null) or when some
     * strategy's series is shorter than the first (the source's index
     * exception). Otherwise the first strategy's array, overwritten in place
     * with the unanimous combination.
     */
    method Run() returns (r: Option<array<Action>>)
      modifies if all == [] then {} else {all[0]}
      ensures r.None? <==> all == [] || exists k :: 0 <= k < |all| && all[k].Length < all[0].Length
      ensures r.Some? ==> Covers(old(Results())) && r.value == all[0]
      ensures r.Some? ==> r.value[..] == Unanimity(old(Results()))
    {
      if |all| == 0 {
        return None;
      }
      ghost var acts := Results();
      var ok := CombineAll(all, acts);
      if !ok {
        return None;
      }
      assert all[0][..] == Unanimity(acts);
      return Some(all[0]);
    }
  }

  /**
   * The loops of `run`: the first array is combined with each later one in
   * turn. `false` where the source indexes past the end of a shorter array.
   */
  method CombineAll(strategies: seq<array<Action>>, ghost acts: seq<seq<Action>>) returns (ok: bool)
    requires 0 < |strategies| == |acts|
    requires forall k :: 0 <= k < |strategies| ==> strategies[k][..] == acts[k]
    modifies strategies[0]
    ensures ok <==> forall k :: 0 <= k < |strategies| ==> strategies[k].Length >= strategies[0].Length
    ensures ok ==> forall j {:trigger strategies[0][j]} :: 0 <= j < strategies[0].Length ==>
      strategies[0][j] == Agreed(acts, |acts|, j)
  {
    var first := strategies[0];
    assert forall k :: 0 <= k < |strategies| && strategies[k] == first ==> acts[k] == acts[0];
    for i := 1 to |strategies|
      invariant forall k :: 0 <= k < |strategies| ==> strategies[k].Length == |acts[k]|
      invariant forall k :: 0 <= k < |strategies| && strategies[k] != first ==> strategies[k][..] == acts[k]
      invariant forall k :: 0 <= k < i ==> strategies[k].Length >= first.Length
      invariant forall j {:trigger first[j]} :: 0 <= j < first.Length ==> first[j] == Agreed(acts, i, j)
    {
      ok := CombineWith(first, strategies[i], acts, i);
      if !ok {
        return false;
      }
    }
    return true;
  }

  /**
   * One pass of the inner loop of `run`: HOLD wherever `other` (strategy `i`)
   * differs from the running result in `first`. `false` where the source
   * indexes past the end of a shorter `other`.
   */
  method CombineWith(first: array<Action>, other: array<Action>, ghost acts: seq<seq<Action>>, i: int)
    returns (ok: bool)
    requires 1 <= i < |acts| && first.Length == |acts[0]| && other.Length == |acts[i]|
    requires other == first ==> acts[i] == acts[0]
    requires other != first ==> other[..] == acts[i]
    requires forall j :: 0 <= j < first.Length ==> first[j] == Agreed(acts, i, j)
    modifies first
    ensures ok <==> other.Length >= first.Length
    ensures ok ==> forall j :: 0 <= j < first.Length ==>
      first[j] == Agreed(acts, i + 1, j)
  {
    for j := 0 to first.Length
      invariant j <= other.Length
      invariant other != first ==> other[..] == acts[i]
      invariant forall j' :: 0 <= j' < j ==> first[j'] == Agreed(acts, i + 1, j')
      invariant forall j' :: j <= j' < first.Length ==>
        first[j'] == Agreed(acts, i, j')
    {
      if j >= other.Length {
        return false;
      }
      AgreedStep(acts, i, j);
      assert other != first ==> other[j] == other[..][j] == acts[i][j];
      if first[j] != other[j] {
        first[j] := Hold;
      }
    }
    return true;
  }

  // ---------------------------------------------------------------------
  // SeparateStrategy: a buy strategy and a sell strategy
  // ---------------------------------------------------------------------

  /** BUY when only the buy side signals, SELL when only the sell side signals, HOLD otherwise. */
  function Separate(buy: Action, sell: Action): (a: Action)
    ensures a == Buy <==> buy == Buy && sell == Hold
    ensures a == Sell <==> sell == Sell && buy == Hold
    ensures a == Hold <==> !(buy == Buy && sell == Hold) && !(sell == Sell && buy == Hold)
  {
    if buy == Buy && sell == Hold then Buy
    else if sell == Sell && buy == Hold then Sell
    else Hold
  }

  /** Swapping the two sides and flipping both signals flips the result. */
  lemma SeparateMirror(buy: Action, sell: Action)
    ensures Separate(Flip(sell), Flip(buy)) == Flip(Separate(buy, sell))
  {
  }

  class SeparateStrategy {
    /** The buy strategy's action array, `None` for a null strategy. */
    var buyStrategy: Option<array<Action>>
    /** The sell strategy's action array, `None` for a null strategy. */
    var sellStrategy: Option<array<Action>>

    constructor (buyStrategy: Option<array<Action>>, sellStrategy: Option<array<Action>>)
      ensures this.buyStrategy == buyStrategy && this.sellStrategy == sellStrategy
    {
      this.buyStrategy := buyStrategy;
      this.sellStrategy := sellStrategy;
    }

    /**
     * `run` over `barCount` bars: `None` for a null strategy (the source's
     * null) or a strategy series shorter than the bars (the source's index
     * exception), otherwise a fresh array combining the two bar by bar.
     */
    method Run(barCount: nat) returns (r: Option<array<Action>>)
      ensures r.None? <==> (buyStrategy.None? || sellStrategy.None? ||
                            buyStrategy.value.Length < barCount || sellStrategy.value.Length < barCount)
      ensures r.Some? ==> fresh(r.value) && r.value.Length == barCount
      ensures r.Some? ==> forall i :: 0 <= i < barCount ==>
        r.value[i] == Separate(buyStrategy.value[i], sellStrategy.value[i])
    {
      if buyStrategy.None? || sellStrategy.None? {
        return None;
      }
      var actions := new Action[barCount];
      var buyActions := buyStrategy.value;
      var sellActions := sellStrategy.value;
      for i := 0 to actions.Length
        invariant i <= buyActions.Length && i <= sellActions.Length
        invariant forall k :: 0 <= k < i ==> actions[k] == Separate(buyActions[k], sellActions[k])
      {
        if i >= buyActions.Length || i >= sellActions.Length {
          return None;
        }
        if buyActions[i] == Buy && sellActions[i] == Hold {
          actions[i] := Buy;
        } else if sellActions[i] == Sell && buyActions[i] == Hold {
          actions[i] := Sell;
        } else {
          actions[i] := Hold;
        }
      }
      return Some(actions);
    }
  }
}
