/**
 * What `Randoms.getWeighted` computes. The map from keys to weights is given as its
 * entries in iteration order; the weights are Java `int`s, and both the weight sum
 * and the running value are `int` arithmetic, so they wrap around modulo 2^32.
 */
module Weighted {
  import opened JavaLang

  /** The weights of the entries, in iteration order. */
  function Weights<K>(entries: seq<(K, int32)>): (ws: seq<int>)
    ensures |ws| == |entries|
    ensures forall i :: 0 <= i < |ws| ==> ws[i] == entries[i].1
  {
    seq(|entries|, i requires 0 <= i < |entries| => entries[i].1 as int)
  }

  /** The exact sum of the weights. */
  function Sum(ws: seq<int>): int
  {
    if ws == [] then 0 else Sum(ws[..|ws| - 1]) + ws[|ws| - 1]
  }

  /** The sum an `int` accumulator reaches, adding the weights in order. */
  function IntSum(ws: seq<int>): int32
  {
    if ws == [] then 0 else Wrap32(IntSum(ws[..|ws| - 1]) + ws[|ws| - 1])
  }

  /** The `int` sum is the exact sum wrapped once, at the end. */
  lemma {:induction false} IntSumWrapsSum(ws: seq<int>)
    ensures IntSum(ws) == Wrap32(Sum(ws))
  {
    if ws != [] {
      var init := ws[..|ws| - 1];
      var w := ws[|ws| - 1];
      IntSumWrapsSum(init);
      // Wrap32(Wrap32(Sum(init)) + w) == Wrap32(Sum(init) + w)
      Wrap32Sub(Sum(init), -w);
    }
  }

  /** The running value after subtracting the first `i` weights from the draw. */
  function Running(ws: seq<int>, idx: int, i: nat): int32
    requires i <= |ws|
  {
    Wrap32(idx - Sum(ws[..i]))
  }

  /** Subtracting weight `i` from the running value in `int` arithmetic gives the next running value. */
  lemma RunningStep(ws: seq<int>, idx: int, i: nat)
    requires i < |ws|
    ensures Running(ws, idx, i + 1) == Wrap32(Running(ws, idx, i) - ws[i])
  {
    assert ws[..i + 1][..i] == ws[..i];
    Wrap32Sub(idx - Sum(ws[..i]), ws[i]);
  }

  /** The running value once weight `i` has been subtracted. */
  function After(ws: seq<int>, idx: int, i: nat): int32
    requires i < |ws|
  {
    Running(ws, idx, i + 1)
  }

  /**
   * The position at which the loop of getWeighted returns, scanning from `from`:
   * the first `i` whose running value after subtracting weight `i` is negative,
   * or `|ws|` when there is none (the loop runs off the end).
   */
  function ChosenFrom(ws: seq<int>, idx: int, from: nat): (k: nat)
    requires from <= |ws|
    ensures from <= k <= |ws|
    ensures k < |ws| ==> After(ws, idx, k) < 0
    ensures forall i :: from <= i < k ==> After(ws, idx, i) >= 0
    decreases |ws| - from
  {
    if from == |ws| then |ws|
    else if After(ws, idx, from) < 0 then from
    else ChosenFrom(ws, idx, from + 1)
  }

  /** The position getWeighted returns at for draw `idx`, or `|ws|` if its loop runs off the end. */
  function Chosen(ws: seq<int>, idx: int): (k: nat)
    ensures k <= |ws|
    ensures k < |ws| ==> After(ws, idx, k) < 0
    ensures forall i :: 0 <= i < k ==> After(ws, idx, i) >= 0
  {
    ChosenFrom(ws, idx, 0)
  }

  /**
   * The loop never runs off the end once the draw succeeded: for a draw in
   * `[0, sum)` with the `int` sum positive, the running value after the last weight
   * is `idx - sum`, which is negative, even where the sum or the running value
   * wrapped around. So the AssertionError after the loop cannot be thrown.
   */
  lemma NeverFallsThrough(ws: seq<int>, idx: int)
    requires 0 <= idx < IntSum(ws)
    ensures Chosen(ws, idx) < |ws|
  {
    IntSumWrapsSum(ws);
    assert ws[..|ws|] == ws;
    Wrap32Sub(idx, Sum(ws));
    assert Running(ws, idx, |ws|) == idx - IntSum(ws) < 0;
    assert ws != [] && After(ws, idx, |ws| - 1) < 0;
  }

  /** The prefix sums of non-negative weights grow with the prefix. */
  lemma {:induction false} SumMonotone(ws: seq<int>, i: nat, j: nat)
    requires i <= j <= |ws|
    requires forall t :: 0 <= t < |ws| ==> ws[t] >= 0
    ensures Sum(ws[..i]) <= Sum(ws[..j])
    decreases j - i
  {
    if i < j {
      SumMonotone(ws, i, j - 1);
      assert ws[..j][..j - 1] == ws[..j - 1];
    }
  }

  /**
   * Without wrap-around (non-negative weights whose exact sum fits in an `int`),
   * getWeighted returns entry `k` exactly for the draws in `[Sum(ws[..k]), Sum(ws[..k+1]))`:
   * the first entry whose cumulative weight exceeds the draw. That interval holds
   * `ws[k]` of the `Sum(ws)` possible draws.
   */
  lemma ChosenIsCumulative(ws: seq<int>, idx: int, k: nat)
    requires forall t :: 0 <= t < |ws| ==> ws[t] >= 0
    requires Sum(ws) <= MAX_INT
    requires 0 <= idx < Sum(ws)
    requires k < |ws|
    ensures Chosen(ws, idx) == k <==> Sum(ws[..k]) <= idx < Sum(ws[..k + 1])
  {
    // with no wrap-around the running values are exact
    forall i | 0 <= i < |ws|
      ensures After(ws, idx, i) == idx - Sum(ws[..i + 1])
    {
      SumMonotone(ws, 0, i + 1);
      SumMonotone(ws, i + 1, |ws|);
      assert ws[..0] == [] && ws[..|ws|] == ws;
    }
    assert ws[..0] == [];
    var c := Chosen(ws, idx);
    if c == k {
      assert idx < Sum(ws[..k + 1]);
      if k > 0 {
        assert After(ws, idx, k - 1) >= 0;
      }
    } else if c < k {
      assert idx < Sum(ws[..c + 1]);
      SumMonotone(ws, c + 1, k);
    } else {
      assert After(ws, idx, k) >= 0;
    }
  }
}
