/**
 * `java.util.Random` as the selection code sees it: an object whose `nextInt(bound)`
 * throws for a non-positive bound and otherwise advances its hidden state and
 * returns some value in `[0, bound)`.
 *
 * The hidden state is replaced by an oracle: a tape of raw values, the k-th accepted
 * call returning `tape(k) % bound`. Every sequence of results a real generator can
 * produce is produced by some tape, so what is proved here holds whatever the
 * generator does. Two ghost logs record the bound and the result of every accepted
 * call, so that callers can state which draws they made.
 */
module JavaRandom {
  import opened JavaLang

  class Random {
    /** The raw value behind the k-th accepted call. */
    const tape: nat -> nat
    /** How many calls have been accepted. */
    var drawn: nat
    /** The bound of every accepted call, in call order. */
    ghost var bounds: seq<int>
    /** The result of every accepted call, in call order. */
    ghost var results: seq<int>

    /**
     * The two logs record the same calls. `drawn` is the oracle's position on the
     * tape and is deliberately left unrelated to the logs.
     */
    ghost predicate Valid()
      reads this
    {
      |bounds| == |results|
    }

    constructor (tape: nat -> nat)
      ensures Valid()
      ensures this.tape == tape && drawn == 0 && bounds == [] && results == []
    {
      this.tape := tape;
      drawn := 0;
      bounds := [];
      results := [];
    }

    /** `nextInt(bound)`. */
    method NextInt(bound: int32) returns (r: Result<int32>)
      requires Valid()
      modifies this
      ensures Valid()
      ensures bound <= 0 ==> r == Throw(IllegalArgument) && unchanged(this)
      ensures bound > 0 ==>
        && r == Ok(tape(old(drawn)) % bound)
        && 0 <= r.value < bound
        && drawn == old(drawn) + 1
        && bounds == old(bounds) + [bound]
        && results == old(results) + [r.value]
    {
      if bound <= 0 {
        return Throw(IllegalArgument);
      }
      var v := tape(drawn) % bound;
      drawn := drawn + 1;
      bounds := bounds + [bound];
      results := results + [v];
      r := Ok(v);
    }
  }

  /** Appending one more logged call to a log that extends a snapshot. */
  lemma AppendAssoc<T>(log: seq<T>, since: seq<T>, x: T)
    ensures (log + since) + [x] == log + (since + [x])
  {
  }

  /** A log that extends a snapshot splits back into the snapshot and what was appended. */
  lemma AppendParts<T>(log: seq<T>, since: seq<T>)
    ensures (log + since)[..|log|] == log
    ensures (log + since)[|log|..] == since
  {
  }
}
