/**
 * The `Randoms` facade: bounded draws, weighted selection, and picking or plucking a
 * random element of an Iterator or Iterable, all on top of one `java.util.Random`.
 *
 * Every method states which `nextInt` calls it made (the bounds appended to the
 * generator's log) and what it returns in terms of their results (the draws), so
 * that the specification functions of modules Reservoir and Weighted, and the
 * lemmas proved about them, apply to every run.
 */
module Randoms {
  import opened JavaLang
  import opened JavaRandom
  import opened JavaCollections
  import opened Reservoir
  import opened Weighted

  class Randoms {
    /** The random number generator. */
    const rand: Random

    /** `Randoms(Random)`, which the factory `with(Random)` calls. */
    constructor (rand: Random)
      ensures this.rand == rand
    {
      this.rand := rand;
    }

    /** `getInt(high)`: a value in `[0, high)`; throws for a non-positive `high`. */
    method GetInt(high: int32) returns (res: Result<int32>)
      requires rand.Valid()
      modifies rand
      ensures rand.Valid()
      ensures high <= 0 ==> res == Throw(IllegalArgument) && unchanged(rand)
      ensures high > 0 ==>
        && res.Ok? && 0 <= res.value < high
        && rand.bounds == old(rand.bounds) + [high]
        && rand.results == old(rand.results) + [res.value]
    {
      res := rand.NextInt(high);
    }

    /**
     * `getInRange(low, high)`: `low + nextInt(high - low)` in `int` arithmetic. It throws
     * when the `int` difference `high - low` is not positive, which includes some
     * `low < high` whose difference overflows.
     */
    method GetInRange(low: int32, high: int32) returns (res: Result<int32>)
      requires rand.Valid()
      modifies rand
      ensures rand.Valid()
      ensures Wrap32(high - low) <= 0 ==> res == Throw(IllegalArgument) && unchanged(rand)
      ensures Wrap32(high - low) > 0 ==>
        && rand.bounds == old(rand.bounds) + [Wrap32(high - low)]
        && |rand.results| == |old(rand.results)| + 1
        && rand.results[..|old(rand.results)|] == old(rand.results)
        && 0 <= rand.results[|old(rand.results)|] < Wrap32(high - low)
        && res == Ok(Wrap32(low + rand.results[|old(rand.results)|]))
      ensures low < high && high - low <= MAX_INT ==> res.Ok? && low <= res.value < high
      ensures high <= low && high - low >= MIN_INT ==> res == Throw(IllegalArgument)
    {
      var d := rand.NextInt(Wrap32(high - low));
      if d.Throw? {
        return Throw(d.error);
      }
      assert rand.results[..|old(rand.results)|] == old(rand.results);
      res := Ok(Wrap32(low + d.value));
    }

    /** `getChance(n)`: true exactly when the draw in `[0, n)` is 0; throws for a non-positive `n`. */
    method GetChance(n: int32) returns (res: Result<bool>)
      requires rand.Valid()
      modifies rand
      ensures rand.Valid()
      ensures n <= 0 ==> res == Throw(IllegalArgument) && unchanged(rand)
      ensures n > 0 ==>
        && rand.bounds == old(rand.bounds) + [n]
        && |rand.results| == |old(rand.results)| + 1
        && rand.results[..|old(rand.results)|] == old(rand.results)
        && 0 <= rand.results[|old(rand.results)|] < n
        && res == Ok(rand.results[|old(rand.results)|] == 0)
      ensures n == 1 ==> res == Ok(true)
    {
      var d := rand.NextInt(n);
      if d.Throw? {
        return Throw(d.error);
      }
      assert rand.results[..|old(rand.results)|] == old(rand.results);
      res := Ok(0 == d.value);
    }

    /**
     * `getWeighted(valuesToWeights)`, the map given as its entries in iteration order:
     * draws `idx` in `[0, sum)` and returns the key of the first entry after which
     * `idx` minus the weights so far is negative. Throws when the `int` sum of the
     * weights is not positive; the AssertionError after the loop is never reached.
     */
    method GetWeighted<K>(entries: seq<(K, int32)>) returns (res: Result<K>)
      requires rand.Valid()
      modifies rand
      ensures rand.Valid()
      ensures IntSum(Weights(entries)) <= 0 ==> res == Throw(IllegalArgument) && unchanged(rand)
      ensures IntSum(Weights(entries)) > 0 ==>
        && rand.bounds == old(rand.bounds) + [IntSum(Weights(entries))]
        && |rand.results| == |old(rand.results)| + 1
        && rand.results[..|old(rand.results)|] == old(rand.results)
        && var idx := rand.results[|old(rand.results)|];
           && 0 <= idx < IntSum(Weights(entries))
           && Chosen(Weights(entries), idx) < |entries|
           && res == Ok(entries[Chosen(Weights(entries), idx)].0)
    {
      var ws := Weights(entries);
      var d := rand.NextInt(IntSum(ws));
      if d.Throw? {
        return Throw(d.error);
      }
      assert rand.results[..|old(rand.results)|] == old(rand.results);
      assert rand.results[|old(rand.results)|] == d.value < IntSum(ws);
      var idx: int := d.value;
      assert ws[..0] == [];
      var i := 0;
      while i < |entries|
        invariant i <= |entries|
        invariant idx == Running(ws, d.value, i)
        invariant forall j :: 0 <= j < i ==> After(ws, d.value, j) >= 0
        modifies {}
      {
        RunningStep(ws, d.value, i);
        idx := Wrap32(idx - entries[i].1);
        assert idx == After(ws, d.value, i);
        if idx < 0 {
          assert Chosen(ws, d.value) == i;
          return Ok(entries[i].0);
        }
        i := i + 1;
      }
      NeverFallsThrough(ws, d.value);
      assert false;
      res := Throw(AssertionError);
    }

    /**
     * `pick(iterator, ifEmpty)`: a streaming walk over the elements the iterator has
     * left, drawing with bounds 2, 3, ..., n and keeping the element met at a draw of 0.
     */
    method PickIterator<T>(it: Cursor<T>, ifEmpty: T) returns (pick: T)
      requires rand.Valid()
      requires it.pos <= |it.source.elems| <= MAX_INT
      modifies rand, it
      ensures rand.Valid()
      ensures it.pos == |it.source.elems|
      ensures rand.bounds == old(rand.bounds) + DrawBounds(|old(it.source.elems[it.pos..])|)
      ensures |rand.results| == |rand.bounds|
      ensures DrawsFit(rand.results[|old(rand.results)|..], DrawBounds(|old(it.source.elems[it.pos..])|))
      ensures rand.results[..|old(rand.results)|] == old(rand.results)
      ensures pick == Picked(old(it.source.elems[it.pos..]), ifEmpty, rand.results[|old(rand.results)|..])
    {
      ghost var xs := it.source.elems[it.pos..];
      ghost var start := it.pos;
      ghost var draws: seq<int> := [];
      ghost var b0, r0 := rand.bounds, rand.results;
      var has := it.HasNext();
      if !has {
        assert rand.results[..|old(rand.results)|] == old(rand.results);
        return ifEmpty;
      }
      pick := it.Next();
      var count := 2;
      has := it.HasNext();
      while has
        invariant rand.Valid()
        invariant it.pos == start + count - 1 <= |it.source.elems|
        invariant has <==> it.pos < |it.source.elems|
        invariant rand.bounds == b0 + DrawBounds(count - 1)
        invariant rand.results == r0 + draws
        invariant |draws| == count - 2
        invariant DrawsFit(draws, DrawBounds(count - 1))
        invariant pick == xs[Winner(draws)]
        decreases |it.source.elems| - it.pos
        modifies rand, it
      {
        var next := it.Next();
        assert next == xs[count - 1];
        var d := rand.NextInt(count as int32);
        AppendAssoc(r0, draws, d.value as int);
        AppendAssoc(b0, DrawBounds(count - 1), count);
        WinnerSnoc(draws, d.value);
        DrawsFitSnoc(draws, DrawBounds(count - 1), d.value, count);
        draws := draws + [d.value];
        if 0 == d.value {
          pick := next;
        }
        count := count + 1;
        has := it.HasNext();
      }
      assert rand.results[|old(rand.results)|..] == draws;
      assert rand.results[..|old(rand.results)|] == old(rand.results);
    }

    /** `pick(iterable, ifEmpty)`: pickPluck without removal; never throws. */
    method Pick<T>(iterable: Iterable<T>, ifEmpty: T) returns (pick: T)
      requires rand.Valid()
      requires |iterable.elems| <= MAX_INT
      modifies rand, iterable
      ensures rand.Valid()
      ensures rand.bounds == old(rand.bounds) + PickPluckBounds(iterable.kind, |old(iterable.elems)|)
      ensures |rand.results| == |rand.bounds|
      ensures DrawsFit(rand.results[|old(rand.results)|..], PickPluckBounds(iterable.kind, |old(iterable.elems)|))
      ensures rand.results[..|old(rand.results)|] == old(rand.results)
      ensures (Ok(pick), iterable.elems)
           == PickPluckOutcome(iterable.kind, iterable.removable, old(iterable.elems), ifEmpty, false,
                        rand.results[|old(rand.results)|..])
    {
      var res := PickPluck(iterable, ifEmpty, false);
      pick := res.value;
    }

    /**
     * `pluck(iterable, ifEmpty)`: pickPluck with removal; throws UnsupportedOperation
     * when the structure does not support removal.
     */
    method Pluck<T>(iterable: Iterable<T>, ifEmpty: T) returns (res: Result<T>)
      requires rand.Valid()
      requires |iterable.elems| <= MAX_INT
      modifies rand, iterable
      ensures rand.Valid()
      ensures rand.bounds == old(rand.bounds) + PickPluckBounds(iterable.kind, |old(iterable.elems)|)
      ensures |rand.results| == |rand.bounds|
      ensures DrawsFit(rand.results[|old(rand.results)|..], PickPluckBounds(iterable.kind, |old(iterable.elems)|))
      ensures rand.results[..|old(rand.results)|] == old(rand.results)
      ensures (res, iterable.elems)
           == PickPluckOutcome(iterable.kind, iterable.removable, old(iterable.elems), ifEmpty, true,
                        rand.results[|old(rand.results)|..])
    {
      res := PickPluck(iterable, ifEmpty, true);
    }

    /**
     * `pickPluck(iterable, ifEmpty, remove)`: one draw on a Collection (indexing a
     * List, skipping ahead in any other Collection); on a plain Iterable a pick is
     * the streaming walk of its iterator and a pluck the two-cursor walk.
     */
    method PickPluck<T>(iterable: Iterable<T>, ifEmpty: T, remove: bool) returns (res: Result<T>)
      requires rand.Valid()
      requires |iterable.elems| <= MAX_INT
      modifies rand, iterable
      ensures rand.Valid()
      ensures rand.bounds == old(rand.bounds) + PickPluckBounds(iterable.kind, |old(iterable.elems)|)
      ensures |rand.results| == |rand.bounds|
      ensures DrawsFit(rand.results[|old(rand.results)|..], PickPluckBounds(iterable.kind, |old(iterable.elems)|))
      ensures rand.results[..|old(rand.results)|] == old(rand.results)
      ensures (res, iterable.elems)
           == PickPluckOutcome(iterable.kind, iterable.removable, old(iterable.elems), ifEmpty, remove,
                        rand.results[|old(rand.results)|..])
    {
      if iterable.kind != IterableKind {
        res := PickPluckSized(iterable, ifEmpty, remove);
        return;
      }
      if !remove {
        var it := iterable.Iterator();
        var pick := PickIterator(it, ifEmpty);
        return Ok(pick);
      }
      res := PluckStream(iterable, ifEmpty);
    }

    /** The Collection branch of pickPluck. */
    method PickPluckSized<T>(iterable: Iterable<T>, ifEmpty: T, remove: bool) returns (res: Result<T>)
      requires rand.Valid()
      requires iterable.kind != IterableKind && |iterable.elems| <= MAX_INT
      modifies rand, iterable
      ensures rand.Valid()
      ensures rand.bounds == old(rand.bounds) + PickPluckBounds(iterable.kind, |old(iterable.elems)|)
      ensures |rand.results| == |rand.bounds|
      ensures DrawsFit(rand.results[|old(rand.results)|..], PickPluckBounds(iterable.kind, |old(iterable.elems)|))
      ensures rand.results[..|old(rand.results)|] == old(rand.results)
      ensures (res, iterable.elems)
           == PickPluckOutcome(iterable.kind, iterable.removable, old(iterable.elems), ifEmpty, remove,
                        rand.results[|old(rand.results)|..])
    {
      ghost var r0 := |rand.results|;
      var size := iterable.Size();
      if size == 0 {
        assert rand.results[..r0] == old(rand.results);
        return Ok(ifEmpty);
      }
      var d := rand.NextInt(size);
      assert rand.results[..r0] == old(rand.results);
      assert rand.results[r0..] == [d.value];
      if iterable.kind == ListKind {
        if remove {
          res := iterable.RemoveIndex(d.value);
        } else {
          var x := iterable.Get(d.value);
          res := Ok(x);
        }
        return;
      }
      // any other Collection: skip `idx` elements and take the next one
      var it := iterable.Iterator();
      Advance(it, d.value);
      var x := it.Next();
      if remove {
        var removed := it.Remove();
        if removed.Throw? {
          return Throw(removed.error);
        }
      }
      res := Ok(x);
    }

    /** Calls `next()` on the cursor `n` times, discarding what it returns. */
    method Advance<T>(it: Cursor<T>, n: nat)
      requires it.pos + n <= |it.source.elems|
      modifies it
      ensures it.pos == old(it.pos) + n
    {
      var left := n;
      while left > 0
        invariant 0 <= left && it.pos + left == old(it.pos) + n
        modifies it
      {
        var _ := it.Next();
        left := left - 1;
      }
    }

    /**
     * The two-cursor pluck of pickPluck. The lead cursor does the streaming walk; the
     * lag cursor trails it by `lag` positions and catches up to the provisional pick
     * whenever it is replaced, so that it rests on the winner when the walk ends and
     * its `remove()` deletes exactly the returned element.
     */
    method PluckStream<T>(iterable: Iterable<T>, ifEmpty: T) returns (res: Result<T>)
      requires rand.Valid()
      requires |iterable.elems| <= MAX_INT
      modifies rand, iterable
      ensures rand.Valid()
      ensures rand.bounds == old(rand.bounds) + DrawBounds(|old(iterable.elems)|)
      ensures |rand.results| == |rand.bounds|
      ensures DrawsFit(rand.results[|old(rand.results)|..], DrawBounds(|old(iterable.elems)|))
      ensures rand.results[..|old(rand.results)|] == old(rand.results)
      ensures (res, iterable.elems)
           == PickPluckOutcome(IterableKind, iterable.removable, old(iterable.elems), ifEmpty, true,
                        rand.results[|old(rand.results)|..])
    {
      ghost var r0 := rand.results;
      var it := iterable.Iterator();
      var has := it.HasNext();
      if !has {
        AppendParts(r0, []);
        return Ok(ifEmpty);
      }
      var lagIt := iterable.Iterator();
      var first := it.Next();
      var _ := lagIt.Next();
      var pick, draws := TrailingWalk(it, lagIt, first);
      AppendParts(r0, draws);
      assert lagIt.pos - 1 == Selected(IterableKind, |iterable.elems|, draws);
      var removed := lagIt.Remove();
      if removed.Throw? {
        return Throw(removed.error);
      }
      res := Ok(pick);
    }

    /**
     * The loop of the two-cursor pluck, entered with both cursors past the first
     * element. It makes the draws of a streaming walk and leaves the lag cursor just
     * past the element it returns.
     */
    method TrailingWalk<T>(it: Cursor<T>, lagIt: Cursor<T>, first: T) returns (pick: T, ghost draws: seq<int>)
      requires rand.Valid()
      requires it != lagIt && lagIt.source == it.source
      requires it.pos == lagIt.pos == 1 <= |it.source.elems| <= MAX_INT
      requires first == it.source.elems[0]
      modifies rand, it, lagIt
      ensures rand.Valid()
      ensures it.pos == |it.source.elems|
      ensures rand.bounds == old(rand.bounds) + DrawBounds(|it.source.elems|)
      ensures rand.results == old(rand.results) + draws
      ensures DrawsFit(draws, DrawBounds(|it.source.elems|))
      ensures 1 <= lagIt.pos && lagIt.pos - 1 == Winner(draws)
      ensures pick == it.source.elems[lagIt.pos - 1]
    {
      ghost var b0, r0 := rand.bounds, rand.results;
      draws := [];
      pick := first;
      var count, lag := 2, 1;
      var has := it.HasNext();
      while has
        invariant Trailing(it, lagIt, b0, r0, draws, count, lag, pick)
        invariant has <==> it.pos < |it.source.elems|
        decreases |it.source.elems| - it.pos
        modifies rand, it, lagIt
      {
        pick, lag, draws := TrailingStep(it, lagIt, b0, r0, draws, count, lag, pick);
        count := count + 1;
        has := it.HasNext();
      }
    }

    /**
     * The state of the two-cursor loop before the lead cursor meets position
     * `count - 1`: the draws so far are logged and fit their bounds, the lag cursor
     * stands `lag` positions behind, just past the winner of the draws, and `pick`
     * is the winner.
     */
    ghost predicate Trailing<T>(it: Cursor<T>, lagIt: Cursor<T>, b0: seq<int>, r0: seq<int>,
                                draws: seq<int>, count: int, lag: int, pick: T)
      reads this, rand, it, lagIt, it.source
    {
      && rand.Valid()
      && it != lagIt && lagIt.source == it.source
      && |it.source.elems| <= MAX_INT
      && 2 <= count && it.pos == count - 1 <= |it.source.elems|
      && 1 <= lagIt.pos && 1 <= lag && lagIt.pos + lag == it.pos + 1
      && rand.bounds == b0 + DrawBounds(count - 1)
      && rand.results == r0 + draws
      && |draws| == count - 2
      && DrawsFit(draws, DrawBounds(count - 1))
      && lagIt.pos - 1 == Winner(draws)
      && pick == it.source.elems[lagIt.pos - 1]
    }

    /**
     * One round of the two-cursor loop: the lead cursor meets the element at
     * position `count - 1` and draws with bound `count`; on a 0 that element becomes
     * the pick and the lag cursor catches up to just past it.
     */
    method TrailingStep<T>(it: Cursor<T>, lagIt: Cursor<T>, ghost b0: seq<int>, ghost r0: seq<int>,
                           ghost draws: seq<int>, count: int, lag: int, pick: T)
      returns (newPick: T, newLag: int, ghost newDraws: seq<int>)
      requires Trailing(it, lagIt, b0, r0, draws, count, lag, pick)
      requires it.pos < |it.source.elems|
      modifies rand, it, lagIt
      ensures Trailing(it, lagIt, b0, r0, newDraws, count + 1, newLag, newPick)
    {
      newPick, newLag := pick, lag;
      var next := it.Next();
      var r := rand.NextInt(count as int32);
      var d := r.value;
      if 0 == d {
        newPick := next;
        Advance(lagIt, newLag);
        newLag := 0;
      }
      newLag := newLag + 1;
      AppendAssoc(r0, draws, d as int);
      AppendAssoc(b0, DrawBounds(count - 1), count);
      WinnerSnoc(draws, d);
      DrawsFitSnoc(draws, DrawBounds(count - 1), d, count);
      newDraws := draws + [d];
    }
  }
}
