/**
 * What `Randoms.pick` and `Randoms.pickPluck` compute, as functions of the contents
 * they walk and of the results of the `nextInt` calls they make ("the draws").
 *
 * The streaming walk is reservoir selection with a reservoir of one: the first
 * element is the provisional pick, and the element at 0-based position i >= 1 replaces
 * it exactly when the draw made on meeting it, with bound i + 1, is 0.
 */
module Reservoir {
  import opened JavaLang
  import opened JavaCollections

  /** The bounds a streaming walk over `n` elements passes to nextInt, in order: 2, 3, ..., n. */
  function DrawBounds(n: nat): (b: seq<int>)
    ensures |b| == if n == 0 then 0 else n - 1
  {
    if n <= 1 then [] else DrawBounds(n - 1) + [n]
  }

  /** The bound of the draw made on meeting the element at position `i + 1` is `i + 2`. */
  lemma {:induction false} DrawBoundsValues(n: nat, i: nat)
    requires i < |DrawBounds(n)|
    ensures DrawBounds(n)[i] == i + 2
  {
    if i < n - 2 {
      DrawBoundsValues(n - 1, i);
    }
  }

  /**
   * The position of the element a streaming walk keeps over `|draws| + 1` elements,
   * where `draws[i]` is the draw made on meeting the element at position `i + 1`.
   */
  function Winner(draws: seq<int>): (k: nat)
    ensures k <= |draws|
  {
    if draws == [] then 0
    else if draws[|draws| - 1] == 0 then |draws|
    else Winner(draws[..|draws| - 1])
  }

  /**
   * The reservoir rule: the walk keeps the last element whose draw was 0, or the
   * first element when no draw was 0.
   */
  lemma {:induction false} WinnerIsLastZero(draws: seq<int>, k: nat)
    requires k <= |draws|
    ensures Winner(draws) == k <==>
      && (k == 0 || draws[k - 1] == 0)
      && forall i :: k <= i < |draws| ==> draws[i] != 0
  {
    if draws != [] {
      var n := |draws|;
      var init := draws[..n - 1];
      if draws[n - 1] != 0 && k < n {
        WinnerIsLastZero(init, k);
        assert forall i :: k <= i < n - 1 ==> init[i] == draws[i];
        assert k > 0 ==> init[k - 1] == draws[k - 1];
      }
    }
  }

  /** One more draw: a draw of 0 makes the newly met element the winner. */
  lemma WinnerSnoc(draws: seq<int>, d: int)
    ensures Winner(draws + [d]) == if d == 0 then |draws| + 1 else Winner(draws)
  {
    assert (draws + [d])[..|draws|] == draws;
  }

  /** What `pick(Iterator, ifEmpty)` returns over the remaining elements `xs`. */
  function Picked<T>(xs: seq<T>, ifEmpty: T, draws: seq<int>): (r: T)
    requires xs == [] || |draws| == |xs| - 1
    ensures xs != [] ==> r in xs
  {
    if xs == [] then ifEmpty else xs[Winner(draws)]
  }

  /** The streaming pick returns an element of its input, or `ifEmpty` when the input is empty. */
  lemma PickedIsElement<T>(xs: seq<T>, ifEmpty: T, draws: seq<int>)
    requires xs == [] || |draws| == |xs| - 1
    ensures xs == [] ==> Picked(xs, ifEmpty, draws) == ifEmpty
    ensures xs != [] ==> Picked(xs, ifEmpty, draws) in xs
  {
  }

  /** The bounds of the nextInt calls `pickPluck` makes on an Iterable of this kind and size. */
  function PickPluckBounds(kind: Kind, n: nat): (b: seq<int>)
    ensures n == 0 ==> b == []
    ensures n > 0 && kind != IterableKind ==> b == [n]
    ensures kind == IterableKind ==> b == DrawBounds(n)
  {
    if n == 0 then [] else if kind != IterableKind then [n] else DrawBounds(n)
  }

  /** Each draw lies in the range its bound allows. */
  ghost predicate DrawsFit(draws: seq<int>, bounds: seq<int>)
  {
    |draws| == |bounds| && forall i :: 0 <= i < |draws| ==> 0 <= draws[i] < bounds[i]
  }

  /** A draw within its bound extends draws that fit their bounds. */
  lemma DrawsFitSnoc(draws: seq<int>, bounds: seq<int>, d: int, b: int)
    requires DrawsFit(draws, bounds) && 0 <= d < b
    ensures DrawsFit(draws + [d], bounds + [b])
  {
  }

  /** The position `pickPluck` selects on a non-empty input. */
  function Selected(kind: Kind, n: nat, draws: seq<int>): (k: nat)
    requires n > 0 && DrawsFit(draws, PickPluckBounds(kind, n))
    ensures k < n
  {
    if kind != IterableKind then draws[0] else Winner(draws)
  }

  /**
   * The result of `pickPluck(iterable, ifEmpty, remove)` and the contents it leaves,
   * for contents `xs`, given its draws.
   */
  function PickPluckOutcome<T>(kind: Kind, removable: bool, xs: seq<T>, ifEmpty: T, remove: bool, draws: seq<int>)
    : (out: (Result<T>, seq<T>))
    requires DrawsFit(draws, PickPluckBounds(kind, |xs|))
    ensures out.0.Throw? <==> xs != [] && remove && !removable
    ensures out.0.Ok? && xs == [] ==> out.0.value == ifEmpty
    ensures out.0.Ok? && xs != [] ==> out.0.value in xs
    ensures out.0.Ok? && xs != [] && remove ==> |out.1| == |xs| - 1
    ensures out.0.Throw? || !remove || xs == [] ==> out.1 == xs
  {
    if xs == [] then (Ok(ifEmpty), xs)
    else
      var k := Selected(kind, |xs|, draws);
      if !remove then (Ok(xs[k]), xs)
      else if removable then (Ok(xs[k]), RemoveAt(xs, k))
      else (Throw(UnsupportedOperation), xs)
  }

  /** On an empty input, pick and pluck return `ifEmpty`, draw nothing and change nothing. */
  lemma PickPluckEmpty<T>(kind: Kind, removable: bool, ifEmpty: T, remove: bool)
    ensures PickPluckBounds(kind, 0) == []
    ensures PickPluckOutcome(kind, removable, [], ifEmpty, remove, []) == (Ok(ifEmpty), [])
  {
  }

  /** A pick never changes the contents, and on a non-empty input returns one of its elements. */
  lemma PickKeepsContents<T>(kind: Kind, removable: bool, xs: seq<T>, ifEmpty: T, draws: seq<int>)
    requires xs != [] && DrawsFit(draws, PickPluckBounds(kind, |xs|))
    ensures PickPluckOutcome(kind, removable, xs, ifEmpty, false, draws).1 == xs
    ensures PickPluckOutcome(kind, removable, xs, ifEmpty, false, draws).0.Ok?
    ensures PickPluckOutcome(kind, removable, xs, ifEmpty, false, draws).0.value in xs
  {
  }

  /**
   * A pluck from a structure that supports removal removes exactly the element it
   * returns: one position fewer, the other elements in their original order.
   */
  lemma PluckRemovesReturned<T>(kind: Kind, xs: seq<T>, ifEmpty: T, draws: seq<int>)
    requires xs != [] && DrawsFit(draws, PickPluckBounds(kind, |xs|))
    ensures var (r, rest) := PickPluckOutcome(kind, true, xs, ifEmpty, true, draws);
      && r.Ok?
      && |rest| == |xs| - 1
      && multiset(rest) + multiset{r.value} == multiset(xs)
      && exists k :: 0 <= k < |xs| && xs[k] == r.value && rest == xs[..k] + xs[k + 1..]
  {
    var k := Selected(kind, |xs|, draws);
    assert RemoveAt(xs, k) == xs[..k] + xs[k + 1..];
  }

  /** A streaming pick and the streaming walk of a pluck select the same element from the same draws. */
  lemma StreamPickMatchesPluck<T>(xs: seq<T>, ifEmpty: T, draws: seq<int>)
    requires DrawsFit(draws, DrawBounds(|xs|))
    ensures PickPluckOutcome(IterableKind, true, xs, ifEmpty, false, draws).0
         == PickPluckOutcome(IterableKind, true, xs, ifEmpty, true, draws).0
         == Ok(Picked(xs, ifEmpty, draws))
  {
  }

  /**
   * Plucking from a removable structure until it is empty, one round of draws per
   * pluck: the values returned, in order.
   */
  function PluckAll<T>(kind: Kind, xs: seq<T>, ifEmpty: T, rounds: seq<seq<int>>): (out: seq<T>)
    requires |rounds| == |xs|
    requires forall j :: 0 <= j < |rounds| ==> DrawsFit(rounds[j], PickPluckBounds(kind, |xs| - j))
    ensures |out| == |xs|
    decreases |xs|
  {
    if xs == [] then []
    else
      var (r, rest) := PickPluckOutcome(kind, true, xs, ifEmpty, true, rounds[0]);
      [r.value] + PluckAll(kind, rest, ifEmpty, rounds[1..])
  }

  /** Repeated plucks until empty return every original element exactly once. */
  lemma {:induction false} PluckAllIsPermutation<T>(kind: Kind, xs: seq<T>, ifEmpty: T, rounds: seq<seq<int>>)
    requires |rounds| == |xs|
    requires forall j :: 0 <= j < |rounds| ==> DrawsFit(rounds[j], PickPluckBounds(kind, |xs| - j))
    ensures multiset(PluckAll(kind, xs, ifEmpty, rounds)) == multiset(xs)
    decreases |xs|
  {
    if xs != [] {
      var (r, rest) := PickPluckOutcome(kind, true, xs, ifEmpty, true, rounds[0]);
      PluckRemovesReturned(kind, xs, ifEmpty, rounds[0]);
      assert forall j :: 0 <= j < |rounds[1..]| ==> rounds[1..][j] == rounds[j + 1];
      PluckAllIsPermutation(kind, rest, ifEmpty, rounds[1..]);
    }
  }
}
