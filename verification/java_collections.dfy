/**
 * The collection interfaces the selection code works against: an `Iterable` that
 * may also be a `Collection` (it knows its size) or a `List` (it is indexable),
 * whose contents may or may not support removal, and the forward-only
 * `Iterator` cursors it hands out.
 */
module JavaCollections {
  import opened JavaLang

  /** What the selection code finds out about an `Iterable` with `instanceof`. */
  datatype Kind =
    | ListKind        // a java.util.List
    | CollectionKind  // a java.util.Collection that is not a List
    | IterableKind    // only a java.lang.Iterable

  /** The contents after the element at position `k` is removed (List.remove, Iterator.remove). */
  function RemoveAt<T>(xs: seq<T>, k: nat): (r: seq<T>)
    requires k < |xs|
    ensures |r| == |xs| - 1
    ensures forall i :: 0 <= i < k ==> r[i] == xs[i]
    ensures forall i :: k <= i < |r| ==> r[i] == xs[i + 1]
    ensures multiset(r) + multiset{xs[k]} == multiset(xs)
  {
    assert xs == xs[..k] + [xs[k]] + xs[k + 1..];
    xs[..k] + xs[k + 1..]
  }

  /** A mutable `Iterable`: its contents in iteration order. */
  class Iterable<T> {
    var elems: seq<T>
    const kind: Kind
    /** False for an unmodifiable structure, whose removals throw UnsupportedOperationException. */
    const removable: bool

    constructor (elems: seq<T>, kind: Kind, removable: bool)
      ensures this.elems == elems && this.kind == kind && this.removable == removable
    {
      this.elems := elems;
      this.kind := kind;
      this.removable := removable;
    }

    /** `size()` of a Collection. */
    method Size() returns (n: nat)
      ensures n == |elems|
    {
      n := |elems|;
    }

    /** `get(idx)` of a List. */
    method Get(idx: nat) returns (x: T)
      requires idx < |elems|
      ensures x == elems[idx]
    {
      x := elems[idx];
    }

    /** `remove(idx)` of a List: removes and returns the element at `idx`. */
    method RemoveIndex(idx: nat) returns (r: Result<T>)
      requires idx < |elems|
      modifies this
      ensures removable ==> r == Ok(old(elems)[idx]) && elems == RemoveAt(old(elems), idx)
      ensures !removable ==> r == Throw(UnsupportedOperation) && elems == old(elems)
    {
      if !removable {
        return Throw(UnsupportedOperation);
      }
      r := Ok(elems[idx]);
      elems := RemoveAt(elems, idx);
    }

    /** `iterator()`: a fresh cursor before the first element. */
    method Iterator() returns (it: Cursor<T>)
      ensures fresh(it) && it.source == this && it.pos == 0
    {
      it := new Cursor(this);
    }
  }

  /**
   * A forward-only `Iterator` over an Iterable: `pos` elements have been returned
   * by `next()`, so the last one returned is at position `pos - 1`.
   */
  class Cursor<T> {
    const source: Iterable<T>
    var pos: nat

    constructor (source: Iterable<T>)
      ensures this.source == source && pos == 0
    {
      this.source := source;
      pos := 0;
    }

    /** `hasNext()`. */
    method HasNext() returns (b: bool)
      ensures b <==> pos < |source.elems|
    {
      b := pos < |source.elems|;
    }

    /** `next()`. */
    method Next() returns (x: T)
      requires pos < |source.elems|
      modifies this
      ensures x == source.elems[old(pos)] && pos == old(pos) + 1
    {
      x := source.elems[pos];
      pos := pos + 1;
    }

    /**
     * `remove()`: removes the element the last `next()` returned. Java also throws
     * `IllegalStateException` for a second `remove()` without a `next()` in between;
     * no caller here does that, so the model does not track it.
     */
    method Remove() returns (r: Result<()>)
      requires 0 < pos <= |source.elems|
      modifies this, source
      ensures source.removable ==>
        r == Ok(()) && source.elems == RemoveAt(old(source.elems), old(pos) - 1) && pos == old(pos) - 1
      ensures !source.removable ==>
        r == Throw(UnsupportedOperation) && source.elems == old(source.elems) && pos == old(pos)
    {
      if !source.removable {
        return Throw(UnsupportedOperation);
      }
      source.elems := RemoveAt(source.elems, pos - 1);
      pos := pos - 1;
      r := Ok(());
    }
  }
}
