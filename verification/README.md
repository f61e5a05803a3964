# Randomised selection (`Randoms`) and the id helpers of `UserRepository`, in Dafny

This project models the randomised-selection utility `com.samskivert.util.Randoms`
and proves what it promises. It also models the parts of
`com.samskivert.servlet.user.UserRepository` that do not need a database.

The `Randoms` part covers:

- The bounded draws `getInt`, `getInRange(int, int)` and `getChance`.
- The weighted draw `getWeighted`.
- The streaming `pick(Iterator, ifEmpty)`, which is reservoir selection with a reservoir of one.
- `pick` and `pluck` on an `Iterable`, through `pickPluck`. This has three paths:
  - the List path, one indexed draw;
  - the path for other Collections, which skips ahead;
  - the two-cursor pluck for plain Iterables.
- The nested `ThreadLocalRandom` generator: its 48-bit linear congruential step, the one-shot seed guard, and the `nextLong` draws.

The `UserRepository` part covers:

- `genIdString`.
- The assembly of the `loadNames` result.
- The rewrite `deleteUser` applies to a user record.

## How it is modelled

- **The generator.** `java.util.Random` is the class `JavaRandom.Random`. Its hidden state is replaced by an oracle tape: the k-th accepted `nextInt(bound)` returns `tape(k) % bound`, and a non-positive bound throws `IllegalArgumentException`. Every run of a real generator is covered by some tape. Two ghost logs record the bound and the result of every accepted call. This lets each method state which draws it made, and what it returns as a function of them.
- **Java integers.** `int` and `long` are the subset types `int32` and `int64`. Java's wrap-around is written out with `Wrap32` and `Wrap64` in these places:
  - the difference `high - low` and the sum `low + draw` in `getInRange`;
  - the weight sum and running value in `getWeighted`;
  - the LCG step;
  - the difference `bound - least` and the sum `m + least` in `nextLong(least, bound)`.

  The `int` counter `count` of the streaming walks is not wrapped: the model admits at most `Integer.MAX_VALUE` elements (see "Left out").
- **Collections.** An `Iterable` is the class `JavaCollections.Iterable`. It holds its contents as a sequence and records what `instanceof` tells the code (List, other Collection, or plain Iterable) and whether removal is supported. Its iterators are `Cursor` objects with a position, so `Iterator.remove()` and `List.remove(int)` update the shared contents in place.
- **Specification functions.** The Reservoir module gives the result of every `pick`/`pluck` path as a function of the contents and the draws. The Weighted module does the same for `getWeighted`. Lemmas about these functions carry the source's promises:
  - the reservoir rule;
  - the bounds 2, 3, ..., n;
  - a pluck removes exactly the returned element;
  - plucking until empty returns a permutation;
  - the `AssertionError` of `getWeighted` is unreachable;
  - the cumulative-weight reading of `getWeighted`.

  Each method's `ensures` ties its result and the new contents to these functions.
- **`ThreadLocalRandom`.** Its arithmetic is modelled on exact integers modulo 2^48:
  - `setSeed` uses a bitwise xor on the low 48 bits;
  - the step is `(rnd * multiplier + addend) mod 2^48`, proved equal to Java's 64-bit wrapped computation followed by the mask.
- **`UserRepository`.**
  - `genIdString` is a loop over an `int[]`.
  - The `loadNames` result array is filled from a map that stands for the rows the query returned.
  - The user record is a class whose fields `deleteUser` updates.

## Model

| member | source | states |
|---|---|---|
| JavaLang.Wrap32 | src/main/java/com/samskivert/util/Randoms.java:87-90 | The `int` Java yields for an exact value: congruent to it modulo 2^32, and equal to it when it fits in an `int`. |
| JavaLang.Wrap64 | src/main/java/com/samskivert/util/Randoms.java:425-429 | The `long` Java yields for an exact value: congruent to it modulo 2^64, and equal to it when it fits in a `long`. |
| JavaLang.Wrap32Sub | src/main/java/com/samskivert/util/Randoms.java:148-150 | `int` subtraction is subtraction modulo 2^32: wrapping either operand first gives the same `int`. |
| JavaRandom.Random.NextInt | src/main/java/com/samskivert/util/Randoms.java:78 | `nextInt(bound)` throws `IllegalArgumentException` for `bound <= 0` and leaves the generator unchanged. Otherwise it returns a value in `[0, bound)` and logs the bound and the result. |
| JavaCollections.Iterable.Size | src/main/java/com/samskivert/util/Randoms.java:231 | `coll.size()` returns the number of elements. |
| JavaCollections.Iterable.Get | src/main/java/com/samskivert/util/Randoms.java:239 | `list.get(idx)` returns the element at `idx`. |
| JavaCollections.Iterable.RemoveIndex | src/main/java/com/samskivert/util/Randoms.java:239 | `list.remove(idx)` returns the element at `idx` and removes exactly that position, or throws `UnsupportedOperationException` and changes nothing when the list does not support removal. |
| JavaCollections.Iterable.Iterator | src/main/java/com/samskivert/util/Randoms.java:242 | `iterator()` returns a new cursor over this structure, before its first element. |
| JavaCollections.Cursor.HasNext | src/main/java/com/samskivert/util/Randoms.java:261 | `hasNext()` is true exactly when elements remain past the cursor. |
| JavaCollections.Cursor.Next | src/main/java/com/samskivert/util/Randoms.java:244 | `it.next()` returns the element at the cursor and moves past it. |
| JavaCollections.Cursor.Remove | src/main/java/com/samskivert/util/Randoms.java:250 | `it.remove()` removes exactly the element the last `next()` returned, or throws `UnsupportedOperationException` and changes nothing. |
| Reservoir.DrawBounds | src/main/java/com/samskivert/util/Randoms.java:174-176 | A walk over `n >= 1` elements makes `n - 1` draws, and none over an empty input. |
| Reservoir.DrawBoundsValues | src/main/java/com/samskivert/util/Randoms.java:174-176 | The draw made on meeting element `i + 1` has bound `i + 2`: the bounds are 2, 3, ..., n in order. |
| Reservoir.Winner | src/main/java/com/samskivert/util/Randoms.java:173-179 | The kept position is one of the `|draws| + 1` positions walked. |
| Reservoir.WinnerIsLastZero | src/main/java/com/samskivert/util/Randoms.java:173-179 | The reservoir rule, both directions: the walk keeps position `k` exactly when `k`'s draw was 0 (or `k` is the first) and every later draw was non-zero. |
| Reservoir.WinnerSnoc | src/main/java/com/samskivert/util/Randoms.java:176-178 | One more round: a draw of 0 makes the newly met element the pick; any other draw keeps the pick. |
| Reservoir.Picked | src/main/java/com/samskivert/util/Randoms.java:168-181 | The streaming pick is an element of a non-empty input. |
| Reservoir.PickedIsElement | src/main/java/com/samskivert/util/Randoms.java:168-181 | The streaming pick returns an element of its input, or `ifEmpty` when the input is empty. |
| Reservoir.PickPluckBounds | src/main/java/com/samskivert/util/Randoms.java:226-278 | The draws `pickPluck` makes: none on an empty input, one with bound `size` on a Collection, and bounds 2..n on a plain Iterable. |
| Reservoir.DrawsFitSnoc | src/main/java/com/samskivert/util/Randoms.java:174-176 | A draw within its bound extends a run of draws that fit their bounds. |
| Reservoir.Selected | src/main/java/com/samskivert/util/Randoms.java:238-277 | The position `pickPluck` selects on a non-empty input is a valid position. |
| Reservoir.PickPluckEmpty | src/main/java/com/samskivert/util/Randoms.java:231-233 | On an empty input, pick and pluck make no draw, return `ifEmpty` and leave the contents unchanged. |
| Reservoir.PickPluckOutcome | src/main/java/com/samskivert/util/Randoms.java:226-278 | The result of `pickPluck` and the contents it leaves. It throws exactly when it must remove from a non-empty structure that does not support removal. On an empty input it returns `ifEmpty`, otherwise an element. A successful removal shortens the contents by one; otherwise the contents are unchanged. |
| Reservoir.PickKeepsContents | src/main/java/com/samskivert/util/Randoms.java:193-196 | A pick on any path leaves the contents unchanged and returns one of the elements. |
| Reservoir.PluckRemovesReturned | src/main/java/com/samskivert/util/Randoms.java:259-277 | A pluck from a removable structure returns element `k` of the contents and removes exactly position `k`: one element fewer, the others in their original order, multisets balanced. |
| Reservoir.StreamPickMatchesPluck | src/main/java/com/samskivert/util/Randoms.java:255-277 | From the same draws, the streaming pick and the two-cursor pluck return the same element: the streaming `Picked` result. |
| Reservoir.PluckAll | src/main/java/com/samskivert/util/Randoms.java:210-213 | Plucking until empty returns as many values as there were elements. |
| Reservoir.PluckAllIsPermutation | src/main/java/com/samskivert/util/Randoms.java:210-213 | Plucking until empty, whatever the draws, returns every original element exactly once (a permutation). |
| Weighted.Sum | src/main/java/com/samskivert/util/Randoms.java:148 | The exact sum of the weights. |
| Weighted.IntSum | src/main/java/com/samskivert/util/Randoms.java:148 | The `int` sum of the weights as `Folds.sum` computes it, wrapping after each addition. |
| Weighted.IntSumWrapsSum | src/main/java/com/samskivert/util/Randoms.java:148 | The `int` sum `IntSum` of the weights, wrapping after each addition as `Folds.sum` does, equals the exact sum `Sum` wrapped once. |
| Weighted.RunningStep | src/main/java/com/samskivert/util/Randoms.java:149-150 | Subtracting the next weight from the running `int` value gives `idx` minus the next prefix sum, wrapped. |
| Weighted.Weights | src/main/java/com/samskivert/util/Randoms.java:149-150 | The weights of the map's entries, one per entry, in iteration order. |
| Weighted.ChosenFrom | src/main/java/com/samskivert/util/Randoms.java:149-154 | The first position, scanning on from `from`, where the running value goes negative, with no earlier such position; or the end if there is none. |
| Weighted.Chosen | src/main/java/com/samskivert/util/Randoms.java:149-154 | The position where `getWeighted` returns: the running value is negative there and at no earlier entry. |
| Weighted.NeverFallsThrough | src/main/java/com/samskivert/util/Randoms.java:155 | For a draw in `[0, sum)` with a positive `int` sum, the loop always returns, even with wrap-around, so the `AssertionError` is unreachable. |
| Weighted.SumMonotone | src/main/java/com/samskivert/util/Randoms.java:145-156 | Cumulative weights of non-negative weights grow with the prefix. |
| Weighted.ChosenIsCumulative | src/main/java/com/samskivert/util/Randoms.java:145-156 | Without wrap-around, `getWeighted` returns entry `k` exactly for the draws in `[Sum(ws[..k]), Sum(ws[..k+1]))`: the first entry whose cumulative weight exceeds the draw. Entry `k` therefore wins for `ws[k]` of the `sum` possible draws. |
| Randoms.Randoms.GetInt | src/main/java/com/samskivert/util/Randoms.java:76-79 | Throws `IllegalArgumentException` for `high <= 0` and changes nothing. Otherwise it makes one draw with bound `high` and returns it, in `[0, high)`. |
| Randoms.Randoms.constructor | src/main/java/com/samskivert/util/Randoms.java:218-221 | A `Randoms` draws from the generator it was given. |
| Randoms.Randoms.GetInRange | src/main/java/com/samskivert/util/Randoms.java:87-90 | Draws with the wrapped `int` difference `high - low` and returns `low` plus the draw, wrapped. The result is in `[low, high)` whenever the difference does not overflow. It throws when the difference is not positive. |
| Randoms.Randoms.GetChance | src/main/java/com/samskivert/util/Randoms.java:117-120 | True exactly when the one draw in `[0, n)` is 0. `getChance(1)` is always true. Throws for `n <= 0`. |
| Randoms.Randoms.GetWeighted | src/main/java/com/samskivert/util/Randoms.java:145-156 | Throws when the `int` weight sum is not positive, making no draw. Otherwise it makes one draw `idx` with the sum as bound and returns the key of entry `Chosen(weights, idx)`, which always exists. |
| Randoms.Randoms.PickIterator | src/main/java/com/samskivert/util/Randoms.java:168-181 | Exhausts the iterator, making draws with bounds 2, 3, ..., n that fit their bounds. Returns `Picked` of the remaining elements and those draws: `ifEmpty` with no draw on an empty iterator. |
| Randoms.Randoms.Pick | src/main/java/com/samskivert/util/Randoms.java:193-196 | The bounds, draws, result and unchanged contents of `pickPluck(iterable, ifEmpty, false)`, as given by `PickPluckOutcome`. |
| Randoms.Randoms.Pluck | src/main/java/com/samskivert/util/Randoms.java:210-213 | The bounds, draws, result and remaining contents of `pickPluck(iterable, ifEmpty, true)`, as given by `PickPluckOutcome`. |
| Randoms.Randoms.PickPluck | src/main/java/com/samskivert/util/Randoms.java:226-278 | On every path, the draws made (bounds from `PickPluckBounds`, results within them) determine the result and the new contents through `PickPluckOutcome`. A pick on a plain Iterable is the streaming walk of its iterator. |
| Randoms.Randoms.PickPluckSized | src/main/java/com/samskivert/util/Randoms.java:228-253 | Collection path: size 0 gives `ifEmpty` with no draw. Otherwise one draw `idx` in `[0, size)`; the result is element `idx`, removed only when `remove` is set. A non-removable structure throws `UnsupportedOperationException` on removal. |
| Randoms.Randoms.Advance | src/main/java/com/samskivert/util/Randoms.java:243-245 | Skipping moves the cursor forward by exactly the number of `next()` calls. |
| Randoms.Randoms.PluckStream | src/main/java/com/samskivert/util/Randoms.java:259-277 | The two-cursor pluck makes the draws of the streaming walk and returns the streaming pick. Its `lagIt.remove()` deletes exactly that element, or throws `UnsupportedOperationException` when the structure does not support removal. An empty input gives `ifEmpty`. |
| Randoms.Randoms.TrailingWalk | src/main/java/com/samskivert/util/Randoms.java:264-275 | After the walk, the lead cursor is exhausted, the draws are the bounds 2..n walk, and the lag cursor stands just past the winner of those draws, whose element is the pick. |
| Randoms.Randoms.TrailingStep | src/main/java/com/samskivert/util/Randoms.java:267-274 | One round keeps the loop invariant: lag position + `lag` = next lead position, and the lag cursor is just past the current pick. |
| ThreadLocalRandoms.XorBits | src/main/java/com/samskivert/util/Randoms.java:360 | The low `k` bits of a bitwise xor lie below 2^k. |
| ThreadLocalRandoms.XorBitsTwice | src/main/java/com/samskivert/util/Randoms.java:360 | Xor-ing twice with the same value gives the original low bits back. (An extra fact about the generator, which the source does not state.) |
| ThreadLocalRandoms.Scramble | src/main/java/com/samskivert/util/Randoms.java:360 | The state `setSeed` installs is a 48-bit value. |
| ThreadLocalRandoms.ScrambleUndone | src/main/java/com/samskivert/util/Randoms.java:360 | Xor-ing the installed state with the multiplier gives back the seed's low 48 bits. (An extra fact about the generator, which the source does not state.) |
| ThreadLocalRandoms.ScrambleInjective | src/main/java/com/samskivert/util/Randoms.java:360 | Seeds that differ in their low 48 bits install different states. (An extra fact about the generator, which the source does not state.) |
| ThreadLocalRandoms.Low48 | src/main/java/com/samskivert/util/Randoms.java:321 | `& mask` yields a value in `[0, 2^48)`. |
| ThreadLocalRandoms.Step | src/main/java/com/samskivert/util/Randoms.java:365 | The next state is a 48-bit value. |
| ThreadLocalRandoms.JavaStepIsStep | src/main/java/com/samskivert/util/Randoms.java:365 | Java's step, with the product and the sum wrapped to 64 bits and then masked, equals the exact step modulo 2^48. |
| ThreadLocalRandoms.Unstep | src/main/java/com/samskivert/util/Randoms.java:365 | The state before a given state is a 48-bit value. (An extra fact about the generator, which the source does not state.) |
| ThreadLocalRandoms.StepUndone | src/main/java/com/samskivert/util/Randoms.java:365 | The step is undone by multiplying by the multiplier's inverse modulo 2^48. (An extra fact about the generator, which the source does not state.) |
| ThreadLocalRandoms.StepInjective | src/main/java/com/samskivert/util/Randoms.java:365 | The step is one-to-one on 48-bit states. (An extra fact about the generator, which the source does not state.) |
| ThreadLocalRandoms.StepN | src/main/java/com/samskivert/util/Randoms.java:365 | Any number of steps stays within 48 bits. |
| ThreadLocalRandoms.Output | src/main/java/com/samskivert/util/Randoms.java:366 | `(int) (rnd >>> (48 - bits))`: congruent modulo 2^32 to the top `bits` bits of the state. |
| ThreadLocalRandoms.OutputRange | src/main/java/com/samskivert/util/Randoms.java:366 | For `1 <= bits <= 31` the cast of `rnd >>> (48 - bits)` to `int` does not wrap: `next(bits)` equals the top `bits` bits of the state exactly, and lies in `[0, 2^bits)`. |
| ThreadLocalRandoms.OutputTwoBits | src/main/java/com/samskivert/util/Randoms.java:405 | `next(2)` is the top two bits of the state, a value in `[0, 4)`. |
| ThreadLocalRandoms.StepNAdd | src/main/java/com/samskivert/util/Randoms.java:365 | Taking `a` steps and then `b` steps is taking `a + b` steps. |
| ThreadLocalRandoms.Halve | src/main/java/com/samskivert/util/Randoms.java:403-411 | The halving loop run from a generator state: it ends with `n` in `(0, Integer.MAX_VALUE)`, the offset never decreasing, and the final offset plus the final `n` at most the starting offset plus `n`. |
| ThreadLocalRandoms.HalveSteps | src/main/java/com/samskivert/util/Randoms.java:403-411 | The state the halving loop leaves is the start state advanced by one step per round. |
| ThreadLocalRandoms.ThreadLocalRandom.constructor | src/main/java/com/samskivert/util/Randoms.java:345-348 | The superclass constructor's `setSeed` succeeds and installs the scrambled seed, after which `initialized` is set. |
| ThreadLocalRandoms.ThreadLocalRandom.SetSeed | src/main/java/com/samskivert/util/Randoms.java:357-361 | Once initialized, it throws `UnsupportedOperationException` and changes nothing. Before that, it sets `rnd` to the scrambled seed. |
| ThreadLocalRandoms.ThreadLocalRandom.Next | src/main/java/com/samskivert/util/Randoms.java:364-367 | `rnd` takes one step and stays in `[0, 2^48)`. The result is the top `bits` bits, in `[0, 2^bits)` for `bits <= 31`. |
| ThreadLocalRandoms.ThreadLocalRandom.NextInt | src/main/java/com/samskivert/util/Randoms.java:412 | The inherited `nextInt(n)`: throws for `n <= 0` with no change. Otherwise a value in `[0, n)`, after one or more steps of `rnd`. |
| ThreadLocalRandoms.ThreadLocalRandom.LongDraw | src/main/java/com/samskivert/util/Randoms.java:395-413 | The value and new state of `nextLong(n)` for a positive `n`: the value lies in `[0, n)` and the state within 48 bits. |
| ThreadLocalRandoms.ThreadLocalRandom.Halving | src/main/java/com/samskivert/util/Randoms.java:403-412 | The loop followed by `offset + nextInt((int) n)` returns the value `LongDraw` gives, and leaves the state it gives: the offset `Halve` reaches, plus the `intTape` draw on the `n` it leaves. `rnd` advances one step per round plus the steps of the draw, and one `nextInt` call is used up. |
| ThreadLocalRandoms.ThreadLocalRandom.HalvingRound | src/main/java/com/samskivert/util/Randoms.java:405-410 | One round: one step of `rnd`, `n` strictly smaller and still positive, and the rest of the loop's run unchanged (`Halve` from the new state, `n` and offset is `Halve` from the old ones). |
| ThreadLocalRandoms.ThreadLocalRandom.NextLong | src/main/java/com/samskivert/util/Randoms.java:395-413 | Throws `IllegalArgumentException` for `n <= 0` and changes nothing. Otherwise it returns the value `LongDraw` gives for the old state and leaves the state it gives: the halving loop's offset plus the draw on the `n` it leaves. That value lies in `[0, n)`. |
| ThreadLocalRandoms.ThreadLocalRandom.NextLongRange | src/main/java/com/samskivert/util/Randoms.java:425-429 | As written: throws for `least >= bound` with no change. When `bound - least` fits in a `long`, it returns `nextLong(bound - least) + least`: the `LongDraw` value plus `least`, with the `LongDraw` state, in `[least, bound)`. When the difference does not fit, it throws with no change, although `least < bound`. |
| ThreadLocalRandoms.ThreadLocalRandom.NextLongRangeExact | src/main/java/com/samskivert/util/Randoms.java:425-429 | As intended: throws exactly when `least >= bound`, changing nothing. Otherwise it returns the `LongDraw` value on the exact difference plus `least`, always in `[least, bound)`. |
| ThreadLocalRandoms.WrapOverflowNegative | src/main/java/com/samskivert/util/Randoms.java:428 | A difference above `Long.MAX_VALUE` wraps to a negative `long`. |
| ThreadLocalRandoms.NextLongRangeOverflowExample | src/main/java/com/samskivert/util/Randoms.java:425-429 | `nextLong(Long.MIN_VALUE, 1)` has `least < bound` but a negative wrapped difference, so it throws. |
| IdStrings.Digits | src/java/com/samskivert/servlet/user/UserRepository.java:486 | The decimal digits of a natural number: at least one, all digits, no leading zero. |
| IdStrings.Decimal | src/java/com/samskivert/servlet/user/UserRepository.java:486 | `append(int)` writes a non-empty text with no comma. |
| IdStrings.DigitsRoundTrip | src/java/com/samskivert/servlet/user/UserRepository.java:486 | Reading the digits of `n` back gives `n`. |
| IdStrings.DecimalRoundTrip | src/java/com/samskivert/servlet/user/UserRepository.java:486 | Reading the decimal rendering of an `int` back gives the `int`, so the rendering is one-to-one. |
| IdStrings.Renderings | src/java/com/samskivert/servlet/user/UserRepository.java:482-487 | The renderings of the ids, one per id, in array order. |
| IdStrings.JoinSnoc | src/java/com/samskivert/servlet/user/UserRepository.java:482-487 | Appending one more part adds a comma before it exactly when there are parts already. |
| IdStrings.JoinEmpty | src/java/com/samskivert/servlet/user/UserRepository.java:483 | Joining non-empty parts gives an empty text exactly when there are no parts. |
| IdStrings.Join | src/java/com/samskivert/servlet/user/UserRepository.java:481-489 | No parts give the empty text; otherwise the text starts with the first part. |
| IdStrings.IdList | src/java/com/samskivert/servlet/user/UserRepository.java:478-490 | The text for the ids is empty exactly when there are no ids. |
| IdStrings.CommaAt | src/java/com/samskivert/servlet/user/UserRepository.java:484 | The first comma of a text, or its end. |
| IdStrings.Split | src/java/com/samskivert/servlet/user/UserRepository.java:481-489 | Splitting at commas yields at least one piece. |
| IdStrings.SplitJoin | src/java/com/samskivert/servlet/user/UserRepository.java:481-489 | Splitting a comma-joined text at its commas gives the parts back when no part holds a comma. |
| IdStrings.CommaAtPrefix | src/java/com/samskivert/servlet/user/UserRepository.java:484 | The first comma of `p + "," + rest` is the one after a comma-free `p`. |
| IdStrings.ParseIdList | src/java/com/samskivert/servlet/user/UserRepository.java:478-490 | The text `genIdString` builds splits at its commas into exactly the renderings of the ids, in order. Each rendering is non-empty and comma-free, so there is no leading, trailing or doubled comma. Reading the pieces back gives exactly the ids. |
| UserRepository.Replace | src/java/com/samskivert/servlet/user/UserRepository.java:255 | `String.replace(char, char)`: same length; every `from` becomes `to`; every other character stays. |
| UserRepository.DisabledEmail | src/java/com/samskivert/servlet/user/UserRepository.java:255 | The disabled address has the same length and no '@', and every character that was not '@' is unchanged. |
| UserRepository.DisabledEmailProperties | src/java/com/samskivert/servlet/user/UserRepository.java:254-256 | A disabled address has the same length and no '@'. Disabling twice changes nothing more. An address with no '#' is recovered by turning '#' back into '@'. |
| UserRepository.GenIdString | src/java/com/samskivert/servlet/user/UserRepository.java:478-490 | The loop builds the comma-joined decimal renderings of the ids in array order: the empty text for no ids, and a comma before every id but the first. |
| UserRepository.Lookup | src/java/com/samskivert/servlet/user/UserRepository.java:468 | `map.get(userIds[i])`: the name the rows gave that id, or null when no row had it. |
| UserRepository.NamesQuery | src/java/com/samskivert/servlet/user/UserRepository.java:446-448 | The query ends with the id list and the closing parenthesis of `in (...)`. |
| UserRepository.LoadNames | src/java/com/samskivert/servlet/user/UserRepository.java:429-471 | No ids: an empty array and no query. Otherwise it runs the query for `genIdString` of the ids. The result is a new array as long as the ids, whose entry `i` is the name found for id `i` or null. Duplicate ids get equal entries. |
| UserRepository.NamesFound | src/java/com/samskivert/servlet/user/UserRepository.java:466-470 | The loop fills a new array, as long as the ids, with the lookup of each id at its position. |
| UserRepository.DeleteUser | src/java/com/samskivert/servlet/user/UserRepository.java:234-256 | An already-deleted user is left unchanged. Otherwise the password becomes empty, the e-mail address is disabled, the user name becomes the one the rename settled on, and the deleted flag is left as it was. |

## Left out

- The floating-point operations are not modelled: `getFloat`, `getInRange(float, float)`, `getProbability`, `nextDouble(double)` and `nextDouble(double, double)`.
- `getBoolean` is not modelled, because it is a plain call into `java.util.Random.nextBoolean`.
- The internals of `java.util.Random` are not part of this model. This covers `nextInt(int)`'s rejection sampling, `nextFloat`, `nextBoolean` and the seeding done by its constructor. `nextInt` is an oracle.
- Inside `ThreadLocalRandom`, the inherited `nextInt(int)` is an oracle too: a result tape, plus how many `next(31)` steps each call takes.
- Statistical uniformity is not stated. Only the exact reservoir rule, the draw bounds, and `ChosenIsCumulative`'s count of winning draws per entry are. The counting lemma "each index wins for (n-1)! of the draw vectors" is not proved.
- `Folds.sum` is not part of this model. It is taken to be a left-to-right `int` sum that wraps around, as Java `int` addition does.
- A null weight is left out: the `Integer` weights are never null here.
- Null arguments are left out: Dafny references are never null. The source throws `NullPointerException` for a null map, iterator or iterable in `getWeighted`, `pick` and `pluck`, and for a null e-mail address in `deleteUser`. The model does not state any of this.
- Randoms.Randoms.PickIterator, Pick, Pluck, PickPluck, PickPluckSized and PluckStream require at most `Integer.MAX_VALUE` elements. With more, the `int` counter `count` of the streaming walks would overflow, and `size()` reports `Integer.MAX_VALUE` instead of the true size, so the one-draw path could never select the elements beyond it. That case is not modelled.
- The `ThreadLocal` holder, the `threadLocal()` accessor, the factory methods and the cache-line padding fields are not modelled. Their point is thread confinement and concurrency.
- The clock-derived seed of `ThreadLocalRandom()` is the constructor's parameter `seed`.
- ThreadLocalRandoms.ThreadLocalRandom.Halving works on the exact positive `n`, which is the value Java's `long` holds there: `n` is at most `Long.MAX_VALUE` and the loop never overflows.
- The comment in `nextLong(n)` saying the loop runs "at most 31" times is not modelled. Only termination is proved, and the count is not bounded: for `n = Long.MAX_VALUE` the loop runs 33 times. Only the comment is wrong.
- Nothing SQL or JDBC is modelled:
  - `loadNames`' query execution is replaced by the `found` map of the rows it returned (userId to column value);
  - the query text is returned instead of executed;
  - `PersistenceException` is left out;
  - the other repository operations (`createUser`, `loadUser*`, `updateUser`, sessions) are left out.
- `UserRepository.DeleteUser` leaves out the rename retry loop of `deleteUser`. That loop tries `StringUtil.truncate(ii + "=" + oldName, 24)` against the table until no duplicate row is reported. `StringUtil` and the table are not part of this model, so the settled name is the parameter `renamed`, and the failure after 100 attempts is left out.
- `User.java` is not part of this model. `isDeleted()` is the field `deleted` of the `User` class.
- Behaviour the model keeps exactly as the code has it:
  - `getInRange(low, high)` throws for `low < high` whose `int` difference overflows;
  - a pluck that throws `UnsupportedOperationException` has already made its draws;
  - `getWeighted` accepts zero or negative weights as long as their `int` sum is positive.

## Findings

| source | as written | input that shows it | evidently intended | confidence | as-written member | corrected member |
|---|---|---|---|---|---|---|
| src/main/java/com/samskivert/util/Randoms.java:425-429 | `nextLong(least, bound)` computes `bound - least` in `long` arithmetic. When the difference exceeds `Long.MAX_VALUE`, it wraps to a negative value and `nextLong(n)` throws `IllegalArgumentException`, although `least < bound`. | `least = Long.MIN_VALUE`, `bound = 1` | It throws only when `least >= bound`, as its documentation says, and otherwise returns a value in `[least, bound)`. | not executed | ThreadLocalRandoms.ThreadLocalRandom.NextLongRange | ThreadLocalRandoms.ThreadLocalRandom.NextLongRangeExact |
