/**
 * The shuffles of lib/shuffle.ts: a downward Fisher–Yates pass over a copy of the
 * input, whose swap indices come either from a 32-bit linear congruential
 * generator seeded by the caller (`shuffleArray`) or from `Math.random`
 * (`shuffleArrayRandom`, with the random fractions supplied as input).
 *
 * Both are specified by one function, `FisherYates`, over the sequence of drawn
 * indices; the generator is the function `LcgDraws`.
 */
module Shuffle {

  // ---------------------------------------------------------------------------
  // the generator
  // ---------------------------------------------------------------------------

  const Modulus: nat := 0x1_0000_0000
  const Multiplier: nat := 1664525
  const Increment: nat := 1013904223

  /** One step of the generator: `random = (random * 1664525 + 1013904223) % 4294967296`. */
  function NextState(state: nat): (next: nat)
    ensures next < Modulus
  {
    (state * Multiplier + Increment) % Modulus
  }

  /**
   * `Math.floor(state / 2^32 * bound)`: the fraction `state / 2^32` lies in [0, 1),
   * so the index lies in [0, bound). For `state < 2^32` and `bound < 2^21` the
   * product of doubles is exact, and the floor is the integer quotient used here.
   */
  function DrawIndex(state: nat, bound: nat): (j: nat)
    requires state < Modulus
    ensures bound > 0 ==> j < bound
  {
    ScaledBelow(state, bound);
    state * bound / Modulus
  }

  /** A state below the modulus times `bound`, divided by the modulus, stays below `bound`. */
  lemma ScaledBelow(state: nat, bound: nat)
    requires state < Modulus
    ensures bound > 0 ==> state * bound / Modulus < bound
  {
    var product := state * bound;
    assert product <= (Modulus - 1) * bound by {
      MulMonotonic(state, Modulus - 1, bound);
    }
  }

  lemma MulMonotonic(a: nat, b: nat, c: nat)
    requires a <= b
    ensures a * c <= b * c
  {
  }

  /**
   * `draws[k]` is the index drawn at step `k` of the loop, when `n - k` positions
   * are still unshuffled; it is swapped with position `n - k - 1`.
   */
  predicate ValidDraws(n: nat, draws: seq<nat>)
  {
    |draws| == n && forall k :: 0 <= k < n ==> draws[k] < n - k
  }

  /** The indices `shuffleArray` draws while `remaining` positions are unshuffled and the generator holds `state`. */
  function LcgDraws(remaining: nat, state: nat): (draws: seq<nat>)
    ensures ValidDraws(remaining, draws)
    decreases remaining
  {
    if remaining == 0 then []
    else
      var next := NextState(state);
      [DrawIndex(next, remaining)] + LcgDraws(remaining - 1, next)
  }

  // ---------------------------------------------------------------------------
  // the swap pass
  // ---------------------------------------------------------------------------

  /** The destructuring swap `[a[i], a[j]] = [a[j], a[i]]`. */
  function Swap<T>(s: seq<T>, i: nat, j: nat): (r: seq<T>)
    requires i < |s| && j < |s|
    ensures |r| == |s| && r[i] == s[j] && r[j] == s[i]
    ensures forall k :: 0 <= k < |s| && k != i && k != j ==> r[k] == s[k]
  {
    s[i := s[j]][j := s[i]]
  }

  lemma SwapPermutes<T>(s: seq<T>, i: nat, j: nat)
    requires i < |s| && j < |s|
    ensures multiset(Swap(s, i, j)) == multiset(s)
  {
    var t := s[i := s[j]];
    assert multiset(t) == multiset(s) - multiset{s[i]} + multiset{s[j]};
    assert multiset(t[j := s[i]]) == multiset(t) - multiset{t[j]} + multiset{s[i]};
  }

  /** The rest of the loop from the point where `remaining` positions are unshuffled. */
  function FisherYatesFrom<T>(s: seq<T>, remaining: nat, draws: seq<nat>): (r: seq<T>)
    requires remaining <= |s| && ValidDraws(remaining, draws)
    ensures |r| == |s|
    decreases remaining
  {
    if remaining == 0 then s
    else FisherYatesFrom(Swap(s, remaining - 1, draws[0]), remaining - 1, draws[1..])
  }

  /** The whole swap pass over `s` with the given draws. */
  function FisherYates<T>(s: seq<T>, draws: seq<nat>): seq<T>
    requires ValidDraws(|s|, draws)
  {
    FisherYatesFrom(s, |s|, draws)
  }

  /** `shuffleArray(s, seed)` as a value: a permutation of `s`. */
  function Shuffled<T>(s: seq<T>, seed: nat): (r: seq<T>)
    ensures |r| == |s|
    ensures multiset(r) == multiset(s)
  {
    FisherYatesPermutes(s, LcgDraws(|s|, seed));
    FisherYates(s, LcgDraws(|s|, seed))
  }

  // ---------------------------------------------------------------------------
  // what the pass guarantees
  // ---------------------------------------------------------------------------

  /** The pass only swaps: it keeps the multiset of elements. */
  lemma {:induction false} FisherYatesFromPermutes<T>(s: seq<T>, remaining: nat, draws: seq<nat>)
    requires remaining <= |s| && ValidDraws(remaining, draws)
    ensures multiset(FisherYatesFrom(s, remaining, draws)) == multiset(s)
    decreases remaining
  {
    if remaining > 0 {
      SwapPermutes(s, remaining - 1, draws[0]);
      FisherYatesFromPermutes(Swap(s, remaining - 1, draws[0]), remaining - 1, draws[1..]);
    }
  }

  /** The pass leaves the positions at and beyond `remaining` as they were. */
  lemma {:induction false} FisherYatesFromKeepsTail<T>(s: seq<T>, remaining: nat, draws: seq<nat>)
    requires remaining <= |s| && ValidDraws(remaining, draws)
    ensures FisherYatesFrom(s, remaining, draws)[remaining..] == s[remaining..]
    decreases remaining
  {
    if remaining > 0 {
      var i, j := remaining - 1, draws[0];
      var t := Swap(s, i, j);
      FisherYatesFromKeepsTail(t, i, draws[1..]);
      assert t[i..] == [s[j]] + s[remaining..];
    }
  }

  /** Every draw sequence within range yields a permutation of the input. */
  lemma FisherYatesPermutes<T>(s: seq<T>, draws: seq<nat>)
    requires ValidDraws(|s|, draws)
    ensures |FisherYates(s, draws)| == |s|
    ensures multiset(FisherYates(s, draws)) == multiset(s)
  {
    FisherYatesFromPermutes(s, |s|, draws);
  }

  function Map<T, U>(f: T -> U, s: seq<T>): (r: seq<U>)
    ensures |r| == |s| && forall i :: 0 <= i < |s| ==> r[i] == f(s[i])
  {
    seq(|s|, i requires 0 <= i < |s| => f(s[i]))
  }

  /**
   * The positions the pass moves depend only on the draws, not on the elements:
   * shuffling the images of the elements gives the images of the shuffled elements.
   */
  lemma {:induction false} FisherYatesFromMap<T, U>(f: T -> U, s: seq<T>, remaining: nat, draws: seq<nat>)
    requires remaining <= |s| && ValidDraws(remaining, draws)
    ensures FisherYatesFrom(Map(f, s), remaining, draws) == Map(f, FisherYatesFrom(s, remaining, draws))
    decreases remaining
  {
    if remaining > 0 {
      var i, j := remaining - 1, draws[0];
      assert Swap(Map(f, s), i, j) == Map(f, Swap(s, i, j));
      FisherYatesFromMap(f, Swap(s, i, j), remaining - 1, draws[1..]);
    }
  }

  /**
   * `shuffleArray(a.map(f), seed)` equals `shuffleArray(a, seed).map(f)`: the
   * permutation depends only on the length and the seed.
   */
  lemma ShuffledMap<T, U>(f: T -> U, s: seq<T>, seed: nat)
    ensures Shuffled(Map(f, s), seed) == Map(f, Shuffled(s, seed))
  {
    FisherYatesFromMap(f, s, |s|, LcgDraws(|s|, seed));
  }

  /** Inputs of length 0 or 1 come back unchanged; for length 1 the only draw is index 0. */
  lemma ShuffledShort<T>(s: seq<T>, seed: nat)
    requires |s| <= 1
    ensures Shuffled(s, seed) == s
  {
    if |s| == 1 {
      var draws := LcgDraws(1, seed);
      assert draws[0] == 0;
      assert Swap(s, 0, 0) == s;
      assert FisherYates(s, draws) == FisherYatesFrom(Swap(s, 0, 0), 0, draws[1..]);
    }
  }

  /**
   * One turn of the loop (draw, swap) keeps the rest of the pass leading to the
   * same result, and fixes one more position of it.
   */
  lemma PassStep<T>(s: seq<T>, remaining: nat, draws: seq<nat>, result: seq<T>)
    requires 0 < remaining <= |s| && ValidDraws(remaining, draws)
    requires FisherYatesFrom(s, remaining, draws) == result
    ensures var t := Swap(s, remaining - 1, draws[0]);
            FisherYatesFrom(t, remaining - 1, draws[1..]) == result
            && t[remaining - 1..] == result[remaining - 1..]
  {
    var t := Swap(s, remaining - 1, draws[0]);
    FisherYatesFromKeepsTail(t, remaining - 1, draws[1..]);
  }

  /** One turn of the seeded loop, stated on the array contents before and after the swap. */
  lemma SeededStep<T>(before: seq<T>, after: seq<T>, index: nat, state: nat, result: seq<T>)
    requires index < |before|
    requires FisherYatesFrom(before, index + 1, LcgDraws(index + 1, state)) == result
    requires after == Swap(before, index, DrawIndex(NextState(state), index + 1))
    ensures FisherYatesFrom(after, index, LcgDraws(index, NextState(state))) == result
    ensures after[index..] == result[index..]
  {
    var draws := LcgDraws(index + 1, state);
    assert draws == [DrawIndex(NextState(state), index + 1)] + LcgDraws(index, NextState(state));
    assert draws[1..] == LcgDraws(index, NextState(state));
    PassStep(before, index + 1, draws, result);
  }

  // ---------------------------------------------------------------------------
  // Math.random draws
  // ---------------------------------------------------------------------------

  /**
   * The index `Math.floor(r * bound)` picks for a draw `r` of `Math.random()`
   * in [0, 1), with the product taken exactly (the source rounds it to a
   * double first).
   */
  function ScaleDraw(r: real, bound: nat): (j: nat)
    requires 0.0 <= r < 1.0
    ensures bound > 0 ==> j < bound
  {
    assert 0.0 <= r * bound as real <= bound as real;
    (r * bound as real).Floor
  }

  predicate AreFractions(randoms: seq<real>)
  {
    forall k :: 0 <= k < |randoms| ==> 0.0 <= randoms[k] < 1.0
  }

  /** The first draw comes from the first random number, the rest from the rest. */
  lemma RandomDrawsCons(randoms: seq<real>)
    requires |randoms| > 0 && AreFractions(randoms)
    ensures AreFractions(randoms[1..])
    ensures RandomDraws(randoms)[0] == ScaleDraw(randoms[0], |randoms|)
    ensures RandomDraws(randoms)[1..] == RandomDraws(randoms[1..])
  {
    forall k | 0 <= k < |randoms| - 1
      ensures 0.0 <= randoms[1..][k] < 1.0
    {
      assert randoms[1..][k] == randoms[k + 1];
    }
  }

  /** The indices `shuffleArrayRandom` draws from the successive results of `Math.random()`. */
  function RandomDraws(randoms: seq<real>): (draws: seq<nat>)
    requires AreFractions(randoms)
    ensures ValidDraws(|randoms|, draws)
    decreases |randoms|
  {
    if |randoms| == 0 then []
    else [ScaleDraw(randoms[0], |randoms|)] + RandomDraws(randoms[1..])
  }

  /** One turn of the `Math.random` loop, stated on the array contents before and after the swap. */
  lemma RandomStep<T>(before: seq<T>, after: seq<T>, index: nat, pending: seq<real>, result: seq<T>)
    requires index < |before| && |pending| == index + 1 && AreFractions(pending)
    requires FisherYatesFrom(before, index + 1, RandomDraws(pending)) == result
    requires after == Swap(before, index, ScaleDraw(pending[0], index + 1))
    ensures AreFractions(pending[1..])
    ensures FisherYatesFrom(after, index, RandomDraws(pending[1..])) == result
    ensures after[index..] == result[index..]
  {
    RandomDrawsCons(pending);
    PassStep(before, index + 1, RandomDraws(pending), result);
  }

  // ---------------------------------------------------------------------------
  // the two source functions
  // ---------------------------------------------------------------------------

  /** The destructuring swap `[a[i], a[j]] = [a[j], a[i]]`. */
  method SwapElements<T>(a: array<T>, i: nat, j: nat)
    requires i < a.Length && j < a.Length
    modifies a
    ensures a[..] == Swap(old(a[..]), i, j)
  {
    var atJ, atI := a[j], a[i];
    a[i] := atJ;
    a[j] := atI;
  }

  /**
   * `shuffleArray(array, seed)`: copies `array` into a fresh array and runs the
   * seeded pass over the copy; `array` itself is not modified.
   */
  method ShuffleArray<T>(source: array<T>, seed: nat) returns (shuffled: array<T>)
    ensures fresh(shuffled) && source[..] == old(source[..])
    ensures shuffled[..] == Shuffled(source[..], seed)
    ensures multiset(shuffled[..]) == multiset(source[..])
  {
    shuffled := new T[source.Length](i requires 0 <= i < source.Length reads source => source[i]);
    ghost var original := source[..];
    assert shuffled[..] == original;
    var currentIndex: nat := shuffled.Length;
    var random: nat := seed;
    while currentIndex != 0
      invariant currentIndex <= shuffled.Length
      invariant FisherYatesFrom(shuffled[..], currentIndex, LcgDraws(currentIndex, random)) == Shuffled(original, seed)
      invariant shuffled[currentIndex..] == Shuffled(original, seed)[currentIndex..]
    {
      ghost var before := shuffled[..];
      ghost var state := random;
      random := NextState(random);
      var randomIndex := DrawIndex(random, currentIndex);
      currentIndex := currentIndex - 1;
      SwapElements(shuffled, currentIndex, randomIndex);
      SeededStep(before, shuffled[..], currentIndex, state, Shuffled(original, seed));
    }
    assert shuffled[..] == shuffled[0..];
  }

  /**
   * `shuffleArrayRandom(array)`, with the `Math.random()` results it consumes
   * given as `randoms`, one per turn of the loop.
   */
  method ShuffleArrayRandom<T>(source: array<T>, randoms: seq<real>) returns (shuffled: array<T>)
    requires |randoms| == source.Length && AreFractions(randoms)
    ensures fresh(shuffled) && source[..] == old(source[..])
    ensures shuffled[..] == FisherYates(source[..], RandomDraws(randoms))
    ensures multiset(shuffled[..]) == multiset(source[..])
  {
    shuffled := new T[source.Length](i requires 0 <= i < source.Length reads source => source[i]);
    ghost var original := source[..];
    ghost var result := FisherYates(original, RandomDraws(randoms));
    assert shuffled[..] == original;
    FisherYatesPermutes(original, RandomDraws(randoms));
    var currentIndex: nat := shuffled.Length;
    var pending := randoms;
    while currentIndex != 0
      invariant currentIndex <= shuffled.Length
      invariant |pending| == currentIndex && AreFractions(pending)
      invariant FisherYatesFrom(shuffled[..], currentIndex, RandomDraws(pending)) == result
      invariant shuffled[currentIndex..] == result[currentIndex..]
    {
      ghost var before := shuffled[..];
      ghost var drawn := pending;
      var randomIndex := ScaleDraw(pending[0], currentIndex);
      pending := pending[1..];
      currentIndex := currentIndex - 1;
      SwapElements(shuffled, currentIndex, randomIndex);
      RandomStep(before, shuffled[..], currentIndex, drawn, result);
    }
    assert shuffled[..] == shuffled[0..];
  }

}
