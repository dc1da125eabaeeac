/** The seeded Fisher–Yates shuffle of `shuffleQuestions` (script.js).

    The source draws from `seededRandom`, a sine-based generator whose seed counter is
    incremented on every draw, and turns a draw into an index with
    `Math.floor(seededRandom() * (i + 1))`, so one random value gives different indices at
    different positions. Here the generator is any total function from the counter value and the
    position to a natural number, and the index is that number modulo `i + 1`: for every counter
    value and position any index in `[0, i]` is reachable, so the source's draws are among the
    generators, and every property below holds whatever the generator is. */
module Shuffle {

  /** The draw produced for a value of the seed counter at loop position `i`. */
  type Generator = (int, nat) -> nat

  /** The swap partner chosen for position `i`: always within `[0, i]`. */
  function Draw(rng: Generator, seed: int, i: nat): (j: nat)
    ensures j <= i
  {
    rng(seed, i) % (i + 1)
  }

  /** Any choice of swap partners, one in `[0, i]` for each counter value and position, is drawn
      by some generator: itself. In particular `Math.floor(r * (i + 1))` for the source's `r`. */
  lemma EveryChoiceIsDrawn(choose: (int, nat) -> nat)
    requires forall seed: int, i: nat :: choose(seed, i) <= i
    ensures forall seed: int, i: nat :: Draw(choose, seed, i) == choose(seed, i)
  {
  }

  /** The destructuring swap `[s[i], s[j]] = [s[j], s[i]]`. */
  function Swap<T>(s: seq<T>, i: nat, j: nat): (r: seq<T>)
    requires i < |s| && j < |s|
  {
    s[i := s[j]][j := s[i]]
  }

  /** The loop's remaining passes: positions `i, i - 1, ..., 1`, the first of them drawing with
      counter value `seed`. */
  function Passes<T>(s: seq<T>, rng: Generator, seed: int, i: nat): seq<T>
    requires i < |s|
    decreases i
  {
    if i == 0 then s else Passes(Swap(s, i, Draw(rng, seed, i)), rng, seed + 1, i - 1)
  }

  /** One pass of the loop: position `i` swapped with its draw, the counter advanced. */
  lemma PassesStep<T>(s: seq<T>, rng: Generator, seed: int, i: nat)
    requires 0 < i < |s|
    ensures Passes(s, rng, seed, i) == Passes(Swap(s, i, Draw(rng, seed, i)), rng, seed + 1, i - 1)
  {
  }

  /** The whole loop `for (i = n - 1; i > 0; i--)`: nothing happens to a sequence of length 0 or 1. */
  function FisherYates<T>(s: seq<T>, rng: Generator, seed: int): seq<T>
  {
    if |s| == 0 then s else Passes(s, rng, seed, |s| - 1)
  }

  /** How many times the loop advances the seed counter on a sequence of length `n`. */
  function Draws(n: nat): nat
  {
    if n == 0 then 0 else n - 1
  }

  /** The identity arrangement `[0, 1, ..., n - 1]`. */
  function Iota(n: nat): seq<nat>
  {
    seq(n, k => k)
  }

  ghost predicate Distinct<T>(s: seq<T>)
  {
    forall i, j :: 0 <= i < j < |s| ==> s[i] != s[j]
  }

  /** `s` is `src` rearranged by the position map `idx`: position `k` of `s` holds the element
      that was at position `idx[k]` of `src`. */
  ghost predicate Tracks<T>(s: seq<T>, idx: seq<nat>, src: seq<T>)
  {
    |s| == |idx| && forall k :: 0 <= k < |s| ==> idx[k] < |src| && s[k] == src[idx[k]]
  }

  lemma SwapPermutes<T>(s: seq<T>, i: nat, j: nat)
    requires i < |s| && j < |s|
    ensures |Swap(s, i, j)| == |s| && multiset(Swap(s, i, j)) == multiset(s)
  {
    var t := s[i := s[j]];
    assert multiset(t) == multiset(s) - multiset{s[i]} + multiset{s[j]};
    assert t[j] == (if i == j then s[j] else s[j]);
  }

  /** The passes only rearrange: same length, same multiset. */
  lemma {:induction false} PassesPermutes<T>(s: seq<T>, rng: Generator, seed: int, i: nat)
    requires i < |s|
    ensures |Passes(s, rng, seed, i)| == |s|
    ensures multiset(Passes(s, rng, seed, i)) == multiset(s)
    decreases i
  {
    if i > 0 {
      var j := Draw(rng, seed, i);
      SwapPermutes(s, i, j);
      PassesPermutes(Swap(s, i, j), rng, seed + 1, i - 1);
    }
  }

  /** The shuffle returns a permutation of its input. */
  lemma FisherYatesPermutes<T>(s: seq<T>, rng: Generator, seed: int)
    ensures |FisherYates(s, rng, seed)| == |s|
    ensures multiset(FisherYates(s, rng, seed)) == multiset(s)
  {
    if |s| > 0 {
      PassesPermutes(s, rng, seed, |s| - 1);
    }
  }

  /** Swapping the same positions of two sequences keeps the position map between them. */
  lemma SwapTracks<T>(s: seq<T>, idx: seq<nat>, src: seq<T>, i: nat, j: nat)
    requires Tracks(s, idx, src) && i < |s| && j < |s|
    ensures Tracks(Swap(s, i, j), Swap(idx, i, j), src)
  {
  }

  /** Running the same passes with the same draws over two sequences keeps the position map. */
  lemma {:induction false} PassesTrack<T>(s: seq<T>, idx: seq<nat>, src: seq<T>, rng: Generator, seed: int, i: nat)
    requires Tracks(s, idx, src) && i < |s|
    ensures Tracks(Passes(s, rng, seed, i), Passes(idx, rng, seed, i), src)
    decreases i
  {
    if i > 0 {
      var j := Draw(rng, seed, i);
      SwapTracks(s, idx, src, i, j);
      PassesTrack(Swap(s, i, j), Swap(idx, i, j), src, rng, seed + 1, i - 1);
    }
  }

  /** Shuffling `s` and shuffling `[0, ..., n - 1]` with the same seed gives the map from each
      shuffled position back to the original one: `FisherYates(s)[k] == s[FisherYates(Iota(n))[k]]`. */
  lemma FisherYatesTracksOrigin<T>(s: seq<T>, rng: Generator, seed: int)
    ensures Tracks(FisherYates(s, rng, seed), FisherYates(Iota(|s|), rng, seed), s)
  {
    if |s| > 0 {
      PassesTrack(s, Iota(|s|), s, rng, seed, |s| - 1);
    }
  }

  /** The passes never duplicate an element. */
  lemma {:induction false} PassesKeepDistinct<T>(s: seq<T>, rng: Generator, seed: int, i: nat)
    requires Distinct(s) && i < |s|
    ensures Distinct(Passes(s, rng, seed, i))
    decreases i
  {
    if i > 0 {
      var j := Draw(rng, seed, i);
      var t := Swap(s, i, j);
      forall a, b | 0 <= a < b < |t| ensures t[a] != t[b] {
        var a' := if a == i then j else if a == j then i else a;
        var b' := if b == i then j else if b == j then i else b;
        assert t[a] == s[a'] && t[b] == s[b'] && a' != b';
      }
      PassesKeepDistinct(t, rng, seed + 1, i - 1);
    }
  }

  lemma FisherYatesKeepsDistinct<T>(s: seq<T>, rng: Generator, seed: int)
    requires Distinct(s)
    ensures Distinct(FisherYates(s, rng, seed))
  {
    if |s| > 0 {
      PassesKeepDistinct(s, rng, seed, |s| - 1);
    }
  }

  /** The two Fisher–Yates loops of `shuffleQuestions`, run in place on an array. Returns the seed
      counter after the loop, which the next loop continues from. */
  method ShuffleInPlace<T>(a: array<T>, rng: Generator, seed: int) returns (next: int)
    modifies a
    ensures a[..] == FisherYates(old(a[..]), rng, seed)
    ensures next == seed + Draws(a.Length)
  {
    next := seed;
    var i := a.Length - 1;
    while i > 0
      invariant -1 <= i < a.Length && (a.Length > 0 ==> 0 <= i)
      invariant next == seed + (a.Length - 1 - i)
      invariant a.Length > 0 ==> FisherYates(old(a[..]), rng, seed) == Passes(a[..], rng, next, i)
    {
      PassesStep(a[..], rng, next, i);
      SwapAt(a, i, Draw(rng, next, i));
      next := next + 1;
      i := i - 1;
    }
  }

  /** The destructuring swap on an array. */
  method SwapAt<T>(a: array<T>, i: nat, j: nat)
    requires i < a.Length && j < a.Length
    modifies a
    ensures a[..] == Swap(old(a[..]), i, j)
  {
    assert a[..][i := a[j]][j := a[i]] == Swap(a[..], i, j);
    a[i], a[j] := a[j], a[i];
  }
}
