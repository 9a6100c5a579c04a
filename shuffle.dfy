/**
 * `shuffleArray` of quiz.js: the Fisher-Yates shuffle (Knuth's Algorithm P,
 * The Art of Computer Programming vol. 2, section 3.4.2) run on a copy of
 * its argument. For `i` from the last index down to 1 it draws `j` with
 * `0 <= j <= i` and swaps the elements at `i` and `j`.
 *
 * The random draws are an input: `draws[i]` is the `j` drawn at step `i`.
 * `Math.floor(Math.random() * (i + 1))` always lies in `[0, i]`, so the only
 * demand on the draws is `draws[i] <= i`; all results below hold for every
 * such sequence.
 */
module Shuffle {

  /** A draw for every index below `n`, each within the prefix the step may
      touch. (`draws[0]` is never used and can only be 0; draws from `n` on
      are never used at all.) */
  predicate ValidDraws(draws: seq<nat>, n: nat) {
    n <= |draws| && forall i :: 0 <= i < n ==> draws[i] <= i
  }

  function Swap<T>(s: seq<T>, i: nat, j: nat): seq<T>
    requires i < |s| && j < |s|
  {
    s[i := s[j]][j := s[i]]
  }

  /** Reference definition: the element drawn for the last position is
      swapped there and stays; the rest is shuffled with the remaining
      draws. */
  function Shuffled<T>(s: seq<T>, draws: seq<nat>): (r: seq<T>)
    requires ValidDraws(draws, |s|)
    ensures |r| == |s|
    decreases |s|
  {
    if |s| <= 1 then s
    else
      var n := |s| - 1;
      var t := Swap(s, n, draws[n]);
      Shuffled(t[..n], draws) + [t[n]]
  }

  /** No element occurs twice. */
  predicate Distinct<T(==)>(s: seq<T>) {
    forall i, j :: 0 <= i < j < |s| ==> s[i] != s[j]
  }

  lemma SwapPermutes<T>(s: seq<T>, i: nat, j: nat)
    requires i < |s| && j < |s|
    ensures |Swap(s, i, j)| == |s|
    ensures multiset(Swap(s, i, j)) == multiset(s)
  {
  }

  lemma SplitLast<T>(t: seq<T>)
    requires |t| >= 1
    ensures multiset(t) == multiset(t[..|t| - 1]) + multiset{t[|t| - 1]}
  {
    assert t == t[..|t| - 1] + [t[|t| - 1]];
  }

  /** The shuffle is a permutation: same length, same multiset. */
  lemma {:induction false} ShuffledPermutes<T>(s: seq<T>, draws: seq<nat>)
    requires ValidDraws(draws, |s|)
    ensures multiset(Shuffled(s, draws)) == multiset(s)
    decreases |s|
  {
    if |s| > 1 {
      var n := |s| - 1;
      var t := Swap(s, n, draws[n]);
      SwapPermutes(s, n, draws[n]);
      ShuffledPermutes(t[..n], draws);
      SplitLast(t);
    }
  }

  /** Only the first `|s|` draws matter. */
  lemma {:induction false} UsedDrawsOnly<T>(s: seq<T>, d: seq<nat>, e: seq<nat>)
    requires ValidDraws(d, |s|) && ValidDraws(e, |s|) && d[..|s|] == e[..|s|]
    ensures Shuffled(s, d) == Shuffled(s, e)
    decreases |s|
  {
    if |s| > 1 {
      var n := |s| - 1;
      assert d[n] == d[..|s|][n] == e[n];
      var t := Swap(s, n, d[n]);
      assert d[..n] == d[..|s|][..n] && e[..n] == e[..|s|][..n];
      UsedDrawsOnly(t[..n], d, e);
    }
  }

  /** Every permutation is reached: for every rearrangement `r` of `s` the
      valid draw sequence `draws`, of length `|s|`, produces exactly `r`. */
  lemma {:induction false} EveryPermutationReached<T>(s: seq<T>, r: seq<T>) returns (draws: seq<nat>)
    requires |r| == |s| && multiset(r) == multiset(s)
    ensures |draws| == |s| && ValidDraws(draws, |s|) && Shuffled(s, draws) == r
    decreases |s|
  {
    if |s| == 0 {
      draws := [];
    } else if |s| == 1 {
      assert r[0] in multiset(s);
      assert r == s;
      draws := [0];
    } else {
      var n := |s| - 1;
      SplitLast(r);
      assert r[n] in multiset(s);
      var j :| 0 <= j < |s| && s[j] == r[n];
      RemainderPermutes(s, r, j);
      var d := EveryPermutationReached(Swap(s, n, j)[..n], r[..n]);
      ReachStep(s, r, j, d);
      draws := d + [j];
    }
  }

  /** Once the element for the last place is swapped there, what is left
      of `s` is a rearrangement of what is left of `r`. */
  lemma RemainderPermutes<T>(s: seq<T>, r: seq<T>, j: nat)
    requires |r| == |s| > 1 && multiset(r) == multiset(s)
    requires j < |s| && s[j] == r[|s| - 1]
    ensures multiset(Swap(s, |s| - 1, j)[..|s| - 1]) == multiset(r[..|s| - 1])
  {
    var n := |s| - 1;
    var t := Swap(s, n, j);
    SwapPermutes(s, n, j);
    assert t[n] == s[j];
    CancelLast(t, r);
  }

  lemma CancelLast<T>(x: seq<T>, y: seq<T>)
    requires |x| == |y| >= 1 && multiset(x) == multiset(y) && x[|x| - 1] == y[|y| - 1]
    ensures multiset(x[..|x| - 1]) == multiset(y[..|y| - 1])
  {
    SplitLast(x);
    SplitLast(y);
    var mx, my := multiset(x[..|x| - 1]), multiset(y[..|y| - 1]);
    forall e ensures mx[e] == my[e] {
      assert multiset(x)[e] == multiset(y)[e];
    }
  }

  /** Draws that rebuild the remainder, extended with the draw `j` for the
      last place, rebuild all of `r`. */
  lemma ReachStep<T>(s: seq<T>, r: seq<T>, j: nat, d: seq<nat>)
    requires |r| == |s| > 1 && j < |s| && s[j] == r[|s| - 1]
    requires |d| == |s| - 1 && ValidDraws(d, |s| - 1)
    requires Shuffled(Swap(s, |s| - 1, j)[..|s| - 1], d) == r[..|s| - 1]
    ensures |d + [j]| == |s| && ValidDraws(d + [j], |s|) && Shuffled(s, d + [j]) == r
  {
    var n := |s| - 1;
    var draws := d + [j];
    var t := Swap(s, n, j);
    ExtendDraws(d, j);
    UsedDrawsOnly(t[..n], d, draws);
    ShuffledStep(s, draws);
    assert t[n] == r[n];
    LastJoin(r, Shuffled(t[..n], draws), t[n]);
  }

  /** A nonempty sequence is its prefix followed by its last element. */
  lemma LastJoin<T>(r: seq<T>, p: seq<T>, x: T)
    requires |r| >= 1
    ensures p + [x] == r <==> p == r[..|r| - 1] && x == r[|r| - 1]
  {
    if p + [x] == r {
      assert (p + [x])[..|p|] == p;
    }
  }

  lemma ExtendDraws(d: seq<nat>, j: nat)
    requires ValidDraws(d, |d|) && j <= |d|
    ensures ValidDraws(d + [j], |d| + 1)
    ensures (d + [j])[..|d|] == d[..|d|] && (d + [j])[|d|] == j
  {
  }

  /** One unfolding of `Shuffled`. */
  lemma ShuffledStep<T>(s: seq<T>, d: seq<nat>)
    requires ValidDraws(d, |s|) && |s| > 1
    ensures Shuffled(s, d)
         == Shuffled(Swap(s, |s| - 1, d[|s| - 1])[..|s| - 1], d) + [Swap(s, |s| - 1, d[|s| - 1])[|s| - 1]]
  {
  }

  /** A rearrangement of a sequence without repeats has no repeats. */
  lemma PermutationKeepsDistinct<T>(s: seq<T>, r: seq<T>)
    requires Distinct(s) && multiset(r) == multiset(s)
    ensures Distinct(r)
  {
    forall i, j | 0 <= i < j < |r| ensures r[i] != r[j] {
      if r[i] == r[j] {
        var x := r[i];
        assert multiset(r)[x] >= 2 by {
          assert r == r[..j] + [r[j]] + r[j + 1..];
          assert r[..j] == r[..i] + [r[i]] + r[i + 1..j];
        }
        DistinctCountsOne(s, x);
        assert false;
      }
    }
  }

  lemma {:induction false} DistinctCountsOne<T>(s: seq<T>, x: T)
    requires Distinct(s)
    ensures multiset(s)[x] <= 1
  {
    if s != [] {
      var n := |s| - 1;
      SplitLast(s);
      assert Distinct(s[..n]);
      DistinctCountsOne(s[..n], x);
      if s[n] == x {
        assert x !in s[..n];
      }
    }
  }

  /** On a sequence without repeats different draws give different
      results, so the draw sequences and the permutations are in one-to-one
      correspondence: uniform draws make every permutation equally likely. */
  lemma {:induction false} DistinctDrawsDistinctResults<T>(s: seq<T>, d1: seq<nat>, d2: seq<nat>)
    requires Distinct(s) && ValidDraws(d1, |s|) && ValidDraws(d2, |s|)
    requires Shuffled(s, d1) == Shuffled(s, d2)
    ensures d1[..|s|] == d2[..|s|]
    decreases |s|
  {
    if |s| == 1 {
      assert d1[..1] == [0] == d2[..1];
    } else if |s| > 1 {
      var n := |s| - 1;
      var t := LastDrawAgrees(s, d1, d2);
      DistinctDrawsDistinctResults(t, d1, d2);
      PrefixAndLast(d1, d2, n);
    }
  }

  /** Equal shuffles of a sequence without repeats used the same last
      draw, and the shuffles of the remainder `t` are equal too. */
  lemma LastDrawAgrees<T>(s: seq<T>, d1: seq<nat>, d2: seq<nat>) returns (t: seq<T>)
    requires Distinct(s) && |s| > 1 && ValidDraws(d1, |s|) && ValidDraws(d2, |s|)
    requires Shuffled(s, d1) == Shuffled(s, d2)
    ensures d1[|s| - 1] == d2[|s| - 1]
    ensures |t| == |s| - 1 && Distinct(t)
    ensures ValidDraws(d1, |t|) && ValidDraws(d2, |t|)
    ensures Shuffled(t, d1) == Shuffled(t, d2)
  {
    var n := |s| - 1;
    var w1, w2 := Swap(s, n, d1[n]), Swap(s, n, d2[n]);
    ShuffledStep(s, d1);
    ShuffledStep(s, d2);
    LastJoin(Shuffled(s, d1), Shuffled(w1[..n], d1), w1[n]);
    LastJoin(Shuffled(s, d2), Shuffled(w2[..n], d2), w2[n]);
    assert s[d1[n]] == w1[n] == w2[n] == s[d2[n]];
    SwapPermutes(s, n, d1[n]);
    PermutationKeepsDistinct(s, w1);
    t := w1[..n];
  }

  lemma PrefixAndLast(d1: seq<nat>, d2: seq<nat>, n: nat)
    requires n < |d1| && n < |d2|
    requires d1[..n] == d2[..n] && d1[n] == d2[n]
    ensures d1[..n + 1] == d2[..n + 1]
  {
    assert d1[..n + 1] == d1[..n] + [d1[n]];
    assert d2[..n + 1] == d2[..n] + [d2[n]];
  }

  /** One swap of the loop: the shuffle of the first `i + 1` elements
      followed by the settled suffix equals the shuffle of the first `i`
      after the swap followed by the longer settled suffix. */
  lemma SwapStep<T>(w: seq<T>, d: seq<nat>, i: nat)
    requires 0 < i < |w| && ValidDraws(d, i + 1)
    ensures Shuffled(w[..i + 1], d) + w[i + 1..]
         == Shuffled(Swap(w, i, d[i])[..i], d) + Swap(w, i, d[i])[i..]
  {
    var p := w[..i + 1];
    var t := Swap(w, i, d[i]);
    assert Swap(p, i, d[i])[..i] == t[..i];
    assert Swap(p, i, d[i])[i] == t[i];
    assert t[i..] == [t[i]] + w[i + 1..];
  }

  /** `shuffleArray(array)`: copy the argument into a fresh array and run the
      swaps in place on the copy; the argument, a value here, is untouched. */
  method ShuffleArray<T>(s: seq<T>, draws: seq<nat>) returns (r: seq<T>)
    requires ValidDraws(draws, |s|)
    ensures r == Shuffled(s, draws)
    ensures |r| == |s| && multiset(r) == multiset(s)
  {
    var a := new T[|s|](k requires 0 <= k < |s| => s[k]);
    var i := |s| - 1;
    if |s| > 0 {
      assert a[..i + 1] == s && a[i + 1..] == [];
    }
    while i > 0
      invariant -1 <= i < |s| && (|s| > 0 ==> 0 <= i)
      invariant |s| > 0 ==> Shuffled(s, draws) == Shuffled(a[..i + 1], draws) + a[i + 1..]
    {
      var j := draws[i];
      ghost var whole := a[..];
      a[i], a[j] := a[j], a[i];
      assert a[..] == Swap(whole, i, j);
      SwapStep(whole, draws, i);
      i := i - 1;
    }
    r := a[..];
    if |s| > 0 {
      assert a[..1] + a[1..] == r;
    }
    ShuffledPermutes(s, draws);
  }
}
