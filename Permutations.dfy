/**
 * The Fisher-Yates shuffle of `shuffle` and `shuffleArray` (script.js,
 * identical code in both), with `Math.random` replaced by injected choices:
 * `js[i]` is the index drawn when position `i` is swapped.
 */
module Permutations {

  predicate Distinct<T(==)>(s: seq<T>) {
    forall i, j :: 0 <= i < j < |s| ==> s[i] != s[j]
  }

  /** `Math.floor(Math.random() * (i + 1))` yields some `j` with `0 <= j <= i`, for every step `i`. */
  predicate SwapChoices(js: seq<nat>, n: nat) {
    |js| == n && forall i :: 0 <= i < n ==> js[i] <= i
  }

  /** `[s[i], s[j]] = [s[j], s[i]]` on a sequence. */
  function Swap<T>(s: seq<T>, i: nat, j: nat): (r: seq<T>)
    requires i < |s| && j < |s|
    ensures |r| == |s| && r[i] == s[j] && r[j] == s[i]
    ensures forall k :: 0 <= k < |s| && k != i && k != j ==> r[k] == s[k]
  {
    s[i := s[j]][j := s[i]]
  }

  /**
   * The steps `i, i - 1, ..., 1` of the shuffle loop applied to `s`; the
   * result is a rearrangement of `s`.
   */
  function FisherYatesFrom<T>(s: seq<T>, js: seq<nat>, i: nat): (r: seq<T>)
    requires i < |s| && SwapChoices(js, |s|)
    ensures |r| == |s|
    decreases i
  {
    if i == 0 then s else FisherYatesFrom(Swap(s, i, js[i]), js, i - 1)
  }

  /** The whole shuffle, `for (i = length - 1; i > 0; i--)`. */
  function FisherYates<T>(s: seq<T>, js: seq<nat>): (r: seq<T>)
    requires SwapChoices(js, |s|)
    ensures |r| == |s|
  {
    if |s| == 0 then s else FisherYatesFrom(s, js, |s| - 1)
  }

  lemma {:induction false} FisherYatesFromPermutes<T>(s: seq<T>, js: seq<nat>, i: nat)
    requires i < |s| && SwapChoices(js, |s|)
    ensures multiset(FisherYatesFrom(s, js, i)) == multiset(s)
    decreases i
  {
    if i > 0 {
      var t := Swap(s, i, js[i]);
      FisherYatesFromPermutes(t, js, i - 1);
      assert multiset(t) == multiset(s);
    }
  }

  /** Whatever the choices, the shuffle only rearranges: same length, same elements with the same counts. */
  lemma FisherYatesPermutes<T>(s: seq<T>, js: seq<nat>)
    requires SwapChoices(js, |s|)
    ensures |FisherYates(s, js)| == |s| && multiset(FisherYates(s, js)) == multiset(s)
  {
    if |s| > 0 {
      FisherYatesFromPermutes(s, js, |s| - 1);
    }
  }

  lemma SwapKeepsDistinct<T>(s: seq<T>, i: nat, j: nat)
    requires i < |s| && j < |s| && Distinct(s)
    ensures Distinct(Swap(s, i, j))
  {
  }

  lemma {:induction false} FisherYatesFromKeepsDistinct<T>(s: seq<T>, js: seq<nat>, i: nat)
    requires i < |s| && SwapChoices(js, |s|) && Distinct(s)
    ensures Distinct(FisherYatesFrom(s, js, i))
    decreases i
  {
    if i > 0 {
      SwapKeepsDistinct(s, i, js[i]);
      FisherYatesFromKeepsDistinct(Swap(s, i, js[i]), js, i - 1);
    }
  }

  /** Shuffling a sequence without repeats leaves it without repeats, whatever the choices. */
  lemma FisherYatesKeepsDistinct<T>(s: seq<T>, js: seq<nat>)
    requires SwapChoices(js, |s|) && Distinct(s)
    ensures Distinct(FisherYates(s, js))
  {
    if |s| > 0 {
      FisherYatesFromKeepsDistinct(s, js, |s| - 1);
    }
  }

  /** Every element of a shuffled sequence was in it before, and every old element is still there. */
  lemma FisherYatesSameElements<T>(s: seq<T>, js: seq<nat>, x: T)
    requires SwapChoices(js, |s|)
    ensures x in FisherYates(s, js) <==> x in s
  {
    var r := FisherYates(s, js);
    FisherYatesPermutes(s, js);
    assert x in r <==> x in multiset(r);
    assert x in s <==> x in multiset(s);
  }

  /** The destructuring swap `[a[i], a[j]] = [a[j], a[i]]`. */
  method SwapInPlace<T>(a: array<T>, i: nat, j: nat)
    requires i < a.Length && j < a.Length
    modifies a
    ensures a[..] == Swap(old(a[..]), i, j)
  {
    var t := a[i];
    a[i] := a[j];
    a[j] := t;
  }

  /** `shuffle(array)` / `shuffleArray(arr)`: Fisher-Yates in place. */
  method Shuffle<T>(a: array<T>, js: seq<nat>)
    requires SwapChoices(js, a.Length)
    modifies a
    ensures a[..] == FisherYates(old(a[..]), js)
  {
    if a.Length == 0 {
      return;
    }
    var i := a.Length - 1;
    while i > 0
      invariant 0 <= i < a.Length
      invariant FisherYatesFrom(a[..], js, i) == FisherYates(old(a[..]), js)
    {
      SwapInPlace(a, i, js[i]);
      i := i - 1;
    }
  }
}
