/** The sampling step of `sample_deck_for_n_notes`: how many notes are drawn
    (`min(request_n_samples, len(notes))`) and which ones (`random.sample`).
    The random draw is an input: a permutation of the deck's positions, of
    which `random.sample` returns the first `k`. */
module Sampler {
  import opened Wrappers

  /** `random.sample` raises `ValueError` for a negative sample size. */
  datatype SampleError = NegativeSampleSize

  /** `k = min(requested, deckSize)`, then the check `random.sample` makes
      before drawing (`0 <= k <= len(population)`; only the lower bound can
      fail here). */
  function SampleSize(requested: int, deckSize: nat): (r: Result<nat, SampleError>)
    ensures r.Success? <==> requested >= 0
    ensures r.Success? ==> r.value <= requested && r.value <= deckSize
    ensures r.Success? ==> r.value == requested || r.value == deckSize
  {
    var k := if requested <= deckSize then requested else deckSize;
    if k < 0 then Failure(NegativeSampleSize) else Success(k)
  }

  /** `perm` lists every position `0 .. n-1` exactly once. */
  ghost predicate IsPermutation(perm: seq<nat>, n: nat)
  {
    && |perm| == n
    && (forall i :: 0 <= i < n ==> perm[i] < n)
    && (forall i, j :: 0 <= i < j < n ==> perm[i] != perm[j])
    && (forall v :: 0 <= v < n ==> v in perm)
  }

  /** The deck reordered by `perm`. */
  function Permute<T>(deck: seq<T>, perm: seq<nat>): (r: seq<T>)
    requires IsPermutation(perm, |deck|)
    ensures |r| == |deck|
  {
    seq(|perm|, i requires 0 <= i < |perm| => deck[perm[i]])
  }

  /** Taking the largest position out of a permutation leaves a
      permutation of the positions below it. */
  lemma DropLargest(perm: seq<nat>, n: nat, j: nat)
    requires IsPermutation(perm, n) && j < n && perm[j] == n - 1
    ensures IsPermutation(perm[..j] + perm[j + 1..], n - 1)
  {
    var perm' := perm[..j] + perm[j + 1..];
    forall i | 0 <= i < n - 1
      ensures perm'[i] == (if i < j then perm[i] else perm[i + 1])
    {
    }
    forall v | 0 <= v < n - 1
      ensures v in perm'
    {
      assert v in perm;
      var p :| 0 <= p < n && perm[p] == v;
      assert perm'[if p < j then p else p - 1] == v;
    }
  }

  /** Reordering the deck without its last note by the permutation without
      its largest position is the reordered deck without that note. */
  lemma PermuteDropLargest<T>(deck: seq<T>, perm: seq<nat>, j: nat)
    requires IsPermutation(perm, |deck|) && j < |deck| && perm[j] == |deck| - 1
    ensures IsPermutation(perm[..j] + perm[j + 1..], |deck| - 1)
    ensures Permute(deck[..|deck| - 1], perm[..j] + perm[j + 1..])
              == Permute(deck, perm)[..j] + Permute(deck, perm)[j + 1..]
  {
    var n := |deck|;
    var perm' := perm[..j] + perm[j + 1..];
    DropLargest(perm, n, j);
    var p := Permute(deck, perm);
    var p' := Permute(deck[..n - 1], perm');
    forall i | 0 <= i < n - 1
      ensures p'[i] == (p[..j] + p[j + 1..])[i]
    {
      if i >= j { assert perm'[i] == perm[i + 1]; }
    }
  }

  lemma MultisetSplice<T>(p: seq<T>, j: nat)
    requires j < |p|
    ensures multiset(p) == multiset(p[..j] + p[j + 1..]) + multiset{p[j]}
  {
    assert p == p[..j] + [p[j]] + p[j + 1..];
  }

  lemma LocateLargest(perm: seq<nat>, n: nat) returns (j: nat)
    requires IsPermutation(perm, n) && n > 0
    ensures j < n && perm[j] == n - 1
  {
    assert n - 1 in perm;
    j :| 0 <= j < n && perm[j] == n - 1;
  }

  /** The induction step, on plain sequences: putting the last note of the
      deck back at position `j` of a reordering of the rest. */
  lemma SpliceLast<T>(p: seq<T>, j: nat, deck: seq<T>)
    requires j < |p| && |deck| > 0 && p[j] == deck[|deck| - 1]
    requires multiset(p[..j] + p[j + 1..]) == multiset(deck[..|deck| - 1])
    ensures multiset(p) == multiset(deck)
  {
    MultisetSplice(p, j);
    MultisetSplice(deck, |deck| - 1);
    assert deck[..|deck| - 1] + deck[|deck|..] == deck[..|deck| - 1];
  }

  /** Reordering by a permutation neither adds nor loses a note. */
  lemma {:induction false} PermuteMultiset<T>(deck: seq<T>, perm: seq<nat>)
    requires IsPermutation(perm, |deck|)
    ensures multiset(Permute(deck, perm)) == multiset(deck)
  {
    var n := |deck|;
    if n > 0 {
      var j := LocateLargest(perm, n);
      PermuteDropLargest(deck, perm, j);
      PermuteMultiset(deck[..n - 1], perm[..j] + perm[j + 1..]);
      var p := Permute(deck, perm);
      assert p[j] == deck[n - 1];
      SpliceLast(p, j, deck);
    }
  }

  /** `random.sample(deck, k)`: `k` notes at distinct positions of the deck.
      No note is drawn more often than it occurs in the deck, and a sample
      of the whole deck is a reordering of it. */
  function Sample<T>(deck: seq<T>, perm: seq<nat>, k: nat): (r: seq<T>)
    requires IsPermutation(perm, |deck|) && k <= |deck|
    ensures |r| == k
    ensures multiset(r) <= multiset(deck)
    ensures k == |deck| ==> multiset(r) == multiset(deck)
  {
    var p := Permute(deck, perm);
    PermuteMultiset(deck, perm);
    assert p == p[..k] + p[k..];
    p[..k]
  }
}
