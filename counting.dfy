/**
 * Occurrence counting over sequences, and the per-key running counter that
 * pandas computes with `groupby(keys).cumcount()`: the i-th row receives the
 * number of earlier rows that carry the same key.
 */
module Counting {

  /** Number of positions of `s` that hold `x`. */
  function Occurrences<T(==)>(s: seq<T>, x: T): (n: nat)
    ensures n <= |s|
  {
    if s == [] then 0
    else Occurrences(s[..|s| - 1], x) + (if s[|s| - 1] == x then 1 else 0)
  }

  /** `x` occurs in `s` exactly when its count is positive. */
  lemma {:induction false} OccurrencesPositive<T>(s: seq<T>, x: T)
    ensures Occurrences(s, x) > 0 <==> x in s
    decreases |s|
  {
    if s != [] {
      assert s == s[..|s| - 1] + [s[|s| - 1]];
      OccurrencesPositive(s[..|s| - 1], x);
    }
  }

  lemma {:induction false} OccurrencesAppend<T>(s: seq<T>, t: seq<T>, x: T)
    ensures Occurrences(s + t, x) == Occurrences(s, x) + Occurrences(t, x)
    decreases |t|
  {
    if t == [] {
      assert s + t == s;
    } else {
      assert (s + t)[..|s + t| - 1] == s + t[..|t| - 1];
      OccurrencesAppend(s, t[..|t| - 1], x);
    }
  }

  lemma OccurrencesSnoc<T>(s: seq<T>, y: T, x: T)
    ensures Occurrences(s + [y], x) == Occurrences(s, x) + if y == x then 1 else 0
  {
    assert (s + [y])[..|s|] == s;
  }

  /**
   * The running counter: one pass over the keys with a map from each key
   * seen so far to the index its next occurrence receives.
   */
  method CumCount<K(==)>(keys: seq<K>) returns (counts: seq<nat>)
    ensures |counts| == |keys|
    ensures forall i :: 0 <= i < |keys| ==> counts[i] == Occurrences(keys[..i], keys[i])
  {
    var next: map<K, nat> := map[];
    counts := [];
    for i := 0 to |keys|
      invariant |counts| == i
      invariant forall j :: 0 <= j < i ==> counts[j] == Occurrences(keys[..j], keys[j])
      invariant forall k :: Occurrences(keys[..i], k) == if k in next then next[k] else 0
    {
      var c := if keys[i] in next then next[keys[i]] else 0;
      var next' := next[keys[i] := c + 1];
      assert keys[..i + 1] == keys[..i] + [keys[i]];
      forall k ensures Occurrences(keys[..i + 1], k) == if k in next' then next'[k] else 0 {
        OccurrencesSnoc(keys[..i], keys[i], k);
      }
      counts := counts + [c];
      next := next';
    }
  }

  /** Within one group the counter strictly increases in row order. */
  lemma {:induction false} CountsIncreaseWithinGroup<K>(keys: seq<K>, i: nat, j: nat)
    requires i < j < |keys| && keys[i] == keys[j]
    ensures Occurrences(keys[..i], keys[i]) < Occurrences(keys[..j], keys[j])
  {
    assert keys[..j] == keys[..i] + keys[i..j];
    OccurrencesAppend(keys[..i], keys[i..j], keys[i]);
    assert keys[i..j][0] == keys[i];
    OccurrencesPositive(keys[i..j], keys[i]);
  }

  /** Every value below a row's counter was given to an earlier row of its group. */
  lemma {:induction false} EarlierCountExists<K>(keys: seq<K>, n: nat, k: K, c: nat)
    requires n <= |keys| && c < Occurrences(keys[..n], k)
    ensures exists j :: 0 <= j < n && keys[j] == k && Occurrences(keys[..j], k) == c
    decreases n
  {
    if n > 0 {
      assert keys[..n][..n - 1] == keys[..n - 1];
      if c < Occurrences(keys[..n - 1], k) {
        EarlierCountExists(keys, n - 1, k, c);
      } else {
        assert keys[n - 1] == k && Occurrences(keys[..n - 1], k) == c;
      }
    }
  }

  /** Some row of group `k` receives the counter value `c`. */
  ghost predicate CountTaken<K>(keys: seq<K>, k: K, c: nat) {
    exists i :: 0 <= i < |keys| && keys[i] == k && Occurrences(keys[..i], k) == c
  }

  /**
   * The counters of the rows of group `k` are exactly 0 .. Occurrences(keys, k) - 1:
   * each is below the group size, and each value below the size is taken.
   */
  lemma {:induction false} GroupCountsAreRange<K>(keys: seq<K>, k: K)
    ensures forall i :: 0 <= i < |keys| && keys[i] == k ==> Occurrences(keys[..i], k) < Occurrences(keys, k)
    ensures forall c :: 0 <= c < Occurrences(keys, k) ==> CountTaken(keys, k, c)
  {
    forall i | 0 <= i < |keys| && keys[i] == k
      ensures Occurrences(keys[..i], k) < Occurrences(keys, k)
    {
      assert keys == keys[..i] + keys[i..];
      OccurrencesAppend(keys[..i], keys[i..], k);
      assert keys[i..][0] == k;
      OccurrencesPositive(keys[i..], k);
    }
    forall c | 0 <= c < Occurrences(keys, k)
      ensures CountTaken(keys, k, c)
    {
      assert keys[..|keys|] == keys;
      EarlierCountExists(keys, |keys|, k, c);
    }
  }
}
