/**
 * First occurrences in a sequence, as `Stream.distinct()` keeps them: in encounter
 * order, one element per key. The pack transforms use the same notion with the
 * content digest as key (the assets a converter runs on), the palette step with
 * the colour itself as key.
 */
module Sequences {

  /** Some element of `s` has key `k`. */
  predicate HasKey<T, K(==)>(s: seq<T>, key: T -> K, k: K)
  {
    exists i :: 0 <= i < |s| && key(s[i]) == k
  }

  /** The elements of `s` whose key has not occurred earlier in `s`, in the order of `s`. */
  function DistinctBy<T, K(==)>(s: seq<T>, key: T -> K): seq<T>
    decreases |s|
  {
    if s == [] then []
    else
      var d := DistinctBy(s[..|s| - 1], key);
      if HasKey(d, key, key(s[|s| - 1])) then d else d + [s[|s| - 1]]
  }

  /** The position of the first element of `s` whose key is `k`. */
  ghost function FirstIndexBy<T, K>(s: seq<T>, key: T -> K, k: K): (j: nat)
    requires HasKey(s, key, k)
    ensures j < |s| && key(s[j]) == k
    ensures forall i :: 0 <= i < j ==> key(s[i]) != k
    decreases |s|
  {
    var prefix := s[..|s| - 1];
    if HasKey(prefix, key, k) then FirstIndexBy(prefix, key, k) else |s| - 1
  }

  /** No two elements of `s` share a key. */
  ghost predicate KeysUnique<T, K>(s: seq<T>, key: T -> K)
  {
    forall i, j :: 0 <= i < j < |s| ==> key(s[i]) != key(s[j])
  }

  lemma HasKeyAppend<T, K>(s: seq<T>, x: T, key: T -> K, k: K)
    ensures HasKey(s + [x], key, k) <==> HasKey(s, key, k) || key(x) == k
  {
    if HasKey(s, key, k) {
      var i :| 0 <= i < |s| && key(s[i]) == k;
      assert (s + [x])[i] == s[i];
    }
    if HasKey(s + [x], key, k) && key(x) != k {
      var i :| 0 <= i < |s + [x]| && key((s + [x])[i]) == k;
      assert (s + [x])[i] == s[i];
    }
    if key(x) == k {
      assert (s + [x])[|s|] == x;
    }
  }

  /** Extending `s` by one element extends its first occurrences by it when its key is new. */
  lemma DistinctByAppend<T, K>(s: seq<T>, x: T, key: T -> K)
    ensures DistinctBy(s + [x], key)
            == if HasKey(DistinctBy(s, key), key, key(x)) then DistinctBy(s, key) else DistinctBy(s, key) + [x]
  {
    assert (s + [x])[..|s|] == s;
  }

  /** The first index of a key that already occurs in a prefix is found in that prefix. */
  lemma FirstIndexOfPrefix<T, K>(s: seq<T>, key: T -> K, n: nat, k: K)
    requires n <= |s| && HasKey(s[..n], key, k)
    ensures HasKey(s, key, k)
    ensures FirstIndexBy(s[..n], key, k) == FirstIndexBy(s, key, k)
  {
    var a := FirstIndexBy(s[..n], key, k);
    assert s[..n][a] == s[a];
    assert forall i :: 0 <= i < a ==> s[..n][i] == s[i];
  }

  /** `DistinctBy` has exactly the keys of its input. */
  lemma {:induction false} DistinctBySameKeys<T, K>(s: seq<T>, key: T -> K, k: K)
    ensures HasKey(DistinctBy(s, key), key, k) <==> HasKey(s, key, k)
    decreases |s|
  {
    if s != [] {
      var n := |s| - 1;
      assert s == s[..n] + [s[n]];
      DistinctBySameKeys(s[..n], key, k);
      HasKeyAppend(s[..n], s[n], key, k);
      HasKeyAppend(DistinctBy(s[..n], key), s[n], key, k);
    }
  }

  /** `DistinctBy` keeps at most one element per key, each an element of the input. */
  lemma {:induction false} DistinctByUnique<T, K>(s: seq<T>, key: T -> K)
    ensures var d := DistinctBy(s, key);
      |d| <= |s| && KeysUnique(d, key) && forall i :: 0 <= i < |d| ==> d[i] in s
    decreases |s|
  {
    if s != [] {
      var n := |s| - 1;
      DistinctByUnique(s[..n], key);
      var dp := DistinctBy(s[..n], key);
      if !HasKey(dp, key, key(s[n])) {
        var d := dp + [s[n]];
        forall i, j | 0 <= i < j < |d| ensures key(d[i]) != key(d[j]) {
          if j == |dp| {
            assert d[i] == dp[i];
          }
        }
        forall i | 0 <= i < |d| ensures d[i] in s {
          if i < |dp| {
            assert dp[i] in s[..n];
          }
        }
      } else {
        forall i | 0 <= i < |dp| ensures dp[i] in s {
          assert dp[i] in s[..n];
        }
      }
    }
  }

  /**
   * Each element `DistinctBy` keeps is the first element of the input with its key,
   * and they come in the order in which their keys first occur.
   */
  lemma {:induction false} DistinctByFirstOccurrences<T, K>(s: seq<T>, key: T -> K)
    ensures forall j :: 0 <= j < |DistinctBy(s, key)| ==> HasKey(s, key, key(DistinctBy(s, key)[j]))
    ensures forall j :: 0 <= j < |DistinctBy(s, key)| ==>
      DistinctBy(s, key)[j] == s[FirstIndexBy(s, key, key(DistinctBy(s, key)[j]))]
    ensures forall i, j :: 0 <= i < j < |DistinctBy(s, key)| ==>
      FirstIndexBy(s, key, key(DistinctBy(s, key)[i])) < FirstIndexBy(s, key, key(DistinctBy(s, key)[j]))
    decreases |s|
  {
    if s != [] {
      var n := |s| - 1;
      var prefix := s[..n];
      DistinctByFirstOccurrences(prefix, key);
      var dp := DistinctBy(prefix, key);
      var d := DistinctBy(s, key);
      forall j | 0 <= j < |dp|
        ensures HasKey(prefix, key, key(dp[j]))
        ensures HasKey(s, key, key(dp[j]))
        ensures FirstIndexBy(s, key, key(dp[j])) == FirstIndexBy(prefix, key, key(dp[j]))
        ensures dp[j] == s[FirstIndexBy(s, key, key(dp[j]))]
      {
        assert HasKey(prefix, key, key(dp[j]));
        FirstIndexOfPrefix(s, key, n, key(dp[j]));
        assert prefix[FirstIndexBy(prefix, key, key(dp[j]))] == s[FirstIndexBy(prefix, key, key(dp[j]))];
      }
      if !HasKey(dp, key, key(s[n])) {
        DistinctBySameKeys(prefix, key, key(s[n]));
        assert HasKey(s, key, key(s[n]));
        assert FirstIndexBy(s, key, key(s[n])) == n;
        assert d == dp + [s[n]];
        forall i | 0 <= i < |dp| ensures FirstIndexBy(s, key, key(d[i])) < n {
          assert d[i] == dp[i];
        }
      }
    }
  }
}
