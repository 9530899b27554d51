/** The scan both of the dashboard's list filters perform: walk a sequence in order, keep
    an item when it passes an eligibility test and its key has not been kept before, and
    remember the keys kept so far in a set. The geocode suggestions use it with every item
    eligible and the lower-cased "name-country" key; the forecast strip uses it with "not
    today's date" as the test and the weekday abbreviation as the key. */
module KeyScan {

  /** The keys carried by the items of `d`. */
  function KeysOf<T, K(==)>(d: seq<T>, key: T -> K): set<K>
  {
    set i | 0 <= i < |d| :: key(d[i])
  }

  /** The keys carried by the eligible items of `s`. */
  ghost function EligibleKeys<T, K>(s: seq<T>, ok: T -> bool, key: T -> K): set<K>
  {
    set i | 0 <= i < |s| && ok(s[i]) :: key(s[i])
  }

  /** Item `i` is eligible and no earlier eligible item has its key. */
  ghost predicate IsFirst<T, K>(s: seq<T>, ok: T -> bool, key: T -> K, i: nat)
    requires i < |s|
  {
    ok(s[i]) && forall j :: 0 <= j < i && ok(s[j]) ==> key(s[j]) != key(s[i])
  }

  /** No two items of `d` share a key. */
  ghost predicate DistinctKeys<T, K>(d: seq<T>, key: T -> K)
  {
    forall i, j :: 0 <= i < j < |d| ==> key(d[i]) != key(d[j])
  }

  /** `a` is `b` with some items left out: there are strictly increasing positions of `b`
      holding the items of `a` in order. */
  ghost predicate IsSubsequence<T>(a: seq<T>, b: seq<T>)
  {
    exists idx: seq<nat> ::
      && |idx| == |a|
      && (forall k :: 0 <= k < |idx| ==> idx[k] < |b| && a[k] == b[idx[k]])
      && (forall k, l :: 0 <= k < l < |idx| ==> idx[k] < idx[l])
  }

  /** The scan itself, one item at a time from the left, as a loop with a `seen` set runs
      it: the result for `s` is the result for all but its last item, extended by that
      item when it is eligible and its key is not yet among the kept keys. */
  function Firsts<T, K(==)>(s: seq<T>, ok: T -> bool, key: T -> K): (d: seq<T>)
    ensures |d| <= |s|
    decreases |s|
  {
    if s == [] then []
    else
      var prev := Firsts(s[..|s| - 1], ok, key);
      var x := s[|s| - 1];
      if ok(x) && key(x) !in KeysOf(prev, key) then prev + [x] else prev
  }

  /** The position of the first eligible item carrying key `k`. */
  ghost function FirstIndex<T, K>(s: seq<T>, ok: T -> bool, key: T -> K, k: K): (i: nat)
    requires k in EligibleKeys(s, ok, key)
    ensures i < |s| && key(s[i]) == k && IsFirst(s, ok, key, i)
    decreases |s|
  {
    if ok(s[0]) && key(s[0]) == k then 0
    else
      var j :| 0 <= j < |s| && ok(s[j]) && key(s[j]) == k;
      assert s[1..][j - 1] == s[j];
      1 + FirstIndex(s[1..], ok, key, k)
  }

  lemma KeysOfSnoc<T, K>(d: seq<T>, x: T, key: T -> K)
    ensures KeysOf(d + [x], key) == KeysOf(d, key) + {key(x)}
  {
    var e := d + [x];
    forall y | y in KeysOf(d, key) ensures y in KeysOf(e, key) {
      var i :| 0 <= i < |d| && key(d[i]) == y;
      assert e[i] == d[i];
    }
    assert e[|d|] == x;
  }

  lemma EligibleKeysSnoc<T, K>(p: seq<T>, x: T, ok: T -> bool, key: T -> K)
    ensures EligibleKeys(p + [x], ok, key)
         == EligibleKeys(p, ok, key) + (if ok(x) then {key(x)} else {})
  {
    var s := p + [x];
    forall y | y in EligibleKeys(p, ok, key) ensures y in EligibleKeys(s, ok, key) {
      var i :| 0 <= i < |p| && ok(p[i]) && key(p[i]) == y;
      assert s[i] == p[i];
    }
    assert s[|p|] == x;
    forall y | y in EligibleKeys(s, ok, key)
      ensures y in EligibleKeys(p, ok, key) || (ok(x) && y == key(x))
    {
      var i :| 0 <= i < |s| && ok(s[i]) && key(s[i]) == y;
      if i < |p| { assert s[i] == p[i]; }
    }
  }

  /** Appending an item does not move the first occurrence of a key already present. */
  lemma FirstIndexSnoc<T, K>(p: seq<T>, x: T, ok: T -> bool, key: T -> K, k: K)
    requires k in EligibleKeys(p, ok, key)
    ensures k in EligibleKeys(p + [x], ok, key)
    ensures FirstIndex(p + [x], ok, key, k) == FirstIndex(p, ok, key, k)
  {
    EligibleKeysSnoc(p, x, ok, key);
    var s := p + [x];
    var i := FirstIndex(p, ok, key, k);
    var f := FirstIndex(s, ok, key, k);
    assert s[i] == p[i];
  }

  /** An eligible item whose key is new is that key's first occurrence. */
  lemma FirstIndexLast<T, K>(p: seq<T>, x: T, ok: T -> bool, key: T -> K)
    requires ok(x) && key(x) !in EligibleKeys(p, ok, key)
    ensures key(x) in EligibleKeys(p + [x], ok, key)
    ensures FirstIndex(p + [x], ok, key, key(x)) == |p|
  {
    EligibleKeysSnoc(p, x, ok, key);
    var s := p + [x];
    var f := FirstIndex(s, ok, key, key(x));
  }

  /** The scan keeps only eligible items, never two with one key, and every key that an
      eligible item of the input carries. */
  lemma {:induction false} FirstsKeys<T, K>(s: seq<T>, ok: T -> bool, key: T -> K)
    ensures forall k :: 0 <= k < |Firsts(s, ok, key)| ==> ok(Firsts(s, ok, key)[k])
    ensures DistinctKeys(Firsts(s, ok, key), key)
    ensures KeysOf(Firsts(s, ok, key), key) == EligibleKeys(s, ok, key)
    decreases |s|
  {
    if s != [] {
      var p, x := s[..|s| - 1], s[|s| - 1];
      assert s == p + [x];
      FirstsKeys(p, ok, key);
      EligibleKeysSnoc(p, x, ok, key);
      var prev := Firsts(p, ok, key);
      if ok(x) && key(x) !in KeysOf(prev, key) {
        KeysOfSnoc(prev, x, key);
        var d := prev + [x];
        forall i, j | 0 <= i < j < |d| ensures key(d[i]) != key(d[j]) {
          if j == |prev| {
            assert d[i] == prev[i];
          } else {
            assert d[i] == prev[i] && d[j] == prev[j];
          }
        }
      }
    }
  }

  /** Each kept item is the first eligible occurrence of its key in the input, and the
      kept items appear in the order of those first occurrences. */
  lemma {:induction false} FirstsPositions<T, K>(s: seq<T>, ok: T -> bool, key: T -> K)
    ensures var d := Firsts(s, ok, key);
      forall k :: 0 <= k < |d| ==>
        key(d[k]) in EligibleKeys(s, ok, key) && d[k] == s[FirstIndex(s, ok, key, key(d[k]))]
    ensures var d := Firsts(s, ok, key);
      forall k, l :: 0 <= k < l < |d| ==>
        key(d[k]) in EligibleKeys(s, ok, key) && key(d[l]) in EligibleKeys(s, ok, key) &&
        FirstIndex(s, ok, key, key(d[k])) < FirstIndex(s, ok, key, key(d[l]))
    decreases |s|
  {
    if s != [] {
      var p, x := s[..|s| - 1], s[|s| - 1];
      assert s == p + [x];
      FirstsPositions(p, ok, key);
      FirstsKeys(p, ok, key);
      var prev := Firsts(p, ok, key);
      var d := Firsts(s, ok, key);
      forall k | 0 <= k < |prev|
        ensures key(prev[k]) in EligibleKeys(s, ok, key)
        ensures FirstIndex(s, ok, key, key(prev[k])) == FirstIndex(p, ok, key, key(prev[k]))
        ensures FirstIndex(p, ok, key, key(prev[k])) < |p|
        ensures prev[k] == s[FirstIndex(s, ok, key, key(prev[k]))]
      {
        FirstIndexSnoc(p, x, ok, key, key(prev[k]));
        assert s[FirstIndex(p, ok, key, key(prev[k]))] == p[FirstIndex(p, ok, key, key(prev[k]))];
      }
      if ok(x) && key(x) !in KeysOf(prev, key) {
        FirstIndexLast(p, x, ok, key);
        assert d == prev + [x];
        assert d[|prev|] == x;
        assert forall k :: 0 <= k < |prev| ==> d[k] == prev[k];
      }
    }
  }

  /** Two kept items appear in the input in the order in which they were kept. */
  lemma FirstsOrder<T, K>(s: seq<T>, ok: T -> bool, key: T -> K, k: nat, l: nat)
    requires k < l < |Firsts(s, ok, key)|
    ensures var d := Firsts(s, ok, key);
      key(d[k]) in EligibleKeys(s, ok, key) && key(d[l]) in EligibleKeys(s, ok, key) &&
      FirstIndex(s, ok, key, key(d[k])) < FirstIndex(s, ok, key, key(d[l]))
  {
    FirstsPositions(s, ok, key);
  }

  /** The kept items form an order-preserving subsequence of the input. */
  lemma FirstsSubsequence<T, K>(s: seq<T>, ok: T -> bool, key: T -> K)
    ensures IsSubsequence(Firsts(s, ok, key), s)
  {
    var d := Firsts(s, ok, key);
    FirstsPositions(s, ok, key);
    forall k | 0 <= k < |d| ensures key(d[k]) in EligibleKeys(s, ok, key) && d[k] == s[FirstIndex(s, ok, key, key(d[k]))] {
      assert 0 <= k < |Firsts(s, ok, key)|;
    }
    var idx := seq(|d|, k requires 0 <= k < |d| && key(d[k]) in EligibleKeys(s, ok, key) => FirstIndex(s, ok, key, key(d[k])));
    assert forall k :: 0 <= k < |idx| ==> idx[k] < |s| && d[k] == s[idx[k]];
    forall k, l | 0 <= k < l < |idx| ensures idx[k] < idx[l] {
      FirstsOrder(s, ok, key, k, l);
      assert idx[k] == FirstIndex(s, ok, key, key(d[k]));
      assert idx[l] == FirstIndex(s, ok, key, key(d[l]));
    }
  }

  /** Items with pairwise distinct keys carry as many keys as there are items. */
  lemma {:induction false} DistinctKeysCount<T, K>(d: seq<T>, key: T -> K)
    requires DistinctKeys(d, key)
    ensures |KeysOf(d, key)| == |d|
    decreases |d|
  {
    if d != [] {
      var p, x := d[..|d| - 1], d[|d| - 1];
      assert d == p + [x];
      assert DistinctKeys(p, key) by {
        forall i, j | 0 <= i < j < |p| ensures key(p[i]) != key(p[j]) {
          assert p[i] == d[i] && p[j] == d[j];
        }
      }
      DistinctKeysCount(p, key);
      KeysOfSnoc(p, x, key);
    }
  }

  /** One item is kept per distinct eligible key. */
  lemma FirstsLength<T, K>(s: seq<T>, ok: T -> bool, key: T -> K)
    ensures |Firsts(s, ok, key)| == |EligibleKeys(s, ok, key)|
  {
    FirstsKeys(s, ok, key);
    DistinctKeysCount(Firsts(s, ok, key), key);
  }

  /** Scanning a prefix of the input keeps a prefix of what scanning all of it keeps: the
      scan decides each item from the items before it alone. */
  lemma {:induction false} FirstsPrefix<T, K>(s: seq<T>, m: nat, ok: T -> bool, key: T -> K)
    requires m <= |s|
    ensures Firsts(s[..m], ok, key) <= Firsts(s, ok, key)
    decreases |s| - m
  {
    if m < |s| {
      FirstsPrefix(s, m + 1, ok, key);
      assert s[..m + 1][..m] == s[..m];
      assert Firsts(s[..m], ok, key) <= Firsts(s[..m + 1], ok, key);
    } else {
      assert s[..m] == s;
    }
  }
  /** A sequence never carries more keys than it has items. */
  lemma {:induction false} KeysOfSize<T, K>(d: seq<T>, key: T -> K)
    ensures |KeysOf(d, key)| <= |d|
    decreases |d|
  {
    if d != [] {
      var p, x := d[..|d| - 1], d[|d| - 1];
      assert d == p + [x];
      KeysOfSize(p, key);
      KeysOfSnoc(p, x, key);
    }
  }

  /** Conversely, items that carry as many keys as there are items have distinct keys. */
  lemma CountedKeysAreDistinct<T, K>(d: seq<T>, key: T -> K)
    requires |KeysOf(d, key)| == |d|
    ensures DistinctKeys(d, key)
  {
    if !DistinctKeys(d, key) {
      var i, j :| 0 <= i < j < |d| && key(d[i]) == key(d[j]);
      var e := d[..j] + d[j + 1..];
      assert KeysOf(d, key) <= KeysOf(e, key) by {
        forall y | y in KeysOf(d, key) ensures y in KeysOf(e, key) {
          var n :| 0 <= n < |d| && key(d[n]) == y;
          if n < j {
            assert e[n] == d[n];
          } else if n == j {
            assert e[i] == d[i];
          } else {
            assert e[n - 1] == d[n];
          }
        }
      }
      assert KeysOf(e, key) <= KeysOf(d, key) by {
        forall y | y in KeysOf(e, key) ensures y in KeysOf(d, key) {
          var n :| 0 <= n < |e| && key(e[n]) == y;
          if n < j {
            assert e[n] == d[n];
          } else {
            assert e[n] == d[n + 1];
          }
        }
      }
      assert KeysOf(d, key) == KeysOf(e, key);
      KeysOfSize(e, key);
    }
  }

  /** Rearranging items keeps the set of keys and keeps the keys distinct. */
  lemma PermutationKeepsKeys<T, K>(a: seq<T>, b: seq<T>, key: T -> K)
    requires multiset(a) == multiset(b)
    ensures KeysOf(a, key) == KeysOf(b, key)
    ensures DistinctKeys(a, key) ==> DistinctKeys(b, key)
  {
    forall y | y in KeysOf(a, key) ensures y in KeysOf(b, key) {
      var i :| 0 <= i < |a| && key(a[i]) == y;
      assert a[i] in multiset(b);
      var j :| 0 <= j < |b| && b[j] == a[i];
    }
    forall y | y in KeysOf(b, key) ensures y in KeysOf(a, key) {
      var i :| 0 <= i < |b| && key(b[i]) == y;
      assert b[i] in multiset(a);
      var j :| 0 <= j < |a| && a[j] == b[i];
    }
    assert |a| == |multiset(a)| == |b|;
    assert KeysOf(a, key) == KeysOf(b, key);
    if DistinctKeys(a, key) {
      DistinctKeysCount(a, key);
      assert |KeysOf(b, key)| == |b|;
      CountedKeysAreDistinct(b, key);
    }
  }
  /** A prefix of a subsequence is still a subsequence. */
  lemma SubsequencePrefix<T>(a: seq<T>, b: seq<T>, n: nat)
    requires IsSubsequence(a, b) && n <= |a|
    ensures IsSubsequence(a[..n], b)
  {
    var idx: seq<nat> :|
      && |idx| == |a|
      && (forall k :: 0 <= k < |idx| ==> idx[k] < |b| && a[k] == b[idx[k]])
      && (forall k, l :: 0 <= k < l < |idx| ==> idx[k] < idx[l]);
    var short := idx[..n];
    assert forall k :: 0 <= k < |short| ==> short[k] == idx[k] && a[..n][k] == a[k];
  }
}
