/**
 * Python's `sorted(s, key=key, reverse=True)`: a stable sort into non-increasing key
 * order. Both `Counter.most_common` and the tag table's descending sort are built on it.
 */
module Sorting {
  /** Keys never increase from left to right. */
  predicate SortedDesc<T>(s: seq<T>, key: T -> int) {
    forall i, j :: 0 <= i < j < |s| ==> key(s[i]) >= key(s[j])
  }

  /** The first position at or after `i` whose key is smaller than `x`'s: in a sorted
      sequence, `x` goes there, after every element whose key is at least its own. */
  function InsertPos<T>(t: seq<T>, x: T, key: T -> int, i: nat): (k: nat)
    requires i <= |t|
    ensures i <= k <= |t|
    ensures forall m :: i <= m < k ==> key(t[m]) >= key(x)
    ensures k == |t| || key(t[k]) < key(x)
    decreases |t| - i
  {
    if i == |t| || key(t[i]) < key(x) then i else InsertPos(t, x, key, i + 1)
  }

  lemma InsertKeepsSorted<T>(t: seq<T>, x: T, key: T -> int, k: nat)
    requires SortedDesc(t, key) && k == InsertPos(t, x, key, 0)
    ensures SortedDesc(t[..k] + [x] + t[k..], key)
  {
    var r := t[..k] + [x] + t[k..];
    forall i, j | 0 <= i < j < |r|
      ensures key(r[i]) >= key(r[j])
    {
      if j < k {
        assert r[i] == t[i] && r[j] == t[j];
      } else if j == k {
        assert r[i] == t[i];
      } else if i == k {
        assert r[j] == t[j - 1] && key(t[k]) >= key(t[j - 1]);
      } else if i < k {
        assert r[i] == t[i] && r[j] == t[j - 1];
      } else {
        assert r[i] == t[i - 1] && r[j] == t[j - 1];
      }
    }
  }

  /** Inserting one element into a sorted sequence. */
  function Insert<T>(t: seq<T>, x: T, key: T -> int): (r: seq<T>)
    requires SortedDesc(t, key)
    ensures |r| == |t| + 1
    ensures SortedDesc(r, key)
  {
    var k := InsertPos(t, x, key, 0);
    InsertKeepsSorted(t, x, key, k);
    t[..k] + [x] + t[k..]
  }

  /** `sorted(s, key=key, reverse=True)`, as an insertion sort over the elements in order. */
  function SortDesc<T>(s: seq<T>, key: T -> int): (r: seq<T>)
    ensures |r| == |s|
    ensures SortedDesc(r, key)
  {
    if s == [] then [] else Insert(SortDesc(s[..|s| - 1], key), s[|s| - 1], key)
  }

  /** Where `Insert` puts the new element: after every key at least its own and before
      every smaller one. */
  lemma InsertShape<T>(t: seq<T>, x: T, key: T -> int) returns (k: nat)
    requires SortedDesc(t, key)
    ensures k <= |t| && Insert(t, x, key) == t[..k] + [x] + t[k..]
    ensures forall m :: 0 <= m < k ==> key(t[m]) >= key(x)
    ensures forall m :: k <= m < |t| ==> key(t[m]) < key(x)
  {
    k := InsertPos(t, x, key, 0);
    forall m | k <= m < |t|
      ensures key(t[m]) < key(x)
    {
      assert key(t[k]) >= key(t[m]);
    }
  }

  /** `r` is `s` rearranged by `p` (output position to input position), one-to-one and
      onto, with elements of equal key in their input order. */
  ghost predicate StablyRearranges<T>(r: seq<T>, s: seq<T>, p: seq<nat>, key: T -> int) {
    && |r| == |s| == |p|
    && (forall a :: 0 <= a < |p| ==> p[a] < |s| && r[a] == s[p[a]])
    && (forall a, b :: 0 <= a < b < |p| ==> p[a] != p[b])
    && (forall j :: 0 <= j < |s| ==> j in p)
    && (forall a, b :: 0 <= a < b < |p| && key(r[a]) == key(r[b]) ==> p[a] < p[b])
  }

  /** Inserting the next element extends a stable rearrangement by one. */
  lemma InsertRearranges<T>(t: seq<T>, init: seq<T>, pt: seq<nat>, x: T, key: T -> int)
    returns (p: seq<nat>)
    requires SortedDesc(t, key) && StablyRearranges(t, init, pt, key)
    ensures StablyRearranges(Insert(t, x, key), init + [x], p, key)
  {
    var k := InsertShape(t, x, key);
    var r := t[..k] + [x] + t[k..];
    p := pt[..k] + [|init|] + pt[k..];
    forall a | 0 <= a < k
      ensures r[a] == t[a] && p[a] == pt[a]
    {
    }
    forall a | k < a < |r|
      ensures r[a] == t[a - 1] && p[a] == pt[a - 1]
    {
    }
    RearrangeStep(t, init, pt, x, key, k, r, p);
  }

  /** The insertion step stated on positions alone. */
  lemma RearrangeStep<T>(t: seq<T>, init: seq<T>, pt: seq<nat>, x: T, key: T -> int, k: nat,
                         r: seq<T>, p: seq<nat>)
    requires StablyRearranges(t, init, pt, key)
    requires k <= |t| && |r| == |p| == |t| + 1
    requires forall m :: k <= m < |t| ==> key(t[m]) < key(x)
    requires forall a :: 0 <= a < k ==> r[a] == t[a] && p[a] == pt[a]
    requires r[k] == x && p[k] == |init|
    requires forall a :: k < a < |r| ==> r[a] == t[a - 1] && p[a] == pt[a - 1]
    ensures StablyRearranges(r, init + [x], p, key)
  {
    var n, s := |init|, init + [x];
    forall a | 0 <= a < |p|
      ensures p[a] < |s| && r[a] == s[p[a]]
    {
      if a < k {
        assert s[pt[a]] == init[pt[a]];
      } else if a > k {
        assert s[pt[a - 1]] == init[pt[a - 1]];
      }
    }
    forall a, b | 0 <= a < b < |p|
      ensures p[a] != p[b]
    {
      if b > k && a > k {
        assert pt[a - 1] != pt[b - 1];
      } else if b > k && a < k {
        assert pt[a] != pt[b - 1];
      }
    }
    forall j | 0 <= j < |s|
      ensures j in p
    {
      if j < n {
        assert j in pt;
        var a :| 0 <= a < |pt| && pt[a] == j;
        if a < k {
          assert p[a] == j;
        } else {
          assert p[a + 1] == j;
        }
      } else {
        assert p[k] == j;
      }
    }
    forall a, b | 0 <= a < b < |p| && key(r[a]) == key(r[b])
      ensures p[a] < p[b]
    {
      if b > k && a > k {
        assert key(t[a - 1]) == key(t[b - 1]);
      } else if b > k && a < k {
        assert key(t[a]) == key(t[b - 1]);
      }
    }
  }

  /** The sort rearranges `s` and nothing more, and it is stable: elements with equal
      keys keep their input order. */
  lemma {:induction false} SortDescStable<T>(s: seq<T>, key: T -> int) returns (p: seq<nat>)
    ensures StablyRearranges(SortDesc(s, key), s, p, key)
  {
    if s == [] {
      p := [];
    } else {
      var n := |s| - 1;
      var pt := SortDescStable(s[..n], key);
      p := InsertRearranges(SortDesc(s[..n], key), s[..n], pt, s[n], key);
      assert s[..n] + [s[n]] == s;
    }
  }

  /** Inserting adds the element and nothing else. */
  lemma InsertMultiset<T>(t: seq<T>, x: T, key: T -> int)
    requires SortedDesc(t, key)
    ensures multiset(Insert(t, x, key)) == multiset(t) + multiset{x}
  {
    var k := InsertShape(t, x, key);
    assert t == t[..k] + t[k..];
  }

  /** The sort is a permutation. */
  lemma {:induction false} SortDescMultiset<T>(s: seq<T>, key: T -> int)
    ensures multiset(SortDesc(s, key)) == multiset(s)
  {
    if s != [] {
      var n := |s| - 1;
      SortDescMultiset(s[..n], key);
      InsertMultiset(SortDesc(s[..n], key), s[n], key);
      assert s == s[..n] + [s[n]];
    }
  }
}
