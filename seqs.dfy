/**
 * Two list shapes the pipeline uses again and again: concatenating a sequence of
 * sequences (every "for each item, extend the output" loop) and keeping the elements
 * that pass a test, in order (every `[x for x in xs if keep(x)]` and every boolean
 * row mask).
 */
module Seqs {
  import opened Wrappers

  /** `parts[0] + parts[1] + ...`, built from the right so that one more part extends it. */
  function Concat<T>(parts: seq<seq<T>>): (r: seq<T>) {
    if parts == [] then [] else Concat(parts[..|parts| - 1]) + parts[|parts| - 1]
  }

  /** The concatenation of two runs of parts is the concatenation of their results. */
  lemma {:induction false} ConcatAppend<T>(a: seq<seq<T>>, b: seq<seq<T>>)
    ensures Concat(a + b) == Concat(a) + Concat(b)
    decreases |b|
  {
    if b == [] {
      assert a + b == a;
    } else {
      var b' := b[..|b| - 1];
      assert (a + b)[..|a + b| - 1] == a + b';
      ConcatAppend(a, b');
    }
  }

  /** Extending by one part. */
  lemma ConcatSnoc<T>(parts: seq<seq<T>>, i: nat)
    requires i < |parts|
    ensures Concat(parts[..i + 1]) == Concat(parts[..i]) + parts[i]
  {
    assert parts[..i + 1][..i] == parts[..i];
  }

  /** Parts of at most one element give at most one element each. */
  lemma {:induction false} ConcatLength<T>(parts: seq<seq<T>>)
    requires forall k :: 0 <= k < |parts| ==> |parts[k]| <= 1
    ensures |Concat(parts)| <= |parts|
  {
    if parts != [] {
      ConcatLength(parts[..|parts| - 1]);
    }
  }

  /** Empty parts give nothing. */
  lemma {:induction false} ConcatEmpty<T>(parts: seq<seq<T>>)
    requires forall k :: 0 <= k < |parts| ==> parts[k] == []
    ensures Concat(parts) == []
  {
    if parts != [] {
      ConcatEmpty(parts[..|parts| - 1]);
    }
  }

  /** With parts of at most one element, each element of the result comes from its own
      part, in increasing order of parts. */
  lemma {:induction false} ConcatOrigin<T>(parts: seq<seq<T>>) returns (origin: seq<nat>)
    requires forall k :: 0 <= k < |parts| ==> |parts[k]| <= 1
    ensures |origin| == |Concat(parts)|
    ensures forall i :: 0 <= i < |origin| ==> origin[i] < |parts|
    ensures forall i, j :: 0 <= i < j < |origin| ==> origin[i] < origin[j]
    ensures forall i :: 0 <= i < |origin| ==> parts[origin[i]] == [Concat(parts)[i]]
  {
    if parts == [] {
      origin := [];
    } else {
      var init := parts[..|parts| - 1];
      var o := ConcatOrigin(init);
      var last := |parts| - 1;
      var c, ci := Concat(parts), Concat(init);
      assert c == ci + parts[last];
      if parts[last] == [] {
        origin := o;
        forall i | 0 <= i < |origin| ensures parts[origin[i]] == [c[i]] {
          assert parts[o[i]] == init[o[i]];
        }
      } else {
        origin := o + [last];
        forall i | 0 <= i < |origin| ensures origin[i] < |parts| && parts[origin[i]] == [c[i]] {
          if i < |o| {
            assert origin[i] == o[i] && parts[o[i]] == init[o[i]] && c[i] == ci[i];
          } else {
            assert origin[i] == last && c[i] == parts[last][0];
          }
        }
        forall i, j | 0 <= i < j < |origin| ensures origin[i] < origin[j] {
          if j < |o| {
            assert origin[i] == o[i] && origin[j] == o[j];
          } else {
            assert origin[i] == o[i] < |init|;
          }
        }
      }
    }
  }

  // ---------------------------------------------------------------- mapping

  /** `f(xs[0]) + f(xs[1]) + ...`: the loop that extends its output by `f` of each item,
      built from the right. */
  function FlatMap<T, U>(xs: seq<T>, f: T -> seq<U>): (r: seq<U>) {
    if xs == [] then [] else FlatMap(xs[..|xs| - 1], f) + f(xs[|xs| - 1])
  }

  /** One more item extends the output by its part. */
  lemma FlatMapSnoc<T, U>(xs: seq<T>, f: T -> seq<U>, i: nat)
    requires i < |xs|
    ensures FlatMap(xs[..i + 1], f) == FlatMap(xs[..i], f) + f(xs[i])
  {
    assert xs[..i + 1][..i] == xs[..i];
  }

  /** Mapping two runs of items is mapping each, one after the other. */
  lemma {:induction false} FlatMapAppend<T, U>(a: seq<T>, b: seq<T>, f: T -> seq<U>)
    ensures FlatMap(a + b, f) == FlatMap(a, f) + FlatMap(b, f)
    decreases |b|
  {
    if b == [] {
      assert a + b == a;
    } else {
      var n := |b| - 1;
      assert (a + b)[..|a + b| - 1] == a + b[..n];
      FlatMapAppend(a, b[..n], f);
    }
  }

  /** Every element of the output comes from the part of one item. */
  lemma {:induction false} FlatMapMembers<T, U>(xs: seq<T>, f: T -> seq<U>)
    ensures forall y :: y in FlatMap(xs, f) ==> exists k :: 0 <= k < |xs| && y in f(xs[k])
  {
    if xs != [] {
      var n := |xs| - 1;
      FlatMapMembers(xs[..n], f);
      forall y | y in FlatMap(xs, f)
        ensures exists k :: 0 <= k < |xs| && y in f(xs[k])
      {
        if y in FlatMap(xs[..n], f) {
          var k :| 0 <= k < n && y in f(xs[..n][k]);
          assert xs[..n][k] == xs[k];
        } else {
          assert y in f(xs[n]);
        }
      }
    }
  }

  /** The results `f` gives, in order, skipping the items it gives nothing for. */
  function FilterMap<T, U>(xs: seq<T>, f: T -> Option<U>): (r: seq<U>)
    ensures |r| <= |xs|
  {
    if xs == [] then []
    else
      var n := |xs| - 1;
      FilterMap(xs[..n], f) + (match f(xs[n]) case Some(y) => [y] case None => [])
  }

  /** One more item adds its result, if any. */
  lemma FilterMapSnoc<T, U>(xs: seq<T>, f: T -> Option<U>, i: nat)
    requires i < |xs|
    ensures FilterMap(xs[..i + 1], f)
            == FilterMap(xs[..i], f) + (match f(xs[i]) case Some(y) => [y] case None => [])
  {
    assert xs[..i + 1][..i] == xs[..i];
  }

  /** Each output element is the result of its own item, the items in increasing order,
      and every item with a result has its place in the output. */
  lemma {:induction false} FilterMapOrigin<T, U>(xs: seq<T>, f: T -> Option<U>) returns (origin: seq<nat>)
    ensures |origin| == |FilterMap(xs, f)|
    ensures forall i :: 0 <= i < |origin| ==> origin[i] < |xs| && f(xs[origin[i]]) == Some(FilterMap(xs, f)[i])
    ensures forall i, j :: 0 <= i < j < |origin| ==> origin[i] < origin[j]
    ensures forall k :: 0 <= k < |xs| && f(xs[k]).Some? ==> k in origin
  {
    if xs == [] {
      origin := [];
    } else {
      var n := |xs| - 1;
      var init := xs[..n];
      var o := FilterMapOrigin(init, f);
      var r, ri := FilterMap(xs, f), FilterMap(init, f);
      forall i | 0 <= i < |o| ensures f(xs[o[i]]) == Some(ri[i]) {
        assert xs[o[i]] == init[o[i]];
      }
      forall k | 0 <= k < n && f(xs[k]).Some? ensures k in o {
        assert xs[k] == init[k];
      }
      if f(xs[n]).None? {
        origin := o;
        assert r == ri;
      } else {
        origin := o + [n];
        assert r == ri + [f(xs[n]).value];
        forall i | 0 <= i < |origin|
          ensures origin[i] < |xs| && f(xs[origin[i]]) == Some(r[i])
        {
          if i < |o| {
            assert origin[i] == o[i] && r[i] == ri[i];
          }
        }
      }
    }
  }

  // ---------------------------------------------------------------- selection

  /** `[x for x in s if keep(x)]`, built from the right like `Concat`. */
  function Select<T>(s: seq<T>, keep: T -> bool): (r: seq<T>)
    ensures |r| <= |s|
    ensures forall k :: 0 <= k < |r| ==> keep(r[k])
  {
    if s == [] then []
    else Select(s[..|s| - 1], keep) + (if keep(s[|s| - 1]) then [s[|s| - 1]] else [])
  }

  /** Selecting from two runs selects from each. */
  lemma {:induction false} SelectAppend<T>(a: seq<T>, b: seq<T>, keep: T -> bool)
    ensures Select(a + b, keep) == Select(a, keep) + Select(b, keep)
    decreases |b|
  {
    if b == [] {
      assert a + b == a;
    } else {
      var b' := b[..|b| - 1];
      assert (a + b)[..|a + b| - 1] == a + b';
      SelectAppend(a, b', keep);
    }
  }

  /** Every element that passes is selected as often as it occurs, and nothing else is. */
  lemma {:induction false} SelectCounts<T>(s: seq<T>, keep: T -> bool)
    ensures forall x :: multiset(Select(s, keep))[x] == if keep(x) then multiset(s)[x] else 0
  {
    if s != [] {
      var init := s[..|s| - 1];
      SelectCounts(init, keep);
      assert s == init + [s[|s| - 1]];
    }
  }

  /** The selected elements keep their order: they sit at increasing positions of `s`. */
  lemma {:induction false} SelectOrder<T>(s: seq<T>, keep: T -> bool) returns (origin: seq<nat>)
    ensures |origin| == |Select(s, keep)|
    ensures forall i :: 0 <= i < |origin| ==> origin[i] < |s| && s[origin[i]] == Select(s, keep)[i]
    ensures forall i, j :: 0 <= i < j < |origin| ==> origin[i] < origin[j]
  {
    if s == [] {
      origin := [];
    } else {
      var init, last := s[..|s| - 1], |s| - 1;
      var o := SelectOrder(init, keep);
      var r, ri := Select(s, keep), Select(init, keep);
      if keep(s[last]) {
        origin := o + [last];
        assert r == ri + [s[last]];
        forall i | 0 <= i < |origin| ensures origin[i] < |s| && s[origin[i]] == r[i] {
          if i < |o| {
            assert origin[i] == o[i] && s[o[i]] == init[o[i]] && r[i] == ri[i];
          }
        }
        forall i, j | 0 <= i < j < |origin| ensures origin[i] < origin[j] {
          if j < |o| {
            assert origin[i] == o[i] && origin[j] == o[j];
          } else {
            assert origin[i] == o[i] < |init|;
          }
        }
      } else {
        origin := o;
        assert r == ri;
        forall i | 0 <= i < |origin| ensures s[origin[i]] == r[i] {
          assert s[o[i]] == init[o[i]];
        }
      }
    }
  }

  /** A sequence whose every element passes is selected whole. */
  lemma {:induction false} SelectAll<T>(s: seq<T>, keep: T -> bool)
    requires forall k :: 0 <= k < |s| ==> keep(s[k])
    ensures Select(s, keep) == s
  {
    if s != [] {
      SelectAll(s[..|s| - 1], keep);
    }
  }

  /** Nothing is selected from a sequence none of whose elements pass. */
  lemma {:induction false} SelectNone<T>(s: seq<T>, keep: T -> bool)
    requires forall k :: 0 <= k < |s| ==> !keep(s[k])
    ensures Select(s, keep) == []
  {
    if s != [] {
      SelectNone(s[..|s| - 1], keep);
    }
  }

  // ---------------------------------------------------------------- searching

  /** The first position at or after `i` whose element passes, if any. */
  function FirstWhere<T>(s: seq<T>, p: T -> bool, i: nat): (r: Option<nat>)
    requires i <= |s|
    ensures r.Some? ==> i <= r.value < |s| && p(s[r.value])
    ensures forall k :: i <= k < |s| && (r.None? || k < r.value) ==> !p(s[k])
    decreases |s| - i
  {
    if i == |s| then None
    else if p(s[i]) then Some(i)
    else FirstWhere(s, p, i + 1)
  }

  /** The last position whose element passes, if any. */
  function LastWhere<T>(s: seq<T>, p: T -> bool): (r: Option<nat>)
    ensures r.Some? ==> r.value < |s| && p(s[r.value])
    ensures forall k :: 0 <= k < |s| && (r.None? || k > r.value) ==> !p(s[k])
  {
    if s == [] then None
    else if p(s[|s| - 1]) then Some(|s| - 1)
    else LastWhere(s[..|s| - 1], p)
  }
}
