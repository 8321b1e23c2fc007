/**
 * The pieces of Python's `str` and `re` behaviour that the pipeline relies on:
 * whitespace (`str.isspace`, the `\s` class), `strip`, `lower`, `split` on one
 * character, `replace`, substring tests and `re.sub(r'\s+', ' ', ...)`.
 * Scanning functions work on positions rather than on shrinking slices.
 */
module PyStrings {
  import opened Wrappers

  /** Python's whitespace: the code points for which `str.isspace()` holds, which are
      also the code points `\s` matches in a `str` pattern. */
  predicate IsSpace(c: char) {
    || ('\U{9}' <= c <= '\U{D}') || ('\U{1C}' <= c <= '\U{20}')
    || c == '\U{85}' || c == '\U{A0}' || c == '\U{1680}'
    || ('\U{2000}' <= c <= '\U{200A}')
    || c == '\U{2028}' || c == '\U{2029}' || c == '\U{202F}' || c == '\U{205F}' || c == '\U{3000}'
  }

  /** `\d`, restricted to the ASCII digits. */
  predicate IsDigit(c: char) {
    '0' <= c <= '9'
  }

  predicate IsAsciiLower(c: char) {
    'a' <= c <= 'z'
  }

  predicate IsAsciiUpper(c: char) {
    'A' <= c <= 'Z'
  }

  predicate AllLower(s: string) {
    forall i :: 0 <= i < |s| ==> IsAsciiLower(s[i])
  }

  /** Every position of `s` in `[i, j)` holds whitespace. */
  predicate SpacesBetween(s: string, i: nat, j: nat)
    requires i <= j <= |s|
  {
    forall k :: i <= k < j ==> IsSpace(s[k])
  }

  // ---------------------------------------------------------------- scanning whitespace

  /** The first position in `[i, j)` that is not whitespace, or `j`: what `\s*` consumes
      when the text ends at `j`. */
  function SkipSpaces(s: string, i: nat, j: nat): (r: nat)
    requires i <= j <= |s|
    ensures i <= r <= j
    ensures r == j || !IsSpace(s[r])
    decreases j - i
  {
    if i < j && IsSpace(s[i]) then SkipSpaces(s, i + 1, j) else i
  }

  /** The position just past the last non-whitespace character in `[i, j)`, or `i`. */
  function SkipSpacesBack(s: string, i: nat, j: nat): (r: nat)
    requires i <= j <= |s|
    ensures i <= r <= j
    ensures r == i || !IsSpace(s[r - 1])
    decreases j - i
  {
    if i < j && IsSpace(s[j - 1]) then SkipSpacesBack(s, i, j - 1) else j
  }

  lemma {:induction false} SkipSpacesSpaces(s: string, i: nat, j: nat)
    requires i <= j <= |s|
    ensures SpacesBetween(s, i, SkipSpaces(s, i, j))
    decreases j - i
  {
    if i < j && IsSpace(s[i]) {
      SkipSpacesSpaces(s, i + 1, j);
    }
  }

  lemma {:induction false} SkipSpacesBackSpaces(s: string, i: nat, j: nat)
    requires i <= j <= |s|
    ensures SpacesBetween(s, SkipSpacesBack(s, i, j), j)
    decreases j - i
  {
    if i < j && IsSpace(s[j - 1]) {
      SkipSpacesBackSpaces(s, i, j - 1);
    }
  }

  /** Skipping from anywhere inside a leading run of whitespace lands on the same position. */
  lemma {:induction false} SkipSpacesOver(s: string, i: nat, k: nat, j: nat)
    requires i <= k <= j <= |s| && SpacesBetween(s, i, k)
    ensures SkipSpaces(s, i, j) == SkipSpaces(s, k, j)
    decreases k - i
  {
    if i < k {
      SkipSpacesOver(s, i + 1, k, j);
    }
  }

  /** Scanning a slice `s[i..m]` is scanning the string, shifted. */
  lemma {:induction false} SkipSpacesShift(s: string, i: nat, k: nat, j: nat, m: nat)
    requires i <= k <= j <= m <= |s|
    ensures SkipSpaces(s[i..m], k - i, j - i) == SkipSpaces(s, k, j) - i
    decreases j - k
  {
    if k < j {
      assert s[i..m][k - i] == s[k];
      SkipSpacesShift(s, i, k + 1, j, m);
    }
  }

  lemma {:induction false} SkipSpacesBackShift(s: string, i: nat, k: nat, j: nat, m: nat)
    requires i <= k <= j <= m <= |s|
    ensures SkipSpacesBack(s[i..m], k - i, j - i) == SkipSpacesBack(s, k, j) - i
    decreases j - k
  {
    if k < j {
      assert s[i..m][j - 1 - i] == s[j - 1];
      SkipSpacesBackShift(s, i, k, j - 1, m);
    }
  }

  // ---------------------------------------------------------------- strip

  /** The part of `s[i..j]` left by `strip()`, located in `s` itself. */
  function StripRange(s: string, i: nat, j: nat): (r: string)
    requires i <= j <= |s|
    ensures |r| <= j - i
    ensures r == [] || (!IsSpace(r[0]) && !IsSpace(r[|r| - 1]))
  {
    var a := SkipSpaces(s, i, j);
    s[a..SkipSpacesBack(s, a, j)]
  }

  /** `s.strip()`: the longest infix that neither starts nor ends with whitespace. */
  function Strip(s: string): (r: string) {
    StripRange(s, 0, |s|)
  }

  /** What `strip` removes is whitespace at both ends, and nothing else. */
  lemma StripRemovesOnlyEdgeSpace(s: string)
    ensures var a, r := SkipSpaces(s, 0, |s|), Strip(s);
            a + |r| <= |s| && r == s[a..a + |r|]
            && forall i :: 0 <= i < |s| && !(a <= i < a + |r|) ==> IsSpace(s[i])
  {
    var a := SkipSpaces(s, 0, |s|);
    SkipSpacesSpaces(s, 0, |s|);
    SkipSpacesBackSpaces(s, a, |s|);
  }

  /** Stripping a range is stripping the slice it delimits. */
  lemma StripRangeSlice(s: string, i: nat, j: nat)
    requires i <= j <= |s|
    ensures StripRange(s, i, j) == Strip(s[i..j])
  {
    var t := s[i..j];
    var a := SkipSpaces(s, i, j);
    var z := SkipSpacesBack(s, a, j);
    var a' := SkipSpaces(t, 0, |t|);
    assert a' == a - i by {
      SkipSpacesShift(s, i, i, j, j);
    }
    var z' := SkipSpacesBack(t, a', |t|);
    assert z' == z - i by {
      SkipSpacesBackShift(s, i, a, j, j);
    }
    SliceOfSlice(s, i, j, a', z');
    assert StripRange(s, i, j) == s[a..z];
    assert Strip(t) == t[a'..z'];
  }

  lemma StripRangeSuffix(s: string, i: nat)
    requires i <= |s|
    ensures StripRange(s, i, |s|) == Strip(s[i..])
  {
    StripRangeSlice(s, i, |s|);
    assert s[i..|s|] == s[i..];
  }

  lemma SliceOfSlice(s: string, i: nat, j: nat, x: nat, y: nat)
    requires i <= j <= |s| && x <= y <= j - i
    ensures s[i..j][x..y] == s[i + x..i + y]
  {
    assert forall k :: 0 <= k < y - x ==> s[i..j][x..y][k] == s[i + x + k];
  }

  /** Leading whitespace makes no difference to what `strip` leaves: a regex group that
      starts after a `\s*` strips to the same text as the whole range. */
  lemma StripRangeAfterSpaces(s: string, i: nat, k: nat, j: nat)
    requires i <= k <= j <= |s| && SpacesBetween(s, i, k)
    ensures StripRange(s, k, j) == StripRange(s, i, j)
  {
    SkipSpacesOver(s, i, k, j);
  }

  /** A string already free of surrounding whitespace is its own `strip`. */
  lemma StripNoEdgeSpace(s: string)
    requires s == [] || (!IsSpace(s[0]) && !IsSpace(s[|s| - 1]))
    ensures Strip(s) == s
  {
  }

  // ---------------------------------------------------------------- lower

  /** `c.lower()` as far as any test in the pipeline can observe it: exact on ASCII,
      U+0130 (whose lowercase is `i` followed by U+0307) and the Kelvin sign U+212A
      (whose lowercase is `k`); every other code point is left as it is. */
  function LowerChar(c: char): (r: string)
    ensures 1 <= |r| <= 2
    ensures IsAsciiUpper(c) ==> r == [(c as int + 32) as char]
    ensures !IsAsciiUpper(c) && c != '\U{130}' && c != '\U{212A}' ==> r == [c]
  {
    if IsAsciiUpper(c) then [(c as int + 32) as char]
    else if c == '\U{130}' then "i\U{307}"
    else if c == '\U{212A}' then "k"
    else [c]
  }

  /** `s.lower()`. */
  function Lower(s: string): (r: string)
    ensures |r| >= |s|
  {
    if s == [] then [] else LowerChar(s[0]) + Lower(s[1..])
  }

  /** Lowering changes nothing in a string of lowercase letters and whitespace. */
  lemma {:induction false} LowerFixesLowerAndSpace(s: string)
    requires forall i :: 0 <= i < |s| ==> IsAsciiLower(s[i]) || IsSpace(s[i])
    ensures Lower(s) == s
  {
    if s != [] {
      LowerFixesLowerAndSpace(s[1..]);
    }
  }

  // ---------------------------------------------------------------- prefixes, substrings

  predicate StartsWith(s: string, p: string) {
    |p| <= |s| && s[..|p|] == p
  }

  predicate EndsWith(s: string, p: string) {
    |p| <= |s| && s[|s| - |p|..] == p
  }

  /** `p` occurs in `s` at position `i`. */
  predicate OccursAt(s: string, p: string, i: nat) {
    i + |p| <= |s| && s[i..i + |p|] == p
  }

  /** `p in s` for strings, scanning positions from `i` on. */
  predicate ContainsFrom(s: string, p: string, i: nat)
    decreases |s| - i
  {
    OccursAt(s, p, i) || (i < |s| && ContainsFrom(s, p, i + 1))
  }

  /** `p in s` for strings. */
  predicate Contains(s: string, p: string) {
    ContainsFrom(s, p, 0)
  }

  lemma {:induction false} ContainsFromAt(s: string, p: string, i: nat, j: nat)
    requires i <= j && OccursAt(s, p, j)
    ensures ContainsFrom(s, p, i)
    decreases j - i
  {
    if i < j {
      ContainsFromAt(s, p, i + 1, j);
    }
  }

  lemma {:induction false} ContainsFromWitness(s: string, p: string, i: nat) returns (j: nat)
    requires ContainsFrom(s, p, i)
    ensures i <= j && OccursAt(s, p, j)
    decreases |s| - i
  {
    if OccursAt(s, p, i) {
      j := i;
    } else {
      j := ContainsFromWitness(s, p, i + 1);
    }
  }

  /** `p in s` holds exactly when `p` occurs at some position. */
  lemma ContainsIff(s: string, p: string)
    ensures Contains(s, p) <==> exists j :: OccursAt(s, p, j)
  {
    if Contains(s, p) {
      var j := ContainsFromWitness(s, p, 0);
    }
    if exists j :: OccursAt(s, p, j) {
      var j :| OccursAt(s, p, j);
      ContainsFromAt(s, p, 0, j);
    }
  }

  /** `s.find(p, i)`: the first position from `i` on where `p` occurs. */
  function FindFrom(s: string, p: string, i: nat): (r: Option<nat>)
    ensures r.Some? ==> i <= r.value && OccursAt(s, p, r.value)
    ensures forall j :: i <= j && (r.None? || j < r.value) ==> !OccursAt(s, p, j)
    decreases |s| - i
  {
    if OccursAt(s, p, i) then Some(i)
    else if i >= |s| then None
    else FindFrom(s, p, i + 1)
  }

  /** A substring's characters occur in the string. */
  lemma ContainsChars(s: string, p: string, c: char)
    requires Contains(s, p) && c in p
    ensures c in s
  {
    var j := ContainsFromWitness(s, p, 0);
    var k :| 0 <= k < |p| && p[k] == c;
    assert s[j + k] == s[j..j + |p|][k];
  }

  // ---------------------------------------------------------------- split and join

  /** The first position at or after `i` holding `c`. */
  function IndexFrom(s: string, c: char, i: nat): (r: Option<nat>)
    requires i <= |s|
    ensures r.Some? ==> i <= r.value < |s| && s[r.value] == c
    decreases |s| - i
  {
    if i == |s| then None
    else if s[i] == c then Some(i)
    else IndexFrom(s, c, i + 1)
  }

  lemma {:induction false} IndexFromFirst(s: string, c: char, i: nat)
    requires i <= |s|
    ensures IndexFrom(s, c, i).Some? ==> forall k :: i <= k < IndexFrom(s, c, i).value ==> s[k] != c
    ensures IndexFrom(s, c, i).None? ==> forall k :: i <= k < |s| ==> s[k] != c
    decreases |s| - i
  {
    if i < |s| && s[i] != c {
      IndexFromFirst(s, c, i + 1);
    }
  }

  lemma {:induction false} IndexFromAt(s: string, c: char, i: nat, j: nat)
    requires i <= j < |s| && s[j] == c
    requires forall k :: i <= k < j ==> s[k] != c
    ensures IndexFrom(s, c, i) == Some(j)
    decreases j - i
  {
    if i < j {
      IndexFromAt(s, c, i + 1, j);
    }
  }

  /** `s.index(c)` when `c` is present. */
  function IndexOf(s: string, c: char): (r: Option<nat>)
    ensures r.Some? ==> r.value < |s| && s[r.value] == c
  {
    IndexFrom(s, c, 0)
  }

  lemma IndexOfNone(s: string, c: char)
    ensures IndexOf(s, c).None? <==> c !in s
  {
    IndexFromFirst(s, c, 0);
  }

  /** The separator right after a separator-free prefix is the first one. */
  lemma IndexOfAfter(a: string, c: char, b: string)
    requires c !in a
    ensures IndexOf(a + [c] + b, c) == Some(|a|)
  {
    var s := a + [c] + b;
    assert forall k :: 0 <= k < |a| ==> s[k] == a[k];
    IndexFromAt(s, c, 0, |a|);
  }

  /** `s.split(sep)` for a one-character separator. */
  function Split(s: string, sep: char): (r: seq<string>)
    decreases |s|
    ensures |r| >= 1
  {
    match IndexOf(s, sep)
    case None => [s]
    case Some(i) => [s[..i]] + Split(s[i + 1..], sep)
  }

  /** No piece of a split holds the separator. */
  lemma {:induction false} SplitPiecesFree(s: string, sep: char)
    ensures forall k :: 0 <= k < |Split(s, sep)| ==> sep !in Split(s, sep)[k]
    decreases |s|
  {
    IndexFromFirst(s, sep, 0);
    match IndexOf(s, sep)
    case None =>
    case Some(i) =>
      SplitPiecesFree(s[i + 1..], sep);
      assert Split(s, sep) == [s[..i]] + Split(s[i + 1..], sep);
  }

  /** `sep.join(parts)`. */
  function Join(parts: seq<string>, sep: string): (r: string)
    decreases |parts|
  {
    if parts == [] then ""
    else if |parts| == 1 then parts[0]
    else parts[0] + sep + Join(parts[1..], sep)
  }

  /** Joining the pieces of a split with the separator gives back the text. */
  lemma {:induction false} JoinSplit(s: string, sep: char)
    ensures Join(Split(s, sep), [sep]) == s
    decreases |s|
  {
    match IndexOf(s, sep)
    case None =>
    case Some(i) =>
      var tail := Split(s[i + 1..], sep);
      assert Split(s, sep) == [s[..i]] + tail;
      JoinSplit(s[i + 1..], sep);
      assert Join([s[..i]] + tail, [sep]) == s[..i] + [sep] + Join(tail, [sep]);
      assert s == s[..i] + [sep] + s[i + 1..];
  }

  /** Splitting a join of separator-free pieces gives back the pieces. */
  lemma {:induction false} SplitJoin(parts: seq<string>, sep: char)
    requires |parts| >= 1
    requires forall k :: 0 <= k < |parts| ==> sep !in parts[k]
    ensures Split(Join(parts, [sep]), sep) == parts
    decreases |parts|
  {
    var s := Join(parts, [sep]);
    if |parts| == 1 {
      IndexOfNone(s, sep);
    } else {
      var rest := Join(parts[1..], [sep]);
      assert s == parts[0] + [sep] + rest;
      IndexOfAfter(parts[0], sep, rest);
      assert s[..|parts[0]|] == parts[0];
      assert s[|parts[0]| + 1..] == rest;
      SplitJoin(parts[1..], sep);
    }
  }

  // ---------------------------------------------------------------- replace, collapse

  /** `s.replace(a, b)` for one-character `a` and `b`. */
  function ReplaceChar(s: string, a: char, b: char): (r: string)
    ensures |r| == |s|
    ensures forall i :: 0 <= i < |s| ==> r[i] == (if s[i] == a then b else s[i])
  {
    if s == [] then [] else [if s[0] == a then b else s[0]] + ReplaceChar(s[1..], a, b)
  }

  /** `s.replace(a, '')`. */
  function RemoveChar(s: string, a: char): (r: string)
    ensures |r| <= |s|
    ensures a !in r
    ensures forall c :: c in r ==> c in s
  {
    if s == [] then [] else (if s[0] == a then [] else [s[0]]) + RemoveChar(s[1..], a)
  }

  /** `re.sub(r'\s+', ' ', s[i..])`: every maximal run of whitespace becomes one space. */
  function CollapseSpacesFrom(s: string, i: nat): (r: string)
    requires i <= |s|
    decreases |s| - i
    ensures |r| <= |s| - i
    ensures forall k :: 0 <= k < |r| && IsSpace(r[k]) ==> r[k] == ' '
    ensures forall k :: 0 <= k && k + 1 < |r| ==> !(IsSpace(r[k]) && IsSpace(r[k + 1]))
    ensures i < |s| && !IsSpace(s[i]) ==> r != [] && r[0] == s[i]
    ensures i < |s| && IsSpace(s[i]) ==> r != [] && r[0] == ' '
  {
    if i == |s| then []
    else if IsSpace(s[i]) then [' '] + CollapseSpacesFrom(s, SkipSpaces(s, i, |s|))
    else [s[i]] + CollapseSpacesFrom(s, i + 1)
  }

  /** `re.sub(r'\s+', ' ', s)`. */
  function CollapseSpaces(s: string): (r: string) {
    CollapseSpacesFrom(s, 0)
  }
}
