/**
 * The token cleaner: `is_unwanted_token` and `clean_text_advanced`.
 * The text is lowered, every character other than `a`-`z` and whitespace becomes a
 * space, the result is tokenized and the tokens are filtered. The tokenizer and the
 * English stopword list come from a library; they are parameters here, and the
 * library's fallback tokenizer (maximal runs of three or more letters) is `LetterRuns`.
 */
module Cleaning {
  import opened PyStrings
  import opened Seqs

  /** The hand-written stopword set (`CUSTOM_STOPWORDS`). */
  const CustomStopwords: set<string> := {
    "quill", "support", "team", "operator", "article", "inserter",
    "diagnostic", "pack", "activity", "activities", "test", "class",
    "report", "practice", "lesson",
    "assign", "tab", "menu", "dashboard", "pre", "code",
    "survey", "feature", "invite", "update",
    "nikki", "amanda", "nattalie", "shannon", "erika", "alex", "charlie",
    "best", "regards", "thank", "thanks", "sincerely", "please",
    "thank you", "welcome", "appreciate", "help", "let", "know",
    "pleasure", "contact", "assist", "further", "clarify", "additional",
    "follow", "question", "questions", "concerns", "grettings",
    "hello", "hi", "hey", "good", "morning", "afternoon", "evening",
    "hope", "day", "back", "next",
    "conversation", "started", "exported", "reply", "replies", "email", "recipient",
    "message", "system", "notice", "confidentiality", "transmitted", "error",
    "reading", "distribution", "copying", "strictly", "prohibited", "received",
    "immediately", "delete", "copies", "backups", "sent", "attached", "include",
    "time", "date", "gmt", "ed", "edt", "est", "am", "pm", "today", "yesterday", "tomorrow",
    "monday", "tuesday", "wednesday", "thursday", "friday", "saturday", "sunday",
    "mailto", "com", "org", "us", "kyschools", "net", "helpcenter", "supportquill",
    "quillorg", "classcode", "google", "clever", "schools", "questionfeedback",
    "\U{2014}", "\U{2013}", "\U{201C}", "\U{201D}", "\U{2026}", "(", ")", "[", "]", "{", "}",
    "\U{2019}", "\U{2018}"
  }

  // ---------------------------------------------------------------- is_unwanted_token

  /** `re.match(r'\d{1,2}:\d{2}', t)`: the token starts with a clock time. */
  predicate IsClockToken(t: string) {
    (|t| >= 4 && IsDigit(t[0]) && t[1] == ':' && IsDigit(t[2]) && IsDigit(t[3]))
    || (|t| >= 5 && IsDigit(t[0]) && IsDigit(t[1]) && t[2] == ':' && IsDigit(t[3]) && IsDigit(t[4]))
  }

  /** `re.match(r'20\d{2}', t)`: the token starts with a year of this century. */
  predicate IsYearToken(t: string) {
    |t| >= 4 && t[0] == '2' && t[1] == '0' && IsDigit(t[2]) && IsDigit(t[3])
  }

  /** `is_unwanted_token`: the guard chain, in the source's order. */
  predicate IsUnwantedToken(t: string) {
    if IsClockToken(t) then true
    else if IsYearToken(t) then true
    else if '@' in t || Contains(t, "www.") then true
    else t in CustomStopwords
  }

  /** On a token made only of lowercase letters, which is every token the cleaner can
      produce with its own tokenizer, the unwanted test is membership of the custom set:
      the time and year patterns need a digit at the start, and `@` and `www.` need a
      character that is not a letter. */
  lemma UnwantedLetterToken(t: string)
    requires AllLower(t)
    ensures IsUnwantedToken(t) <==> t in CustomStopwords
  {
    if |t| >= 1 {
      assert !IsDigit(t[0]);
    }
    assert '@' !in t;
    if Contains(t, "www.") {
      ContainsChars(t, "www.", '.');
    }
  }

  // ---------------------------------------------------------------- normalisation

  /** `re.sub(r'[^a-z\s]', ' ', s)`. */
  function Scrub(s: string): (r: string)
    ensures |r| == |s|
    ensures forall i :: 0 <= i < |s| ==> r[i] == (if IsAsciiLower(s[i]) || IsSpace(s[i]) then s[i] else ' ')
  {
    if s == [] then []
    else [if IsAsciiLower(s[0]) || IsSpace(s[0]) then s[0] else ' '] + Scrub(s[1..])
  }

  /** The text the tokenizer sees. */
  function Normalize(text: string): (r: string)
    ensures forall i :: 0 <= i < |r| ==> IsAsciiLower(r[i]) || IsSpace(r[i])
  {
    Scrub(Lower(text))
  }

  /** Normalising text that is already lowercase letters and whitespace changes nothing. */
  lemma NormalizeFixes(text: string)
    requires forall i :: 0 <= i < |text| ==> IsAsciiLower(text[i]) || IsSpace(text[i])
    ensures Normalize(text) == text
  {
    LowerFixesLowerAndSpace(text);
  }

  // ---------------------------------------------------------------- the fallback tokenizer

  /** The length of the run of lowercase letters at the start of `s`. */
  function RunLength(s: string): (n: nat)
    ensures n <= |s|
    ensures forall i :: 0 <= i < n ==> IsAsciiLower(s[i])
    ensures n == |s| || !IsAsciiLower(s[n])
  {
    if s != [] && IsAsciiLower(s[0]) then 1 + RunLength(s[1..]) else 0
  }

  /** `re.findall(r"\b[a-z]{3,}\b", s)` on text of lowercase letters and whitespace: the
      maximal runs of letters that are at least three long, in order. */
  function LetterRuns(s: string): (r: seq<string>)
    ensures forall k :: 0 <= k < |r| ==> AllLower(r[k]) && |r[k]| >= 3
    decreases |s|
  {
    if s == [] then []
    else if !IsAsciiLower(s[0]) then LetterRuns(s[1..])
    else
      var n := RunLength(s);
      (if n >= 3 then [s[..n]] else []) + LetterRuns(s[n..])
  }

  /** `s[i..i + n]` is a maximal non-empty run of lowercase letters of `s`: letters
      throughout, with the edge of `s` or another character on either side. */
  predicate MaximalRun(s: string, i: nat, n: nat) {
    && 1 <= n && i + n <= |s|
    && (forall k :: i <= k < i + n ==> IsAsciiLower(s[k]))
    && (i == 0 || !IsAsciiLower(s[i - 1]))
    && (i + n == |s| || !IsAsciiLower(s[i + n]))
  }

  /** Dropping a prefix that ends at a run boundary keeps the maximal runs after it, at
      shifted positions. */
  lemma ShiftRun(s: string, d: nat, i: nat, m: nat)
    requires 1 <= d <= |s|
    requires d == |s| || !IsAsciiLower(s[d]) || !IsAsciiLower(s[d - 1])
    ensures MaximalRun(s[d..], i, m) <==> MaximalRun(s, i + d, m)
  {
  }

  /** `starts` locates `runs` in `s`: each run is a maximal run of letters at or after
      `d`, the positions increase, and every maximal run of three or more letters that
      begins at or after `d` is among them. */
  ghost predicate Locates(s: string, runs: seq<string>, starts: seq<nat>, d: nat) {
    && |starts| == |runs|
    && (forall k :: 0 <= k < |starts| ==>
          d <= starts[k] && MaximalRun(s, starts[k], |runs[k]|) && runs[k] == s[starts[k]..starts[k] + |runs[k]|])
    && (forall k, l :: 0 <= k < l < |starts| ==> starts[k] < starts[l])
    && (forall i: nat, n: nat :: MaximalRun(s, i, n) && n >= 3 && d <= i ==> i in starts)
  }

  /** Runs located in the suffix `t == s[d..]` are located in `s`, `d` further on. */
  lemma ShiftFound(s: string, t: string, d: nat, runs: seq<string>, rest: seq<nat>, tail: seq<nat>)
    requires 1 <= d <= |s| && t == s[d..]
    requires d == |s| || !IsAsciiLower(s[d]) || !IsAsciiLower(s[d - 1])
    requires |rest| == |runs| == |tail|
    requires forall k :: 0 <= k < |tail| ==> tail[k] == rest[k] + d
    requires forall k :: 0 <= k < |rest| ==>
               MaximalRun(t, rest[k], |runs[k]|) && runs[k] == t[rest[k]..rest[k] + |runs[k]|]
    ensures forall k :: 0 <= k < |tail| ==>
              d <= tail[k] && MaximalRun(s, tail[k], |runs[k]|) && runs[k] == s[tail[k]..tail[k] + |runs[k]|]
  {
  }

  /** Every long run of `s` from `d` on is found once every long run of `s[d..]` is. */
  lemma ShiftComplete(s: string, d: nat, rest: seq<nat>, tail: seq<nat>)
    requires 1 <= d <= |s|
    requires d == |s| || !IsAsciiLower(s[d]) || !IsAsciiLower(s[d - 1])
    requires |rest| == |tail|
    requires forall k :: 0 <= k < |tail| ==> tail[k] == rest[k] + d
    requires forall i: nat, n: nat :: MaximalRun(s[d..], i, n) && n >= 3 ==> i in rest
    ensures forall i: nat, n: nat :: MaximalRun(s, i, n) && n >= 3 && d <= i ==> i in tail
  {
    forall i: nat, n: nat | MaximalRun(s, i, n) && n >= 3 && d <= i
      ensures i in tail
    {
      ShiftRun(s, d, i - d, n);
      var k :| 0 <= k < |rest| && rest[k] == i - d;
      assert tail[k] == i;
    }
  }

  /** The runs found after a run boundary `d`, located in `s` itself. */
  lemma ShiftStarts(s: string, d: nat, runs: seq<string>, rest: seq<nat>) returns (tail: seq<nat>)
    requires 1 <= d <= |s|
    requires d == |s| || !IsAsciiLower(s[d]) || !IsAsciiLower(s[d - 1])
    requires Locates(s[d..], runs, rest, 0)
    ensures Locates(s, runs, tail, d)
  {
    tail := seq(|rest|, k requires 0 <= k < |rest| => rest[k] + d);
    ShiftFound(s, s[d..], d, runs, rest, tail);
    ShiftComplete(s, d, rest, tail);
  }

  /** A text starting with a letter starts with a maximal run, and no other maximal run
      begins inside it. */
  lemma FirstRun(s: string)
    requires s != [] && IsAsciiLower(s[0])
    ensures MaximalRun(s, 0, RunLength(s))
    ensures forall i: nat, m: nat :: MaximalRun(s, i, m) && i < RunLength(s) ==> i == 0 && m == RunLength(s)
  {
  }

  /** A first run of three or more letters, followed by the runs found after it. */
  lemma PrependRun(s: string, n: nat, runs: seq<string>, tail: seq<nat>) returns (starts: seq<nat>)
    requires 3 <= n <= |s| && MaximalRun(s, 0, n)
    requires forall i: nat, m: nat :: MaximalRun(s, i, m) && i < n ==> i == 0 && m == n
    requires Locates(s, runs, tail, n)
    ensures Locates(s, [s[..n]] + runs, starts, 0)
  {
    var r := [s[..n]] + runs;
    starts := [0] + tail;
    forall k | 0 <= k < |starts|
      ensures MaximalRun(s, starts[k], |r[k]|) && r[k] == s[starts[k]..starts[k] + |r[k]|]
    {
      if k > 0 {
        assert starts[k] == tail[k - 1] && r[k] == runs[k - 1];
      }
    }
    forall i: nat, m: nat | MaximalRun(s, i, m) && m >= 3
      ensures i in starts
    {
      if n <= i {
        assert i in tail;
      }
    }
  }

  /** Runs located from `d` on are located in all of `s` when no long run begins before `d`. */
  lemma Widen(s: string, d: nat, runs: seq<string>, starts: seq<nat>)
    requires Locates(s, runs, starts, d)
    requires forall i: nat, m: nat :: MaximalRun(s, i, m) && m >= 3 ==> d <= i
    ensures Locates(s, runs, starts, 0)
  {
  }

  /** The recursion behind `LetterRunsSpec`. */
  lemma {:induction false} LetterRunsLocate(s: string) returns (starts: seq<nat>)
    ensures Locates(s, LetterRuns(s), starts, 0)
    decreases |s|
  {
    if s == [] {
      starts := [];
    } else if !IsAsciiLower(s[0]) {
      var rest := LetterRunsLocate(s[1..]);
      assert LetterRuns(s) == LetterRuns(s[1..]);
      starts := ShiftStarts(s, 1, LetterRuns(s[1..]), rest);
      Widen(s, 1, LetterRuns(s), starts);
    } else {
      var n := RunLength(s);
      var rest := LetterRunsLocate(s[n..]);
      var tail := ShiftStarts(s, n, LetterRuns(s[n..]), rest);
      FirstRun(s);
      if n >= 3 {
        assert LetterRuns(s) == [s[..n]] + LetterRuns(s[n..]);
        starts := PrependRun(s, n, LetterRuns(s[n..]), tail);
      } else {
        assert LetterRuns(s) == LetterRuns(s[n..]);
        starts := tail;
        Widen(s, n, LetterRuns(s), starts);
      }
    }
  }

  /** The fallback tokenizer finds exactly the maximal runs of three or more letters, in
      order: each token is such a run, located at increasing positions, and every such
      run is found. */
  lemma LetterRunsSpec(s: string) returns (starts: seq<nat>)
    ensures |starts| == |LetterRuns(s)|
    ensures forall k :: 0 <= k < |starts| ==>
              MaximalRun(s, starts[k], |LetterRuns(s)[k]|)
              && LetterRuns(s)[k] == s[starts[k]..starts[k] + |LetterRuns(s)[k]|]
    ensures forall k, l :: 0 <= k < l < |starts| ==> starts[k] < starts[l]
    ensures forall i: nat, n: nat :: MaximalRun(s, i, n) && n >= 3 ==> i in starts
  {
    starts := LetterRunsLocate(s);
  }

  /** A word of letters followed by a separator ends its own run. */
  lemma RunLengthWord(t: string, rest: string)
    requires AllLower(t)
    requires rest == [] || !IsAsciiLower(rest[0])
    ensures RunLength(t + rest) == |t|
    decreases |t|
  {
    if t != [] {
      assert (t + rest)[1..] == t[1..] + rest;
      RunLengthWord(t[1..], rest);
    }
  }

  /** Letters joined by single spaces tokenize back to the words they were made of. */
  lemma {:induction false} LetterRunsJoin(ts: seq<string>)
    requires forall k :: 0 <= k < |ts| ==> AllLower(ts[k]) && |ts[k]| >= 3
    ensures LetterRuns(Join(ts, " ")) == ts
    decreases |ts|
  {
    if |ts| == 1 {
      var s := ts[0];
      RunLengthWord(s, []);
      assert s + [] == s;
      assert s[..|s|] == s && s[|s|..] == [];
    } else if |ts| > 1 {
      var t, rest := ts[0], Join(ts[1..], " ");
      var s := t + " " + rest;
      assert Join(ts, " ") == s;
      RunLengthWord(t, " " + rest);
      assert s == t + (" " + rest);
      assert s[..|t|] == t;
      assert s[|t|..] == " " + rest;
      assert (" " + rest)[1..] == rest;
      LetterRunsJoin(ts[1..]);
      assert ts == [t] + ts[1..];
    }
  }

  // ---------------------------------------------------------------- the filter

  /** The condition of the list comprehension in `clean_text_advanced`. */
  predicate Keep(w: string, stopwords: set<string>) {
    w !in stopwords && !IsUnwantedToken(w) && |w| > 2
  }

  // ---------------------------------------------------------------- clean_text_advanced

  /** `clean_text_advanced(text)` with the given tokenizer and stopword set. */
  function Clean(text: string, tokenize: string -> seq<string>, stopwords: set<string>): (r: seq<string>)
  {
    Select(tokenize(Normalize(text)), w => Keep(w, stopwords))
  }

  /** The cleaner keeps each token that passes as often as the tokenizer produced it and
      drops every other, and it keeps the tokenizer's order. */
  lemma CleanSelects(text: string, tokenize: string -> seq<string>, stopwords: set<string>)
    returns (origin: seq<nat>)
    ensures forall w :: (multiset(Clean(text, tokenize, stopwords))[w]
                         == if Keep(w, stopwords) then multiset(tokenize(Normalize(text)))[w] else 0)
    ensures |origin| == |Clean(text, tokenize, stopwords)|
    ensures forall i :: 0 <= i < |origin| ==>
                origin[i] < |tokenize(Normalize(text))|
                && tokenize(Normalize(text))[origin[i]] == Clean(text, tokenize, stopwords)[i]
    ensures forall i, j :: 0 <= i < j < |origin| ==> origin[i] < origin[j]
  {
    SelectCounts(tokenize(Normalize(text)), w => Keep(w, stopwords));
    origin := SelectOrder(tokenize(Normalize(text)), w => Keep(w, stopwords));
  }

  /** Whatever the tokenizer, every kept token is longer than two characters, is no
      stopword, is not in the custom set and is not a time, a year, an address or a site. */
  lemma CleanTokens(text: string, tokenize: string -> seq<string>, stopwords: set<string>)
    ensures forall k :: 0 <= k < |Clean(text, tokenize, stopwords)| ==>
      var w := Clean(text, tokenize, stopwords)[k];
      |w| > 2 && w !in stopwords && w !in CustomStopwords && !IsClockToken(w) && !IsYearToken(w)
  {
  }

  /** With the fallback tokenizer every kept token is made of `a`-`z` only. */
  lemma CleanLetters(text: string, stopwords: set<string>)
    ensures forall k :: 0 <= k < |Clean(text, LetterRuns, stopwords)| ==>
      AllLower(Clean(text, LetterRuns, stopwords)[k]) && |Clean(text, LetterRuns, stopwords)[k]| >= 3
  {
    var ts := LetterRuns(Normalize(text));
    var r := Clean(text, LetterRuns, stopwords);
    var origin := CleanSelects(text, LetterRuns, stopwords);
    forall k | 0 <= k < |r|
      ensures AllLower(r[k]) && |r[k]| >= 3
    {
      assert r[k] == ts[origin[k]];
    }
  }

  /** The characters of words of letters joined by spaces are letters and spaces. */
  lemma {:induction false} JoinLetters(ts: seq<string>)
    requires forall k :: 0 <= k < |ts| ==> AllLower(ts[k])
    ensures forall i :: 0 <= i < |Join(ts, " ")| ==> IsAsciiLower(Join(ts, " ")[i]) || IsSpace(Join(ts, " ")[i])
    decreases |ts|
  {
    if |ts| > 1 {
      JoinLetters(ts[1..]);
      var t, rest := ts[0], Join(ts[1..], " ");
      var s := t + " " + rest;
      assert Join(ts, " ") == s;
      forall i | 0 <= i < |s|
        ensures IsAsciiLower(s[i]) || IsSpace(s[i])
      {
        if i > |t| {
          assert s[i] == rest[i - |t| - 1];
        }
      }
    }
  }

  /** Cleaning the space-joined result of the fallback tokenizer again gives it back. */
  lemma CleanIdempotent(text: string, stopwords: set<string>)
    ensures Clean(Join(Clean(text, LetterRuns, stopwords), " "), LetterRuns, stopwords)
         == Clean(text, LetterRuns, stopwords)
  {
    var ts := Clean(text, LetterRuns, stopwords);
    CleanLetters(text, stopwords);
    var joined := Join(ts, " ");
    JoinLetters(ts);
    NormalizeFixes(joined);
    LetterRunsJoin(ts);
    assert LetterRuns(Normalize(joined)) == ts;
    SelectAll(ts, w => Keep(w, stopwords));
  }
}
