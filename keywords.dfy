/**
 * The deep-dive keyword table: the user messages that are questions, the cleaned tokens of
 * those questions, their `Counter`, and its `most_common(20)`.
 */
module Keywords {
  import opened Wrappers
  import opened PyStrings
  import opened Seqs
  import opened Sorting
  import opened Cleaning

  // ---------------------------------------------------------------- questions

  /** `x.strip().endswith('?')`. */
  predicate IsQuestion(m: string) {
    EndsWith(Strip(m), "?")
  }

  /** A message is a question exactly when it has a question mark followed by nothing but
      whitespace. */
  lemma QuestionIff(m: string)
    ensures IsQuestion(m) <==> exists i :: 0 <= i < |m| && m[i] == '?' && SpacesBetween(m, i + 1, |m|)
  {
    var a := SkipSpaces(m, 0, |m|);
    var z := SkipSpacesBack(m, a, |m|);
    assert Strip(m) == m[a..z];
    SkipSpacesSpaces(m, 0, |m|);
    SkipSpacesBackSpaces(m, a, |m|);
    if IsQuestion(m) {
      assert m[a..z][z - a - 1] == '?';
      assert m[z - 1] == '?' && SpacesBetween(m, z - 1 + 1, |m|);
    }
    if i :| 0 <= i < |m| && m[i] == '?' && SpacesBetween(m, i + 1, |m|) {
      assert !IsSpace(m[i]);
      assert a <= i < z;
      assert z == i + 1;
      assert m[a..z][z - a - 1..] == "?";
    }
  }

  /** `df_chat[df_chat['is_question']]['user_message']`. */
  function Questions(messages: seq<string>): (r: seq<string>) {
    Select(messages, IsQuestion)
  }

  /** The questions are question messages taken at increasing positions, so in the order
      the messages were gathered. */
  lemma QuestionsInOrder(messages: seq<string>) returns (origin: seq<nat>)
    ensures |origin| == |Questions(messages)|
    ensures forall i :: 0 <= i < |origin| ==>
              origin[i] < |messages| && messages[origin[i]] == Questions(messages)[i] && IsQuestion(messages[origin[i]])
    ensures forall i, j :: 0 <= i < j < |origin| ==> origin[i] < origin[j]
  {
    origin := SelectOrder(messages, IsQuestion);
  }

  /** The cleaned tokens of `messages`, one message after another. */
  function TokensOf(messages: seq<string>, tokenize: string -> seq<string>, stopwords: set<string>): (r: seq<string>)
  {
    if messages == [] then []
    else TokensOf(messages[..|messages| - 1], tokenize, stopwords) + Clean(messages[|messages| - 1], tokenize, stopwords)
  }

  /** `all_tokens`: the tokens of the question rows, flattened in row order. */
  function QuestionTokens(messages: seq<string>, tokenize: string -> seq<string>, stopwords: set<string>): (r: seq<string>)
  {
    TokensOf(Questions(messages), tokenize, stopwords)
  }

  lemma TokensOfSnoc(messages: seq<string>, m: string, tokenize: string -> seq<string>, stopwords: set<string>)
    ensures TokensOf(messages + [m], tokenize, stopwords) == TokensOf(messages, tokenize, stopwords) + Clean(m, tokenize, stopwords)
  {
    assert (messages + [m])[..|messages|] == messages;
  }

  lemma SelectOne(m: string)
    ensures Select([m], IsQuestion) == if IsQuestion(m) then [m] else []
  {
    assert [m][..0] == [];
  }

  /** A message that is not a question adds nothing to the tokens; a question adds its
      own cleaned tokens at the end. */
  lemma QuestionTokensSnoc(messages: seq<string>, m: string, tokenize: string -> seq<string>, stopwords: set<string>)
    ensures !IsQuestion(m) ==> QuestionTokens(messages + [m], tokenize, stopwords) == QuestionTokens(messages, tokenize, stopwords)
    ensures IsQuestion(m) ==> QuestionTokens(messages + [m], tokenize, stopwords)
                              == QuestionTokens(messages, tokenize, stopwords) + Clean(m, tokenize, stopwords)
  {
    var qs := Questions(messages);
    SelectAppend(messages, [m], IsQuestion);
    SelectOne(m);
    assert Questions(messages + [m]) == qs + (if IsQuestion(m) then [m] else []);
    if IsQuestion(m) {
      TokensOfSnoc(qs, m, tokenize, stopwords);
    } else {
      assert qs + [] == qs;
    }
  }

  /** Only the question messages matter: the tokens are those of the questions alone. */
  lemma QuestionTokensOnlyQuestions(messages: seq<string>, tokenize: string -> seq<string>, stopwords: set<string>)
    ensures QuestionTokens(messages, tokenize, stopwords) == QuestionTokens(Questions(messages), tokenize, stopwords)
  {
    SelectAll(Questions(messages), IsQuestion);
  }

  // ---------------------------------------------------------------- Counter

  /** One `(word, count)` item of a `Counter`. */
  datatype Entry = Entry(word: string, count: nat)

  /** The position of `w`'s item at or after `i`, if it has one. */
  function Find(t: seq<Entry>, w: string, i: nat): (r: Option<nat>)
    requires i <= |t|
    ensures r.Some? ==> i <= r.value < |t| && t[r.value].word == w
    ensures r.None? ==> forall k :: i <= k < |t| ==> t[k].word != w
    decreases |t| - i
  {
    if i == |t| then None
    else if t[i].word == w then Some(i)
    else Find(t, w, i + 1)
  }

  /** `counter[w] += 1`: a new word is appended, so items stay in first-seen order. */
  function Bump(t: seq<Entry>, w: string): (r: seq<Entry>) {
    match Find(t, w, 0)
    case Some(i) => t[i := Entry(w, t[i].count + 1)]
    case None => t + [Entry(w, 1)]
  }

  /** `Counter(tokens)`, as its items in dictionary order. */
  function Tally(tokens: seq<string>): (r: seq<Entry>) {
    if tokens == [] then [] else Bump(Tally(tokens[..|tokens| - 1]), tokens[|tokens| - 1])
  }

  /** `tokens.index(w)`, or `|tokens|` when `w` does not occur. */
  function FirstIndex(tokens: seq<string>, w: string): (r: nat)
    ensures r <= |tokens|
    ensures r < |tokens| ==> tokens[r] == w
    ensures forall k :: 0 <= k < r ==> tokens[k] != w
  {
    if tokens == [] then 0
    else if tokens[0] == w then 0
    else 1 + FirstIndex(tokens[1..], w)
  }

  /** One more token leaves the first occurrence of every earlier word where it was. */
  lemma FirstIndexSnoc(tokens: seq<string>, w: string, v: string)
    ensures v in tokens ==> FirstIndex(tokens + [w], v) == FirstIndex(tokens, v)
    ensures v !in tokens && v == w ==> FirstIndex(tokens + [w], v) == |tokens|
  {
    var f, g := FirstIndex(tokens, v), FirstIndex(tokens + [w], v);
    assert forall k :: 0 <= k < |tokens| ==> (tokens + [w])[k] == tokens[k];
    assert (tokens + [w])[|tokens|] == w;
    if v in tokens {
      assert f < |tokens|;
    }
  }

  /** `t` is the counter of `tokens`: one item per distinct token, each with the number of
      times its word occurs. */
  ghost predicate CountsOf(t: seq<Entry>, tokens: seq<string>) {
    && (forall i :: 0 <= i < |t| ==> t[i].word in tokens && t[i].count == multiset(tokens)[t[i].word])
    && (forall i, j :: 0 <= i < j < |t| ==> t[i].word != t[j].word)
    && (forall k :: 0 <= k < |tokens| ==> Find(t, tokens[k], 0).Some?)
  }

  /** The items of `t` are in the order their words first occur in `tokens`. */
  ghost predicate FirstSeenOrder(t: seq<Entry>, tokens: seq<string>) {
    forall i, j :: 0 <= i < j < |t| ==> FirstIndex(tokens, t[i].word) < FirstIndex(tokens, t[j].word)
  }

  /** A word the counter has no item for has not occurred yet. */
  lemma NewWord(t: seq<Entry>, tokens: seq<string>, w: string)
    requires CountsOf(t, tokens) && Find(t, w, 0).None?
    ensures w !in tokens
  {
    forall k | 0 <= k < |tokens|
      ensures tokens[k] != w
    {
      assert Find(t, tokens[k], 0).Some?;
    }
  }

  /** Counting a word seen before adds one to its item. */
  lemma BumpSeen(t: seq<Entry>, tokens: seq<string>, w: string, i: nat)
    requires CountsOf(t, tokens) && Find(t, w, 0) == Some(i)
    ensures CountsOf(t[i := Entry(w, t[i].count + 1)], tokens + [w])
  {
    var ts, r := tokens + [w], t[i := Entry(w, t[i].count + 1)];
    assert multiset(ts) == multiset(tokens) + multiset{w};
    forall m | 0 <= m < |r|
      ensures r[m].word in ts && r[m].count == multiset(ts)[r[m].word]
    {
      if m != i {
        assert r[m] == t[m] && t[m].word != w;
      }
    }
    forall k | 0 <= k < |ts|
      ensures Find(r, ts[k], 0).Some?
    {
      if k < |tokens| {
        var j := Find(t, tokens[k], 0).value;
        assert r[j].word == tokens[k];
      } else {
        assert r[i].word == w;
      }
    }
  }

  /** Counting a new word appends an item with count one. */
  lemma BumpNew(t: seq<Entry>, tokens: seq<string>, w: string)
    requires CountsOf(t, tokens) && Find(t, w, 0).None?
    ensures CountsOf(t + [Entry(w, 1)], tokens + [w])
  {
    var ts, r := tokens + [w], t + [Entry(w, 1)];
    NewWord(t, tokens, w);
    assert multiset(ts) == multiset(tokens) + multiset{w};
    forall m | 0 <= m < |r|
      ensures r[m].word in ts && r[m].count == multiset(ts)[r[m].word]
    {
      if m < |t| {
        assert r[m] == t[m] && t[m].word in tokens;
      }
    }
    forall k | 0 <= k < |ts|
      ensures Find(r, ts[k], 0).Some?
    {
      if k < |tokens| {
        var j := Find(t, tokens[k], 0).value;
        assert r[j].word == tokens[k];
      } else {
        assert r[|t|].word == w;
      }
    }
  }

  lemma BumpCounts(t: seq<Entry>, tokens: seq<string>, w: string)
    requires CountsOf(t, tokens)
    ensures CountsOf(Bump(t, w), tokens + [w])
  {
    match Find(t, w, 0)
    case Some(i) => BumpSeen(t, tokens, w, i);
    case None => BumpNew(t, tokens, w);
  }

  /** One more token leaves the first occurrences of the counter's words where they were. */
  lemma FirstIndexKept(t: seq<Entry>, tokens: seq<string>, w: string)
    requires CountsOf(t, tokens)
    ensures forall m :: 0 <= m < |t| ==> FirstIndex(tokens + [w], t[m].word) == FirstIndex(tokens, t[m].word)
  {
    forall m | 0 <= m < |t|
      ensures FirstIndex(tokens + [w], t[m].word) == FirstIndex(tokens, t[m].word)
    {
      FirstIndexSnoc(tokens, w, t[m].word);
    }
  }

  lemma BumpOrderNew(t: seq<Entry>, tokens: seq<string>, w: string)
    requires CountsOf(t, tokens) && FirstSeenOrder(t, tokens) && Find(t, w, 0).None?
    ensures FirstSeenOrder(t + [Entry(w, 1)], tokens + [w])
  {
    var ts, r := tokens + [w], t + [Entry(w, 1)];
    FirstIndexKept(t, tokens, w);
    NewWord(t, tokens, w);
    FirstIndexSnoc(tokens, w, w);
    forall i, j | 0 <= i < j < |r|
      ensures FirstIndex(ts, r[i].word) < FirstIndex(ts, r[j].word)
    {
      assert r[i] == t[i];
      if j < |t| {
        assert r[j] == t[j];
      } else {
        assert FirstIndex(tokens, t[i].word) < |tokens|;
      }
    }
  }

  lemma BumpOrder(t: seq<Entry>, tokens: seq<string>, w: string)
    requires CountsOf(t, tokens) && FirstSeenOrder(t, tokens)
    ensures FirstSeenOrder(Bump(t, w), tokens + [w])
  {
    match Find(t, w, 0)
    case Some(i) =>
      FirstIndexKept(t, tokens, w);
      var r := t[i := Entry(w, t[i].count + 1)];
      assert forall m :: 0 <= m < |r| ==> r[m].word == t[m].word;
    case None =>
      BumpOrderNew(t, tokens, w);
  }

  lemma TallySnoc(tokens: seq<string>, w: string)
    ensures Tally(tokens + [w]) == Bump(Tally(tokens), w)
  {
    assert (tokens + [w])[..|tokens|] == tokens;
  }

  /** The counter holds one item per distinct token, each item's count is the number of
      times its word occurs, and the items are in first-occurrence order. */
  lemma {:induction false} TallyFacts(tokens: seq<string>)
    ensures CountsOf(Tally(tokens), tokens) && FirstSeenOrder(Tally(tokens), tokens)
  {
    if tokens != [] {
      var n := |tokens| - 1;
      var init, w := tokens[..n], tokens[n];
      assert tokens == init + [w];
      TallyFacts(init);
      TallySnoc(init, w);
      BumpCounts(Tally(init), init, w);
      BumpOrder(Tally(init), init, w);
    }
  }

  /** The sum of the counts. */
  function Total(t: seq<Entry>): (r: nat) {
    if t == [] then 0 else Total(t[..|t| - 1]) + t[|t| - 1].count
  }

  lemma {:induction false} TotalAppend(a: seq<Entry>, b: seq<Entry>)
    ensures Total(a + b) == Total(a) + Total(b)
    decreases |b|
  {
    if b == [] {
      assert a + b == a;
    } else {
      var b' := b[..|b| - 1];
      assert (a + b)[..|a + b| - 1] == a + b';
      TotalAppend(a, b');
    }
  }

  lemma TotalUpdate(t: seq<Entry>, i: nat, e: Entry)
    requires i < |t|
    ensures Total(t[i := e]) == Total(t) - t[i].count + e.count
  {
    assert t == t[..i] + [t[i]] + t[i + 1..];
    assert t[i := e] == t[..i] + [e] + t[i + 1..];
    TotalAppend(t[..i] + [t[i]], t[i + 1..]);
    TotalAppend(t[..i] + [e], t[i + 1..]);
    TotalAppend(t[..i], [t[i]]);
    TotalAppend(t[..i], [e]);
  }

  /** Each token is counted once. */
  lemma {:induction false} TallyTotal(tokens: seq<string>)
    ensures Total(Tally(tokens)) == |tokens|
  {
    if tokens != [] {
      var n := |tokens| - 1;
      TallyTotal(tokens[..n]);
      var t := Tally(tokens[..n]);
      match Find(t, tokens[n], 0)
      case Some(i) =>
        TotalUpdate(t, i, Entry(tokens[n], t[i].count + 1));
      case None =>
        TotalAppend(t, [Entry(tokens[n], 1)]);
    }
  }

  // ---------------------------------------------------------------- most_common

  function EntryCount(e: Entry): int {
    e.count
  }

  /** `Counter.most_common(n)`: the items in stable non-increasing count order, cut to `n`. */
  function MostCommon(t: seq<Entry>, n: nat): (r: seq<Entry>)
    ensures |r| == if |t| <= n then |t| else n
  {
    var sorted := SortDesc(t, EntryCount);
    if |sorted| <= n then sorted else sorted[..n]
  }

  /** `Counter(all_tokens).most_common(20)` over the question tokens. */
  function KeywordTable(messages: seq<string>, tokenize: string -> seq<string>, stopwords: set<string>): (r: seq<Entry>)
    ensures |r| <= 20
  {
    MostCommon(Tally(QuestionTokens(messages, tokenize, stopwords)), 20)
  }

  /** In the sorted counter, an earlier item outranks a later one: a larger count, or the
      same count and an earlier first occurrence. */
  lemma Outranks(t: seq<Entry>, tokens: seq<string>, sorted: seq<Entry>, p: seq<nat>, i: nat, b: nat)
    requires FirstSeenOrder(t, tokens)
    requires StablyRearranges(sorted, t, p, EntryCount) && SortedDesc(sorted, EntryCount)
    requires i < b < |sorted|
    ensures sorted[i].count > sorted[b].count
            || (sorted[i].count == sorted[b].count && FirstIndex(tokens, sorted[i].word) < FirstIndex(tokens, sorted[b].word))
  {
    assert EntryCount(sorted[i]) >= EntryCount(sorted[b]);
    if sorted[i].count == sorted[b].count {
      assert EntryCount(sorted[i]) == EntryCount(sorted[b]);
      assert p[i] < p[b] && sorted[i] == t[p[i]] && sorted[b] == t[p[b]];
    }
  }

  /** The items of the sorted counter are items of the counter, each taken once. */
  lemma SortedItems(t: seq<Entry>, tokens: seq<string>, sorted: seq<Entry>, p: seq<nat>)
    requires CountsOf(t, tokens) && StablyRearranges(sorted, t, p, EntryCount)
    ensures forall i :: 0 <= i < |sorted| ==>
              sorted[i].word in tokens && sorted[i].count == multiset(tokens)[sorted[i].word]
    ensures forall i, j :: 0 <= i < j < |sorted| ==> sorted[i].word != sorted[j].word
  {
    forall i, j | 0 <= i < j < |sorted|
      ensures sorted[i].word != sorted[j].word
    {
      assert p[i] != p[j] && sorted[i] == t[p[i]] && sorted[j] == t[p[j]];
      if p[i] < p[j] {
        assert t[p[i]].word != t[p[j]].word;
      } else {
        assert t[p[j]].word != t[p[i]].word;
      }
    }
  }

  /** With at most `n` distinct words, `most_common(n)` lists every word. */
  lemma MostCommonCovers(t: seq<Entry>, tokens: seq<string>, n: nat)
    requires CountsOf(t, tokens) && |t| <= n
    ensures forall k :: 0 <= k < |tokens| ==>
              exists i :: 0 <= i < |MostCommon(t, n)| && MostCommon(t, n)[i].word == tokens[k]
  {
    var r := MostCommon(t, n);
    var p := SortDescStable(t, EntryCount);
    assert r == SortDesc(t, EntryCount);
    forall k | 0 <= k < |tokens|
      ensures exists i :: 0 <= i < |r| && r[i].word == tokens[k]
    {
      var j := Find(t, tokens[k], 0).value;
      assert j in p;
      var a :| 0 <= a < |p| && p[a] == j;
      assert r[a] == t[j];
    }
  }

  /** `r` is what `most_common(n)` promises over `tokens`, whose counter has `distinct`
      items: `n` rows, or every distinct word when there are at most `n`; each word once,
      with its exact number of occurrences; counts never increasing; and equal counts in
      order of first occurrence. */
  ghost predicate TopRows(r: seq<Entry>, tokens: seq<string>, distinct: nat, n: nat) {
    && |r| == (if distinct <= n then distinct else n)
    && (distinct <= n ==> forall k :: 0 <= k < |tokens| ==> exists i :: 0 <= i < |r| && r[i].word == tokens[k])
    && (forall i :: 0 <= i < |r| ==> r[i].word in tokens && r[i].count == multiset(tokens)[r[i].word])
    && (forall i, j :: 0 <= i < j < |r| ==> r[i].word != r[j].word)
    && (forall i, j :: 0 <= i < j < |r| ==> r[i].count >= r[j].count)
    && (forall i, j :: 0 <= i < j < |r| && r[i].count == r[j].count ==>
          FirstIndex(tokens, r[i].word) < FirstIndex(tokens, r[j].word))
  }

  /** The rows of `most_common(n)` over a counter of `tokens` are its top rows. */
  lemma CounterTopRows(t: seq<Entry>, tokens: seq<string>, n: nat)
    requires CountsOf(t, tokens) && FirstSeenOrder(t, tokens)
    ensures TopRows(MostCommon(t, n), tokens, |t|, n)
  {
    var sorted := SortDesc(t, EntryCount);
    var r := MostCommon(t, n);
    var p := SortDescStable(t, EntryCount);
    SortedItems(t, tokens, sorted, p);
    assert forall i :: 0 <= i < |r| ==> r[i] == sorted[i];
    forall i, j | 0 <= i < j < |r|
      ensures r[i].count > r[j].count
              || (r[i].count == r[j].count && FirstIndex(tokens, r[i].word) < FirstIndex(tokens, r[j].word))
    {
      Outranks(t, tokens, sorted, p, i, j);
    }
    if |t| <= n {
      MostCommonCovers(t, tokens, n);
    }
  }

  /** The rows of `Counter(tokens).most_common(n)`: `n` rows, or every distinct token when
      there are at most `n`; each token once, with its exact number of occurrences; counts
      never increasing; and equal counts in order of first occurrence. */
  lemma MostCommonRows(tokens: seq<string>, n: nat)
    ensures TopRows(MostCommon(Tally(tokens), n), tokens, |Tally(tokens)|, n)
  {
    TallyFacts(tokens);
    CounterTopRows(Tally(tokens), tokens, n);
  }

  /** Every word of `tokens` left out of `most_common(n)` over a counter of `tokens` ranks
      below every row: its count is smaller, or equal with a later first occurrence. */
  lemma CounterTop(t: seq<Entry>, tokens: seq<string>, n: nat, w: string)
    requires CountsOf(t, tokens) && FirstSeenOrder(t, tokens)
    requires w in tokens && Find(MostCommon(t, n), w, 0).None?
    ensures forall i :: 0 <= i < |MostCommon(t, n)| ==>
              var row := MostCommon(t, n)[i];
              row.count > multiset(tokens)[w]
              || (row.count == multiset(tokens)[w] && FirstIndex(tokens, row.word) < FirstIndex(tokens, w))
  {
    var sorted := SortDesc(t, EntryCount);
    var r := MostCommon(t, n);
    var p := SortDescStable(t, EntryCount);
    var k :| 0 <= k < |tokens| && tokens[k] == w;
    var j := Find(t, tokens[k], 0).value;
    assert j in p;
    var b :| 0 <= b < |p| && p[b] == j;
    assert sorted[b] == t[j];
    assert forall i :: 0 <= i < |r| ==> r[i] == sorted[i];
    assert b >= |r|;
    forall i | 0 <= i < |r|
      ensures r[i].count > multiset(tokens)[w]
              || (r[i].count == multiset(tokens)[w] && FirstIndex(tokens, r[i].word) < FirstIndex(tokens, w))
    {
      Outranks(t, tokens, sorted, p, i, b);
    }
  }

  /** `CounterTop` for the counter `Counter(tokens)` itself. */
  lemma MostCommonTop(tokens: seq<string>, n: nat, w: string)
    requires w in tokens && Find(MostCommon(Tally(tokens), n), w, 0).None?
    ensures forall i :: 0 <= i < |MostCommon(Tally(tokens), n)| ==>
              var row := MostCommon(Tally(tokens), n)[i];
              row.count > multiset(tokens)[w]
              || (row.count == multiset(tokens)[w] && FirstIndex(tokens, row.word) < FirstIndex(tokens, w))
  {
    TallyFacts(tokens);
    CounterTop(Tally(tokens), tokens, n, w);
  }

  /** The counts of `most_common(n)` add up to at most the number of tokens. */
  lemma MostCommonTotal(tokens: seq<string>, n: nat)
    ensures Total(MostCommon(Tally(tokens), n)) <= |tokens|
  {
    var t := Tally(tokens);
    var sorted := SortDesc(t, EntryCount);
    TallyTotal(tokens);
    SortedTotal(t);
    if |sorted| > n {
      assert sorted == sorted[..n] + sorted[n..];
      TotalAppend(sorted[..n], sorted[n..]);
    }
  }

  /** Inserting an item adds its count to the total. */
  lemma TotalInsert(s: seq<Entry>, k: nat, x: Entry)
    requires k <= |s|
    ensures Total(s[..k] + [x] + s[k..]) == Total(s) + x.count
  {
    assert s == s[..k] + s[k..];
    TotalAppend(s[..k], s[k..]);
    TotalAppend(s[..k] + [x], s[k..]);
    TotalAppend(s[..k], [x]);
    assert Total([x]) == x.count;
  }

  /** Sorting keeps the total. */
  lemma {:induction false} SortedTotal(t: seq<Entry>)
    ensures Total(SortDesc(t, EntryCount)) == Total(t)
  {
    if t != [] {
      var n := |t| - 1;
      var s := SortDesc(t[..n], EntryCount);
      SortedTotal(t[..n]);
      var k := InsertShape(s, t[n], EntryCount);
      TotalInsert(s, k, t[n]);
    }
  }
}
