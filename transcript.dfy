/**
 * Extraction of customer-authored messages from a chat transcript
 * (`extract_user_messages_from_log`). A transcript line looks like
 * `9:05 AM | Jane Doe: How do I reset my password?`; lines of any other shape are
 * dropped, and so are lines whose sender names the support staff.
 */
module Transcript {
  import opened Wrappers
  import opened PyStrings
  import opened Seqs

  /** The two regex groups of a matching line, each `strip()`ped. */
  datatype LogLine = LogLine(sender: string, message: string)

  /** Length of the `\d{1,2}:\d{2}` clock at the start of the line. `\d{1,2}` tries two
      digits first and then one; at most one of the two can be followed by `:`. */
  function ClockLength(line: string): Option<nat> {
    if |line| >= 5 && IsDigit(line[0]) && IsDigit(line[1]) && line[2] == ':' && IsDigit(line[3]) && IsDigit(line[4]) then Some(5)
    else if |line| >= 4 && IsDigit(line[0]) && line[1] == ':' && IsDigit(line[2]) && IsDigit(line[3]) then Some(4)
    else None
  }

  /** After the clock ending at `n`: `\s*[AP]M`, giving the position just past the `M`. */
  function MeridiemEnd(line: string, n: nat): Option<nat>
    requires n <= |line|
  {
    var p := SkipSpaces(line, n, |line|);
    if p + 2 <= |line| && (line[p] == 'A' || line[p] == 'P') && line[p + 1] == 'M' then Some(p + 2) else None
  }

  /** After the meridiem ending at `m`: `\s*\|`, giving the position just past the bar. */
  function BarEnd(line: string, m: nat): Option<nat>
    requires m <= |line|
  {
    var q := SkipSpaces(line, m, |line|);
    if q < |line| && line[q] == '|' then Some(q + 1) else None
  }

  /** Where group 1 of `\s*([^:]+?):` starts when the text from `b` has its first colon at
      `c`: `\s*` is greedy, but gives one character back when the lazy `[^:]+?` would
      otherwise have nothing before the colon. */
  function SenderStart(line: string, b: nat, c: nat): (r: nat)
    requires b < c <= |line|
    ensures b <= r < c
  {
    var ws := SkipSpaces(line, b, c);
    if ws < c then ws else c - 1
  }

  /** Where group 2 of `\s*(.*)$` starts on the text from `i`. */
  function TextStart(line: string, i: nat): (r: nat)
    requires i <= |line|
    ensures i <= r <= |line|
  {
    SkipSpaces(line, i, |line|)
  }

  /** The two regex groups. */
  function SenderGroup(line: string, b: nat, c: nat): string
    requires b < c <= |line|
  {
    line[SenderStart(line, b, c)..c]
  }

  function TextGroup(line: string, i: nat): string
    requires i <= |line|
  {
    line[TextStart(line, i)..]
  }

  /** `\s*([^:]+?):\s*(.*)$` on the text from `b`, both groups stripped (each stripped in
      place, see `FieldsAreStrippedGroups`). */
  function Fields(line: string, b: nat): Option<LogLine>
    requires b <= |line|
  {
    match IndexFrom(line, ':', b)
    case None => None
    case Some(c) =>
      if c == b then None
      else Some(LogLine(StripRange(line, SenderStart(line, b, c), c), StripRange(line, TextStart(line, c + 1), |line|)))
  }

  /** `re.match(r'^\d{1,2}:\d{2}\s*[AP]M\s*\|\s*([^:]+?):\s*(.*)$', line)` followed by
      `group(1).strip(), group(2).strip()`. Lines come from `split('\n')`, so they hold no
      newline and `(.*)$` takes the whole tail. */
  function ParseLine(line: string): Option<LogLine>
    requires '\n' !in line
  {
    var n :- ClockLength(line);
    var m :- MeridiemEnd(line, n);
    var b :- BarEnd(line, m);
    Fields(line, b)
  }

  // ------------------------------------------------------------ the pattern, piece by piece

  /** `line[..n]` is a clock: one or two digits, a colon and two digits. */
  predicate IsClockAt(line: string, n: nat) {
    || (n == 4 && |line| >= 4 && IsDigit(line[0]) && line[1] == ':' && IsDigit(line[2]) && IsDigit(line[3]))
    || (n == 5 && |line| >= 5 && IsDigit(line[0]) && IsDigit(line[1]) && line[2] == ':'
        && IsDigit(line[3]) && IsDigit(line[4]))
  }

  predicate NoColonBetween(line: string, i: nat, j: nat)
    requires i <= j <= |line|
  {
    forall k :: i <= k < j ==> line[k] != ':'
  }

  /** `line` has the documented shape, cut at the positions `n`, `p`, `q` and `c`: a clock
      `line[..n]`, whitespace `line[n..p]`, `AM` or `PM` at `p`, whitespace `line[p + 2..q]`,
      the bar at `q`, a non-empty colon-free run `line[q + 1..c]` (whitespace and the
      sender), the first colon at `c`, and the text after it. */
  predicate Shaped(line: string, n: nat, p: nat, q: nat, c: nat) {
    && n <= p && p + 2 <= q && q + 1 < c < |line|
    && IsClockAt(line, n) && SpacesBetween(line, n, p)
    && (line[p] == 'A' || line[p] == 'P') && line[p + 1] == 'M'
    && SpacesBetween(line, p + 2, q) && line[q] == '|'
    && NoColonBetween(line, q + 1, c) && line[c] == ':'
  }

  /** The fields are the two regex groups, stripped. */
  lemma FieldsAreStrippedGroups(line: string, b: nat, c: nat)
    requires b < c < |line| && IndexFrom(line, ':', b) == Some(c)
    ensures Fields(line, b) == Some(LogLine(Strip(SenderGroup(line, b, c)), Strip(TextGroup(line, c + 1))))
  {
    FieldsUnfold(line, b, c);
    StripRangeSlice(line, SenderStart(line, b, c), c);
    StripRangeSuffix(line, TextStart(line, c + 1));
  }

  /** Stripping group 1 gives the stripped text between the bar and the first colon,
      whichever way `\s*` and `[^:]+?` share it. */
  lemma SenderIsUpToFirstColon(line: string, b: nat, c: nat)
    requires b < c <= |line|
    ensures StripRange(line, SenderStart(line, b, c), c) == StripRange(line, b, c)
  {
    SkipSpacesSpaces(line, b, c);
    StripRangeAfterSpaces(line, b, SenderStart(line, b, c), c);
  }

  /** Stripping group 2 gives the stripped text after the colon. */
  lemma TextIsAfterColon(line: string, i: nat)
    requires i <= |line|
    ensures StripRange(line, TextStart(line, i), |line|) == StripRange(line, i, |line|)
  {
    SkipSpacesSpaces(line, i, |line|);
    StripRangeAfterSpaces(line, i, TextStart(line, i), |line|);
  }

  /** With the first colon from `b` at `c`, the fields are the stripped text before and
      after it. */
  lemma FieldsUnfold(line: string, b: nat, c: nat)
    requires b < c < |line| && IndexFrom(line, ':', b) == Some(c)
    ensures Fields(line, b) == Some(LogLine(StripRange(line, SenderStart(line, b, c), c), StripRange(line, TextStart(line, c + 1), |line|)))
  {
  }

  lemma FieldsRange(line: string, b: nat, c: nat)
    requires b < c < |line| && IndexFrom(line, ':', b) == Some(c)
    ensures Fields(line, b) == Some(LogLine(StripRange(line, b, c), StripRange(line, c + 1, |line|)))
  {
    FieldsUnfold(line, b, c);
    SenderIsUpToFirstColon(line, b, c);
    TextIsAfterColon(line, c + 1);
  }

  lemma StripAroundColon(line: string, b: nat, c: nat)
    requires b < c < |line|
    ensures StripRange(line, b, c) == Strip(line[b..c])
    ensures StripRange(line, c + 1, |line|) == Strip(line[c + 1..])
  {
    StripRangeSlice(line, b, c);
    StripRangeSuffix(line, c + 1);
  }

  lemma FieldsAt(line: string, b: nat, c: nat)
    requires b < c < |line| && IndexFrom(line, ':', b) == Some(c)
    ensures Fields(line, b) == Some(LogLine(Strip(line[b..c]), Strip(line[c + 1..])))
  {
    FieldsRange(line, b, c);
    StripAroundColon(line, b, c);
  }

  /** `\s*` over whitespace up to a non-whitespace character lands on that character. */
  lemma SkipGap(line: string, i: nat, j: nat)
    requires i <= j < |line| && SpacesBetween(line, i, j) && !IsSpace(line[j])
    ensures SkipSpaces(line, i, |line|) == j
  {
    SkipSpacesOver(line, i, j, |line|);
  }

  lemma MeridiemComplete(line: string, n: nat, p: nat)
    requires n <= p && p + 1 < |line| && SpacesBetween(line, n, p)
    requires (line[p] == 'A' || line[p] == 'P') && line[p + 1] == 'M'
    ensures MeridiemEnd(line, n) == Some(p + 2)
  {
    SkipGap(line, n, p);
  }

  lemma BarComplete(line: string, m: nat, q: nat)
    requires m <= q < |line| && SpacesBetween(line, m, q) && line[q] == '|'
    ensures BarEnd(line, m) == Some(q + 1)
  {
    SkipGap(line, m, q);
  }

  lemma FieldsComplete(line: string, b: nat, c: nat)
    requires b < c < |line| && NoColonBetween(line, b, c) && line[c] == ':'
    ensures Fields(line, b) == Some(LogLine(Strip(line[b..c]), Strip(line[c + 1..])))
  {
    IndexFromAt(line, ':', b, c);
    FieldsAt(line, b, c);
  }

  /** Once the three prefix stages have matched, the line's fields are those from `b`. */
  lemma ParseLineStages(line: string, n: nat, m: nat, b: nat)
    requires '\n' !in line
    requires ClockLength(line) == Some(n) && n <= |line|
    requires MeridiemEnd(line, n) == Some(m) && m <= |line|
    requires BarEnd(line, m) == Some(b) && b <= |line|
    ensures ParseLine(line) == Fields(line, b)
  {
  }

  lemma ParseLineFromStages(line: string, n: nat, m: nat, b: nat, c: nat)
    requires '\n' !in line
    requires ClockLength(line) == Some(n) && n <= |line|
    requires MeridiemEnd(line, n) == Some(m) && m <= |line|
    requires BarEnd(line, m) == Some(b) && b < c < |line|
    requires NoColonBetween(line, b, c) && line[c] == ':'
    ensures ParseLine(line) == Some(LogLine(Strip(line[b..c]), Strip(line[c + 1..])))
  {
    ParseLineStages(line, n, m, b);
    FieldsComplete(line, b, c);
  }

  lemma ClockComplete(line: string, n: nat)
    requires IsClockAt(line, n)
    ensures ClockLength(line) == Some(n)
  {
  }

  /** Every line of the documented shape is parsed, and its fields are the stripped text
      between the bar and the first colon and the stripped text after that colon. */
  lemma ParseLineComplete(line: string, n: nat, p: nat, q: nat, c: nat)
    requires '\n' !in line
    requires Shaped(line, n, p, q, c)
    ensures ParseLine(line) == Some(LogLine(Strip(line[q + 1..c]), Strip(line[c + 1..])))
  {
    ClockComplete(line, n);
    MeridiemComplete(line, n, p);
    BarComplete(line, p + 2, q);
    ParseLineFromStages(line, n, p + 2, q + 1, c);
  }

  lemma ClockSound(line: string, n: nat)
    requires ClockLength(line) == Some(n)
    ensures IsClockAt(line, n)
  {
  }

  lemma MeridiemSound(line: string, n: nat)
    requires n <= |line| && MeridiemEnd(line, n).Some?
    ensures var p := SkipSpaces(line, n, |line|);
            && MeridiemEnd(line, n) == Some(p + 2) && p + 1 < |line|
            && (line[p] == 'A' || line[p] == 'P') && line[p + 1] == 'M' && SpacesBetween(line, n, p)
  {
    SkipSpacesSpaces(line, n, |line|);
  }

  lemma BarSound(line: string, m: nat)
    requires m <= |line| && BarEnd(line, m).Some?
    ensures var q := SkipSpaces(line, m, |line|);
            && BarEnd(line, m) == Some(q + 1) && q < |line| && line[q] == '|' && SpacesBetween(line, m, q)
  {
    SkipSpacesSpaces(line, m, |line|);
  }

  /** A parsed line has passed the three prefix stages. */
  lemma StagesSound(line: string) returns (n: nat, m: nat, b: nat)
    requires '\n' !in line
    requires ParseLine(line).Some?
    ensures n <= m <= b <= |line|
    ensures ClockLength(line) == Some(n) && MeridiemEnd(line, n) == Some(m) && BarEnd(line, m) == Some(b)
    ensures ParseLine(line) == Fields(line, b)
  {
    n := ClockLength(line).value;
    m := MeridiemEnd(line, n).value;
    b := BarEnd(line, m).value;
    ParseLineStages(line, n, m, b);
  }

  /** Parsed fields end at the first colon after the bar. */
  lemma FieldsSound(line: string, b: nat) returns (c: nat)
    requires b <= |line| && Fields(line, b).Some?
    ensures b < c < |line| && line[c] == ':' && NoColonBetween(line, b, c)
    ensures Fields(line, b) == Some(LogLine(Strip(line[b..c]), Strip(line[c + 1..])))
  {
    c := IndexFrom(line, ':', b).value;
    IndexFromFirst(line, ':', b);
    FieldsAt(line, b, c);
  }

  /** The positions the stages found cut the line into the documented shape. */
  lemma ShapedFromStages(line: string, n: nat, m: nat, b: nat, c: nat) returns (p: nat, q: nat)
    requires ClockLength(line) == Some(n) && n <= |line|
    requires MeridiemEnd(line, n) == Some(m) && m <= |line|
    requires BarEnd(line, m) == Some(b) && b < c < |line|
    requires line[c] == ':' && NoColonBetween(line, b, c)
    ensures b == q + 1
    ensures Shaped(line, n, p, q, c)
  {
    ClockSound(line, n);
    MeridiemSound(line, n);
    BarSound(line, m);
    p, q := SkipSpaces(line, n, |line|), SkipSpaces(line, m, |line|);
  }

  /** Only lines of the documented shape are parsed, and the fields of a parsed line are
      the stripped pieces the shape delimits. */
  lemma ParseLineSound(line: string) returns (n: nat, p: nat, q: nat, c: nat)
    requires '\n' !in line
    requires ParseLine(line).Some?
    ensures Shaped(line, n, p, q, c)
    ensures ParseLine(line) == Some(LogLine(Strip(line[q + 1..c]), Strip(line[c + 1..])))
  {
    var m, b;
    n, m, b := StagesSound(line);
    c := FieldsSound(line, b);
    p, q := ShapedFromStages(line, n, m, b, c);
    SameFields(ParseLine(line), line, b, q + 1, c);
  }

  /** Fields cut at equal positions are equal. */
  lemma SameFields(x: Option<LogLine>, line: string, b: nat, b': nat, c: nat)
    requires b == b' <= c < |line|
    requires x == Some(LogLine(Strip(line[b..c]), Strip(line[c + 1..])))
    ensures x == Some(LogLine(Strip(line[b'..c]), Strip(line[c + 1..])))
  {
  }

  // ------------------------------------------------------------ the staff denylist

  /** A pattern character against a text character under `re.IGNORECASE`: the ASCII case
      pair, plus the two non-ASCII forms the regex engine folds to `i` (U+0130, U+0131) and
      the Kelvin sign it folds to `k`. Pattern characters are lowercase letters or a space. */
  predicate CharMatchesIgnoreCase(c: char, p: char) {
    || c == p
    || (IsAsciiLower(p) && c == (p as int - 32) as char)
    || (p == 'i' && (c == '\U{130}' || c == '\U{131}'))
    || (p == 'k' && c == '\U{212A}')
  }

  /** `p` matches, ignoring case, at position `i` of `s`. */
  predicate MatchesIgnoreCaseAt(s: string, p: string, i: nat) {
    i + |p| <= |s| && forall j :: 0 <= j < |p| ==> CharMatchesIgnoreCase(s[i + j], p[j])
  }

  /** `p` matches, ignoring case, at some position of `s` from `i` on. */
  predicate ContainsIgnoreCaseFrom(s: string, p: string, i: nat)
    requires i <= |s|
    decreases |s| - i
  {
    MatchesIgnoreCaseAt(s, p, i) || (i < |s| && ContainsIgnoreCaseFrom(s, p, i + 1))
  }

  /** `re.search(p, s, re.IGNORECASE)` for a literal pattern `p`. */
  predicate ContainsIgnoreCase(s: string, p: string) {
    ContainsIgnoreCaseFrom(s, p, 0)
  }

  /** The alternatives of `Quill|Nattalie|Nikki|Amanda|Operator|The Quill Team`. */
  const StaffNames: seq<string> := ["quill", "nattalie", "nikki", "amanda", "operator", "the quill team"]

  predicate IsStaffSender(sender: string) {
    exists k :: 0 <= k < |StaffNames| && ContainsIgnoreCase(sender, StaffNames[k])
  }

  lemma {:induction false} ContainsIgnoreCaseAt(s: string, p: string, i: nat, j: nat)
    requires i <= j <= |s| && MatchesIgnoreCaseAt(s, p, j)
    ensures ContainsIgnoreCaseFrom(s, p, i)
    decreases j - i
  {
    if i < j {
      ContainsIgnoreCaseAt(s, p, i + 1, j);
    }
  }

  lemma {:induction false} ContainsIgnoreCaseWitness(s: string, p: string, i: nat) returns (j: nat)
    requires i <= |s| && ContainsIgnoreCaseFrom(s, p, i)
    ensures i <= j && MatchesIgnoreCaseAt(s, p, j)
    decreases |s| - i
  {
    if MatchesIgnoreCaseAt(s, p, i) {
      j := i;
    } else {
      j := ContainsIgnoreCaseWitness(s, p, i + 1);
    }
  }

  /** A sender is staff exactly when one of the names occurs in it, ignoring case. */
  lemma StaffSenderIff(sender: string)
    ensures IsStaffSender(sender) <==>
            exists k, i :: 0 <= k < |StaffNames| && 0 <= i && MatchesIgnoreCaseAt(sender, StaffNames[k], i)
  {
    if IsStaffSender(sender) {
      var k :| 0 <= k < |StaffNames| && ContainsIgnoreCase(sender, StaffNames[k]);
      var i := ContainsIgnoreCaseWitness(sender, StaffNames[k], 0);
    }
    if exists k, i :: 0 <= k < |StaffNames| && 0 <= i && MatchesIgnoreCaseAt(sender, StaffNames[k], i) {
      var k, i :| 0 <= k < |StaffNames| && 0 <= i && MatchesIgnoreCaseAt(sender, StaffNames[k], i);
      ContainsIgnoreCaseAt(sender, StaffNames[k], 0, i);
    }
  }

  /** The last alternative adds nothing: a sender holding "The Quill Team" holds "Quill". */
  lemma StaffTeamNameRedundant(sender: string)
    ensures IsStaffSender(sender) <==> exists k :: 0 <= k < 5 && ContainsIgnoreCase(sender, StaffNames[k])
  {
    if ContainsIgnoreCase(sender, StaffNames[5]) {
      var i := ContainsIgnoreCaseWitness(sender, "the quill team", 0);
      assert MatchesIgnoreCaseAt(sender, "quill", i + 4) by {
        forall j | 0 <= j < 5 ensures CharMatchesIgnoreCase(sender[i + 4 + j], "quill"[j]) {
          assert "the quill team"[j + 4] == "quill"[j];
        }
      }
      ContainsIgnoreCaseAt(sender, "quill", 0, i + 4);
      assert ContainsIgnoreCase(sender, StaffNames[0]);
    }
  }

  // ------------------------------------------------------------ the extractor

  /** What one line contributes: its stripped text when it parses and its sender is not staff. */
  function LineMessages(line: string): seq<string>
    requires '\n' !in line
  {
    match ParseLine(line)
    case None => []
    case Some(l) => if IsStaffSender(l.sender) then [] else [l.message]
  }

  predicate NoNewlines(lines: seq<string>) {
    forall k :: 0 <= k < |lines| ==> '\n' !in lines[k]
  }

  /** What each line contributes, line by line. */
  function Contributions(lines: seq<string>): (r: seq<seq<string>>)
    requires NoNewlines(lines)
    ensures |r| == |lines| && forall k :: 0 <= k < |lines| ==> r[k] == LineMessages(lines[k])
  {
    seq(|lines|, k requires 0 <= k < |lines| => LineMessages(lines[k]))
  }

  /** The messages of `lines`, in line order. */
  function UserMessages(lines: seq<string>): seq<string>
    requires NoNewlines(lines)
  {
    Concat(Contributions(lines))
  }

  /** `extract_user_messages_from_log`: split on newlines, keep the text of every
      non-staff line of the transcript shape, in line order. */
  method ExtractUserMessages(text: string) returns (messages: seq<string>)
    ensures NoNewlines(Split(text, '\n')) && messages == UserMessages(Split(text, '\n'))
  {
    var lines := Split(text, '\n');
    SplitPiecesFree(text, '\n');
    ghost var parts := Contributions(lines);
    messages := [];
    var i := 0;
    while i < |lines|
      invariant 0 <= i <= |lines|
      invariant messages == Concat(parts[..i])
    {
      var line := lines[i];
      var parsed := ParseLine(line);
      if parsed.Some? {
        var sender, message := parsed.value.sender, parsed.value.message;
        if !IsStaffSender(sender) {
          messages := messages + [message];
        }
      }
      ConcatSnoc(parts, i);
      i := i + 1;
    }
    assert parts[..i] == parts;
  }

  // ------------------------------------------------------------ properties of the extractor

  /** A line contributes at most one message. */
  lemma LineMessagesAtMostOne(lines: seq<string>)
    requires NoNewlines(lines)
    ensures forall k :: 0 <= k < |lines| ==> |Contributions(lines)[k]| <= 1
  {
  }

  /** The output follows line order: the messages of a concatenation of transcripts are
      the concatenation of their messages. */
  lemma UserMessagesAppend(a: seq<string>, b: seq<string>)
    requires NoNewlines(a) && NoNewlines(b)
    ensures NoNewlines(a + b)
    ensures UserMessages(a + b) == UserMessages(a) + UserMessages(b)
  {
    var ca, cb, cab := Contributions(a), Contributions(b), Contributions(a + b);
    forall k | 0 <= k < |cab| ensures cab[k] == (ca + cb)[k] {
      if k < |a| {
        assert (a + b)[k] == a[k];
      } else {
        assert (a + b)[k] == b[k - |a|];
      }
    }
    assert cab == ca + cb;
    ConcatAppend(Contributions(a), Contributions(b));
  }

  /** At most one message per line. */
  lemma UserMessagesLength(lines: seq<string>)
    requires NoNewlines(lines)
    ensures |UserMessages(lines)| <= |lines|
  {
    LineMessagesAtMostOne(lines);
    ConcatLength(Contributions(lines));
  }

  /** A transcript without a single line of the shape yields no message. */
  lemma NoShapedLineNoMessage(lines: seq<string>)
    requires NoNewlines(lines)
    requires forall k :: 0 <= k < |lines| ==> ParseLine(lines[k]).None?
    ensures UserMessages(lines) == []
  {
    ConcatEmpty(Contributions(lines));
  }

  /** A line contributes `msg` exactly when it parses, its sender is not staff and its
      stripped text is `msg`. */
  lemma LineMessagesOne(line: string, msg: string)
    requires '\n' !in line
    ensures LineMessages(line) == [msg] <==>
            ParseLine(line).Some? && !IsStaffSender(ParseLine(line).value.sender) && ParseLine(line).value.message == msg
  {
  }

  /** Each message comes from its own line, in increasing line order, and that line
      contributes exactly that message. */
  lemma UserMessagesOrigin(lines: seq<string>) returns (origin: seq<nat>)
    requires NoNewlines(lines)
    ensures |origin| == |UserMessages(lines)|
    ensures forall i :: 0 <= i < |origin| ==> origin[i] < |lines|
    ensures forall i, j :: 0 <= i < j < |origin| ==> origin[i] < origin[j]
    ensures forall i :: 0 <= i < |origin| ==> LineMessages(lines[origin[i]]) == [UserMessages(lines)[i]]
  {
    LineMessagesAtMostOne(lines);
    origin := ConcatOrigin(Contributions(lines));
  }
}
