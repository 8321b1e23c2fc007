/**
 * The summary export: `find_conversation_tag_column` and `parse_export_two_column_table`.
 * The export holds metadata lines above a table whose header row names the
 * conversation tag and the number of new conversations. The CSV reader is a
 * parameter: it turns the lines from the header row on into a header and rows of cells.
 */
module TagTable {
  import opened Wrappers
  import opened PyStrings
  import opened Seqs
  import opened Sorting

  /** A CSV file as the reader returns it: the header row and the data rows. */
  datatype Table = Table(header: seq<string>, rows: seq<seq<string>>)

  /** One row of the summary: its tag, its count coerced to an integer, and the row's cells. */
  datatype TagRow = TagRow(tag: string, count: int, cells: seq<string>)

  /** What `parse_export_two_column_table` returns. */
  datatype Summary =
      /** No header row: the main table, renamed and filtered. */
    | MainFiltered(header: seq<string>, kept: seq<seq<string>>)
      /** A header row, but no column for the tag or the count: an empty frame. */
    | NoColumns
      /** The renaming leaves the label `Conversation tag` or `New conversations` on
          no column or on two: pandas then fails or selects a frame rather than a column. */
    | LabelClash
      /** The table: renamed, counts coerced, denylisted tags removed, sorted by count. */
    | Ranked(header: seq<string>, rows: seq<TagRow>)

  /** `TAGS_TO_REMOVE`. */
  const TagsToRemove: seq<string> := [
    "Free", "Not tagged", "Conversation Rating - High Score", "District Premium",
    "Teacher Premium", "School Premium", "Conversation Rating - Low Score"
  ]

  /** A missing cell of a short row reads as the empty string (pandas reads NaN, which
      is no tag of the denylist and coerces to 0 as well). */
  function Cell(row: seq<string>, i: nat): string {
    if i < |row| then row[i] else ""
  }

  // ---------------------------------------------------------------- column names

  /** `re.sub(r'\s+', ' ', c).strip().lower()`. */
  function NormalizeName(c: string): (r: string) {
    Lower(Strip(CollapseSpaces(c)))
  }

  predicate IsTagColumn(c: string) {
    var nc := NormalizeName(c);
    Contains(nc, "conversation") && Contains(nc, "tag")
  }

  predicate IsTagOrConversationColumn(c: string) {
    var nc := NormalizeName(c);
    Contains(nc, "tag") || Contains(nc, "conversation")
  }

  predicate IsCountColumn(c: string) {
    var nc := NormalizeName(c);
    Contains(nc, "new") && (Contains(nc, "conversations") || Contains(nc, "conversation") || Contains(nc, "count"))
  }

  /** `re.search(r'\d|new|count|conversations', nc)`. */
  predicate LooksLikeCountColumn(c: string) {
    var nc := NormalizeName(c);
    (exists i :: 0 <= i < |nc| && IsDigit(nc[i]))
    || Contains(nc, "new") || Contains(nc, "count") || Contains(nc, "conversations")
  }

  /** The position of the column `find_conversation_tag_column` picks: the first naming
      both words, otherwise the first naming either. */
  function ConvColumn(columns: seq<string>): (r: Option<nat>)
    ensures r.Some? ==> r.value < |columns|
  {
    match FirstWhere(columns, IsTagColumn, 0)
    case Some(i) => Some(i)
    case None => FirstWhere(columns, IsTagOrConversationColumn, 0)
  }

  /** `find_conversation_tag_column(columns)`: the name of that column. */
  function FindConversationTagColumn(columns: seq<string>): (r: Option<string>) {
    match ConvColumn(columns)
    case Some(i) => Some(columns[i])
    case None => None
  }

  /** The column found is a column; it is the first naming both "conversation" and "tag"
      when there is one, and otherwise the first naming either; there is none exactly when
      no column names either. */
  lemma FindConversationTagColumnSpec(columns: seq<string>)
    ensures var r := FindConversationTagColumn(columns);
      && (r.Some? ==> r.value in columns)
      && (r.None? <==> forall k :: 0 <= k < |columns| ==> !IsTagOrConversationColumn(columns[k]))
      && ((exists k :: 0 <= k < |columns| && IsTagColumn(columns[k])) ==>
            exists i :: 0 <= i < |columns| && r == Some(columns[i]) && IsTagColumn(columns[i])
                        && forall k :: 0 <= k < i ==> !IsTagColumn(columns[k]))
      && ((forall k :: 0 <= k < |columns| ==> !IsTagColumn(columns[k])) && r.Some? ==>
            exists i :: 0 <= i < |columns| && r == Some(columns[i]) && IsTagOrConversationColumn(columns[i])
                        && forall k :: 0 <= k < i ==> !IsTagOrConversationColumn(columns[k]))
  {
    var first := FirstWhere(columns, IsTagColumn, 0);
    var second := FirstWhere(columns, IsTagOrConversationColumn, 0);
    if first.Some? {
      var i := first.value;
      assert FindConversationTagColumn(columns) == Some(columns[i]);
      assert IsTagOrConversationColumn(columns[i]);
    } else if second.Some? {
      var i := second.value;
      assert FindConversationTagColumn(columns) == Some(columns[i]);
    }
  }

  // ---------------------------------------------------------------- the header row

  /** The header test: the stripped, lowercased line without quotes, stripped again,
      starts with "conversation tag" and contains "new conversations". */
  predicate IsHeaderLine(line: string) {
    var s := Strip(RemoveChar(RemoveChar(Lower(Strip(line)), '"'), '\''));
    StartsWith(s, "conversation tag") && Contains(s, "new conversations")
  }

  /** The index of the header row: the first line that passes the header test. */
  method FindHeaderIndex(lines: seq<string>) returns (headerIdx: Option<nat>)
    ensures headerIdx == FirstWhere(lines, IsHeaderLine, 0)
    ensures headerIdx.Some? ==> headerIdx.value < |lines| && IsHeaderLine(lines[headerIdx.value])
    ensures forall k :: 0 <= k < |lines| && (headerIdx.None? || k < headerIdx.value) ==> !IsHeaderLine(lines[k])
  {
    headerIdx := None;
    var i := 0;
    while i < |lines|
      invariant 0 <= i <= |lines|
      invariant FirstWhere(lines, IsHeaderLine, 0) == FirstWhere(lines, IsHeaderLine, i)
    {
      if IsHeaderLine(lines[i]) {
        headerIdx := Some(i);
        return;
      }
      i := i + 1;
    }
  }

  // ---------------------------------------------------------------- resolving the columns

  /** `tag_col`: the last column naming both "conversation" and "tag" (the loop has no
      `break`), else the first naming either. */
  function TagColumn(header: seq<string>): (r: Option<nat>) {
    match LastWhere(header, IsTagColumn)
    case Some(i) => Some(i)
    case None => FirstWhere(header, IsTagOrConversationColumn, 0)
  }

  /** `count_col`: the last column naming "new" with a conversation or a count, else the
      first matching `\d|new|count|conversations`. */
  function CountColumn(header: seq<string>): (r: Option<nat>) {
    match LastWhere(header, IsCountColumn)
    case Some(i) => Some(i)
    case None => FirstWhere(header, LooksLikeCountColumn, 0)
  }

  /** The first position from `i` on whose column passes `p`, by a loop with `break`. */
  method FirstColumn(header: seq<string>, p: string -> bool) returns (col: Option<nat>)
    ensures col == FirstWhere(header, p, 0)
  {
    col := None;
    var i := 0;
    while i < |header|
      invariant 0 <= i <= |header|
      invariant FirstWhere(header, p, 0) == FirstWhere(header, p, i)
    {
      if p(header[i]) {
        col := Some(i);
        break;
      }
      i := i + 1;
    }
  }

  /** The column-resolution loops: one pass over all columns that overwrites `tag_col` and
      `count_col` on every match, then a first-match fallback for each one still unset. */
  method ResolveColumns(header: seq<string>) returns (tagCol: Option<nat>, countCol: Option<nat>)
    ensures tagCol == TagColumn(header) && countCol == CountColumn(header)
  {
    tagCol, countCol := None, None;
    var i := 0;
    while i < |header|
      invariant 0 <= i <= |header|
      invariant tagCol == LastWhere(header[..i], IsTagColumn)
      invariant countCol == LastWhere(header[..i], IsCountColumn)
    {
      assert header[..i + 1][..i] == header[..i];
      if IsTagColumn(header[i]) {
        tagCol := Some(i);
      }
      if IsCountColumn(header[i]) {
        countCol := Some(i);
      }
      i := i + 1;
    }
    assert header[..i] == header;
    if tagCol.None? {
      tagCol := FirstColumn(header, IsTagOrConversationColumn);
    }
    if countCol.None? {
      countCol := FirstColumn(header, LooksLikeCountColumn);
    }
  }

  /** Each resolved column is one of the header's, and it names what the resolution looked
      for; the tag column is the last full match and, failing one, the first partial match. */
  lemma ResolvedColumnsSpec(header: seq<string>)
    ensures TagColumn(header).Some? ==> TagColumn(header).value < |header|
    ensures CountColumn(header).Some? ==> CountColumn(header).value < |header|
    ensures TagColumn(header).None? <==> forall k :: 0 <= k < |header| ==> !IsTagOrConversationColumn(header[k])
    ensures CountColumn(header).None? <==> forall k :: 0 <= k < |header| ==> !LooksLikeCountColumn(header[k])
    ensures forall i :: TagColumn(header) == Some(i) && IsTagColumn(header[i]) ==>
              forall k :: i < k < |header| ==> !IsTagColumn(header[k])
  {
    var last := LastWhere(header, IsTagColumn);
    if last.Some? {
      assert IsTagOrConversationColumn(header[last.value]);
    }
    var lastCount := LastWhere(header, IsCountColumn);
    if lastCount.Some? {
      var nc := NormalizeName(header[lastCount.value]);
      assert Contains(nc, "new");
      assert LooksLikeCountColumn(header[lastCount.value]);
    }
    forall i | TagColumn(header) == Some(i) && IsTagColumn(header[i])
      ensures forall k :: i < k < |header| ==> !IsTagColumn(header[k])
    {
    }
  }

  // ---------------------------------------------------------------- counts

  predicate AllDigits(s: string) {
    forall i :: 0 <= i < |s| ==> IsDigit(s[i])
  }

  /** The value of a run of decimal digits. */
  function DigitsValue(s: string): (n: nat)
    requires AllDigits(s)
  {
    if s == [] then 0 else 10 * DigitsValue(s[..|s| - 1]) + (s[|s| - 1] as int - '0' as int)
  }

  /** An integer numeral: an optional sign and at least one digit. */
  predicate IsNumeral(s: string) {
    (|s| >= 1 && AllDigits(s))
    || (|s| >= 2 && (s[0] == '+' || s[0] == '-') && AllDigits(s[1..]))
  }

  /** `pd.to_numeric(cell, errors='coerce')` then `fillna(0).astype(int)`, for integer
      cells: a numeral gives its value, negative ones included, and anything else 0. */
  function ParseCount(cell: string): (n: int)
    ensures !IsNumeral(cell) ==> n == 0
  {
    if |cell| >= 1 && AllDigits(cell) then DigitsValue(cell)
    else if IsNumeral(cell) then
      var v: int := DigitsValue(cell[1..]);
      if cell[0] == '-' then -v else v
    else 0
  }

  /** The decimal numeral of `n`, without leading zeros. */
  function ShowNat(n: nat): (s: string)
    ensures |s| >= 1 && AllDigits(s)
  {
    var d := ['0' + (n % 10) as char];
    if n < 10 then d else ShowNat(n / 10) + d
  }

  /** The decimal numeral of `n`, with a minus sign when negative. */
  function Show(n: int): (s: string) {
    if n < 0 then "-" + ShowNat(-n) else ShowNat(n)
  }

  lemma {:induction false} ShowNatValue(n: nat)
    ensures DigitsValue(ShowNat(n)) == n
  {
    var d := ['0' + (n % 10) as char];
    if n >= 10 {
      ShowNatValue(n / 10);
      var s := ShowNat(n / 10) + d;
      assert s[..|s| - 1] == ShowNat(n / 10);
    }
  }

  /** Every integer count survives being written out and coerced back, negative ones
      included: the coercion keeps negative counts rather than clamping them to zero. */
  lemma ParseShow(n: int)
    ensures ParseCount(Show(n)) == n
  {
    if n < 0 {
      ShowNatValue(-n);
      assert Show(n)[1..] == ShowNat(-n);
      assert !IsDigit(Show(n)[0]);
    } else {
      ShowNatValue(n);
    }
  }

  // ---------------------------------------------------------------- the summary

  /** `~isin(TAGS_TO_REMOVE)`: the exact, case-sensitive denylist test. */
  predicate Kept(r: TagRow) {
    r.tag !in TagsToRemove
  }

  function RowCount(r: TagRow): int {
    r.count
  }

  /** The table's rows, one by one, with the tag and the coerced count read out: row `k`
      of the result is row `k` of the table, its tag cell and its count cell coerced. */
  function TagRows(rows: seq<seq<string>>, tagCol: nat, countCol: nat): (r: seq<TagRow>)
    ensures |r| == |rows|
    ensures forall k :: 0 <= k < |r| ==>
              r[k] == TagRow(Cell(rows[k], tagCol), ParseCount(Cell(rows[k], countCol)), rows[k])
  {
    if rows == [] then []
    else [TagRow(Cell(rows[0], tagCol), ParseCount(Cell(rows[0], countCol)), rows[0])]
         + TagRows(rows[1..], tagCol, countCol)
  }

  /** The no-header fallback: the main table with its tag column renamed and the
      denylisted rows removed; nothing is coerced or sorted. */
  function MainFallback(main: Table, convCol: nat): (r: Summary)
    requires convCol < |main.header|
  {
    MainFiltered(main.header[convCol := "Conversation tag"], Select(main.rows, row => Cell(row, convCol) !in TagsToRemove))
  }

  /** Renaming column `t` to `Conversation tag` and column `c` to `New conversations`
      does not give each label to exactly one column: the two are the same column, or
      another column already bears one of the labels. */
  predicate Clash(header: seq<string>, t: nat, c: nat) {
    t == c
    || exists j | 0 <= j < |header| :: j != t && j != c && (header[j] == "Conversation tag" || header[j] == "New conversations")
  }

  /** The header path: the table read from the header row on, resolved, coerced,
      renamed, filtered and sorted. */
  function RankTable(table: Table): (r: Summary) {
    match (TagColumn(table.header), CountColumn(table.header))
    case (Some(t), Some(c)) =>
      if Clash(table.header, t, c) then LabelClash
      else
        var header := table.header[t := "Conversation tag"][c := "New conversations"];
        Ranked(header, SortDesc(Select(TagRows(table.rows, t, c), Kept), RowCount))
    case _ => NoColumns
  }

  /** `parse_export_two_column_table`, as a value. */
  function ExportSummary(lines: seq<string>, readCsv: seq<string> -> Table, main: Table, convCol: nat): (r: Summary)
    requires convCol < |main.header|
  {
    match FirstWhere(lines, IsHeaderLine, 0)
    case None => MainFallback(main, convCol)
    case Some(h) => RankTable(readCsv(lines[h..]))
  }

  /** The module-level flow around the summary: `conv_col` is searched in the main
      table's columns, a missing one raises (`None` here), and otherwise the summary is
      parsed with that column. */
  function TopTags(lines: seq<string>, readCsv: seq<string> -> Table, main: Table): (r: Option<Summary>) {
    match ConvColumn(main.header)
    case None => None
    case Some(c) => Some(ExportSummary(lines, readCsv, main, c))
  }

  /** The run stops exactly when no main column names "conversation" or "tag"; otherwise
      the summary is parsed with the column whose name the search returned. */
  lemma TopTagsSpec(lines: seq<string>, readCsv: seq<string> -> Table, main: Table)
    ensures TopTags(lines, readCsv, main).None?
            <==> forall k :: 0 <= k < |main.header| ==> !IsTagOrConversationColumn(main.header[k])
    ensures TopTags(lines, readCsv, main).Some? ==>
              exists c :: 0 <= c < |main.header|
                && Some(main.header[c]) == FindConversationTagColumn(main.header)
                && TopTags(lines, readCsv, main) == Some(ExportSummary(lines, readCsv, main, c))
  {
    FindConversationTagColumnSpec(main.header);
    var r := ConvColumn(main.header);
    if r.Some? {
      var c := r.value;
      assert Some(main.header[c]) == FindConversationTagColumn(main.header);
    }
  }

  /** `parse_export_two_column_table(csv_path)`, given the file's lines, the CSV reader,
      and the main table with its tag column. */
  method ParseExportTable(lines: seq<string>, readCsv: seq<string> -> Table, main: Table, convCol: nat)
    returns (result: Summary)
    requires convCol < |main.header|
    ensures result == ExportSummary(lines, readCsv, main, convCol)
  {
    var headerIdx := FindHeaderIndex(lines);
    if headerIdx.None? {
      return MainFallback(main, convCol);
    }
    var table := readCsv(lines[headerIdx.value..]);
    var tagCol, countCol := ResolveColumns(table.header);
    if tagCol.None? || countCol.None? {
      return NoColumns;
    }
    if Clash(table.header, tagCol.value, countCol.value) {
      return LabelClash;
    }
    var header := table.header[tagCol.value := "Conversation tag"][countCol.value := "New conversations"];
    var rows := Select(TagRows(table.rows, tagCol.value, countCol.value), Kept);
    result := Ranked(header, SortDesc(rows, RowCount));
  }

  /** The summary is the empty frame exactly when there is a header row but its tag or its
      count column cannot be resolved. */
  lemma NoColumnsIff(lines: seq<string>, readCsv: seq<string> -> Table, main: Table, convCol: nat)
    requires convCol < |main.header|
    ensures ExportSummary(lines, readCsv, main, convCol) == NoColumns
            <==> match FirstWhere(lines, IsHeaderLine, 0)
                 case None => false
                 case Some(h) => TagColumn(readCsv(lines[h..]).header).None? || CountColumn(readCsv(lines[h..]).header).None?
  {
  }

  /** Filtering and sorting any rows: the result holds the rows whose tag is not
      denylisted, each as often as before, and counts never increase. */
  lemma RankRows(all: seq<TagRow>)
    ensures var rows := SortDesc(Select(all, Kept), RowCount);
      && (forall k :: 0 <= k < |rows| ==> rows[k].tag !in TagsToRemove)
      && (forall i, j :: 0 <= i < j < |rows| ==> rows[i].count >= rows[j].count)
      && (forall r :: multiset(rows)[r] == if Kept(r) then multiset(all)[r] else 0)
  {
    var kept := Select(all, Kept);
    var rows := SortDesc(kept, RowCount);
    SortDescMultiset(kept, RowCount);
    SelectCounts(all, Kept);
    forall k | 0 <= k < |rows|
      ensures rows[k].tag !in TagsToRemove
    {
      assert rows[k] in multiset(kept);
      assert rows[k] in kept;
    }
    forall i, j | 0 <= i < j < |rows|
      ensures rows[i].count >= rows[j].count
    {
      assert RowCount(rows[i]) >= RowCount(rows[j]);
    }
  }

  /** On the header path, the rows are those of the table whose tag is not denylisted,
      each as often as in the table, with its count coerced, and counts never increase;
      the two resolved columns carry the expected labels and no other column does. */
  lemma RankedRows(table: Table)
    requires RankTable(table).Ranked?
    ensures var t, c := TagColumn(table.header).value, CountColumn(table.header).value;
      var result := RankTable(table);
      && t < |result.header| && result.header[t] == "Conversation tag"
      && c < |result.header| && result.header[c] == "New conversations"
      && (forall j :: 0 <= j < |result.header| && j != t ==> result.header[j] != "Conversation tag")
      && (forall j :: 0 <= j < |result.header| && j != c ==> result.header[j] != "New conversations")
      && (forall k :: 0 <= k < |result.rows| ==> result.rows[k].tag !in TagsToRemove)
      && (forall i, j :: 0 <= i < j < |result.rows| ==> result.rows[i].count >= result.rows[j].count)
      && (forall r :: multiset(result.rows)[r] == if Kept(r) then multiset(TagRows(table.rows, t, c))[r] else 0)
  {
    var t, c := TagColumn(table.header).value, CountColumn(table.header).value;
    var all := TagRows(table.rows, t, c);
    assert RankTable(table) == Ranked(table.header[t := "Conversation tag"][c := "New conversations"],
                                      SortDesc(Select(all, Kept), RowCount));
    RenamedLabels(table.header, t, c);
    RankRows(all);
  }

  /** Without a clash, the renamed header has each label on exactly its column. */
  lemma RenamedLabels(header: seq<string>, t: nat, c: nat)
    requires t < |header| && c < |header| && !Clash(header, t, c)
    ensures var h := header[t := "Conversation tag"][c := "New conversations"];
      && h[t] == "Conversation tag" && h[c] == "New conversations"
      && (forall j :: 0 <= j < |h| && j != t ==> h[j] != "Conversation tag")
      && (forall j :: 0 <= j < |h| && j != c ==> h[j] != "New conversations")
  {
  }

  /** Without a header row, the main table's rows whose tag is not denylisted come back in
      their order, each once per occurrence, and no other row does. */
  lemma MainFallbackRows(main: Table, convCol: nat) returns (origin: seq<nat>)
    requires convCol < |main.header|
    ensures var rows := MainFallback(main, convCol).kept;
      && (forall k :: 0 <= k < |rows| ==> Cell(rows[k], convCol) !in TagsToRemove)
      && (forall row :: multiset(rows)[row] == if Cell(row, convCol) !in TagsToRemove then multiset(main.rows)[row] else 0)
      && |origin| == |rows|
      && (forall i :: 0 <= i < |origin| ==> origin[i] < |main.rows| && main.rows[origin[i]] == rows[i])
      && (forall i, j :: 0 <= i < j < |origin| ==> origin[i] < origin[j])
  {
    var keep := row => Cell(row, convCol) !in TagsToRemove;
    SelectCounts(main.rows, keep);
    origin := SelectOrder(main.rows, keep);
  }
}
