/**
 * The per-tag deep dive: for each tag of `TAG_TO_FOLDER`, find the tag's transcripts,
 * read them, gather the user messages of all of them, and report the questions and the
 * keyword table under file names made from the tag. Reading a transcript (a file, or a
 * member of a zip archive, decoded as UTF-8 with a Latin-1 fallback) is a parameter;
 * the reports stand for the two CSV files written per tag.
 */
module DeepDive {
  import opened Wrappers
  import opened PyStrings
  import opened Seqs
  import opened Transcript
  import opened Keywords
  import opened Paths

  /** `TAG_TO_FOLDER`, in its insertion order. */
  const TagToFolder: seq<(string, string)> := [
    ("My Account", "My Account Aug\U{2013}Sep16"),
    ("Manage Activities", "Manage Activities Aug\U{2013}Sep16"),
    ("Assign PR", "Assign PR Aug\U{2013}Sep16"),
    ("Manage Classes", "Manage Classes Aug\U{2013}Sep16")
  ]

  /** How a transcript's text is obtained: a file by its path, an archive member by the
      archive's path and the member's name. */
  datatype Reader = Reader(readFile: string -> string, readMember: (string, string) -> string)

  /** A name the reading step can open: a pseudo-path must split into archive and member
      (otherwise unpacking the split raises). */
  predicate Openable(fname: string) {
    StartsWith(fname, "zip://") ==> Contains(fname[6..], "::")
  }

  /** The text of one transcript. */
  function TranscriptText(fname: string, reader: Reader): string
    requires Openable(fname)
  {
    if StartsWith(fname, "zip://") then
      ParseZipPseudoPathSplits(fname);
      var e := ParseZipPseudoPath(fname).value;
      reader.readMember(e.zip, e.member)
    else reader.readFile(fname)
  }

  /** `extract_user_messages_from_log(text)`, as a value. */
  function Messages(text: string): seq<string> {
    SplitPiecesFree(text, '\n');
    UserMessages(Split(text, '\n'))
  }

  /** Every name of `files` can be opened. */
  predicate AllOpenable(files: seq<string>) {
    forall k :: 0 <= k < |files| ==> Openable(files[k])
  }

  /** The user messages of one transcript. A name that cannot be opened makes the source
      raise; every method below requires that none occurs, and such a name gives no
      messages here. */
  function MessagesOf(fname: string, reader: Reader): seq<string> {
    if Openable(fname) then Messages(TranscriptText(fname, reader)) else []
  }

  /** `chat_rows` after the loop over `files`: every file's messages, file after file. */
  function ChatRows(files: seq<string>, reader: Reader): seq<string> {
    FlatMap(files, f => MessagesOf(f, reader))
  }

  /** Reading one transcript: an archive member for a pseudo-path, a file otherwise. */
  method ReadTranscript(fname: string, reader: Reader) returns (rawText: string)
    requires Openable(fname)
    ensures rawText == TranscriptText(fname, reader)
  {
    if StartsWith(fname, "zip://") {
      ParseZipPseudoPathSplits(fname);
      var e := ParseZipPseudoPath(fname).value;
      rawText := reader.readMember(e.zip, e.member);
    } else {
      rawText := reader.readFile(fname);
    }
  }

  /** The pseudo-path of a member of an archive whose path ends in `.zip` and holds no
      `::` can be opened, and reading it reads that member of that archive. */
  lemma ReadsMember(zip: string, member: string, reader: Reader)
    requires EndsWith(zip, ".zip") && !Contains(zip, "::")
    ensures Openable(ZipPseudoPath(zip, member))
    ensures TranscriptText(ZipPseudoPath(zip, member), reader) == reader.readMember(zip, member)
  {
    var f := ZipPseudoPath(zip, member);
    ZipFileRoundTrip(zip, member);
    ParseZipPseudoPathSplits(f);
  }

  /** A name without the `zip://` prefix can be opened, and reading it reads that file. */
  lemma ReadsFile(fname: string, reader: Reader)
    requires !StartsWith(fname, "zip://")
    ensures Openable(fname) && TranscriptText(fname, reader) == reader.readFile(fname)
  {
  }

  /** `for m in messages: chat_rows.append(...)`. */
  method AppendMessages(chatRows: seq<string>, messages: seq<string>) returns (r: seq<string>)
    ensures r == chatRows + messages
  {
    r := chatRows;
    var j := 0;
    while j < |messages|
      invariant 0 <= j <= |messages|
      invariant r == chatRows + messages[..j]
    {
      r := r + [messages[j]];
      j := j + 1;
    }
    assert messages[..j] == messages;
  }

  /** The loop over a tag's transcripts (`for fname in txt_files`). */
  method GatherChatRows(files: seq<string>, reader: Reader) returns (chatRows: seq<string>)
    requires AllOpenable(files)
    ensures chatRows == ChatRows(files, reader)
  {
    chatRows := [];
    var i := 0;
    while i < |files|
      invariant 0 <= i <= |files|
      invariant chatRows == ChatRows(files[..i], reader)
    {
      var rawText := ReadTranscript(files[i], reader);
      var messages := ExtractUserMessages(rawText);
      assert messages == MessagesOf(files[i], reader);
      chatRows := AppendMessages(chatRows, messages);
      FlatMapSnoc(files, f => MessagesOf(f, reader), i);
      i := i + 1;
    }
    assert files[..i] == files;
  }

  /** Gathering two lists of transcripts is gathering each, one after the other. */
  lemma ChatRowsAppend(a: seq<string>, b: seq<string>, reader: Reader)
    ensures ChatRows(a + b, reader) == ChatRows(a, reader) + ChatRows(b, reader)
  {
    FlatMapAppend(a, b, f => MessagesOf(f, reader));
  }

  /** Every chat row is a message of one of the transcripts. */
  lemma ChatRowsFrom(files: seq<string>, reader: Reader)
    requires AllOpenable(files)
    ensures forall m :: m in ChatRows(files, reader) ==>
              exists k :: 0 <= k < |files| && m in Messages(TranscriptText(files[k], reader))
  {
    FlatMapMembers(files, f => MessagesOf(f, reader));
  }

  // ---------------------------------------------------------------- one tag

  /** The two CSV files written for a tag: its questions and its keyword table. */
  datatype Report = Report(questionsCsv: string, questions: seq<string>, keywordsCsv: string, keywords: seq<Entry>)

  /** The per-tag step after gathering: nothing when no message was extracted. */
  function TagReport(tag: string, chatRows: seq<string>, tokenize: string -> seq<string>, stopwords: set<string>)
    : (r: Option<Report>)
  {
    if chatRows == [] then None
    else Some(Report(QuestionsCsv(tag), Questions(chatRows), KeywordsCsv(tag), KeywordTable(chatRows, tokenize, stopwords)))
  }

  /** A report is written exactly when some message was gathered; its questions are the
      gathered messages that are questions, each as often as gathered; its
      keyword table is the top twenty rows of the questions' tokens (`TopRows`); and its
      two files are different. */
  lemma TagReportSpec(tag: string, chatRows: seq<string>, tokenize: string -> seq<string>, stopwords: set<string>)
    ensures var r := TagReport(tag, chatRows, tokenize, stopwords);
      && (r.Some? <==> chatRows != [])
      && (r.Some? ==>
            var tokens := QuestionTokens(chatRows, tokenize, stopwords);
            && r.value.questionsCsv != r.value.keywordsCsv
            && (forall k :: 0 <= k < |r.value.questions| ==> IsQuestion(r.value.questions[k]))
            && (forall m :: multiset(r.value.questions)[m] == if IsQuestion(m) then multiset(chatRows)[m] else 0)
            && TopRows(r.value.keywords, tokens, |Tally(tokens)|, 20))
  {
    if chatRows != [] {
      OutputNamesDistinct(tag, tag);
      SelectCounts(chatRows, IsQuestion);
      MostCommonRows(QuestionTokens(chatRows, tokenize, stopwords), 20);
    }
  }

  // ---------------------------------------------------------------- all tags

  /** The configuration of a run: the file system, the reader, and the tokenizer and
      stopword set of the cleaner. */
  datatype Env = Env(fs: FileSystem, reader: Reader, tokenize: string -> seq<string>, stopwords: set<string>)

  /** The transcripts found for a folder can all be opened. */
  predicate ListingOpenable(fs: FileSystem, folder: string) {
    AllOpenable(FirstListing(fs, Candidates(folder)))
  }

  /** The deep dive of one tag: nothing when no transcript is found or none yields a
      message. */
  function DeepDiveOf(tag: string, folder: string, env: Env): (r: Option<Report>)
  {
    var files := FirstListing(env.fs, Candidates(folder));
    if files == [] then None
    else TagReport(tag, ChatRows(files, env.reader), env.tokenize, env.stopwords)
  }

  /** The reports of the loop over `tagFolders`, in order, skipping the tags it skips. */
  function DeepDives(tagFolders: seq<(string, string)>, env: Env): seq<Report> {
    FilterMap(tagFolders, (tf: (string, string)) => DeepDiveOf(tf.0, tf.1, env))
  }

  /** The body of the loop over the tags: list the transcripts, skip the tag when there
      are none, gather the messages, skip the tag when there are none, report. */
  method DeepDiveTag(tag: string, folder: string, env: Env) returns (r: Option<Report>)
    requires ListingOpenable(env.fs, folder)
    ensures r == DeepDiveOf(tag, folder, env)
  {
    var txtFiles := ListTxtFiles(folder, env.fs);
    if txtFiles == [] {
      return None;
    }
    var chatRows := GatherChatRows(txtFiles, env.reader);
    if chatRows == [] {
      return None;
    }
    r := Some(Report(QuestionsCsv(tag), Questions(chatRows), KeywordsCsv(tag),
                     KeywordTable(chatRows, env.tokenize, env.stopwords)));
  }

  /** The loop `for tag_key, folder in TAG_TO_FOLDER.items()`, with its two `continue`s. */
  method RunDeepDives(tagFolders: seq<(string, string)>, env: Env) returns (reports: seq<Report>)
    requires forall k :: 0 <= k < |tagFolders| ==> ListingOpenable(env.fs, tagFolders[k].1)
    ensures reports == DeepDives(tagFolders, env)
  {
    reports := [];
    var i := 0;
    while i < |tagFolders|
      invariant 0 <= i <= |tagFolders|
      invariant reports == DeepDives(tagFolders[..i], env)
    {
      var r := DeepDiveTag(tagFolders[i].0, tagFolders[i].1, env);
      FilterMapSnoc(tagFolders, (tf: (string, string)) => DeepDiveOf(tf.0, tf.1, env), i);
      if r.Some? {
        reports := reports + [r.value];
      }
      i := i + 1;
    }
    assert tagFolders[..i] == tagFolders;
  }

  /** A tag is reported exactly when transcripts are found for its folder and they hold
      some user message; the report is the tag's, under the tag's two file names. */
  lemma DeepDiveOfSpec(tag: string, folder: string, env: Env)
    ensures var r := DeepDiveOf(tag, folder, env);
      var files := FirstListing(env.fs, Candidates(folder));
      && (r.Some? <==> files != [] && ChatRows(files, env.reader) != [])
      && (r.Some? ==> r == TagReport(tag, ChatRows(files, env.reader), env.tokenize, env.stopwords)
                      && r.value.questionsCsv == QuestionsCsv(tag)
                      && r.value.keywordsCsv == KeywordsCsv(tag))
  {
    var files := FirstListing(env.fs, Candidates(folder));
    if files != [] {
      TagReportSpec(tag, ChatRows(files, env.reader), env.tokenize, env.stopwords);
    }
  }

  /** The reports come one per reported tag, in the order of the tags, and every tag that
      is reported on its own has its report among them. */
  lemma DeepDivesOrigin(tagFolders: seq<(string, string)>, env: Env) returns (origin: seq<nat>)
    ensures var reports := DeepDives(tagFolders, env);
      && |origin| == |reports|
      && (forall i :: 0 <= i < |origin| ==>
            (origin[i] < |tagFolders| && DeepDiveOf(tagFolders[origin[i]].0, tagFolders[origin[i]].1, env) == Some(reports[i])))
      && (forall i, j :: 0 <= i < j < |origin| ==> origin[i] < origin[j])
      && (forall k :: 0 <= k < |tagFolders| && DeepDiveOf(tagFolders[k].0, tagFolders[k].1, env).Some? ==> k in origin)
  {
    origin := FilterMapOrigin(tagFolders, (tf: (string, string)) => DeepDiveOf(tf.0, tf.1, env));
  }

  /** Each report of the deep dive carries the file names of its own tag, the tags in
      increasing order. */
  lemma DeepDiveNames(tagFolders: seq<(string, string)>, env: Env) returns (origin: seq<nat>)
    ensures var reports := DeepDives(tagFolders, env);
      && |origin| == |reports|
      && (forall i :: 0 <= i < |origin| ==>
            (origin[i] < |tagFolders|
             && reports[i].questionsCsv == QuestionsCsv(tagFolders[origin[i]].0)
             && reports[i].keywordsCsv == KeywordsCsv(tagFolders[origin[i]].0)))
      && (forall i, j :: 0 <= i < j < |origin| ==> origin[i] < origin[j])
  {
    origin := DeepDivesOrigin(tagFolders, env);
    var reports := DeepDives(tagFolders, env);
    forall i | 0 <= i < |origin|
      ensures reports[i].questionsCsv == QuestionsCsv(tagFolders[origin[i]].0)
      ensures reports[i].keywordsCsv == KeywordsCsv(tagFolders[origin[i]].0)
    {
      DeepDiveOfSpec(tagFolders[origin[i]].0, tagFolders[origin[i]].1, env);
    }
  }

  /** Reports named after tags whose name parts differ, taken in increasing order of the
      tags, have pairwise different file names. */
  lemma NamesDistinct(reports: seq<Report>, tags: seq<string>, origin: seq<nat>)
    requires |origin| == |reports|
    requires forall i :: 0 <= i < |origin| ==>
               (origin[i] < |tags|
                && reports[i].questionsCsv == QuestionsCsv(tags[origin[i]])
                && reports[i].keywordsCsv == KeywordsCsv(tags[origin[i]]))
    requires forall i, j :: 0 <= i < j < |origin| ==> origin[i] < origin[j]
    requires forall k, l :: 0 <= k < l < |tags| ==> NamePart(tags[k]) != NamePart(tags[l])
    ensures forall i, j :: 0 <= i < |reports| && 0 <= j < |reports| ==> reports[i].questionsCsv != reports[j].keywordsCsv
    ensures forall i, j :: 0 <= i < j < |reports| ==>
              reports[i].questionsCsv != reports[j].questionsCsv && reports[i].keywordsCsv != reports[j].keywordsCsv
  {
    forall i, j | 0 <= i < |reports| && 0 <= j < |reports|
      ensures reports[i].questionsCsv != reports[j].keywordsCsv
    {
      OutputNamesDistinct(tags[origin[i]], tags[origin[j]]);
    }
    forall i, j | 0 <= i < j < |reports|
      ensures reports[i].questionsCsv != reports[j].questionsCsv && reports[i].keywordsCsv != reports[j].keywordsCsv
    {
      NameParts(tags[origin[i]], tags[origin[j]]);
    }
  }

  /** Each file name determines the name part it was made from. */
  lemma NameParts(a: string, b: string)
    ensures QuestionsCsv(a) == QuestionsCsv(b) ==> NamePart(a) == NamePart(b)
    ensures KeywordsCsv(a) == KeywordsCsv(b) ==> NamePart(a) == NamePart(b)
  {
    var qa, qb, ka, kb := QuestionsCsv(a), QuestionsCsv(b), KeywordsCsv(a), KeywordsCsv(b);
    assert qa[..|a|] == NamePart(a) && qb[..|b|] == NamePart(b);
    assert ka[..|a|] == NamePart(a) && kb[..|b|] == NamePart(b);
  }

  /** The tags of `TAG_TO_FOLDER` have pairwise different name parts. */
  lemma TagToFolderNameParts()
    ensures forall k, l :: 0 <= k < l < |TagToFolder| ==> NamePart(TagToFolder[k].0) != NamePart(TagToFolder[l].0)
  {
    forall k, l | 0 <= k < l < |TagToFolder|
      ensures NamePart(TagToFolder[k].0) != NamePart(TagToFolder[l].0)
    {
      assert |TagToFolder[k].0| != |TagToFolder[l].0|;
    }
  }

  /** No two files written by the deep dive have the same name when no two tags have the
      same name part, as is the case for `TAG_TO_FOLDER`. */
  lemma DeepDiveFileNamesDistinct(tagFolders: seq<(string, string)>, env: Env)
    requires forall k, l :: 0 <= k < l < |tagFolders| ==> NamePart(tagFolders[k].0) != NamePart(tagFolders[l].0)
    ensures var reports := DeepDives(tagFolders, env);
      && (forall i, j :: 0 <= i < |reports| && 0 <= j < |reports| ==> reports[i].questionsCsv != reports[j].keywordsCsv)
      && (forall i, j :: 0 <= i < j < |reports| ==>
            reports[i].questionsCsv != reports[j].questionsCsv && reports[i].keywordsCsv != reports[j].keywordsCsv)
  {
    var origin := DeepDiveNames(tagFolders, env);
    var tags := seq(|tagFolders|, k requires 0 <= k < |tagFolders| => tagFolders[k].0);
    NamesDistinct(DeepDives(tagFolders, env), tags, origin);
  }

  /** A name found in a candidate directory or archive can be opened under the same
      conditions as below. */
  lemma FoundOpenable(fs: FileSystem, path: string, f: string)
    requires !Contains(path + ".zip", "::")
    requires forall g :: g in fs.txtFiles(path) ==> !StartsWith(g, "zip://")
    requires (fs.isDir(path) && f in fs.txtFiles(path))
             || (fs.isFile(path + ".zip") &&
                 exists m :: m in fs.zipMembers(path + ".zip") && IsTxtName(m) && f == ZipPseudoPath(path + ".zip", m))
    ensures Openable(f)
  {
    var zip := path + ".zip";
    if !(fs.isDir(path) && f in fs.txtFiles(path)) {
      var m :| m in fs.zipMembers(zip) && IsTxtName(m) && f == ZipPseudoPath(zip, m);
      assert zip[|zip| - 4..] == ".zip";
      ZipFileRoundTrip(zip, m);
      ParseZipPseudoPathSplits(f);
    }
  }

  /** Every transcript found can be opened when the candidate archive paths hold no `::`
      and no `.txt` file of a candidate directory has a path starting with `zip://`. */
  lemma ListingOpenableWhen(fs: FileSystem, folder: string)
    requires forall c :: c in Candidates(folder) ==> !Contains(PathJoin(fs.cwd, c) + ".zip", "::")
    requires forall c, f :: c in Candidates(folder) && f in fs.txtFiles(PathJoin(fs.cwd, c)) ==> !StartsWith(f, "zip://")
    ensures ListingOpenable(fs, folder)
  {
    var cands := Candidates(folder);
    var files := FirstListing(fs, cands);
    FirstListingSound(fs, cands);
    forall k | 0 <= k < |files|
      ensures Openable(files[k])
    {
      var f := files[k];
      assert f in files;
      var c :| c in cands &&
        ((fs.isDir(PathJoin(fs.cwd, c)) && f in fs.txtFiles(PathJoin(fs.cwd, c)))
         || (fs.isFile(PathJoin(fs.cwd, c) + ".zip") &&
             exists m :: m in fs.zipMembers(PathJoin(fs.cwd, c) + ".zip") && IsTxtName(m)
                         && f == ZipPseudoPath(PathJoin(fs.cwd, c) + ".zip", m)));
      FoundOpenable(fs, PathJoin(fs.cwd, c), f);
    }
  }
}
