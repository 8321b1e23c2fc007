# Top Tag Chat Deep Dive, in Dafny

This project models the data pipeline of a monthly support-chat recap, `data.py`. The pipeline has two independent parts.

**The top-tags summary.** It reads a chat-export CSV whose metadata lines sit above a table with two columns: conversation tag and number of new conversations. It finds that table's header row and resolves the tag and count columns by name. It coerces the counts to integers, drops a fixed denylist of tags, and sorts the rows by count in descending order. If there is no header row, it falls back to the main table, filtered on its detected tag column.

**The per-tag deep dive.** For each tag of a fixed tag-to-folder map, it does the following:
- looks for `.txt` chat transcripts in a directory or a `.zip` archive, under four spellings of the folder name;
- reads each transcript;
- extracts the customer-authored messages, which are lines of the form `9:05 AM | Name: text` whose sender is not a staff member;
- keeps the messages that are questions;
- cleans their words into tokens;
- writes the questions and the twenty most common tokens to two CSV files named after the tag.

Modules:

| module | file | models |
|---|---|---|
| `Wrappers` | wrappers.dfy | `Option` |
| `Seqs` | seqs.dfy | concatenation, filtering, flat-mapping and first/last search over sequences |
| `Sorting` | sorting.dfy | Python's stable `sorted(..., reverse=True)` as an insertion sort |
| `PyStrings` | pystrings.dfy | `str.strip`, `str.lower`, `str.split`, `str.find`, `str.replace`, `re.sub(r'\s+', ' ', …)` with Python's whitespace set |
| `Transcript` | transcript.dfy | `extract_user_messages_from_log` and its line regex |
| `Cleaning` | cleaning.dfy | `is_unwanted_token`, `clean_text_advanced`, `CUSTOM_STOPWORDS` |
| `Keywords` | keywords.dfy | the question test, `all_tokens`, `Counter(...).most_common(20)` |
| `TagTable` | tagtable.dfy | `find_conversation_tag_column`, `parse_export_two_column_table`, `TAGS_TO_REMOVE` |
| `Paths` | paths.dfy | output file names, folder candidates, `zip://` pseudo-paths, `list_txt_files_in_folder_or_zip` |
| `DeepDive` | deepdive.dfy | `TAG_TO_FOLDER` and the loop over it |

The code's loops are modelled as Dafny methods with loop invariants. These are the header search, the column resolution, the candidate search, the zip listing, the transcript loop and the tag loop. Each method is proved equal to a specification function, and the lemmas below are proved about those functions.

The parts that depend on the outside world are parameters:
- the NLTK tokenizer and the English stopword set;
- the pandas CSV reader;
- the file system, as a record of functions (working directory, `isdir`, `isfile`, the `*.txt` glob of a directory, a zip archive's member names);
- the two decoders that read a file or an archive member.

## Model

| member | source | states |
|---|---|---|
| PyStrings.StripRemovesOnlyEdgeSpace | data.py:109 | `strip()` leaves an infix of the text and removes only whitespace outside it |
| PyStrings.JoinSplit | data.py:106 | joining the pieces of `text.split('\n')` with newlines gives back the text |
| PyStrings.SplitJoin | data.py:106 | splitting a newline-join of newline-free lines gives back the lines |
| PyStrings.SplitPiecesFree | data.py:106 | no piece of `text.split('\n')` contains a newline |
| Transcript.ClockSound | data.py:107 | the matched clock prefix is one or two digits, a colon and two digits |
| Transcript.ClockComplete | data.py:107 | every such clock prefix is matched with its own length |
| Transcript.SenderIsUpToFirstColon | data.py:107-109 | the lazy sender group, once stripped, is the text between the bar and the first colon, stripped |
| Transcript.ParseLineComplete | data.py:107-109 | every line of the shape clock, spaces, `AM`/`PM`, spaces, a bar, sender without colon, `:`, text matches, with sender and message the stripped parts |
| Transcript.ParseLineSound | data.py:107-109 | every line that matches has that shape, and its sender and message are those stripped parts |
| Transcript.StaffSenderIff | data.py:110 | a sender is staff exactly when one of the staff names occurs in it, ignoring case |
| Transcript.StaffTeamNameRedundant | data.py:110 | the `The Quill Team` alternative changes nothing: the other five names decide alone |
| Transcript.LineMessagesOne | data.py:107-111 | a line contributes the message `msg` exactly when it matches, its sender is not staff and its stripped text is `msg` |
| Transcript.ExtractUserMessages | data.py:103-112 | the loop returns the user messages of the lines of `text.split('\n')` |
| Transcript.UserMessagesAppend | data.py:106-111 | the messages of two runs of lines are the messages of each, in order |
| Transcript.UserMessagesLength | data.py:106-111 | at most one message per line |
| Transcript.NoShapedLineNoMessage | data.py:107-111 | with no matching line there is no message |
| Transcript.UserMessagesOrigin | data.py:105-112 | each message comes from its own line, the lines in increasing order |
| Cleaning.UnwantedLetterToken | data.py:81-86 | on an all-lowercase-letter token, unwanted means in `CUSTOM_STOPWORDS` |
| Cleaning.Scrub | data.py:90 | each character other than `a`-`z` and whitespace becomes a space, all others are kept |
| Cleaning.Normalize | data.py:89-90 | the normalised text holds only `a`-`z` and whitespace |
| Cleaning.NormalizeFixes | data.py:89-90 | text of only `a`-`z` and whitespace is left unchanged |
| Cleaning.RunLength | data.py:95 | a leading run of letters is maximal |
| Cleaning.LetterRunsSpec | data.py:95 | the fallback tokenizer returns exactly the maximal runs of three or more lowercase letters, each located in the text, at increasing positions |
| Cleaning.LetterRunsJoin | data.py:95 | tokenizing words of three or more letters joined by spaces gives the words back |
| Cleaning.CleanSelects | data.py:100 | the cleaned tokens are the tokens that pass the filter, each as often as tokenized, in order |
| Cleaning.CleanTokens | data.py:100 | every kept token is longer than two, not a stopword, not in `CUSTOM_STOPWORDS`, and neither a time nor a year |
| Cleaning.CleanLetters | data.py:88-100 | with the fallback tokenizer every token is three or more lowercase letters |
| Cleaning.CleanIdempotent | data.py:88-101 | cleaning the space-joined tokens of a cleaning gives the same tokens |
| Keywords.QuestionIff | data.py:286 | a message is a question exactly when a `?` is followed only by whitespace |
| Keywords.QuestionsInOrder | data.py:290 | the questions are question messages taken at increasing positions, in the order gathered |
| Keywords.QuestionTokensSnoc | data.py:294 | one more message adds its tokens exactly when it is a question |
| Keywords.QuestionTokensOnlyQuestions | data.py:294 | only question rows contribute tokens |
| Keywords.TallyFacts | data.py:295 | the counter holds each token once, with its number of occurrences, in first-seen order |
| Keywords.TallyTotal | data.py:295 | the counts add up to the number of tokens |
| Keywords.KeywordTable | data.py:294-295 | the keyword table has at most twenty rows |
| Keywords.MostCommonRows | data.py:295 | the top rows are distinct tokens with their exact counts, in non-increasing count order, with ties in first-seen order, and there are `n` of them, or every distinct token when there are at most `n` distinct tokens |
| Keywords.MostCommonTop | data.py:295 | a token left out of the top rows is outranked by every row, by count or by first occurrence on a tie |
| Keywords.MostCommonTotal | data.py:295 | the top counts add up to at most the number of tokens |
| Sorting.SortDescStable | data.py:295 | the descending sort of the counter items is a one-to-one rearrangement that keeps the input order of equal keys |
| Sorting.SortDescMultiset | data.py:205 | the descending sort is a permutation |
| TagTable.FindConversationTagColumnSpec | data.py:134-143 | the first column naming both words, otherwise the first naming either, otherwise none, and none exactly when no column names either |
| TagTable.TopTagsSpec | data.py:145-147 | the run stops exactly when no main column names "conversation" or "tag"; otherwise the summary is parsed with the column whose name the search returned |
| TagTable.FindHeaderIndex | data.py:155-162 | the loop finds the first header line, and no line before it is one |
| TagTable.ResolveColumns | data.py:177-195 | the column loops give the last matching tag and count columns, otherwise the first of the fallback tests |
| TagTable.ResolvedColumnsSpec | data.py:180-195 | resolved columns exist, a column is missing exactly when no column passes its fallback test, and a primary tag column is the last one |
| TagTable.TagRows | data.py:200 | each row keeps its place and its cells, and carries its tag cell and its count cell coerced to an integer |
| TagTable.ParseCount | data.py:200 | a cell that is not an integer numeral counts 0 |
| TagTable.ParseShow | data.py:200 | every integer written in decimal is read back as itself |
| TagTable.ParseExportTable | data.py:152-206 | the method returns the summary: the fallback without a header row, otherwise the ranked table |
| TagTable.NoColumnsIff | data.py:196-198 | the empty frame is returned exactly when there is a header row and no tag or no count column |
| TagTable.RankRows | data.py:203-205 | the ranked rows hold no denylisted tag, are in non-increasing count order, and are the kept rows with their multiplicities |
| TagTable.RankedRows | data.py:199-206 | the ranked table labels exactly the resolved columns, and its rows are filtered, sorted and a permutation of the kept rows |
| TagTable.MainFallbackRows | data.py:163-167 | the fallback keeps, in order and with multiplicities, exactly the main rows whose tag is not denylisted |
| Paths.NamePart | data.py:244 | the file-name part has the tag's length and no space |
| Paths.NamePartFixes | data.py:244 | a tag keeps its name exactly when it has no space |
| Paths.NamePartCollide | data.py:244 | two tags give the same name part exactly when they differ only by space against underscore |
| Paths.OutputNamesDistinct | data.py:291-296 | a questions file never has a keywords file's name |
| Paths.PathJoin | data.py:221-223 | an absolute second part replaces the first, otherwise the join starts with the first and ends with the second |
| Paths.Dashed | data.py:221 | the en-dash variant has the name's length and no en dash |
| Paths.CandidatesShape | data.py:221 | the four candidates are the name, its dashed variant and both under `Aug-Sep 2025/`, and the variants coincide without an en dash |
| Paths.ZipPseudoPath | data.py:238 | a pseudo-path starts with `zip://` |
| Paths.ParseZipPseudoPathSplits | data.py:255-258 | a pseudo-path splits exactly when `::` follows the prefix, and it is then rebuilt from its two parts |
| Paths.ZipRoundTrip | data.py:238-258 | archive and member come back from their pseudo-path exactly when `::` does not occur in the archive path followed by `:` |
| Paths.ZipFileRoundTrip | data.py:231-258 | for an archive path ending in `.zip`, the round trip holds exactly when the path has no `::` |
| Paths.ZipTxtPaths | data.py:234-238 | at most one pseudo-path per member |
| Paths.ZipTxtPathsMembers | data.py:235-238 | every listed pseudo-path names a `.txt` member, in any case, of the archive |
| Paths.ZipTxtPathsOrigin | data.py:234-238 | the pseudo-paths are exactly those of the `.txt` members, in the archive's member order |
| Paths.CollectZipTxt | data.py:234-238 | the member loop returns the pseudo-paths of the `.txt` members |
| Paths.SearchCandidates | data.py:222-241 | the candidate loop returns the first non-empty listing, a directory before its archive |
| Paths.ListTxtFiles | data.py:216-241 | the function returns the first non-empty listing over the four candidates |
| Paths.FirstListingSound | data.py:219-241 | every result is a `.txt` file of a candidate directory or a pseudo-path into a candidate archive, and the result is empty exactly when every candidate lists nothing |
| DeepDive.ReadsMember | data.py:255-266 | the pseudo-path of a member of a `.zip` archive without `::` can be opened and reads that member of that archive |
| DeepDive.ReadsFile | data.py:267-276 | a name without the `zip://` prefix can be opened and reads that file |
| DeepDive.ReadTranscript | data.py:255-276 | the method reads the text `TranscriptText` gives, which `DeepDive.ReadsMember` and `DeepDive.ReadsFile` tie to the archive member and to the file |
| DeepDive.AppendMessages | data.py:278-279 | the loop appends the messages in order |
| DeepDive.GatherChatRows | data.py:253-279 | the loop gathers every transcript's user messages, transcript after transcript |
| DeepDive.ChatRowsAppend | data.py:254-279 | gathering two lists of transcripts is gathering each in turn |
| DeepDive.ChatRowsFrom | data.py:254-279 | every gathered row is a user message of one of the transcripts |
| DeepDive.TagReportSpec | data.py:281-297 | a report exists exactly when a message was gathered, its questions are the question messages with their multiplicities, and its keyword table holds twenty distinct tokens, or every distinct token of the questions when there are fewer, with their exact counts, under two different file names |
| DeepDive.DeepDiveTag | data.py:244-297 | one tag's body returns no report without transcripts or without messages, and otherwise the tag's report |
| DeepDive.DeepDiveOfSpec | data.py:248-297 | a tag is reported exactly when transcripts are found and hold a user message, and it is reported under its own two file names |
| DeepDive.RunDeepDives | data.py:243-300 | the tag loop returns the reports of the tags it does not skip, in order |
| DeepDive.DeepDivesOrigin | data.py:243-251 | each report is its own tag's, the tags in increasing order, and every reported tag has its report |
| DeepDive.DeepDiveFileNamesDistinct | data.py:243-296 | no two files written have the same name when the tags' name parts differ |
| DeepDive.TagToFolderNameParts | data.py:116-121 | the four tags of `TAG_TO_FOLDER` have different name parts |
| DeepDive.ListingOpenableWhen | data.py:216-258 | every transcript found can be opened, provided that no candidate archive path holds `::` and no file of a candidate directory starts with `zip://` |

## Left out

- Module-level I/O is not modelled: the glob for the main CSV (data.py:125-129), `pd.read_csv` of it, writing `top_tags_summary.csv`, the `print` calls, and the CSV writes of each tag's two files. A tag's files are modelled as a `Report` value.
- `ensure_nltk_resources` and the NLTK download are not modelled. The tokenizer and the English stopword set are parameters, and the regex fallback tokenizer is `Cleaning.LetterRuns`.
- The CSV reader is a parameter (`readCsv`, from lines to header and rows). Quoting, `NaN` and dtype inference are not modelled: a missing cell reads as the empty string.
- TagTable.ParseCount: `pd.to_numeric` is modelled on integer numerals only. A sign and ASCII digits are read; any other cell counts 0. Floats, surrounding whitespace and exponents are not modelled. Negative counts are kept, as the code does, although the export only holds non-negative counts. Numerals are read exactly at any size: numerals outside the int64 range, which pandas reads as float or uint64 and `astype(int)` then wraps, are not modelled.
- TagTable.RankTable: pandas' sort is an unstable quicksort. The model sorts stably, and its lemmas claim only non-increasing order and a permutation, which holds for any sort.
- TagTable.RankTable: if the renaming leaves `Conversation tag` or `New conversations` on no column or on two, the model returns `LabelClash`. This happens when the tag and count columns coincide, or when another column already carries one of the two labels. pandas would raise or select a frame; that outcome is not modelled.
- TagTable.TopTags: the module-level `KeyError` when no conversation tag column exists (data.py:145-147) is the `None` result. The main table's column is taken by the position the search found; duplicate column labels in the main table, for which pandas would select several columns, are not modelled.
- Python's `\d` matches every Unicode decimal digit. The model uses ASCII digits only, in the clock, year and count patterns.
- `str.lower` is modelled exactly where it can change a test of the core: ASCII, U+0130 and U+212A. Other code points are left unchanged.
- The entry `'thank you'` of `CUSTOM_STOPWORDS` is kept. No token can contain a space, so it never filters anything (`Cleaning.CleanLetters`).
- Decoding a transcript (UTF-8 with a Latin-1 fallback) and opening files or archive members are the two functions of a `Reader` parameter.
- The file system is a parameter. `glob('*.txt')` is the `txtFiles` function, in the order it returns, and a zip archive is its list of member names.
- DeepDive.GatherChatRows: the model requires every listed name to be openable. A `zip://` name without `::` after the prefix raises `ValueError` in the source; no such crash path is modelled. `DeepDive.ListingOpenableWhen` states when the requirement holds.
- `os.path.join` is modelled for POSIX paths only.
- `streamlit_app.py` is not part of this model.
