/**
 * The names the deep dive works with: the output file names of a tag, the folder
 * candidates for a tag's transcripts, the `zip://<zip>::<member>` pseudo-paths for
 * transcripts inside a zip archive, and the search `list_txt_files_in_folder_or_zip`.
 * The file system is a parameter: what is a directory, the `*.txt` files a directory
 * holds, what is a file, and the member names of a zip archive.
 */
module Paths {
  import opened Wrappers
  import opened PyStrings
  import opened Seqs

  // ---------------------------------------------------------------- output names

  /** `tag_key.replace(" ", "_")`. */
  function NamePart(tag: string): (r: string)
    ensures |r| == |tag| && ' ' !in r
  {
    ReplaceChar(tag, ' ', '_')
  }

  /** `f"{tag_csv_name_part}_user_questions.csv"`. */
  function QuestionsCsv(tag: string): (r: string) {
    NamePart(tag) + "_user_questions.csv"
  }

  /** `f"{tag_csv_name_part}_question_keywords.csv"`. */
  function KeywordsCsv(tag: string): (r: string) {
    NamePart(tag) + "_question_keywords.csv"
  }

  /** A tag keeps its name exactly when it has no space. */
  lemma NamePartFixes(tag: string)
    ensures NamePart(tag) == tag <==> ' ' !in tag
  {
    if ' ' !in tag {
      forall i | 0 <= i < |tag|
        ensures NamePart(tag)[i] == tag[i]
      {
        assert tag[i] != ' ';
      }
    }
  }

  /** Two tags share their file names exactly when they agree wherever neither has a
      space or an underscore, and have a space or an underscore at the same places. */
  lemma NamePartCollide(a: string, b: string)
    ensures NamePart(a) == NamePart(b) <==>
      |a| == |b| && forall i :: 0 <= i < |a| ==>
        (a[i] == b[i] || (a[i] in " _" && b[i] in " _"))
  {
    var na, nb := NamePart(a), NamePart(b);
    if |a| == |b| && forall i :: 0 <= i < |a| ==> (a[i] == b[i] || (a[i] in " _" && b[i] in " _")) {
      forall i | 0 <= i < |a|
        ensures na[i] == nb[i]
      {
      }
    }
    if na == nb {
      forall i | 0 <= i < |a|
        ensures a[i] == b[i] || (a[i] in " _" && b[i] in " _")
      {
        assert na[i] == nb[i];
      }
    }
  }

  /** The questions file of one tag is never the keywords file of another: the two end
      differently six characters from the end. */
  lemma OutputNamesDistinct(a: string, b: string)
    ensures QuestionsCsv(a) != KeywordsCsv(b)
  {
    var q, k := QuestionsCsv(a), KeywordsCsv(b);
    if |q| == |k| {
      assert q[|q| - 6] == 'n';
      assert k[|k| - 6] == 'd';
    }
  }

  // ---------------------------------------------------------------- folder candidates

  /** The folder the exports may live under. */
  const DataRoot: string := "Aug-Sep 2025"

  /** `os.path.join(a, b)` on POSIX, for two parts. */
  function PathJoin(a: string, b: string): (r: string)
    ensures StartsWith(b, "/") ==> r == b
    ensures !StartsWith(b, "/") ==> EndsWith(r, b) && StartsWith(r, a)
  {
    if StartsWith(b, "/") then b
    else if a == [] || EndsWith(a, "/") then a + b
    else a + "/" + b
  }

  /** `folder_name.replace('–', '-')`: the en dash becomes a hyphen. */
  function Dashed(name: string): (r: string)
    ensures |r| == |name| && '\U{2013}' !in r
  {
    ReplaceChar(name, '\U{2013}', '-')
  }

  /** The four places a tag's folder is looked for, in order. */
  function Candidates(name: string): (r: seq<string>) {
    [name, Dashed(name), PathJoin(DataRoot, name), PathJoin(DataRoot, Dashed(name))]
  }

  /** For a relative folder name, the candidates are the name and its hyphenated form,
      then both under the data root; without an en dash, the hyphenated ones repeat. */
  lemma CandidatesShape(name: string)
    requires !StartsWith(name, "/")
    ensures Candidates(name) == [name, Dashed(name), DataRoot + "/" + name, DataRoot + "/" + Dashed(name)]
    ensures '\U{2013}' !in name ==> Dashed(name) == name
  {
    if |name| >= 1 {
      assert Dashed(name)[..1] == [Dashed(name)[0]];
      assert name[..1] == [name[0]];
    }
    if '\U{2013}' !in name {
      forall i | 0 <= i < |name|
        ensures Dashed(name)[i] == name[i]
      {
        assert name[i] != '\U{2013}';
      }
    }
  }

  // ---------------------------------------------------------------- zip pseudo-paths

  /** A transcript inside a zip archive. */
  datatype ZipMember = ZipMember(zip: string, member: string)

  /** `f'zip://{zip_path}::{zi}'`. */
  function ZipPseudoPath(zip: string, member: string): (r: string)
    ensures StartsWith(r, "zip://")
  {
    "zip://" + zip + "::" + member
  }

  /** `fname.split('zip://', 1)` then `rest.split('::', 1)`, for a name that starts with
      `zip://` (so the first split cuts at position 0). `None` when there is no `::`:
      unpacking the one-piece split raises in the source. */
  function ParseZipPseudoPath(fname: string): (r: Option<ZipMember>)
    requires StartsWith(fname, "zip://")
  {
    var rest := fname[6..];
    match FindFrom(rest, "::", 0)
    case None => None
    case Some(k) => Some(ZipMember(rest[..k], rest[k + 2..]))
  }

  /** The decoding splits at the first `::` after the prefix: the pseudo-path is always
      the prefix, the archive part, `::` and the member part. */
  lemma ParseZipPseudoPathSplits(fname: string)
    requires StartsWith(fname, "zip://")
    ensures ParseZipPseudoPath(fname).Some? <==> Contains(fname[6..], "::")
    ensures ParseZipPseudoPath(fname).Some? ==>
      var e := ParseZipPseudoPath(fname).value;
      fname == ZipPseudoPath(e.zip, e.member) && !Contains(e.zip + ":", "::")
  {
    var rest := fname[6..];
    ContainsIff(rest, "::");
    var r := FindFrom(rest, "::", 0);
    if r.Some? {
      var k := r.value;
      var zip := rest[..k];
      assert fname == "zip://" + zip + "::" + rest[k + 2..];
      NoSeparatorBefore(zip, rest, k);
    }
  }

  /** When the first `::` of `rest` is at `k`, the part before it followed by `:` has none. */
  lemma NoSeparatorBefore(zip: string, rest: string, k: nat)
    requires k + 2 <= |rest| && zip == rest[..k] && rest[k] == ':'
    requires forall j :: 0 <= j < k ==> !OccursAt(rest, "::", j)
    ensures !Contains(zip + ":", "::")
  {
    var z := zip + ":";
    assert z == rest[..k + 1];
    forall j: nat | j + 2 <= |z|
      ensures !OccursAt(z, "::", j)
    {
      assert j < k && !OccursAt(rest, "::", j);
      assert z[j..j + 2] == rest[j..j + 2];
    }
    NoOccurrenceFrom(z, "::", 0);
  }

  /** A pattern that occurs at no position from `i` on is not found from there. */
  lemma {:induction false} NoOccurrenceFrom(s: string, p: string, i: nat)
    requires forall j: nat :: i <= j && j + |p| <= |s| ==> !OccursAt(s, p, j)
    ensures !ContainsFrom(s, p, i)
    decreases |s| - i
  {
    if i < |s| {
      NoOccurrenceFrom(s, p, i + 1);
    }
  }

  /** The decoding recovers the archive and the member exactly when the archive path
      followed by `:` holds no `::`: a `::` inside the archive path, or one formed with
      the archive path's last character, cuts the path short. */
  lemma ZipRoundTrip(zip: string, member: string)
    ensures ParseZipPseudoPath(ZipPseudoPath(zip, member)) == Some(ZipMember(zip, member))
            <==> !Contains(zip + ":", "::")
  {
    var fname := ZipPseudoPath(zip, member);
    var rest := fname[6..];
    assert rest == zip + "::" + member;
    assert OccursAt(rest, "::", |zip|);
    var z := zip + ":";
    if !Contains(z, "::") {
      forall j | 0 <= j < |zip|
        ensures !OccursAt(rest, "::", j)
      {
        assert rest[j..j + 2] == z[j..j + 2];
        if OccursAt(z, "::", j) {
          ContainsFromAt(z, "::", 0, j);
        }
      }
      assert FindFrom(rest, "::", 0) == Some(|zip|);
      assert rest[..|zip|] == zip && rest[|zip| + 2..] == member;
    } else {
      var j := ContainsFromWitness(z, "::", 0);
      assert rest[j..j + 2] == z[j..j + 2];
      assert OccursAt(rest, "::", j);
      assert FindFrom(rest, "::", 0).value <= j < |zip|;
    }
  }

  /** A path ending in `.zip` followed by `:` holds `::` exactly when the path does. */
  lemma ColonAfterZip(zip: string)
    requires EndsWith(zip, ".zip")
    ensures Contains(zip + ":", "::") <==> Contains(zip, "::")
  {
    var z := zip + ":";
    assert zip[|zip| - 4..][3] == 'p';
    if Contains(zip, "::") {
      var j := ContainsFromWitness(zip, "::", 0);
      assert z[j..j + 2] == zip[j..j + 2];
      ContainsFromAt(z, "::", 0, j);
    }
    if Contains(z, "::") {
      var j := ContainsFromWitness(z, "::", 0);
      assert z[|zip| - 1] == 'p';
      assert z[j..j + 2] == "::";
      assert z[j] == z[j..j + 2][0] && z[j + 1] == z[j..j + 2][1];
      assert zip[j..j + 2] == z[j..j + 2];
      ContainsFromAt(zip, "::", 0, j);
    }
  }

  /** For an archive whose path ends in `.zip`, as every archive the search finds does,
      the round trip holds exactly when the path has no `::`. */
  lemma ZipFileRoundTrip(zip: string, member: string)
    requires EndsWith(zip, ".zip")
    ensures ParseZipPseudoPath(ZipPseudoPath(zip, member)) == Some(ZipMember(zip, member))
            <==> !Contains(zip, "::")
  {
    ZipRoundTrip(zip, member);
    ColonAfterZip(zip);
  }

  // ---------------------------------------------------------------- the search

  /** What the search can see of the file system; `cwd` is the working directory. */
  datatype FileSystem = FileSystem(
    cwd: string,
    isDir: string -> bool,
    txtFiles: string -> seq<string>,
    isFile: string -> bool,
    zipMembers: string -> seq<string>)

  /** `zi.lower().endswith('.txt')`. */
  predicate IsTxtName(name: string) {
    EndsWith(Lower(name), ".txt")
  }

  /** The pseudo-paths of an archive's transcripts, in the archive's order. */
  function ZipTxtPaths(zip: string, members: seq<string>): (r: seq<string>)
    ensures |r| <= |members|
  {
    if members == [] then []
    else
      var last := members[|members| - 1];
      ZipTxtPaths(zip, members[..|members| - 1]) + (if IsTxtName(last) then [ZipPseudoPath(zip, last)] else [])
  }

  /** The transcripts a directory candidate gives. */
  function DirListing(fs: FileSystem, path: string): seq<string> {
    if fs.isDir(path) then fs.txtFiles(path) else []
  }

  /** The transcripts an archive candidate gives. */
  function ZipListing(fs: FileSystem, path: string): seq<string> {
    if fs.isFile(path + ".zip") then ZipTxtPaths(path + ".zip", fs.zipMembers(path + ".zip")) else []
  }

  /** The first non-empty listing among the candidates, each tried as a directory and
      then as an archive; empty when every one is empty. */
  function FirstListing(fs: FileSystem, cands: seq<string>): (r: seq<string>) {
    if cands == [] then []
    else
      var path := PathJoin(fs.cwd, cands[0]);
      if DirListing(fs, path) != [] then DirListing(fs, path)
      else if ZipListing(fs, path) != [] then ZipListing(fs, path)
      else FirstListing(fs, cands[1..])
  }

  /** One step of the search: the first candidate's listings, or the rest's. */
  lemma FirstListingStep(fs: FileSystem, cands: seq<string>, i: nat)
    requires i < |cands|
    ensures FirstListing(fs, cands[i..]) ==
      var path := PathJoin(fs.cwd, cands[i]);
      if DirListing(fs, path) != [] then DirListing(fs, path)
      else if ZipListing(fs, path) != [] then ZipListing(fs, path)
      else FirstListing(fs, cands[i + 1..])
  {
    assert cands[i..][0] == cands[i];
    assert cands[i..][1..] == cands[i + 1..];
  }

  /** The loop over an archive's member names. */
  method CollectZipTxt(zipPath: string, members: seq<string>) returns (results: seq<string>)
    ensures results == ZipTxtPaths(zipPath, members)
  {
    results := [];
    var j := 0;
    while j < |members|
      invariant 0 <= j <= |members|
      invariant results == ZipTxtPaths(zipPath, members[..j])
    {
      assert members[..j + 1][..j] == members[..j];
      if IsTxtName(members[j]) {
        results := results + [ZipPseudoPath(zipPath, members[j])];
      }
      j := j + 1;
    }
    assert members[..j] == members;
  }

  /** The loop over the candidates: a directory's `.txt` files, else an archive's, and
      the first candidate giving any ends the search. */
  method SearchCandidates(cands: seq<string>, fs: FileSystem) returns (results: seq<string>)
    ensures results == FirstListing(fs, cands)
  {
    results := [];
    var i := 0;
    while i < |cands|
      invariant 0 <= i <= |cands|
      invariant results == []
      invariant FirstListing(fs, cands) == FirstListing(fs, cands[i..])
    {
      var candPath := PathJoin(fs.cwd, cands[i]);
      FirstListingStep(fs, cands, i);
      if fs.isDir(candPath) {
        var found := fs.txtFiles(candPath);
        var j := 0;
        while j < |found|
          invariant 0 <= j <= |found|
          invariant results == found[..j]
        {
          results := results + [found[j]];
          j := j + 1;
        }
        assert found[..j] == found;
        if results != [] {
          return;
        }
      }
      var zipPath := candPath + ".zip";
      if fs.isFile(zipPath) {
        results := CollectZipTxt(zipPath, fs.zipMembers(zipPath));
        if results != [] {
          return;
        }
      }
      i := i + 1;
    }
  }

  /** `list_txt_files_in_folder_or_zip(folder_name)`. */
  method ListTxtFiles(folder: string, fs: FileSystem) returns (results: seq<string>)
    ensures results == FirstListing(fs, Candidates(folder))
  {
    results := SearchCandidates(Candidates(folder), fs);
  }

  /** Each pseudo-path of an archive names that archive and one of its `.txt` members. */
  lemma {:induction false} ZipTxtPathsMembers(zip: string, members: seq<string>)
    ensures forall f :: f in ZipTxtPaths(zip, members) ==>
      exists m :: m in members && IsTxtName(m) && f == ZipPseudoPath(zip, m)
  {
    if members != [] {
      var init, last := members[..|members| - 1], members[|members| - 1];
      ZipTxtPathsMembers(zip, init);
      forall f | f in ZipTxtPaths(zip, members)
        ensures exists m :: m in members && IsTxtName(m) && f == ZipPseudoPath(zip, m)
      {
        if f in ZipTxtPaths(zip, init) {
          var m :| m in init && IsTxtName(m) && f == ZipPseudoPath(zip, m);
          assert m in members;
        } else {
          assert f == ZipPseudoPath(zip, last) && last in members;
        }
      }
    }
  }

  /** The member listing as a filter-and-map over `namelist()`. */
  function TxtMemberPath(zip: string): string -> Option<string> {
    m => if IsTxtName(m) then Some(ZipPseudoPath(zip, m)) else None
  }

  /** The recursive listing and the filter-and-map agree. */
  lemma {:induction false} ZipTxtPathsFilterMap(zip: string, members: seq<string>)
    ensures ZipTxtPaths(zip, members) == FilterMap(members, TxtMemberPath(zip))
  {
    if members != [] {
      ZipTxtPathsFilterMap(zip, members[..|members| - 1]);
    }
  }

  /** The pseudo-paths are those of the `.txt` members exactly, in `namelist()` order:
      each comes from its own `.txt` member, the members in increasing order, and every
      `.txt` member has its pseudo-path listed. */
  lemma ZipTxtPathsOrigin(zip: string, members: seq<string>) returns (origin: seq<nat>)
    ensures var r := ZipTxtPaths(zip, members);
      && |origin| == |r|
      && (forall i :: 0 <= i < |origin| ==>
            origin[i] < |members| && IsTxtName(members[origin[i]]) && r[i] == ZipPseudoPath(zip, members[origin[i]]))
      && (forall i, j :: 0 <= i < j < |origin| ==> origin[i] < origin[j])
      && (forall k :: 0 <= k < |members| && IsTxtName(members[k]) ==> k in origin)
  {
    ZipTxtPathsFilterMap(zip, members);
    origin := FilterMapOrigin(members, TxtMemberPath(zip));
  }

  /** Every name the search returns is a `.txt` file of a candidate directory or the
      pseudo-path of a `.txt` member of a candidate archive; the search comes back empty
      exactly when every candidate is empty both ways. */
  lemma {:induction false} FirstListingSound(fs: FileSystem, cands: seq<string>)
    ensures forall f :: f in FirstListing(fs, cands) ==>
      exists c :: c in cands &&
        ((fs.isDir(PathJoin(fs.cwd, c)) && f in fs.txtFiles(PathJoin(fs.cwd, c)))
         || (fs.isFile(PathJoin(fs.cwd, c) + ".zip") &&
             exists m :: m in fs.zipMembers(PathJoin(fs.cwd, c) + ".zip") && IsTxtName(m)
                         && f == ZipPseudoPath(PathJoin(fs.cwd, c) + ".zip", m)))
    ensures FirstListing(fs, cands) == [] <==>
      forall c :: c in cands ==> DirListing(fs, PathJoin(fs.cwd, c)) == [] && ZipListing(fs, PathJoin(fs.cwd, c)) == []
  {
    if cands != [] {
      var c := cands[0];
      var path := PathJoin(fs.cwd, c);
      FirstListingSound(fs, cands[1..]);
      if DirListing(fs, path) == [] && ZipListing(fs, path) != [] {
        var zip := path + ".zip";
        ZipTxtPathsMembers(zip, fs.zipMembers(zip));
        forall f | f in FirstListing(fs, cands)
          ensures exists m :: m in fs.zipMembers(zip) && IsTxtName(m) && f == ZipPseudoPath(zip, m)
        {
          var k :| 0 <= k < |ZipListing(fs, path)| && ZipListing(fs, path)[k] == f;
        }
      }
      forall c' | c' in cands[1..]
        ensures c' in cands
      {
      }
    }
  }
}
