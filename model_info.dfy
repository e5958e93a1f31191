/** The command-line layer of model-info.py: finding the cached files of a
    model, choosing the file whose header is read, and the one-line summary
    with its placeholders for unknown values.

    The file system enters as parameters: whether the query names an
    existing file, the names in the cache directory, and the bytes of each
    file. The date fetched from the model hub and the formatted total size
    are given as text. */
module ModelInfo {
  import opened Text
  import opened GgufFormat
  import opened GgufReader

  /** The query split at its first `:` into a repository and a tag. */
  function SplitQuery(query: string): (r: (string, Option<string>))
    ensures ':' !in query ==> r == (query, None)
    ensures ':' in query ==> r.1.Some? && r.0 + [':'] + r.1.value == query && ':' !in r.0
  {
    if ':' in query then
      var parts := SplitFirst(query, ':');
      (parts.0, Some(parts.1))
    else (query, None)
  }

  /** The file-name matcher `*<repo>*` of the glob: names holding the
      repository with `/` turned into `_`; like `*`, it skips hidden names. */
  predicate GlobMatch(name: string, safeRepo: string) {
    Contains(name, safeRepo) && !StartsWith(name, ".")
  }

  /** Metadata, ETag and partial downloads are never model files. */
  predicate Excluded(path: string) {
    EndsWith(path, ".json") || EndsWith(path, ".etag") || Contains(path, "downloadInProgress")
  }

  /** The tag filter: an empty or missing tag keeps everything, otherwise
      the lower-cased tag must occur in the lower-cased path. */
  predicate TagAllows(tag: Option<string>, path: string) {
    tag.None? || tag.value == "" || Contains(Lower(path), Lower(tag.value))
  }

  predicate Keep(tag: Option<string>, path: string) {
    !Excluded(path) && TagAllows(tag, path)
  }

  /** What the glob returns: the cache directory joined to each matching name. */
  function GlobResult(cacheDir: string, listing: seq<string>, safeRepo: string): (r: seq<string>)
    ensures forall c :: c in r <==> exists n :: n in listing && GlobMatch(n, safeRepo) && c == cacheDir + n
  {
    if |listing| == 0 then []
    else
      var rest := GlobResult(cacheDir, listing[1..], safeRepo);
      assert forall n :: n in listing <==> n == listing[0] || n in listing[1..];
      if GlobMatch(listing[0], safeRepo) then [cacheDir + listing[0]] + rest else rest
  }

  /** The candidates the loop of `find_files` keeps, in order. */
  function ValidFiles(candidates: seq<string>, tag: Option<string>): seq<string> {
    if |candidates| == 0 then []
    else if Keep(tag, candidates[0]) then [candidates[0]] + ValidFiles(candidates[1..], tag)
    else ValidFiles(candidates[1..], tag)
  }

  /** A kept file is a candidate that passes both filters, and every such
      candidate is kept. */
  lemma {:induction false} ValidFilesExactly(candidates: seq<string>, tag: Option<string>)
    ensures forall c :: c in ValidFiles(candidates, tag) <==> c in candidates && Keep(tag, c)
  {
    if |candidates| > 0 {
      ValidFilesExactly(candidates[1..], tag);
      assert forall c :: c in candidates <==> c == candidates[0] || c in candidates[1..];
    }
  }

  /** Filtering never adds files, and when every candidate passes both
      filters nothing is dropped. */
  lemma {:induction false} ValidFilesShorter(candidates: seq<string>, tag: Option<string>)
    ensures |ValidFiles(candidates, tag)| <= |candidates|
    ensures (forall i :: 0 <= i < |candidates| ==> Keep(tag, candidates[i])) ==> ValidFiles(candidates, tag) == candidates
  {
    if |candidates| > 0 {
      ValidFilesShorter(candidates[1..], tag);
    }
  }

  /** `find_files(query)`: an existing file is its own answer; otherwise the
      globbed candidates that survive the filters. */
  method FindFiles(query: string, queryIsFile: bool, cacheDir: string, listing: seq<string>)
    returns (files: seq<string>)
    ensures queryIsFile ==> files == [query]
    ensures !queryIsFile ==>
      var (repo, tag) := SplitQuery(query);
      files == ValidFiles(GlobResult(cacheDir, listing, ReplaceChar(repo, '/', '_')), tag)
  {
    if queryIsFile {
      return [query];
    }
    var (repo, tag) := SplitQuery(query);
    var safeRepo := ReplaceChar(repo, '/', '_');
    var candidates := GlobResult(cacheDir, listing, safeRepo);
    files := [];
    var i := 0;
    while i < |candidates|
      invariant i <= |candidates|
      invariant files + ValidFiles(candidates[i..], tag) == ValidFiles(candidates, tag)
    {
      assert candidates[i..][1..] == candidates[i + 1..];
      var c := candidates[i];
      if Keep(tag, c) {
        files := files + [c];
      }
      i := i + 1;
    }
  }

  /** The tag is looked for in the whole path, cache directory included: a
      tag that occurs in the directory's own name lets every other
      candidate through. */
  lemma TagSeesCacheDirectory(cacheDir: string, name: string, tag: string)
    requires tag != "" && Contains(Lower(cacheDir), Lower(tag))
    ensures TagAllows(Some(tag), cacheDir + name)
  {
    var i :| 0 <= i <= |Lower(cacheDir)| - |Lower(tag)| && OccursAt(Lower(cacheDir), Lower(tag), i);
    var low := Lower(cacheDir + name);
    assert low[..|cacheDir|] == Lower(cacheDir);
    assert low[i..i + |Lower(tag)|] == Lower(cacheDir)[i..i + |Lower(tag)|];
    assert OccursAt(low, Lower(tag), i);
  }

  /** The preferred header file: a `.gguf` that is neither a projector nor
      a split. */
  predicate IsPlainModel(f: string) {
    !Contains(f, "mmproj") && !Contains(f, "split") && EndsWith(f, ".gguf")
  }

  /** The first part of a split model. */
  predicate IsFirstShard(f: string) {
    Contains(f, "00001-of-")
  }

  /** The position of the first plain model file. */
  function FirstPlain(files: seq<string>): (r: Option<nat>)
    ensures r.Some? ==> (r.value < |files| && IsPlainModel(files[r.value])
                         && forall j :: 0 <= j < r.value ==> !IsPlainModel(files[j]))
    ensures r.None? ==> forall j :: 0 <= j < |files| ==> !IsPlainModel(files[j])
  {
    if files == [] then None
    else if IsPlainModel(files[0]) then Some(0)
    else match FirstPlain(files[1..])
      case None => None
      case Some(k) => Some(k + 1)
  }

  /** The position of the last first shard. */
  function LastShard(files: seq<string>): (r: Option<nat>)
    ensures r.Some? ==> (r.value < |files| && IsFirstShard(files[r.value])
                         && forall j :: r.value < j < |files| ==> !IsFirstShard(files[j]))
    ensures r.None? ==> forall j :: 0 <= j < |files| ==> !IsFirstShard(files[j])
  {
    if files == [] then None
    else if IsFirstShard(files[|files| - 1]) then Some(|files| - 1)
    else LastShard(files[..|files| - 1])
  }

  /** The last first shard among `files`, or `first` without one. */
  function ShardOr(files: seq<string>, first: string): string {
    match LastShard(files)
    case Some(q) => files[q]
    case None => first
  }

  /** The file whose header is read: the first plain model file; without
      one, the last first shard; without either, the first file. */
  function MainFile(files: seq<string>): string
    requires |files| > 0
  {
    match FirstPlain(files)
    case Some(p) => files[p]
    case None => ShardOr(files, files[0])
  }

  /** One more file either becomes the last first shard or leaves it. */
  lemma ShardOrStep(files: seq<string>, k: nat, first: string)
    requires k < |files|
    ensures ShardOr(files[..k + 1], first) == if IsFirstShard(files[k]) then files[k] else ShardOr(files[..k], first)
  {
    var prefix := files[..k + 1];
    assert prefix[|prefix| - 1] == files[k];
    assert prefix[..|prefix| - 1] == files[..k];
  }

  /** The chosen file is one of the files, and the preferences hold in
      their order. */
  lemma MainFilePreferred(files: seq<string>)
    requires |files| > 0
    ensures MainFile(files) in files
    ensures (exists i :: 0 <= i < |files| && IsPlainModel(files[i])) ==>
      exists p :: 0 <= p < |files| && MainFile(files) == files[p] && IsPlainModel(files[p]) &&
        forall j :: 0 <= j < p ==> !IsPlainModel(files[j])
    ensures (forall i :: 0 <= i < |files| ==> !IsPlainModel(files[i])) && (exists i :: 0 <= i < |files| && IsFirstShard(files[i])) ==>
      exists q :: 0 <= q < |files| && MainFile(files) == files[q] && IsFirstShard(files[q]) &&
        forall j :: q < j < |files| ==> !IsFirstShard(files[j])
    ensures (forall i :: 0 <= i < |files| ==> !IsPlainModel(files[i]) && !IsFirstShard(files[i])) ==> MainFile(files) == files[0]
  {
    match FirstPlain(files)
    case Some(p) =>
    case None =>
      match LastShard(files)
      case Some(q) =>
      case None =>
  }

  /** The main-file loop of `main`: it stops at the first plain model file
      and otherwise remembers the latest first shard. */
  method SelectMainFile(files: seq<string>) returns (m: string)
    requires |files| > 0
    ensures m == MainFile(files)
  {
    m := files[0];
    var k := 0;
    while k < |files|
      invariant k <= |files|
      invariant forall j :: 0 <= j < k ==> !IsPlainModel(files[j])
      invariant m == ShardOr(files[..k], files[0])
    {
      var f := files[k];
      ShardOrStep(files, k, files[0]);
      if IsPlainModel(f) {
        m := f;
        assert FirstPlain(files) == Some(k);
        return;
      } else if IsFirstShard(f) {
        m := f;
      }
      k := k + 1;
    }
    assert files[..k] == files;
  }

  /** The repository name `main` looks up: the part before the first `:`,
      or the whole query, but only for a query that is not an existing path. */
  function RepoName(query: string, queryExists: bool): (r: Option<string>)
    ensures queryExists <==> r.None?
    ensures r.Some? ==> r.value == SplitQuery(query).0
  {
    if ':' in query && !queryExists then Some(SplitFirst(query, ':').0)
    else if !queryExists then Some(query)
    else None
  }

  const Unknown: string := "????"

  /** The upload date shown: the fetched date when there is a repository
      to ask about and the answer is non-empty, `????` otherwise. */
  function DateText(repo: Option<string>, fetched: Option<string>): (r: string)
    ensures r != Unknown ==> repo.Some? && repo.value != "" && fetched == Some(r)
    ensures (repo.Some? && repo.value != "" && fetched.Some? && fetched.value != "") ==> r == fetched.value
  {
    if repo.Some? && repo.value != "" && fetched.Some? && fetched.value != "" then fetched.value
    else Unknown
  }

  /** `ctx_str`: `????` for a missing header, a missing context and also a
      context of 0, which Python treats as false. */
  function CtxText(info: Option<GgufInfo>): string {
    if info.Some? && info.value.ctx.Some? && info.value.ctx.value != 0 then IntToStr(info.value.ctx.value)
    else Unknown
  }

  /** `layers_str`: `?` without a header or a block count; a count of 0 is
      shown as `0`. */
  function LayersText(info: Option<GgufInfo>): string {
    if info.Some? && info.value.layers.Some? then IntToStr(info.value.layers.value) else "?"
  }

  /** A known non-zero context is printed so that it reads back as itself. */
  lemma CtxTextReadsBack(info: Option<GgufInfo>)
    requires info.Some? && info.value.ctx.Some? ==> Printable(info.value.ctx.value)
    ensures info.Some? && info.value.ctx.Some? && info.value.ctx.value != 0 ==>
      ParseInt(CtxText(info)) == info.value.ctx
    ensures !(info.Some? && info.value.ctx.Some? && info.value.ctx.value != 0) ==> CtxText(info) == Unknown
  {
    if info.Some? && info.value.ctx.Some? && info.value.ctx.value != 0 {
      ParseIntOfIntToStr(info.value.ctx.value);
    }
  }

  /** A known layer count, 0 included, is printed so that it reads back as
      itself; only a missing one prints `?`. */
  lemma LayersTextReadsBack(info: Option<GgufInfo>)
    requires info.Some? && info.value.layers.Some? ==> Printable(info.value.layers.value)
    ensures info.Some? && info.value.layers.Some? ==> ParseInt(LayersText(info)) == info.value.layers
    ensures LayersText(info) == "?" <==> !(info.Some? && info.value.layers.Some?)
  {
    if info.Some? && info.value.layers.Some? {
      ParseIntOfIntToStr(info.value.layers.value);
      assert LayersText(info)[0] != '?';
    }
  }

  /** The printed summary line. */
  function SummaryLine(date: string, size: string, ctx: string, layers: string): string {
    "# Uploaded " + date + ", size " + size + " GB, max ctx: " + ctx + ", layers: " + layers
  }

  /** How `main` ends: a usage message, no files found, or the summary. */
  datatype Outcome = Usage | NoFiles(query: string) | Printed(line: string)

  /** `main`: find the files, choose the header file, read it, print. */
  method Run(args: seq<string>, queryExists: bool, queryIsFile: bool, cacheDir: string,
             listing: seq<string>, contents: string -> seq<byte>, fetched: Option<string>, size: string)
    returns (out: Outcome)
    ensures |args| < 2 <==> out == Usage
    ensures |args| >= 2 ==>
      var (repo, tag) := SplitQuery(args[1]);
      var files := if queryIsFile then [args[1]]
        else ValidFiles(GlobResult(cacheDir, listing, ReplaceChar(repo, '/', '_')), tag);
      (files == [] <==> out == NoFiles(args[1])) &&
      (files != [] ==> out == Printed(SummaryLine(
        DateText(RepoName(args[1], queryExists), fetched), size,
        CtxText(ReadInfo(contents(MainFile(files)))), LayersText(ReadInfo(contents(MainFile(files)))))))
  {
    if |args| < 2 {
      return Usage;
    }
    var query := args[1];
    var files := FindFiles(query, queryIsFile, cacheDir, listing);
    var repo := RepoName(query, queryExists);
    if files == [] {
      return NoFiles(query);
    }
    var main := SelectMainFile(files);
    var f := new Reader(contents(main));
    var info := ReadGgufInfo(f);
    var date := DateText(repo, fetched);
    out := Printed(SummaryLine(date, size, CtxText(info), LayersText(info)));
  }
}
