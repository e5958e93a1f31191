/** The cache clean-up script: the repositories and projector files the
    llama-swap configuration uses, which cached files none of them
    accounts for, and whether the user agreed to delete those.
    Parsing the YAML, listing the cache directory and reading the reply
    are inputs: the `cmd` of each model in configuration order, the cache
    entries, and the reply line. */
module CleanupModels {
  import opened Text
  import opened OverrideText
  import opened Scanning
  import HashFields

  // ---------------------------------------------------------------
  // What each model's command names

  /** The end of the run of non-whitespace that starts at `k`. */
  function WordEnd(w: string, k: nat): (r: nat)
    requires k <= |w|
    ensures k <= r <= |w| && (r < |w| ==> IsSpace(w[r]))
    ensures forall j :: k <= j < r ==> !IsSpace(w[j])
    decreases |w| - k
  {
    if k < |w| && !IsSpace(w[k]) then WordEnd(w, k + 1) else k
  }

  /** `\s+([^\s]+)` tried at `k`: the span of the word after at least one
      whitespace character. */
  function ValueAfter(w: string, k: nat): (r: Option<Span>)
    requires k <= |w|
    ensures r.Some? ==> k < r.value.start < r.value.end <= |w|
  {
    var a := HashFields.SpaceEnd(w, k);
    if a == k then None
    else
      var b := WordEnd(w, a);
      if b == a then None else Some(Span(a, b))
  }

  /** `(?:-hf|--hf-repo)\s+([^\s]+)` at the front of `w`. */
  function RepoAtFront(w: string): Option<Span> {
    if StartsWith(w, "-hf") then ValueAfter(w, 3)
    else if StartsWith(w, "--hf-repo") then ValueAfter(w, 9)
    else None
  }

  /** `--mmproj-url\s+([^\s]+)` at the front of `w`. */
  function MmprojAtFront(w: string): Option<Span> {
    if StartsWith(w, "--mmproj-url") then ValueAfter(w, 12) else None
  }

  function RepoMatcher(): (m: Matcher)
    ensures Bounded(m)
  {
    w => RepoAtFront(w)
  }

  function MmprojMatcher(): (m: Matcher)
    ensures Bounded(m)
  {
    w => MmprojAtFront(w)
  }

  /** A non-empty run of non-whitespace characters. */
  predicate IsWord(v: string) {
    v != [] && forall k :: 0 <= k < |v| ==> !IsSpace(v[k])
  }

  lemma ValueAfterIsWord(w: string, k: nat)
    requires k <= |w| && ValueAfter(w, k).Some?
    ensures IsWord(w[ValueAfter(w, k).value.start..ValueAfter(w, k).value.end])
  {
    var sp := ValueAfter(w, k).value;
    var v := w[sp.start..sp.end];
    forall j | 0 <= j < |v|
      ensures !IsSpace(v[j])
    {
      assert v[j] == w[sp.start + j];
    }
  }

  lemma RepoMatcherYieldsWords()
    ensures Yields(RepoMatcher(), v => IsWord(v))
  {
    forall w | RepoMatcher()(w).Some?
      ensures IsWord(w[RepoMatcher()(w).value.start..RepoMatcher()(w).value.end])
    {
      ValueAfterIsWord(w, if StartsWith(w, "-hf") then 3 else 9);
    }
  }

  lemma MmprojMatcherYieldsWords()
    ensures Yields(MmprojMatcher(), v => IsWord(v))
  {
    forall w | MmprojMatcher()(w).Some?
      ensures IsWord(w[MmprojMatcher()(w).value.start..MmprojMatcher()(w).value.end])
    {
      ValueAfterIsWord(w, 12);
    }
  }

  /** The value of the leftmost `-hf`/`--hf-repo` in the command, if any. */
  function RepoValue(cmd: string): (r: Option<string>)
    ensures r.None? <==> forall j :: 0 <= j <= |cmd| ==> RepoAtFront(cmd[j..]).None?
    ensures r.Some? ==> IsWord(r.value)
  {
    ScanNoneIffNoMatch(RepoMatcher(), cmd, 0);
    RepoMatcherYieldsWords();
    ScanYields(RepoMatcher(), v => IsWord(v), cmd, 0);
    match Scan(RepoMatcher(), cmd, 0)
    case None => None
    case Some(sp) => Some(cmd[sp.start..sp.end])
  }

  /** The value of the leftmost `--mmproj-url` in the command, if any. */
  function MmprojValue(cmd: string): (r: Option<string>)
    ensures r.None? <==> forall j :: 0 <= j <= |cmd| ==> MmprojAtFront(cmd[j..]).None?
    ensures r.Some? ==> IsWord(r.value)
  {
    ScanNoneIffNoMatch(MmprojMatcher(), cmd, 0);
    MmprojMatcherYieldsWords();
    ScanYields(MmprojMatcher(), v => IsWord(v), cmd, 0);
    match Scan(MmprojMatcher(), cmd, 0)
    case None => None
    case Some(sp) => Some(cmd[sp.start..sp.end])
  }

  /** The repository a model uses: the value with any `:tag` dropped. */
  function RepoOf(cmd: string): Option<string> {
    match RepoValue(cmd)
    case None => None
    case Some(v) => Some(FirstPart(v, ':'))
  }

  /** The projector file a model uses: the last `/`-separated part of the
      `--mmproj-url` value. */
  function MmprojFileOf(cmd: string): Option<string> {
    match MmprojValue(cmd)
    case None => None
    case Some(url) => Some(LastPart(url, '/'))
  }

  /** The values `f` finds in the commands, in order, one per command at
      most. */
  function Collect(f: string -> Option<string>, cmds: seq<string>): seq<string> {
    if cmds == [] then []
    else
      var rest := Collect(f, cmds[..|cmds| - 1]);
      match f(cmds[|cmds| - 1])
      case None => rest
      case Some(r) => rest + [r]
  }

  /** The repositories of the models. */
  function Repos(cmds: seq<string>): seq<string> {
    Collect(RepoOf, cmds)
  }

  /** The projector files of the models. */
  function MmprojFiles(cmds: seq<string>): seq<string> {
    Collect(MmprojFileOf, cmds)
  }

  /** The loop of `get_configured_models`. */
  method GetConfiguredModels(cmds: seq<string>) returns (repos: seq<string>, files: seq<string>)
    ensures repos == Repos(cmds) && files == MmprojFiles(cmds)
  {
    repos, files := [], [];
    for i := 0 to |cmds|
      invariant repos == Repos(cmds[..i]) && files == MmprojFiles(cmds[..i])
    {
      assert cmds[..i + 1][..i] == cmds[..i];
      var cmd := cmds[i];
      var repo := RepoOf(cmd);
      if repo.Some? {
        repos := repos + [repo.value];
      }
      var file := MmprojFileOf(cmd);
      if file.Some? {
        files := files + [file.value];
      }
    }
    assert cmds[..|cmds|] == cmds;
  }

  /** A value is collected exactly when some command yields it, so there
      are never more values than commands. */
  lemma {:induction false} CollectExactly(f: string -> Option<string>, cmds: seq<string>)
    ensures |Collect(f, cmds)| <= |cmds|
    ensures forall r :: r in Collect(f, cmds) <==> exists j :: 0 <= j < |cmds| && f(cmds[j]) == Some(r)
  {
    if cmds != [] {
      var init := cmds[..|cmds| - 1];
      CollectExactly(f, init);
      forall r
        ensures r in Collect(f, cmds) <==> exists j :: 0 <= j < |cmds| && f(cmds[j]) == Some(r)
      {
        if r in Collect(f, init) {
          var j :| 0 <= j < |init| && f(init[j]) == Some(r);
          assert f(cmds[j]) == Some(r);
        }
        if exists j :: 0 <= j < |cmds| && f(cmds[j]) == Some(r) {
          var j :| 0 <= j < |cmds| && f(cmds[j]) == Some(r);
          if j < |cmds| - 1 {
            assert f(init[j]) == Some(r);
          }
        }
      }
    }
  }

  /** At most one repository is taken per model, and exactly the ones the
      models' commands name. */
  lemma ReposFromModels(cmds: seq<string>)
    ensures |Repos(cmds)| <= |cmds|
    ensures forall r :: r in Repos(cmds) <==> exists j :: 0 <= j < |cmds| && RepoOf(cmds[j]) == Some(r)
  {
    CollectExactly(RepoOf, cmds);
  }

  /** Likewise for the projector files. */
  lemma MmprojFilesFromModels(cmds: seq<string>)
    ensures |MmprojFiles(cmds)| <= |cmds|
    ensures forall f :: f in MmprojFiles(cmds) <==> exists j :: 0 <= j < |cmds| && MmprojFileOf(cmds[j]) == Some(f)
  {
    CollectExactly(MmprojFileOf, cmds);
  }

  // ---------------------------------------------------------------
  // Which cached files are unused

  /** A repository as the cache spells it in file names: `/` turned into
      `_`, lower-cased. */
  function Pattern(repo: string): (p: string)
    ensures |p| == |repo| && '/' !in p
  {
    var q := ReplaceChar(repo, '/', '_');
    assert forall k :: 0 <= k < |q| ==> Lower(q)[k] == LowerChar(q[k]);
    Lower(q)
  }

  function Patterns(repos: seq<string>): (ps: seq<string>)
    ensures |ps| == |repos| && forall k :: 0 <= k < |repos| ==> ps[k] == Pattern(repos[k])
  {
    seq(|repos|, k requires 0 <= k < |repos| => Pattern(repos[k]))
  }

  /** A file is accounted for when some pattern occurs in its lower-cased
      name, or its name is exactly a configured projector file. */
  predicate IsConfigured(fname: string, patterns: seq<string>, files: seq<string>) {
    (exists k :: 0 <= k < |patterns| && Contains(Lower(fname), patterns[k])) || fname in files
  }

  /** Metadata files are never offered for deletion. */
  predicate IsMetadata(fname: string) {
    EndsWith(fname, ".json") || EndsWith(fname, ".etag")
  }

  datatype CacheEntry = CacheEntry(path: string, isDir: bool, size: nat)

  /** The entry is a file that nothing accounts for and that is not
      metadata. */
  predicate IsUnused(e: CacheEntry, patterns: seq<string>, files: seq<string>) {
    !e.isDir && !IsConfigured(BaseName(e.path), patterns, files) && !IsMetadata(BaseName(e.path))
  }

  /** The unused entries, in listing order. */
  function Unused(entries: seq<CacheEntry>, patterns: seq<string>, files: seq<string>): seq<CacheEntry> {
    if entries == [] then []
    else
      var rest := Unused(entries[..|entries| - 1], patterns, files);
      if IsUnused(entries[|entries| - 1], patterns, files) then rest + [entries[|entries| - 1]] else rest
  }

  function TotalSize(es: seq<CacheEntry>): nat {
    if es == [] then 0 else TotalSize(es[..|es| - 1]) + es[|es| - 1].size
  }

  /** The inner loop over the patterns, stopping at the first that occurs
      in the lower-cased name. */
  method MatchesPattern(fnameLower: string, patterns: seq<string>) returns (found: bool)
    ensures found <==> exists k :: 0 <= k < |patterns| && Contains(fnameLower, patterns[k])
  {
    found := false;
    var i := 0;
    while i < |patterns|
      invariant i <= |patterns|
      invariant forall k :: 0 <= k < i ==> !Contains(fnameLower, patterns[k])
    {
      if Contains(fnameLower, patterns[i]) {
        return true;
      }
      i := i + 1;
    }
  }

  /** The loop of `main` over the cache listing: the unused files and the
      sum of their sizes, in bytes. */
  method FindUnused(entries: seq<CacheEntry>, patterns: seq<string>, files: seq<string>)
    returns (unused: seq<CacheEntry>, total: nat)
    ensures unused == Unused(entries, patterns, files) && total == TotalSize(unused)
  {
    unused, total := [], 0;
    for i := 0 to |entries|
      invariant unused == Unused(entries[..i], patterns, files) && total == TotalSize(unused)
    {
      assert entries[..i + 1][..i] == entries[..i];
      var f := entries[i];
      if f.isDir {
        continue;
      }
      var fname := BaseName(f.path);
      var isConfigured := MatchesPattern(Lower(fname), patterns);
      if !isConfigured {
        if fname in files {
          isConfigured := true;
        }
      }
      if !isConfigured {
        if !(EndsWith(fname, ".json") || EndsWith(fname, ".etag")) {
          unused := unused + [f];
          total := total + f.size;
        }
      }
    }
    assert entries[..|entries|] == entries;
  }

  /** A cache entry is listed exactly when it is unused. */
  lemma {:induction false} UnusedExactly(entries: seq<CacheEntry>, patterns: seq<string>, files: seq<string>)
    ensures forall e :: e in Unused(entries, patterns, files) <==> e in entries && IsUnused(e, patterns, files)
  {
    if entries != [] {
      var init := entries[..|entries| - 1];
      UnusedExactly(init, patterns, files);
      assert forall e :: e in entries <==> e in init || e == entries[|entries| - 1];
    }
  }

  /** A file of a configured repository is kept whatever the case of its
      name, while a projector file is kept only under its exact name. */
  lemma RepositoryFilesKept(e: CacheEntry, repos: seq<string>, files: seq<string>, k: nat)
    requires k < |repos| && Contains(Lower(BaseName(e.path)), Pattern(repos[k]))
    ensures !IsUnused(e, Patterns(repos), files)
  {
  }

  /** An empty repository name (a value that starts with `:`) accounts for
      every file. */
  lemma EmptyRepoKeepsEverything(e: CacheEntry, repos: seq<string>, files: seq<string>)
    requires "" in repos
    ensures !IsUnused(e, Patterns(repos), files)
  {
    var k :| 0 <= k < |repos| && repos[k] == "";
    assert OccursAt(Lower(BaseName(e.path)), Patterns(repos)[k], 0);
  }

  // ---------------------------------------------------------------
  // The confirmation

  /** Only a reply that strips and lower-cases to `y` deletes. */
  predicate Confirms(reply: string) {
    Lower(Strip(reply)) == "y"
  }

  /** The reply confirms exactly when, stripped, it is `y` or `Y`. */
  lemma ConfirmsIff(reply: string)
    ensures Confirms(reply) <==> Strip(reply) == "y" || Strip(reply) == "Y"
  {
    var s := Strip(reply);
    if Lower(s) == "y" {
      assert |s| == 1 && Lower(s)[0] == LowerChar(s[0]);
      assert s == [s[0]];
    }
    assert Lower("Y") == [LowerChar('Y')];
    assert Lower("y") == [LowerChar('y')];
  }

  datatype Outcome =
    | ConfigMissing            // no configuration file: exit status 1
    | NothingUnused            // no unused file: nothing asked
    | Declined(unused: seq<CacheEntry>)
    | Deleted(unused: seq<CacheEntry>)

  /** `main`: the configuration's commands (or none when the file is
      missing), the cache listing (or none when the directory is missing)
      and the reply given when asked. */
  method Cleanup(cmds: Option<seq<string>>, cache: Option<seq<CacheEntry>>, reply: string) returns (o: Outcome)
    ensures cmds.None? <==> o == ConfigMissing
    ensures cmds.Some? ==>
      var repos := Repos(cmds.value);
      var unused := Unused(if cache.Some? then cache.value else [], Patterns(repos), MmprojFiles(cmds.value));
      o == if unused == [] then NothingUnused else if Confirms(reply) then Deleted(unused) else Declined(unused)
  {
    if cmds.None? {
      return ConfigMissing;
    }
    var repos, files := GetConfiguredModels(cmds.value);
    var patterns := Patterns(repos);
    var entries := if cache.Some? then cache.value else [];
    var unused, total := FindUnused(entries, patterns, files);
    if unused == [] {
      return NothingUnused;
    }
    if Lower(Strip(reply)) == "y" {
      o := Deleted(unused);
    } else {
      o := Declined(unused);
    }
  }

  lemma UnusedEntry(entries: seq<CacheEntry>, patterns: seq<string>, files: seq<string>, e: CacheEntry)
    requires e in Unused(entries, patterns, files)
    ensures e in entries && IsUnused(e, patterns, files)
  {
    UnusedExactly(entries, patterns, files);
  }

  lemma NoPatternOccurs(name: string, repos: seq<string>, patterns: seq<string>)
    requires patterns == Patterns(repos)
    requires !exists k :: 0 <= k < |patterns| && Contains(name, patterns[k])
    ensures forall r :: r in repos ==> !Contains(name, Pattern(r))
  {
    forall r | r in repos
      ensures !Contains(name, Pattern(r))
    {
      var k :| 0 <= k < |repos| && repos[k] == r;
      assert patterns[k] == Pattern(r);
    }
  }

  /** What is deleted is unused: no directory, nothing a configured
      repository or projector file accounts for, no metadata. */
  lemma DeletedAreUnused(cmds: seq<string>, entries: seq<CacheEntry>, e: CacheEntry)
    requires e in Unused(entries, Patterns(Repos(cmds)), MmprojFiles(cmds))
    ensures e in entries && !e.isDir && !IsMetadata(BaseName(e.path))
    ensures forall r :: r in Repos(cmds) ==> !Contains(Lower(BaseName(e.path)), Pattern(r))
    ensures BaseName(e.path) !in MmprojFiles(cmds)
  {
    var repos, files := Repos(cmds), MmprojFiles(cmds);
    var patterns := Patterns(repos);
    UnusedEntry(entries, patterns, files, e);
    var name := BaseName(e.path);
    assert !IsConfigured(name, patterns, files);
    NoPatternOccurs(Lower(name), repos, patterns);
  }
}
