/** The second override updater, for llama-cpp and llama-swap only: the
    largest integer release tag is the latest version, the version digits
    are rewritten with `re.sub`, the value of the first hash field after
    the version becomes the placeholder hash, and once a build has reported
    the real hash every placeholder is replaced by it. As in the first
    updater, the matches of the version and URL patterns are inputs. */
module UpdateLlama {
  import opened Text
  import opened OverrideText
  import opened Scanning
  import opened HashFields
  import opened Releases
  import opened UpdateOverrides

  // ---------------------------------------------------------------------
  // get_latest_github_release
  // ---------------------------------------------------------------------

  /** `get_latest_github_release`, given what the releases request returned
      (`None` when it failed): the largest integer tag number written out,
      `"0"` when no tag has one. */
  function LatestTag(releases: Option<seq<Release>>, prefix: string): (r: Option<string>)
    ensures r.None? <==> releases.None?
    ensures r.Some? ==> r.value != "" && ParseInt(r.value) == Some(MaxTagNumber(releases.value, prefix) as int)
  {
    if releases.None? then None
    else
      var m := MaxTagNumber(releases.value, prefix);
      MaxTagNumberReadsBack(releases.value, prefix);
      Some(NatToStr(m))
  }

  method GetLatestGithubRelease(releases: Option<seq<Release>>, prefix: string) returns (latest: Option<string>)
    ensures latest == LatestTag(releases, prefix)
  {
    if releases.None? {
      return None;
    }
    var maxVer := MaxTag(releases.value, prefix);
    return Some(NatToStr(maxVer));
  }

  /** The tag written out is `"0"` exactly when no tag with the prefix has
      a positive number; otherwise it is the largest one. */
  lemma LatestTagIsLargest(rs: seq<Release>, prefix: string)
    ensures LatestTag(Some(rs), prefix) == Some("0") <==>
      forall k :: 0 <= k < |rs| && TagNumber(rs[k], prefix).Some? ==> TagNumber(rs[k], prefix).value <= 0
    ensures forall k :: 0 <= k < |rs| && TagNumber(rs[k], prefix).Some? ==>
      TagNumber(rs[k], prefix).value <= ParseInt(LatestTag(Some(rs), prefix).value).value
  {
    MaxTagNumberIsLargest(rs, prefix);
    var m := MaxTagNumber(rs, prefix);
    if m == 0 {
      assert NatToStr(m) == [DigitChar(0)] == "0";
    } else {
      assert DigitsValue(NatToStr(m)) == m;
      assert DigitsValue("0") == 0;
    }
  }

  // ---------------------------------------------------------------------
  // The hash field after a version
  // ---------------------------------------------------------------------

  /** `hash_pattern.search(t, pos=from)` with the placeholder put in place
      of the value the search captures; `None` when the search fails. */
  function PlaceDummy(t: string, from: nat): Option<string> {
    ReplaceFirstCapture(MatcherOf(LazyHashField), t, from, DummyHash)
  }

  /** What the placeholder replaces is the value the search captures, one
      the lazy pattern accepts, at or after `from`; the text around it is
      kept. */
  lemma PlaceDummyPutsPlaceholder(t: string, from: nat)
    requires PlaceDummy(t, from).Some?
    ensures Search(LazyHashField, t, from).Some?
    ensures var sp := Search(LazyHashField, t, from).value;
      && from <= sp.start && IsLazyValue(t[sp.start..sp.end])
      && PlaceDummy(t, from).value == t[..sp.start] + DummyHash + t[sp.end..]
    ensures Contains(PlaceDummy(t, from).value, DummyHash)
  {
    ReplaceFirstCaptureHoldsRep(MatcherOf(LazyHashField), t, from, DummyHash);
  }

  /** The lazy pattern also accepts an empty value. */
  lemma EmptyValueAccepted()
    ensures LazyAtFront("hash = \"\";") == Some(Span(8, 8))
  {
    var w := "hash = \"\";";
    assert OccursAt(w, "hash", 0);
    assert SpaceEnd(w, 4) == 5;
    assert SpaceEnd(w, 6) == 7;
    assert ValueStart(w, 4) == Some(8);
    assert !OccursAt(w, "sha256-", 8);
    assert OccursAt(w, "\";", 8);
  }

  // ---------------------------------------------------------------------
  // update_llama_cpp and update_llama_swap
  // ---------------------------------------------------------------------

  /** The version digits (group 2) of a match. */
  function Current(content: string, m: Match): string
    requires |m.groups| >= 2 && m.groups[1].start <= m.groups[1].end <= |content|
  {
    content[m.groups[1].start..m.groups[1].end]
  }

  /** `update_llama_cpp`, given the version pattern's matches in `content`
      and the result of the `b`-prefixed releases request. */
  function UpdateLlamaCpp(content: string, ms: seq<Match>, releases: Option<seq<Release>>): (r: UpdateResult)
    requires ValidMatches(ms, 3, 0, |content|)
    ensures r.Done? && !r.updated ==> r.content == content
    ensures r.Crashed? <==>
      ms != [] && releases.Some? && CompareVersions(Current(content, ms[0]), LatestTag(releases, "b").value, false).None?
    ensures r.Done? && r.updated <==>
      ms != [] && releases.Some? && CompareVersions(Current(content, ms[0]), LatestTag(releases, "b").value, false) == Some(true) &&
      PlaceDummy(Splice(content, VersionSpans(ms, false, 0, |content|), LatestTag(releases, "b").value, 0), End(ms[0])).Some?
    ensures r.Done? && r.updated ==>
      r.content == PlaceDummy(Splice(content, VersionSpans(ms, false, 0, |content|), LatestTag(releases, "b").value, 0), End(ms[0])).value
  {
    if ms == [] then Done(content, false)
    else
      var latest := LatestTag(releases, "b");
      if latest.None? || latest.value == "" then Done(content, false)
      else match CompareVersions(Current(content, ms[0]), latest.value, false)
        case None => Crashed
        case Some(newer) =>
          if !newer then Done(content, false)
          else
            var bumped := Sub(content, ms, VersionTemplate(latest.value, false), 3, 0);
            SubReplacesVersions(content, ms, latest.value, false, 0);
            match PlaceDummy(bumped, End(ms[0]))
            case None => Done(content, false)
            case Some(dummied) => Done(dummied, true)
  }

  /** The end of the first version match once its digits are `latest`. */
  function RewrittenEnd(m: Match, latest: string): nat
    requires |m.groups| == 3 && m.groups[1].start <= m.groups[1].end <= m.groups[2].end
  {
    m.groups[1].start + |latest| + (m.groups[2].end - m.groups[1].end)
  }

  /** In the rewritten text the first match ends at `RewrittenEnd`: before
      it is the old text with the new version, after it the rest of the old
      text with the later matches rewritten. The hash search starts at the
      old end instead, `|current| - |latest|` characters further on, which
      is the same place whenever the two versions have the same width. */
  lemma CppSearchStart(content: string, ms: seq<Match>, latest: string)
    requires ValidMatches(ms, 3, 0, |content|) && ms != []
    ensures var m := ms[0];
      var bumped := Sub(content, ms, VersionTemplate(latest, false), 3, 0);
      && RewrittenEnd(m, latest) <= |bumped|
      && bumped[..RewrittenEnd(m, latest)] == content[..m.groups[1].start] + latest + content[m.groups[1].end..End(m)]
      && bumped[RewrittenEnd(m, latest)..] == Sub(content, ms[1..], VersionTemplate(latest, false), 3, End(m))
      && End(m) + |latest| == RewrittenEnd(m, latest) + |Current(content, m)|
  {
    var m := ms[0];
    var tpl := VersionTemplate(latest, false);
    var e := Expand(content, m, tpl, 3);
    ExpandOnce(content, m, latest);
    var rest := Sub(content, ms[1..], tpl, 3, End(m));
    var x := content[Start(m)..m.groups[1].start];
    var y := content[m.groups[1].end..End(m)];
    SliceSplit(content, 0, Start(m), m.groups[1].start);
    SplitAfter(Sub(content, ms, tpl, 3, 0), content[..Start(m)], e, rest, x, y, latest, content[..m.groups[1].start]);
  }

  lemma SplitAfter(bumped: string, a: string, e: string, rest: string, x: string, y: string, latest: string, p: string)
    requires bumped == a + e + rest && e == x + (latest + y) && p == a + x
    ensures |p + latest + y| <= |bumped|
    ensures bumped[..|p + latest + y|] == p + latest + y && bumped[|p + latest + y|..] == rest
  {
    assert bumped == (p + latest + y) + rest;
  }

  /** `update_llama_swap`, given the URL pattern's matches in any text (the
      script searches the rewritten text again) and the result of the
      `v`-prefixed releases request. */
  function UpdateLlamaSwap(content: string, urlMatches: string -> seq<Match>, releases: Option<seq<Release>>): (r: UpdateResult)
    requires forall t {:trigger urlMatches(t)} :: ValidMatches(urlMatches(t), 5, 0, |t|)
    ensures r.Done? && !r.updated ==> r.content == content
    ensures var ms := urlMatches(content);
      assert ValidMatches(ms, 5, 0, |content|);
      r.Crashed? <==>
      ms != [] && releases.Some? &&
      match CompareVersions(Current(content, ms[0]), LatestTag(releases, "v").value, false)
      case None => true
      case Some(newer) => newer && urlMatches(Splice(content, VersionSpans(ms, true, 0, |content|), LatestTag(releases, "v").value, 0)) == []
    ensures var ms := urlMatches(content);
      assert ValidMatches(ms, 5, 0, |content|);
      r.Done? && r.updated ==>
      && ms != [] && releases.Some?
      && CompareVersions(Current(content, ms[0]), LatestTag(releases, "v").value, false) == Some(true)
      && var bumped := Splice(content, VersionSpans(ms, true, 0, |content|), LatestTag(releases, "v").value, 0);
         var again := urlMatches(bumped);
         assert ValidMatches(again, 5, 0, |bumped|);
         again != [] && PlaceDummy(bumped, End(again[0])).Some? && r.content == PlaceDummy(bumped, End(again[0])).value
  {
    var ms := urlMatches(content);
    assert ValidMatches(ms, 5, 0, |content|);
    if ms == [] then Done(content, false)
    else
      var latest := LatestTag(releases, "v");
      if latest.None? || latest.value == "" then Done(content, false)
      else match CompareVersions(Current(content, ms[0]), latest.value, false)
        case None => Crashed
        case Some(newer) =>
          if !newer then Done(content, false)
          else
            var bumped := Sub(content, ms, VersionTemplate(latest.value, true), 5, 0);
            SubReplacesVersions(content, ms, latest.value, true, 0);
            var again := urlMatches(bumped);
            assert ValidMatches(again, 5, 0, |bumped|);
            if again == [] then Crashed
            else match PlaceDummy(bumped, End(again[0]))
              case None => Done(content, false)
              case Some(dummied) => Done(dummied, true)
  }

  /** With no newer release, or no hash field after the URL, llama-swap is
      left as it is. */
  lemma SwapKeepsContent(content: string, urlMatches: string -> seq<Match>, releases: Option<seq<Release>>)
    requires forall t {:trigger urlMatches(t)} :: ValidMatches(urlMatches(t), 5, 0, |t|)
    requires var ms := urlMatches(content);
      assert ValidMatches(ms, 5, 0, |content|);
      ms == [] || releases.None? || CompareVersions(Current(content, ms[0]), LatestTag(releases, "v").value, false) == Some(false)
    ensures UpdateLlamaSwap(content, urlMatches, releases) == Done(content, false)
  {
  }

  // ---------------------------------------------------------------------
  // main
  // ---------------------------------------------------------------------

  /** The placeholder replaced, everywhere, by the hash a build reported;
      `None` when the build output names none. */
  function FillHash(content: string, stderr: string): (r: Option<string>)
    ensures r.None? <==> NewHash(stderr).None?
  {
    match NewHash(stderr)
    case None => None
    case Some(h) => Some(ReplaceAll(content, DummyHash, h))
  }

  /** A placeholder the update put into a text that had none is replaced
      by the reported hash, and nothing else changes. */
  lemma FillHashReplacesPlaceholder(a: string, b: string, stderr: string)
    requires !Contains(a, DummyHash) && !Contains(b, DummyHash) && NewHash(stderr).Some?
    ensures FillHash(a + DummyHash + b, stderr) == Some(a + NewHash(stderr).value + b)
  {
    var s := a + DummyHash + b;
    var h := NewHash(stderr).value;
    DummyFirstAt(a, b);
    ReplaceAllAt(s, DummyHash, h, |a|);
    assert s[..|a|] == a && s[|a| + |DummyHash|..] == b;
    ReplaceAllNoMatch(b, DummyHash, h);
  }

  /** How the script ends. */
  datatype Exit = Finished | ExitOne | Raised

  /** The file afterwards (`None` when it does not exist) and how the
      script ended. */
  datatype Run = Run(file: Option<string>, exit: Exit)

  /** `main`: the file as found (`None` when missing), the matches of both
      patterns in any text, both releases requests and both builds' error
      output. */
  function Main(file: Option<string>, versionMatches: string -> seq<Match>, cppReleases: Option<seq<Release>>,
                cppStderr: string, urlMatches: string -> seq<Match>, swapReleases: Option<seq<Release>>,
                swapStderr: string): (r: Run)
    requires forall t {:trigger versionMatches(t)} :: ValidMatches(versionMatches(t), 3, 0, |t|)
    requires forall t {:trigger urlMatches(t)} :: ValidMatches(urlMatches(t), 5, 0, |t|)
    ensures r.file.None? <==> file.None?
    ensures file.None? ==> r.exit == ExitOne
    ensures r.exit == ExitOne && file.Some? ==> Contains(r.file.value, DummyHash)
  {
    if file.None? then Run(None, ExitOne)
    else
      var content := file.value;
      match UpdateLlamaCpp(content, versionMatches(content), cppReleases)
      case Crashed => Run(file, Raised)
      case Done(afterCpp, updatedCpp) =>
        var filled := if updatedCpp then FillHash(afterCpp, cppStderr) else Some(afterCpp);
        if filled.None? then
          CppUpdateHoldsPlaceholder(content, versionMatches(content), cppReleases);
          Run(Some(afterCpp), ExitOne)
        else
          var c := filled.value;
          match UpdateLlamaSwap(c, urlMatches, swapReleases)
          case Crashed => Run(Some(c), Raised)
          case Done(afterSwap, updatedSwap) =>
            if !updatedSwap then Run(Some(c), Finished)
            else match FillHash(afterSwap, swapStderr)
              case None =>
                SwapUpdateHoldsPlaceholder(c, urlMatches, swapReleases);
                Run(Some(afterSwap), ExitOne)
              case Some(done) => Run(Some(done), Finished)
  }

  /** The text a llama-cpp update writes holds the placeholder. */
  lemma CppUpdateHoldsPlaceholder(content: string, ms: seq<Match>, releases: Option<seq<Release>>)
    requires ValidMatches(ms, 3, 0, |content|)
    requires UpdateLlamaCpp(content, ms, releases).Done? && UpdateLlamaCpp(content, ms, releases).updated
    ensures Contains(UpdateLlamaCpp(content, ms, releases).content, DummyHash)
  {
    PlaceDummyPutsPlaceholder(Splice(content, VersionSpans(ms, false, 0, |content|), LatestTag(releases, "b").value, 0), End(ms[0]));
  }

  /** The text a llama-swap update writes holds the placeholder. */
  lemma SwapUpdateHoldsPlaceholder(content: string, urlMatches: string -> seq<Match>, releases: Option<seq<Release>>)
    requires forall t {:trigger urlMatches(t)} :: ValidMatches(urlMatches(t), 5, 0, |t|)
    requires UpdateLlamaSwap(content, urlMatches, releases).Done? && UpdateLlamaSwap(content, urlMatches, releases).updated
    ensures Contains(UpdateLlamaSwap(content, urlMatches, releases).content, DummyHash)
  {
    var ms := urlMatches(content);
    var bumped := Splice(content, VersionSpans(ms, true, 0, |content|), LatestTag(releases, "v").value, 0);
    PlaceDummyPutsPlaceholder(bumped, End(urlMatches(bumped)[0]));
  }

  /** When neither version is behind, the script leaves the file alone. */
  lemma MainWithoutUpdates(content: string, versionMatches: string -> seq<Match>, cppReleases: Option<seq<Release>>,
                           cppStderr: string, urlMatches: string -> seq<Match>, swapReleases: Option<seq<Release>>,
                           swapStderr: string)
    requires forall t {:trigger versionMatches(t)} :: ValidMatches(versionMatches(t), 3, 0, |t|)
    requires forall t {:trigger urlMatches(t)} :: ValidMatches(urlMatches(t), 5, 0, |t|)
    requires UpdateLlamaCpp(content, versionMatches(content), cppReleases) == Done(content, false)
    requires UpdateLlamaSwap(content, urlMatches, swapReleases) == Done(content, false)
    ensures Main(Some(content), versionMatches, cppReleases, cppStderr, urlMatches, swapReleases, swapStderr)
         == Run(Some(content), Finished)
  {
  }
}
