/** The script that bumps the ollama, llama-cpp and llama-swap overrides
    to their latest GitHub releases: picking the latest release, comparing
    it with the version in the file, rewriting the version, putting the
    placeholder hash into the hash fields that follow, and then putting the
    real hashes that failed builds report in place of the placeholders.
    The release list, the builds' error output and the version pattern's
    matches are inputs. */
module UpdateOverrides {
  import opened Text
  import opened OverrideText
  import opened Scanning
  import opened HashFields
  import opened Releases

  /** One package the script knows. Its version pattern is left to the
      matches passed in: the llama-swap URL pattern has five groups, the
      other two patterns three. */
  datatype Package = Package(
    name: string,
    owner: string,
    repo: string,
    tagPrefix: string,
    semver: bool,
    hashCount: nat)

  const Packages: seq<Package> := [
    Package("ollama", "ollama", "ollama", "v", true, 2),
    Package("llama-cpp", "ggml-org", "llama.cpp", "b", false, 1),
    Package("llama-swap", "mostlygeek", "llama-swap", "v", false, 1)
  ]

  /** The version appears twice, in the URL, for llama-swap only. */
  predicate TwoVersions(pkg: Package) {
    pkg.name == "llama-swap"
  }

  function PatternGroups(pkg: Package): nat {
    GroupCount(TwoVersions(pkg))
  }

  /** Only ollama has a second hash, its `vendorHash`; only llama-swap
      writes its version twice; only ollama is compared as a semver. */
  lemma PackageTable()
    ensures |Packages| == 3
    ensures Packages[0].hashCount == 2 && Packages[1].hashCount == 1 && Packages[2].hashCount == 1
    ensures !TwoVersions(Packages[0]) && !TwoVersions(Packages[1]) && TwoVersions(Packages[2])
    ensures Packages[0].semver && !Packages[1].semver && !Packages[2].semver
  {
  }

  // ---------------------------------------------------------------------
  // parse_semver and tuple order
  // ---------------------------------------------------------------------

  /** `int(p)` of every part, `None` for a part that is not an integer. */
  function ParsedParts(parts: seq<string>): (r: seq<Option<int>>)
    ensures |r| == |parts| && forall k :: 0 <= k < |parts| ==> r[k] == ParseInt(parts[k])
  {
    seq(|parts|, k requires 0 <= k < |parts| => ParseInt(parts[k]))
  }

  /** All the values, or `None` when one is missing: the list
      comprehension raises at the first part that does not parse. */
  function AllSome(os: seq<Option<int>>): (r: Option<seq<int>>)
    ensures r.Some? <==> forall k :: 0 <= k < |os| ==> os[k].Some?
    ensures r.Some? ==> |r.value| == |os| && forall k :: 0 <= k < |os| ==> Some(r.value[k]) == os[k]
    decreases |os|
  {
    if |os| == 0 then Some([])
    else
      match os[0]
      case None => None
      case Some(v) =>
        match AllSome(os[1..])
        case None =>
          assert forall k :: 1 <= k < |os| ==> os[1..][k - 1] == os[k];
          None
        case Some(vs) =>
          assert forall k :: 1 <= k < |os| ==> os[1..][k - 1] == os[k];
          Some([v] + vs)
  }

  /** `parse_semver`: leading `v`s dropped, split at the dots, every part
      an integer. */
  function ParseSemver(s: string): (r: Option<seq<int>>)
    ensures r.Some? ==> |r.value| >= 1
  {
    AllSome(ParsedParts(Split(LStripChar(s, 'v'), '.')))
  }

  /** A version written out: its numbers joined by dots. */
  function VersionText(ns: seq<nat>): string {
    Join(NumberTexts(ns), ".")
  }

  function NumberTexts(ns: seq<nat>): (r: seq<string>)
    ensures |r| == |ns| && forall k :: 0 <= k < |ns| ==> r[k] == NatToStr(ns[k])
  {
    seq(|ns|, k requires 0 <= k < |ns| => NatToStr(ns[k]))
  }

  /** Every number has at most `MaxStrDigits` digits, so `str()` of each
      does not raise. */
  predicate AllPrintable(ns: seq<nat>) {
    forall k :: 0 <= k < |ns| ==> Printable(ns[k])
  }

  lemma ParsedNumberTexts(ns: seq<nat>)
    requires AllPrintable(ns)
    ensures forall k :: 0 <= k < |ns| ==> ParsedParts(NumberTexts(ns))[k] == Some(ns[k] as int)
  {
    forall k | 0 <= k < |ns|
      ensures ParsedParts(NumberTexts(ns))[k] == Some(ns[k] as int)
    {
      ParseIntOfIntToStr(ns[k]);
    }
  }

  lemma SplitNumberTexts(ns: seq<nat>)
    requires |ns| >= 1
    ensures Split(LStripChar(VersionText(ns), 'v'), '.') == NumberTexts(ns)
  {
    var parts := NumberTexts(ns);
    assert forall k :: 0 <= k < |parts| ==> '.' !in parts[k];
    SplitJoin(parts, '.');
    JoinStartsWithFirst(parts, ".");
    NoLeadingV(VersionText(ns));
  }

  /** `parse_semver` reads back the numbers of a version it is given,
      with or without a leading `v`. */
  lemma ParseSemverOfVersionText(ns: seq<nat>)
    requires |ns| >= 1 && AllPrintable(ns)
    ensures ParseSemver(VersionText(ns)) == Some(ns)
    ensures ParseSemver("v" + VersionText(ns)) == Some(ns)
  {
    var text := VersionText(ns);
    SplitNumberTexts(ns);
    AllNumbersParse(ns);
    StripOneV(text);
  }

  lemma AllNumbersParse(ns: seq<nat>)
    requires AllPrintable(ns)
    ensures AllSome(ParsedParts(NumberTexts(ns))) == Some(ns)
  {
    ParsedNumberTexts(ns);
    AllSomeOfValues(ParsedParts(NumberTexts(ns)), ns);
  }

  lemma AllSomeOfValues(os: seq<Option<int>>, vs: seq<int>)
    requires |os| == |vs| && forall k :: 0 <= k < |os| ==> os[k] == Some(vs[k])
    ensures AllSome(os) == Some(vs)
  {
    var r := AllSome(os).value;
    assert forall k :: 0 <= k < |vs| ==> r[k] == vs[k];
    assert r == vs;
  }

  lemma StripOneV(text: string)
    ensures LStripChar("v" + text, 'v') == LStripChar(text, 'v')
  {
    assert ("v" + text)[1..] == text;
  }

  lemma JoinStartsWithFirst(parts: seq<string>, sep: string)
    requires |parts| >= 1 && |parts[0]| >= 1
    ensures |Join(parts, sep)| >= 1 && Join(parts, sep)[0] == parts[0][0]
  {
  }

  lemma NoLeadingV(s: string)
    requires |s| >= 1 && s[0] != 'v'
    ensures LStripChar(s, 'v') == s
  {
  }

  /** Python's `<` on tuples of integers. */
  predicate TupleLess(a: seq<int>, b: seq<int>)
    decreases |a|
  {
    if |a| == 0 then |b| > 0
    else if |b| == 0 then false
    else if a[0] != b[0] then a[0] < b[0]
    else TupleLess(a[1..], b[1..])
  }

  /** The order the language reference gives for sequences: a proper prefix
      comes first, otherwise the first differing element decides. */
  predicate LexLess(a: seq<int>, b: seq<int>) {
    (|a| < |b| && a == b[..|a|]) ||
    exists k :: 0 <= k < |a| && k < |b| && a[..k] == b[..k] && a[k] < b[k]
  }

  lemma {:induction false} TupleLessIsLex(a: seq<int>, b: seq<int>)
    ensures TupleLess(a, b) <==> LexLess(a, b)
    decreases |a|
  {
    if |a| > 0 && |b| > 0 {
      TupleLessIsLex(a[1..], b[1..]);
      if a[0] == b[0] {
        LexTail(a, b);
      } else {
        assert a[..0] == b[..0];
        LexFirstDiffers(a, b);
      }
    } else if |a| == 0 {
      assert |b| > 0 ==> a == b[..0];
    }
  }

  lemma LexTail(a: seq<int>, b: seq<int>)
    requires |a| > 0 && |b| > 0 && a[0] == b[0]
    ensures LexLess(a, b) <==> LexLess(a[1..], b[1..])
  {
    if LexLess(a[1..], b[1..]) {
      if |a| < |b| && a[1..] == b[1..][..|a| - 1] {
        assert a == [a[0]] + a[1..] && b[..|a|] == [b[0]] + b[1..][..|a| - 1];
      } else {
        var k :| 0 <= k < |a| - 1 && k < |b| - 1 && a[1..][..k] == b[1..][..k] && a[1..][k] < b[1..][k];
        assert a[..k + 1] == [a[0]] + a[1..][..k] && b[..k + 1] == [b[0]] + b[1..][..k];
      }
    }
    if LexLess(a, b) {
      if |a| < |b| && a == b[..|a|] {
        assert a[1..] == b[1..][..|a| - 1];
      } else {
        var k :| 0 <= k < |a| && k < |b| && a[..k] == b[..k] && a[k] < b[k];
        assert k != 0;
        assert a[1..][..k - 1] == a[1..k] == b[1..k] == b[1..][..k - 1];
        assert a[1..][k - 1] < b[1..][k - 1];
      }
    }
  }

  lemma LexFirstDiffers(a: seq<int>, b: seq<int>)
    requires |a| > 0 && |b| > 0 && a[0] != b[0]
    ensures LexLess(a, b) <==> a[0] < b[0]
  {
    assert a[..0] == b[..0];
  }

  lemma {:induction false} TupleLessIrreflexive(a: seq<int>)
    ensures !TupleLess(a, a)
    decreases |a|
  {
    if |a| > 0 {
      TupleLessIrreflexive(a[1..]);
    }
  }

  lemma {:induction false} TupleLessTransitive(a: seq<int>, b: seq<int>, c: seq<int>)
    requires TupleLess(a, b) && TupleLess(b, c)
    ensures TupleLess(a, c)
    decreases |a|
  {
    if |a| > 0 && |b| > 0 && |c| > 0 && a[0] == b[0] && b[0] == c[0] {
      TupleLessTransitive(a[1..], b[1..], c[1..]);
    }
  }

  lemma {:induction false} TupleLessTotal(a: seq<int>, b: seq<int>)
    ensures a == b || TupleLess(a, b) || TupleLess(b, a)
    decreases |a|
  {
    if |a| > 0 && |b| > 0 && a[0] == b[0] {
      TupleLessTotal(a[1..], b[1..]);
      if a[1..] == b[1..] {
        assert a == [a[0]] + a[1..] && b == [b[0]] + b[1..];
      }
    }
  }

  // ---------------------------------------------------------------------
  // get_latest_release
  // ---------------------------------------------------------------------

  /** A release the semver selection looks at: not a prerelease or draft,
      a tag with the prefix, and a rest that parses. */
  function SemverCandidate(r: Release, prefix: string): Option<(seq<int>, string)> {
    if r.prerelease || r.draft then None
    else match Unprefixed(r, prefix)
      case None => None
      case Some(v) =>
        match ParseSemver(v)
        case None => None
        case Some(t) => Some((t, v))
  }

  function SemverCandidates(rs: seq<Release>, prefix: string): (cs: seq<Option<(seq<int>, string)>>)
    ensures |cs| == |rs| && forall k :: 0 <= k < |rs| ==> cs[k] == SemverCandidate(rs[k], prefix)
  {
    seq(|rs|, k requires 0 <= k < |rs| => SemverCandidate(rs[k], prefix))
  }

  /** A tag with a component of more than `MaxStrDigits` digits makes
      `int()` raise, so `parse_semver` gives `None` and the release is
      skipped. */
  lemma LongComponentSkipped(r: Release, prefix: string, v: string, k: nat)
    requires Unprefixed(r, prefix) == Some(v)
    requires var parts := Split(LStripChar(v, 'v'), '.');
      k < |parts| && |parts[k]| > MaxStrDigits && forall j :: 0 <= j < |parts[k]| ==> IsDigit(parts[k][j])
    ensures ParseSemver(v).None?
    ensures SemverCandidate(r, prefix).None?
  {
    var parts := Split(LStripChar(v, 'v'), '.');
    ParseTooLong(parts[k]);
    assert ParsedParts(parts)[k].None?;
  }

  /** The loop's pair `(max_ver, max_ver_str)`. */
  datatype Best = Best(version: seq<int>, text: Option<string>)

  const Floor: seq<int> := [0, 0, 0]

  /** The running best, which starts at `(0, 0, 0)` and moves only to a
      tuple strictly above it. */
  function BestOf(cs: seq<Option<(seq<int>, string)>>): Best
    decreases |cs|
  {
    if |cs| == 0 then Best(Floor, None)
    else
      var b := BestOf(cs[..|cs| - 1]);
      match cs[|cs| - 1]
      case None => b
      case Some(c) => if TupleLess(b.version, c.0) then Best(c.0, Some(c.1)) else b
  }

  lemma BestOfStep(cs: seq<Option<(seq<int>, string)>>, i: nat)
    requires i < |cs|
    ensures BestOf(cs[..i + 1]) == match cs[i]
      case None => BestOf(cs[..i])
      case Some(c) => if TupleLess(BestOf(cs[..i]).version, c.0) then Best(c.0, Some(c.1)) else BestOf(cs[..i])
  {
    assert cs[..i + 1][..i] == cs[..i];
  }

  /** No candidate is above the best, and a best with text is one of the
      candidates, strictly above `(0, 0, 0)`; without text it is still
      `(0, 0, 0)`. */
  lemma {:induction false} BestOfIsLargest(cs: seq<Option<(seq<int>, string)>>)
    ensures forall k :: 0 <= k < |cs| && cs[k].Some? ==> !TupleLess(BestOf(cs).version, cs[k].value.0)
    ensures BestOf(cs).text.None? ==> BestOf(cs).version == Floor
    ensures BestOf(cs).text.Some? ==> TupleLess(Floor, BestOf(cs).version)
    ensures BestOf(cs).text.Some? ==>
      exists k :: 0 <= k < |cs| && cs[k] == Some((BestOf(cs).version, BestOf(cs).text.value))
    decreases |cs|
  {
    if |cs| > 0 {
      var init := cs[..|cs| - 1];
      BestOfIsLargest(init);
      var b := BestOf(init);
      assert forall k :: 0 <= k < |init| ==> init[k] == cs[k];
      match cs[|cs| - 1]
      case None =>
        BestKept(cs, init, b.version);
        if b.text.Some? {
          var k :| 0 <= k < |init| && init[k] == Some((b.version, b.text.value));
          assert cs[k] == init[k];
        }
      case Some(c) =>
        if TupleLess(b.version, c.0) {
          BestRaised(init, b.version, c.0);
          TupleLessIrreflexive(c.0);
          BestKept(cs, init, c.0);
          if b.text.Some? {
            TupleLessTransitive(Floor, b.version, c.0);
          }
        } else {
          assert BestOf(cs) == b;
          BestKept(cs, init, b.version);
          if b.text.Some? {
            var k :| 0 <= k < |init| && init[k] == Some((b.version, b.text.value));
            assert cs[k] == init[k];
          }
        }
    }
  }

  /** A best that no earlier candidate and not the last one is above
      stays the best. */
  lemma BestKept(cs: seq<Option<(seq<int>, string)>>, init: seq<Option<(seq<int>, string)>>, v: seq<int>)
    requires |cs| > 0 && init == cs[..|cs| - 1]
    requires forall k :: 0 <= k < |init| && init[k].Some? ==> !TupleLess(v, init[k].value.0)
    requires cs[|cs| - 1].Some? ==> !TupleLess(v, cs[|cs| - 1].value.0)
    ensures forall k :: 0 <= k < |cs| && cs[k].Some? ==> !TupleLess(v, cs[k].value.0)
  {
    forall k | 0 <= k < |cs| && cs[k].Some?
      ensures !TupleLess(v, cs[k].value.0)
    {
      if k < |cs| - 1 {
        assert init[k] == cs[k];
      }
    }
  }

  /** Raising the best keeps every earlier candidate below or at it. */
  lemma BestRaised(init: seq<Option<(seq<int>, string)>>, old_: seq<int>, new_: seq<int>)
    requires forall k :: 0 <= k < |init| && init[k].Some? ==> !TupleLess(old_, init[k].value.0)
    requires TupleLess(old_, new_)
    ensures forall k :: 0 <= k < |init| && init[k].Some? ==> !TupleLess(new_, init[k].value.0)
  {
    forall k | 0 <= k < |init| && init[k].Some?
      ensures !TupleLess(new_, init[k].value.0)
    {
      if TupleLess(new_, init[k].value.0) {
        TupleLessTransitive(old_, new_, init[k].value.0);
      }
    }
  }

  /** The best text is `None` exactly when no candidate is above `(0, 0, 0)`. */
  lemma BestOfNone(cs: seq<Option<(seq<int>, string)>>)
    ensures BestOf(cs).text.None? <==>
      forall k :: 0 <= k < |cs| && cs[k].Some? ==> !TupleLess(Floor, cs[k].value.0)
  {
    BestOfIsLargest(cs);
    if BestOf(cs).text.Some? {
      var k :| 0 <= k < |cs| && cs[k] == Some((BestOf(cs).version, BestOf(cs).text.value));
      assert cs[k].Some? && TupleLess(Floor, cs[k].value.0);
    }
  }

  /** The semver selection loop. */
  method LatestSemver(releases: seq<Release>, prefix: string) returns (latest: Option<string>)
    ensures latest == BestOf(SemverCandidates(releases, prefix)).text
  {
    ghost var cs := SemverCandidates(releases, prefix);
    var maxVer := Floor;
    var maxVerStr: Option<string> := None;
    var i := 0;
    while i < |releases|
      invariant i <= |releases|
      invariant Best(maxVer, maxVerStr) == BestOf(cs[..i])
    {
      var c := SemverCandidate(releases[i], prefix);
      assert c == cs[i];
      BestOfStep(cs, i);
      if c.Some? && TupleLess(maxVer, c.value.0) {
        maxVer, maxVerStr := c.value.0, Some(c.value.1);
      }
      i := i + 1;
    }
    assert cs[..i] == cs;
    latest := maxVerStr;
  }

  /** `get_latest_release`, given what the releases request returned
      (`None` when it failed). */
  function LatestRelease(pkg: Package, releases: Option<seq<Release>>): Option<string> {
    if releases.None? then None
    else if pkg.semver then BestOf(SemverCandidates(releases.value, pkg.tagPrefix)).text
    else
      var m := MaxTagNumber(releases.value, pkg.tagPrefix);
      if m == 0 then None else Some(NatToStr(m))
  }

  method GetLatestRelease(pkg: Package, releases: Option<seq<Release>>) returns (latest: Option<string>)
    ensures latest == LatestRelease(pkg, releases)
  {
    if releases.None? {
      return None;
    }
    if pkg.semver {
      latest := LatestSemver(releases.value, pkg.tagPrefix);
    } else {
      var maxVer := MaxTag(releases.value, pkg.tagPrefix);
      latest := if maxVer != 0 then Some(NatToStr(maxVer)) else None;
    }
  }

  /** The semver selection: a latest release is an eligible one with the
      largest tuple, strictly above `(0, 0, 0)`; there is none exactly when
      no eligible tuple is above `(0, 0, 0)`. */
  lemma LatestSemverIsLargest(pkg: Package, rs: seq<Release>)
    requires pkg.semver
    ensures var latest := LatestRelease(pkg, Some(rs));
      && (latest.None? <==> forall k :: 0 <= k < |rs| && SemverCandidate(rs[k], pkg.tagPrefix).Some? ==>
            !TupleLess(Floor, SemverCandidate(rs[k], pkg.tagPrefix).value.0))
      && (latest.Some? ==>
            exists k :: (0 <= k < |rs| && SemverCandidate(rs[k], pkg.tagPrefix).Some?
              && SemverCandidate(rs[k], pkg.tagPrefix).value.1 == latest.value
              && TupleLess(Floor, SemverCandidate(rs[k], pkg.tagPrefix).value.0)
              && forall j :: 0 <= j < |rs| && SemverCandidate(rs[j], pkg.tagPrefix).Some? ==>
                   !TupleLess(SemverCandidate(rs[k], pkg.tagPrefix).value.0, SemverCandidate(rs[j], pkg.tagPrefix).value.0)))
  {
    var cs := SemverCandidates(rs, pkg.tagPrefix);
    BestOfIsLargest(cs);
    BestOfNone(cs);
  }

  /** The integer selection: a latest release is the decimal text of the
      largest tag number, and there is none exactly when no tag number is
      positive. */
  lemma LatestIntegerIsLargest(pkg: Package, rs: seq<Release>)
    requires !pkg.semver
    ensures var latest := LatestRelease(pkg, Some(rs));
      && (latest.None? <==> forall k :: 0 <= k < |rs| && TagNumber(rs[k], pkg.tagPrefix).Some? ==>
            TagNumber(rs[k], pkg.tagPrefix).value <= 0)
      && (latest.Some? ==>
            exists m: nat :: (latest.value == NatToStr(m) && ParseInt(latest.value) == Some(m as int)
              && (exists k :: 0 <= k < |rs| && TagNumber(rs[k], pkg.tagPrefix) == Some(m as int))
              && forall k :: 0 <= k < |rs| && TagNumber(rs[k], pkg.tagPrefix).Some? ==> TagNumber(rs[k], pkg.tagPrefix).value <= m))
  {
    MaxTagNumberIsLargest(rs, pkg.tagPrefix);
    var m := MaxTagNumber(rs, pkg.tagPrefix);
    if m != 0 {
      MaxTagNumberReadsBack(rs, pkg.tagPrefix);
    }
  }

  // ---------------------------------------------------------------------
  // compare_versions
  // ---------------------------------------------------------------------

  /** `compare_versions`; `None` is the exception Python raises when a
      version does not parse (`TypeError` comparing `None`, or `ValueError`). */
  function CompareVersions(current: string, latest: string, semver: bool): Option<bool> {
    if semver then
      var l := ParseSemver(latest);
      var c := ParseSemver(current);
      if l.None? || c.None? then None else Some(TupleLess(c.value, l.value))
    else
      var l := ParseInt(latest);
      var c := ParseInt(current);
      if l.None? || c.None? then None else Some(c.value < l.value)
  }

  /** On semver versions written out, the comparison is "strictly newer"
      in tuple order. */
  lemma CompareWrittenSemvers(current: seq<nat>, latest: seq<nat>)
    requires |current| >= 1 && |latest| >= 1 && AllPrintable(current) && AllPrintable(latest)
    ensures CompareVersions(VersionText(current), VersionText(latest), true) == Some(TupleLess(current, latest))
  {
    ParseSemverOfVersionText(current);
    ParseSemverOfVersionText(latest);
  }

  /** On integer versions written out, the comparison is "strictly
      larger". */
  lemma CompareWrittenIntegers(a: nat, b: nat)
    requires Printable(a) && Printable(b)
    ensures CompareVersions(NatToStr(a), NatToStr(b), false) == Some(a < b)
  {
    ParseIntOfIntToStr(a);
    ParseIntOfIntToStr(b);
  }

  // ---------------------------------------------------------------------
  // replace_hashes_in_block
  // ---------------------------------------------------------------------

  /** What `replace_hashes_in_block` makes of the text: up to `count`
      successive hash field values from `start` on, each search starting
      after the previous value, become the placeholder. */
  function ReplaceHashes(s: string, start: nat, count: nat): string {
    ReplaceCaptures(MatcherOf(HashField), s, start, count, DummyHash)
  }

  /** The loop itself, with the field pattern; a search from past the end
      of the text finds nothing, so every iteration then leaves it alone. */
  method ReplaceHashesInBlock(content0: string, start: nat, count: nat) returns (content: string)
    ensures content == ReplaceHashes(content0, start, count)
  {
    if start > |content0| {
      content := content0;
    } else {
      content := ReplaceCapturesLoop(MatcherOf(HashField), content0, start, count, DummyHash);
    }
  }

  /** The replacement swaps hash field values for the placeholder and
      changes nothing else; there are at most `count` of them. */
  lemma ReplaceHashesSwapsValues(s: string, start: nat, count: nat)
    requires start <= |s|
    ensures var m := MatcherOf(HashField);
      var gaps := CaptureGaps(m, s, start, count);
      var values := Captures(m, s, start, count);
      && |gaps| == |values| + 1 && |values| <= count
      && ReplaceHashes(s, start, count) == s[..start] + Join(gaps, DummyHash)
      && s == s[..start] + Weave(gaps, values)
      && forall k :: 0 <= k < |values| ==> IsFieldValue(values[k])
  {
    MatcherYieldsValues(HashField);
    ReplaceCapturesSwaps(MatcherOf(HashField), ValueTest(HashField), s, start, count, DummyHash);
  }

  // ---------------------------------------------------------------------
  // update_version
  // ---------------------------------------------------------------------

  /** `update_version`, given the version pattern's matches in `content`
      and the releases request's result. */
  function UpdateVersion(content: string, pkg: Package, ms: seq<Match>, releases: Option<seq<Release>>): (r: UpdateResult)
    requires ValidMatches(ms, PatternGroups(pkg), 0, |content|)
    ensures r.Done? && !r.updated ==> r.content == content
    ensures r.Done? && r.updated <==>
      ms != [] && LatestRelease(pkg, releases).Some? && LatestRelease(pkg, releases).value != "" &&
      CompareVersions(content[ms[0].groups[1].start..ms[0].groups[1].end], LatestRelease(pkg, releases).value, pkg.semver) == Some(true)
    ensures r.Crashed? <==>
      ms != [] && LatestRelease(pkg, releases).Some? && LatestRelease(pkg, releases).value != "" &&
      CompareVersions(content[ms[0].groups[1].start..ms[0].groups[1].end], LatestRelease(pkg, releases).value, pkg.semver).None?
    ensures r.Done? && r.updated ==>
      r.content == ReplaceHashes(Splice(content, VersionSpans(ms, TwoVersions(pkg), 0, |content|),
                                        LatestRelease(pkg, releases).value, 0), Start(ms[0]), pkg.hashCount)
  {
    if ms == [] then Done(content, false)
    else
      var m := ms[0];
      var current := content[m.groups[1].start..m.groups[1].end];
      var latest := LatestRelease(pkg, releases);
      if latest.None? || latest.value == "" then Done(content, false)
      else match CompareVersions(current, latest.value, pkg.semver)
        case None => Crashed
        case Some(newer) =>
          if !newer then Done(content, false)
          else
            var bumped := Sub(content, ms, VersionTemplate(latest.value, TwoVersions(pkg)), PatternGroups(pkg), 0);
            SubReplacesVersions(content, ms, latest.value, TwoVersions(pkg), 0);
            Done(ReplaceHashes(bumped, Start(m), pkg.hashCount), true)
  }

  // ---------------------------------------------------------------------
  // resolve_hashes
  // ---------------------------------------------------------------------

  /** How `resolve_hashes` ends: with the resolved text, or with exit
      status 1 when a build names no hash, the file then holding the text
      of the last write. */
  datatype Resolution = Resolved(content: string) | BuildFailed(content: string)

  /** The loop from iteration `i` on, given the error output of the `i`-th
      build. */
  function Resolve(content: string, stderrOf: nat -> string, i: nat, count: nat): Resolution
    decreases count - i
  {
    if i >= count then Resolved(content)
    else match NewHash(stderrOf(i))
      case None => BuildFailed(content)
      case Some(h) => Resolve(ReplaceFirst(content, DummyHash, h), stderrOf, i + 1, count)
  }

  method ResolveHashes(content0: string, pkg: Package, stderrOf: nat -> string) returns (res: Resolution)
    ensures res == Resolve(content0, stderrOf, 0, pkg.hashCount)
  {
    var content := content0;
    var i := 0;
    while i < pkg.hashCount
      invariant i <= pkg.hashCount
      invariant Resolve(content0, stderrOf, 0, pkg.hashCount) == Resolve(content, stderrOf, i, pkg.hashCount)
    {
      var newHash := NewHash(stderrOf(i));
      if newHash.None? {
        return BuildFailed(content);
      }
      content := ReplaceFirst(content, DummyHash, newHash.value);
      i := i + 1;
    }
    return Resolved(content);
  }

  /** One iteration replaces the first placeholder, and only that one. */
  lemma ReplaceFirstDummy(a: string, b: string, h: string)
    requires !Contains(a, DummyHash)
    ensures ReplaceFirst(a + DummyHash + b, DummyHash, h) == a + h + b
  {
    var s := a + DummyHash + b;
    DummyFirstAt(a, b);
    ReplaceFirstAt(s, DummyHash, h, |a|);
    assert s[..|a|] == a && s[|a| + |DummyHash|..] == b;
  }

  /** A package with one hash whose build reports one ends with its
      placeholder replaced; a build that reports none fails with the text
      as it was. */
  lemma ResolveOneHash(a: string, b: string, stderrOf: nat -> string)
    requires !Contains(a, DummyHash)
    ensures NewHash(stderrOf(0)).Some? ==>
      Resolve(a + DummyHash + b, stderrOf, 0, 1) == Resolved(a + NewHash(stderrOf(0)).value + b)
    ensures NewHash(stderrOf(0)).None? ==>
      Resolve(a + DummyHash + b, stderrOf, 0, 1) == BuildFailed(a + DummyHash + b)
  {
    if NewHash(stderrOf(0)).Some? {
      ReplaceFirstDummy(a, b, NewHash(stderrOf(0)).value);
    }
  }
}
