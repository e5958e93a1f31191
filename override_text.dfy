/** Text edits shared by the two scripts that update the package
    overrides: regions of the file, splicing one replacement into several
    regions, the matches a regular expression reports, and `re.sub` with a
    `\g<n>` template. Positions are absolute indexes into the text `t`; every
    recursive definition walks from a position `from` to the end of `t`. */
module OverrideText {
  import opened Text

  /** The placeholder written where a hash must be recomputed: `sha256-`,
      43 `A`s and `=`. */
  const DummyHash: string := "sha256-" + Repeat('A', 43) + "="

  /** The region `[start, end)` of a text. */
  datatype Span = Span(start: nat, end: nat)

  /** Spans in order and not overlapping, all between `from` and `n`. */
  predicate Ordered(spans: seq<Span>, from: nat, n: nat)
    decreases |spans|
  {
    |spans| == 0 ||
    (from <= spans[0].start <= spans[0].end <= n && Ordered(spans[1..], spans[0].end, n))
  }

  lemma OrderedEarlier(spans: seq<Span>, from: nat, earlier: nat, n: nat)
    requires Ordered(spans, from, n) && earlier <= from
    ensures Ordered(spans, earlier, n)
  {
  }

  /** `t[from..]` with every span replaced by `rep`. */
  function Splice(t: string, spans: seq<Span>, rep: string, from: nat): string
    requires from <= |t| && Ordered(spans, from, |t|)
    decreases |spans|
  {
    if |spans| == 0 then t[from..]
    else t[from..spans[0].start] + rep + Splice(t, spans[1..], rep, spans[0].end)
  }

  /** The pieces of `t[from..]` around the spans, in order. */
  function Gaps(t: string, spans: seq<Span>, from: nat): (r: seq<string>)
    requires from <= |t| && Ordered(spans, from, |t|)
    ensures |r| == |spans| + 1
    decreases |spans|
  {
    if |spans| == 0 then [t[from..]]
    else [t[from..spans[0].start]] + Gaps(t, spans[1..], spans[0].end)
  }

  /** Splicing changes only the spans: the result is the untouched gaps
      with `rep` between each two. */
  lemma {:induction false} SpliceKeepsGaps(t: string, spans: seq<Span>, rep: string, from: nat)
    requires from <= |t| && Ordered(spans, from, |t|)
    ensures Splice(t, spans, rep, from) == Join(Gaps(t, spans, from), rep)
    decreases |spans|
  {
    if |spans| > 0 {
      SpliceKeepsGaps(t, spans[1..], rep, spans[0].end);
      var gaps := Gaps(t, spans, from);
      assert gaps[1..] == Gaps(t, spans[1..], spans[0].end);
    }
  }

  /** Splicing from an earlier position adds the text in between. */
  lemma SplicePrepend(t: string, spans: seq<Span>, rep: string, earlier: nat, from: nat)
    requires earlier <= from <= |t| && Ordered(spans, from, |t|)
    ensures Ordered(spans, earlier, |t|)
    ensures Splice(t, spans, rep, earlier) == t[earlier..from] + Splice(t, spans, rep, from)
  {
    if |spans| > 0 {
      var rest := Splice(t, spans[1..], rep, spans[0].end);
      assert Splice(t, spans, rep, earlier) == t[earlier..spans[0].start] + rep + rest;
      assert Splice(t, spans, rep, from) == t[from..spans[0].start] + rep + rest;
      SliceSplit(t, earlier, from, spans[0].start);
      Reassociate(t[earlier..spans[0].start], t[earlier..from], t[from..spans[0].start], rep, rest);
    } else {
      assert t[earlier..] == t[earlier..from] + t[from..];
    }
  }

  lemma Reassociate(whole: string, a: string, b: string, c: string, d: string)
    requires whole == a + b
    ensures whole + c + d == a + (b + c + d)
  {
  }

  lemma SliceSplit(t: string, i: nat, j: nat, k: nat)
    requires i <= j <= k <= |t|
    ensures t[i..k] == t[i..j] + t[j..k]
  {
  }

  // ---------------------------------------------------------------------
  // Regular-expression matches and re.sub
  // ---------------------------------------------------------------------

  /** A match of a pattern that is a sequence of groups: `groups[k]` is
      where group `k + 1` matched. The version and URL patterns of the
      update scripts are of this shape, so a match begins where its first
      group begins and ends where its last group ends. */
  datatype Match = Match(groups: seq<Span>)

  /** A match of `count` consecutive groups inside the first `n` characters. */
  predicate Tiles(m: Match, count: nat, n: nat) {
    && |m.groups| == count >= 1
    && (forall k :: 0 <= k < count ==> m.groups[k].start <= m.groups[k].end <= n)
    && (forall k :: 0 <= k < count - 1 ==> m.groups[k].end == m.groups[k + 1].start)
  }

  function Start(m: Match): nat
    requires |m.groups| >= 1
  {
    m.groups[0].start
  }

  function End(m: Match): nat
    requires |m.groups| >= 1
  {
    m.groups[|m.groups| - 1].end
  }

  /** What `finditer` reports from position `from` on: non-overlapping
      matches in order, within the first `n` characters. */
  predicate ValidMatches(ms: seq<Match>, count: nat, from: nat, n: nat)
    decreases |ms|
  {
    |ms| == 0 ||
    (Tiles(ms[0], count, n) && from <= Start(ms[0]) && ValidMatches(ms[1..], count, End(ms[0]), n))
  }

  /** One element of a replacement template: `\g<k>` or literal text. */
  datatype Piece = Group(k: nat) | Lit(text: string)

  predicate FitsTemplate(tpl: seq<Piece>, count: nat) {
    forall j :: 0 <= j < |tpl| ==> tpl[j].Group? ==> 1 <= tpl[j].k <= count
  }

  /** One piece of a template, expanded for a match of `t`. */
  function PieceText(t: string, m: Match, p: Piece, count: nat): string
    requires Tiles(m, count, |t|) && FitsTemplate([p], count)
  {
    match p
    case Group(k) => assert [p][0] == p; t[m.groups[k - 1].start..m.groups[k - 1].end]
    case Lit(text) => text
  }

  /** A template expanded for one match of `t`. */
  function Expand(t: string, m: Match, tpl: seq<Piece>, count: nat): string
    requires Tiles(m, count, |t|) && FitsTemplate(tpl, count)
    decreases |tpl|
  {
    if |tpl| == 0 then ""
    else
      var head := match tpl[0]
        case Group(k) => t[m.groups[k - 1].start..m.groups[k - 1].end]
        case Lit(text) => text;
      head + Expand(t, m, tpl[1..], count)
  }

  /** `pattern.sub(template, t[from..])`, given the matches the pattern has
      there. */
  function Sub(t: string, ms: seq<Match>, tpl: seq<Piece>, count: nat, from: nat): string
    requires from <= |t| && ValidMatches(ms, count, from, |t|) && FitsTemplate(tpl, count)
    decreases |ms|
  {
    if |ms| == 0 then t[from..]
    else t[from..Start(ms[0])] + Expand(t, ms[0], tpl, count) + Sub(t, ms[1..], tpl, count, End(ms[0]))
  }

  /** The template that keeps everything but group 2 (and, for the
      five-group URL pattern, group 4), where the new version goes. */
  function VersionTemplate(version: string, twice: bool): (tpl: seq<Piece>)
    ensures FitsTemplate(tpl, GroupCount(twice))
  {
    if twice then [Group(1), Lit(version), Group(3), Lit(version), Group(5)]
    else [Group(1), Lit(version), Group(3)]
  }

  function GroupCount(twice: bool): nat {
    if twice then 5 else 3
  }

  /** Where the version numbers of the matches are: group 2, and group 4
      too for the URL pattern. */
  function VersionSpans(ms: seq<Match>, twice: bool, from: nat, n: nat): (r: seq<Span>)
    requires ValidMatches(ms, GroupCount(twice), from, n)
    ensures Ordered(r, from, n)
    decreases |ms|
  {
    if |ms| == 0 then []
    else
      var g := ms[0].groups;
      var rest := VersionSpans(ms[1..], twice, End(ms[0]), n);
      if twice then
        OrderedEarlier(rest, End(ms[0]), g[3].end, n);
        assert g[0].end == g[1].start && g[1].end == g[2].start && g[2].end == g[3].start;
        var r := [g[1], g[3]] + rest;
        assert r[1..] == [g[3]] + rest && ([g[3]] + rest)[1..] == rest;
        r
      else
        OrderedEarlier(rest, End(ms[0]), g[1].end, n);
        assert g[0].end == g[1].start;
        var r := [g[1]] + rest;
        assert r[1..] == rest;
        r
  }

  /** The version substitution rewrites exactly the version groups: the
      result is the text with every version span replaced. */
  lemma {:induction false} SubReplacesVersions(t: string, ms: seq<Match>, version: string, twice: bool, from: nat)
    requires from <= |t| && ValidMatches(ms, GroupCount(twice), from, |t|)
    ensures Sub(t, ms, VersionTemplate(version, twice), GroupCount(twice), from)
         == Splice(t, VersionSpans(ms, twice, from, |t|), version, from)
    decreases |ms|
  {
    if |ms| > 0 {
      SubReplacesVersions(t, ms[1..], version, twice, End(ms[0]));
      if twice {
        StepTwice(t, ms, version, from);
      } else {
        StepOnce(t, ms, version, from);
      }
    }
  }

  lemma StepOnce(t: string, ms: seq<Match>, version: string, from: nat)
    requires from <= |t| && ValidMatches(ms, 3, from, |t|) && |ms| > 0
    requires Sub(t, ms[1..], VersionTemplate(version, false), 3, End(ms[0]))
      == Splice(t, VersionSpans(ms[1..], false, End(ms[0]), |t|), version, End(ms[0]))
    ensures Sub(t, ms, VersionTemplate(version, false), 3, from)
         == Splice(t, VersionSpans(ms, false, from, |t|), version, from)
  {
    var m := ms[0];
    var g := m.groups;
    var rest := VersionSpans(ms[1..], false, End(m), |t|);
    var expanded := Expand(t, m, VersionTemplate(version, false), 3);
    ExpandOnce(t, m, version);
    SplicePrepend(t, rest, version, g[1].end, End(m));
    SpliceOne(t, g[1], rest, version, from);
    SliceSplit(t, from, Start(m), g[1].start);
    Regroup(Sub(t, ms, VersionTemplate(version, false), 3, from),
      Splice(t, VersionSpans(ms, false, from, |t|), version, from),
      t[from..Start(m)], t[Start(m)..g[1].start], version, t[g[1].end..End(m)],
      Splice(t, rest, version, End(m)), expanded, t[from..g[1].start], Splice(t, rest, version, g[1].end));
  }

  lemma StepTwice(t: string, ms: seq<Match>, version: string, from: nat)
    requires from <= |t| && ValidMatches(ms, 5, from, |t|) && |ms| > 0
    requires Sub(t, ms[1..], VersionTemplate(version, true), 5, End(ms[0]))
      == Splice(t, VersionSpans(ms[1..], true, End(ms[0]), |t|), version, End(ms[0]))
    ensures Sub(t, ms, VersionTemplate(version, true), 5, from)
         == Splice(t, VersionSpans(ms, true, from, |t|), version, from)
  {
    var m := ms[0];
    var g := m.groups;
    var rest := VersionSpans(ms[1..], true, End(m), |t|);
    var expanded := Expand(t, m, VersionTemplate(version, true), 5);
    ExpandTwice(t, m, version);
    SplicePrepend(t, rest, version, g[3].end, End(m));
    assert g[1].end == g[2].start && g[2].end == g[3].start;
    SpliceTwo(t, g[1], g[3], rest, version, from);
    SliceSplit(t, from, Start(m), g[1].start);
    RegroupTwice(Sub(t, ms, VersionTemplate(version, true), 5, from),
      Splice(t, VersionSpans(ms, true, from, |t|), version, from),
      t[from..Start(m)], t[Start(m)..g[1].start], version, t[g[2].start..g[2].end], t[g[3].end..End(m)],
      Splice(t, rest, version, End(m)), expanded, t[from..g[1].start], Splice(t, rest, version, g[3].end));
  }

  /** Unfolding the splice at a leading span. */
  lemma SpliceOne(t: string, a: Span, rest: seq<Span>, rep: string, from: nat)
    requires from <= a.start <= a.end <= |t| && Ordered(rest, a.end, |t|)
    ensures Ordered([a] + rest, from, |t|)
    ensures Splice(t, [a] + rest, rep, from) == t[from..a.start] + rep + Splice(t, rest, rep, a.end)
  {
    assert ([a] + rest)[1..] == rest;
  }

  lemma SpliceTwo(t: string, a: Span, b: Span, rest: seq<Span>, rep: string, from: nat)
    requires from <= a.start <= a.end <= b.start <= b.end <= |t| && Ordered(rest, b.end, |t|)
    ensures Ordered([a, b] + rest, from, |t|)
    ensures Splice(t, [a, b] + rest, rep, from)
         == t[from..a.start] + rep + (t[a.end..b.start] + rep + Splice(t, rest, rep, b.end))
  {
    var r := [a, b] + rest;
    assert r == [a] + ([b] + rest);
    SpliceOne(t, b, rest, rep, a.end);
    SpliceOne(t, a, [b] + rest, rep, from);
  }

  /** The concatenations on both sides of a step, regrouped. */
  lemma Regroup(sub: string, spliced: string, before: string, lead: string, version: string,
                rest: string, tail: string, expanded: string, upTo: string, after: string)
    requires sub == before + expanded + tail
    requires expanded == lead + (version + rest)
    requires spliced == upTo + version + after
    requires upTo == before + lead
    requires after == rest + tail
    ensures sub == spliced
  {
  }

  lemma RegroupTwice(sub: string, spliced: string, before: string, lead: string, version: string,
                     mid: string, rest: string, tail: string, expanded: string, upTo: string, after: string)
    requires sub == before + expanded + tail
    requires expanded == lead + (version + (mid + (version + rest)))
    requires spliced == upTo + version + (mid + version + after)
    requires upTo == before + lead
    requires after == rest + tail
    ensures sub == spliced
  {
  }

  lemma ExpandCons(t: string, m: Match, p: Piece, rest: seq<Piece>, count: nat)
    requires Tiles(m, count, |t|) && FitsTemplate([p] + rest, count)
    ensures FitsTemplate([p], count) && FitsTemplate(rest, count)
    ensures Expand(t, m, [p] + rest, count) == PieceText(t, m, p, count) + Expand(t, m, rest, count)
  {
    var tpl := [p] + rest;
    assert tpl[0] == p && tpl[1..] == rest;
    assert forall j :: 0 <= j < |rest| ==> rest[j] == tpl[j + 1];
  }

  lemma ExpandOnce(t: string, m: Match, version: string)
    requires Tiles(m, 3, |t|)
    ensures Expand(t, m, VersionTemplate(version, false), 3)
         == t[Start(m)..m.groups[1].start] + (version + t[m.groups[1].end..End(m)])
  {
    var g := m.groups;
    assert g[0].end == g[1].start && g[1].end == g[2].start;
    assert VersionTemplate(version, false) == [Group(1)] + ([Lit(version)] + [Group(3)]);
    ExpandCons(t, m, Group(1), [Lit(version)] + [Group(3)], 3);
    ExpandCons(t, m, Lit(version), [Group(3)], 3);
    ExpandCons(t, m, Group(3), [], 3);
  }

  lemma ExpandTwice(t: string, m: Match, version: string)
    requires Tiles(m, 5, |t|)
    ensures Expand(t, m, VersionTemplate(version, true), 5)
         == t[Start(m)..m.groups[1].start] + (version + (t[m.groups[2].start..m.groups[2].end]
            + (version + t[m.groups[3].end..End(m)])))
  {
    var g := m.groups;
    assert g[0].end == g[1].start && g[3].end == g[4].start;
    var p4 := [Group(5)];
    var p3 := [Lit(version)] + p4;
    var p2 := [Group(3)] + p3;
    var p1 := [Lit(version)] + p2;
    assert VersionTemplate(version, true) == [Group(1)] + p1;
    ExpandCons(t, m, Group(1), p1, 5);
    ExpandCons(t, m, Lit(version), p2, 5);
    ExpandCons(t, m, Group(3), p3, 5);
    ExpandCons(t, m, Lit(version), p4, 5);
    ExpandCons(t, m, Group(5), [], 5);
  }

  /** What an update of one package returns, or the exception it raises. */
  datatype UpdateResult = Done(content: string, updated: bool) | Crashed

  /** The placeholder overlaps itself nowhere: none of its proper suffixes
      is a prefix of it, since only its last character is `=`. */
  lemma DummyHasNoBorder(k: nat)
    requires 0 < k < |DummyHash|
    ensures DummyHash[k..] != DummyHash[..|DummyHash| - k]
  {
    var n := |DummyHash|;
    assert DummyHash[k..][n - k - 1] == DummyHash[n - 1] == '=';
    assert DummyHash[..n - k][n - k - 1] == DummyHash[n - k - 1];
    var j := n - k - 1;
    if j < 7 {
      assert DummyHash[j] == "sha256-"[j];
    } else {
      assert DummyHash[j] == 'A';
    }
  }

  /** In a text whose part before a placeholder has none, that
      placeholder is the first one. */
  lemma DummyFirstAt(a: string, b: string)
    requires !Contains(a, DummyHash)
    ensures OccursAt(a + DummyHash + b, DummyHash, |a|)
    ensures forall j :: 0 <= j < |a| ==> !OccursAt(a + DummyHash + b, DummyHash, j)
  {
    var s := a + DummyHash + b;
    var n := |DummyHash|;
    assert s[|a|..|a| + n] == DummyHash;
    forall j | 0 <= j < |a|
      ensures !OccursAt(s, DummyHash, j)
    {
      if j + n <= |a| {
        assert s[j..j + n] == a[j..j + n];
        assert !OccursAt(a, DummyHash, j);
      } else {
        var k := |a| - j;
        var w := s[j..j + n];
        assert w[k..] == s[|a|..j + n] == DummyHash[..n - k];
        DummyHasNoBorder(k);
        assert w[k..] != DummyHash[k..];
      }
    }
  }

  /** The build whose failure message carries the real hash. */
  function BuildCommand(attribute: string): seq<string> {
    ["nix", "build", ".#nixosConfigurations.pc.pkgs." + attribute, "--no-link", "--cores", "1"]
  }
}
