// The main pass shared by both marginal-cost reports: build the baseline
// closure, measure each package's closure and what it adds beyond the
// baseline, sort by that marginal size and bucket the results.
// The `nix` commands are oracles (a `Nix` value), their failures included.

module MarginalCost {
  import opened Text
  import opened SizeReport

  /** Baseline packages of the tree-sitter based report. */
  const BasePackages: seq<string> := [
    "coreutils", "bash", "glibc", "openssl", "zlib", "systemd",
    "curl", "wget", "jq", "ripgrep", "gnupg", "openssh",
    "gcc", "docker", "python3", "git", "nodejs_20", "neovim"
  ]

  /** Baseline packages of the older report. */
  const OlderBasePackages: seq<string> := [
    "coreutils", "bash", "glibc", "openssl", "zlib", "gcc",
    "docker", "python3", "git", "nodejs_20", "neovim"
  ]

  /**
   * What the `nix` commands answer:
   * - `closureOf(pkg)`: store paths of `nix path-info -r` (empty on any failure);
   * - `narSizes(paths)`: the `narSize` of each path from `nix path-info -s`, or None on failure;
   * - `outPath(pkg)`: the stdout of `nix eval --raw`, or None on failure;
   * - `narOf(path)`: the `narSize` of one store path, or None on failure.
   */
  datatype Nix = Nix(
    closureOf: string -> set<string>,
    narSizes: set<string> -> Option<seq<nat>>,
    outPath: string -> Option<string>,
    narOf: string -> Option<nat>)

  // ---------------------------------------------------------------------------
  // Baseline
  // ---------------------------------------------------------------------------

  /** The union of the baseline packages' closures. */
  function Baseline(basePkgs: seq<string>, closureOf: string -> set<string>): set<string> {
    if basePkgs == [] then {}
    else Baseline(basePkgs[..|basePkgs| - 1], closureOf) + closureOf(basePkgs[|basePkgs| - 1])
  }

  /** `base_paths.update(get_closure_paths(pkg))` for each baseline package. */
  method BuildBaseline(basePkgs: seq<string>, closureOf: string -> set<string>) returns (basePaths: set<string>)
    ensures basePaths == Baseline(basePkgs, closureOf)
  {
    basePaths := {};
    for i := 0 to |basePkgs|
      invariant basePaths == Baseline(basePkgs[..i], closureOf)
    {
      assert basePkgs[..i + 1][..i] == basePkgs[..i];
      basePaths := basePaths + closureOf(basePkgs[i]);
    }
    assert basePkgs[..|basePkgs|] == basePkgs;
  }

  /** A path is in the baseline exactly when some baseline package's closure has it. */
  lemma {:induction false} InBaseline(basePkgs: seq<string>, closureOf: string -> set<string>, p: string)
    ensures p in Baseline(basePkgs, closureOf)
        <==> exists i :: 0 <= i < |basePkgs| && p in closureOf(basePkgs[i])
  {
    if basePkgs != [] {
      var init := basePkgs[..|basePkgs| - 1];
      InBaseline(init, closureOf, p);
      if exists i :: 0 <= i < |init| && p in closureOf(init[i]) {
        var i :| 0 <= i < |init| && p in closureOf(init[i]);
        assert init[i] == basePkgs[i];
      }
      if exists i :: 0 <= i < |basePkgs| - 1 && p in closureOf(basePkgs[i]) {
        var i :| 0 <= i < |basePkgs| - 1 && p in closureOf(basePkgs[i]);
        assert init[i] == basePkgs[i];
      }
    }
  }

  // ---------------------------------------------------------------------------
  // One package
  // ---------------------------------------------------------------------------

  function Sum(xs: seq<nat>): nat {
    if xs == [] then 0 else xs[0] + Sum(xs[1..])
  }

  /** `get_paths_size`: the summed NAR size; 0 for no paths and on failure. */
  function PathsSize(paths: set<string>, narSizes: set<string> -> Option<seq<nat>>): (r: nat)
    ensures paths == {} ==> r == 0
    ensures narSizes(paths).None? ==> r == 0
  {
    if paths == {} then 0
    else match narSizes(paths)
      case None => 0
      case Some(sizes) => Sum(sizes)
  }

  /** The package's own NAR size, or -1 when the store path cannot be found or measured. */
  function NarSize(pkg: string, nix: Nix): (r: int)
    ensures r >= -1
    ensures r >= 0 <==> nix.outPath(pkg).Some? && Strip(nix.outPath(pkg).value) != ""
                        && nix.narOf(Strip(nix.outPath(pkg).value)).Some?
    ensures r >= 0 ==> nix.narOf(Strip(nix.outPath(pkg).value)) == Some(r)
  {
    match nix.outPath(pkg)
    case None => -1
    case Some(out) =>
      var path := Strip(out);
      if path == "" then -1
      else match nix.narOf(path)
        case None => -1
        case Some(n) => n
  }

  /** A result row `(pkg, nar_size, closure_size, marginal_size)`. */
  datatype Row = Row(pkg: string, nar: int, closure: int, marginal: int)

  function MarginalOf(r: Row): int { r.marginal }

  /** The row of one package against the baseline paths. */
  function RowFor(pkg: string, basePaths: set<string>, nix: Nix): (r: Row)
    ensures r.pkg == pkg
    ensures nix.closureOf(pkg) == {} <==> r.marginal < 0
    ensures nix.closureOf(pkg) == {} ==> r == Row(pkg, -1, -1, -1)
    ensures r.marginal >= 0 ==>
      r.marginal == PathsSize(nix.closureOf(pkg) - basePaths, nix.narSizes)
      && r.closure == PathsSize(nix.closureOf(pkg), nix.narSizes)
      && r.nar == NarSize(pkg, nix)
  {
    var pkgPaths := nix.closureOf(pkg);
    if pkgPaths == {} then Row(pkg, -1, -1, -1)
    else
      var marginalSize := PathsSize(pkgPaths - basePaths, nix.narSizes);
      Row(pkg, NarSize(pkg, nix), PathsSize(pkgPaths, nix.narSizes), marginalSize)
  }

  /** A package whose closure lies inside the baseline adds nothing. */
  lemma CoveredCostsNothing(pkg: string, basePaths: set<string>, nix: Nix)
    requires nix.closureOf(pkg) != {} && nix.closureOf(pkg) <= basePaths
    ensures RowFor(pkg, basePaths, nix).marginal == 0
  {
    assert nix.closureOf(pkg) - basePaths == {};
  }

  /** The marginal paths are those of the package's closure that no baseline closure has. */
  lemma MarginalPathsExactly(pkg: string, basePkgs: seq<string>, nix: Nix, p: string)
    ensures p in nix.closureOf(pkg) - Baseline(basePkgs, nix.closureOf)
        <==> p in nix.closureOf(pkg) && forall i :: 0 <= i < |basePkgs| ==> p !in nix.closureOf(basePkgs[i])
  {
    InBaseline(basePkgs, nix.closureOf, p);
  }

  /** The per-package loop: one row per package, in package order. */
  method Analyze(packages: seq<string>, basePaths: set<string>, nix: Nix) returns (results: seq<Row>)
    ensures |results| == |packages|
    ensures forall i :: 0 <= i < |packages| ==> results[i] == RowFor(packages[i], basePaths, nix)
  {
    results := [];
    for i := 0 to |packages|
      invariant |results| == i
      invariant forall j :: 0 <= j < i ==> results[j] == RowFor(packages[j], basePaths, nix)
    {
      var pkg := packages[i];
      var pkgPaths := nix.closureOf(pkg);
      if pkgPaths == {} {
        results := results + [Row(pkg, -1, -1, -1)];
        continue;
      }
      var marginalSize := PathsSize(pkgPaths - basePaths, nix.narSizes);
      var narSize := NarSize(pkg, nix);
      var closureSize := PathsSize(pkgPaths, nix.narSizes);
      results := results + [Row(pkg, narSize, closureSize, marginalSize)];
    }
  }

  // ---------------------------------------------------------------------------
  // Buckets
  // ---------------------------------------------------------------------------

  /**
   * The marginal-size bucket: a failed measurement is small, above 50 MiB is
   * large, above 10 MiB is medium, anything else small.
   */
  function MarginalBucket(marginal: int): (b: Bucket)
    ensures marginal < 0 ==> b == Small
    ensures b == Classify(marginal, 50 * MiB, 10 * MiB)
  {
    if marginal < 0 then Small
    else if marginal > 50 * MiB then Large
    else if marginal > 10 * MiB then Medium
    else Small
  }

  /** The `(pkg, marginal)` pairs the bucket lists hold. */
  function Entries(rows: seq<Row>): (es: seq<Entry>)
    ensures |es| == |rows|
    ensures forall i :: 0 <= i < |rows| ==> es[i] == Entry(rows[i].pkg, rows[i].marginal)
  {
    seq(|rows|, i requires 0 <= i < |rows| => Entry(rows[i].pkg, rows[i].marginal))
  }

  /** The bucketing loop over the sorted results. */
  method SplitByMarginal(results: seq<Row>) returns (large: seq<Entry>, medium: seq<Entry>, small: seq<Entry>)
    ensures large == Gather(Entries(results), MarginalBucket, Large)
    ensures medium == Gather(Entries(results), MarginalBucket, Medium)
    ensures small == Gather(Entries(results), MarginalBucket, Small)
  {
    ghost var es := Entries(results);
    large, medium, small := [], [], [];
    for k := 0 to |results|
      invariant large == Gather(es[..k], MarginalBucket, Large)
      invariant medium == Gather(es[..k], MarginalBucket, Medium)
      invariant small == Gather(es[..k], MarginalBucket, Small)
    {
      assert es[..k + 1][..k] == es[..k] && es[..k + 1][k] == es[k];
      var row := results[k];
      if row.marginal < 0 {
        small := small + [Entry(row.pkg, row.marginal)];
      } else if row.marginal > 50 * MiB {
        large := large + [Entry(row.pkg, row.marginal)];
      } else if row.marginal > 10 * MiB {
        medium := medium + [Entry(row.pkg, row.marginal)];
      } else {
        small := small + [Entry(row.pkg, row.marginal)];
      }
    }
    assert es[..|results|] == es;
  }

  /** Sorting rows by marginal size orders their pairs the same way. */
  lemma EntriesOrdered(rows: seq<Row>)
    requires NonIncreasing(rows, MarginalOf)
    ensures NonIncreasing(Entries(rows), SizeOf)
  {
  }

  /**
   * The whole report: baseline, rows, the sort by marginal size (largest
   * first, ties in package order) and the buckets.
   */
  method MarginalReport(packages: seq<string>, basePkgs: seq<string>, nix: Nix)
    returns (results: seq<Row>, large: seq<Entry>, medium: seq<Entry>, small: seq<Entry>)
    ensures results == SortDesc(seq(|packages|, i requires 0 <= i < |packages| =>
                                  RowFor(packages[i], Baseline(basePkgs, nix.closureOf), nix)), MarginalOf)
    ensures NonIncreasing(results, MarginalOf)
    ensures multiset(large) + multiset(medium) + multiset(small) == multiset(Entries(results))
    ensures forall e :: e in large ==> e.size > 50 * MiB
    ensures forall e :: e in medium ==> 10 * MiB < e.size <= 50 * MiB
    ensures forall e :: e in small ==> e.size <= 10 * MiB
    ensures SortDesc(large, SizeOf) == large && SortDesc(medium, SizeOf) == medium
  {
    var basePaths := BuildBaseline(basePkgs, nix.closureOf);
    var rows := Analyze(packages, basePaths, nix);
    assert rows == seq(|packages|, i requires 0 <= i < |packages| => RowFor(packages[i], basePaths, nix));
    results := SortDesc(rows, MarginalOf);
    SortDescSorted(rows, MarginalOf);
    large, medium, small := SplitByMarginal(results);
    var es := Entries(results);
    GatherPartition(es, MarginalBucket);
    forall e | e in large ensures e.size > 50 * MiB {
      GatherExactly(es, MarginalBucket, Large, e);
    }
    forall e | e in medium ensures 10 * MiB < e.size <= 50 * MiB {
      GatherExactly(es, MarginalBucket, Medium, e);
    }
    forall e | e in small ensures e.size <= 10 * MiB {
      GatherExactly(es, MarginalBucket, Small, e);
    }
    EntriesOrdered(results);
    SummaryOrderUnchanged(es, MarginalBucket, Large);
    SummaryOrderUnchanged(es, MarginalBucket, Medium);
  }
}
