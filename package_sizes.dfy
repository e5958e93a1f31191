// The package-size report: look up each package's NAR and closure size,
// sort by closure size, track the largest closure and bucket the packages.
// The `nix` commands are oracles; the thread pool's completion order is an
// input (`results` in any order).

module PackageSizes {
  import opened Text
  import opened SizeReport

  /** A result `(pkg, nar_size, closure_size)`; -1 sizes mark a failed lookup. */
  datatype Sized = Sized(pkg: string, nar: int, closure: int)

  function ClosureOf(r: Sized): int { r.closure }

  /**
   * `get_package_size`: `storePath(pkg)` is the stdout of `nix eval --raw`
   * (None when it fails); `pathInfo(path)` is the `(narSize, closureSize)`
   * pair of `nix path-info -S -s` (None when it fails or cannot be read).
   */
  function PackageSize(pkg: string, storePath: string -> Option<string>,
                       pathInfo: string -> Option<(nat, nat)>): (r: Sized)
    ensures r.pkg == pkg
    ensures r.closure < 0 <==> r.nar < 0
    ensures r.closure < 0 ==> r == Sized(pkg, -1, -1)
    ensures r.closure >= 0 <==> storePath(pkg).Some? && pathInfo(Strip(storePath(pkg).value)).Some?
    ensures r.closure >= 0 ==> pathInfo(Strip(storePath(pkg).value)) == Some((r.nar, r.closure))
  {
    match storePath(pkg)
    case None => Sized(pkg, -1, -1)
    case Some(out) =>
      match pathInfo(Strip(out))
      case None => Sized(pkg, -1, -1)
      case Some(info) => Sized(pkg, info.0, info.1)
  }

  /** Closure above 100 MiB is large, above 50 MiB medium, anything else small. */
  function SizeBucket(closure: int): Bucket {
    Classify(closure, 100 * MiB, 50 * MiB)
  }

  /** A failed lookup is listed with the small packages. */
  lemma FailedLookupIsSmall(pkg: string, storePath: string -> Option<string>,
                            pathInfo: string -> Option<(nat, nat)>)
    requires storePath(pkg).None? || pathInfo(Strip(storePath(pkg).value)).None?
    ensures SizeBucket(PackageSize(pkg, storePath, pathInfo).closure) == Small
  {
  }

  /** `max(total, closure)` over the positive closures, starting from 0. */
  function TotalClosure(rs: seq<Sized>): nat {
    if rs == [] then 0
    else
      var t := TotalClosure(rs[..|rs| - 1]);
      var last := rs[|rs| - 1];
      if last.closure > 0 && last.closure > t then last.closure else t
  }

  /** The total is the largest positive closure, or 0 when there is none. */
  lemma {:induction false} TotalClosureIsMax(rs: seq<Sized>)
    ensures forall i :: 0 <= i < |rs| ==> rs[i].closure <= TotalClosure(rs)
    ensures TotalClosure(rs) == 0 || exists i :: 0 <= i < |rs| && rs[i].closure == TotalClosure(rs)
  {
    if rs != [] {
      var init := rs[..|rs| - 1];
      TotalClosureIsMax(init);
      assert forall i :: 0 <= i < |init| ==> rs[i] == init[i];
      var t := TotalClosure(init);
      if t != 0 && TotalClosure(rs) == t {
        var i :| 0 <= i < |init| && init[i].closure == t;
        assert rs[i].closure == t;
      }
    }
  }

  /** On results sorted largest first the total is the first closure, when positive. */
  lemma TotalOfSorted(rs: seq<Sized>)
    requires NonIncreasing(rs, ClosureOf) && rs != []
    ensures TotalClosure(rs) == if rs[0].closure > 0 then rs[0].closure else 0
  {
    TotalClosureIsMax(rs);
    var t := TotalClosure(rs);
    if t != 0 {
      var i :| 0 <= i < |rs| && rs[i].closure == t;
      assert ClosureOf(rs[0]) >= ClosureOf(rs[i]) || i == 0;
    }
  }

  /** The `(pkg, closure)` pairs the bucket lists hold. */
  function Entries(rs: seq<Sized>): (es: seq<Entry>)
    ensures |es| == |rs|
    ensures forall i :: 0 <= i < |rs| ==> es[i] == Entry(rs[i].pkg, rs[i].closure)
  {
    seq(|rs|, i requires 0 <= i < |rs| => Entry(rs[i].pkg, rs[i].closure))
  }

  /** The loop over the sorted results: the running total and the three buckets. */
  method Tally(results: seq<Sized>)
    returns (totalClosure: int, large: seq<Entry>, medium: seq<Entry>, small: seq<Entry>)
    ensures totalClosure == TotalClosure(results)
    ensures large == Gather(Entries(results), SizeBucket, Large)
    ensures medium == Gather(Entries(results), SizeBucket, Medium)
    ensures small == Gather(Entries(results), SizeBucket, Small)
  {
    ghost var es := Entries(results);
    totalClosure := 0;
    large, medium, small := [], [], [];
    for k := 0 to |results|
      invariant totalClosure == TotalClosure(results[..k])
      invariant large == Gather(es[..k], SizeBucket, Large)
      invariant medium == Gather(es[..k], SizeBucket, Medium)
      invariant small == Gather(es[..k], SizeBucket, Small)
    {
      assert es[..k + 1][..k] == es[..k] && es[..k + 1][k] == es[k];
      assert results[..k + 1][..k] == results[..k];
      var r := results[k];
      if r.closure > 0 {
        totalClosure := if totalClosure >= r.closure then totalClosure else r.closure;
      }
      if r.closure > 100 * MiB {
        large := large + [Entry(r.pkg, r.closure)];
      } else if r.closure > 50 * MiB {
        medium := medium + [Entry(r.pkg, r.closure)];
      } else {
        small := small + [Entry(r.pkg, r.closure)];
      }
    }
    assert es[..|results|] == es && results[..|results|] == results;
  }

  /**
   * `main` after the lookups: sort by closure size (largest first), then
   * tally. The largest closure stands in for the total because closures
   * overlap.
   */
  method Report(completed: seq<Sized>)
    returns (results: seq<Sized>, totalClosure: int, large: seq<Entry>, medium: seq<Entry>, small: seq<Entry>)
    ensures results == SortDesc(completed, ClosureOf)
    ensures NonIncreasing(results, ClosureOf) && multiset(results) == multiset(completed)
    ensures totalClosure == (if results != [] && results[0].closure > 0 then results[0].closure else 0)
    ensures multiset(large) + multiset(medium) + multiset(small) == multiset(Entries(results))
    ensures forall e :: e in large ==> e.size > 100 * MiB
    ensures forall e :: e in medium ==> 50 * MiB < e.size <= 100 * MiB
    ensures forall e :: e in small ==> e.size <= 50 * MiB
    ensures SortDesc(large, SizeOf) == large && SortDesc(medium, SizeOf) == medium
  {
    results := SortDesc(completed, ClosureOf);
    SortDescSorted(completed, ClosureOf);
    totalClosure, large, medium, small := Tally(results);
    if results != [] {
      TotalOfSorted(results);
    }
    var es := Entries(results);
    GatherPartition(es, SizeBucket);
    forall e | e in large ensures e.size > 100 * MiB {
      GatherExactly(es, SizeBucket, Large, e);
    }
    forall e | e in medium ensures 50 * MiB < e.size <= 100 * MiB {
      GatherExactly(es, SizeBucket, Medium, e);
    }
    forall e | e in small ensures e.size <= 50 * MiB {
      GatherExactly(es, SizeBucket, Small, e);
    }
    assert NonIncreasing(es, SizeOf);
    SummaryOrderUnchanged(es, SizeBucket, Large);
    SummaryOrderUnchanged(es, SizeBucket, Medium);
  }
}
