/** GitHub releases as the update scripts see them, and the selection of
    the largest integer tag that both scripts make. */
module Releases {
  import opened Text

  /** One entry of the releases list: its tag and the two flags. */
  datatype Release = Release(tagName: string, prerelease: bool, draft: bool)

  /** The tag with `prefix` removed, when it starts with `prefix`. */
  function Unprefixed(r: Release, prefix: string): (v: Option<string>)
    ensures v.Some? <==> StartsWith(r.tagName, prefix)
    ensures v.Some? ==> prefix + v.value == r.tagName
  {
    if StartsWith(r.tagName, prefix) then
      var v := r.tagName[|prefix|..];
      assert prefix + v == r.tagName;
      Some(v)
    else None
  }

  /** `int(tag[len(prefix):])` for a tag with the prefix; `None` for a tag
      without it or one whose rest is not an integer. */
  function TagNumber(r: Release, prefix: string): Option<int> {
    match Unprefixed(r, prefix)
    case None => None
    case Some(v) => ParseInt(v)
  }

  /** The tag number of every release, in order. */
  function TagNumbers(rs: seq<Release>, prefix: string): (ns: seq<Option<int>>)
    ensures |ns| == |rs| && forall k :: 0 <= k < |rs| ==> ns[k] == TagNumber(rs[k], prefix)
  {
    seq(|rs|, k requires 0 <= k < |rs| => TagNumber(rs[k], prefix))
  }

  /** The running maximum of the loop, which starts at 0 and moves up to
      every larger number. */
  function MaxOf(ns: seq<Option<int>>): nat
    decreases |ns|
  {
    if |ns| == 0 then 0
    else
      var m := MaxOf(ns[..|ns| - 1]);
      match ns[|ns| - 1]
      case Some(v) => if v > m then v else m
      case None => m
  }

  /** The largest tag number, or 0 when none is positive. */
  function MaxTagNumber(rs: seq<Release>, prefix: string): nat {
    MaxOf(TagNumbers(rs, prefix))
  }

  /** No number is above the maximum. */
  lemma {:induction false} MaxOfIsUpperBound(ns: seq<Option<int>>)
    ensures forall k :: 0 <= k < |ns| && ns[k].Some? ==> ns[k].value <= MaxOf(ns)
    decreases |ns|
  {
    if |ns| > 0 {
      var init := ns[..|ns| - 1];
      MaxOfIsUpperBound(init);
      assert forall k :: 0 <= k < |init| ==> init[k] == ns[k];
    }
  }

  /** The maximum is 0 or one of the numbers. */
  lemma {:induction false} MaxOfIsAttained(ns: seq<Option<int>>)
    ensures MaxOf(ns) == 0 || exists k :: 0 <= k < |ns| && ns[k] == Some(MaxOf(ns) as int)
    decreases |ns|
  {
    if |ns| > 0 {
      var init := ns[..|ns| - 1];
      MaxOfIsAttained(init);
      if MaxOf(ns) == MaxOf(init) && MaxOf(init) != 0 {
        var k :| 0 <= k < |init| && init[k] == Some(MaxOf(init) as int);
        assert ns[k] == init[k];
      } else if MaxOf(ns) != 0 {
        assert ns[|ns| - 1] == Some(MaxOf(ns) as int);
      }
    }
  }

  /** The selected number is the largest tag number, when one is
      positive, and 0 exactly when none is. */
  lemma MaxTagNumberIsLargest(rs: seq<Release>, prefix: string)
    ensures forall k :: 0 <= k < |rs| && TagNumber(rs[k], prefix).Some? ==>
      TagNumber(rs[k], prefix).value <= MaxTagNumber(rs, prefix)
    ensures MaxTagNumber(rs, prefix) != 0 ==>
      exists k :: 0 <= k < |rs| && TagNumber(rs[k], prefix) == Some(MaxTagNumber(rs, prefix) as int)
    ensures MaxTagNumber(rs, prefix) == 0 <==>
      forall k :: 0 <= k < |rs| && TagNumber(rs[k], prefix).Some? ==> TagNumber(rs[k], prefix).value <= 0
  {
    var ns := TagNumbers(rs, prefix);
    MaxOfIsUpperBound(ns);
    MaxOfIsAttained(ns);
  }

  lemma MaxOfStep(ns: seq<Option<int>>, i: nat)
    requires i < |ns|
    ensures MaxOf(ns[..i + 1]) == match ns[i]
      case Some(v) => if v > MaxOf(ns[..i]) then v else MaxOf(ns[..i])
      case None => MaxOf(ns[..i])
  {
    assert ns[..i + 1][..i] == ns[..i];
  }

  /** The selection loop over the integer tags, shared by both scripts. */
  /** The maximum is 0 or a parsed tag number, so `str()` of it does not
      raise. */
  lemma MaxTagNumberPrintable(rs: seq<Release>, prefix: string)
    ensures Printable(MaxTagNumber(rs, prefix))
  {
    MaxTagNumberIsLargest(rs, prefix);
    var m := MaxTagNumber(rs, prefix);
    if m == 0 {
      assert NatToStr(m) == [DigitChar(0)];
    } else {
      var k :| 0 <= k < |rs| && TagNumber(rs[k], prefix) == Some(m as int);
    }
  }

  /** A tag number of more than `MaxStrDigits` digits makes `int()` raise,
      so the tag is skipped. */
  lemma LongTagSkipped(r: Release, prefix: string, v: string)
    requires Unprefixed(r, prefix) == Some(v)
    requires |v| > MaxStrDigits && forall j :: 0 <= j < |v| ==> IsDigit(v[j])
    ensures TagNumber(r, prefix).None?
  {
    ParseTooLong(v);
  }

  /** `int(str(max_ver)) == max_ver`. */
  lemma MaxTagNumberReadsBack(rs: seq<Release>, prefix: string)
    ensures ParseInt(NatToStr(MaxTagNumber(rs, prefix))) == Some(MaxTagNumber(rs, prefix) as int)
  {
    MaxTagNumberPrintable(rs, prefix);
    ParseIntOfIntToStr(MaxTagNumber(rs, prefix));
  }

  method MaxTag(releases: seq<Release>, prefix: string) returns (maxVer: nat)
    ensures maxVer == MaxTagNumber(releases, prefix)
  {
    ghost var ns := TagNumbers(releases, prefix);
    maxVer := 0;
    var i := 0;
    while i < |releases|
      invariant i <= |releases|
      invariant maxVer == MaxOf(ns[..i])
    {
      var ver := TagNumber(releases[i], prefix);
      assert ver == ns[i];
      MaxOfStep(ns, i);
      if ver.Some? && ver.value > maxVer {
        maxVer := ver.value;
      }
      i := i + 1;
    }
    assert ns[..i] == ns;
  }
}
