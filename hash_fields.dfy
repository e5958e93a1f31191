/** The three hash patterns of the update scripts, matched by hand:
    - `HashField`, `((?:vendor)?[Hh]ash\s*=\s*")(sha256-[^"]*)(";)`;
    - `LazyHashField`, `(hash\s*=\s*")(sha256-.*?|)";` (the `.` stops at a
      line feed, and the value may be empty);
    - `GotLine`, `\s+got:\s+(sha256-\S+)`, the line of a failed build that
      carries the real hash.
    None of them looks behind its start, so whether one matches at a
    position depends only on the text from there on: `AtFront` decides
    that on a suffix, and `Search` is `pattern.search(s, pos)` reporting
    where the captured hash value is. */
module HashFields {
  import opened Text
  import opened OverrideText
  import opened Scanning

  datatype HashPattern = HashField | LazyHashField | GotLine

  /** The end of the run of whitespace that starts at `k`. */
  function SpaceEnd(w: string, k: nat): (r: nat)
    ensures k <= r && (r > k ==> r <= |w|)
    ensures r < |w| ==> !IsSpace(w[r])
    decreases |w| - k
  {
    if k < |w| && IsSpace(w[k]) then SpaceEnd(w, k + 1) else k
  }

  /** Every character of the run is whitespace. */
  lemma {:induction false} SpaceRun(w: string, k: nat)
    ensures forall j :: k <= j < SpaceEnd(w, k) ==> j < |w| && IsSpace(w[j])
    decreases |w| - k
  {
    if k < |w| && IsSpace(w[k]) {
      assert SpaceEnd(w, k) == SpaceEnd(w, k + 1);
      SpaceRun(w, k + 1);
      forall j | k <= j < SpaceEnd(w, k)
        ensures j < |w| && IsSpace(w[j])
      {
        if j > k {
          assert k + 1 <= j < SpaceEnd(w, k + 1);
        }
      }
    } else {
      assert SpaceEnd(w, k) == k;
    }
  }

  /** The end of the run of non-whitespace that starts at `k`. */
  function NonSpaceEnd(w: string, k: nat): (r: nat)
    ensures k <= r && (r > k ==> r <= |w|)
    ensures r < |w| ==> IsSpace(w[r])
    decreases |w| - k
  {
    if k < |w| && !IsSpace(w[k]) then NonSpaceEnd(w, k + 1) else k
  }

  /** No character of the run is whitespace. */
  lemma {:induction false} NonSpaceRun(w: string, k: nat)
    ensures forall j :: k <= j < NonSpaceEnd(w, k) ==> j < |w| && !IsSpace(w[j])
    decreases |w| - k
  {
    if k < |w| && !IsSpace(w[k]) {
      assert NonSpaceEnd(w, k) == NonSpaceEnd(w, k + 1);
      NonSpaceRun(w, k + 1);
      forall j | k <= j < NonSpaceEnd(w, k)
        ensures j < |w| && !IsSpace(w[j])
      {
        if j > k {
          assert k + 1 <= j < NonSpaceEnd(w, k + 1);
        }
      }
    } else {
      assert NonSpaceEnd(w, k) == k;
    }
  }

  /** The first `"` at or after `k`. */
  function QuoteFrom(w: string, k: nat): (r: Option<nat>)
    ensures r.Some? ==> k <= r.value < |w| && w[r.value] == '"'
    decreases |w| - k
  {
    if k >= |w| then None
    else if w[k] == '"' then Some(k)
    else QuoteFrom(w, k + 1)
  }

  /** No `"` comes before the one found, and none at all when none is. */
  lemma {:induction false} QuoteFromIsFirst(w: string, k: nat)
    ensures forall j :: k <= j < |w| && (QuoteFrom(w, k).None? || j < QuoteFrom(w, k).value) ==> w[j] != '"'
    decreases |w| - k
  {
    if k < |w| && w[k] != '"' {
      QuoteFromIsFirst(w, k + 1);
    }
  }

  /** Where the lazy `.*?` stops: the first `";` at or after `k` that no
      line feed precedes. */
  function LazyClose(w: string, k: nat): (r: Option<nat>)
    ensures r.Some? ==> k <= r.value && r.value + 2 <= |w| && w[r.value..r.value + 2] == "\";"
    decreases |w| - k
  {
    if k + 2 > |w| then None
    else if w[k..k + 2] == "\";" then Some(k)
    else if w[k] == '\n' then None
    else LazyClose(w, k + 1)
  }

  /** `.` does not cross a line feed. */
  lemma {:induction false} LazyCloseInLine(w: string, k: nat)
    ensures LazyClose(w, k).Some? ==> forall j :: k <= j < LazyClose(w, k).value ==> w[j] != '\n'
    decreases |w| - k
  {
    if k + 2 <= |w| && w[k..k + 2] != "\";" && w[k] != '\n' {
      LazyCloseInLine(w, k + 1);
    }
  }

  /** `[Hh]ash` at `j`. */
  predicate HashWordAt(w: string, j: nat) {
    j + 4 <= |w| && (w[j] == 'h' || w[j] == 'H') && w[j + 1..j + 4] == "ash"
  }

  /** `\s*=\s*"` from `k` on: where the quoted value begins. */
  function ValueStart(w: string, k: nat): (r: Option<nat>)
    ensures r.Some? ==> k < r.value <= |w| && w[r.value - 1] == '"'
  {
    var a := SpaceEnd(w, k);
    if a < |w| && w[a] == '=' then
      var b := SpaceEnd(w, a + 1);
      if b < |w| && w[b] == '"' then Some(b + 1) else None
    else None
  }

  /** A value the first pattern captures: `sha256-` and no `"`. */
  predicate IsFieldValue(v: string) {
    StartsWith(v, "sha256-") && '"' !in v
  }

  /** A value the lazy pattern captures: empty, or `sha256-` and no line feed. */
  predicate IsLazyValue(v: string) {
    v == "" || (StartsWith(v, "sha256-") && '\n' !in v)
  }

  /** A value the build-log pattern captures: `sha256-` and at least one more
      character, none of them whitespace. */
  predicate IsGotValue(v: string) {
    |v| > 7 && StartsWith(v, "sha256-") && forall k :: 0 <= k < |v| ==> !IsSpace(v[k])
  }

  /** A value the pattern can capture. */
  predicate IsValue(p: HashPattern, v: string) {
    match p
    case HashField => IsFieldValue(v)
    case LazyHashField => IsLazyValue(v)
    case GotLine => IsGotValue(v)
  }

  /** What each pattern promises about the span it captures in `w`. */
  predicate Captured(p: HashPattern, w: string, sp: Span) {
    sp.start <= sp.end <= |w| && IsValue(p, w[sp.start..sp.end]) &&
    match p
    case GotLine => sp.end == |w| || IsSpace(w[sp.end])
    case _ => sp.end + 2 <= |w| && w[sp.end..sp.end + 2] == "\";"
  }

  /** The captured span when the pattern matches at the start of `w`. */
  function AtFront(p: HashPattern, w: string): (r: Option<Span>)
    ensures r.Some? ==> Captured(p, w, r.value)
  {
    match p
    case HashField => FieldAtFront(w)
    case LazyHashField => LazyAtFront(w)
    case GotLine => GotAtFront(w)
  }

  /** `(?:vendor)?[Hh]ash`: with `vendor` in front only when `[Hh]ash`
      follows it (otherwise the empty alternative is tried, and fails on
      the `v`); every later step is forced, since no run can give back a
      character the next step needs. */
  function FieldAtFront(w: string): (r: Option<Span>)
    ensures r.Some? ==> Captured(HashField, w, r.value)
  {
    var key := if OccursAt(w, "vendor", 0) && HashWordAt(w, 6) then Some(10)
               else if HashWordAt(w, 0) then Some(4) else None;
    if key.None? then None
    else
      var start := ValueStart(w, key.value);
      if start.None? || !OccursAt(w, "sha256-", start.value) then None
      else
        var v := start.value;
        var close := QuoteFrom(w, v + 7);
        if close.None? || close.value + 1 >= |w| || w[close.value + 1] != ';' then None
        else
          var e := close.value;
          QuoteFromIsFirst(w, v + 7);
          FieldValueShape(w, v, e);
          Some(Span(v, e))
  }

  lemma FieldValueShape(w: string, v: nat, e: nat)
    requires OccursAt(w, "sha256-", v) && v + 7 <= e <= |w|
    requires forall j :: v + 7 <= j < e ==> w[j] != '"'
    ensures IsFieldValue(w[v..e])
  {
    var x := w[v..e];
    assert x[..7] == w[v..v + 7];
    forall k | 0 <= k < |x|
      ensures x[k] != '"'
    {
      assert x[k] == w[v + k];
      if k < 7 {
        assert w[v + k] == w[v..v + 7][k];
      }
    }
  }

  /** `sha256-.*?` tried first, the empty alternative second. */
  function LazyAtFront(w: string): (r: Option<Span>)
    ensures r.Some? ==> Captured(LazyHashField, w, r.value)
  {
    if !OccursAt(w, "hash", 0) then None
    else
      var start := ValueStart(w, 4);
      if start.None? then None
      else
        var v := start.value;
        var close := if OccursAt(w, "sha256-", v) then LazyClose(w, v + 7) else None;
        if close.Some? then
          LazyCloseInLine(w, v + 7);
          LazyValueShape(w, v, close.value);
          Some(Span(v, close.value))
        else if OccursAt(w, "\";", v) then Some(Span(v, v))
        else None
  }

  /** The greedy `\S+` takes the whole run of non-whitespace. */
  function GotAtFront(w: string): (r: Option<Span>)
    ensures r.Some? ==> Captured(GotLine, w, r.value)
  {
    if |w| == 0 || !IsSpace(w[0]) then None
    else
      var a := SpaceEnd(w, 0);
      if !OccursAt(w, "got:", a) || a + 4 >= |w| || !IsSpace(w[a + 4]) then None
      else
        var b := SpaceEnd(w, a + 4);
        if !OccursAt(w, "sha256-", b) then None
        else
          var e := NonSpaceEnd(w, b + 7);
          if e == b + 7 then None
          else
            NonSpaceRun(w, b + 7);
            GotValueShape(w, b, e);
            Some(Span(b, e))
  }

  lemma LazyValueShape(w: string, v: nat, e: nat)
    requires OccursAt(w, "sha256-", v) && v + 7 <= e <= |w|
    requires forall j :: v + 7 <= j < e ==> w[j] != '\n'
    ensures IsLazyValue(w[v..e])
  {
    var x := w[v..e];
    assert x[..7] == w[v..v + 7];
    forall k | 0 <= k < |x|
      ensures x[k] != '\n'
    {
      assert x[k] == w[v + k];
      if k < 7 {
        assert w[v + k] == w[v..v + 7][k];
      }
    }
  }

  lemma GotValueShape(w: string, b: nat, e: nat)
    requires OccursAt(w, "sha256-", b) && b + 7 < e <= |w|
    requires forall j :: b + 7 <= j < e ==> !IsSpace(w[j])
    ensures IsGotValue(w[b..e])
  {
    var x := w[b..e];
    assert x[..7] == w[b..b + 7];
    forall k | 0 <= k < |x|
      ensures !IsSpace(x[k])
    {
      assert x[k] == w[b + k];
      if k < 7 {
        assert w[b + k] == w[b..b + 7][k];
      }
    }
  }

  /** The pattern as a matcher on suffixes. */
  function MatcherOf(p: HashPattern): (m: Matcher)
    ensures Bounded(m)
  {
    w => AtFront(p, w)
  }

  /** The test each pattern's captured values pass. */
  function ValueTest(p: HashPattern): string -> bool {
    v => IsValue(p, v)
  }

  /** Applying the value test is asking for a value of the pattern. */
  lemma ValueTestApplied(p: HashPattern, v: string)
    ensures ValueTest(p)(v) == IsValue(p, v)
  {
  }

  /** Every value the pattern captures passes its value test. */
  lemma MatcherYieldsValues(p: HashPattern)
    ensures Yields(MatcherOf(p), ValueTest(p))
  {
    forall w | MatcherOf(p)(w).Some?
      ensures ValueTest(p)(w[MatcherOf(p)(w).value.start..MatcherOf(p)(w).value.end])
    {
      assert Captured(p, w, AtFront(p, w).value);
    }
  }

  /** `pattern.search(s, pos)`: the pattern tried at `pos`, `pos + 1`, ...
      up to the end, reporting the span of the captured value of the
      first match. */
  function Search(p: HashPattern, s: string, pos: nat): (r: Option<Span>)
    ensures r.Some? ==> pos <= r.value.start && Captured(p, s, r.value)
  {
    ScanCaptured(p, s, pos);
    Scan(MatcherOf(p), s, pos)
  }

  /** What the scan of a pattern finds is a capture of that pattern. */
  lemma ScanCaptured(p: HashPattern, s: string, pos: nat)
    ensures Scan(MatcherOf(p), s, pos).Some? ==> Captured(p, s, Scan(MatcherOf(p), s, pos).value)
  {
    MatcherKeepsCapture(p);
    CaptureShifts(p);
    ScanKeeps(MatcherOf(p), CaptureTest(p), s, pos);
  }

  /** `Captured` as a function value. */
  function CaptureTest(p: HashPattern): (string, Span) -> bool {
    (w, sp) => Captured(p, w, sp)
  }

  lemma MatcherKeepsCapture(p: HashPattern)
    ensures Keeps(MatcherOf(p), CaptureTest(p))
  {
    forall w | MatcherOf(p)(w).Some?
      ensures CaptureTest(p)(w, MatcherOf(p)(w).value)
    {
      assert Captured(p, w, AtFront(p, w).value);
    }
  }

  lemma CaptureShifts(p: HashPattern)
    ensures Shifts(CaptureTest(p))
  {
    forall s: string, i: nat, sp: Span | i <= |s| && CaptureTest(p)(s[i..], sp)
      ensures CaptureTest(p)(s, Span(i + sp.start, i + sp.end))
    {
      CapturedShift(p, s, i, sp);
    }
  }

  /** A capture found in a suffix is one in the whole text. */
  lemma CapturedShift(p: HashPattern, s: string, i: nat, sp: Span)
    requires i <= |s| && Captured(p, s[i..], sp)
    ensures Captured(p, s, Span(i + sp.start, i + sp.end))
  {
    var w := s[i..];
    assert w[sp.start..sp.end] == s[i + sp.start..i + sp.end];
    if sp.end + 2 <= |w| {
      assert w[sp.end..sp.end + 2] == s[i + sp.end..i + sp.end + 2];
    }
    if sp.end < |w| {
      assert w[sp.end] == s[i + sp.end];
    }
  }

  /** `get_new_hash`: the value after `got:` in a failed build's log. */
  function NewHash(stderr: string): (r: Option<string>)
    ensures r.Some? ==> IsGotValue(r.value)
  {
    match Search(GotLine, stderr, 0)
    case None => None
    case Some(sp) => Some(stderr[sp.start..sp.end])
  }
}
