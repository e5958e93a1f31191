/** `pattern.search(s, pos)` for a pattern that does not look behind its
    start, and the loops of repeated searches built on it. A pattern of
    that kind is described by a matcher: given the text from some position
    on, it says whether the pattern matches right there and, if so, where
    the value it captures is, relative to that position. */
module Scanning {
  import opened Text
  import opened OverrideText

  type Matcher = string -> Option<Span>

  /** The span a matcher reports lies within the text it is given. */
  ghost predicate Bounded(m: Matcher) {
    forall w :: m(w).Some? ==> m(w).value.start <= m(w).value.end <= |w|
  }

  /** Every value the matcher captures passes `ok`. */
  ghost predicate Yields(m: Matcher, ok: string -> bool)
    requires Bounded(m)
  {
    forall w :: m(w).Some? ==> ok(w[m(w).value.start..m(w).value.end])
  }

  /** The pattern tried at `pos`, `pos + 1`, ... up to the end of `s`; the
      span of the captured value of the first match, in `s`. */
  function Scan(m: Matcher, s: string, pos: nat): (r: Option<Span>)
    requires Bounded(m)
    ensures r.Some? ==> pos <= r.value.start <= r.value.end <= |s|
    decreases |s| - pos
  {
    if pos > |s| then None
    else match m(s[pos..])
      case Some(sp) => Some(Span(pos + sp.start, pos + sp.end))
      case None => Scan(m, s, pos + 1)
  }

  /** `i` is the first position from `pos` on where the pattern matches. */
  predicate FirstMatchAt(m: Matcher, s: string, pos: nat, i: nat) {
    pos <= i <= |s| && m(s[i..]).Some? &&
    forall j :: pos <= j < i ==> m(s[j..]).None?
  }

  /** The scan finds nothing exactly when no position from `pos` on
      matches. */
  lemma {:induction false} ScanNoneIffNoMatch(m: Matcher, s: string, pos: nat)
    requires Bounded(m)
    ensures Scan(m, s, pos).None? <==> forall j :: pos <= j <= |s| ==> m(s[j..]).None?
    decreases |s| - pos
  {
    if pos <= |s| && m(s[pos..]).None? {
      ScanNoneIffNoMatch(m, s, pos + 1);
    }
  }

  /** What the scan finds is the capture of the leftmost match from `pos`
      on. */
  lemma {:induction false} ScanFindsFirstMatch(m: Matcher, s: string, pos: nat)
    requires Bounded(m)
    ensures Scan(m, s, pos).Some? ==>
      exists i: nat :: FirstMatchAt(m, s, pos, i) &&
        Scan(m, s, pos).value == Span(i + m(s[i..]).value.start, i + m(s[i..]).value.end)
    decreases |s| - pos
  {
    if pos <= |s| {
      if m(s[pos..]).None? {
        ScanFindsFirstMatch(m, s, pos + 1);
        if Scan(m, s, pos).Some? {
          var i: nat :| FirstMatchAt(m, s, pos + 1, i) &&
            Scan(m, s, pos + 1).value == Span(i + m(s[i..]).value.start, i + m(s[i..]).value.end);
          assert FirstMatchAt(m, s, pos, i);
        }
      } else {
        assert FirstMatchAt(m, s, pos, pos);
      }
    }
  }

  /** A value the scan finds is one the matcher captured. */
  lemma {:induction false} ScanYields(m: Matcher, ok: string -> bool, s: string, pos: nat)
    requires Bounded(m) && Yields(m, ok)
    ensures Scan(m, s, pos).Some? ==> ok(s[Scan(m, s, pos).value.start..Scan(m, s, pos).value.end])
    decreases |s| - pos
  {
    if pos <= |s| {
      var w := s[pos..];
      if m(w).Some? {
        var sp := m(w).value;
        assert w[sp.start..sp.end] == s[pos + sp.start..pos + sp.end];
      } else {
        ScanYields(m, ok, s, pos + 1);
      }
    }
  }

  /** The scan looks only at the text from `pos` on: on two texts with the
      same text there, it finds the same capture at the same distance from
      `pos`. */
  lemma {:induction false} ScanOnSuffix(m: Matcher, s: string, pos: nat, s2: string, pos2: nat)
    requires Bounded(m)
    requires pos <= |s| && pos2 <= |s2| && s[pos..] == s2[pos2..]
    ensures Scan(m, s, pos).None? <==> Scan(m, s2, pos2).None?
    ensures Scan(m, s, pos).Some? ==>
      && Scan(m, s2, pos2).value.start + pos == Scan(m, s, pos).value.start + pos2
      && Scan(m, s2, pos2).value.end + pos == Scan(m, s, pos).value.end + pos2
    decreases |s| - pos
  {
    if m(s[pos..]).None? && pos < |s| {
      assert s[pos + 1..] == s[pos..][1..] == s2[pos2..][1..] == s2[pos2 + 1..];
      ScanOnSuffix(m, s, pos + 1, s2, pos2 + 1);
    }
  }

  /** Every match of `m` satisfies `c`. */
  ghost predicate Keeps(m: Matcher, c: (string, Span) -> bool) {
    forall w :: m(w).Some? ==> c(w, m(w).value)
  }

  /** `c` holds of a span of a suffix when it holds of the span moved back
      into the whole text. */
  ghost predicate Shifts(c: (string, Span) -> bool) {
    forall s: string, i: nat, sp: Span :: i <= |s| && c(s[i..], sp) ==> c(s, Span(i + sp.start, i + sp.end))
  }

  /** What the scan finds satisfies what every match satisfies. */
  lemma ScanKeeps(m: Matcher, c: (string, Span) -> bool, s: string, pos: nat)
    requires Bounded(m) && Keeps(m, c) && Shifts(c)
    ensures Scan(m, s, pos).Some? ==> c(s, Scan(m, s, pos).value)
  {
    ScanFindsFirstMatch(m, s, pos);
    if Scan(m, s, pos).Some? {
      var i: nat :| FirstMatchAt(m, s, pos, i) &&
        Scan(m, s, pos).value == Span(i + m(s[i..]).value.start, i + m(s[i..]).value.end);
      assert c(s[i..], m(s[i..]).value);
    }
  }

  /** The value the first match from `pos` on captures, replaced by `rep`;
      `None` when `m` matches nowhere from `pos` on. */
  function ReplaceFirstCapture(m: Matcher, s: string, pos: nat, rep: string): (r: Option<string>)
    requires Bounded(m)
    ensures r.None? <==> forall j :: pos <= j <= |s| ==> m(s[j..]).None?
    ensures r.Some? ==> exists i: nat ::
      FirstMatchAt(m, s, pos, i) && r.value == s[..i + m(s[i..]).value.start] + rep + s[i + m(s[i..]).value.end..]
  {
    ScanNoneIffNoMatch(m, s, pos);
    ScanFindsFirstMatch(m, s, pos);
    match Scan(m, s, pos)
    case None => None
    case Some(sp) => Some(s[..sp.start] + rep + s[sp.end..])
  }

  /** The result holds `rep`. */
  lemma ReplaceFirstCaptureHoldsRep(m: Matcher, s: string, pos: nat, rep: string)
    requires Bounded(m) && ReplaceFirstCapture(m, s, pos, rep).Some?
    ensures Contains(ReplaceFirstCapture(m, s, pos, rep).value, rep)
  {
    var sp := Scan(m, s, pos).value;
    var r := s[..sp.start] + rep + s[sp.end..];
    assert r[sp.start..sp.start + |rep|] == rep;
    assert OccursAt(r, rep, sp.start);
  }

  // ---------------------------------------------------------------------
  // Successive captures
  // ---------------------------------------------------------------------

  /** The text around up to `count` successive captures from `pos` on,
      each scan starting where the previous capture ended: before the
      first, between each two, and after the last. */
  function CaptureGaps(m: Matcher, s: string, pos: nat, count: nat): (r: seq<string>)
    requires Bounded(m) && pos <= |s|
    ensures |r| >= 1
    decreases count
  {
    if count == 0 then [s[pos..]]
    else match Scan(m, s, pos)
      case None => [s[pos..]]
      case Some(v) => [s[pos..v.start]] + CaptureGaps(m, s, v.end, count - 1)
  }

  /** The captured values themselves. */
  function Captures(m: Matcher, s: string, pos: nat, count: nat): (r: seq<string>)
    requires Bounded(m) && pos <= |s|
    ensures |r| <= count
    decreases count
  {
    if count == 0 then []
    else match Scan(m, s, pos)
      case None => []
      case Some(v) => [s[v.start..v.end]] + Captures(m, s, v.end, count - 1)
  }

  /** One gap more than values. */
  lemma {:induction false} CaptureCounts(m: Matcher, s: string, pos: nat, count: nat)
    requires Bounded(m) && pos <= |s|
    ensures |Captures(m, s, pos, count)| + 1 == |CaptureGaps(m, s, pos, count)|
    decreases count
  {
    if count > 0 && Scan(m, s, pos).Some? {
      CaptureCounts(m, s, Scan(m, s, pos).value.end, count - 1);
    }
  }

  lemma CaptureStep(m: Matcher, s: string, pos: nat, count: nat, v: Span)
    requires Bounded(m) && pos <= |s| && count > 0 && Scan(m, s, pos) == Some(v)
    ensures pos <= v.start <= v.end <= |s|
    ensures CaptureGaps(m, s, pos, count) == [s[pos..v.start]] + CaptureGaps(m, s, v.end, count - 1)
    ensures Captures(m, s, pos, count) == [s[v.start..v.end]] + Captures(m, s, v.end, count - 1)
  {
  }

  lemma CaptureStop(m: Matcher, s: string, pos: nat, count: nat)
    requires Bounded(m) && pos <= |s| && (count == 0 || Scan(m, s, pos).None?)
    ensures CaptureGaps(m, s, pos, count) == [s[pos..]] && Captures(m, s, pos, count) == []
  {
  }

  /** Every captured value passes what the matcher promises of its values. */
  lemma {:induction false} CapturesYield(m: Matcher, ok: string -> bool, s: string, pos: nat, count: nat)
    requires Bounded(m) && Yields(m, ok) && pos <= |s|
    ensures forall k :: 0 <= k < |Captures(m, s, pos, count)| ==> ok(Captures(m, s, pos, count)[k])
    decreases count
  {
    if count > 0 && Scan(m, s, pos).Some? {
      var v := Scan(m, s, pos).value;
      CaptureStep(m, s, pos, count, v);
      ScanYields(m, ok, s, pos);
      CapturesYield(m, ok, s, v.end, count - 1);
      AllPassCons(ok, s[v.start..v.end], Captures(m, s, v.end, count - 1), Captures(m, s, pos, count));
    } else {
      CaptureStop(m, s, pos, count);
    }
  }

  lemma AllPassCons(ok: string -> bool, x: string, rest: seq<string>, values: seq<string>)
    requires ok(x) && forall k :: 0 <= k < |rest| ==> ok(rest[k])
    requires values == [x] + rest
    ensures forall k :: 0 <= k < |values| ==> ok(values[k])
  {
    assert forall k :: 1 <= k < |values| ==> values[k] == rest[k - 1];
  }

  /** Gaps and values, alternating. */
  function Weave(gaps: seq<string>, values: seq<string>): string
    requires |gaps| == |values| + 1
    decreases |values|
  {
    if |values| == 0 then gaps[0] else gaps[0] + values[0] + Weave(gaps[1..], values[1..])
  }

  /** The text from `pos` on is the gaps and the captured values in turn. */
  lemma {:induction false} CaptureGapsWeave(m: Matcher, s: string, pos: nat, count: nat)
    requires Bounded(m) && pos <= |s|
    ensures |CaptureGaps(m, s, pos, count)| == |Captures(m, s, pos, count)| + 1 &&
            Weave(CaptureGaps(m, s, pos, count), Captures(m, s, pos, count)) == s[pos..]
    decreases count
  {
    CaptureCounts(m, s, pos, count);
    if count > 0 && Scan(m, s, pos).Some? {
      var v := Scan(m, s, pos).value;
      CaptureStep(m, s, pos, count, v);
      CaptureGapsWeave(m, s, v.end, count - 1);
      WeaveAssemble(s, pos, v.start, v.end, CaptureGaps(m, s, pos, count), Captures(m, s, pos, count),
                    CaptureGaps(m, s, v.end, count - 1), Captures(m, s, v.end, count - 1));
    } else {
      CaptureStop(m, s, pos, count);
    }
  }

  lemma WeaveAssemble(s: string, pos: nat, a: nat, b: nat, gaps: seq<string>, values: seq<string>,
                      gs: seq<string>, vs: seq<string>)
    requires pos <= a <= b <= |s| && |gs| == |vs| + 1
    requires gaps == [s[pos..a]] + gs && values == [s[a..b]] + vs
    requires Weave(gs, vs) == s[b..]
    ensures |gaps| == |values| + 1 && Weave(gaps, values) == s[pos..]
  {
    assert gaps[0] == s[pos..a] && gaps[1..] == gs;
    assert values[0] == s[a..b] && values[1..] == vs;
    WeaveCons(gaps, values);
    SliceThree(s, pos, a, b);
  }

  lemma WeaveCons(gaps: seq<string>, values: seq<string>)
    requires |gaps| == |values| + 1 && |values| > 0
    ensures Weave(gaps, values) == gaps[0] + values[0] + Weave(gaps[1..], values[1..])
  {
  }

  lemma SliceThree(s: string, i: nat, j: nat, k: nat)
    requires i <= j <= k <= |s|
    ensures s[i..] == s[i..j] + s[j..k] + s[k..]
  {
  }

  // ---------------------------------------------------------------------
  // Replacing successive captures
  // ---------------------------------------------------------------------

  /** The text with up to `count` successive captures from `pos` on each
      replaced by `rep`: everything else is kept. */
  function ReplaceCaptures(m: Matcher, s: string, pos: nat, count: nat, rep: string): string
    requires Bounded(m)
  {
    if pos > |s| then s else s[..pos] + Join(CaptureGaps(m, s, pos, count), rep)
  }

  /** The invariant of a loop that replaces captures one at a time in a
      working copy `t` of `s` and goes on scanning after each replacement:
      the copy from `at` on is still the original from `q` on, and what the
      remaining iterations will make of it is the final text. */
  predicate ReplaceInvariant(m: Matcher, s: string, q: nat, left: nat, t: string, at: nat, rep: string, total: string)
    requires Bounded(m)
  {
    q <= |s| && at <= |t| && t[at..] == s[q..] &&
    t[..at] + Join(CaptureGaps(m, s, q, left), rep) == total
  }

  /** The loop starts in the invariant. */
  lemma ReplaceInvariantInit(m: Matcher, s: string, pos: nat, count: nat, rep: string)
    requires Bounded(m) && pos <= |s|
    ensures ReplaceInvariant(m, s, pos, count, s, pos, rep, ReplaceCaptures(m, s, pos, count, rep))
  {
  }

  /** A capture found in the copy is the next capture of the original, and
      replacing it keeps the invariant with the scan going on from after
      the replacement in the copy and from after the capture in the
      original. */
  lemma ReplaceFound(m: Matcher, s: string, q: nat, left: nat, t: string, at: nat, rep: string, total: string, c: Span,
                     rest: nat, next: string, nextAt: nat)
    returns (nextQ: nat)
    requires Bounded(m) && left == rest + 1
    requires ReplaceInvariant(m, s, q, left, t, at, rep, total)
    requires Scan(m, t, at) == Some(c)
    requires next == t[..c.start] + rep + t[c.end..] && nextAt == c.start + |rep|
    ensures ReplaceInvariant(m, s, nextQ, rest, next, nextAt, rep, total)
  {
    ScanOnSuffix(m, t, at, s, q);
    var v := Scan(m, s, q).value;
    CaptureStep(m, s, q, left, v);
    var gaps := CaptureGaps(m, s, v.end, rest);
    assert CaptureGaps(m, s, q, left) == [s[q..v.start]] + gaps;
    JoinCons(s[q..v.start], gaps, rep);
    CopyPieces(t, at, s, q, c, v);
    NewCopy(t, c, rep, next);
    Regroup(t[..at], s[q..v.start], rep, Join(gaps, rep), next[..nextAt], total);
    nextQ := v.end;
  }

  lemma CopyPieces(t: string, at: nat, s: string, q: nat, c: Span, v: Span)
    requires at <= c.start <= c.end <= |t| && q <= v.start <= v.end <= |s|
    requires t[at..] == s[q..] && v.start + at == c.start + q && v.end + at == c.end + q
    ensures t[..c.start] == t[..at] + s[q..v.start] && t[c.end..] == s[v.end..]
  {
    assert t[at..c.start] == t[at..][..c.start - at];
    assert s[q..v.start] == s[q..][..v.start - q];
    assert t[..c.start] == t[..at] + t[at..c.start];
    assert t[c.end..] == t[at..][c.end - at..];
    assert s[v.end..] == s[q..][v.end - q..];
  }

  lemma NewCopy(t: string, c: Span, rep: string, t2: string)
    requires c.start <= c.end <= |t| && t2 == t[..c.start] + rep + t[c.end..]
    ensures t2[c.start + |rep|..] == t[c.end..]
    ensures t2[..c.start + |rep|] == t[..c.start] + rep
  {
  }

  lemma Regroup(a: string, b: string, c: string, d: string, front: string, total: string)
    requires total == a + (b + c + d) && front == a + b + c
    ensures front + d == total
  {
  }

  lemma JoinCons(first: string, rest: seq<string>, sep: string)
    requires |rest| >= 1
    ensures Join([first] + rest, sep) == first + sep + Join(rest, sep)
  {
    assert ([first] + rest)[1..] == rest;
  }

  /** When the copy has no capture left, nor has the original, and the copy
      is already the final text. */
  lemma ReplaceMissed(m: Matcher, s: string, q: nat, left: nat, t: string, at: nat, rep: string, total: string, rest: nat)
    requires Bounded(m) && left == rest + 1
    requires ReplaceInvariant(m, s, q, left, t, at, rep, total)
    requires Scan(m, t, at).None?
    ensures ReplaceInvariant(m, s, q, rest, t, at, rep, total)
    ensures t == total
  {
    ScanOnSuffix(m, t, at, s, q);
    CaptureStop(m, s, q, left);
    CaptureStop(m, s, q, rest);
    assert t == t[..at] + t[at..];
  }

  /** After the last iteration the copy is the final text. */
  lemma ReplaceDone(m: Matcher, s: string, q: nat, t: string, at: nat, rep: string, total: string)
    requires Bounded(m) && ReplaceInvariant(m, s, q, 0, t, at, rep, total)
    ensures t == total
  {
    assert t == t[..at] + t[at..];
  }

  /** One turn of the loop: the next capture from `at` on, if any,
      replaced by `rep`, and the search moved past the replacement. */
  method ReplaceNext(m: Matcher, ghost s: string, ghost q: nat, left: nat, t: string, at: nat, rep: string, ghost total: string)
    returns (next: string, nextAt: nat, nextLeft: nat, ghost nextQ: nat)
    requires Bounded(m) && left > 0
    requires ReplaceInvariant(m, s, q, left, t, at, rep, total)
    ensures nextLeft == left - 1
    ensures ReplaceInvariant(m, s, nextQ, nextLeft, next, nextAt, rep, total)
  {
    nextLeft := left - 1;
    var found := Scan(m, t, at);
    if found.Some? {
      var c := found.value;
      next, nextAt := t[..c.start] + rep + t[c.end..], c.start + |rep|;
      nextQ := ReplaceFound(m, s, q, left, t, at, rep, total, c, nextLeft, next, nextAt);
    } else {
      ReplaceMissed(m, s, q, left, t, at, rep, total, nextLeft);
      next, nextAt, nextQ := t, at, q;
    }
  }

  /** The loop that replaces captures one at a time, searching the text as
      it is being rewritten and going on after each replacement. */
  method ReplaceCapturesLoop(m: Matcher, content0: string, start: nat, count: nat, rep: string)
    returns (content: string)
    requires Bounded(m) && start <= |content0|
    ensures content == ReplaceCaptures(m, content0, start, count, rep)
  {
    ghost var total := ReplaceCaptures(m, content0, start, count, rep);
    ghost var q: nat := start;
    ReplaceInvariantInit(m, content0, start, count, rep);
    content := content0;
    var pos: nat := start;
    var left := count;
    while left > 0
      invariant ReplaceInvariant(m, content0, q, left, content, pos, rep, total)
    {
      content, pos, left, q := ReplaceNext(m, content0, q, left, content, pos, rep, total);
    }
    ReplaceDone(m, content0, q, content, pos, rep, total);
  }

  /** The replacement swaps values and nothing else: the text before
      `start` is kept, and the original and the result are the same gaps
      with, between each two, a captured value in the original and `rep`
      in the result; there are at most `count` of them. */
  lemma ReplaceCapturesSwaps(m: Matcher, ok: string -> bool, s: string, start: nat, count: nat, rep: string)
    requires Bounded(m) && Yields(m, ok) && start <= |s|
    ensures var gaps := CaptureGaps(m, s, start, count);
      var values := Captures(m, s, start, count);
      && |gaps| == |values| + 1 && |values| <= count
      && ReplaceCaptures(m, s, start, count, rep) == s[..start] + Join(gaps, rep)
      && s == s[..start] + Weave(gaps, values)
      && forall k :: 0 <= k < |values| ==> ok(values[k])
  {
    CaptureGapsWeave(m, s, start, count);
    CapturesYield(m, ok, s, start, count);
    assert s == s[..start] + s[start..];
  }
}
