/** Python's string built-ins as the scripts use them, restricted to ASCII:
    whitespace, case, prefixes and suffixes, substring search, `strip`,
    `split`, `join`, `replace`, `int()` and `str()` of an integer. */
module Text {

  datatype Option<+T> = None | Some(value: T)

  /** `str.isspace()` (and the regular-expression class `\s`) on ASCII:
      tab, line feed, vertical tab, form feed, carriage return, the four
      information separators 0x1c-0x1f, and space. */
  predicate IsSpace(c: char) {
    (9 <= c as int <= 13) || (28 <= c as int <= 32)
  }

  predicate IsDigit(c: char) { '0' <= c <= '9' }

  predicate IsLetter(c: char) { ('a' <= c <= 'z') || ('A' <= c <= 'Z') }

  /** The regular-expression class `\w` on ASCII. */
  predicate IsWordChar(c: char) { IsLetter(c) || IsDigit(c) || c == '_' }

  function LowerChar(c: char): char {
    if 'A' <= c <= 'Z' then (c as int + 32) as char else c
  }

  /** `str.lower()` on ASCII. */
  function Lower(s: string): string {
    seq(|s|, i requires 0 <= i < |s| => LowerChar(s[i]))
  }

  predicate StartsWith(s: string, prefix: string) {
    |prefix| <= |s| && s[..|prefix|] == prefix
  }

  predicate EndsWith<T(==)>(s: seq<T>, suffix: seq<T>) {
    |suffix| <= |s| && s[|s| - |suffix|..] == suffix
  }

  /** `sub in s`. */
  predicate Contains(s: string, sub: string) {
    exists i | 0 <= i <= |s| - |sub| :: OccursAt(s, sub, i)
  }

  predicate OccursAt(s: string, sub: string, i: int) {
    0 <= i && i + |sub| <= |s| && s[i..i + |sub|] == sub
  }

  /** `s.removesuffix(suffix)`. */
  function RemoveSuffix(s: string, suffix: string): (r: string)
    ensures EndsWith(s, suffix) ==> r + suffix == s
    ensures !EndsWith(s, suffix) ==> r == s
  {
    if EndsWith(s, suffix) then s[..|s| - |suffix|] else s
  }

  /** Index of the first occurrence of `c`. */
  function IndexOf(s: string, c: char): (r: Option<nat>)
    ensures r.None? <==> c !in s
    ensures r.Some? ==> r.value < |s| && s[r.value] == c && c !in s[..r.value]
  {
    if |s| == 0 then None
    else if s[0] == c then Some(0)
    else match IndexOf(s[1..], c)
      case None => None
      case Some(k) =>
        assert s[..k + 1] == [s[0]] + s[1..][..k];
        Some(k + 1)
  }

  /** Index just after the last occurrence of `c`, or 0 when there is none. */
  function AfterLast(s: string, c: char): (r: nat)
    ensures r <= |s| && c !in s[r..]
    ensures r > 0 ==> s[r - 1] == c
  {
    if |s| == 0 then 0
    else if s[|s| - 1] == c then |s|
    else
      var k := AfterLast(s[..|s| - 1], c);
      assert s[k..] == s[..|s| - 1][k..] + [s[|s| - 1]];
      k
  }

  /** `s.split(c)[-1]`: what follows the last `c`, or all of `s` when it
      has none. */
  function LastPart(s: string, c: char): (r: string)
    ensures EndsWith(s, r) && c !in r
    ensures |r| < |s| ==> s[|s| - |r| - 1] == c
  {
    s[AfterLast(s, c)..]
  }

  /** `s.split(c)[0]`: what comes before the first `c`, or all of `s`
      when it has none. */
  function FirstPart(s: string, c: char): (r: string)
    ensures StartsWith(s, r) && c !in r
    ensures |r| < |s| ==> s[|r|] == c
  {
    SplitFirstPrefix(s, c);
    SplitFirst(s, c).0
  }

  lemma SplitFirstPrefix(s: string, c: char)
    ensures var p := SplitFirst(s, c).0;
      StartsWith(s, p) && (|p| < |s| ==> s[|p|] == c)
  {
    var parts := SplitFirst(s, c);
    if c in s {
      assert s == parts.0 + ([c] + parts.1);
      assert s[..|parts.0|] == parts.0;
    }
  }

  /** The first `c` is the one right after a prefix without any. */
  lemma SplitFirstAt(a: string, b: string, c: char)
    requires c !in a
    ensures SplitFirst(a + [c] + b, c) == (a, b)
  {
    var s := a + [c] + b;
    var i := IndexOf(s, c).value;
    forall k | 0 <= k < i
      ensures s[k] != c
    {
      assert s[k] == s[..i][k];
    }
    forall k | 0 <= k < |a|
      ensures s[k] != c
    {
      assert s[k] == a[k];
    }
    assert s[|a|] == c;
    assert i == |a|;
    assert s[..i] == a && s[i + 1..] == b;
  }

  /** `os.path.basename`. */
  function BaseName(path: string): string {
    LastPart(path, '/')
  }

  /** `s.strip(chars)`: the longest slice of `s` that neither starts nor ends
      with a character of `chars`. */
  function StripChars(s: string, chars: set<char>): (r: string)
    ensures exists a, b :: (0 <= a <= b <= |s| && r == s[a..b] &&
      (forall k :: 0 <= k < a ==> s[k] in chars) &&
      (forall k :: b <= k < |s| ==> s[k] in chars))
    ensures r != [] ==> r[0] !in chars && r[|r| - 1] !in chars
    ensures (forall k :: 0 <= k < |s| ==> s[k] in chars) ==> r == []
  {
    var a := LeadingRun(s, chars);
    var b := TrailingRunStart(s, chars, a);
    s[a..b]
  }

  function LeadingRun(s: string, chars: set<char>): (a: nat)
    ensures a <= |s| && (forall k :: 0 <= k < a ==> s[k] in chars)
    ensures a < |s| ==> s[a] !in chars
    decreases |s|
  {
    if |s| == 0 || s[0] !in chars then 0
    else 1 + LeadingRun(s[1..], chars)
  }

  function TrailingRunStart(s: string, chars: set<char>, a: nat): (b: nat)
    requires a <= |s|
    ensures a <= b <= |s| && (forall k :: b <= k < |s| ==> s[k] in chars)
    ensures b > a ==> s[b - 1] !in chars
    decreases |s|
  {
    if |s| == a || s[|s| - 1] !in chars then |s|
    else TrailingRunStart(s[..|s| - 1], chars, a)
  }

  const Whitespace: set<char> := set n: int | 9 <= n <= 32 && IsSpace(n as char) :: n as char

  lemma WhitespaceIsSpace(c: char)
    ensures c in Whitespace <==> IsSpace(c)
  {
  }

  /** `s.strip()`. */
  function Strip(s: string): string {
    StripChars(s, Whitespace)
  }

  /** `s.strip()` keeps no whitespace at either end, and is empty exactly
      when `s` is all whitespace. */
  lemma StripEnds(s: string)
    ensures var r := Strip(s);
      && |r| <= |s|
      && (r != [] ==> !IsSpace(r[0]) && !IsSpace(r[|r| - 1]))
      && ((forall k :: 0 <= k < |s| ==> IsSpace(s[k])) <==> r == [])
  {
    var r := Strip(s);
    WhitespaceIsSpace(if r == [] then ' ' else r[0]);
    WhitespaceIsSpace(if r == [] then ' ' else r[|r| - 1]);
    if forall k :: 0 <= k < |s| ==> IsSpace(s[k]) {
      assert forall k :: 0 <= k < |s| ==> s[k] in Whitespace;
    } else {
      var k :| 0 <= k < |s| && !IsSpace(s[k]);
      assert s[k] !in Whitespace;
    }
  }

  /** `c * n`. */
  function Repeat(c: char, n: nat): (r: string)
    ensures |r| == n && forall k :: 0 <= k < n ==> r[k] == c
  {
    if n == 0 then "" else [c] + Repeat(c, n - 1)
  }

  /** `s.lstrip(c)` for a single character. */
  function LStripChar(s: string, c: char): (r: string)
    ensures |r| <= |s| && r == s[|s| - |r|..]
    ensures forall k :: 0 <= k < |s| - |r| ==> s[k] == c
    ensures r != [] ==> r[0] != c
    decreases |s|
  {
    if |s| > 0 && s[0] == c then LStripChar(s[1..], c) else s
  }

  /** `sep.join(parts)`. */
  function Join(parts: seq<string>, sep: string): string
    decreases |parts|
  {
    if |parts| == 0 then ""
    else if |parts| == 1 then parts[0]
    else parts[0] + sep + Join(parts[1..], sep)
  }

  /** `s.split(c)` for a one-character separator: never empty, no piece holds
      the separator, and joining the pieces back gives `s`. */
  function Split(s: string, c: char): (r: seq<string>)
    ensures |r| >= 1
    ensures forall k :: 0 <= k < |r| ==> c !in r[k]
    ensures Join(r, [c]) == s
    decreases |s|
  {
    if |s| == 0 then [""]
    else
      var rest := Split(s[1..], c);
      if s[0] == c then
        [""] + rest
      else
        assert s == [s[0]] + s[1..];
        [[s[0]] + rest[0]] + rest[1..]
  }

  /** `s.split()`: the maximal runs of non-space characters, in order. */
  function Words(s: string): (r: seq<string>)
    ensures forall k :: 0 <= k < |r| ==> r[k] != [] && forall j :: 0 <= j < |r[k]| ==> !IsSpace(r[k][j])
    ensures (forall k :: 0 <= k < |s| ==> IsSpace(s[k])) <==> r == []
    decreases |s|
  {
    if |s| == 0 then []
    else if IsSpace(s[0]) then Words(s[1..])
    else
      var n := WordLength(s);
      assert !IsSpace(s[0]);
      [s[..n]] + Words(s[n..])
  }

  function WordLength(s: string): (n: nat)
    ensures n <= |s| && forall j :: 0 <= j < n ==> !IsSpace(s[j])
    ensures n < |s| ==> IsSpace(s[n])
    decreases |s|
  {
    if |s| == 0 || IsSpace(s[0]) then 0 else 1 + WordLength(s[1..])
  }

  /** `s.split(c, 1)` when `c in s`: the parts before and after the first `c`. */
  function SplitFirst(s: string, c: char): (r: (string, string))
    ensures c in s ==> r.0 + [c] + r.1 == s && c !in r.0
    ensures c !in s ==> r == (s, "")
  {
    match IndexOf(s, c)
    case None => (s, "")
    case Some(i) =>
      assert s == s[..i] + [c] + s[i + 1..];
      (s[..i], s[i + 1..])
  }

  /** `s.replace(a, b)` for single characters: every `a` becomes `b` and
      nothing else changes. */
  function ReplaceChar(s: string, a: char, b: char): (r: string)
    ensures |r| == |s|
    ensures forall i :: 0 <= i < |s| ==> r[i] == (if s[i] == a then b else s[i])
    ensures a != b ==> a !in r
  {
    seq(|s|, i requires 0 <= i < |s| => if s[i] == a then b else s[i])
  }

  /** `s.replace(pat, rep)`: every non-overlapping occurrence, left to right. */
  function ReplaceAll(s: string, pat: string, rep: string): string
    requires |pat| > 0
    decreases |s|
  {
    if |s| < |pat| then s
    else if s[..|pat|] == pat then rep + ReplaceAll(s[|pat|..], pat, rep)
    else [s[0]] + ReplaceAll(s[1..], pat, rep)
  }

  /** `s.find(pat, from)`: the leftmost occurrence at or after `from`. */
  function FindFrom(s: string, pat: string, from: nat): (r: Option<nat>)
    ensures r.Some? ==> (from <= r.value && OccursAt(s, pat, r.value)
      && forall j :: from <= j < r.value ==> !OccursAt(s, pat, j))
    ensures r.None? ==> forall j :: from <= j ==> !OccursAt(s, pat, j)
    decreases |s| - from
  {
    if from + |pat| > |s| then None
    else if OccursAt(s, pat, from) then Some(from)
    else FindFrom(s, pat, from + 1)
  }

  /** `s.replace(pat, rep, 1)`. */
  function ReplaceFirst(s: string, pat: string, rep: string): (r: string)
    requires |pat| > 0
    ensures !Contains(s, pat) ==> r == s
  {
    match FindFrom(s, pat, 0)
    case None => s
    case Some(i) => s[..i] + rep + s[i + |pat|..]
  }

  /** Value of a non-empty run of decimal digits. */
  function DigitsValue(ds: string): nat
    requires forall k :: 0 <= k < |ds| ==> IsDigit(ds[k])
    decreases |ds|
  {
    if |ds| == 0 then 0
    else
      assert IsDigit(ds[|ds| - 1]);
      DigitsValue(ds[..|ds| - 1]) * 10 + (ds[|ds| - 1] as int - '0' as int)
  }

  function DigitChar(d: nat): char
    requires d < 10
  {
    ('0' as int + d) as char
  }

  /** `str(n)` for a natural number: its shortest decimal digits. */
  function NatToStr(n: nat): (r: string)
    ensures |r| >= 1 && forall k :: 0 <= k < |r| ==> IsDigit(r[k])
    ensures DigitsValue(r) == n
    ensures |r| > 1 ==> r[0] != '0'
    decreases n
  {
    if n < 10 then [DigitChar(n)]
    else
      var r := NatToStr(n / 10) + [DigitChar(n % 10)];
      assert r[..|r| - 1] == NatToStr(n / 10);
      r
  }

  /** `str(n)` for an integer. */
  function IntToStr(n: int): (r: string)
    ensures |r| >= 1
  {
    if n < 0 then "-" + NatToStr(-n) else NatToStr(n)
  }

  /** The digit-group syntax of Python's `int()`: digits, optionally with
      single underscores between them. */
  predicate IsDigitGroups(s: string) {
    && |s| > 0 && IsDigit(s[0]) && IsDigit(s[|s| - 1])
    && (forall k :: 0 <= k < |s| ==> IsDigit(s[k]) || s[k] == '_')
    && (forall k :: 0 <= k < |s| - 1 ==> !(s[k] == '_' && s[k + 1] == '_'))
  }

  function DropUnderscores(s: string): (r: string)
    requires forall k :: 0 <= k < |s| ==> IsDigit(s[k]) || s[k] == '_'
    ensures forall k :: 0 <= k < |r| ==> IsDigit(r[k])
    ensures (forall k :: 0 <= k < |s| ==> IsDigit(s[k])) ==> r == s
    decreases |s|
  {
    if |s| == 0 then ""
    else if s[0] == '_' then DropUnderscores(s[1..])
    else [s[0]] + DropUnderscores(s[1..])
  }

  /** From Python 3.11 on, `int()` and `str()` refuse decimal text of more
      than this many digits with a `ValueError`
      (`sys.int_info.default_max_str_digits`). */
  const MaxStrDigits: nat := 4300

  /** `str(n)` does not raise: `n` has at most `MaxStrDigits` digits. */
  predicate Printable(n: int) {
    |NatToStr(if n < 0 then -n else n)| <= MaxStrDigits
  }

  /** A number is written with no more digits than any decimal text of it. */
  lemma {:induction false} NatToStrShortest(ds: string)
    requires |ds| >= 1 && forall k :: 0 <= k < |ds| ==> IsDigit(ds[k])
    ensures |NatToStr(DigitsValue(ds))| <= |ds|
    decreases |ds|
  {
    var n := DigitsValue(ds);
    if n >= 10 {
      var init := ds[..|ds| - 1];
      assert forall k :: 0 <= k < |init| ==> IsDigit(init[k]);
      assert n / 10 == DigitsValue(init);
      NatToStrShortest(init);
    }
  }

  /** Python's `int(s)` for base 10 on ASCII text: surrounding whitespace, an
      optional sign, then digit groups of at most `MaxStrDigits` digits;
      anything else is a `ValueError` (`None`). */
  function ParseInt(s: string): (r: Option<int>)
    ensures r.Some? ==> Printable(r.value)
  {
    var t := Strip(s);
    if |t| == 0 then None else ParseSigned(t)
  }

  /** `int()` on text that has already been stripped. */
  function ParseSigned(t: string): (r: Option<int>)
    requires |t| > 0
    ensures r.Some? ==> Printable(r.value)
  {
    var neg := t[0] == '-';
    var body := if t[0] == '-' || t[0] == '+' then t[1..] else t;
    if !IsDigitGroups(body) then None
    else
      var ds := DropUnderscores(body);
      if |ds| > MaxStrDigits then None
      else
        var v: int := DigitsValue(ds);
        NatToStrShortest(ds);
        Some(if neg then -v else v)
  }

  /** Decimal text of more than `MaxStrDigits` digits is refused. */
  lemma ParseTooLong(digits: string)
    requires |digits| > MaxStrDigits && forall k :: 0 <= k < |digits| ==> IsDigit(digits[k])
    ensures ParseInt(digits) == None
  {
    assert forall k :: 0 <= k < |digits| ==> !IsSpace(digits[k]);
    StripNoSpace(digits);
    ParseStripped(digits);
    ParseDigits(digits);
  }

  /** `int(str(n)) == n` wherever `str(n)` does not raise. */
  lemma ParseIntOfIntToStr(n: int)
    requires Printable(n)
    ensures ParseInt(IntToStr(n)) == Some(n)
  {
    var s := IntToStr(n);
    if n < 0 {
      var digits := NatToStr(-n);
      assert s == "-" + digits;
      ParseNegative(digits, s);
    } else {
      ParseNonNegative(s);
    }
  }

  /** Plain decimal digits parse to their value. */
  lemma ParseNonNegative(digits: string)
    requires 1 <= |digits| <= MaxStrDigits && forall k :: 0 <= k < |digits| ==> IsDigit(digits[k])
    ensures ParseInt(digits) == Some(DigitsValue(digits) as int)
  {
    assert forall k :: 0 <= k < |digits| ==> !IsSpace(digits[k]);
    StripNoSpace(digits);
    ParseStripped(digits);
    ParseDigits(digits);
  }

  /** A minus sign followed by decimal digits parses to their negated value. */
  lemma ParseNegative(digits: string, s: string)
    requires 1 <= |digits| <= MaxStrDigits && forall k :: 0 <= k < |digits| ==> IsDigit(digits[k])
    requires s == "-" + digits
    ensures ParseInt(s) == Some(-(DigitsValue(digits) as int))
  {
    SignedNoSpace(digits, s);
    StripNoSpace(s);
    ParseStripped(s);
    ParseDigits(digits);
    ParseMinus(digits, s);
  }

  lemma ParseStripped(s: string)
    requires |s| > 0 && Strip(s) == s
    ensures ParseInt(s) == ParseSigned(s)
  {
  }

  lemma SignedNoSpace(digits: string, s: string)
    requires forall k :: 0 <= k < |digits| ==> IsDigit(digits[k])
    requires s == "-" + digits
    ensures forall k :: 0 <= k < |s| ==> !IsSpace(s[k])
  {
    forall k | 0 <= k < |s|
      ensures !IsSpace(s[k])
    {
      if k > 0 {
        assert s[k] == digits[k - 1];
      }
    }
  }

  lemma ParseMinus(digits: string, s: string)
    requires IsDigitGroups(digits) && (forall k :: 0 <= k < |digits| ==> IsDigit(digits[k]))
    requires DropUnderscores(digits) == digits && |digits| <= MaxStrDigits
    requires s == "-" + digits
    ensures ParseSigned(s) == Some(-(DigitsValue(digits) as int))
  {
    assert s[0] == '-' && s[1..] == digits;
    SignedMinus(s);
  }

  lemma SignedMinus(t: string)
    requires |t| > 0 && t[0] == '-'
    ensures ParseSigned(t) ==
      if IsDigitGroups(t[1..]) && |DropUnderscores(t[1..])| <= MaxStrDigits then Some(-(DigitsValue(DropUnderscores(t[1..])) as int))
      else None
  {
    var body := t[1..];
    if IsDigitGroups(body) {
      var ds := DropUnderscores(body);
      assert ParseSigned(t) == if |ds| > MaxStrDigits then None else Some(-(DigitsValue(ds) as int));
    }
  }

  /** Plain digits, on their own, form valid digit groups with their value. */
  lemma ParseDigits(digits: string)
    requires |digits| >= 1 && forall k :: 0 <= k < |digits| ==> IsDigit(digits[k])
    ensures IsDigitGroups(digits) && DigitsValue(DropUnderscores(digits)) == DigitsValue(digits)
  {
  }

  lemma StripNoSpace(s: string)
    requires forall k :: 0 <= k < |s| ==> !IsSpace(s[k])
    ensures Strip(s) == s
  {
    var a := LeadingRun(s, Whitespace);
    if a > 0 {
      WhitespaceIsSpace(s[0]);
    }
    var b := TrailingRunStart(s, Whitespace, a);
    if b < |s| {
      WhitespaceIsSpace(s[|s| - 1]);
    }
  }

  /** How many times `c` occurs in `s`. */
  function CountChar(s: string, c: char): nat
    decreases |s|
  {
    if |s| == 0 then 0 else (if s[0] == c then 1 else 0) + CountChar(s[1..], c)
  }

  /** `s.split(c)` has one piece more than there are separators. */
  lemma {:induction false} SplitLength(s: string, c: char)
    ensures |Split(s, c)| == CountChar(s, c) + 1
    decreases |s|
  {
    if |s| > 0 {
      SplitLength(s[1..], c);
    }
  }

  /** Text without the separator is a single piece. */
  lemma {:induction false} SplitNoSep(a: string, c: char)
    requires c !in a
    ensures Split(a, c) == [a]
    decreases |a|
  {
    if |a| > 0 {
      SplitNoSep(a[1..], c);
      assert a == [a[0]] + a[1..];
    }
  }

  /** The piece before the first separator comes first. */
  lemma {:induction false} SplitPrefix(a: string, rest: string, c: char)
    requires c !in a
    ensures Split(a + [c] + rest, c) == [a] + Split(rest, c)
    decreases |a|
  {
    var s := a + [c] + rest;
    if |a| == 0 {
      assert s[1..] == rest;
    } else {
      assert s[1..] == a[1..] + [c] + rest;
      SplitPrefix(a[1..], rest, c);
      assert a == [a[0]] + a[1..];
    }
  }

  /** Splitting undoes joining pieces that do not hold the separator. */
  lemma {:induction false} SplitJoin(parts: seq<string>, c: char)
    requires |parts| >= 1 && forall k :: 0 <= k < |parts| ==> c !in parts[k]
    ensures Split(Join(parts, [c]), c) == parts
    decreases |parts|
  {
    if |parts| == 1 {
      SplitNoSep(parts[0], c);
    } else {
      SplitJoin(parts[1..], c);
      SplitPrefix(parts[0], Join(parts[1..], [c]), c);
      assert parts == [parts[0]] + parts[1..];
    }
  }

  /** `s[:n]`. */
  function Take<T>(s: seq<T>, n: nat): (r: seq<T>)
    ensures |r| == if |s| < n then |s| else n
    ensures r == s[..|r|]
  {
    if |s| < n then s else s[..n]
  }

  /** `s[-n:]`: the last `n` elements, or all of them. */
  function TakeLast<T>(s: seq<T>, n: nat): (r: seq<T>)
    ensures |r| == if |s| < n then |s| else n
    ensures r == s[|s| - |r|..]
  {
    if |s| < n then s else s[|s| - n..]
  }

  /** Joining one more piece adds the separator and the piece. */
  lemma {:induction false} JoinAppend(parts: seq<string>, last: string, sep: string)
    requires |parts| >= 1
    ensures Join(parts + [last], sep) == Join(parts, sep) + sep + last
    decreases |parts|
  {
    if |parts| > 1 {
      assert (parts + [last])[1..] == parts[1..] + [last];
      JoinAppend(parts[1..], last, sep);
    }
  }

  /** An occurrence after the first character is an occurrence in the tail. */
  lemma OccursInTail(s: string, pat: string, i: int)
    requires |s| > 0 && i >= 1
    ensures OccursAt(s, pat, i) <==> OccursAt(s[1..], pat, i - 1)
  {
    if 0 <= i && i + |pat| <= |s| {
      var a := s[1..][i - 1..i - 1 + |pat|];
      var b := s[i..i + |pat|];
      forall k | 0 <= k < |pat|
        ensures a[k] == b[k]
      {
      }
      assert a == b;
    }
  }

  /** Text without the pattern is left alone by `replace`. */
  lemma {:induction false} ReplaceAllNoMatch(s: string, pat: string, rep: string)
    requires |pat| > 0 && !Contains(s, pat)
    ensures ReplaceAll(s, pat, rep) == s
    decreases |s|
  {
    if |s| >= |pat| {
      assert !OccursAt(s, pat, 0);
      forall j | 0 <= j <= |s[1..]| - |pat|
        ensures !OccursAt(s[1..], pat, j)
      {
        OccursInTail(s, pat, j + 1);
      }
      ReplaceAllNoMatch(s[1..], pat, rep);
      assert s == [s[0]] + s[1..];
    }
  }

  /** `replace` rewrites the leftmost occurrence and goes on after it. */
  lemma {:induction false} ReplaceAllAt(s: string, pat: string, rep: string, i: nat)
    requires |pat| > 0 && OccursAt(s, pat, i)
    requires forall j :: 0 <= j < i ==> !OccursAt(s, pat, j)
    ensures ReplaceAll(s, pat, rep) == s[..i] + rep + ReplaceAll(s[i + |pat|..], pat, rep)
    decreases i
  {
    if i == 0 {
      ReplaceAllHere(s, pat, rep);
    } else {
      var t := s[1..];
      ReplaceAllSkip(s, pat, rep);
      FirstInTail(s, pat, i);
      ReplaceAllAt(t, pat, rep, i - 1);
      var r := ReplaceAll(s, pat, rep);
      var rt := ReplaceAll(t, pat, rep);
      var tail := ReplaceAll(t[i - 1 + |pat|..], pat, rep);
      SkipAssemble(s, t, i, |pat|, r, rt, rep, tail);
    }
  }

  /** The leftmost occurrence after the first character is the leftmost
      one in the tail. */
  lemma FirstInTail(s: string, pat: string, i: nat)
    requires |s| > 0 && i >= 1 && OccursAt(s, pat, i)
    requires forall j :: 0 <= j < i ==> !OccursAt(s, pat, j)
    ensures OccursAt(s[1..], pat, i - 1)
    ensures forall j :: 0 <= j < i - 1 ==> !OccursAt(s[1..], pat, j)
  {
    OccursInTail(s, pat, i);
    forall j | 0 <= j < i - 1
      ensures !OccursAt(s[1..], pat, j)
    {
      OccursInTail(s, pat, j + 1);
    }
  }

  lemma ReplaceAllHere(s: string, pat: string, rep: string)
    requires |pat| > 0 && OccursAt(s, pat, 0)
    ensures ReplaceAll(s, pat, rep) == s[..0] + rep + ReplaceAll(s[|pat|..], pat, rep)
  {
    assert s[..|pat|] == s[0..|pat|];
  }

  lemma ReplaceAllSkip(s: string, pat: string, rep: string)
    requires |pat| > 0 && |s| > 0 && !OccursAt(s, pat, 0)
    ensures ReplaceAll(s, pat, rep) == [s[0]] + ReplaceAll(s[1..], pat, rep)
  {
    if |s| >= |pat| {
      assert s[..|pat|] == s[0..|pat|];
    }
  }

  lemma SkipAssemble(s: string, t: string, i: nat, n: nat, r: string, rt: string, rep: string, tail: string)
    requires 0 < i && i + n <= |s| && t == s[1..]
    requires r == [s[0]] + rt && rt == t[..i - 1] + rep + tail
    ensures r == s[..i] + rep + tail
    ensures t[i - 1 + n..] == s[i + n..]
  {
    assert [s[0]] + t[..i - 1] == s[..i];
  }

  /** `replace(pat, rep, 1)` replaces exactly the leftmost occurrence. */
  lemma ReplaceFirstAt(s: string, pat: string, rep: string, i: nat)
    requires |pat| > 0 && OccursAt(s, pat, i)
    requires forall j :: 0 <= j < i ==> !OccursAt(s, pat, j)
    ensures ReplaceFirst(s, pat, rep) == s[..i] + rep + s[i + |pat|..]
  {
    var r := FindFrom(s, pat, 0);
    assert r.Some?;
    assert r.value == i;
  }
}
