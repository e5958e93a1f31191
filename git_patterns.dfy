/** The fixed regular expressions of the two git-safety hooks, written out
    over ASCII, and the protected-branch rule they share.

    Each pattern is `\bgit\s+<word>\b` followed, on the same line, by a
    literal and a word boundary, searched case-insensitively. */
module GitPatterns {
  import opened Text

  /** `\b` at position `i`: a word character on exactly one side. */
  predicate Boundary(s: string, i: nat)
    requires i <= |s|
  {
    (i > 0 && IsWordChar(s[i - 1])) != (i < |s| && IsWordChar(s[i]))
  }

  /** The literal `lit` at `i`, compared case-insensitively. */
  predicate LiteralAt(s: string, lit: string, i: nat) {
    i + |lit| <= |s| && forall k :: 0 <= k < |lit| ==> LowerChar(s[i + k]) == LowerChar(lit[k])
  }

  /** A match of a literal is also a match of each of its prefixes. */
  lemma LiteralPrefix(s: string, lit: string, pre: string, i: nat)
    requires LiteralAt(s, lit, i) && |pre| <= |lit| && pre == lit[..|pre|]
    ensures LiteralAt(s, pre, i)
  {
    forall k | 0 <= k < |pre|
      ensures LowerChar(s[i + k]) == LowerChar(pre[k])
    {
      assert pre[k] == lit[k];
    }
  }

  predicate AllSpace(s: string, i: nat, j: nat)
    requires i <= j <= |s|
  {
    forall k :: i <= k < j ==> IsSpace(s[k])
  }

  /** What `.*` can cover: no line feed. */
  predicate NoNewline(s: string, i: nat, j: nat)
    requires i <= j <= |s|
  {
    forall k :: i <= k < j ==> s[k] != '\n'
  }

  /** `\bgit\s+<word>\b` matched at `i`, the word starting at `j`. */
  predicate GitWordAt(s: string, word: string, i: nat, j: nat) {
    && i + 3 < j
    && j + |word| <= |s|
    && Boundary(s, i)
    && LiteralAt(s, "git", i)
    && AllSpace(s, i + 3, j)
    && LiteralAt(s, word, j)
    && Boundary(s, j + |word|)
  }

  /** `.*<lit>\b` from `k`, with `\b` also in front of the literal when
      `lead` holds. */
  predicate FollowedBy(s: string, lit: string, k: nat, lead: bool)
    requires k <= |s|
  {
    exists p | k <= p <= |s| - |lit| ::
      NoNewline(s, k, p) && (lead ==> Boundary(s, p)) && LiteralAt(s, lit, p) && Boundary(s, p + |lit|)
  }

  /** `re.search(r"\bgit\s+<word>\b.*<lit>\b", s, re.IGNORECASE)`. */
  predicate CommandThen(s: string, word: string, lit: string, lead: bool) {
    exists i, j | 0 <= i < j <= |s| - |word| :: GitWordAt(s, word, i, j) && FollowedBy(s, lit, j + |word|, lead)
  }

  /** `re.search(r"\bgit\s+push\b", s, re.IGNORECASE)`. */
  predicate HasGitPush(s: string) {
    exists i, j | 0 <= i < j <= |s| - 4 :: GitWordAt(s, "push", i, j)
  }

  /** The history-rewriting commands both hooks refuse: an amended commit
      and the three spellings of a forced push. */
  predicate RewritesHistory(s: string) {
    || CommandThen(s, "commit", "--amend", false)
    || CommandThen(s, "push", "--force", false)
    || CommandThen(s, "push", "-f", false)
    || CommandThen(s, "push", "--force-with-lease", false)
  }

  /** `--force-with-lease` always also matches the plain `--force`
      pattern: the `-` after `--force` is a word boundary. */
  lemma WithLeaseIsForce(s: string)
    requires CommandThen(s, "push", "--force-with-lease", false)
    ensures CommandThen(s, "push", "--force", false)
  {
    var i, j :| 0 <= i < j <= |s| - 4 && GitWordAt(s, "push", i, j) && FollowedBy(s, "--force-with-lease", j + 4, false);
    var lit := "--force-with-lease";
    var pre := "--force";
    assert pre == lit[..7] && IsWordChar(lit[6]) && !IsWordChar(lit[7]);
    FollowedByPrefix(s, lit, pre, j + 4);
  }

  /** A literal followed by the pattern's `\b` also matches up to any of its
      prefixes that itself ends at a word boundary. */
  lemma FollowedByPrefix(s: string, lit: string, pre: string, k: nat)
    requires k <= |s| && FollowedBy(s, lit, k, false)
    requires 0 < |pre| < |lit| && pre == lit[..|pre|]
    requires IsWordChar(lit[|pre| - 1]) && !IsWordChar(lit[|pre|])
    ensures FollowedBy(s, pre, k, false)
  {
    var p :| k <= p <= |s| - |lit| && NoNewline(s, k, p) && LiteralAt(s, lit, p) && Boundary(s, p + |lit|);
    LiteralPrefix(s, lit, pre, p);
    var n := |pre|;
    assert LowerChar(s[p + n - 1]) == LowerChar(lit[n - 1]) && LowerChar(s[p + n]) == LowerChar(lit[n]);
    LowerKeepsWordChar(s[p + n - 1]);
    LowerKeepsWordChar(lit[n - 1]);
    LowerKeepsWordChar(s[p + n]);
    LowerKeepsWordChar(lit[n]);
    assert Boundary(s, p + n);
  }

  lemma LowerKeepsWordChar(c: char)
    ensures IsWordChar(LowerChar(c)) <==> IsWordChar(c)
  {
  }

  /** The end of the run of whitespace starting at `i`. */
  function SpaceEnd(s: string, i: nat): (j: nat)
    requires i <= |s|
    ensures i <= j <= |s| && AllSpace(s, i, j)
    ensures j < |s| ==> !IsSpace(s[j])
    decreases |s| - i
  {
    if i < |s| && IsSpace(s[i]) then SpaceEnd(s, i + 1) else i
  }

  /** The whitespace in front of a command word is exactly the maximal
      run, because the word starts with a letter. */
  lemma WordAfterRun(s: string, word: string, i: nat, j: nat)
    requires |word| > 0 && IsLetter(word[0])
    requires GitWordAt(s, word, i, j)
    ensures j == SpaceEnd(s, i + 3)
  {
    assert LowerChar(s[j]) == LowerChar(word[0]);
    assert !IsSpace(s[j]);
  }

  /** `$` after `.*` from `k`: the rest of the text is one line, possibly
      ended by a final line feed. */
  predicate LineEnds(s: string, k: nat)
    requires k <= |s|
  {
    NoNewline(s, k, |s|) || (k < |s| && s[|s| - 1] == '\n' && NoNewline(s, k, |s| - 1))
  }

  /** `\bgit\s+push\b(.*)$` matched at `i`, the word starting at `j`. */
  predicate PushLineAt(s: string, i: nat, j: nat) {
    GitWordAt(s, "push", i, j) && LineEnds(s, j + 4)
  }

  /** Group 1 of that match: the rest of the line after `push`. */
  function PushArgs(s: string, k: nat): (r: string)
    requires k <= |s| && LineEnds(s, k)
    ensures '\n' !in r
    ensures r == s[k..] || (r + "\n" == s[k..])
  {
    if NoNewline(s, k, |s|) then s[k..]
    else
      assert s[k..] == s[k..|s| - 1] + "\n";
      s[k..|s| - 1]
  }

  /** The leftmost match of `\bgit\s+push\b(.*)$` at or after `i`. */
  function PushLineFrom(s: string, i: nat): (r: Option<(nat, nat)>)
    requires i <= |s|
    ensures r.Some? ==> i <= r.value.0 && PushLineAt(s, r.value.0, r.value.1)
    ensures r.Some? ==> forall a, b | i <= a < r.value.0 && a < b <= |s| :: !PushLineAt(s, a, b)
    ensures r.None? ==> forall a, b | i <= a < b <= |s| :: !PushLineAt(s, a, b)
    decreases |s| - i
  {
    if i + 8 > |s| then None
    else
      var j := SpaceEnd(s, i + 3);
      var rest := PushLineFrom(s, i + 1);
      NoPushLineBefore(s, i, j);
      if PushLineAt(s, i, j) then Some((i, j)) else rest
  }

  /** No push line starts at `i` with a word start other than the end of
      the whitespace run. */
  lemma NoPushLineBefore(s: string, i: nat, j: nat)
    requires i + 3 <= |s| && j == SpaceEnd(s, i + 3)
    ensures forall b :: !PushLineAt(s, i, b) || b == j
  {
    forall b | PushLineAt(s, i, b)
      ensures b == j
    {
      WordAfterRun(s, "push", i, b);
    }
  }

  /** No match can start within eight characters of the end. */
  lemma NoPushLineNearEnd(s: string, i: nat)
    requires i <= |s| < i + 8
    ensures forall a, b | i <= a < b <= |s| :: !PushLineAt(s, a, b)
  {
  }

  /** A character `[\w-]` of a long flag. */
  predicate IsFlagChar(c: char) {
    IsWordChar(c) || c == '-'
  }

  /** The end of the run of `[\w-]` starting at `i`. */
  function FlagRunEnd(s: string, i: nat): (j: nat)
    requires i <= |s|
    ensures i <= j <= |s|
    ensures forall k :: i <= k < j ==> IsFlagChar(s[k])
    ensures j < |s| ==> !IsFlagChar(s[j])
    decreases |s| - i
  {
    if i < |s| && IsFlagChar(s[i]) then FlagRunEnd(s, i + 1) else i
  }

  /** `\s*-[a-zA-Z]\b|\s*--[\w-]+` matched at `p`: where the match ends. */
  function FlagMatch(s: string, p: nat): (r: Option<nat>)
    requires p <= |s|
    ensures r.Some? ==> p + 2 <= r.value <= |s|
    ensures r.Some? ==> SpaceEnd(s, p) < |s| && s[SpaceEnd(s, p)] == '-'
  {
    var q := SpaceEnd(s, p);
    if q + 2 <= |s| && s[q] == '-' && IsLetter(s[q + 1]) && Boundary(s, q + 2) then Some(q + 2)
    else if q + 3 <= |s| && s[q] == '-' && s[q + 1] == '-' && IsFlagChar(s[q + 2]) then Some(FlagRunEnd(s, q + 2))
    else None
  }

  /** `re.sub(r"\s*-[a-zA-Z]\b|\s*--[\w-]+", "", s[p..])`: left to right,
      every match is removed and every other character kept. */
  function DropFlags(s: string, p: nat): string
    requires p <= |s|
    decreases |s| - p
  {
    if p == |s| then ""
    else match FlagMatch(s, p)
      case Some(e) => DropFlags(s, e)
      case None => [s[p]] + DropFlags(s, p + 1)
  }

  /** Removing flags never lengthens the text, and text without a `-` is
      kept as it is. */
  lemma {:induction false} DropFlagsShortens(s: string, p: nat)
    requires p <= |s|
    ensures |DropFlags(s, p)| <= |s| - p
    ensures '-' !in s[p..] ==> DropFlags(s, p) == s[p..]
    decreases |s| - p
  {
    if p < |s| {
      match FlagMatch(s, p)
      case Some(e) =>
        DropFlagsShortens(s, e);
        assert s[SpaceEnd(s, p)] in s[p..];
      case None =>
        DropFlagsShortens(s, p + 1);
        assert s[p..] == [s[p]] + s[p + 1..];
    }
  }

  /** The branches the hooks protect. */
  const Protected: set<string> := {"main", "master"}

  /** The iteration orders of the two-element set `{"main", "master"}`;
      which one Python uses depends on string hashing. */
  predicate ProtectedOrder(order: seq<string>) {
    order == ["main", "master"] || order == ["master", "main"]
  }

  /** `\bgit\s+push\b.*\b<branch>\b` */
  predicate NamesBranch(s: string, branch: string) {
    CommandThen(s, "push", branch, true)
  }

  /** The loop over the protected branches: the first one, in `order`,
      that the push names. */
  function FirstNamed(s: string, order: seq<string>): (r: Option<string>)
    ensures r.None? <==> forall k :: 0 <= k < |order| ==> !NamesBranch(s, order[k])
    ensures r.Some? ==> exists k :: (0 <= k < |order| && order[k] == r.value && NamesBranch(s, order[k])
      && forall m :: 0 <= m < k ==> !NamesBranch(s, order[m]))
    decreases |order|
  {
    if |order| == 0 then None
    else if NamesBranch(s, order[0]) then Some(order[0])
    else
      var r := FirstNamed(s, order[1..]);
      assert forall k :: 1 <= k < |order| ==> order[k] == order[1..][k - 1];
      r
  }

  function ExplicitMessage(branch: string): string {
    "git push to " + branch + " is not allowed - use a PR"
  }

  function OnBranchMessage(branch: string): string {
    "git push while on " + branch + " is not allowed - use a PR"
  }

  /** The words left of the push arguments once flags are removed. */
  function PushTargets(s: string, k: nat): seq<string>
    requires k <= |s| && LineEnds(s, k)
  {
    var args := Strip(PushArgs(s, k));
    Words(Strip(DropFlags(args, 0)))
  }

  /** A bare push: the push line names at most a remote. */
  predicate BarePush(s: string) {
    match PushLineFrom(s, 0)
    case None => false
    case Some((i, j)) => |PushTargets(s, j + 4)| <= 1
  }

  /** `is_push_to_protected_branch`, with the branch `get_current_branch`
      reports and the set's iteration order given. */
  function ProtectedPushError(s: string, order: seq<string>, current: Option<string>): (r: Option<string>)
    requires ProtectedOrder(order)
  {
    if !HasGitPush(s) then None
    else match FirstNamed(s, order)
      case Some(b) => Some(ExplicitMessage(b))
      case None =>
        if BarePush(s) && current.Some? && current.value in Protected then Some(OnBranchMessage(current.value))
        else None
  }

  /** The rule spelled out: only a push can be refused; a push naming a
      protected branch is refused with that branch (the first in `order`
      when it names both); otherwise a bare push is refused exactly when
      the current branch is protected. */
  lemma ProtectedPushPolicy(s: string, order: seq<string>, current: Option<string>)
    requires ProtectedOrder(order)
    ensures ProtectedPushError(s, order, current).Some? ==> HasGitPush(s)
    ensures HasGitPush(s) && NamesBranch(s, order[0]) ==>
      ProtectedPushError(s, order, current) == Some(ExplicitMessage(order[0]))
    ensures HasGitPush(s) && !NamesBranch(s, order[0]) && NamesBranch(s, order[1]) ==>
      ProtectedPushError(s, order, current) == Some(ExplicitMessage(order[1]))
    ensures !NamesBranch(s, "main") && !NamesBranch(s, "master") ==>
      (ProtectedPushError(s, order, current).Some? <==>
        HasGitPush(s) && BarePush(s) && current.Some? && current.value in Protected)
    ensures !NamesBranch(s, "main") && !NamesBranch(s, "master") && ProtectedPushError(s, order, current).Some? ==>
      ProtectedPushError(s, order, current) == Some(OnBranchMessage(current.value))
  {
    var f := FirstNamed(s, order);
    if NamesBranch(s, order[0]) {
      assert f == Some(order[0]);
    }
  }

  /** Naming a protected branch counts as a push, so the first check of
      the rule never hides the second. */
  lemma NamingIsPushing(s: string, branch: string)
    requires NamesBranch(s, branch)
    ensures HasGitPush(s)
  {
    var i, j :| 0 <= i < j <= |s| - 4 && GitWordAt(s, "push", i, j) && FollowedBy(s, branch, j + 4, true);
  }

  /** A push that names only one protected branch gets the same answer
      whichever order the set is iterated in. */
  lemma OrderIrrelevantForOneBranch(s: string, current: Option<string>)
    requires !(NamesBranch(s, "main") && NamesBranch(s, "master"))
    ensures ProtectedPushError(s, ["main", "master"], current) == ProtectedPushError(s, ["master", "main"], current)
  {
    var o1: seq<string> := ["main", "master"];
    var o2: seq<string> := ["master", "main"];
    ProtectedPushPolicy(s, o1, current);
    ProtectedPushPolicy(s, o2, current);
    if NamesBranch(s, "main") {
      NamingIsPushing(s, "main");
    } else if NamesBranch(s, "master") {
      NamingIsPushing(s, "master");
    }
  }
}
