/** The global regular-expression replace of JavaScript (`s.replace(/re/g, f)`,
    `s.replaceAll(...)`, `s.match(/re/g)`), with the regular expression given
    as a matcher: a function that says whether a match starts at a position,
    where it ends and what replaces it. The scan tries each position from left
    to right; after a match it resumes at the end of the match, otherwise it
    keeps the character and moves one position on. */
module Rewrite {
  import opened Optional
  import opened Strings

  /** A match ending before `end` (exclusive) and its replacement text (or,
      when used for `match`, the captured text). */
  datatype Hit = Hit(end: nat, out: string)

  type Matcher = (string, nat) -> Option<Hit>

  /** A match that starts at `i` is non-empty and lies inside `s`. */
  predicate Fires(s: string, i: nat, m: Matcher) {
    var h := m(s, i);
    h.Some? && i < h.value.end <= |s|
  }

  /** The replacement of every match of `m` in `s[i..]`; where no match is
      found the text is returned as it is. */
  function ReplaceFrom(s: string, i: nat, m: Matcher): (r: string)
    ensures i <= |s| && MatchesFrom(s, i, m) == [] ==> r == s[i..]
    decreases |s| - i
  {
    if i >= |s| then ""
    else if Fires(s, i, m) then m(s, i).value.out + ReplaceFrom(s, m(s, i).value.end, m)
    else
      var rest := ReplaceFrom(s, i + 1, m);
      assert s[i..] == [s[i]] + s[i + 1..];
      [s[i]] + rest
  }

  function ReplaceAll(s: string, m: Matcher): string {
    ReplaceFrom(s, 0, m)
  }

  /** The outputs of every match of `m` in `s[i..]`, in order: `s.match(/re/g)`. */
  function MatchesFrom(s: string, i: nat, m: Matcher): seq<string>
    decreases |s| - i
  {
    if i >= |s| then []
    else if Fires(s, i, m) then [m(s, i).value.out] + MatchesFrom(s, m(s, i).value.end, m)
    else MatchesFrom(s, i + 1, m)
  }

  function Matches(s: string, m: Matcher): seq<string> {
    MatchesFrom(s, 0, m)
  }

  /** Positions where no match starts are copied unchanged. */
  lemma CopyUntil(s: string, i: nat, j: nat, m: Matcher)
    requires i <= j <= |s|
    requires forall k | i <= k < j :: !Fires(s, k, m)
    ensures ReplaceFrom(s, i, m) == s[i..j] + ReplaceFrom(s, j, m)
    ensures MatchesFrom(s, i, m) == MatchesFrom(s, j, m)
  {
    CopyText(s, i, j, m);
    SkipMatches(s, i, j, m);
  }

  lemma {:induction false} CopyText(s: string, i: nat, j: nat, m: Matcher)
    requires i <= j <= |s|
    requires forall k | i <= k < j :: !Fires(s, k, m)
    ensures ReplaceFrom(s, i, m) == s[i..j] + ReplaceFrom(s, j, m)
    decreases j - i
  {
    if i < j {
      var rest := ReplaceFrom(s, j, m);
      calc {
        ReplaceFrom(s, i, m);
      == { SkipOne(s, i, m); }
        [s[i]] + ReplaceFrom(s, i + 1, m);
      == { CopyText(s, i + 1, j, m); }
        [s[i]] + (s[i + 1..j] + rest);
      == { ConsSlice(s, i, j, rest); }
        s[i..j] + rest;
      }
    }
  }

  lemma ConsSlice(s: string, i: nat, j: nat, rest: string)
    requires i < j <= |s|
    ensures [s[i]] + (s[i + 1..j] + rest) == s[i..j] + rest
  {
    assert s[i..j] == [s[i]] + s[i + 1..j];
  }

  lemma {:induction false} SkipMatches(s: string, i: nat, j: nat, m: Matcher)
    requires i <= j <= |s|
    requires forall k | i <= k < j :: !Fires(s, k, m)
    ensures MatchesFrom(s, i, m) == MatchesFrom(s, j, m)
    decreases j - i
  {
    if i < j {
      SkipOne(s, i, m);
      SkipMatches(s, i + 1, j, m);
    }
  }

  /** A position where no match starts contributes its own character. */
  lemma SkipOne(s: string, i: nat, m: Matcher)
    requires i < |s| && !Fires(s, i, m)
    ensures ReplaceFrom(s, i, m) == [s[i]] + ReplaceFrom(s, i + 1, m)
    ensures MatchesFrom(s, i, m) == MatchesFrom(s, i + 1, m)
  {
  }

  /** A match at `i` contributes its output and resumes at its end. */
  lemma TakeOne(s: string, i: nat, m: Matcher, e: nat, out: string)
    requires i < e <= |s| && m(s, i) == Some(Hit(e, out))
    ensures ReplaceFrom(s, i, m) == out + ReplaceFrom(s, e, m)
    ensures MatchesFrom(s, i, m) == [out] + MatchesFrom(s, e, m)
  {
  }

  /** Text that is exactly one match becomes that match's output. */
  lemma WholeMatch(s: string, m: Matcher, out: string)
    requires |s| > 0 && m(s, 0) == Some(Hit(|s|, out))
    ensures ReplaceAll(s, m) == out
  {
    assert Fires(s, 0, m);
    assert ReplaceFrom(s, |s|, m) == "";
  }

  /** Text in which no match starts is left as it is, and has no matches. */
  lemma NoMatchIdentity(s: string, m: Matcher)
    requires forall k | 0 <= k < |s| :: !Fires(s, k, m)
    ensures ReplaceAll(s, m) == s
    ensures Matches(s, m) == []
  {
    CopyUntil(s, 0, |s|, m);
  }

  /** Every match of `m` starts at the character `c`. */
  ghost predicate StartsOnlyWith(m: Matcher, c: char) {
    forall s: string, i: nat :: Fires(s, i, m) ==> s[i] == c
  }

  /** Text that lacks the character every match starts with is left as it
      is, and has no matches. */
  lemma AbsentStartUnchanged(s: string, m: Matcher, c: char)
    requires StartsOnlyWith(m, c)
    ensures c !in s ==> ReplaceAll(s, m) == s && Matches(s, m) == []
  {
    if c !in s {
      forall k | 0 <= k < |s| ensures !Fires(s, k, m) {
        assert s[k] in s;
      }
      NoMatchIdentity(s, m);
    }
  }

  /** A literal pattern: `s.replaceAll(pattern, replacement)` for a plain string. */
  function LiteralAt(pattern: string, replacement: string): (r: Matcher)
    ensures |pattern| > 0 ==> StartsOnlyWith(r, pattern[0])
  {
    (s: string, i: nat) =>
      if |pattern| > 0 && i <= |s| && StartsWith(s[i..], pattern)
      then Some(Hit(i + |pattern|, replacement)) else None
  }

  /** Replacing a literal pattern in text that does not contain its first
      character changes nothing. */
  lemma LiteralAbsent(s: string, pattern: string, replacement: string)
    requires |pattern| > 0 && pattern[0] !in s
    ensures ReplaceAll(s, LiteralAt(pattern, replacement)) == s
  {
    forall k | 0 <= k < |s|
      ensures !Fires(s, k, LiteralAt(pattern, replacement))
    {
      assert s[k] in s;
      assert s[k..][0] != pattern[0];
    }
    NoMatchIdentity(s, LiteralAt(pattern, replacement));
  }
}
