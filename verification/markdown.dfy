/** The whole-text passes of `src/lib/markdown.ts` that surround the line
    scanner: display names and mention resolution, the link and mention
    pre-pass of `processMarkdownContent`, the jumbo-emoji test of
    `shouldUseJumboEmojis`, the custom-emoji post-pass, and the snowflake
    timestamp. */
module Markdown {
  import opened Optional
  import opened Strings
  import opened Rewrite
  import opened DiscordApi
  import Utils
  import Inline

  // ----- first match -----

  /** `xs.find(p)`, as an index: the first element satisfying `p`. */
  function FindFirst<T>(xs: seq<T>, p: T -> bool): (r: Option<nat>)
    ensures r.Some? ==> r.value < |xs| && p(xs[r.value]) && forall k | 0 <= k < r.value :: !p(xs[k])
    ensures r.None? ==> forall k | 0 <= k < |xs| :: !p(xs[k])
  {
    if |xs| == 0 then None
    else if p(xs[0]) then Some(0)
    else
      match FindFirst(xs[1..], p)
      case None => None
      case Some(k) => Some(k + 1)
  }

  // ----- display names and mentions -----

  /** The names a user is shown by, in order of preference. */
  function NameCandidates(user: User, member: Option<Member>): seq<Option<string>> {
    [if member.Some? then member.value.nick else None, user.globalName, Some(user.username)]
  }

  /** `a || b || …`: the first truthy candidate. */
  function FirstTruthy(cands: seq<Option<string>>): (r: Option<string>)
    ensures r.None? <==> forall k | 0 <= k < |cands| :: !Truthy(cands[k])
    ensures r.Some? ==>
      exists k | 0 <= k < |cands| :: Truthy(cands[k]) && r == cands[k]
        && forall j | 0 <= j < k :: !Truthy(cands[j])
  {
    if |cands| == 0 then None
    else if Truthy(cands[0]) then cands[0]
    else
      var rest := FirstTruthy(cands[1..]);
      assert forall k | 1 <= k < |cands| :: cands[k] == cands[1..][k - 1];
      rest
  }

  /** `getDisplayName`: the first non-empty of the member's nickname, the
      global name and the user name, and "Unknown User" when all are empty or
      there is no user. */
  function GetDisplayName(user: Option<User>, member: Option<Member>): (r: string)
    ensures r != ""
    ensures user.None? ==> r == "Unknown User"
    ensures user.Some? ==> r == FirstTruthy(NameCandidates(user.value, member)).GetOr("Unknown User")
  {
    if user.None? then "Unknown User"
    else
      var nick := if member.Some? then member.value.nick else None;
      var c := NameCandidates(user.value, member);
      assert c[1..][1..] == [c[2]] && c[1..][1..][1..] == [];
      Or(Or(Or(nick, user.value.globalName), Some(user.value.username)), Some("Unknown User")).value
  }

  datatype MentionContext = MentionContext(
    members: seq<Member>,
    roles: seq<Role>,
    channels: seq<Channel>)

  /** `resolveUserMention`: the display name of the first member with the id. */
  function ResolveUser(id: string, ctx: MentionContext): (r: string)
    ensures (forall k | 0 <= k < |ctx.members| :: ctx.members[k].user.id != id) ==> r == "Unknown User"
    ensures forall k | 0 <= k < |ctx.members| && ctx.members[k].user.id == id
                       && (forall j | 0 <= j < k :: ctx.members[j].user.id != id) ::
      r == GetDisplayName(Some(ctx.members[k].user), Some(ctx.members[k]))
  {
    match FindFirst(ctx.members, (m: Member) => m.user.id == id)
    case Some(k) => GetDisplayName(Some(ctx.members[k].user), Some(ctx.members[k]))
    case None => "Unknown User"
  }

  /** `resolveRoleMention`: the name of the first role with the id. */
  function ResolveRole(id: string, ctx: MentionContext): (r: string)
    ensures (forall k | 0 <= k < |ctx.roles| :: ctx.roles[k].id != id) ==> r == "Unknown Role"
    ensures forall k | 0 <= k < |ctx.roles| && ctx.roles[k].id == id
                       && (forall j | 0 <= j < k :: ctx.roles[j].id != id) ::
      r == ctx.roles[k].name
  {
    match FindFirst(ctx.roles, (x: Role) => x.id == id)
    case Some(k) => ctx.roles[k].name
    case None => "Unknown Role"
  }

  /** `resolveChannelMention`: the name of the first channel with the id,
      "Unknown Channel" when there is none or its name is empty. */
  function ResolveChannel(id: string, ctx: MentionContext): (r: string)
    ensures r != ""
    ensures (forall k | 0 <= k < |ctx.channels| :: ctx.channels[k].id != id) ==> r == "Unknown Channel"
    ensures forall k | 0 <= k < |ctx.channels| && ctx.channels[k].id == id
                       && (forall j | 0 <= j < k :: ctx.channels[j].id != id) ::
      r == ctx.channels[k].name.GetOr("Unknown Channel") || (r == "Unknown Channel" && !Truthy(ctx.channels[k].name))
  {
    match FindFirst(ctx.channels, (c: Channel) => c.id == id)
    case Some(k) => Or(ctx.channels[k].name, Some("Unknown Channel")).value
    case None => "Unknown Channel"
  }

  function MentionTag(kind: string, body: string): string {
    "<discord-mention type=\"" + kind + "\">" + body + "</discord-mention>"
  }

  /** `/<prefix(\d{18,21})>/g` replaced by a mention of the resolved id. An id
      of fewer than 18 or more than 21 digits does not match. */
  function MentionAt(prefix: string, kind: string, resolve: string -> string): (r: Matcher)
    ensures |prefix| > 0 ==> StartsOnlyWith(r, prefix[0])
  {
    (s: string, i: nat) => MentionHit(s, i, prefix, kind, resolve)
  }

  function MentionHit(s: string, i: nat, prefix: string, kind: string, resolve: string -> string): Option<Hit> {
    if i <= |s| && StartsWith(s[i..], prefix) then
      var a := i + |prefix|;
      var n := RunLength(s, a, IsDigit);
      var e := a + n;
      if 18 <= n <= 21 && e < |s| && s[e] == '>'
      then Some(Hit(e + 1, MentionTag(kind, resolve(s[a..e]))))
      else None
    else None
  }

  /** The three mention passes; without a context the raw id is shown.
      Text without `<` holds no mention and is left as it is. */
  function Mentions(s: string, ctx: Option<MentionContext>): (r: string)
    ensures '<' !in s ==> r == s
  {
    match ctx
    case Some(c) =>
      MentionPasses(s, id => ResolveUser(id, c), id => ResolveRole(id, c), id => ResolveChannel(id, c))
    case None =>
      MentionPasses(s, id => id, id => id, id => id)
  }

  function MentionPasses(s: string, user: string -> string, role: string -> string, channel: string -> string): (r: string)
    ensures '<' !in s ==> r == s
  {
    var users := ReplaceAll(s, MentionAt("<@", "user", user));
    AbsentStartUnchanged(s, MentionAt("<@", "user", user), '<');
    var roles := ReplaceAll(users, MentionAt("<@&", "role", role));
    AbsentStartUnchanged(users, MentionAt("<@&", "role", role), '<');
    AbsentStartUnchanged(roles, MentionAt("<#", "channel", channel), '<');
    ReplaceAll(roles, MentionAt("<#", "channel", channel))
  }

  /** A lone user mention of a valid-length id becomes one mention tag. */
  lemma UserMentionAlone(id: string, resolve: string -> string)
    requires AllDigits(id) && 18 <= |id| <= 21
    ensures ReplaceAll("<@" + id + ">", MentionAt("<@", "user", resolve))
         == MentionTag("user", resolve(id))
  {
    WholeMention("<@", id, "user", resolve);
  }

  /** A mention prefix followed by a well-formed id and `>` is one whole match. */
  lemma WholeMention(prefix: string, id: string, kind: string, resolve: string -> string)
    requires |prefix| > 0 && AllDigits(id) && 18 <= |id| <= 21
    ensures ReplaceAll(prefix + id + ">", MentionAt(prefix, kind, resolve)) == MentionTag(kind, resolve(id))
  {
    var s := prefix + id + ">";
    var a := |prefix|;
    assert forall k | a <= k < a + |id| :: s[k] == id[k - a];
    assert s[a + |id|] == '>';
    RunUpTo(s, a, a + |id|, IsDigit);
    assert s[a..a + |id|] == id;
    assert s[0..] == s && StartsWith(s, prefix);
    assert MentionHit(s, 0, prefix, kind, resolve) == Some(Hit(|s|, MentionTag(kind, resolve(id))));
    WholeMatch(s, MentionAt(prefix, kind, resolve), MentionTag(kind, resolve(id)));
  }

  /** No mention pass fires anywhere in a mention whose id has a bad length. */
  lemma NoMentionFires(prefix: string, id: string, p: string, kind: string, resolve: string -> string)
    requires prefix in ["<@", "<@&", "<#"] && p in ["<@", "<@&", "<#"]
    requires AllDigits(id) && (|id| < 18 || |id| > 21)
    ensures forall k | 0 <= k < |prefix + id + ">"| :: !Fires(prefix + id + ">", k, MentionAt(p, kind, resolve))
  {
    var s := prefix + id + ">";
    forall k | 0 <= k < |s| ensures !Fires(s, k, MentionAt(p, kind, resolve)) {
      if k > 0 {
        assert s[k] != '<' by {
          if k < |prefix| {
            assert s[k] == prefix[k];
          } else if k < |prefix| + |id| {
            assert s[k] == id[k - |prefix|];
          }
        }
        NoMentionOffAngle(s, k, p, kind, resolve);
      } else {
        NoMentionAtStart(prefix, id, p, kind, resolve);
      }
    }
  }

  /** A mention starts with `<`. */
  lemma NoMentionOffAngle(s: string, k: nat, p: string, kind: string, resolve: string -> string)
    requires k < |s| && s[k] != '<' && |p| > 0 && p[0] == '<'
    ensures !Fires(s, k, MentionAt(p, kind, resolve))
  {
    assert s[k..][0] == s[k];
  }

  lemma NoMentionAtStart(prefix: string, id: string, p: string, kind: string, resolve: string -> string)
    requires prefix in ["<@", "<@&", "<#"] && p in ["<@", "<@&", "<#"]
    requires AllDigits(id) && (|id| < 18 || |id| > 21)
    ensures !Fires(prefix + id + ">", 0, MentionAt(p, kind, resolve))
  {
    if p == prefix {
      OwnPrefixBadLength(prefix, id, kind, resolve);
    } else if prefix == "<@&" && p == "<@" {
      RoleIsNotUser(id, kind, resolve);
    } else if prefix == "<@" && p == "<@&" {
      UserIsNotRole(id, kind, resolve);
    } else {
      assert prefix[1] != p[1];
      SecondCharDiffers(prefix + id + ">", p, kind, resolve);
    }
  }

  /** The pass for the mention's own prefix reads the whole id, whose length
      is out of range. */
  lemma OwnPrefixBadLength(p: string, id: string, kind: string, resolve: string -> string)
    requires AllDigits(id) && (|id| < 18 || |id| > 21)
    ensures !Fires(p + id + ">", 0, MentionAt(p, kind, resolve))
  {
    var s := p + id + ">";
    assert s[0..] == s && s[..|p|] == p;
    assert forall k | |p| <= k < |p| + |id| :: s[k] == id[k - |p|];
    RunUpTo(s, |p|, |p| + |id|, IsDigit);
  }

  /** In `<@&…>` the user pass finds `&` where its digits should start. */
  lemma RoleIsNotUser(id: string, kind: string, resolve: string -> string)
    ensures !Fires("<@&" + id + ">", 0, MentionAt("<@", kind, resolve))
  {
    var s := "<@&" + id + ">";
    assert s[0..] == s && s[..2] == "<@";
    assert s[2] == '&';
    RunUpTo(s, 2, 2, IsDigit);
  }

  /** `<@` followed by a digit or `>` is not `<@&`. */
  lemma UserIsNotRole(id: string, kind: string, resolve: string -> string)
    requires AllDigits(id)
    ensures !Fires("<@" + id + ">", 0, MentionAt("<@&", kind, resolve))
  {
    var s := "<@" + id + ">";
    assert s[0..] == s;
    assert s[2] != '&' by {
      if |id| > 0 {
        assert s[2] == id[0];
      } else {
        assert s[2] == '>';
      }
    }
    assert s[..3] != "<@&" by {
      assert s[..3][2] == s[2];
    }
  }

  /** A pass whose prefix differs from the text in its second character does
      not fire at the start. */
  lemma SecondCharDiffers(s: string, p: string, kind: string, resolve: string -> string)
    requires |s| > 1 && |p| > 1 && s[1] != p[1]
    ensures !Fires(s, 0, MentionAt(p, kind, resolve))
  {
    assert s[0..] == s;
    assert |p| <= |s| ==> s[..|p|][1] == s[1];
  }

  /** A mention whose id is too short or too long is left literal by every
      mention pass. */
  lemma BadLengthMentionLiteral(prefix: string, id: string, ctx: Option<MentionContext>)
    requires prefix in ["<@", "<@&", "<#"]
    requires AllDigits(id) && (|id| < 18 || |id| > 21)
    ensures Mentions(prefix + id + ">", ctx) == prefix + id + ">"
  {
    var s := prefix + id + ">";
    match ctx {
      case Some(c) =>
        NoMentionFires(prefix, id, "<@", "user", id => ResolveUser(id, c));
        NoMatchIdentity(s, MentionAt("<@", "user", id => ResolveUser(id, c)));
        NoMentionFires(prefix, id, "<@&", "role", id => ResolveRole(id, c));
        NoMatchIdentity(s, MentionAt("<@&", "role", id => ResolveRole(id, c)));
        NoMentionFires(prefix, id, "<#", "channel", id => ResolveChannel(id, c));
        NoMatchIdentity(s, MentionAt("<#", "channel", id => ResolveChannel(id, c)));
      case None =>
        NoMentionFires(prefix, id, "<@", "user", id => id);
        NoMatchIdentity(s, MentionAt("<@", "user", id => id));
        NoMentionFires(prefix, id, "<@&", "role", id => id);
        NoMatchIdentity(s, MentionAt("<@&", "role", id => id));
        NoMentionFires(prefix, id, "<#", "channel", id => id);
        NoMatchIdentity(s, MentionAt("<#", "channel", id => id));
    }
  }

  // ----- links -----

  /** The scheme `https?:\/\/` at `j`: its length, or 0. */
  function SchemeLength(s: string, j: nat): (n: nat)
    ensures n in {0, 7, 8}
    ensures n > 0 ==> j + n <= |s|
  {
    if j <= |s| && StartsWith(s[j..], "https://") then 8
    else if j <= |s| && StartsWith(s[j..], "http://") then 7
    else 0
  }

  /** `/\[([^\]]+)\]\(([^)]+)\)/`: the end, the text and the URL of a
      markdown link at `i`. */
  function MarkdownLinkFields(s: string, i: nat): (r: Option<(nat, string, string)>)
    ensures r.Some? ==>
      i < r.value.0 <= |s| && |r.value.1| > 0 && |r.value.2| > 0
      && s[i..r.value.0] == "[" + r.value.1 + "](" + r.value.2 + ")"
      && ']' !in r.value.1 && ')' !in r.value.2
  {
    if i < |s| && s[i] == '[' then
      var a := RunLength(s, i + 1, NotCloseBracket);
      var b := i + 1 + a;
      if a > 0 && b + 1 < |s| && s[b] == ']' && s[b + 1] == '(' then
        var u := RunLength(s, b + 2, NotCloseParen);
        var e := b + 2 + u;
        if u > 0 && e < |s| && s[e] == ')' then
          SpellLink(s, i, b, e);
          SliceAll(s, i + 1, b, NotCloseBracket);
          SliceAll(s, b + 2, e, NotCloseParen);
          Some((e + 1, s[i + 1..b], s[b + 2..e]))
        else None
      else None
    else None
  }

  predicate NotCloseBracket(c: char) { c != ']' }
  predicate NotCloseParen(c: char) { c != ')' }
  predicate NotColon(c: char) { c != ':' }

  lemma SpellLink(s: string, i: nat, b: nat, e: nat)
    requires i < b && b + 2 <= e < |s|
    requires s[i] == '[' && s[b] == ']' && s[b + 1] == '(' && s[e] == ')'
    ensures s[i..e + 1] == "[" + s[i + 1..b] + "](" + s[b + 2..e] + ")"
  {
    var t := s[b + 2..e] + ")";
    assert s[b + 2..e + 1] == t by {
      SliceSplit(s, b + 2, e, e + 1);
      assert s[e..e + 1] == ")";
    }
    var u := "](" + t;
    assert s[b..e + 1] == u by {
      SliceSplit(s, b, b + 2, e + 1);
      assert s[b..b + 2] == "](";
    }
    var v := s[i + 1..b] + u;
    assert s[i + 1..e + 1] == v by {
      SliceSplit(s, i + 1, b, e + 1);
    }
    assert s[i..e + 1] == "[" + v by {
      SliceSplit(s, i, i + 1, e + 1);
      assert s[i..i + 1] == "[";
    }
    Assoc4("[", s[i + 1..b], "](", s[b + 2..e], ")");
  }

  predicate IsAngleUrlChar(c: char) { !IsJsSpace(c) && c != '>' }

  /** `/<(https?:\/\/[^\s>]+)>/`: the end and the URL of an angle-bracketed link at `i`. */
  function AngleUrlFields(s: string, i: nat): (r: Option<(nat, string)>)
    ensures r.Some? ==> i < r.value.0 <= |s| && s[i..r.value.0] == "<" + r.value.1 + ">"
  {
    if i < |s| && s[i] == '<' then
      var n := SchemeLength(s, i + 1);
      if n > 0 then
        var q := i + 1 + n + RunLength(s, i + 1 + n, IsAngleUrlChar);
        if q > i + 1 + n && q < |s| && s[q] == '>' then
          assert s[i..q + 1] == "<" + s[i + 1..q] + ">";
          Some((q + 1, s[i + 1..q]))
        else None
      else None
    else None
  }

  predicate IsBareUrlChar(c: char) { !IsJsSpace(c) && c != '<' }

  /** A negative lookbehind: none of `ps` ends at `i`. */
  predicate NotAfter(s: string, i: nat, ps: seq<string>)
    requires i <= |s|
  {
    forall p | p in ps :: !EndsWith(s[..i], p)
  }

  /** `(?=[^<]*closer)`: the first `<` at or after `e` opens `closer`. */
  predicate CloserAhead(s: string, e: nat, closer: string)
    requires e <= |s|
  {
    var k := IndexOfFrom(s, e, '<');
    k >= 0 && StartsWith(s[k..], closer)
  }

  /** `(?="[^>]*>)`: a quote at `e` with a `>` somewhere after it. */
  predicate QuotedTagAhead(s: string, e: nat)
    requires e <= |s|
  {
    e < |s| && s[e] == '"' && IndexOfFrom(s, e + 1, '>') >= 0
  }

  predicate Blocked(s: string, e: nat, closer: string, quoted: bool)
    requires e <= |s|
  {
    CloserAhead(s, e, closer) || (quoted && QuotedTagAhead(s, e))
  }

  /** The negative lookahead as a test on ends: `Blocked` at an end inside `s`. */
  function BlockedAt(s: string, closer: string, quoted: bool): nat -> bool {
    (k: nat) => k <= |s| && Blocked(s, k, closer, quoted)
  }

  /** Backtracking over the greedy URL run: the longest end in `(lo, e]`
      that the negative lookahead `blocked` does not reject. */
  function LastUnblocked(lo: nat, e: nat, blocked: nat -> bool): (r: Option<nat>)
    ensures r.Some? ==>
      lo < r.value <= e && !blocked(r.value)
      && forall k | r.value < k <= e :: blocked(k)
    ensures r.None? ==> forall k | lo < k <= e :: blocked(k)
    decreases e
  {
    if e <= lo then None
    else if !blocked(e) then Some(e)
    else LastUnblocked(lo, e - 1, blocked)
  }

  /** The end of a bare URL at `i`: `(?<!behind)(https?:\/\/[^\s<]+)(?!…)`,
      where the lookahead is `[^<]*closer`, or that or `"[^>]*>` when `quoted`. */
  function BareUrlEnd(s: string, i: nat, behind: seq<string>, closer: string, quoted: bool): (r: Option<nat>)
    ensures r.Some? ==> i < r.value <= |s|
  {
    if i < |s| && NotAfter(s, i, behind) then
      var n := SchemeLength(s, i);
      if n > 0 then
        var q := i + n + RunLength(s, i + n, IsBareUrlChar);
        LastUnblocked(i + n, q, BlockedAt(s, closer, quoted))
      else None
    else None
  }

  /** No `<` in `s[e..q]`: the first `<` from `e` is the first from `q`. */
  lemma {:induction false} IndexOfSkip(s: string, e: nat, q: nat, c: char)
    requires e <= q <= |s|
    requires forall k | e <= k < q :: s[k] != c
    ensures IndexOfFrom(s, e, c) == IndexOfFrom(s, q, c)
    decreases q - e
  {
    if e < q {
      IndexOfSkip(s, e + 1, q, c);
    }
  }

  /** The backtracking never changes the outcome: a bare URL is the whole
      greedy run, unless the closer follows it, in which case there is no
      match at all. In particular the `"[^>]*>` alternative never decides. */
  lemma BareUrlWholeRun(s: string, i: nat, behind: seq<string>, closer: string, quoted: bool)
    requires i < |s| && NotAfter(s, i, behind) && SchemeLength(s, i) > 0
    requires |closer| > 0 && closer[0] == '<'
    ensures var n := SchemeLength(s, i);
            var q := i + n + RunLength(s, i + n, IsBareUrlChar);
            BareUrlEnd(s, i, behind, closer, quoted)
              == if q == i + n || CloserAhead(s, q, closer) then None else Some(q)
  {
    var n := SchemeLength(s, i);
    var q := i + n + RunLength(s, i + n, IsBareUrlChar);
    BareUrlEndBacktracks(s, i, behind, closer, quoted);
    RunEndBlocked(s, i + n, q, closer, quoted);
  }

  lemma BareUrlEndBacktracks(s: string, i: nat, behind: seq<string>, closer: string, quoted: bool)
    requires i < |s| && NotAfter(s, i, behind) && SchemeLength(s, i) > 0
    ensures var n := SchemeLength(s, i);
            BareUrlEnd(s, i, behind, closer, quoted)
              == LastUnblocked(i + n, i + n + RunLength(s, i + n, IsBareUrlChar), BlockedAt(s, closer, quoted))
  {
  }

  /** At the end `q` of a URL run the quoted alternative cannot fire, so the
      run end is blocked exactly when the closer follows; and when it is,
      every shorter end is blocked too. */
  lemma RunEndBlocked(s: string, lo: nat, q: nat, closer: string, quoted: bool)
    requires lo <= q <= |s|
    requires forall k | lo <= k < q :: IsBareUrlChar(s[k])
    requires q == |s| || !IsBareUrlChar(s[q])
    requires |closer| > 0 && closer[0] == '<'
    ensures LastUnblocked(lo, q, BlockedAt(s, closer, quoted))
              == if q == lo || CloserAhead(s, q, closer) then None else Some(q)
  {
    assert !QuotedTagAhead(s, q);
    if q > lo && CloserAhead(s, q, closer) {
      forall k | lo < k <= q ensures BlockedAt(s, closer, quoted)(k) {
        IndexOfSkip(s, k, q, '<');
      }
    }
  }

  /** A link or an image placeholder, depending on the URL and the flag. */
  function LinkOrImage(url: string, text: string, renderImages: bool): string {
    if Utils.IsImageUrl(url) && renderImages then Inline.ImagePlaceholder(url, text)
    else Inline.LinkMarkup(url, text)
  }

  function MarkdownLinkAt(renderImages: bool): (r: Matcher)
    ensures StartsOnlyWith(r, '[')
  {
    (s: string, i: nat) =>
      match MarkdownLinkFields(s, i)
      case Some((e, text, url)) => Some(Hit(e, LinkOrImage(url, text, renderImages)))
      case None => None
  }

  function AngleUrlAt(renderImages: bool): (r: Matcher)
    ensures StartsOnlyWith(r, '<')
  {
    (s: string, i: nat) =>
      match AngleUrlFields(s, i)
      case Some((e, url)) =>
        Some(Hit(e, if Utils.IsImageUrl(url) && renderImages then Inline.ImagePlaceholder(url, "Image")
                    else Inline.LinkMarkup(url, url)))
      case None => None
  }

  const LinkBehind: seq<string> := ["href=\"", "\">", "data-url=\""]

  function BareUrlAt(renderImages: bool): (r: Matcher)
    ensures StartsOnlyWith(r, 'h')
  {
    BareUrlStarts();
    (s: string, i: nat) =>
      match BareUrlEnd(s, i, LinkBehind, "</discord-link>", true)
      case Some(e) =>
        var url := s[i..e];
        Some(Hit(e, if Utils.IsImageUrl(url) && renderImages then Inline.ImagePlaceholder(url, "Image")
                    else Inline.LinkMarkup(url, url)))
      case None => None
  }

  /** `processMarkdownContent`: the three link passes, `_ _` to `<br/>`, then
      the mention passes. */
  function ProcessMarkdownContent(markdown: string, ctx: Option<MentionContext>, renderImages: bool): (r: string)
    ensures '[' !in markdown && '<' !in markdown && 'h' !in markdown && '_' !in markdown ==> r == markdown
  {
    var links := ReplaceAll(markdown, MarkdownLinkAt(renderImages));
    AbsentStartUnchanged(markdown, MarkdownLinkAt(renderImages), '[');
    var angles := ReplaceAll(links, AngleUrlAt(renderImages));
    AbsentStartUnchanged(links, AngleUrlAt(renderImages), '<');
    var bare := ReplaceAll(angles, BareUrlAt(renderImages));
    AbsentStartUnchanged(angles, BareUrlAt(renderImages), 'h');
    var breaks := ReplaceAll(bare, LiteralAt("_ _", "<br/>"));
    AbsentStartUnchanged(bare, LiteralAt("_ _", "<br/>"), '_');
    Mentions(breaks, ctx)
  }

  /** A bare URL starts with its scheme. */
  lemma BareUrlStarts()
    ensures forall s: string, i: nat :: BareUrlEnd(s, i, LinkBehind, "</discord-link>", true).Some? ==> s[i] == 'h'
  {
    forall s: string, i: nat | BareUrlEnd(s, i, LinkBehind, "</discord-link>", true).Some? ensures s[i] == 'h' {
      var n := SchemeLength(s, i);
      assert n > 0;
      assert s[i..][0] == s[i];
    }
  }

  // ----- custom emoji -----

  /** `/<prefix([^:]+):(\d{18,21})>/`: the end, the name and the id of a
      custom emoji tag at `i`. */
  function EmojiFields(s: string, i: nat, prefix: string): (r: Option<(nat, string, string)>)
    ensures r.Some? ==>
      i < r.value.0 <= |s|
      && s[i..r.value.0] == prefix + r.value.1 + ":" + r.value.2 + ">"
      && |r.value.1| > 0 && ':' !in r.value.1
      && AllDigits(r.value.2) && 18 <= |r.value.2| <= 21
  {
    if i <= |s| && |prefix| > 0 && StartsWith(s[i..], prefix) then
      var a := i + |prefix|;
      var m := RunLength(s, a, NotColon);
      var p := a + m;
      if m > 0 && p < |s| && s[p] == ':' then
        var n := RunLength(s, p + 1, IsDigit);
        var e := p + 1 + n;
        if 18 <= n <= 21 && e < |s| && s[e] == '>' then
          SpellEmoji(s, i, prefix, p, e);
          SliceAll(s, a, p, NotColon);
          SliceAll(s, p + 1, e, IsDigit);
          Some((e + 1, s[a..p], s[p + 1..e]))
        else None
      else None
    else None
  }

  lemma SpellEmoji(s: string, i: nat, prefix: string, p: nat, e: nat)
    requires i + |prefix| <= p < e < |s| && StartsWith(s[i..], prefix)
    requires s[p] == ':' && s[e] == '>'
    ensures s[i..e + 1] == prefix + s[i + |prefix|..p] + ":" + s[p + 1..e] + ">"
  {
    var a := i + |prefix|;
    var t := s[p + 1..e] + ">";
    assert s[p + 1..e + 1] == t by {
      SliceSplit(s, p + 1, e, e + 1);
      assert s[e..e + 1] == ">";
    }
    var u := ":" + t;
    assert s[p..e + 1] == u by {
      SliceSplit(s, p, p + 1, e + 1);
      assert s[p..p + 1] == ":";
    }
    var v := s[a..p] + u;
    assert s[a..e + 1] == v by {
      SliceSplit(s, a, p, e + 1);
    }
    assert s[i..e + 1] == prefix + v by {
      SliceSplit(s, i, a, e + 1);
      assert s[i..a] == s[i..][..|prefix|];
    }
    Assoc4(prefix, s[a..p], ":", s[p + 1..e], ">");
  }

  /** `/<a?:[^:]+:\d{18,21}>/g` with an empty replacement. */
  function CustomEmojiAt(): Matcher {
    CustomEmojiHit
  }

  function CustomEmojiHit(s: string, i: nat): Option<Hit> {
    var animated := EmojiFields(s, i, "<a:");
    var found := if animated.Some? then animated else EmojiFields(s, i, "<:");
    match found
    case Some((e, _, _)) => Some(Hit(e, ""))
    case None => None
  }

  /** The code points the jumbo test counts as emoji. */
  predicate IsRangeEmoji(c: char) {
    ('\U{1F600}' <= c <= '\U{1F64F}') || ('\U{1F300}' <= c <= '\U{1F5FF}')
    || ('\U{1F680}' <= c <= '\U{1F6FF}') || ('\U{1F1E0}' <= c <= '\U{1F1FF}')
    || ('\U{2600}' <= c <= '\U{26FF}') || ('\U{2700}' <= c <= '\U{27BF}')
  }

  function CountWhere(s: string, p: char -> bool): (n: nat)
    ensures n <= |s|
  {
    if |s| == 0 then 0 else (if p(s[0]) then 1 else 0) + CountWhere(s[1..], p)
  }

  /** The characters of `s` that do not satisfy `p` (a global replace of a
      one-character pattern by the empty string). */
  function RemoveWhere(s: string, p: char -> bool): (r: string)
    ensures forall k | 0 <= k < |r| :: !p(r[k])
    ensures |r| == |s| - CountWhere(s, p)
  {
    if |s| == 0 then "" else (if p(s[0]) then "" else [s[0]]) + RemoveWhere(s[1..], p)
  }

  /** `shouldUseJumboEmojis`: not blank, 1 to 30 emoji (custom tags plus
      range emoji), and nothing else but white space. */
  function ShouldUseJumboEmojis(content: string): (r: bool)
    ensures IsBlank(content) ==> !r
    ensures var rest := ReplaceAll(content, CustomEmojiAt());
      r <==> (!IsBlank(content)
              && 1 <= |Matches(content, CustomEmojiAt())| + CountWhere(rest, IsRangeEmoji) <= 30
              && forall k | 0 <= k < |rest| :: IsJsSpace(rest[k]) || IsRangeEmoji(rest[k]))
  {
    if IsBlank(content) then false
    else
      var custom := |Matches(content, CustomEmojiAt())|;
      var rest := ReplaceAll(content, CustomEmojiAt());
      var total := custom + CountWhere(rest, IsRangeEmoji);
      // `.replace(/\s+/g, '')` removes every white-space character; the
      // `.trim()` that follows finds nothing left to remove.
      var text := RemoveWhere(RemoveWhere(rest, IsRangeEmoji), IsJsSpace);
      RemovedTwice(rest, IsRangeEmoji, IsJsSpace);
      1 <= total <= 30 && text == ""
  }

  /** Removing the characters `p` accepts, then those `q` accepts, leaves
      nothing exactly when each character is accepted by one of them. */
  lemma RemovedTwice(s: string, p: char -> bool, q: char -> bool)
    ensures RemoveWhere(RemoveWhere(s, p), q) == "" <==> forall k | 0 <= k < |s| :: p(s[k]) || q(s[k])
  {
    var once := RemoveWhere(s, p);
    RemovedNone(once, q);
    RemoveKeeps(s, p);
    if forall k | 0 <= k < |s| :: p(s[k]) || q(s[k]) {
      forall k | 0 <= k < |once| ensures q(once[k]) {
        assert once[k] in once;
        var j :| 0 <= j < |s| && s[j] == once[k];
      }
    }
    if RemoveWhere(once, q) == "" {
      forall j | 0 <= j < |s| ensures p(s[j]) || q(s[j]) {
        if !p(s[j]) {
          assert s[j] in s;
          var k :| 0 <= k < |once| && once[k] == s[j];
        }
      }
    }
  }

  /** `RemoveWhere` leaves nothing exactly when `p` accepts every character. */
  lemma {:induction false} RemovedNone(s: string, p: char -> bool)
    ensures RemoveWhere(s, p) == "" <==> forall k | 0 <= k < |s| :: p(s[k])
  {
    if |s| > 0 {
      RemovedNone(s[1..], p);
      assert forall k | 1 <= k < |s| :: s[1..][k - 1] == s[k];
    }
  }

  /** `RemoveWhere` keeps exactly the characters `p` rejects. */
  lemma {:induction false} RemoveKeeps(s: string, p: char -> bool)
    ensures forall c :: c in RemoveWhere(s, p) <==> c in s && !p(c)
  {
    if |s| > 0 {
      RemoveKeeps(s[1..], p);
      assert forall c :: c in s <==> c == s[0] || c in s[1..];
    }
  }

  /** Text of 1 to 30 range emoji (and no `<`) is shown jumbo. */
  lemma RangeEmojiAreJumbo(s: string)
    requires 1 <= |s| <= 30
    requires forall k | 0 <= k < |s| :: IsRangeEmoji(s[k])
    ensures ShouldUseJumboEmojis(s)
  {
    assert !IsJsSpace(s[0]);
    forall k | 0 <= k < |s| ensures !Fires(s, k, CustomEmojiAt()) {
      assert s[k..][0] == s[k];
    }
    NoMatchIdentity(s, CustomEmojiAt());
    AllCounted(s, IsRangeEmoji);
  }

  lemma {:induction false} AllCounted(s: string, p: char -> bool)
    requires forall k | 0 <= k < |s| :: p(s[k])
    ensures CountWhere(s, p) == |s| && RemoveWhere(s, p) == ""
  {
    if |s| > 0 {
      AllCounted(s[1..], p);
    }
  }

  lemma {:induction false} NoneCounted(s: string, p: char -> bool)
    requires forall k | 0 <= k < |s| :: !p(s[k])
    ensures CountWhere(s, p) == 0
  {
    if |s| > 0 {
      NoneCounted(s[1..], p);
    }
  }

  /** A character that is neither white space nor an emoji, left over once
      the custom tags are removed, rules the jumbo size out. */
  lemma OtherTextIsNotJumbo(s: string, k: nat)
    requires var rest := ReplaceAll(s, CustomEmojiAt());
      k < |rest| && !IsJsSpace(rest[k]) && !IsRangeEmoji(rest[k])
    ensures !ShouldUseJumboEmojis(s)
  {
  }

  // ----- custom emoji tags in the jumbo test -----

  /** A custom emoji written in the message: `<a:name:id>` or `<:name:id>`. */
  datatype EmojiSpec = EmojiSpec(animated: bool, name: string, id: string)

  /** The tags `/<a?:[^:]+:\d{18,21}>/` accepts. */
  predicate ValidEmoji(t: EmojiSpec) {
    |t.name| > 0 && ':' !in t.name && AllDigits(t.id) && 18 <= |t.id| <= 21
  }

  function TagPrefix(animated: bool): string {
    if animated then "<a:" else "<:"
  }

  function CustomTag(t: EmojiSpec): string {
    TagPrefix(t.animated) + t.name + ":" + t.id + ">"
  }

  /** The tags one after another, each followed by a space. */
  function TagRun(ts: seq<EmojiSpec>): string
    decreases |ts|
  {
    if |ts| == 0 then "" else CustomTag(ts[0]) + " " + TagRun(ts[1..])
  }

  function Spaces(n: nat): string {
    if n == 0 then "" else " " + Spaces(n - 1)
  }

  /** One to thirty valid custom tags separated by spaces are shown jumbo,
      animated and static alike. */
  lemma CustomTagRunIsJumbo(ts: seq<EmojiSpec>)
    requires 1 <= |ts| <= 30
    requires forall k | 0 <= k < |ts| :: ValidEmoji(ts[k])
    ensures ShouldUseJumboEmojis(TagRun(ts))
  {
    TagRunReplaced(ts);
    TagRunNotBlank(ts);
    JumboWhenOnlySpaces(TagRun(ts), |ts|);
  }

  lemma TagRunReplaced(ts: seq<EmojiSpec>)
    requires forall k | 0 <= k < |ts| :: ValidEmoji(ts[k])
    ensures ReplaceAll(TagRun(ts), CustomEmojiAt()) == Spaces(|ts|)
    ensures |Matches(TagRun(ts), CustomEmojiAt())| == |ts|
  {
    var s := TagRun(ts);
    assert s[0..] == s;
    TagRunRemoved(s, 0, ts);
    TagRunMatched(s, 0, ts);
  }

  lemma TagRunNotBlank(ts: seq<EmojiSpec>)
    requires |ts| > 0
    ensures !IsBlank(TagRun(ts))
  {
    var s := TagRun(ts);
    assert s[0] == CustomTag(ts[0])[0] == '<';
  }

  /** Text that is not blank, with 1 to 30 custom tags and only white space
      around them, is jumbo. */
  lemma JumboWhenOnlySpaces(s: string, n: nat)
    requires !IsBlank(s) && 1 <= n <= 30 && |Matches(s, CustomEmojiAt())| == n
    requires ReplaceAll(s, CustomEmojiAt()) == Spaces(n)
    ensures ShouldUseJumboEmojis(s)
  {
    AllSpaces(n);
    NoneCounted(Spaces(n), IsRangeEmoji);
  }

  lemma {:induction false} AllSpaces(n: nat)
    ensures |Spaces(n)| == n && forall k | 0 <= k < n :: Spaces(n)[k] == ' '
  {
    if n > 0 {
      AllSpaces(n - 1);
    }
  }

  /** Removing the custom tags of a run leaves one space per tag. */
  lemma {:induction false} TagRunRemoved(s: string, i: nat, ts: seq<EmojiSpec>)
    requires i <= |s| && s[i..] == TagRun(ts)
    requires forall k | 0 <= k < |ts| :: ValidEmoji(ts[k])
    ensures ReplaceFrom(s, i, CustomEmojiAt()) == Spaces(|ts|)
    decreases |ts|
  {
    if |ts| == 0 {
      assert i == |s|;
    } else {
      var next := TagRunStep(s, i, ts);
      TagRunRemoved(s, next, ts[1..]);
      assert Spaces(|ts|) == " " + Spaces(|ts[1..]|);
    }
  }

  /** Each custom tag of a run is one match. */
  lemma {:induction false} TagRunMatched(s: string, i: nat, ts: seq<EmojiSpec>)
    requires i <= |s| && s[i..] == TagRun(ts)
    requires forall k | 0 <= k < |ts| :: ValidEmoji(ts[k])
    ensures |MatchesFrom(s, i, CustomEmojiAt())| == |ts|
    decreases |ts|
  {
    if |ts| == 0 {
      assert i == |s|;
    } else {
      var next := TagRunStep(s, i, ts);
      TagRunMatched(s, next, ts[1..]);
    }
  }

  /** The first tag of a run and the space after it become one space and
      one match; the run of the remaining tags follows. */
  lemma TagRunStep(s: string, i: nat, ts: seq<EmojiSpec>) returns (next: nat)
    requires |ts| > 0 && i <= |s| && s[i..] == TagRun(ts)
    requires forall k | 0 <= k < |ts| :: ValidEmoji(ts[k])
    ensures i < next <= |s| && s[next..] == TagRun(ts[1..])
    ensures ReplaceFrom(s, i, CustomEmojiAt()) == " " + ReplaceFrom(s, next, CustomEmojiAt())
    ensures MatchesFrom(s, i, CustomEmojiAt()) == [""] + MatchesFrom(s, next, CustomEmojiAt())
  {
    var m := CustomEmojiAt();
    var e := i + |CustomTag(ts[0])|;
    TagRunHead(s, i, ts);
    TagFires(s, i, ts[0]);
    TakeOne(s, i, m, e, "");
    NotLtNoTag(s, e);
    SkipOne(s, e, m);
    next := e + 1;
  }

  /** The first tag of a run, the space after it, and the run of the rest. */
  lemma TagRunHead(s: string, i: nat, ts: seq<EmojiSpec>)
    requires |ts| > 0 && i <= |s| && s[i..] == TagRun(ts)
    ensures var e := i + |CustomTag(ts[0])|;
      e < |s| && s[i..e] == CustomTag(ts[0]) && s[e] == ' ' && s[e + 1..] == TagRun(ts[1..])
  {
    var tag := CustomTag(ts[0]);
    var e := i + |tag|;
    assert s[i..][..|tag|] == tag;
    assert s[i..e] == tag;
    assert s[e] == ' ' by {
      assert s[i..][|tag|] == ' ';
    }
    assert s[e + 1..] == TagRun(ts[1..]) by {
      assert s[e + 1..] == s[i..][|tag| + 1..];
    }
  }

  /** A custom tag only starts at a `<`. */
  lemma NotLtNoTag(s: string, i: nat)
    requires i < |s| && s[i] != '<'
    ensures !Fires(s, i, CustomEmojiAt())
  {
    assert s[i..][0] == s[i];
  }

  /** A valid tag written at `i` is one match, removed whole. */
  lemma TagFires(s: string, i: nat, t: EmojiSpec)
    requires ValidEmoji(t)
    requires i + |CustomTag(t)| <= |s| && s[i..i + |CustomTag(t)|] == CustomTag(t)
    ensures CustomEmojiAt()(s, i) == Some(Hit(i + |CustomTag(t)|, ""))
  {
    TagFields(s, i, t);
    if !t.animated {
      StaticSecondColon(s, i, t);
      StaticIsNotAnimated(s, i);
    }
    FieldsGiveHit(s, i, i + |CustomTag(t)|);
  }

  /** The fields of a valid tag written at `i` end where the tag ends. */
  lemma TagFields(s: string, i: nat, t: EmojiSpec)
    requires ValidEmoji(t)
    requires i + |CustomTag(t)| <= |s| && s[i..i + |CustomTag(t)|] == CustomTag(t)
    ensures var f := EmojiFields(s, i, TagPrefix(t.animated));
      f.Some? && f.value.0 == i + |CustomTag(t)|
  {
    TagLength(t);
    var tag := CustomTag(t);
    var prefix := TagPrefix(t.animated);
    var a := i + |prefix|;
    var p := a + |t.name|;
    var e := p + 1 + |t.id|;
    assert forall k | i <= k < i + |tag| :: s[k] == tag[k - i] by {
      forall k | i <= k < i + |tag| ensures s[k] == tag[k - i] {
        assert s[i..i + |tag|][k - i] == s[k];
      }
    }
    assert forall k | a <= k < p :: s[k] == t.name[k - a];
    assert forall k | a <= k < p :: s[k] != ':' by {
      forall k | a <= k < p ensures s[k] != ':' {
        assert t.name[k - a] in t.name;
      }
    }
    assert forall k | p + 1 <= k < e :: IsDigit(s[k]);
    assert tag[..|prefix|] == prefix;
    PlacedStart(s, i, tag, prefix);
    EmojiFieldsAtPos(s, i, prefix, p, e);
  }

  /** Text placed at `i` that opens with `q` makes `s[i..]` open with `q`. */
  lemma PlacedStart(s: string, i: nat, w: string, q: string)
    requires i + |w| <= |s| && s[i..i + |w|] == w
    requires |q| <= |w| && w[..|q|] == q
    ensures StartsWith(s[i..], q)
  {
    assert s[i..][..|q|] == s[i..i + |w|][..|q|];
  }

  /** The second character of a static tag is its `:`. */
  lemma StaticSecondColon(s: string, i: nat, t: EmojiSpec)
    requires !t.animated && i + |CustomTag(t)| <= |s| && s[i..i + |CustomTag(t)|] == CustomTag(t)
    ensures i + 1 < |s| && s[i + 1] == ':'
  {
    var tag := CustomTag(t);
    assert tag[1] == ':';
    assert s[i..i + |tag|][1] == s[i + 1];
  }

  lemma TagLength(t: EmojiSpec)
    ensures |CustomTag(t)| == |TagPrefix(t.animated)| + |t.name| + |t.id| + 2
  {
  }

  /** A tag whose second character is `:` is not the animated form. */
  lemma StaticIsNotAnimated(s: string, i: nat)
    requires i + 1 < |s| && s[i + 1] == ':'
    ensures EmojiFields(s, i, "<a:").None?
  {
    assert !StartsWith(s[i..], "<a:") by {
      assert s[i..][1] == ':';
    }
  }

  /** The animated form is tried first, then the static one. */
  lemma FieldsGiveHit(s: string, i: nat, e: nat)
    requires var a := EmojiFields(s, i, "<a:");
      (a.Some? && a.value.0 == e)
      || (a.None? && EmojiFields(s, i, "<:").Some? && EmojiFields(s, i, "<:").value.0 == e)
    ensures CustomEmojiAt()(s, i) == Some(Hit(e, ""))
  {
  }

  /** A tag at `i`, located by its colon and closing bracket, is found and
      ends after the bracket. */
  lemma EmojiFieldsAtPos(s: string, i: nat, prefix: string, p: nat, e: nat)
    requires 0 < |prefix| && i + |prefix| < p < e < |s| && StartsWith(s[i..], prefix)
    requires forall k | i + |prefix| <= k < p :: s[k] != ':'
    requires s[p] == ':' && s[e] == '>' && 18 <= e - p - 1 <= 21
    requires forall k | p + 1 <= k < e :: IsDigit(s[k])
    ensures EmojiFields(s, i, prefix).Some? && EmojiFields(s, i, prefix).value.0 == e + 1
  {
    RunUpTo(s, i + |prefix|, p, NotColon);
    RunUpTo(s, p + 1, e, IsDigit);
  }

  /** A custom tag followed by text that is not white space or emoji is not
      jumbo. */
  lemma TagThenTextNotJumbo(t: EmojiSpec, text: string, k: nat)
    requires ValidEmoji(t) && '<' !in text
    requires k < |text| && !IsJsSpace(text[k]) && !IsRangeEmoji(text[k])
    ensures !ShouldUseJumboEmojis(CustomTag(t) + text)
  {
    var s := CustomTag(t) + text;
    TagThenTextRemoved(t, text);
    OtherTextIsNotJumbo(s, k);
  }

  /** Removing the custom tags of a tag followed by text without `<` leaves
      the text. */
  lemma TagThenTextRemoved(t: EmojiSpec, text: string)
    requires ValidEmoji(t) && '<' !in text
    ensures ReplaceAll(CustomTag(t) + text, CustomEmojiAt()) == text
  {
    var s := CustomTag(t) + text;
    var e := |CustomTag(t)|;
    assert s[0..e] == CustomTag(t);
    TagFires(s, 0, t);
    assert s[e..] == text;
    TextWithoutLt(s, e);
  }

  /** From a position on which no `<` follows, the text is copied unchanged. */
  lemma TextWithoutLt(s: string, e: nat)
    requires e <= |s| && '<' !in s[e..]
    ensures ReplaceFrom(s, e, CustomEmojiAt()) == s[e..]
  {
    var m := CustomEmojiAt();
    forall j | e <= j < |s| ensures !Fires(s, j, m) {
      assert s[j] == s[e..][j - e] && s[e..][j - e] in s[e..];
      NotLtNoTag(s, j);
    }
    CopyUntil(s, e, |s|, m);
  }

  // ----- custom emoji post-pass -----

  const EmojiCdn: string := "https://cdn.discordapp.com/emojis/"

  /** The custom-emoji element up to its optional `jumbo` attribute. */
  function EmojiHead(name: string, id: string, ext: string): (r: string)
    ensures |r| > 0 && r[|r| - 1] == '"'
  {
    "<discord-custom-emoji name=\"" + name + "\" url=\"" + EmojiCdn + id + ext + "\""
  }

  function EmojiTag(name: string, id: string, ext: string, jumbo: bool): string {
    EmojiHead(name, id, ext) + (if jumbo then " jumbo" else "") + "></discord-custom-emoji>"
  }

  function EmojiTagAt(prefix: string, ext: string, jumbo: bool): (r: Matcher)
    ensures |prefix| > 0 ==> StartsOnlyWith(r, prefix[0])
  {
    (s: string, i: nat) => EmojiTagHit(s, i, prefix, ext, jumbo)
  }

  function EmojiTagHit(s: string, i: nat, prefix: string, ext: string, jumbo: bool): Option<Hit> {
    match EmojiFields(s, i, prefix)
    case Some((e, name, id)) => Some(Hit(e, EmojiTag(name, id, ext, jumbo)))
    case None => None
  }

  /** Animated tags (`<a:`) become GIF emoji, then static tags (`<:`) PNG
      emoji, all with the same jumbo flag. */
  function EmojiPass(s: string, jumbo: bool): (r: string)
    ensures '<' !in s ==> r == s
  {
    var animated := ReplaceAll(s, EmojiTagAt("<a:", ".gif", jumbo));
    AbsentStartUnchanged(s, EmojiTagAt("<a:", ".gif", jumbo), '<');
    AbsentStartUnchanged(animated, EmojiTagAt("<:", ".png", jumbo), '<');
    ReplaceAll(animated, EmojiTagAt("<:", ".png", jumbo))
  }

  /** A pass whose prefix occurs nowhere changes nothing. */
  lemma EmojiPrefixAbsent(s: string, prefix: string, ext: string, jumbo: bool)
    requires forall k | 0 <= k <= |s| :: !StartsWith(s[k..], prefix)
    ensures ReplaceAll(s, EmojiTagAt(prefix, ext, jumbo)) == s
  {
    NoMatchIdentity(s, EmojiTagAt(prefix, ext, jumbo));
  }

  /** A lone static emoji tag becomes one PNG emoji. */
  lemma StaticEmojiAlone(name: string, id: string, jumbo: bool)
    requires |name| > 0 && ':' !in name && '<' !in name
    requires AllDigits(id) && 18 <= |id| <= 21
    ensures EmojiPass("<:" + name + ":" + id + ">", jumbo) == EmojiTag(name, id, ".png", jumbo)
  {
    var s := "<:" + name + ":" + id + ">";
    forall k | 0 <= k <= |s| ensures !StartsWith(s[k..], "<a:") {
      if 0 < k < |s| {
        assert s[k] != '<' by {
          if 2 <= k < 2 + |name| {
            assert s[k] == name[k - 2];
          } else if 3 + |name| <= k < 3 + |name| + |id| {
            assert s[k] == id[k - 3 - |name|];
          }
        }
        assert s[k..][0] == s[k];
      } else if k == 0 {
        assert s[0..][1] == ':';
      }
    }
    EmojiPrefixAbsent(s, "<a:", ".gif", jumbo);
    StaticEmojiFires(name, id, jumbo);
  }

  lemma StaticEmojiFires(name: string, id: string, jumbo: bool)
    requires |name| > 0 && ':' !in name
    requires AllDigits(id) && 18 <= |id| <= 21
    ensures ReplaceAll("<:" + name + ":" + id + ">", EmojiTagAt("<:", ".png", jumbo)) == EmojiTag(name, id, ".png", jumbo)
  {
    var s := "<:" + name + ":" + id + ">";
    EmojiFieldsOfTag("<:", name, id);
    WholeMatch(s, EmojiTagAt("<:", ".png", jumbo), EmojiTag(name, id, ".png", jumbo));
  }

  /** A lone animated emoji tag becomes one GIF emoji: the static pass finds
      no `<:` in the element the animated pass wrote. */
  lemma AnimatedEmojiAlone(name: string, id: string, jumbo: bool)
    requires |name| > 0 && ':' !in name
    requires AllDigits(id) && 18 <= |id| <= 21
    ensures EmojiPass("<a:" + name + ":" + id + ">", jumbo) == EmojiTag(name, id, ".gif", jumbo)
  {
    AnimatedPass(name, id, jumbo);
    StaticPassKeeps(name, id, jumbo);
  }

  /** The animated pass turns a lone animated tag into its element. */
  lemma AnimatedPass(name: string, id: string, jumbo: bool)
    requires |name| > 0 && ':' !in name
    requires AllDigits(id) && 18 <= |id| <= 21
    ensures ReplaceAll("<a:" + name + ":" + id + ">", EmojiTagAt("<a:", ".gif", jumbo))
         == EmojiTag(name, id, ".gif", jumbo)
  {
    EmojiFieldsOfTag("<a:", name, id);
    WholeMatch("<a:" + name + ":" + id + ">", EmojiTagAt("<a:", ".gif", jumbo), EmojiTag(name, id, ".gif", jumbo));
  }

  /** The static pass leaves a GIF element as it is. */
  lemma StaticPassKeeps(name: string, id: string, jumbo: bool)
    requires ':' !in name && AllDigits(id)
    ensures var out := EmojiTag(name, id, ".gif", jumbo);
      ReplaceAll(out, EmojiTagAt("<:", ".png", jumbo)) == out
  {
    var out := EmojiTag(name, id, ".gif", jumbo);
    EmojiTagHasNoStaticPrefix(name, id, ".gif", jumbo);
    NoLtColonHasNoPrefix(out, "<:");
    EmojiPrefixAbsent(out, "<:", ".png", jumbo);
  }

  /** Text without `<` followed by `:` has no `<:` at any position. */
  lemma NoLtColonHasNoPrefix(x: string, p: string)
    requires NoLtColon(x) && p == "<:"
    ensures forall k | 0 <= k <= |x| :: !StartsWith(x[k..], p)
  {
    assert |p| == 2 && p[0] == '<' && p[1] == ':';
    forall k | 0 <= k <= |x| ensures !StartsWith(x[k..], p) {
      if k + 1 < |x| {
        assert x[k..][0] == x[k] && x[k..][1] == x[k + 1];
      }
    }
  }

  /** No `<` directly followed by `:`. */
  predicate NoLtColon(x: string) {
    forall k | 0 <= k < |x| - 1 :: !(x[k] == '<' && x[k + 1] == ':')
  }

  /** Appending a piece without `:` or without `<`, that does not open with
      `:`, keeps the text free of `<:`. */
  lemma AppendPiece(a: string, b: string)
    requires NoLtColon(a)
    requires ':' !in b || '<' !in b
    requires |b| > 0 ==> b[0] != ':'
    ensures NoLtColon(a + b)
  {
    var x := a + b;
    forall k | 0 <= k < |x| - 1 ensures !(x[k] == '<' && x[k + 1] == ':') {
      if k >= |a| {
        assert x[k] == b[k - |a|] && x[k + 1] == b[k + 1 - |a|];
        assert b[k - |a|] in b && b[k + 1 - |a|] in b;
      } else if k + 1 == |a| {
        assert x[k + 1] == b[0];
      }
    }
  }

  /** The element written for a custom emoji holds no `<:`. */
  lemma EmojiTagHasNoStaticPrefix(name: string, id: string, ext: string, jumbo: bool)
    requires ':' !in name && AllDigits(id) && ':' !in ext
    ensures NoLtColon(EmojiTag(name, id, ext, jumbo))
  {
    var p1, p2, close := "<discord-custom-emoji name=\"", "\" url=\"", "></discord-custom-emoji>";
    ElementLiterals(p1, p2, close);
    assert ':' !in id by {
      forall k | 0 <= k < |id| ensures id[k] != ':' {
        assert IsDigit(id[k]);
      }
    }
    var flag := if jumbo then " jumbo" else "";
    assert ':' !in flag;
    var head := p1 + name + p2 + EmojiCdn + id + ext + "\"";
    assert head == EmojiHead(name, id, ext);
    ElementPieces(p1, name, p2, EmojiCdn, id, ext, flag, close);
  }

  lemma ElementLiterals(p1: string, p2: string, close: string)
    requires p1 == "<discord-custom-emoji name=\"" && p2 == "\" url=\"" && close == "></discord-custom-emoji>"
    ensures ':' !in p1 && ':' !in p2 && ':' !in close && '<' !in EmojiCdn
    ensures p2[0] != ':' && EmojiCdn[0] != ':' && close[0] != ':'
  {
  }

  lemma ElementPieces(p1: string, name: string, p2: string, cdn: string, id: string, ext: string, flag: string, close: string)
    requires ':' !in p1 && ':' !in name && ':' !in p2 && '<' !in cdn && ':' !in id && ':' !in ext && ':' !in flag && ':' !in close
    requires |p2| > 0 && p2[0] != ':' && |cdn| > 0 && cdn[0] != ':' && |close| > 0 && close[0] != ':'
    ensures NoLtColon(p1 + name + p2 + cdn + id + ext + "\"" + flag + close)
  {
    assert name != [] ==> name[0] in name;
    assert id != [] ==> id[0] in id;
    assert ext != [] ==> ext[0] in ext;
    assert flag != [] ==> flag[0] in flag;
    AppendPiece("", p1);
    assert "" + p1 == p1;
    AppendPiece(p1, name);
    AppendPiece(p1 + name, p2);
    AppendPiece(p1 + name + p2, cdn);
    AppendPiece(p1 + name + p2 + cdn, id);
    AppendPiece(p1 + name + p2 + cdn + id, ext);
    AppendPiece(p1 + name + p2 + cdn + id + ext, "\"");
    AppendPiece(p1 + name + p2 + cdn + id + ext + "\"", flag);
    AppendPiece(p1 + name + p2 + cdn + id + ext + "\"" + flag, close);
  }

  /** A whole emoji tag is read back into its name and id. */
  lemma EmojiFieldsOfTag(prefix: string, name: string, id: string)
    requires |prefix| > 0
    requires |name| > 0 && ':' !in name
    requires AllDigits(id) && 18 <= |id| <= 21
    ensures EmojiFields(prefix + name + ":" + id + ">", 0, prefix)
         == Some((|prefix| + |name| + |id| + 2, name, id))
  {
    var s := prefix + name + ":" + id + ">";
    var a := |prefix|;
    var p := a + |name|;
    var e := p + 1 + |id|;
    assert s[..a] == prefix;
    assert s[a..p] == name;
    assert s[p + 1..e] == id;
    assert forall k | a <= k < p :: s[k] == name[k - a];
    assert forall k | p + 1 <= k < e :: s[k] == id[k - p - 1];
    EmojiFieldsAt(s, prefix, p, e);
  }

  /** The fields of a tag located by its colon and closing bracket. */
  lemma EmojiFieldsAt(s: string, prefix: string, p: nat, e: nat)
    requires 0 < |prefix| < p < e < |s| && s[..|prefix|] == prefix
    requires forall k | |prefix| <= k < p :: s[k] != ':'
    requires s[p] == ':' && s[e] == '>' && 18 <= e - p - 1 <= 21
    requires forall k | p + 1 <= k < e :: IsDigit(s[k])
    ensures EmojiFields(s, 0, prefix) == Some((e + 1, s[|prefix|..p], s[p + 1..e]))
  {
    assert StartsWith(s[0..], prefix) by {
      assert s[0..] == s;
    }
    assert RunLength(s, |prefix|, NotColon) == p - |prefix| by {
      RunUpTo(s, |prefix|, p, NotColon);
    }
    assert RunLength(s, p + 1, IsDigit) == e - p - 1 by {
      RunUpTo(s, p + 1, e, IsDigit);
    }
  }


  /** The jumbo flag is all-or-nothing: the tag carries ` jumbo` exactly when
      the flag is set. */
  lemma EmojiTagJumbo(name: string, id: string, ext: string, jumbo: bool)
    ensures EndsWith(EmojiTag(name, id, ext, jumbo), "\" jumbo></discord-custom-emoji>") <==> jumbo
  {
    var close := "></discord-custom-emoji>";
    assert "\" jumbo" + close == "\" jumbo></discord-custom-emoji>";
    JumboFlag(EmojiHead(name, id, ext), close, jumbo);
  }

  lemma JumboFlag(h: string, close: string, jumbo: bool)
    requires |h| > 0 && h[|h| - 1] == '"'
    ensures EndsWith(h + (if jumbo then " jumbo" else "") + close, "\" jumbo" + close) <==> jumbo
  {
    if jumbo {
      JumboSuffix(h, close);
    } else {
      PlainSuffix(h, close);
      assert h + "" + close == h + close;
    }
  }

  lemma JumboSuffix(h: string, close: string)
    requires |h| > 0 && h[|h| - 1] == '"'
    ensures EndsWith(h + " jumbo" + close, "\" jumbo" + close)
  {
    var t := h + " jumbo" + close;
    assert t[|h| - 1..] == [h[|h| - 1]] + " jumbo" + close;
  }

  lemma PlainSuffix(h: string, close: string)
    requires |h| > 0 && h[|h| - 1] == '"'
    ensures !EndsWith(h + close, "\" jumbo" + close)
  {
    var t := h + close;
    var suffix := "\" jumbo" + close;
    assert t[|t| - |close| - 1] == '"';
    assert suffix[|suffix| - |close| - 1] == 'o';
    assert |suffix| <= |t| ==> t[|t| - |suffix|..][|suffix| - |close| - 1] == t[|t| - |close| - 1];
  }

  // ----- snowflakes -----

  const DiscordEpoch: nat := 1420070400000

  /** The millisecond timestamp of a snowflake: `(s >> 22) + epoch`. */
  function SnowflakeMillis(snowflake: nat): nat {
    snowflake / 4194304 + DiscordEpoch
  }

  /** The timestamp sits in the bits above the low 22, whatever they hold. */
  lemma SnowflakeRoundTrip(millis: nat, low: nat)
    requires millis >= DiscordEpoch && low < 4194304
    ensures SnowflakeMillis((millis - DiscordEpoch) * 4194304 + low) == millis
  {
    var q := millis - DiscordEpoch;
    assert ((q * 4194304 + low) / 4194304) == q;
  }
}
