/** The line-level formatting of `src/lib/markdown.ts`: the emphasis rules
    (`**`, `*`, `__`, `||`, one or two backticks), the rules of
    `formatMarkdownLine` (subscript, headers, quotes, links, timestamps, slash
    commands, list items) and the formatting of a quoted line. Each regular
    expression is a hand-written matcher run by `Rewrite.ReplaceAll`. */
module Inline {
  import opened Optional
  import opened Strings
  import opened Rewrite
  import Utils

  // ----- markup -----

  function Wrap(tag: string, body: string): string {
    "<" + tag + ">" + body + "</" + tag + ">"
  }

  /** The placeholder later lifted out as an image. */
  const PlaceholderOpen: string := "<div data-image-placeholder data-url=\""
  const PlaceholderMiddle: string := "\" data-alt=\""
  const PlaceholderClose: string := "\"></div>"

  function ImagePlaceholder(url: string, alt: string): string {
    PlaceholderOpen + url + PlaceholderMiddle + alt + PlaceholderClose
  }

  function LinkMarkup(url: string, text: string): string {
    "<discord-link href=\"" + url + "\" target=\"_blank\" rel=\"noreferrer\">" + text + "</discord-link>"
  }

  /** No line terminator in `s[a..b]`: the span a regular-expression `.` run covers. */
  predicate LineFree(s: string, a: nat, b: nat)
    requires a <= b <= |s|
  {
    forall k | a <= k < b :: !IsLineTerminator(s[k])
  }

  // ----- symmetric delimiters: /(d)(.+?)\1/g -----

  /** The text `s[i..]` opens with `d`, and a closing `d` at `j` ends a
      non-empty, terminator-free content. */
  predicate ClosesAt(s: string, i: nat, d: string, j: nat) {
    |d| > 0 && i + |d| < j && j + |d| <= |s|
    && StartsWith(s[i..], d) && StartsWith(s[j..], d) && LineFree(s, i + |d|, j)
  }

  /** The lazy search for the closing delimiter: the first position from `j`
      on where `d` occurs, provided no line terminator lies before it. */
  function LazyClose(s: string, c: nat, j: nat, d: string): (r: Option<nat>)
    requires c < j <= |s| && LineFree(s, c, j)
    ensures r.Some? ==>
      j <= r.value <= |s| && StartsWith(s[r.value..], d) && LineFree(s, c, r.value)
      && forall k | j <= k < r.value :: !StartsWith(s[k..], d)
    ensures r.None? ==>
      forall k | j <= k <= |s| && StartsWith(s[k..], d) :: !LineFree(s, c, k)
    decreases |s| - j
  {
    if StartsWith(s[j..], d) then Some(j)
    else if j < |s| && !IsLineTerminator(s[j]) then LazyClose(s, c, j + 1, d)
    else None
  }

  /** The first closing position of a delimited span opening at `i`. */
  function FirstClose(s: string, i: nat, d: string): (r: Option<nat>)
    ensures r.Some? ==>
      ClosesAt(s, i, d, r.value) && (forall j | i + |d| < j < r.value :: !ClosesAt(s, i, d, j))
    ensures r.None? ==> forall j: nat :: !ClosesAt(s, i, d, j)
  {
    if |d| > 0 && i + |d| < |s| && StartsWith(s[i..], d) && !IsLineTerminator(s[i + |d|]) then
      var r := LazyClose(s, i + |d|, i + |d| + 1, d);
      if r.Some? then r else None
    else None
  }

  /** The matcher of `/(d)(.+?)\1/g` replaced by `<tag>$2</tag>`. */
  function DelimitedAt(d: string, tag: string): Matcher {
    (s: string, i: nat) =>
      match FirstClose(s, i, d)
      case Some(j) => Some(Hit(j + |d|, Wrap(tag, s[i + |d|..j])))
      case None => None
  }

  /** A delimited span fires exactly where an opening delimiter has a closing
      one on the same line, and wraps the content up to the first such close. */
  lemma DelimitedSpec(s: string, i: nat, d: string, tag: string)
    ensures Fires(s, i, DelimitedAt(d, tag)) <==> exists j: nat :: ClosesAt(s, i, d, j)
    ensures Fires(s, i, DelimitedAt(d, tag)) ==>
      exists j: nat :: ClosesAt(s, i, d, j)
        && (forall j' | i + |d| < j' < j :: !ClosesAt(s, i, d, j'))
        && DelimitedAt(d, tag)(s, i) == Some(Hit(j + |d|, Wrap(tag, s[i + |d|..j])))
  {
    var r := FirstClose(s, i, d);
    DelimitedAtFirstClose(s, i, d, tag);
    if r.Some? {
      var j := r.value;
      assert ClosesAt(s, i, d, j);
      assert Fires(s, i, DelimitedAt(d, tag));
    } else {
      assert !Fires(s, i, DelimitedAt(d, tag));
    }
  }

  lemma DelimitedAtFirstClose(s: string, i: nat, d: string, tag: string)
    ensures var r := FirstClose(s, i, d);
            && (r.None? ==> DelimitedAt(d, tag)(s, i).None?)
            && (r.Some? ==> DelimitedAt(d, tag)(s, i) == Some(Hit(r.value + |d|, Wrap(tag, s[i + |d|..r.value]))))
  {
  }

  /** `/(`{1,2})(.+?)\1/g`: a double backtick is tried first and the single
      one is the backtracking alternative. */
  function CodeSpanAt(): Matcher {
    (s: string, i: nat) =>
      var double := DelimitedAt("``", "discord-code")(s, i);
      if double.Some? then double else DelimitedAt("`", "discord-code")(s, i)
  }

  function BoldAt(): Matcher { DelimitedAt("**", "discord-bold") }
  function ItalicAt(): Matcher { DelimitedAt("*", "discord-italic") }
  function UnderlineAt(): Matcher { DelimitedAt("__", "discord-underlined") }
  function SpoilerAt(): Matcher { DelimitedAt("||", "discord-spoiler") }

  /** The five emphasis passes, in the order the source applies them. Text
      without `*`, `_`, `|` and backticks passes through unchanged. */
  function Emphasis(s: string): (r: string)
    ensures '*' !in s && '_' !in s && '|' !in s && '`' !in s ==> r == s
  {
    EmphasisStarts();
    var bold := ReplaceAll(s, BoldAt());
    AbsentStartUnchanged(s, BoldAt(), '*');
    var italic := ReplaceAll(bold, ItalicAt());
    AbsentStartUnchanged(bold, ItalicAt(), '*');
    var underline := ReplaceAll(italic, UnderlineAt());
    AbsentStartUnchanged(italic, UnderlineAt(), '_');
    var spoiler := ReplaceAll(underline, SpoilerAt());
    AbsentStartUnchanged(underline, SpoilerAt(), '|');
    AbsentStartUnchanged(spoiler, CodeSpanAt(), '`');
    ReplaceAll(spoiler, CodeSpanAt())
  }

  /** A delimited span starts with its delimiter. */
  lemma DelimitedOpens(s: string, i: nat, d: string, tag: string)
    requires DelimitedAt(d, tag)(s, i).Some?
    ensures |d| > 0 && i < |s| && s[i] == d[0]
  {
    var j := FirstClose(s, i, d).value;
    assert ClosesAt(s, i, d, j);
    assert s[i..][0] == d[0];
  }

  lemma DelimitedStartsWith(d: string, tag: string)
    requires |d| > 0
    ensures StartsOnlyWith(DelimitedAt(d, tag), d[0])
  {
    forall s: string, i: nat | Fires(s, i, DelimitedAt(d, tag)) ensures s[i] == d[0] {
      DelimitedOpens(s, i, d, tag);
    }
  }

  /** Each emphasis rule starts at the first character of its delimiter. */
  lemma EmphasisStarts()
    ensures StartsOnlyWith(BoldAt(), '*') && StartsOnlyWith(ItalicAt(), '*')
    ensures StartsOnlyWith(UnderlineAt(), '_') && StartsOnlyWith(SpoilerAt(), '|')
    ensures StartsOnlyWith(CodeSpanAt(), '`')
  {
    DelimitedStartsWith("**", "discord-bold");
    DelimitedStartsWith("*", "discord-italic");
    DelimitedStartsWith("__", "discord-underlined");
    DelimitedStartsWith("||", "discord-spoiler");
    forall s: string, i: nat | Fires(s, i, CodeSpanAt()) ensures s[i] == '`' {
      if DelimitedAt("``", "discord-code")(s, i).Some? {
        DelimitedOpens(s, i, "``", "discord-code");
      } else {
        DelimitedOpens(s, i, "`", "discord-code");
      }
    }
  }

  // ----- timestamps -----

  /** The format branches of `formatDiscordTimestampWithType`. */
  datatype TimeStyle =
    | ShortTime | LongTime | ShortDate | LongDate
    | ShortDateTime | LongDateTime | Relative | LocaleDefault

  /** The branch taken for a format letter. The source switches on the
      lower-cased letter, so the upper-case cases (`T`, `D`, `F`, `R`) are
      never selected: `T`, `D` and `F` behave like their lower-case letters
      and `R` takes the default branch. */
  function TimeStyleOf(c: char): (r: TimeStyle)
    ensures !r.LongTime? && !r.LongDate? && !r.LongDateTime? && !r.Relative?
    ensures r.ShortTime? <==> c == 't' || c == 'T'
    ensures r.ShortDate? <==> c == 'd' || c == 'D'
    ensures r.ShortDateTime? <==> c == 'f' || c == 'F'
  {
    var lower := LowerChar(c);
    if lower == 't' then ShortTime
    else if lower == 'd' then ShortDate
    else if lower == 'f' then ShortDateTime
    else LocaleDefault
  }

  /** Locale-dependent date rendering, given the decimal seconds and the branch. */
  type TimeRender = (string, TimeStyle) -> string

  predicate IsTimeLetter(c: char) {
    c in "tTdDfFR"
  }

  /** `/<t:(\d+):([tTdDfFR])>/g`. */
  function TimestampAt(render: TimeRender): Matcher {
    (s: string, i: nat) =>
      if i <= |s| && StartsWith(s[i..], "<t:") then
        var n := RunLength(s, i + 3, IsDigit);
        var p := i + 3 + n;
        if n > 0 && p + 2 < |s| && s[p] == ':' && IsTimeLetter(s[p + 1]) && s[p + 2] == '>' then
          var formatted := render(s[i + 3..p], TimeStyleOf(s[p + 1]));
          Some(Hit(p + 3, "<discord-time title=\"" + formatted + "\">" + formatted + "</discord-time>"))
        else None
      else None
  }

  // ----- the other rules of formatMarkdownLine -----

  /** `/^(-#) (.+)$/g`: a whole line starting with `-# `. */
  function SubscriptAt(): Matcher {
    (s: string, i: nat) =>
      if i == 0 && |s| > 3 && StartsWith(s, "-# ") && LineFree(s, 3, |s|)
      then Some(Hit(|s|, Wrap("discord-subscript", s[3..])))
      else None
  }

  predicate IsHash(c: char) { c == '#' }

  /** `/(#{1,3}) (.+)/g`: one to three `#`, a space, and the rest of the line. */
  function HeaderAt(): Matcher {
    (s: string, i: nat) =>
      if i <= |s| then
        var n := RunLength(s, i, IsHash);
        var t := i + n + 1;
        if 1 <= n <= 3 && t < |s| && s[i + n] == ' ' && !IsLineTerminator(s[t]) then
          var e := t + RunLength(s, t, c => !IsLineTerminator(c));
          Some(Hit(e, "<discord-header level=\"" + NatToString(n) + "\">" + s[t..e] + "</discord-header>"))
        else None
      else None
  }

  predicate IsGt(c: char) { c == '>' }

  /** `/^(>{1,3}) (.+)$/g`: a whole line opening with one to three `>` and a space. */
  function QuoteAt(): Matcher {
    (s: string, i: nat) =>
      var n := RunLength(s, 0, IsGt);
      if i == 0 && 1 <= n <= 3 && n + 1 < |s| && s[n] == ' ' && LineFree(s, n + 1, |s|)
      then Some(Hit(|s|, Wrap("discord-quote", s[n + 1..])))
      else None
  }

  /** `/\[([^\]]+)\]\(<([^>]+)>\)/g`: a link whose target is in angle brackets;
      image targets become placeholders. */
  function AngleLinkAt(): Matcher {
    (s: string, i: nat) =>
      if i < |s| && s[i] == '[' then
        var a := RunLength(s, i + 1, c => c != ']');
        var b := i + 1 + a;
        if a > 0 && b + 2 < |s| && s[b] == ']' && s[b + 1] == '(' && s[b + 2] == '<' then
          var u := RunLength(s, b + 3, c => c != '>');
          var e := b + 3 + u;
          if u > 0 && e + 1 < |s| && s[e] == '>' && s[e + 1] == ')' then
            var text := s[i + 1..b];
            var url := s[b + 3..e];
            Some(Hit(e + 2, if Utils.IsImageUrl(url) then ImagePlaceholder(url, text) else LinkMarkup(url, text)))
          else None
        else None
      else None
  }

  /** `\w`. */
  predicate IsWordChar(c: char) {
    ('a' <= c <= 'z') || ('A' <= c <= 'Z') || IsDigit(c) || c == '_'
  }

  /** `/<\/(\w+):\d{18,21}>/g`: a slash-command mention shows the command name. */
  function SlashMentionAt(): Matcher {
    (s: string, i: nat) =>
      if i <= |s| && StartsWith(s[i..], "</") then
        var w := RunLength(s, i + 2, IsWordChar);
        var p := i + 2 + w;
        if w > 0 && p < |s| && s[p] == ':' then
          var n := RunLength(s, p + 1, IsDigit);
          var e := p + 1 + n;
          if 18 <= n <= 21 && e < |s| && s[e] == '>' then
            Some(Hit(e + 1, "<discord-mention type=\"slash\">" + s[i + 2..p] + "</discord-mention>"))
          else None
        else None
      else None
  }

  /** `/^- (.+)$/g`: a whole line starting with `- `. */
  function ListItemAt(): Matcher {
    (s: string, i: nat) =>
      if i == 0 && |s| > 2 && StartsWith(s, "- ") && LineFree(s, 2, |s|)
      then Some(Hit(|s|, Wrap("discord-list-item", s[2..])))
      else None
  }

  /** `formatMarkdownLine`: the twelve passes in source order. A line with
      none of the characters a rule starts with is left as it is. */
  function FormatMarkdownLine(line: string, render: TimeRender): (r: string)
    ensures NoMarkup(line) ==> r == line
  {
    LineRuleStarts(render);
    var subscript := ReplaceAll(line, SubscriptAt());
    AbsentStartUnchanged(line, SubscriptAt(), '-');
    var header := ReplaceAll(subscript, HeaderAt());
    AbsentStartUnchanged(subscript, HeaderAt(), '#');
    var quote := ReplaceAll(header, QuoteAt());
    AbsentStartUnchanged(header, QuoteAt(), '>');
    var emphasis := Emphasis(quote);
    var link := ReplaceAll(emphasis, AngleLinkAt());
    AbsentStartUnchanged(emphasis, AngleLinkAt(), '[');
    var time := ReplaceAll(link, TimestampAt(render));
    AbsentStartUnchanged(link, TimestampAt(render), '<');
    var slash := ReplaceAll(time, SlashMentionAt());
    AbsentStartUnchanged(time, SlashMentionAt(), '<');
    AbsentStartUnchanged(slash, ListItemAt(), '-');
    ReplaceAll(slash, ListItemAt())
  }

  /** None of the characters the line rules start with. */
  predicate NoMarkup(line: string) {
    '-' !in line && '#' !in line && '>' !in line && '*' !in line && '_' !in line
    && '|' !in line && '`' !in line && '[' !in line && '<' !in line
  }

  /** Each rule of `formatMarkdownLine` besides emphasis starts at one
      character. */
  lemma LineRuleStarts(render: TimeRender)
    ensures StartsOnlyWith(SubscriptAt(), '-') && StartsOnlyWith(ListItemAt(), '-')
    ensures StartsOnlyWith(HeaderAt(), '#') && StartsOnlyWith(QuoteAt(), '>')
    ensures StartsOnlyWith(AngleLinkAt(), '[') && StartsOnlyWith(TimestampAt(render), '<')
    ensures StartsOnlyWith(SlashMentionAt(), '<')
  {
    WholeLineRuleStarts();
    HeaderStarts();
    QuoteStarts();
    TimestampStarts(render);
    SlashStarts();
  }

  lemma TimestampStarts(render: TimeRender)
    ensures StartsOnlyWith(TimestampAt(render), '<')
  {
    forall s: string, i: nat | Fires(s, i, TimestampAt(render)) ensures s[i] == '<' {
      assert i <= |s| && StartsWith(s[i..], "<t:");
      assert s[i..][..3][0] == s[i];
    }
  }

  lemma SlashStarts()
    ensures StartsOnlyWith(SlashMentionAt(), '<')
  {
    forall s: string, i: nat | Fires(s, i, SlashMentionAt()) ensures s[i] == '<' {
      assert i <= |s| && StartsWith(s[i..], "</");
      assert s[i..][..2][0] == s[i];
    }
  }

  lemma WholeLineRuleStarts()
    ensures StartsOnlyWith(SubscriptAt(), '-') && StartsOnlyWith(ListItemAt(), '-')
  {
    forall s: string, i: nat | Fires(s, i, SubscriptAt()) ensures s[i] == '-' {
      assert i == 0 && StartsWith(s, "-# ");
      assert s[..3][0] == s[0];
    }
    forall s: string, i: nat | Fires(s, i, ListItemAt()) ensures s[i] == '-' {
      assert i == 0 && StartsWith(s, "- ");
      assert s[..2][0] == s[0];
    }
  }

  lemma HeaderStarts()
    ensures StartsOnlyWith(HeaderAt(), '#')
  {
    forall s: string, i: nat | Fires(s, i, HeaderAt()) ensures s[i] == '#' {
      var n := RunLength(s, i, IsHash);
      assert n >= 1;
      assert IsHash(s[i]);
    }
  }

  lemma QuoteStarts()
    ensures StartsOnlyWith(QuoteAt(), '>')
  {
    forall s: string, i: nat | Fires(s, i, QuoteAt()) ensures s[i] == '>' {
      var n := RunLength(s, 0, IsGt);
      assert i == 0 && n >= 1;
      assert IsGt(s[0]);
    }
  }

  // ----- quoted lines -----

  /** Length of the prefix `/^(`-`|-)( |$)/` removes, or 0 when it does not match. */
  function QuoteListPrefix(content: string): (n: nat)
    ensures n <= |content|
    ensures n > 0 <==>
      content == "`-`" || StartsWith(content, "`-` ") || content == "-" || StartsWith(content, "- ")
    ensures n > 0 ==> content[..n] in ["`-`", "`-` ", "-", "- "]
  {
    if StartsWith(content, "`-` ") then 4
    else if content == "`-`" then assert content[..3] == content; 3
    else if StartsWith(content, "- ") then 2
    else if content == "-" then assert content[..1] == content; 1
    else 0
  }

  /** The entry a quoted line adds to the quote buffer: a list item for a
      `-` or `` `-` `` line, otherwise the emphasised line with timestamps. */
  function QuoteLine(content: string, render: TimeRender): (r: string)
    ensures QuoteListPrefix(content) > 0 ==>
      StartsWith(r, "<li>") && EndsWith(r, "</li>")
    ensures QuoteListPrefix(content) == 0 ==>
      r == ReplaceAll(Emphasis(content), TimestampAt(render))
  {
    var p := QuoteListPrefix(content);
    if p > 0 then
      var body := "<discord-code>-</discord-code> " + Emphasis(content[p..]);
      var r := "<li>" + body + "</li>";
      assert r[..4] == "<li>";
      assert r[|r| - 5..] == "</li>";
      r
    else
      ReplaceAll(Emphasis(content), TimestampAt(render))
  }

  /** The opening tag of the list a quote of list items becomes. */
  const UnstyledList: string := "<ul style=\"margin: 0; padding-left: 16px; list-style: none;\">"

  /** `formatQuoteLines`: a list when every line is a list item, otherwise
      the lines joined by `<br>`. */
  function FormatQuoteLines(lines: seq<string>): (r: string)
    ensures |lines| == 0 ==> r == ""
    ensures |lines| > 0 && (forall k | 0 <= k < |lines| :: StartsWith(lines[k], "<li>")) ==>
      r == UnstyledList + Concat(lines) + "</ul>"
    ensures (exists k | 0 <= k < |lines| :: !StartsWith(lines[k], "<li>")) ==> r == Join(lines, "<br>")
  {
    if |lines| == 0 then ""
    else if forall k | 0 <= k < |lines| :: StartsWith(lines[k], "<li>") then
      UnstyledList + Concat(lines) + "</ul>"
    else Join(lines, "<br>")
  }
}
