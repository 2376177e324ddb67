/** `parseMarkdownWithCodeBlocks` and `findProxyUrlFromEmbeds` of
    `src/components/MarkdownRenderer.tsx`: closed code fences are lifted out
    of the text before the markdown pass, and the image placeholders the pass
    leaves are lifted out after it, each into an ordered list of numbered
    records. */
module Extractor {
  import opened Optional
  import opened Strings
  import opened DiscordApi
  import Utils
  import Inline
  import Markdown
  import Scanner
  import Rewrite

  datatype CodeBlockInfo = CodeBlockInfo(id: string, language: Option<string>, content: string)

  datatype ImageInfo = ImageInfo(id: string, url: string, alt: string)

  datatype ParsedContent = ParsedContent(html: string, codeBlocks: seq<CodeBlockInfo>, images: seq<ImageInfo>)

  // ----- code blocks -----

  function CodeBlockId(n: nat): string {
    "codeblock-" + NatToString(n)
  }

  /** The marker left in the text where a code block was. */
  function CodeBlockDiv(id: string): string {
    "<div data-codeblock-id=\"" + id + "\"></div>"
  }

  /** The state of the lifting loop; the block counter is `|blocks|`, since
      it grows exactly when a block is pushed. */
  datatype Lift = Lift(
    inCode: bool,
    codeLines: seq<string>,
    language: Option<string>,
    blocks: seq<CodeBlockInfo>,
    residual: seq<string>)

  const Start: Lift := Lift(false, [], None, [], [])

  predicate IsFence(line: string) { StartsWith(line, "```") }

  /** One line of the lifting loop. Records and residual lines are only
      appended; a record is pushed exactly when a fence closes an open block,
      and a fence line, and only a fence line, toggles the fence state. */
  function LiftStep(st: Lift, line: string): (r: Lift)
    ensures st.blocks <= r.blocks && st.residual <= r.residual
    ensures |r.blocks| == |st.blocks| + 1 <==> IsFence(line) && st.inCode
    ensures |r.blocks| <= |st.blocks| + 1
    ensures IsFence(line) <==> r.inCode != st.inCode
  {
    if IsFence(line) then
      if st.inCode then
        var id := CodeBlockId(|st.blocks|);
        st.(blocks := st.blocks + [CodeBlockInfo(id, st.language, Join(st.codeLines, "\n"))],
            residual := st.residual + [CodeBlockDiv(id), "<div></div>"],
            codeLines := [], language := None, inCode := false)
      else
        st.(language := NonEmpty(line[3..]), inCode := true)
    else if st.inCode then
      st.(codeLines := st.codeLines + [line])
    else
      st.(residual := st.residual + [line])
  }

  /** The lifting loop over `lines`, from state `st`: records and residual
      lines are only appended, at most one record per line. */
  function LiftFrom(st: Lift, lines: seq<string>): (r: Lift)
    ensures st.blocks <= r.blocks && st.residual <= r.residual
    ensures |r.blocks| <= |st.blocks| + |lines|
    decreases |lines|
  {
    if |lines| == 0 then st else LiftFrom(LiftStep(st, lines[0]), lines[1..])
  }

  /** Ids run `codeblock-0`, `codeblock-1`, … in the order blocks are
      closed, and outside a fence no code is buffered. */
  predicate LiftInv(st: Lift) {
    (forall k | 0 <= k < |st.blocks| :: st.blocks[k].id == CodeBlockId(k))
    && (!st.inCode ==> st.codeLines == [] && st.language.None?)
  }

  lemma {:induction false} LiftKeepsInv(st: Lift, lines: seq<string>)
    requires LiftInv(st)
    ensures LiftInv(LiftFrom(st, lines))
    decreases |lines|
  {
    if |lines| > 0 {
      var next := LiftStep(st, lines[0]);
      assert LiftInv(next) by {
        forall k | 0 <= k < |next.blocks| ensures next.blocks[k].id == CodeBlockId(k) {
          if k < |st.blocks| {
            assert next.blocks[k] == st.blocks[k];
          }
        }
      }
      LiftKeepsInv(next, lines[1..]);
    }
  }

  /** Lifting `a + b` is lifting `a`, then `b`. */
  lemma {:induction false} LiftAppend(st: Lift, a: seq<string>, b: seq<string>)
    ensures LiftFrom(st, a + b) == LiftFrom(LiftFrom(st, a), b)
    decreases |a|
  {
    if |a| > 0 {
      assert (a + b)[0] == a[0] && (a + b)[1..] == a[1..] + b;
      LiftAppend(LiftStep(st, a[0]), a[1..], b);
    } else {
      assert a + b == b;
    }
  }

  /** Outside a fence, lines that are not fences pass to the residual text
      unchanged and in order. */
  lemma {:induction false} PlainLinesPass(st: Lift, lines: seq<string>)
    requires !st.inCode
    requires forall k | 0 <= k < |lines| :: !IsFence(lines[k])
    ensures LiftFrom(st, lines) == st.(residual := st.residual + lines)
    decreases |lines|
  {
    if |lines| == 0 {
      assert st.residual + lines == st.residual;
    } else {
      PlainLinesPass(st.(residual := st.residual + [lines[0]]), lines[1..]);
      assert st.residual + [lines[0]] + lines[1..] == st.residual + lines;
    }
  }

  /** Inside a fence, lines that are not fences go to the code buffer. */
  lemma {:induction false} CodeLinesBuffered(st: Lift, lines: seq<string>)
    requires st.inCode
    requires forall k | 0 <= k < |lines| :: !IsFence(lines[k])
    ensures LiftFrom(st, lines) == st.(codeLines := st.codeLines + lines)
    decreases |lines|
  {
    if |lines| == 0 {
      assert st.codeLines + lines == st.codeLines;
    } else {
      CodeLinesBuffered(st.(codeLines := st.codeLines + [lines[0]]), lines[1..]);
      assert st.codeLines + [lines[0]] + lines[1..] == st.codeLines + lines;
    }
  }

  /** A closed fence yields one record, numbered by the blocks before it,
      holding the inner lines joined by newlines and the text after the
      opening backticks as language (or none); the residual text gets the
      marker and one empty div in its place. */
  lemma ClosedFence(st: Lift, open: string, inner: seq<string>, close: string)
    requires LiftInv(st) && !st.inCode
    requires IsFence(open) && IsFence(close)
    requires forall k | 0 <= k < |inner| :: !IsFence(inner[k])
    ensures var id := CodeBlockId(|st.blocks|);
      LiftFrom(st, [open] + inner + [close])
        == st.(blocks := st.blocks + [CodeBlockInfo(id, NonEmpty(open[3..]), Join(inner, "\n"))],
               residual := st.residual + [CodeBlockDiv(id), "<div></div>"])
  {
    var started := st.(language := NonEmpty(open[3..]), inCode := true);
    LiftAppend(st, [open] + inner, [close]);
    LiftAppend(st, [open], inner);
    assert LiftFrom(st, [open]) == started;
    CodeLinesBuffered(started, inner);
    var full := started.(codeLines := inner);
    assert started.codeLines + inner == inner;
    assert LiftFrom(full, [close]) == LiftStep(full, close);
  }

  /** A fence still open at the end of the input yields no record, and its
      lines are dropped. */
  lemma OpenFenceDropped(st: Lift, open: string, rest: seq<string>)
    requires LiftInv(st) && !st.inCode
    requires IsFence(open)
    requires forall k | 0 <= k < |rest| :: !IsFence(rest[k])
    ensures LiftFrom(st, [open] + rest).blocks == st.blocks
    ensures LiftFrom(st, [open] + rest).residual == st.residual
  {
    var started := st.(language := NonEmpty(open[3..]), inCode := true);
    LiftAppend(st, [open], rest);
    assert LiftFrom(st, [open]) == started;
    CodeLinesBuffered(started, rest);
  }

  // ----- image placeholders -----

  predicate QuoteFree(s: string) { forall k | 0 <= k < |s| :: s[k] != '"' }

  predicate NotQuote(c: char) { c != '"' }

  /** The placeholder regex at `i`: `([^"]*)` runs up to the next quote, so
      the match is unique when it exists. Gives its end, url and alt. */
  function PlaceholderFields(s: string, i: nat): (r: Option<(nat, string, string)>)
    ensures r.Some? ==> i < r.value.0 <= |s|
  {
    match FieldEnds(s, i, Inline.PlaceholderOpen, Inline.PlaceholderMiddle, Inline.PlaceholderClose)
    case None => None
    case Some((b, d)) =>
      Some((d + |Inline.PlaceholderClose|, s[i + |Inline.PlaceholderOpen|..b], s[b + |Inline.PlaceholderMiddle|..d]))
  }

  /** A placeholder match spans exactly the placeholder of its fields, and
      neither field holds a quote. */
  lemma PlaceholderSpelled(s: string, i: nat)
    ensures match PlaceholderFields(s, i)
      case Some((end, url, alt)) =>
        QuoteFree(url) && QuoteFree(alt) && s[i..end] == Inline.ImagePlaceholder(url, alt)
      case None => true
  {
    FieldEndsSpelled(s, i, Inline.PlaceholderOpen, Inline.PlaceholderMiddle, Inline.PlaceholderClose);
  }

  /** `open([^"]*)middle([^"]*)close` at `i`: where its two fields end. */
  function FieldEnds(s: string, i: nat, open: string, middle: string, close: string): (r: Option<(nat, nat)>)
    requires |open| > 0
    ensures r.Some? ==>
      i + |open| <= r.value.0 && r.value.0 + |middle| <= r.value.1 && r.value.1 + |close| <= |s|
    ensures r.Some? ==>
      StartsWith(s[i..], open) && StartsWith(s[r.value.0..], middle) && StartsWith(s[r.value.1..], close)
      && (forall k | i + |open| <= k < r.value.0 :: NotQuote(s[k]))
      && (forall k | r.value.0 + |middle| <= k < r.value.1 :: NotQuote(s[k]))
  {
    if i > |s| || !StartsWith(s[i..], open) then None
    else
      match FieldThen(s, i + |open|, middle)
      case None => None
      case Some(b) =>
        match FieldThen(s, b + |middle|, close)
        case None => None
        case Some(d) => Some((b, d))
  }

  /** The text from `i` to the end of the closing delimiter is `open`, a
      quote-free field ending at `b`, `middle`, a quote-free field ending at
      `d`, and `close`. */
  predicate Spelled(s: string, i: nat, b: nat, d: nat, open: string, middle: string, close: string)
    requires i + |open| <= b && b + |middle| <= d && d + |close| <= |s|
  {
    var url := s[i + |open|..b];
    var alt := s[b + |middle|..d];
    QuoteFree(url) && QuoteFree(alt) && s[i..d + |close|] == open + url + middle + alt + close
  }

  /** A match is its delimiters around two quote-free fields. */
  lemma FieldEndsSpelled(s: string, i: nat, open: string, middle: string, close: string)
    requires |open| > 0
    ensures var r := FieldEnds(s, i, open, middle, close);
      r.Some? ==> Spelled(s, i, r.value.0, r.value.1, open, middle, close)
  {
    var r := FieldEnds(s, i, open, middle, close);
    if r.Some? {
      var b, d := r.value.0, r.value.1;
      FieldPieces(s, i, i + |open|, b, b + |middle|, d, d + |close|, open, middle, close);
    }
  }

  /** `([^"]*)` from `a` followed by `delim`: where the field ends. The run
      of non-quotes cannot stop early, since `delim` opens with a quote. */
  function FieldThen(s: string, a: nat, delim: string): (r: Option<nat>)
    requires a <= |s|
    ensures r.Some? ==> a <= r.value <= |s| && StartsWith(s[r.value..], delim)
    ensures r.Some? ==> forall k | a <= k < r.value :: NotQuote(s[k])
    decreases |s| - a
  {
    if a < |s| && NotQuote(s[a]) then FieldThen(s, a + 1, delim)
    else if StartsWith(s[a..], delim) then Some(a)
    else None
  }

  /** A quote-free field that ends at a quote opening `delim` is found. */
  lemma {:induction false} FieldThenAt(s: string, a: nat, b: nat, delim: string)
    requires a <= b <= |s| && StartsWith(s[b..], delim) && |delim| > 0 && delim[0] == '"'
    requires forall k | a <= k < b :: NotQuote(s[k])
    ensures FieldThen(s, a, delim) == Some(b)
    decreases b - a
  {
    if a < b {
      FieldThenAt(s, a + 1, b, delim);
    } else {
      assert s[b..][0] == delim[0];
    }
  }

  /** The located pieces of a match: two quote-free fields that spell it. */
  lemma FieldPieces(s: string, i: nat, a: nat, b: nat, c: nat, d: nat, e: nat, open: string, middle: string, close: string)
    requires i + |open| == a <= b && b + |middle| == c <= d && d + |close| == e <= |s|
    requires StartsWith(s[i..], open) && StartsWith(s[b..], middle) && StartsWith(s[d..], close)
    requires forall k | a <= k < b :: NotQuote(s[k])
    requires forall k | c <= k < d :: NotQuote(s[k])
    ensures Spelled(s, i, b, d, open, middle, close)
  {
    RunIsQuoteFree(s, a, b - a);
    RunIsQuoteFree(s, c, d - c);
    SpellFields(s, i, a, b, c, d, e, open, middle, close);
  }

  lemma RunIsQuoteFree(s: string, a: nat, n: nat)
    requires a + n <= |s|
    requires forall k | a <= k < a + n :: NotQuote(s[k])
    ensures QuoteFree(s[a..a + n])
  {
    var f := s[a..a + n];
    forall k | 0 <= k < n ensures f[k] != '"' {
      assert f[k] == s[a + k];
    }
  }

  /** The matched text, piece by piece, is its delimiters around its fields. */
  lemma SpellFields(s: string, i: nat, a: nat, b: nat, c: nat, d: nat, e: nat, open: string, middle: string, close: string)
    requires i + |open| == a <= b && b + |middle| == c <= d && d + |close| == e <= |s|
    requires StartsWith(s[i..], open) && StartsWith(s[b..], middle) && StartsWith(s[d..], close)
    ensures s[i..e] == open + s[a..b] + middle + s[c..d] + close
  {
    var t := s[c..d] + close;
    assert s[c..e] == t by {
      SliceSplit(s, c, d, e);
      assert s[d..e] == s[d..][..|close|];
    }
    var u := middle + t;
    assert s[b..e] == u by {
      SliceSplit(s, b, c, e);
      assert s[b..c] == s[b..][..|middle|];
    }
    var v := s[a..b] + u;
    assert s[a..e] == v by {
      SliceSplit(s, a, b, e);
    }
    assert s[i..e] == open + v by {
      SliceSplit(s, i, a, e);
      assert s[i..a] == s[i..][..|open|];
    }
    Assoc4(open, s[a..b], middle, s[c..d], close);
  }

  /** The placeholder the markdown pass writes is read back by the lifting
      regex, as long as neither field holds a quote. */
  lemma PlaceholderRoundTrip(url: string, alt: string)
    requires QuoteFree(url) && QuoteFree(alt)
    ensures var s := Inline.ImagePlaceholder(url, alt);
      PlaceholderFields(s, 0) == Some((|s|, url, alt))
  {
    var s := Inline.ImagePlaceholder(url, alt);
    var a := |Inline.PlaceholderOpen|;
    var b := a + |url|;
    var c := b + |Inline.PlaceholderMiddle|;
    var d := c + |alt|;
    FieldEndsRoundTrip(Inline.PlaceholderOpen, url, Inline.PlaceholderMiddle, alt, Inline.PlaceholderClose);
    assert s[a..b] == url && s[c..d] == alt;
  }

  /** Delimiters that open with a quote end each quote-free field, so the
      fields are found where they end. */
  lemma FieldEndsRoundTrip(open: string, url: string, middle: string, alt: string, close: string)
    requires |open| > 0 && |middle| > 0 && middle[0] == '"' && |close| > 0 && close[0] == '"'
    requires QuoteFree(url) && QuoteFree(alt)
    ensures FieldEnds(open + url + middle + alt + close, 0, open, middle, close)
         == Some((|open| + |url|, |open| + |url| + |middle| + |alt|))
  {
    var s := open + url + middle + alt + close;
    var b := |open| + |url|;
    var c := b + |middle|;
    var d := c + |alt|;
    assert StartsWith(s[0..], open) by {
      assert s[0..] == s && s[..|open|] == open;
    }
    assert StartsWith(s[b..], middle) by {
      assert s[b..][..|middle|] == middle;
    }
    assert StartsWith(s[d..], close) by {
      assert s[d..] == close;
    }
    assert forall k | |open| <= k < b :: NotQuote(s[k]) by {
      forall k | |open| <= k < b ensures NotQuote(s[k]) {
        assert s[k] == url[k - |open|];
      }
    }
    assert forall k | c <= k < d :: NotQuote(s[k]) by {
      forall k | c <= k < d ensures NotQuote(s[k]) {
        assert s[k] == alt[k - c];
      }
    }
    FieldEndsLocated(s, 0, b, d, open, middle, close);
  }

  /** Fields located by where they end, each followed by a delimiter that
      opens with a quote, are the ones the match finds. */
  lemma FieldEndsLocated(s: string, i: nat, b: nat, d: nat, open: string, middle: string, close: string)
    requires |open| > 0 && |middle| > 0 && middle[0] == '"' && |close| > 0 && close[0] == '"'
    requires i <= |s| && StartsWith(s[i..], open)
    requires i + |open| <= b <= |s| && StartsWith(s[b..], middle)
    requires b + |middle| <= d <= |s| && StartsWith(s[d..], close)
    requires forall k | i + |open| <= k < b :: NotQuote(s[k])
    requires forall k | b + |middle| <= k < d :: NotQuote(s[k])
    ensures FieldEnds(s, i, open, middle, close) == Some((b, d))
  {
    FieldThenAt(s, i + |open|, b, middle);
    FieldThenAt(s, b + |middle|, d, close);
    FieldEndsAt(s, i, b, d, open, middle, close);
  }

  /** The match at `i` once both fields are located. */
  lemma FieldEndsAt(s: string, i: nat, b: nat, d: nat, open: string, middle: string, close: string)
    requires |open| > 0 && i <= |s| && StartsWith(s[i..], open)
    requires i + |open| <= b <= |s| && b + |middle| <= |s|
    requires FieldThen(s, i + |open|, middle) == Some(b)
    requires FieldThen(s, b + |middle|, close) == Some(d)
    ensures FieldEnds(s, i, open, middle, close) == Some((b, d))
  {
  }

  function ImageId(n: nat): string {
    "image-" + NatToString(n)
  }

  function ImageDiv(id: string): string {
    "<div data-image-id=\"" + id + "\"></div>"
  }

  /** The placeholder regex as a matcher; a match stands for the matched text. */
  function PlaceholderAt(): Rewrite.Matcher {
    (s: string, i: nat) =>
      match PlaceholderFields(s, i)
      case None => None
      case Some((end, url, alt)) => Some(Rewrite.Hit(end, Inline.ImagePlaceholder(url, alt)))
  }

  /** The placeholder replace from position `i`, with `next` the counter's
      value: the rewritten text and the records pushed, in order. */
  function LiftImagesFrom(s: string, i: nat, next: nat): (r: (string, seq<ImageInfo>))
    ensures forall k | 0 <= k < |r.1| :: r.1[k].id == ImageId(next + k)
    decreases |s| - i
  {
    if i >= |s| then ("", [])
    else
      match PlaceholderFields(s, i)
      case Some((end, url, alt)) =>
        var id := ImageId(next);
        var rest := LiftImagesFrom(s, end, next + 1);
        var r := (ImageDiv(id) + rest.0, [ImageInfo(id, url, alt)] + rest.1);
        assert forall k | 0 < k < |r.1| :: r.1[k] == rest.1[k - 1];
        r
      case None =>
        var rest := LiftImagesFrom(s, i + 1, next);
        ([s[i]] + rest.0, rest.1)
  }

  /** One image is lifted per placeholder match, in order, carrying that
      match's url and alt. */
  lemma {:induction false} LiftedImagesAreMatches(s: string, i: nat, next: nat)
    ensures var images := LiftImagesFrom(s, i, next).1;
      var found := Rewrite.MatchesFrom(s, i, PlaceholderAt());
      |images| == |found|
      && forall k | 0 <= k < |images| :: found[k] == Inline.ImagePlaceholder(images[k].url, images[k].alt)
    decreases |s| - i
  {
    if i < |s| {
      match PlaceholderFields(s, i)
      case Some((end, url, alt)) =>
        assert Rewrite.Fires(s, i, PlaceholderAt());
        LiftedImagesAreMatches(s, end, next + 1);
        assert Rewrite.MatchesFrom(s, i, PlaceholderAt())
            == [Inline.ImagePlaceholder(url, alt)] + Rewrite.MatchesFrom(s, end, PlaceholderAt());
        assert LiftImagesFrom(s, i, next).1
            == [ImageInfo(ImageId(next), url, alt)] + LiftImagesFrom(s, end, next + 1).1;
      case None =>
        assert !Rewrite.Fires(s, i, PlaceholderAt());
        LiftedImagesAreMatches(s, i + 1, next);
    }
  }

  /** Text without a placeholder is left as it is, and no image is lifted. */
  lemma {:induction false} NoPlaceholderUnchanged(s: string, i: nat, next: nat)
    requires i <= |s|
    requires forall k | i <= k < |s| :: PlaceholderFields(s, k).None?
    ensures LiftImagesFrom(s, i, next) == (s[i..], [])
    decreases |s| - i
  {
    if i < |s| {
      NoPlaceholderUnchanged(s, i + 1, next);
      assert s[i..] == [s[i]] + s[i + 1..];
    }
  }

  // ----- the whole extraction -----

  /** `parseMarkdownWithCodeBlocks`: empty content gives nothing; otherwise
      code blocks are lifted out line by line, the rest goes through the
      markdown pass, and image placeholders are lifted out of the result. */
  function ParseMarkdownWithCodeBlocks(markdown: string, ctx: Option<Markdown.MentionContext>, render: Inline.TimeRender): (r: ParsedContent)
    ensures markdown == "" ==> r == ParsedContent("", [], [])
    ensures forall k | 0 <= k < |r.codeBlocks| :: r.codeBlocks[k].id == CodeBlockId(k)
    ensures forall k | 0 <= k < |r.images| :: r.images[k].id == ImageId(k)
  {
    if markdown == "" then ParsedContent("", [], [])
    else
      var lifted := LiftFrom(Start, Split(markdown, '\n'));
      LiftKeepsInv(Start, Split(markdown, '\n'));
      var html := Scanner.ParseMarkdown(Join(lifted.residual, "\n"), ctx, true, render);
      var (out, images) := LiftImagesFrom(html, 0, 0);
      ParsedContent(out, lifted.blocks, images)
  }

  /** Content with no fence reaches the markdown pass unchanged. */
  lemma NoFenceReachesMarkdown(markdown: string)
    requires forall k | 0 <= k < |Split(markdown, '\n')| :: !IsFence(Split(markdown, '\n')[k])
    ensures var lifted := LiftFrom(Start, Split(markdown, '\n'));
      lifted.blocks == [] && Join(lifted.residual, "\n") == markdown
  {
    PlainLinesPass(Start, Split(markdown, '\n'));
    assert Start.residual + Split(markdown, '\n') == Split(markdown, '\n');
    JoinSplit(markdown, '\n');
  }

  // ----- proxy URLs from embeds -----

  predicate HasProxy(m: Option<Media>) {
    m.Some? && Truthy(m.value.proxyUrl)
  }

  predicate MediaAt(m: Option<Media>, url: string) {
    m.Some? && m.value.url == url
  }

  /** What one embed offers for the image `url` (`converted` is its proxied
      form), checked in this order: the embed's own URL with a thumbnail
      proxy, then the image, the thumbnail and the video whose URL is `url`,
      then the thumbnail whose URL is `converted`. */
  function EmbedProxy(e: Embed, url: string, converted: string): (r: Option<string>)
    ensures r.None? <==>
      !((e.url == Some(url) && HasProxy(e.thumbnail))
        || (MediaAt(e.image, url) && HasProxy(e.image))
        || (MediaAt(e.thumbnail, url) && HasProxy(e.thumbnail))
        || (MediaAt(e.video, url) && HasProxy(e.video))
        || (e.thumbnail.Some? && e.thumbnail.value.url != "" && converted != ""
            && MediaAt(e.thumbnail, converted) && HasProxy(e.thumbnail)))
    ensures r.Some? ==> r.value != ""
    ensures r.Some? ==>
      (HasProxy(e.thumbnail) && r == e.thumbnail.value.proxyUrl)
      || (HasProxy(e.image) && r == e.image.value.proxyUrl)
      || (HasProxy(e.video) && r == e.video.value.proxyUrl)
    ensures var checks := ProxyChecks(e, url, converted);
      forall j | 0 <= j < |checks| ::
        checks[j].0 && (forall i | 0 <= i < j :: !checks[i].0) ==> r == checks[j].1
  {
    var checks := ProxyChecks(e, url, converted);
    assert checks[0].1 == checks[2].1 == checks[4].1 == ProxyOf(e.thumbnail);
    assert checks[1].1 == ProxyOf(e.image) && checks[3].1 == ProxyOf(e.video);
    if e.url == Some(url) && HasProxy(e.thumbnail) then e.thumbnail.value.proxyUrl
    else if MediaAt(e.image, url) && HasProxy(e.image) then e.image.value.proxyUrl
    else if MediaAt(e.thumbnail, url) && HasProxy(e.thumbnail) then e.thumbnail.value.proxyUrl
    else if MediaAt(e.video, url) && HasProxy(e.video) then e.video.value.proxyUrl
    else if e.thumbnail.Some? && e.thumbnail.value.url != "" && converted != ""
      && MediaAt(e.thumbnail, converted) && HasProxy(e.thumbnail) then e.thumbnail.value.proxyUrl
    else None
  }

  function ProxyOf(m: Option<Media>): Option<string> {
    if m.Some? then m.value.proxyUrl else None
  }

  /** The five checks of one embed in the order the loop body makes them,
      each with the proxy URL it returns. */
  function ProxyChecks(e: Embed, url: string, converted: string): (r: seq<(bool, Option<string>)>)
    ensures |r| == 5
  {
    [ (e.url == Some(url) && HasProxy(e.thumbnail), ProxyOf(e.thumbnail)),
      (MediaAt(e.image, url) && HasProxy(e.image), ProxyOf(e.image)),
      (MediaAt(e.thumbnail, url) && HasProxy(e.thumbnail), ProxyOf(e.thumbnail)),
      (MediaAt(e.video, url) && HasProxy(e.video), ProxyOf(e.video)),
      (e.thumbnail.Some? && e.thumbnail.value.url != "" && converted != ""
        && MediaAt(e.thumbnail, converted) && HasProxy(e.thumbnail), ProxyOf(e.thumbnail)) ]
  }

  /** `findProxyUrlFromEmbeds`: with no embeds the URL itself; otherwise what
      the first embed with a match offers; otherwise the proxied URL, or the
      URL when that is empty. */
  function FindProxyUrlFromEmbeds(url: string, embeds: Option<seq<Embed>>, rehost: Utils.UrlRewrite): (r: string)
    ensures embeds.None? ==> r == url
    ensures embeds.Some? ==>
      var converted := Utils.GetDiscordProxyUrl(url, rehost);
      var es := embeds.value;
      && ((forall k | 0 <= k < |es| :: EmbedProxy(es[k], url, converted).None?) ==>
            r == (if converted != "" then converted else url))
      && (forall k | 0 <= k < |es| ::
            EmbedProxy(es[k], url, converted).Some?
            && (forall j | 0 <= j < k :: EmbedProxy(es[j], url, converted).None?)
            ==> r == EmbedProxy(es[k], url, converted).value)
  {
    if embeds.None? then url
    else
      var converted := Utils.GetDiscordProxyUrl(url, rehost);
      var es := embeds.value;
      var p := (e: Embed) => EmbedProxy(e, url, converted).Some?;
      match Markdown.FindFirst(es, p)
      case Some(k) =>
        FirstIsUnique(es, p, k);
        EmbedProxy(es[k], url, converted).value
      case None => if converted != "" then converted else url
  }

  /** Only one index can be the first to satisfy `p`. */
  lemma FirstIsUnique<T>(xs: seq<T>, p: T -> bool, k: nat)
    requires k < |xs| && p(xs[k]) && forall j | 0 <= j < k :: !p(xs[j])
    ensures forall m | 0 <= m < |xs| && p(xs[m]) && (forall j | 0 <= j < m :: !p(xs[j])) :: m == k
  {
  }

  /** An embed whose own URL is the image and which has a thumbnail proxy
      wins over any matching image, thumbnail or video of later embeds, and
      over its own image. */
  lemma EmbedUrlFirst(url: string, e: Embed, rest: seq<Embed>, rehost: Utils.UrlRewrite)
    requires e.url == Some(url) && HasProxy(e.thumbnail)
    ensures FindProxyUrlFromEmbeds(url, Some([e] + rest), rehost) == e.thumbnail.value.proxyUrl.value
  {
    var es := [e] + rest;
    assert es[0] == e;
  }
}
