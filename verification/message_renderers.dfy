/** The selection rules of `src/lib/messageRenderers.tsx`: which embeds are
    GIFs, which image URLs the message text shows, which embeds are dropped
    because the text already shows their image, the GIF preview URL and the
    numbering of inline fields. The JSX itself is not modelled; each rendered
    embed is reduced to its colour, its images, its inline-field numbering and
    whether a break follows it. Title, URL, author, description, field names
    and values, and footer are passed through by the source and are not
    modelled. */
module MessageRenderers {
  import opened Optional
  import opened Strings
  import opened DiscordApi
  import Rewrite
  import Utils
  import Markdown
  import Seqs

  // ----- GIF embeds -----

  /** `isGifEmbed`: `type` is `gifv`, or the provider name holds `tenor` or
      `giphy` in any case, or the URL holds `tenor.com` or `giphy.com`, or a
      non-empty video URL holds `.gif`, `tenor` or `giphy`. Each of these
      makes the embed a GIF; an embed that is not `gifv` and has no provider
      name, no URL and no non-empty video URL never is. */
  function IsGifEmbed(e: Embed): (r: bool)
    ensures e.kind == Some("gifv") ==> r
    ensures (e.providerName.Some? && (Contains(ToLower(e.providerName.value), "tenor")
                                     || Contains(ToLower(e.providerName.value), "giphy"))) ==> r
    ensures e.video.Some? && Contains(e.video.value.url, ".gif") ==> r
    ensures (e.video.Some? && e.video.value.url != ""
             && (Contains(e.video.value.url, "tenor") || Contains(e.video.value.url, "giphy"))) ==> r
    ensures r ==> (e.kind == Some("gifv") || e.providerName.Some? || e.url.Some?
                   || (e.video.Some? && e.video.value.url != ""))
    ensures e.kind.None? && e.providerName.None? && e.url.None? && e.video.None? ==> !r
  {
    e.kind == Some("gifv")
    || (e.providerName.Some? && Contains(ToLower(e.providerName.value), "tenor"))
    || (e.providerName.Some? && Contains(ToLower(e.providerName.value), "giphy"))
    || (e.url.Some? && Contains(e.url.value, "tenor.com"))
    || (e.url.Some? && Contains(e.url.value, "giphy.com"))
    || (e.video.Some? && e.video.value.url != ""
        && (Contains(e.video.value.url, ".gif") || Contains(e.video.value.url, "tenor")
            || Contains(e.video.value.url, "giphy")))
  }

  /** The provider test ignores case: lower-casing the provider name never
      changes the verdict. */
  lemma GifProviderIgnoresCase(e: Embed, name: string)
    requires e.providerName == Some(name)
    ensures IsGifEmbed(e.(providerName := Some(ToLower(name)))) == IsGifEmbed(e)
  {
    Utils.ToLowerIdempotent(name);
  }

  /** An embed whose own URL is on Tenor or Giphy is a GIF whatever else it holds. */
  lemma GifHostIsGif(e: Embed)
    requires e.url.Some? && (Contains(e.url.value, "tenor.com") || Contains(e.url.value, "giphy.com"))
    ensures IsGifEmbed(e)
  {
  }

  /** A YouTube video embed is not a GIF: its type, provider, URL and video
      URL hold none of the GIF markers. */
  lemma YouTubeEmbedNotGif(e: Embed)
    requires e.kind == Some("video") && e.providerName == Some("YouTube")
    requires e.url == Some("https://youtu.be/x")
    requires e.video.Some? && e.video.value.url == "https://youtu.be/x"
    ensures !IsGifEmbed(e)
  {
    YouTubeNameNoMarker();
    YouTubeUrlNoMarker();
  }

  lemma YouTubeNameNoMarker()
    ensures var name := ToLower("YouTube");
      !Contains(name, "tenor") && !Contains(name, "giphy")
  {
    var name := ToLower("YouTube");
    assert name == "youtube";
    NoGifMarker(name);
  }

  lemma YouTubeUrlNoMarker()
    ensures var u := "https://youtu.be/x";
      !Contains(u, "tenor") && !Contains(u, "giphy") && !Contains(u, ".gif")
      && !Contains(u, "tenor.com") && !Contains(u, "giphy.com")
  {
    NoGifMarker("https://youtu.be/x");
  }

  /** Text without `n` and `g` holds none of the GIF markers. */
  lemma NoGifMarker(s: string)
    requires 'n' !in s && 'g' !in s
    ensures !Contains(s, "tenor") && !Contains(s, "giphy") && !Contains(s, ".gif")
    ensures !Contains(s, "tenor.com") && !Contains(s, "giphy.com")
  {
    AbsentCharNotContained(s, "tenor", 2);
    AbsentCharNotContained(s, "giphy", 0);
    AbsentCharNotContained(s, ".gif", 1);
    AbsentCharNotContained(s, "tenor.com", 2);
    AbsentCharNotContained(s, "giphy.com", 0);
  }

  /** The preview of a GIF embed: thumbnail proxy, thumbnail URL, video
      proxy, image proxy, image URL, the first truthy one. */
  function GifCandidates(e: Embed): seq<Option<string>> {
    [ if e.thumbnail.Some? then e.thumbnail.value.proxyUrl else None,
      if e.thumbnail.Some? then Some(e.thumbnail.value.url) else None,
      if e.video.Some? then e.video.value.proxyUrl else None,
      if e.image.Some? then e.image.value.proxyUrl else None,
      if e.image.Some? then Some(e.image.value.url) else None ]
  }

  function GifPreview(e: Embed): (r: Option<string>)
    ensures r.None? <==> forall k | 0 <= k < 5 :: !Truthy(GifCandidates(e)[k])
    ensures r.Some? ==> r.value != "" && exists k | 0 <= k < 5 ::
      GifCandidates(e)[k] == r && forall j | 0 <= j < k :: !Truthy(GifCandidates(e)[j])
  {
    Markdown.FirstTruthy(GifCandidates(e))
  }

  /** A thumbnail proxy, when present, is always the preview. */
  lemma ThumbnailProxyFirst(e: Embed)
    requires e.thumbnail.Some? && Truthy(e.thumbnail.value.proxyUrl)
    ensures GifPreview(e) == e.thumbnail.value.proxyUrl
  {
    assert Truthy(GifCandidates(e)[0]);
  }

  // ----- image URLs shown by the message text -----

  /** `/\[([^\]]+)\]\(([^)]+)\)/g`, giving the URL of each link. */
  function LinkUrlAt(): Rewrite.Matcher {
    (s: string, i: nat) =>
      match Markdown.MarkdownLinkFields(s, i)
      case None => None
      case Some((end, _, url)) => Some(Rewrite.Hit(end, url))
  }

  /** `/<(https?:\/\/[^\s>]+)>/g`, giving the URL inside the brackets. */
  function AngleUrlAt(): Rewrite.Matcher {
    (s: string, i: nat) =>
      match Markdown.AngleUrlFields(s, i)
      case None => None
      case Some((end, url)) => Some(Rewrite.Hit(end, url))
  }

  /** `/(?<!href="|">)(https?:\/\/[^\s<]+)(?![^<]*<\/)/g`, giving the URL. */
  function BareUrlAt(): Rewrite.Matcher {
    (s: string, i: nat) =>
      match Markdown.BareUrlEnd(s, i, ["href=\"", "\">"], "</", false)
      case None => None
      case Some(end) => Some(Rewrite.Hit(end, s[i..end]))
  }

  /** `extractImageUrlsFromContent`: the image URLs of the markdown links,
      then of the angle-bracketed links, then of the bare URLs. */
  function ExtractImageUrlsFromContent(content: string): (r: seq<string>)
    ensures content == "" ==> r == []
    ensures forall k | 0 <= k < |r| :: Utils.IsImageUrl(r[k])
  {
    if content == "" then []
    else
      Seqs.Filter(Rewrite.Matches(content, LinkUrlAt()), Utils.IsImageUrl)
      + Seqs.Filter(Rewrite.Matches(content, AngleUrlAt()), Utils.IsImageUrl)
      + Seqs.Filter(Rewrite.Matches(content, BareUrlAt()), Utils.IsImageUrl)
  }

  /** Text without a link, a `<` or a scheme shows no image. */
  lemma PlainTextShowsNoImage(content: string)
    requires '[' !in content && '<' !in content && 'h' !in content
    ensures ExtractImageUrlsFromContent(content) == []
  {
    forall k | 0 <= k < |content|
      ensures !Rewrite.Fires(content, k, LinkUrlAt())
      ensures !Rewrite.Fires(content, k, AngleUrlAt())
      ensures !Rewrite.Fires(content, k, BareUrlAt())
    {
      assert content[k] in content;
      var t := content[k..];
      assert t[0] == content[k];
    }
    Rewrite.NoMatchIdentity(content, LinkUrlAt());
    Rewrite.NoMatchIdentity(content, AngleUrlAt());
    Rewrite.NoMatchIdentity(content, BareUrlAt());
  }

  // ----- the embed filter -----

  /** `getDiscordAttachmentPath` parses its argument as a URL; it is a
      parameter here. */
  type AttachmentPath = string -> Option<string>

  function ImageUrl(e: Embed): Option<string> {
    if e.image.Some? then Some(e.image.value.url) else None
  }

  /** `u?.split("?")[0]`. */
  function Base(u: Option<string>): Option<string> {
    if u.Some? then Some(Before(u.value, '?')) else None
  }

  /** `u && path(u)`: a falsy URL is not looked up. */
  function PathOf(u: Option<string>, path: AttachmentPath): Option<string> {
    if Truthy(u) then path(u.value) else None
  }

  /** The test `renderEmbeds` applies between an embed and one URL shown by
      the text: the same attachment path, or the embed's image URL or URL
      equal to the URL, whole or cut at the first `?`. An image URL or URL
      that agrees with the shown URL before the first `?` always counts; an
      embed with neither, for a URL without an attachment path, never does. */
  function ShowsSameImage(e: Embed, contentUrl: string, path: AttachmentPath): (r: bool)
    ensures ImageUrl(e).Some? && Before(ImageUrl(e).value, '?') == Before(contentUrl, '?') ==> r
    ensures e.url.Some? && Before(e.url.value, '?') == Before(contentUrl, '?') ==> r
    ensures ImageUrl(e).None? && e.url.None? && !Truthy(path(contentUrl)) ==> !r
  {
    var contentPath := path(contentUrl);
    var imagePath := PathOf(ImageUrl(e), path);
    var urlPath := PathOf(e.url, path);
    (Truthy(contentPath)
      && ((Truthy(imagePath) && imagePath == contentPath) || (Truthy(urlPath) && urlPath == contentPath)))
    || ImageUrl(e) == Some(contentUrl)
    || Base(ImageUrl(e)) == Some(Before(contentUrl, '?'))
    || e.url == Some(contentUrl)
    || Base(e.url) == Some(Before(contentUrl, '?'))
  }

  /** The whole-URL comparisons add nothing: equal URLs have equal parts
      before the first `?`, so the test is the path test or a base test. */
  lemma ShowsSameImageByBase(e: Embed, contentUrl: string, path: AttachmentPath)
    ensures ShowsSameImage(e, contentUrl, path) <==>
      (Truthy(path(contentUrl))
        && ((Truthy(PathOf(ImageUrl(e), path)) && PathOf(ImageUrl(e), path) == path(contentUrl))
            || (Truthy(PathOf(e.url, path)) && PathOf(e.url, path) == path(contentUrl))))
      || Base(ImageUrl(e)) == Some(Before(contentUrl, '?'))
      || Base(e.url) == Some(Before(contentUrl, '?'))
  {
  }

  /** The filter predicate: an embed with neither an image URL nor a URL is
      kept; any other is kept unless the text shows the same image. With no
      image URLs in the text every embed is kept, and an embed whose image
      URL agrees with a shown URL before the first `?` is dropped. */
  function KeepEmbed(e: Embed, contentUrls: seq<string>, path: AttachmentPath): (r: bool)
    ensures contentUrls == [] ==> r
    ensures !Truthy(ImageUrl(e)) && !Truthy(e.url) ==> r
    ensures Truthy(ImageUrl(e))
      && (exists k | 0 <= k < |contentUrls| :: Before(ImageUrl(e).value, '?') == Before(contentUrls[k], '?'))
      ==> !r
  {
    !(Truthy(ImageUrl(e)) || Truthy(e.url))
    || !exists k | 0 <= k < |contentUrls| :: ShowsSameImage(e, contentUrls[k], path)
  }

  function Keeper(contentUrls: seq<string>, path: AttachmentPath): Embed -> bool {
    e => KeepEmbed(e, contentUrls, path)
  }

  function FilterEmbeds(embeds: seq<Embed>, contentUrls: seq<string>, path: AttachmentPath): (r: seq<Embed>)
    ensures forall e :: e in r <==> e in embeds && KeepEmbed(e, contentUrls, path)
  {
    Seqs.Filter(embeds, Keeper(contentUrls, path))
  }

  /** An embed with neither an image URL nor a URL survives the filter. */
  lemma LinklessEmbedKept(e: Embed, embeds: seq<Embed>, contentUrls: seq<string>, path: AttachmentPath)
    requires e in embeds && !Truthy(ImageUrl(e)) && !Truthy(e.url)
    ensures e in FilterEmbeds(embeds, contentUrls, path)
  {
  }

  /** An embed whose image URL the text shows, even with another query
      string, is dropped. */
  lemma ShownImageDropped(e: Embed, embeds: seq<Embed>, contentUrls: seq<string>, k: nat, path: AttachmentPath)
    requires k < |contentUrls| && Truthy(ImageUrl(e))
    requires Before(ImageUrl(e).value, '?') == Before(contentUrls[k], '?')
    ensures e !in FilterEmbeds(embeds, contentUrls, path)
  {
    assert ShowsSameImage(e, contentUrls[k], path);
  }

  /** The kept embeds keep their relative order. */
  lemma FilterKeepsOrder(a: seq<Embed>, b: seq<Embed>, contentUrls: seq<string>, path: AttachmentPath)
    ensures FilterEmbeds(a + b, contentUrls, path)
      == FilterEmbeds(a, contentUrls, path) + FilterEmbeds(b, contentUrls, path)
  {
    Seqs.FilterAppend(a, b, Keeper(contentUrls, path));
  }

  // ----- inline fields -----

  predicate IsInline(f: Field) { f.inline == Some(true) }

  function CountInline(fields: seq<Field>): (n: nat)
    ensures n <= |fields|
  {
    if |fields| == 0 then 0
    else CountInline(fields[..|fields| - 1]) + (if IsInline(fields[|fields| - 1]) then 1 else 0)
  }

  /** The `inline-index` of field `k`: one more than the inline fields
      before it, and none for a field that is not inline. */
  function InlineIndex(fields: seq<Field>, k: nat): (r: Option<nat>)
    requires k < |fields|
    ensures r.None? <==> !IsInline(fields[k])
    ensures r.Some? ==> 1 <= r.value <= k + 1
  {
    if IsInline(fields[k]) then Some(CountInline(fields[..k]) + 1) else None
  }

  /** The first inline field is numbered 1. */
  lemma FirstInlineIsOne(fields: seq<Field>, k: nat)
    requires k < |fields| && IsInline(fields[k])
    requires forall j | 0 <= j < k :: !IsInline(fields[j])
    ensures InlineIndex(fields, k) == Some(1)
  {
    NoInlineCount(fields[..k]);
  }

  lemma {:induction false} NoInlineCount(fields: seq<Field>)
    requires forall j | 0 <= j < |fields| :: !IsInline(fields[j])
    ensures CountInline(fields) == 0
    decreases |fields|
  {
    if |fields| > 0 {
      NoInlineCount(fields[..|fields| - 1]);
    }
  }

  /** Inline fields are numbered consecutively: the next inline field after
      field `j` gets the next number, whatever lies between them. */
  lemma InlineIndicesConsecutive(fields: seq<Field>, j: nat, k: nat)
    requires j < k < |fields| && IsInline(fields[j]) && IsInline(fields[k])
    requires forall m | j < m < k :: !IsInline(fields[m])
    ensures InlineIndex(fields, k).value == InlineIndex(fields, j).value + 1
  {
    CountSkip(fields, j + 1, k);
    assert fields[..j + 1][..j] == fields[..j];
  }

  /** Fields that are not inline add nothing to the count. */
  lemma {:induction false} CountSkip(fields: seq<Field>, a: nat, b: nat)
    requires a <= b <= |fields|
    requires forall m | a <= m < b :: !IsInline(fields[m])
    ensures CountInline(fields[..b]) == CountInline(fields[..a])
    decreases b - a
  {
    if a < b {
      CountSkip(fields, a, b - 1);
      assert fields[..b][..b - 1] == fields[..b - 1];
    }
  }

  // ----- rendered embeds -----

  /** What the JSX of one embed is given. `separated` is whether a `<br/>`
      follows it. */
  datatype EmbedView =
    | GifView(color: Option<string>, preview: string, separated: bool)
    | RegularView(color: Option<string>, image: Option<string>, thumbnail: Option<string>,
                  inlineIndices: seq<Option<nat>>, separated: bool)

  /** `embed.color ? "#" + hex.padStart(6, "0") : undefined`. */
  function EmbedColor(e: Embed): Option<string> {
    if e.color.Some? && e.color.value != 0 then Some(HexColor(e.color.value)) else None
  }

  /** `getLargerDiscordImageUrl` on an optional URL. */
  function Larger(u: Option<string>, resize: Utils.UrlRewrite): Option<string> {
    if u.Some? then Some(Utils.GetLargerDiscordImageUrl(u.value, resize)) else None
  }

  function MediaUrl(m: Option<Media>): Option<string> {
    if m.Some? then Or(m.value.proxyUrl, Some(m.value.url)) else None
  }

  function ViewOf(e: Embed, separated: bool, resize: Utils.UrlRewrite): (r: EmbedView)
    ensures r.GifView? <==> IsGifEmbed(e) && GifPreview(e).Some?
    ensures r.separated == separated
    ensures r.RegularView? ==> |r.inlineIndices| == (if e.fields.Some? then |e.fields.value| else 0)
  {
    var preview := GifPreview(e);
    if IsGifEmbed(e) && preview.Some? then
      GifView(EmbedColor(e), Utils.GetLargerDiscordImageUrl(preview.value, resize), separated)
    else
      var fields := if e.fields.Some? then e.fields.value else [];
      RegularView(EmbedColor(e), Larger(MediaUrl(e.image), resize), Larger(MediaUrl(e.thumbnail), resize),
                  seq(|fields|, k requires 0 <= k < |fields| => InlineIndex(fields, k)), separated)
  }

  /** The image URLs the message text shows; none without text. */
  function ContentUrls(content: Option<string>): seq<string> {
    if Truthy(content) then ExtractImageUrlsFromContent(content.value) else []
  }

  /** `renderEmbeds` as written: the `<br/>` after an embed is decided
      against the number of embeds before filtering. */
  function RenderEmbeds(embeds: Option<seq<Embed>>, content: Option<string>, path: AttachmentPath, resize: Utils.UrlRewrite): (r: Option<seq<EmbedView>>)
    ensures embeds.None? || |embeds.value| == 0 ==> r.None?
    ensures r.Some? ==> |r.value| <= |embeds.value|
    ensures r.None? <==> embeds.None? || |embeds.value| == 0
    ensures r.Some? ==>
      var kept := FilterEmbeds(embeds.value, ContentUrls(content), path);
      |r.value| == |kept|
      && forall k | 0 <= k < |kept| :: r.value[k] == ViewOf(kept[k], k < |embeds.value| - 1, resize)
  {
    if embeds.None? || |embeds.value| == 0 then None
    else
      var kept := FilterEmbeds(embeds.value, ContentUrls(content), path);
      Some(Views(kept, |embeds.value|, resize))
  }

  /** The views of the kept embeds, each separated from the next unless it
      is at position `total - 1` or later. */
  function Views(kept: seq<Embed>, total: nat, resize: Utils.UrlRewrite): (r: seq<EmbedView>)
    ensures |r| == |kept|
    ensures forall k | 0 <= k < |kept| :: r[k] == ViewOf(kept[k], k < total - 1, resize)
  {
    seq(|kept|, k requires 0 <= k < |kept| => ViewOf(kept[k], k < total - 1, resize))
  }

  /** When the text shows the image of the last embed and not that of the
      one before, that one is rendered last and is still followed by a
      `<br/>`. */
  lemma TrailingBreakAfterFiltered(plain: Embed, shown: Embed, content: string, path: AttachmentPath, resize: Utils.UrlRewrite)
    requires content != ""
    requires var urls := ExtractImageUrlsFromContent(content);
      KeepEmbed(plain, urls, path) && !KeepEmbed(shown, urls, path)
    ensures var r := RenderEmbeds(Some([plain, shown]), Some(content), path, resize);
      r.Some? && |r.value| == 1 && r.value[0].separated
  {
    var urls := ExtractImageUrlsFromContent(content);
    SecondDropped(plain, shown, urls, path);
    assert RenderEmbeds(Some([plain, shown]), Some(content), path, resize) == Some(Views([plain], 2, resize));
  }

  lemma SecondDropped(plain: Embed, shown: Embed, urls: seq<string>, path: AttachmentPath)
    requires KeepEmbed(plain, urls, path) && !KeepEmbed(shown, urls, path)
    ensures FilterEmbeds([plain, shown], urls, path) == [plain]
  {
    var keep := Keeper(urls, path);
    Seqs.FilterSplit([], plain, [shown], keep);
    assert [] + [plain] + [shown] == [plain, shown];
    assert Seqs.Filter([shown], keep) == [] by {
      assert [shown][1..] == [];
    }
  }

  /** Such a message exists: an embed linking `https://x.png` after a plain
      one, under a text that shows `https://x.png`. */
  lemma TrailingBreakWitness(path: AttachmentPath, resize: Utils.UrlRewrite)
    ensures var plain := Embed(None, Some("note"), None, None, None, None, None, None, None, None);
      var shown := Embed(None, None, None, Some("https://x.png"), None, None, None, None, None, None);
      var r := RenderEmbeds(Some([plain, shown]), Some("https://x.png"), path, resize);
      r.Some? && |r.value| == 1 && r.value[0].separated
  {
    var plain := Embed(None, Some("note"), None, None, None, None, None, None, None, None);
    var shown := Embed(None, None, None, Some("https://x.png"), None, None, None, None, None, None);
    var content := "https://x.png";
    var urls := ExtractImageUrlsFromContent(content);
    BareUrlOnly(content);
    var k :| 0 <= k < |urls| && urls[k] == content;
    assert ShowsSameImage(shown, urls[k], path);
    TrailingBreakAfterFiltered(plain, shown, content, path, resize);
  }

  /** The text `https://x.png` shows that one image. */
  lemma BareUrlOnly(content: string)
    requires content == "https://x.png"
    ensures "https://x.png" in ExtractImageUrlsFromContent(content)
  {
    XPngIsImage(content);
    BareEndWhole(content);
    assert Rewrite.Fires(content, 0, BareUrlAt());
    assert content[0..|content|] == content;
    assert Rewrite.Matches(content, BareUrlAt())[0] == content;
    var bare := Rewrite.Matches(content, BareUrlAt());
    assert content in bare;
    assert content in Seqs.Filter(bare, Utils.IsImageUrl);
  }

  lemma XPngIsImage(content: string)
    requires content == "https://x.png"
    ensures Utils.IsImageUrl(content)
  {
    XPngNotDynamic(content);
    XPngHasExtension(content);
  }

  lemma XPngNotDynamic(content: string)
    requires content == "https://x.png"
    ensures !Utils.ContainsAny(content, Utils.DynamicContentHosts)
  {
    assert 'e' !in content && 'i' !in content && 'y' !in content;
    assert 'w' !in content && 'c' !in content;
    NoHostLetters(content);
  }

  /** Each dynamic-content host holds one of these letters. */
  lemma NoHostLetters(s: string)
    requires 'e' !in s && 'i' !in s && 'y' !in s && 'w' !in s && 'c' !in s
    ensures !Utils.ContainsAny(s, Utils.DynamicContentHosts)
  {
    Strings.AbsentCharNotContained(s, "tenor.com", 1);
    Strings.AbsentCharNotContained(s, "giphy.com", 1);
    Strings.AbsentCharNotContained(s, "youtube.com", 0);
    Strings.AbsentCharNotContained(s, "youtu.be", 0);
    Strings.AbsentCharNotContained(s, "twitter.com", 1);
    Strings.AbsentCharNotContained(s, "x.com", 2);
    Strings.AbsentCharNotContained(s, "tiktok.com", 1);
  }

  lemma XPngHasExtension(content: string)
    requires content == "https://x.png"
    ensures Utils.HasImageExtension(content)
  {
    Strings.BeforeAbsent(content, '?');
    Strings.BeforeAbsent(content, '#');
    assert ToLower(content) == content;
    assert EndsWith(content, ".png") by {
      assert content[|content| - 4..] == ".png";
    }
    assert Utils.ImageExtensions[0] == ".png";
  }

  lemma BareEndWhole(content: string)
    requires content == "https://x.png"
    ensures Markdown.BareUrlEnd(content, 0, ["href=\"", "\">"], "</", false) == Some(|content|)
  {
    assert Markdown.NotAfter(content, 0, ["href=\"", "\">"]);
    assert Markdown.SchemeLength(content, 0) == 8 by {
      assert content[0..][..8] == "https://";
    }
    var q := 8 + RunLength(content, 8, Markdown.IsBareUrlChar);
    assert forall k | 8 <= k < |content| :: Markdown.IsBareUrlChar(content[k]);
    assert q == |content|;
    assert !Markdown.CloserAhead(content, q, "</");
    Markdown.BareUrlWholeRun(content, 0, ["href=\"", "\">"], "</", false);
  }

  /** `renderEmbeds` as evidently intended: a `<br/>` between rendered
      embeds, none after the last one. */
  function RenderEmbedsSeparated(embeds: Option<seq<Embed>>, content: Option<string>, path: AttachmentPath, resize: Utils.UrlRewrite): (r: Option<seq<EmbedView>>)
    ensures embeds.None? || |embeds.value| == 0 ==> r.None?
    ensures r.Some? ==> forall k | 0 <= k < |r.value| :: r.value[k].separated <==> k < |r.value| - 1
    ensures r.None? <==> embeds.None? || |embeds.value| == 0
    ensures r.Some? ==>
      var kept := FilterEmbeds(embeds.value, ContentUrls(content), path);
      |r.value| == |kept|
      && forall k | 0 <= k < |kept| :: r.value[k] == ViewOf(kept[k], k < |kept| - 1, resize)
  {
    if embeds.None? || |embeds.value| == 0 then None
    else
      var kept := FilterEmbeds(embeds.value, ContentUrls(content), path);
      Some(Views(kept, |kept|, resize))
  }

  /** The two versions differ only in the break after the last view. */
  lemma SeparatedAgreesBeforeLast(embeds: Option<seq<Embed>>, content: Option<string>, path: AttachmentPath, resize: Utils.UrlRewrite)
    ensures var a := RenderEmbeds(embeds, content, path, resize);
      var b := RenderEmbedsSeparated(embeds, content, path, resize);
      a.None? == b.None?
      && (a.Some? ==> |a.value| == |b.value| && forall k | 0 <= k < |a.value| - 1 :: a.value[k] == b.value[k])
  {
  }
}
