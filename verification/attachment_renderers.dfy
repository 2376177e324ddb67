/** The choices of `src/lib/attachmentRenderers.tsx`: the component each
    attachment is shown with and the URL it gets, and the sticker images. The
    JSX is reduced to the values each component is given. */
module AttachmentRenderers {
  import opened Optional
  import opened Strings
  import opened DiscordApi
  import Utils
  import Seqs

  // ----- attachments -----

  datatype AttachmentKind = ImageKind | AudioKind | VideoKind | FileKind

  predicate HasPrefix(contentType: Option<string>, prefix: string) {
    contentType.Some? && StartsWith(contentType.value, prefix)
  }

  /** The first of `image/`, `audio/` and `video/` that prefixes the content
      type; anything else, a missing type included, is a file. */
  function KindOf(contentType: Option<string>): (r: AttachmentKind)
    ensures r == ImageKind <==> HasPrefix(contentType, "image/")
    ensures r == AudioKind <==> HasPrefix(contentType, "audio/")
    ensures r == VideoKind <==> HasPrefix(contentType, "video/")
    ensures contentType.None? ==> r == FileKind
  {
    if HasPrefix(contentType, "image/") then ImageKind
    else if HasPrefix(contentType, "audio/") then AudioKind
    else if HasPrefix(contentType, "video/") then VideoKind
    else FileKind
  }

  /** What each attachment component is given. */
  datatype AttachmentView =
    | ImageAttachment(url: string, alt: string)
    | AudioAttachment(name: string, href: string, bytes: int)
    | VideoAttachment(href: string)
    | FileAttachment(name: string, bytes: int, href: string, contentType: Option<string>)

  /** `proxy_url || url`. */
  function Href(a: Attachment): (r: string)
    ensures a.proxyUrl != "" ==> r == a.proxyUrl
    ensures a.proxyUrl == "" ==> r == a.url
  {
    if a.proxyUrl != "" then a.proxyUrl else a.url
  }

  /** An image uses its proxy URL as it is; without one, the larger
      rendition of its URL. */
  function ImageUrl(a: Attachment, resize: Utils.UrlRewrite): (r: string)
    ensures a.proxyUrl != "" ==> r == a.proxyUrl
    ensures a.proxyUrl == "" ==> r == Utils.GetLargerDiscordImageUrl(a.url, resize)
  {
    if a.proxyUrl != "" then a.proxyUrl else Utils.GetLargerDiscordImageUrl(Href(a), resize)
  }

  function AttachmentViewOf(a: Attachment, resize: Utils.UrlRewrite): (r: AttachmentView)
    ensures r.ImageAttachment? <==> KindOf(a.contentType) == ImageKind
    ensures r.AudioAttachment? <==> KindOf(a.contentType) == AudioKind
    ensures r.VideoAttachment? <==> KindOf(a.contentType) == VideoKind
    ensures r.FileAttachment? <==> KindOf(a.contentType) == FileKind
    ensures !r.ImageAttachment? ==> r.href == Href(a)
  {
    match KindOf(a.contentType)
    case ImageKind => ImageAttachment(ImageUrl(a, resize), a.filename)
    case AudioKind => AudioAttachment(a.filename, Href(a), a.size)
    case VideoKind => VideoAttachment(Href(a))
    case FileKind => FileAttachment(a.filename, a.size, Href(a), a.contentType)
  }

  /** `renderAttachments`: nothing for absent or empty attachments, else one
      view per attachment in order. */
  function RenderAttachments(attachments: Option<seq<Attachment>>, resize: Utils.UrlRewrite): (r: Option<seq<AttachmentView>>)
    ensures r.None? <==> attachments.None? || |attachments.value| == 0
    ensures r.Some? ==> |r.value| == |attachments.value|
    ensures r.Some? ==> forall k | 0 <= k < |r.value| :: r.value[k] == AttachmentViewOf(attachments.value[k], resize)
  {
    if attachments.None? || |attachments.value| == 0 then None
    else
      var xs := attachments.value;
      Some(seq(|xs|, k requires 0 <= k < |xs| => AttachmentViewOf(xs[k], resize)))
  }

  /** An image with a proxy URL is never resized, whatever its URL. */
  lemma ProxiedImageUnchanged(a: Attachment, resize: Utils.UrlRewrite)
    requires HasPrefix(a.contentType, "image/") && a.proxyUrl != ""
    ensures AttachmentViewOf(a, resize) == ImageAttachment(a.proxyUrl, a.filename)
  {
  }

  // ----- stickers -----

  const StickerBase: string := "https://media.discordapp.net/stickers/"

  /** Lottie stickers, which are not rendered. */
  const LottieFormat: int := 3

  function StickerExtension(formatType: int): string {
    if formatType == LottieFormat then ".json" else ".png"
  }

  /** `getStickerUrl`. */
  function GetStickerUrl(id: string, formatType: int): (r: string)
    ensures StartsWith(r, StickerBase)
    ensures EndsWith(r, ".json") <==> formatType == LottieFormat
    ensures |r| == |StickerBase| + |id| + |StickerExtension(formatType)|
    ensures r[|StickerBase|..|StickerBase| + |id|] == id
  {
    var r := StickerBase + id + StickerExtension(formatType);
    assert r[..|StickerBase|] == StickerBase;
    assert r[|StickerBase|..|StickerBase| + |id|] == id;
    assert r[|r| - |StickerExtension(formatType)|..] == StickerExtension(formatType);
    assert formatType != LottieFormat ==> r[|r| - 5..][1] == '.';
    r
  }

  /** The sticker id can be read back from its URL. */
  lemma StickerUrlInjective(a: string, fa: int, b: string, fb: int)
    requires GetStickerUrl(a, fa) == GetStickerUrl(b, fb)
    ensures a == b && (fa == LottieFormat <==> fb == LottieFormat)
  {
    var u := GetStickerUrl(a, fa);
    assert |a| == |b| by {
      assert |StickerExtension(fa)| == |StickerExtension(fb)|;
    }
  }

  predicate NotLottie(s: StickerItem) { s.formatType != LottieFormat }

  function StickerView(s: StickerItem): AttachmentView {
    ImageAttachment(GetStickerUrl(s.id, s.formatType), s.name)
  }

  /** The `map` of `renderStickers`: `null` for a Lottie sticker, an image
      otherwise. */
  function StickerEntries(xs: seq<StickerItem>): (r: seq<Option<AttachmentView>>)
    ensures |r| == |xs|
    ensures forall k | 0 <= k < |xs| :: r[k].None? <==> !NotLottie(xs[k])
    decreases |xs|
  {
    if |xs| == 0 then []
    else [if NotLottie(xs[0]) then Some(StickerView(xs[0])) else None] + StickerEntries(xs[1..])
  }

  /** `renderStickers`: nothing for absent or empty stickers, else the
      entries of the `map`. */
  function RenderStickers(stickers: Option<seq<StickerItem>>): (r: Option<seq<Option<AttachmentView>>>)
    ensures r.None? <==> stickers.None? || |stickers.value| == 0
  {
    if stickers.None? || |stickers.value| == 0 then None
    else Some(StickerEntries(stickers.value))
  }

  /** What is drawn: the non-null entries. */
  function Drawn(entries: seq<Option<AttachmentView>>): seq<AttachmentView>
    decreases |entries|
  {
    if |entries| == 0 then []
    else (if entries[0].Some? then [entries[0].value] else []) + Drawn(entries[1..])
  }

  function Views(xs: seq<StickerItem>): (r: seq<AttachmentView>)
    ensures |r| == |xs| && forall k | 0 <= k < |xs| :: r[k] == StickerView(xs[k])
  {
    seq(|xs|, k requires 0 <= k < |xs| => StickerView(xs[k]))
  }

  /** Exactly the stickers that are not Lottie are drawn, one image each, in
      input order. */
  lemma {:induction false} StickersDrawnInOrder(xs: seq<StickerItem>)
    ensures Drawn(StickerEntries(xs)) == Views(Seqs.Filter(xs, NotLottie))
    decreases |xs|
  {
    if |xs| > 0 {
      var x, tail := xs[0], xs[1..];
      var e := if NotLottie(x) then Some(StickerView(x)) else None;
      StickersDrawnInOrder(tail);
      assert StickerEntries(xs) == [e] + StickerEntries(tail);
      DrawnCons(e, StickerEntries(tail));
      if NotLottie(x) {
        assert Seqs.Filter(xs, NotLottie) == [x] + Seqs.Filter(tail, NotLottie);
        ViewsCons(x, Seqs.Filter(tail, NotLottie));
      } else {
        assert Seqs.Filter(xs, NotLottie) == Seqs.Filter(tail, NotLottie);
      }
    }
  }

  lemma DrawnCons(e: Option<AttachmentView>, rest: seq<Option<AttachmentView>>)
    ensures Drawn([e] + rest) == (if e.Some? then [e.value] else []) + Drawn(rest)
  {
    assert ([e] + rest)[0] == e && ([e] + rest)[1..] == rest;
  }

  lemma ViewsCons(x: StickerItem, ys: seq<StickerItem>)
    ensures Views([x] + ys) == [StickerView(x)] + Views(ys)
  {
  }
}
