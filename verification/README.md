# Discord message markdown, modelled in Dafny

This project models the core of StarEmbedder-Web, a web viewer that renders
Discord messages. That core is the chat-markdown transpiler and the pure
selection rules around it:

- `parseMarkdown` (`src/lib/markdown.ts`) turns Discord markdown into the
  HTML custom elements of the Discord component library. It runs a
  whole-text link and mention pre-pass, then a line-by-line block scanner
  (code fences, `>`/`>>` quotes, `>>>` quotes, `- ` lists, paragraph and line
  breaks), then a custom-emoji post-pass. Whether the emoji are drawn jumbo
  is decided on the raw input.
- `parseMarkdownWithCodeBlocks` (`src/components/MarkdownRenderer.tsx`) lifts
  the fenced code blocks and image placeholders out of the message, as
  numbered records. `findProxyUrlFromEmbeds` picks the proxied URL of an
  image from the message's embeds.
- `src/lib/utils.ts` holds the image-URL classifier, the snowflake-id
  validator, the permission decoder, the snapshot flag and the message-type
  table.
- `src/lib/discord-api.ts` holds the avatar URLs and the role colour.
- `src/lib/messageRenderers.tsx` holds GIF detection, the image URLs shown
  by a message's text, the embed de-duplication filter and inline-field
  numbering.
- `src/lib/attachmentRenderers.tsx` holds attachment kinds, attachment URLs
  and sticker URLs.

Strings are `seq<char>`. Every regular-expression replace is one generic
index-based engine (`Rewrite.ReplaceFrom`), driven by a hand-written matcher
per regular expression. Each matcher follows the JavaScript backtracking of
its expression: lazy `.+?` spans, greedy runs, lookbehind and lookahead.

The block scanner is a fold over the lines (`Scanner.Step`). Its state
mirrors the source's flags and buffers. Its output is a sequence of `Block`
values, one per string the source pushes, and `Scanner.RenderBlock` gives
each block's exact text. The scanner takes its three line formatters as a
`LineFormat` value, so the structural lemmas hold for any formatters.
`Scanner.SourceFormat` supplies the source's own formatters.

Anything the code reaches outside the core is a function parameter:
- locale date formatting (`Inline.TimeRender`);
- WHATWG URL rewriting (`Utils.UrlRewrite`);
- attachment-path extraction (`MessageRenderers.AttachmentPath`).

Modules: `Optional`, `Strings`, `Seqs` and `Rewrite` are shared helpers;
`Inline`, `Markdown`, `Scanner` and `ScannerLemmas` model
`src/lib/markdown.ts`; `Extractor` models `MarkdownRenderer.tsx`; `Utils`,
`DiscordApi`, `MessageRenderers` and `AttachmentRenderers` model the files
of the same names.

## Model

| member | source | states |
|---|---|---|
| Markdown.GetDisplayName | src/lib/markdown.ts:13-16 | The result is never empty. A missing user is "Unknown User". Otherwise it is the first non-empty of nickname, global name and username, else "Unknown User". |
| Markdown.FirstTruthy | src/lib/markdown.ts:15 | `a \|\| b \|\| …` is absent exactly when no candidate is a non-empty string; otherwise it is the first non-empty candidate. |
| Markdown.FindFirst | src/lib/markdown.ts:82 | `Array.find` as an index: the element there passes, every earlier one fails; absent only when none passes. |
| Markdown.ResolveUser | src/lib/markdown.ts:81-84 | A miss gives "Unknown User". Otherwise the result is the display name of the first member whose user id matches. |
| Markdown.ResolveRole | src/lib/markdown.ts:86-89 | A miss gives "Unknown Role". Otherwise the result is the name of the first role with the id. |
| Markdown.ResolveChannel | src/lib/markdown.ts:91-94 | Never empty. A miss gives "Unknown Channel". Otherwise the result is the first matching channel's name, or "Unknown Channel" when that name is empty. |
| Markdown.UserMentionAlone | src/lib/markdown.ts:147-150 | A user mention with an id of 18 to 21 digits becomes one `discord-mention type="user"` tag holding the resolved name. |
| Markdown.WholeMention | src/lib/markdown.ts:147-163 | For any mention prefix, kind and resolver, a mention with an id of 18 to 21 digits is replaced whole by the mention tag of that kind, holding the name resolved from the id. |
| Markdown.MentionAt | src/lib/markdown.ts:147-163 | A mention pattern can fire only where its prefix's first character stands. |
| Markdown.Mentions | src/lib/markdown.ts:145-164 | Text with no `<` holds no mention and passes through unchanged. |
| Markdown.ProcessMarkdownContent | src/lib/markdown.ts:122-167 | Text with none of `[`, `<`, `h` and `_` is returned unchanged: no link, URL, blank-line or mention rule can fire. |
| Markdown.BadLengthMentionLiteral | src/lib/markdown.ts:145-164 | A user, role or channel mention whose id has fewer than 18 or more than 21 digits passes through all mention passes unchanged, with or without a context. |
| Markdown.NoMentionFires | src/lib/markdown.ts:147-163 | No mention pattern matches anywhere inside a mention whose id length is out of range. |
| Markdown.MarkdownLinkFields | src/lib/markdown.ts:124 | A match of `[text](url)` at `i` spans exactly `[` + text + `](` + url + `)`. Text and url are non-empty, and neither holds its closing bracket. |
| Markdown.AngleUrlFields | src/lib/markdown.ts:130 | A match of `<http…>` spans exactly `<` + url + `>`. The url starts with a scheme and holds no white space or `>`. |
| Markdown.SchemeLength | src/lib/markdown.ts:130-136 | `https?://` at a position has length 7 or 8, or there is none (0). |
| Markdown.BareUrlEnd | src/lib/markdown.ts:136 | A bare URL that matches ends inside the text, after its start. |
| Markdown.LastUnblocked | src/lib/markdown.ts:136 | The backtracking end is the longest end the negative lookahead accepts; absent only when the lookahead rejects every end. |
| Markdown.RunEndBlocked | src/lib/markdown.ts:136 | At the end of the URL run the quoted-tag alternative cannot fire. So that end is accepted unless the closer follows, and then every shorter end is rejected too. |
| Markdown.BareUrlWholeRun | src/lib/markdown.ts:136 | After a scheme, a bare URL is either the whole run of non-space, non-`<` characters or nothing. Backtracking into the run never yields a shorter match. |
| Markdown.ShouldUseJumboEmojis | src/lib/markdown.ts:99-116 | With `rest` the text after the custom tags are removed: jumbo exactly when the text is not blank, the custom tags plus the range emoji of `rest` number 1 to 30, and every character of `rest` is white space or a range emoji. |
| Markdown.RangeEmojiAreJumbo | src/lib/markdown.ts:105-115 | Text made only of 1 to 30 range emoji is jumbo. |
| Markdown.OtherTextIsNotJumbo | src/lib/markdown.ts:110-115 | Any character left after removing the custom tags that is neither white space nor a range emoji makes the text not jumbo. |
| Markdown.CustomTagRunIsJumbo | src/lib/markdown.ts:102-115 | A run of 1 to 30 valid custom tags, each followed by a space, is jumbo. |
| Markdown.TagThenTextNotJumbo | src/lib/markdown.ts:102-115 | A valid custom tag followed by text holding a character that is neither white space nor a range emoji is not jumbo. |
| Markdown.RemoveWhere | src/lib/markdown.ts:111 | Removing the matching code points leaves none of them, and shortens the text by exactly their count. |
| Markdown.CountWhere | src/lib/markdown.ts:105-107 | The count of matching code points is at most the length of the text. |
| Markdown.StaticEmojiAlone | src/lib/markdown.ts:417-420 | A lone `<:name:id>` tag with a valid id becomes exactly one PNG custom-emoji element. |
| Markdown.AnimatedEmojiAlone | src/lib/markdown.ts:417-420 | A lone `<a:name:id>` tag with a valid id becomes exactly one GIF custom-emoji element; the later static pass leaves it alone. |
| Markdown.EmojiPass | src/lib/markdown.ts:417-420 | Text with no `<` holds no custom-emoji tag and is left unchanged. |
| Markdown.StaticEmojiFires | src/lib/markdown.ts:420 | The static pass turns `<:name:id>` into its PNG element. |
| Markdown.EmojiPrefixAbsent | src/lib/markdown.ts:419-420 | An emoji pass whose prefix occurs nowhere leaves the text unchanged. |
| Markdown.EmojiTagJumbo | src/lib/markdown.ts:417-420 | A custom-emoji element ends with ` jumbo` exactly when the jumbo flag is set. The flag is one value for the whole message, so either every tag carries it or none does. |
| Markdown.EmojiFields | src/lib/markdown.ts:419-420 | A match spans exactly prefix + name + `:` + id + `>`. The name is non-empty and holds no colon; the id is 18 to 21 digits. |
| Markdown.EmojiFieldsOfTag | src/lib/markdown.ts:419-420 | Conversely, a tag with a non-empty colon-free name and an id of 18 to 21 digits is matched whole, giving back that name and id. |
| Markdown.SnowflakeRoundTrip | src/lib/markdown.ts:21-24 | The millisecond timestamp stored above the low 22 bits of a snowflake is recovered, whatever the low bits hold. |
| Inline.LazyClose | src/lib/markdown.ts:178-182 | The lazy `.+?` stops at the first closing delimiter from its position that stays on one line; absent only when no such delimiter exists. |
| Inline.FirstClose | src/lib/markdown.ts:178-182 | The first closing position of a delimited span is a valid close, and no earlier close exists. When absent, no close exists at all. |
| Inline.DelimitedSpec | src/lib/markdown.ts:178-182 | An emphasis rule fires at a position exactly when a closing delimiter exists there. It then replaces the span up to the first close with the tag around the inner text. |
| Inline.Emphasis | src/lib/markdown.ts:178-182 | A line with none of `*`, `_`, `\|` and `` ` `` is left unchanged by the emphasis rules. |
| Inline.FormatMarkdownLine | src/lib/markdown.ts:172-195 | A line with no markup character is returned unchanged. |
| Inline.TimeStyleOf | src/lib/markdown.ts:40-75 | The switch runs on the lower-cased letter, so `T`, `D` and `F` take the short branches. The long and relative branches are never taken, and `R` falls to the default. |
| Inline.QuoteListPrefix | src/lib/markdown.ts:327-329 | The removed prefix is non-zero exactly for `` `-` `` or `-` followed by a space or the end of the line. It is then one of those four spellings. |
| Inline.QuoteLine | src/lib/markdown.ts:327-350 | A list-item quote line becomes an `<li>…</li>` entry. Any other line is emphasised with timestamps expanded. |
| Scanner.FlushQuote | src/lib/markdown.ts:353-358 | Closing a quote appends one quote block when a quote is open, and resets the quote and triple-quote flags. |
| Scanner.FlushList | src/lib/markdown.ts:246-250 | Closing a list appends one list block when a list is open, and resets the list flag. |
| Scanner.Step | src/lib/markdown.ts:235-404 | A line only appends to the output. A fence line, and only a fence line, toggles the code flag. Inside a fence any other line is added to the code buffer verbatim and nothing else changes. |
| Scanner.Finish | src/lib/markdown.ts:406-412 | After the last line, the pending quote and then the pending list are appended, and nothing else changes. The output changes exactly when a non-empty quote or list is pending. |
| Scanner.ScanLines | src/lib/markdown.ts:218-414 | No lines give no blocks. |
| Scanner.ParseMarkdown | src/lib/markdown.ts:218-219 | Empty input gives the empty string. |
| ScannerLemmas.NoDoubleParagraphBreak | src/lib/markdown.ts:386-390 | For any lines, the scanner's output never starts with `<br><br>` and never holds two in a row. |
| ScannerLemmas.EndsWithBreakRendering | src/lib/markdown.ts:388 | The scanner's test on the last block agrees with testing the block's rendered text for a trailing `<br><br>`. |
| ScannerLemmas.StepsInv | src/lib/markdown.ts:235-404 | The no-double-break invariant is preserved by every line of the fold. |
| ScannerLemmas.StepsSplit | src/lib/markdown.ts:235 | Processing lines `lo..hi` is processing `lo..mid`, then `mid..hi`. |
| ScannerLemmas.FencedCode | src/lib/markdown.ts:238-267 | From an opening fence to the next fence, the pending quote and list are flushed first. Then exactly one code block holds the inner lines verbatim, with the opening fence's language, or none if it is empty. |
| ScannerLemmas.CodeBody | src/lib/markdown.ts:266-267 | Inside a fence, every non-fence line is appended verbatim to the code buffer. |
| ScannerLemmas.CodeRendering | src/lib/markdown.ts:254-256 | A code block renders its lines joined by newlines. It has a `language` attribute only when the language is non-empty. |
| ScannerLemmas.OpenFenceEmitsNothing | src/lib/markdown.ts:252-265 | A fence still open at the end of the input emits nothing: the output is the output before the fence, after the pending quote and list. |
| ScannerLemmas.ListRun | src/lib/markdown.ts:351-370 | N consecutive `- ` lines outside a quote open one list whose buffer holds their N items, in input order. |
| ScannerLemmas.ListContinue | src/lib/markdown.ts:359-370 | Further `- ` lines append to the open list's buffer, in order. |
| ScannerLemmas.ListAtEnd | src/lib/markdown.ts:410-412 | A run of `- ` lines that reaches the end of the input yields exactly one list block of their items, after any pending quote. |
| ScannerLemmas.Items | src/lib/markdown.ts:362-370 | Each list item is the formatter applied to its line without the leading `- `. |
| ScannerLemmas.QuoteRun | src/lib/markdown.ts:306-350 | A maximal run of `> `/`>> ` lines opens one quote whose buffer holds every line, stripped of its marker and formatted, in order. |
| ScannerLemmas.QuoteContinue | src/lib/markdown.ts:313-350 | Further `> `/`>> ` lines append to the open quote's buffer, in order. |
| ScannerLemmas.QuoteContents | src/lib/markdown.ts:323-350 | Each quote entry is the quote formatter applied to the line without its marker. |
| ScannerLemmas.QuoteOfItemsIsList | src/lib/markdown.ts:200-213 | For any quote formatter that turns `-` lines into `<li>` entries, a quote whose every line is a `-` item renders as the quote tag around one unstyled `<ul>` holding the entries in order, closed by `</ul>`. |
| ScannerLemmas.SourceItemsBecomeEntries | src/lib/markdown.ts:327-336 | The source's quote formatter turns every `-` or `` `-` `` quote line into an entry starting with `<li>`. |
| ScannerLemmas.QuoteLineKind | src/lib/markdown.ts:238-306 | A `> `/`>> ` line is neither a fence nor a `>>> ` line, so the fold reaches the quote branch. |
| ScannerLemmas.TripleQuoteAbsorbs | src/lib/markdown.ts:268-320 | After a `>>> ` line, every following non-blank, non-fence line joins the same quote, unstripped. This includes `- ` and `>` lines. |
| ScannerLemmas.TripleContinue | src/lib/markdown.ts:306-320 | Inside a `>>>` quote, each non-blank, non-fence line appends its whole text to the buffer, in order. |
| ScannerLemmas.BlankClosesTriple | src/lib/markdown.ts:371-390 | The first blank line closes a `>>>` quote. It pushes the quote and a paragraph break, and resets the triple flag. |
| ScannerLemmas.PlainLineBreak | src/lib/markdown.ts:391-401 | A plain line is pushed formatted. It is followed by `<br>` exactly when a next line exists, is non-blank, and starts with neither `>{1,3} ` nor `- `. |
| Extractor.LiftKeepsInv | src/components/MarkdownRenderer.tsx:93-127 | The code-block ids stay `codeblock-0`, `codeblock-1`, … in closing order, and the buffer is empty outside a fence. |
| Extractor.LiftStep | src/components/MarkdownRenderer.tsx:93-127 | Records and residual lines are only appended. A record is added exactly by a fence that closes an open block. A fence line, and only a fence line, toggles the code flag. |
| Extractor.LiftFrom | src/components/MarkdownRenderer.tsx:93-127 | Lifting more lines only appends, and adds at most one record per line. |
| Extractor.LiftAppend | src/components/MarkdownRenderer.tsx:93 | Lifting `a + b` is lifting `a`, then `b`. |
| Extractor.PlainLinesPass | src/components/MarkdownRenderer.tsx:125-126 | Outside a fence, non-fence lines pass to the residual text unchanged and in order. |
| Extractor.CodeLinesBuffered | src/components/MarkdownRenderer.tsx:120-122 | Inside a fence, non-fence lines go to the code buffer unchanged and in order. |
| Extractor.ClosedFence | src/components/MarkdownRenderer.tsx:94-116 | A closed fence yields one record, with the next id, the text after ```` ``` ```` (or absent) and the inner lines joined by newlines. It leaves the id's div and an empty div in the residual text. |
| Extractor.OpenFenceDropped | src/components/MarkdownRenderer.tsx:93-131 | A fence left open at the end yields no record, and its lines are dropped from the residual text. |
| Extractor.FieldEnds | src/components/MarkdownRenderer.tsx:137 | Where `open([^"]*)middle([^"]*)close` matches, its delimiters stand at the reported ends, in order and inside the text, and both fields are free of quotes. |
| Extractor.PlaceholderSpelled | src/components/MarkdownRenderer.tsx:137 | A placeholder match spans exactly the placeholder of its url and alt, and neither field holds a quote. |
| Extractor.PlaceholderRoundTrip | src/lib/markdown.ts:126-138 | The placeholder the markdown pass writes for a quote-free url and alt is read back whole, with the same url and alt. |
| Extractor.LiftImagesFrom | src/components/MarkdownRenderer.tsx:134-143 | The images are numbered left to right with ids `image-n`, `image-n+1`, …. |
| Extractor.LiftedImagesAreMatches | src/components/MarkdownRenderer.tsx:134-143 | There is exactly one image per match of the placeholder regex, in match order, and each match is the placeholder of its image's url and alt. |
| Extractor.NoPlaceholderUnchanged | src/components/MarkdownRenderer.tsx:136-143 | Text with no placeholder is left literal, and no image is lifted. |
| Extractor.ParseMarkdownWithCodeBlocks | src/components/MarkdownRenderer.tsx:78-150 | Empty content gives empty HTML and no records. Code-block and image ids are sequential from 0. |
| Extractor.NoFenceReachesMarkdown | src/components/MarkdownRenderer.tsx:125-131 | Content without a fence reaches the markdown pass unchanged. |
| Extractor.EmbedProxy | src/components/MarkdownRenderer.tsx:32-62 | One embed offers a URL exactly when one of the five checks holds, and the URL is a non-empty proxy. The result is the proxy of the first check that holds, in the order embed url, image, thumbnail, video, converted URL. |
| Extractor.FindProxyUrlFromEmbeds | src/components/MarkdownRenderer.tsx:26-67 | No embeds give the input URL. Otherwise the first embed offering a proxy wins. With no match, the result is the converted URL, or the input when that is empty. |
| Extractor.EmbedUrlFirst | src/components/MarkdownRenderer.tsx:34-36 | An embed whose own url is the image and which has a thumbnail proxy answers with that proxy, whatever follows it. |
| Utils.ValidateDiscordIds | src/lib/utils.ts:8-17 | True exactly when every id is 17 to 21 decimal digits; true for no ids. |
| Utils.IsValidDiscordId | src/lib/utils.ts:8-10 | Valid exactly when the id is 17 to 21 decimal digits, leading zeros allowed; a valid id's value is below 10 to the power of its length. |
| Utils.ValidIdBelow | src/lib/utils.ts:8-10 | The value of a valid id is below 10^21. |
| Utils.NumericIdValid | src/lib/utils.ts:8-10 | A number's decimal form is a valid id exactly when the number lies in `[10^16, 10^21)`. |
| Utils.GetAttachmentUrl | src/lib/utils.ts:22-24 | The URL starts with the attachment CDN base and ends with the file name. |
| Utils.AttachmentUrlRoundTrip | src/lib/utils.ts:22-24 | Channel id, attachment id and file name are read back from the URL. |
| Utils.GetLargerDiscordImageUrl | src/lib/utils.ts:54-60 | A URL on neither Discord CDN host is returned unchanged; a non-empty CDN URL goes to the resize rewrite. |
| Utils.IsImageUrl | src/lib/utils.ts:94-132 | A URL naming a dynamic-content host is never an image. Otherwise it is one when the cleaned URL has an image extension. Failing that, a CDN URL with a `format=` hint or `size=` is one. |
| Utils.PlainHostIsExtensionTest | src/lib/utils.ts:110-131 | Away from the CDN and the dynamic-content hosts, the verdict is exactly the extension test; the image-host branch adds nothing. |
| Utils.PermissionBits | src/lib/utils.ts:186-188 | A declaration index is listed exactly when its bit is set, and the indices are increasing. |
| Utils.ParsePermissions | src/lib/utils.ts:151-189 | One name per set bit, in declaration order. |
| Utils.NoPermissions | src/lib/utils.ts:186-188 | `0` gives no permissions. |
| Utils.PermissionsRoundTrip | src/lib/utils.ts:151-189 | Adding up the bits of the decoded permissions of a 31-bit number gives the number back. |
| Utils.HasSnapshotFlag | src/lib/utils.ts:194-197 | True exactly when bit 14 (16384) is set. |
| Utils.IsForwardedMessage | src/lib/utils.ts:202-204 | Absent or zero flags are not forwarded; otherwise the snapshot flag decides. |
| Utils.GetMessageTypeName | src/lib/utils.ts:209-245 | Listed codes give their table entry. Every other code, 13 and 30 included, gives "UNKNOWN". |
| DiscordApi.ParseIntOfString | src/lib/discord-api.ts:271 | `parseInt` reads back the decimal rendering of any integer. |
| DiscordApi.ParseIntOfDigits | src/lib/discord-api.ts:271 | `parseInt` of a non-empty digit string is its decimal value. |
| DiscordApi.ParseInt | src/lib/discord-api.ts:271 | Text with no decimal digit gives NaN. |
| DiscordApi.TruncRem | src/lib/discord-api.ts:271 | JavaScript's `%` keeps the dividend's sign and stays strictly inside `(-b, b)`. |
| DiscordApi.AvatarFile | src/lib/discord-api.ts:266-267 | The file is the hash plus `.gif` exactly when the hash starts with `a_`, and plus `.png` otherwise. |
| DiscordApi.GetDiscordAvatarUrl | src/lib/discord-api.ts:261-273 | With an avatar: the user's avatar file with `?size=`. Without one: the default avatar chosen by the discriminator. |
| DiscordApi.DefaultAvatarOfDigits | src/lib/discord-api.ts:270-272 | A decimal discriminator picks default avatar `discriminator mod 5`. |
| DiscordApi.GetGuildMemberAvatarUrl | src/lib/discord-api.ts:275-290 | With a guild avatar: the guild avatar path. Without one: the user's avatar URL at the same size. |
| DiscordApi.HexColor | src/lib/discord-api.ts:309 | `#` followed by at least six hexadecimal digits. |
| DiscordApi.HexColorRoundTrip | src/lib/discord-api.ts:309 | The digits after `#` are lower-case hexadecimal and read back as the colour. |
| DiscordApi.ChooseRole | src/lib/discord-api.ts:302-308 | Absent exactly when no role is both held and coloured. Otherwise it is the held coloured role of highest position, the earliest on ties (the sort is stable). |
| DiscordApi.GetHighestRoleColor | src/lib/discord-api.ts:295-310 | Null when the member holds no roles or no held role is coloured. Otherwise the colour of the chosen role. |
| DiscordApi.ChosenRoleUnique | src/lib/discord-api.ts:302-308 | Only one role satisfies the choice. |
| MessageRenderers.GifProviderIgnoresCase | src/lib/messageRenderers.tsx:19-20 | Lower-casing the provider name never changes the GIF verdict. |
| MessageRenderers.GifHostIsGif | src/lib/messageRenderers.tsx:21-22 | An embed whose url is on tenor.com or giphy.com is a GIF. |
| MessageRenderers.IsGifEmbed | src/lib/messageRenderers.tsx:16-28 | Each source condition makes a GIF: type `gifv`; a provider name holding `tenor` or `giphy` in any case; a video URL holding `.gif`; a non-empty video URL holding `tenor` or `giphy` (the URL case is `GifHostIsGif`). Conversely a GIF has type `gifv`, a provider name, a URL or a non-empty video URL. |
| MessageRenderers.YouTubeEmbedNotGif | src/lib/messageRenderers.tsx:16-28 | A YouTube video embed, whose type, provider, URL and video URL hold no GIF marker, is not a GIF. |
| MessageRenderers.GifPreview | src/lib/messageRenderers.tsx:142-147 | Absent exactly when none of the five candidates is a non-empty string. Otherwise it is the first non-empty one, in the order thumbnail proxy, thumbnail, video proxy, image proxy, image. |
| MessageRenderers.ThumbnailProxyFirst | src/lib/messageRenderers.tsx:143 | A thumbnail proxy, when present, is always the preview. |
| MessageRenderers.ExtractImageUrlsFromContent | src/lib/messageRenderers.tsx:57-93 | Empty content gives no URLs, and every URL returned is an image URL. |
| MessageRenderers.PlainTextShowsNoImage | src/lib/messageRenderers.tsx:62-90 | Text with no `[`, `<` or `h` shows no image. |
| MessageRenderers.ShowsSameImageByBase | src/lib/messageRenderers.tsx:110-131 | The exact-URL comparisons add nothing: an embed shows the same image exactly when the attachment paths or the parts before `?` agree. |
| MessageRenderers.ShowsSameImage | src/lib/messageRenderers.tsx:110-131 | An embed whose image URL, or whose URL, agrees with the content URL before `?` shows the same image. One with neither image URL nor URL shows a different image when the content URL has no attachment path. |
| MessageRenderers.KeepEmbed | src/lib/messageRenderers.tsx:105-137 | With no content URLs, or with neither image URL nor URL, the embed is kept. An image URL agreeing before `?` with some content URL drops it. |
| MessageRenderers.FilterEmbeds | src/lib/messageRenderers.tsx:105-137 | An embed is kept exactly when it has neither image URL nor URL, or no content image shows the same image. |
| MessageRenderers.LinklessEmbedKept | src/lib/messageRenderers.tsx:106-136 | An embed with neither image URL nor URL is always kept. |
| MessageRenderers.ShownImageDropped | src/lib/messageRenderers.tsx:110-133 | An embed whose image URL agrees with a content URL before `?` is dropped. |
| MessageRenderers.FilterKeepsOrder | src/lib/messageRenderers.tsx:105 | Filtering distributes over concatenation, so kept embeds keep their relative order. |
| MessageRenderers.CountInline | src/lib/messageRenderers.tsx:227-229 | The inline count of a prefix is at most its length. |
| MessageRenderers.InlineIndex | src/lib/messageRenderers.tsx:225-231 | Non-inline fields get no index. An inline field's index is 1 plus the inline fields before it, between 1 and its position plus 1. |
| MessageRenderers.FirstInlineIsOne | src/lib/messageRenderers.tsx:225-231 | The first inline field is numbered 1. |
| MessageRenderers.InlineIndicesConsecutive | src/lib/messageRenderers.tsx:225-231 | The next inline field after an inline field is numbered one higher. |
| MessageRenderers.ViewOf | src/lib/messageRenderers.tsx:139-209 | A GIF view is chosen exactly for a GIF embed with a preview. A regular view has one inline entry per field. |
| MessageRenderers.RenderEmbeds | src/lib/messageRenderers.tsx:95-263 | Null exactly for absent or empty embeds. Otherwise there is one view per kept embed, in order: the k-th view is the view of the k-th kept embed, followed by a break when k is below the length of the unfiltered list minus one. |
| MessageRenderers.TrailingBreakAfterFiltered | src/lib/messageRenderers.tsx:263 | When the text shows the second of two embeds, only the first is rendered, yet it is still followed by a break. |
| MessageRenderers.TrailingBreakWitness | src/lib/messageRenderers.tsx:263 | A concrete message showing that trailing break. |
| MessageRenderers.BareUrlOnly | src/lib/messageRenderers.tsx:84-90 | The text `https://x.png` shows that one image. |
| MessageRenderers.RenderEmbedsSeparated | src/lib/messageRenderers.tsx:263 | Corrected: null exactly for absent or empty embeds. Otherwise one view per kept embed, in order, and a view is followed by a break exactly when it is not the last rendered view. |
| MessageRenderers.SeparatedAgreesBeforeLast | src/lib/messageRenderers.tsx:263 | The as-written and corrected renderings give the same views, except for the break after the last one. |
| AttachmentRenderers.KindOf | src/lib/attachmentRenderers.tsx:23-27 | Image, audio and video each hold exactly when their prefix wins, tested in that order. A missing content type is a file. |
| AttachmentRenderers.ImageUrl | src/lib/attachmentRenderers.tsx:29-34 | An image uses its proxy URL unchanged; without one, the larger rendition of its URL. |
| AttachmentRenderers.AttachmentViewOf | src/lib/attachmentRenderers.tsx:22-73 | The component follows the kind exactly. Audio, video and file get the proxy-else-URL href. |
| AttachmentRenderers.RenderAttachments | src/lib/attachmentRenderers.tsx:17-77 | Null exactly for absent or empty attachments; otherwise one view per attachment, in order. |
| AttachmentRenderers.ProxiedImageUnchanged | src/lib/attachmentRenderers.tsx:29-34 | An image with a proxy URL is shown at that URL whatever its own URL. |
| AttachmentRenderers.GetStickerUrl | src/lib/attachmentRenderers.tsx:82-88 | The sticker base, then the id, then `.json` exactly for format 3 and `.png` otherwise. |
| AttachmentRenderers.StickerUrlInjective | src/lib/attachmentRenderers.tsx:82-88 | Equal sticker URLs have equal ids and agree on being Lottie. |
| AttachmentRenderers.StickerEntries | src/lib/attachmentRenderers.tsx:98-117 | One entry per sticker, null exactly for format 3. |
| AttachmentRenderers.RenderStickers | src/lib/attachmentRenderers.tsx:93-94 | Null exactly for absent or empty stickers. |
| AttachmentRenderers.StickersDrawnInOrder | src/lib/attachmentRenderers.tsx:98-117 | The images drawn are those of the non-Lottie stickers, one each, in input order. |
| Rewrite.CopyUntil | src/lib/markdown.ts:123-142 | Text before the next match is copied unchanged by a global replace, and contributes no match. |
| Rewrite.ReplaceFrom | src/lib/markdown.ts:123 | A global replace over text in which no match is found returns the text as it is. |
| Rewrite.AbsentStartUnchanged | src/lib/markdown.ts:123-142 | A pattern that can only start at character `c` leaves text without `c` unchanged and finds no match in it. |
| Rewrite.NoMatchIdentity | src/lib/markdown.ts:123-142 | Text in which no match starts is left as it is, and has no matches. |
| Rewrite.LiteralAbsent | src/lib/markdown.ts:142 | Replacing a literal whose first character is absent changes nothing. |
| Strings.JoinSplit | src/components/MarkdownRenderer.tsx:86 | Joining the pieces of a split on a separator gives the text back. |
| Seqs.FilterAppend | src/lib/messageRenderers.tsx:105 | Filtering distributes over concatenation. |

## Left out

- Network fetchers, token handling and the page components (`src/lib/discord-api.ts:187-259`, the app pages): I/O and environment access.
- `formatDiscordTimestamp` and the date rendering in `formatDiscordTimestampWithType`: they use locale `Date` formatting and the wall clock. Only the branch choice (`Inline.TimeStyleOf`) is modelled; the text is the parameter `Inline.TimeRender`.
- `formatBytes`: floating-point `log`, `pow` and `toFixed`.
- WHATWG `URL` parsing in `getDiscordProxyUrl`, `getLargerDiscordImageUrl` and `getDiscordAttachmentPath`: the rewrites are the parameters `Utils.UrlRewrite` and `MessageRenderers.AttachmentPath`. The guards the source applies before parsing are modelled.
- The JSX of embeds, attachments and stickers, `CodeBlock`, the placeholder splitting in `MarkdownRenderer`, and `ClientOnlyEmbedFields`: markup is not modelled. An embed view keeps only its colour, its images, its inline-field numbering and whether a break follows it. The embed title, URL, author name, URL and icon, the description and field values (which the source passes through `parseMarkdown`), the field names and the footer (`src/lib/messageRenderers.tsx:153-178`, `190-261`) are not modelled.
- HTML escaping: the source does none, and the model adds none.
- `toLowerCase` is ASCII-only in the model; non-ASCII case mapping is not modelled.
- Strings are sequences of code points, while JavaScript counts UTF-16 code units. The `u`-flagged emoji ranges match code points, as modelled; lengths of astral characters differ.
- `parseInt` precision above 2^53 and `Number(timestamp)`: integers are unbounded.
- The `Date` construction in `snowflakeToDate`: only the millisecond arithmetic is modelled.
- Scanner.ParseMarkdown: its contract states only the empty-input case. The structure of the output is stated by the `ScannerLemmas` lemmas over `Scanner.ScanLines`, for any formatters.
- `formatQuoteLines`, `getDiscordProxyUrl` and the attachment link target are modelled (`Inline.FormatQuoteLines`, `Utils.GetDiscordProxyUrl`, `AttachmentRenderers.Href`), but their promises are stated by the members that use them: `ScannerLemmas.QuoteOfItemsIsList`, `Extractor.FindProxyUrlFromEmbeds` and `AttachmentRenderers.AttachmentViewOf`.
- Scanner.ScanLines: its contract states only the empty case. The fold's structure is stated per line by `Scanner.Step` and over runs of lines by the `ScannerLemmas` lemmas.
- Markdown.Mentions, Markdown.ProcessMarkdownContent and Markdown.EmojiPass: their contracts state only the text they leave alone. What each rule makes of a match is stated by `Markdown.WholeMention`, the field lemmas (`MarkdownLinkFields`, `AngleUrlFields`, `BareUrlWholeRun`) and `Markdown.StaticEmojiAlone` / `Markdown.AnimatedEmojiAlone`.
- Inline.FormatMarkdownLine and Inline.Emphasis: their contracts state only the line they leave alone. Each emphasis rule is stated by `Inline.DelimitedSpec`.
- MessageRenderers.IsGifEmbed: the converse is stated coarsely, as "a GIF has one of the four fields", because the exact converse would repeat the definition. That fields without the markers make no GIF is shown on a concrete YouTube embed (`MessageRenderers.YouTubeEmbedNotGif`).
- DiscordApi.ParseInt: its contract states only the NaN case. The digit cases are `DiscordApi.ParseIntOfDigits` and `DiscordApi.ParseIntOfString`.
- Extractor.ParseMarkdownWithCodeBlocks: its contract states the empty case and the id numbering. The per-fence and per-placeholder behaviour is stated by the `Extractor` lemmas on `LiftFrom` and `LiftImagesFrom`.
- MessageRenderers.ExtractImageUrlsFromContent: it is stated as a filter to image URLs. The order of its three passes is in its definition, not in its contract.
- Utils.GetAttachmentUrl: the round trip assumes ids without `/`, which Discord ids, being digits, satisfy.
- The rules `^(>{1,3}) (.+)$` and `^- (.+)$` of `formatMarkdownLine` are modelled, but they never fire on lines the scanner passes it: such lines are taken by the quote and list branches first.
- The `T`, `D`, `F` and `R` cases of the timestamp switch are unreachable, because the switch lower-cases its input (`Inline.TimeStyleOf`).
- The image-host branch of `isImageUrl` can never return true (`Utils.PlainHostIsExtensionTest`).
- A `>>> ` quote is described by its comment as running to the end of the content. The code ends it at the first blank line, and the model follows the code (`ScannerLemmas.BlankClosesTriple`).
- `renderStickers` on a list made only of Lottie stickers returns a container of null entries, not null; the model keeps that (`AttachmentRenderers.RenderStickers`).

## Findings

| source | as written | input that shows it | evidently intended | confidence | as-written member | corrected member |
|---|---|---|---|---|---|---|
| src/lib/messageRenderers.tsx:263 | the `<br />` after a rendered embed (here and at line 181, for GIF embeds) tests `index < embeds.length - 1`, the length of the unfiltered list, while `index` runs over the filtered list | a plain embed followed by an embed with url `https://x.png`, in a message whose text is `https://x.png`: the second embed is filtered out, and the one remaining embed is still followed by a break | a break between rendered embeds only: `index < filteredEmbeds.length - 1` | not executed | MessageRenderers.TrailingBreakWitness | MessageRenderers.RenderEmbedsSeparated |
