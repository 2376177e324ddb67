/** The line scanner of `parseMarkdown` in `src/lib/markdown.ts`: a
    left-to-right fold over the lines of the pre-processed text whose state
    holds an open code fence, an open quote (plain or `>>>`) and an open list.
    Each pushed result is a `Block`; `RenderBlock` gives the exact string the
    source pushes, and the output is their concatenation. */
module Scanner {
  import opened Optional
  import opened Strings
  import opened Inline
  import Markdown

  datatype Block =
    | Text(html: string)
    | LineBreak
    | ParagraphBreak
    | Quote(lines: seq<string>)
    | List(items: seq<string>)
    | Code(language: Option<string>, lines: seq<string>)

  function RenderBlock(b: Block): string {
    match b
    case Text(html) => html
    case LineBreak => "<br>"
    case ParagraphBreak => "<br><br>"
    case Quote(lines) => Wrap("discord-quote", FormatQuoteLines(lines))
    case List(items) => Wrap("discord-unordered-list", Concat(items))
    case Code(language, lines) =>
      "<discord-code multiline"
      + (if Truthy(language) then " language=\"" + language.value + "\"" else "")
      + ">" + Join(lines, "\n") + "</discord-code>"
  }

  /** Whether a pushed result ends with `<br><br>`, read off the block. */
  predicate EndsWithBreak(b: Block) {
    match b
    case Text(html) => EndsWith(html, "<br><br>")
    case ParagraphBreak => true
    case _ => false
  }

  function RenderBlocks(bs: seq<Block>): string {
    if |bs| == 0 then "" else RenderBlock(bs[0]) + RenderBlocks(bs[1..])
  }

  datatype State = State(
    inCode: bool,
    codeLines: seq<string>,
    language: Option<string>,
    inQuote: bool,
    inTriple: bool,
    quoteLines: seq<string>,
    inList: bool,
    listItems: seq<string>,
    out: seq<Block>)

  /** The three line formatters the scanner applies: to a plain line, to the
      content of a quoted line, and to the text of a list item. */
  datatype LineFormat = LineFormat(plain: string -> string, quoted: string -> string, item: string -> string)

  /** The formatters of `src/lib/markdown.ts`. */
  function SourceFormat(render: TimeRender): LineFormat {
    LineFormat(
      line => FormatMarkdownLine(line, render),
      content => QuoteLine(content, render),
      text => Wrap("discord-list-item", Emphasis(text)))
  }

  const Initial: State := State(false, [], None, false, false, [], false, [], [])

  // ----- line kinds -----

  predicate IsFence(line: string) { StartsWith(line, "```") }

  predicate IsTripleQuote(line: string) { StartsWith(line, ">>> ") }

  /** `/^>{1,2} /`. */
  predicate IsQuoteLine(line: string) { StartsWith(line, "> ") || StartsWith(line, ">> ") }

  predicate IsListLine(line: string) { StartsWith(line, "- ") }

  /** A next line that earns the plain line before it a `<br>`: non-blank,
      and matching neither `/^>{1,3} /` nor `/^- /`. */
  predicate BreaksBefore(next: string) {
    !IsBlank(next) && !IsQuoteLine(next) && !IsTripleQuote(next) && !IsListLine(next)
  }

  /** `line.replace(/^>{1,2} /, '')`. */
  function StripQuote(line: string): string
    requires IsQuoteLine(line)
  {
    if StartsWith(line, ">> ") then line[3..] else line[2..]
  }

  /** The list item pushed for a `- ` line. */
  function ListItem(fmt: LineFormat, line: string): string
    requires IsListLine(line)
  {
    fmt.item(line[2..])
  }

  // ----- flushing -----

  function FlushQuote(st: State): (r: State)
    ensures st.inQuote ==>
      !r.inQuote && !r.inTriple && r.quoteLines == [] && r.out == st.out + [Quote(st.quoteLines)]
    ensures !st.inQuote ==> r == st
    ensures r.inList == st.inList && r.listItems == st.listItems && r.inCode == st.inCode
    ensures r.codeLines == st.codeLines && r.language == st.language
  {
    if st.inQuote then
      st.(out := st.out + [Quote(st.quoteLines)], quoteLines := [], inQuote := false, inTriple := false)
    else st
  }

  function FlushList(st: State): (r: State)
    ensures st.inList ==> !r.inList && r.listItems == [] && r.out == st.out + [List(st.listItems)]
    ensures !st.inList ==> r == st
    ensures r.inQuote == st.inQuote && r.inTriple == st.inTriple && r.quoteLines == st.quoteLines
    ensures r.inCode == st.inCode && r.codeLines == st.codeLines && r.language == st.language
  {
    if st.inList then st.(out := st.out + [List(st.listItems)], listItems := [], inList := false)
    else st
  }

  function Last(bs: seq<Block>): Block
    requires |bs| > 0
  {
    bs[|bs| - 1]
  }

  // ----- one line -----

  /** The effect of line `i`, branch by branch in the source's order. Blocks
      are only ever appended; a fence line, and only a fence line, opens or
      closes a code block; inside one any other line goes to the code buffer
      verbatim and nothing else changes. */
  function Step(lines: seq<string>, i: nat, st: State, fmt: LineFormat): (r: State)
    requires i < |lines|
    ensures st.out <= r.out
    ensures IsFence(lines[i]) <==> r.inCode != st.inCode
    ensures st.inCode && !IsFence(lines[i]) ==> r == st.(codeLines := st.codeLines + [lines[i]])
  {
    var line := lines[i];
    if IsFence(line) then
      var st1 := FlushList(FlushQuote(st));
      if st1.inCode then
        st1.(out := st1.out + [Code(st1.language, st1.codeLines)], codeLines := [], language := None, inCode := false)
      else
        st1.(language := NonEmpty(line[3..]), inCode := true)
    else if st.inCode then
      st.(codeLines := st.codeLines + [line])
    else if IsTripleQuote(line) then
      var st1 := FlushList(st);
      var st2 := if !st1.inQuote then st1.(inQuote := true, inTriple := true) else st1;
      st2.(quoteLines := st2.quoteLines + [fmt.quoted(line[4..])])
    else if IsQuoteLine(line) || (st.inTriple && !IsFence(line) && !IsBlank(line)) then
      var st1 := FlushList(st).(inQuote := true);
      var content := if st1.inTriple then line else StripQuote(line);
      st1.(quoteLines := st1.quoteLines + [fmt.quoted(content)])
    else if IsListLine(line) then
      var st1 := FlushQuote(st);
      st1.(inList := true, listItems := st1.listItems + [ListItem(fmt, line)])
    else
      var st1 := FlushList(FlushQuote(st));
      if IsBlank(line) then
        if |st1.out| > 0 && !EndsWithBreak(Last(st1.out)) then
          st1.(out := st1.out + [ParagraphBreak])
        else st1
      else
        var st2 := st1.(out := st1.out + [Text(fmt.plain(line))]);
        if i < |lines| - 1 && BreaksBefore(lines[i + 1]) then st2.(out := st2.out + [LineBreak]) else st2
  }

  /** Lines `lo..hi` processed in order. */
  function Steps(lines: seq<string>, lo: nat, hi: nat, st: State, fmt: LineFormat): State
    requires lo <= hi <= |lines|
    decreases hi - lo
  {
    if lo == hi then st else Steps(lines, lo + 1, hi, Step(lines, lo, st, fmt), fmt)
  }

  /** The pushes after the loop: a pending quote, then a pending list. Only
      the output changes, and only by at most one quote block followed by at
      most one list block; with nothing pending nothing is pushed. */
  function Finish(st: State): (r: State)
    ensures r == st.(out := r.out) && st.out <= r.out && |r.out| <= |st.out| + 2
    ensures forall k | |st.out| <= k < |r.out| :: r.out[k].Quote? || r.out[k].List?
    ensures |r.out| == |st.out| + 2 ==> r.out[|st.out|].Quote? && r.out[|st.out| + 1].List?
    ensures (st.inQuote && |st.quoteLines| > 0) || (st.inList && |st.listItems| > 0) <==> r != st
  {
    var st1 := if st.inQuote && |st.quoteLines| > 0 then st.(out := st.out + [Quote(st.quoteLines)]) else st;
    if st1.inList && |st1.listItems| > 0 then st1.(out := st1.out + [List(st1.listItems)]) else st1
  }

  /** The blocks `parseMarkdown` pushes for the given lines. */
  function ScanLines(lines: seq<string>, fmt: LineFormat): (r: seq<Block>)
    ensures lines == [] ==> r == []
  {
    Finish(Steps(lines, 0, |lines|, Initial, fmt)).out
  }

  /** `parseMarkdown`: empty input gives the empty string; otherwise the
      jumbo test on the raw text, the pre-pass, the scan of the lines and the
      emoji post-pass. */
  function ParseMarkdown(markdown: string, ctx: Option<Markdown.MentionContext>, renderImages: bool, render: TimeRender): (r: string)
    ensures markdown == "" ==> r == ""
  {
    if markdown == "" then ""
    else
      var jumbo := Markdown.ShouldUseJumboEmojis(markdown);
      var processed := Markdown.ProcessMarkdownContent(markdown, ctx, renderImages);
      var lines := Split(processed, '\n');
      Markdown.EmojiPass(RenderBlocks(ScanLines(lines, SourceFormat(render))), jumbo)
  }
}
