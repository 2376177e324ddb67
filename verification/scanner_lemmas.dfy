/** Properties of the `parseMarkdown` line scanner: the state invariant,
    paragraph breaks, fenced code, lists, quotes and `>>>` quotes. */
module ScannerLemmas {
  import opened Optional
  import opened Strings
  import opened Inline
  import opened Scanner
  import Seqs

  // ----- the state invariant -----

  /** No `<br><br>` is pushed first, nor right after a result that already
      ends with `<br><br>`. */
  predicate WellPlacedBreaks(out: seq<Block>) {
    (|out| > 0 ==> out[0] != ParagraphBreak)
    && forall k | 0 < k < |out| :: out[k] == ParagraphBreak ==> !EndsWithBreak(out[k - 1])
  }

  /** The flags agree with the buffers, the modes exclude each other, and the
      output has well-placed breaks. */
  predicate Inv(st: State) {
    (st.inQuote <==> |st.quoteLines| > 0)
    && (st.inList <==> |st.listItems| > 0)
    && !(st.inQuote && st.inList)
    && (st.inTriple ==> st.inQuote)
    && (st.inCode ==> !st.inQuote && !st.inList)
    && (!st.inCode ==> st.codeLines == [] && st.language.None?)
    && WellPlacedBreaks(st.out)
  }

  /** The block-level test agrees with the rendered string: a result ends
      with `<br><br>` exactly when it is a paragraph break or a text ending
      so. */
  lemma EndsWithBreakRendering(b: Block)
    ensures EndsWithBreak(b) <==> EndsWith(RenderBlock(b), "<br><br>")
  {
    match b
    case Text(_) =>
    case LineBreak =>
    case ParagraphBreak =>
    case Quote(lines) => QuoteRenderingNotBreak(lines);
    case List(items) => ListRenderingNotBreak(items);
    case Code(language, lines) => CodeRenderingNotBreak(language, lines);
  }

  lemma QuoteRenderingNotBreak(lines: seq<string>)
    ensures !EndsWith(RenderBlock(Quote(lines)), "<br><br>")
  {
    WrapNotBreak("discord-quote", FormatQuoteLines(lines));
  }

  lemma ListRenderingNotBreak(items: seq<string>)
    ensures !EndsWith(RenderBlock(List(items)), "<br><br>")
  {
    WrapNotBreak("discord-unordered-list", Concat(items));
  }

  lemma CodeRenderingNotBreak(language: Option<string>, lines: seq<string>)
    ensures !EndsWith(RenderBlock(Code(language, lines)), "<br><br>")
  {
    var attr := if Truthy(language) then " language=\"" + language.value + "\"" else "";
    ClosingTag("<discord-code multiline" + attr + ">" + Join(lines, "\n"), "</discord-code>");
  }

  lemma WrapNotBreak(tag: string, body: string)
    requires |tag| > 0 && tag[|tag| - 1] != 'r'
    ensures !EndsWith(Wrap(tag, body), "<br><br>")
  {
    var x := "<" + tag + ">" + body + "</";
    assert Wrap(tag, body) == x + (tag + ">");
    ClosingTag(x, tag + ">");
  }

  /** A string closed by a tag whose name does not end in `r` does not end
      with `<br><br>`. */
  lemma ClosingTag(x: string, tag: string)
    requires |tag| >= 2 && tag[|tag| - 1] == '>' && tag[|tag| - 2] != 'r'
    ensures !EndsWith(x + tag, "<br><br>")
  {
    var s := x + tag;
    assert s[|s| - 2] == tag[|tag| - 2];
    if |s| >= 8 {
      assert s[|s| - 8..][6] == s[|s| - 2];
    }
  }

  lemma AppendBlock(out: seq<Block>, b: Block)
    requires WellPlacedBreaks(out)
    requires b == ParagraphBreak ==> |out| > 0 && !EndsWithBreak(Last(out))
    ensures WellPlacedBreaks(out + [b])
  {
    var r := out + [b];
    forall k | 0 < k < |r| && r[k] == ParagraphBreak
      ensures !EndsWithBreak(r[k - 1])
    {
      if k < |out| {
        assert r[k] == out[k] && r[k - 1] == out[k - 1];
      }
    }
  }

  lemma FlushesKeepInv(st: State)
    requires Inv(st)
    ensures Inv(FlushQuote(st)) && Inv(FlushList(st)) && Inv(FlushList(FlushQuote(st)))
  {
    if st.inQuote {
      AppendBlock(st.out, Quote(st.quoteLines));
    }
    if st.inList {
      AppendBlock(st.out, List(st.listItems));
    }
    var q := FlushQuote(st);
    if q.inList {
      AppendBlock(q.out, List(q.listItems));
    }
  }

  /** Every line keeps the invariant. */
  lemma StepInv(lines: seq<string>, i: nat, st: State, fmt: LineFormat)
    requires i < |lines| && Inv(st)
    ensures Inv(Step(lines, i, st, fmt))
  {
    var line := lines[i];
    FlushesKeepInv(st);
    var st1 := FlushList(FlushQuote(st));
    if IsFence(line) {
      if st1.inCode {
        AppendBlock(st1.out, Code(st1.language, st1.codeLines));
      }
    } else if st.inCode {
    } else if IsTripleQuote(line) {
    } else if IsQuoteLine(line) || (st.inTriple && !IsFence(line) && !IsBlank(line)) {
    } else if IsListLine(line) {
    } else if IsBlank(line) {
      if |st1.out| > 0 && !EndsWithBreak(Last(st1.out)) {
        AppendBlock(st1.out, ParagraphBreak);
      }
    } else {
      var text := Text(fmt.plain(line));
      AppendBlock(st1.out, text);
      if i < |lines| - 1 && BreaksBefore(lines[i + 1]) {
        AppendBlock(st1.out + [text], LineBreak);
      }
    }
  }

  lemma {:induction false} StepsInv(lines: seq<string>, lo: nat, hi: nat, st: State, fmt: LineFormat)
    requires lo <= hi <= |lines| && Inv(st)
    ensures Inv(Steps(lines, lo, hi, st, fmt))
    decreases hi - lo
  {
    if lo < hi {
      StepInv(lines, lo, st, fmt);
      StepsInv(lines, lo + 1, hi, Step(lines, lo, st, fmt), fmt);
    }
  }

  /** `<br><br>` is never pushed first and never twice in a row. */
  lemma NoDoubleParagraphBreak(lines: seq<string>, fmt: LineFormat)
    ensures var out := ScanLines(lines, fmt);
      && (|out| > 0 ==> out[0] != ParagraphBreak)
      && forall k | 0 < k < |out| :: out[k] == ParagraphBreak ==> out[k - 1] != ParagraphBreak
  {
    assert Inv(Initial);
    StepsInv(lines, 0, |lines|, Initial, fmt);
    var st := Steps(lines, 0, |lines|, Initial, fmt);
    var st1 := if st.inQuote && |st.quoteLines| > 0 then st.(out := st.out + [Quote(st.quoteLines)]) else st;
    if st.inQuote && |st.quoteLines| > 0 {
      AppendBlock(st.out, Quote(st.quoteLines));
    }
    if st1.inList && |st1.listItems| > 0 {
      AppendBlock(st1.out, List(st1.listItems));
    }
    var out := ScanLines(lines, fmt);
    forall k | 0 < k < |out| && out[k] == ParagraphBreak ensures out[k - 1] != ParagraphBreak {
      if out[k - 1] == ParagraphBreak {
        assert EndsWithBreak(out[k - 1]);
      }
    }
  }

  // ----- running several lines -----

  /** Processing `lo..hi` is processing `lo..mid`, then `mid..hi`. */
  lemma {:induction false} StepsSplit(lines: seq<string>, lo: nat, mid: nat, hi: nat, st: State, fmt: LineFormat)
    requires lo <= mid <= hi <= |lines|
    ensures Steps(lines, lo, hi, st, fmt) == Steps(lines, mid, hi, Steps(lines, lo, mid, st, fmt), fmt)
    decreases mid - lo
  {
    if lo < mid {
      StepsSplit(lines, lo + 1, mid, hi, Step(lines, lo, st, fmt), fmt);
    }
  }

  // ----- fenced code -----

  /** Inside a fence every non-fence line goes verbatim to the code buffer. */
  lemma {:induction false} CodeBody(lines: seq<string>, lo: nat, hi: nat, st: State, fmt: LineFormat)
    requires lo <= hi <= |lines| && st.inCode
    requires forall k | lo <= k < hi :: !IsFence(lines[k])
    ensures Steps(lines, lo, hi, st, fmt) == st.(codeLines := st.codeLines + lines[lo..hi])
    decreases hi - lo
  {
    if lo == hi {
      assert st.codeLines + lines[lo..hi] == st.codeLines;
    } else {
      var next := st.(codeLines := st.codeLines + [lines[lo]]);
      assert Step(lines, lo, st, fmt) == next;
      CodeBody(lines, lo + 1, hi, next, fmt);
      assert next.codeLines + lines[lo + 1..hi] == st.codeLines + lines[lo..hi];
    }
  }

  /** An opening fence at `i` and the next fence at `j` give exactly one code
      block holding the lines strictly between them, with the text after the
      opening backticks as its language (none when that text is empty). */
  lemma FencedCode(lines: seq<string>, i: nat, j: nat, st: State, fmt: LineFormat)
    requires i < j < |lines| && Inv(st) && !st.inCode
    requires IsFence(lines[i]) && IsFence(lines[j])
    requires forall k | i < k < j :: !IsFence(lines[k])
    ensures var base := FlushList(FlushQuote(st));
      Steps(lines, i, j + 1, st, fmt)
        == base.(out := base.out + [Code(NonEmpty(lines[i][3..]), lines[i + 1..j])])
  {
    var base := FlushList(FlushQuote(st));
    var started := base.(language := NonEmpty(lines[i][3..]), inCode := true);
    assert Step(lines, i, st, fmt) == started;
    CodeBody(lines, i + 1, j, started, fmt);
    assert started.codeLines == [];
    var body := started.(codeLines := lines[i + 1..j]);
    assert [] + lines[i + 1..j] == lines[i + 1..j];
    assert Steps(lines, i, j + 1, st, fmt) == Steps(lines, i + 1, j + 1, started, fmt);
    StepsSplit(lines, i + 1, j, j + 1, started, fmt);
    assert Steps(lines, i + 1, j, started, fmt) == body;
    assert Steps(lines, j, j + 1, body, fmt) == Step(lines, j, body, fmt);
    assert !body.inQuote && !body.inList;
    assert FlushList(FlushQuote(body)) == body;
  }

  /** The rendered code block: the inner lines joined by newlines, with a
      `language` attribute only for a non-empty language. */
  lemma CodeRendering(language: string, body: seq<string>)
    ensures RenderBlock(Code(NonEmpty(language), body))
      == "<discord-code multiline" + (if language == "" then "" else " language=\"" + language + "\"")
         + ">" + Join(body, "\n") + "</discord-code>"
  {
  }

  /** A fence left open at the end of the input emits nothing: the output is
      what it was before the fence, after the pending quote or list. */
  lemma OpenFenceEmitsNothing(lines: seq<string>, i: nat, st: State, fmt: LineFormat)
    requires i < |lines| && Inv(st) && !st.inCode
    requires IsFence(lines[i])
    requires forall k | i < k < |lines| :: !IsFence(lines[k])
    ensures Finish(Steps(lines, i, |lines|, st, fmt)).out == FlushList(FlushQuote(st)).out
  {
    var base := FlushList(FlushQuote(st));
    var started := base.(language := NonEmpty(lines[i][3..]), inCode := true);
    assert Step(lines, i, st, fmt) == started;
    CodeBody(lines, i + 1, |lines|, started, fmt);
    StepsSplit(lines, i, i + 1, |lines|, st, fmt);
  }

  // ----- lists -----

  function Items(ls: seq<string>, fmt: LineFormat): (r: seq<string>)
    requires forall k | 0 <= k < |ls| :: IsListLine(ls[k])
    ensures |r| == |ls| && forall k | 0 <= k < |ls| :: r[k] == ListItem(fmt, ls[k])
  {
    seq(|ls|, k requires 0 <= k < |ls| => ListItem(fmt, ls[k]))
  }

  /** A `- ` line is neither a fence, nor a `>>> ` line, nor a quote line. */
  lemma ListLineKind(line: string)
    requires IsListLine(line)
    ensures !IsFence(line) && !IsTripleQuote(line) && !IsQuoteLine(line)
  {
    assert line[0] == '-';
  }

  /** Outside code and `>>>` quotes, a `- ` line flushes a pending quote and
      appends its item to the list buffer. */
  lemma ListStep(lines: seq<string>, i: nat, st: State, fmt: LineFormat)
    requires i < |lines| && IsListLine(lines[i]) && !st.inCode && !st.inTriple
    ensures var q := FlushQuote(st);
      Step(lines, i, st, fmt) == q.(inList := true, listItems := q.listItems + [ListItem(fmt, lines[i])])
  {
    ListLineKind(lines[i]);
  }

  lemma ItemsCons(lines: seq<string>, lo: nat, hi: nat, fmt: LineFormat)
    requires lo < hi <= |lines|
    requires forall k | lo <= k < hi :: IsListLine(lines[k])
    ensures Items(lines[lo..hi], fmt) == [ListItem(fmt, lines[lo])] + Items(lines[lo + 1..hi], fmt)
  {
    assert lines[lo..hi][1..] == lines[lo + 1..hi];
  }

  /** Consecutive `- ` lines outside a `>>>` quote fill one list buffer, one
      item per line in input order, after flushing a pending quote. */
  lemma ListRun(lines: seq<string>, lo: nat, hi: nat, st: State, fmt: LineFormat)
    requires lo <= hi <= |lines| && Inv(st) && !st.inCode && !st.inTriple && !st.inList
    requires forall k | lo <= k < hi :: IsListLine(lines[k])
    ensures lo < hi ==>
      Steps(lines, lo, hi, st, fmt)
        == FlushQuote(st).(inList := true, listItems := Items(lines[lo..hi], fmt))
  {
    if lo < hi {
      var item := ListItem(fmt, lines[lo]);
      ListStep(lines, lo, st, fmt);
      var first := FlushQuote(st).(inList := true, listItems := [item]);
      assert Step(lines, lo, st, fmt) == first;
      ListContinue(lines, lo + 1, hi, first, [item], fmt);
      ItemsCons(lines, lo, hi, fmt);
    }
  }

  /** Further `- ` lines append to an open list. */
  lemma {:induction false} ListContinue(lines: seq<string>, lo: nat, hi: nat, st: State, prior: seq<string>, fmt: LineFormat)
    requires lo <= hi <= |lines| && !st.inCode && !st.inTriple && !st.inQuote
    requires st.inList && st.listItems == prior
    requires forall k | lo <= k < hi :: IsListLine(lines[k])
    ensures Steps(lines, lo, hi, st, fmt) == st.(listItems := prior + Items(lines[lo..hi], fmt))
    decreases hi - lo
  {
    if lo == hi {
      assert prior + Items(lines[lo..hi], fmt) == prior;
    } else {
      var item := ListItem(fmt, lines[lo]);
      ListStep(lines, lo, st, fmt);
      var next := st.(listItems := prior + [item]);
      assert Step(lines, lo, st, fmt) == next;
      ListContinue(lines, lo + 1, hi, next, prior + [item], fmt);
      ItemsCons(lines, lo, hi, fmt);
      Seqs.AppendAssoc(prior, [item], Items(lines[lo + 1..hi], fmt));
    }
  }

  /** N list lines closing the input give exactly one list of N items. */
  lemma ListAtEnd(lines: seq<string>, lo: nat, st: State, fmt: LineFormat)
    requires lo < |lines| && Inv(st) && !st.inCode && !st.inTriple && !st.inList
    requires forall k | lo <= k < |lines| :: IsListLine(lines[k])
    ensures Finish(Steps(lines, lo, |lines|, st, fmt)).out
      == FlushQuote(st).out + [List(Items(lines[lo..], fmt))]
  {
    ListRun(lines, lo, |lines|, st, fmt);
    assert lines[lo..] == lines[lo..|lines|];
    var items := Items(lines[lo..], fmt);
    assert |items| > 0;
    var run := FlushQuote(st).(inList := true, listItems := items);
    assert Steps(lines, lo, |lines|, st, fmt) == run;
    assert !run.inQuote;
  }

  // ----- quotes -----

  function QuoteContents(ls: seq<string>, fmt: LineFormat): (r: seq<string>)
    requires forall k | 0 <= k < |ls| :: IsQuoteLine(ls[k])
    ensures |r| == |ls| && forall k | 0 <= k < |ls| :: r[k] == fmt.quoted(StripQuote(ls[k]))
  {
    seq(|ls|, k requires 0 <= k < |ls| => fmt.quoted(StripQuote(ls[k])))
  }

  /** A `> `/`>> ` line is neither a fence nor a `>>> ` line. */
  lemma QuoteLineKind(line: string)
    requires IsQuoteLine(line)
    ensures !IsFence(line) && !IsTripleQuote(line)
  {
    assert line[0] == '>';
    if StartsWith(line, "> ") {
      assert line[1] == ' ';
    } else {
      assert line[2] == ' ';
    }
  }

  /** Outside code and `>>>` quotes, a `> `/`>> ` line flushes a pending
      list and appends its stripped, formatted text to the quote buffer. */
  lemma QuoteStep(lines: seq<string>, i: nat, st: State, fmt: LineFormat)
    requires i < |lines| && IsQuoteLine(lines[i]) && !st.inCode && !st.inTriple
    ensures var l := FlushList(st);
      Step(lines, i, st, fmt)
        == l.(inQuote := true, quoteLines := l.quoteLines + [fmt.quoted(StripQuote(lines[i]))])
  {
    QuoteLineKind(lines[i]);
  }

  lemma QuoteContentsCons(lines: seq<string>, lo: nat, hi: nat, fmt: LineFormat)
    requires lo < hi <= |lines|
    requires forall k | lo <= k < hi :: IsQuoteLine(lines[k])
    ensures QuoteContents(lines[lo..hi], fmt)
      == [fmt.quoted(StripQuote(lines[lo]))] + QuoteContents(lines[lo + 1..hi], fmt)
  {
    assert lines[lo..hi][1..] == lines[lo + 1..hi];
  }

  /** A run of `> `/`>> ` lines outside a quote fills one quote buffer with
      the stripped, formatted lines, after flushing a pending list. */
  lemma QuoteRun(lines: seq<string>, lo: nat, hi: nat, st: State, fmt: LineFormat)
    requires lo < hi <= |lines| && Inv(st) && !st.inCode && !st.inQuote
    requires forall k | lo <= k < hi :: IsQuoteLine(lines[k])
    ensures Steps(lines, lo, hi, st, fmt)
      == FlushList(st).(inQuote := true, quoteLines := QuoteContents(lines[lo..hi], fmt))
  {
    var entry := fmt.quoted(StripQuote(lines[lo]));
    QuoteStep(lines, lo, st, fmt);
    var first := FlushList(st).(inQuote := true, quoteLines := [entry]);
    assert Step(lines, lo, st, fmt) == first;
    QuoteContinue(lines, lo + 1, hi, first, [entry], fmt);
    QuoteContentsCons(lines, lo, hi, fmt);
  }

  lemma {:induction false} QuoteContinue(lines: seq<string>, lo: nat, hi: nat, st: State, prior: seq<string>, fmt: LineFormat)
    requires lo <= hi <= |lines| && !st.inCode && !st.inTriple && !st.inList
    requires st.inQuote && st.quoteLines == prior
    requires forall k | lo <= k < hi :: IsQuoteLine(lines[k])
    ensures Steps(lines, lo, hi, st, fmt) == st.(quoteLines := prior + QuoteContents(lines[lo..hi], fmt))
    decreases hi - lo
  {
    if lo == hi {
      assert prior + QuoteContents(lines[lo..hi], fmt) == prior;
    } else {
      var entry := fmt.quoted(StripQuote(lines[lo]));
      QuoteStep(lines, lo, st, fmt);
      var next := st.(quoteLines := prior + [entry]);
      assert Step(lines, lo, st, fmt) == next;
      QuoteContinue(lines, lo + 1, hi, next, prior + [entry], fmt);
      QuoteContentsCons(lines, lo, hi, fmt);
      Seqs.AppendAssoc(prior, [entry], QuoteContents(lines[lo + 1..hi], fmt));
    }
  }

  /** The quote formatter turns every `-` line into an `<li>` entry. */
  ghost predicate ItemsBecomeEntries(fmt: LineFormat) {
    forall c: string :: QuoteListPrefix(c) > 0 ==> StartsWith(fmt.quoted(c), "<li>")
  }

  /** The source's quote formatter does. */
  lemma SourceItemsBecomeEntries(render: TimeRender)
    ensures ItemsBecomeEntries(SourceFormat(render))
  {
    SourceEntries(render);
  }

  lemma SourceEntries(render: TimeRender)
    ensures forall c: string | QuoteListPrefix(c) > 0 :: StartsWith(SourceFormat(render).quoted(c), "<li>")
  {
    forall c: string | QuoteListPrefix(c) > 0
      ensures StartsWith(SourceFormat(render).quoted(c), "<li>")
    {
      SourceQuotedEntry(render, c);
    }
  }

  lemma SourceQuotedEntry(render: TimeRender, c: string)
    requires QuoteListPrefix(c) > 0
    ensures StartsWith(SourceFormat(render).quoted(c), "<li>")
  {
    SourceQuoted(render, c);
  }

  lemma SourceQuoted(render: TimeRender, c: string)
    ensures SourceFormat(render).quoted(c) == QuoteLine(c, render)
  {
  }

  /** A quote whose every line is a `-` item renders as one unstyled list of
      the entries. */
  lemma QuoteOfItemsIsList(ls: seq<string>, fmt: LineFormat)
    requires |ls| > 0 && ItemsBecomeEntries(fmt)
    requires forall k | 0 <= k < |ls| :: IsQuoteLine(ls[k]) && QuoteListPrefix(StripQuote(ls[k])) > 0
    ensures RenderBlock(Quote(QuoteContents(ls, fmt))) == Wrap("discord-quote", FormatQuoteLines(QuoteContents(ls, fmt)))
    ensures FormatQuoteLines(QuoteContents(ls, fmt)) == UnstyledList + Concat(QuoteContents(ls, fmt)) + "</ul>"
  {
    var q := QuoteContents(ls, fmt);
    forall k | 0 <= k < |q|
      ensures StartsWith(q[k], "<li>")
    {
      assert q[k] == fmt.quoted(StripQuote(ls[k]));
    }
  }

  // ----- >>> quotes -----

  /** What a line inside a `>>>` quote contributes: a further `>>> ` line
      loses its marker, every other line is taken whole. */
  function TripleContent(line: string): string {
    if IsTripleQuote(line) then line[4..] else line
  }

  function TripleContents(ls: seq<string>, fmt: LineFormat): (r: seq<string>)
    ensures |r| == |ls| && forall k | 0 <= k < |ls| :: r[k] == fmt.quoted(TripleContent(ls[k]))
  {
    seq(|ls|, k requires 0 <= k < |ls| => fmt.quoted(TripleContent(ls[k])))
  }

  /** After a `>>> ` line every following non-blank, non-fence line, `- `
      lines included, joins the same quote without being stripped. */
  lemma TripleQuoteAbsorbs(lines: seq<string>, i: nat, j: nat, st: State, fmt: LineFormat)
    requires i < j <= |lines| && Inv(st) && !st.inCode && !st.inQuote
    requires IsTripleQuote(lines[i])
    requires forall k | i < k < j :: !IsBlank(lines[k]) && !IsFence(lines[k])
    ensures Steps(lines, i, j, st, fmt)
      == FlushList(st).(inQuote := true, inTriple := true,
                        quoteLines := [fmt.quoted(lines[i][4..])] + TripleContents(lines[i + 1..j], fmt))
  {
    var first := FlushList(st).(inQuote := true, inTriple := true, quoteLines := [fmt.quoted(lines[i][4..])]);
    assert !IsFence(lines[i]) by {
      assert lines[i][0] == '>';
    }
    assert Step(lines, i, st, fmt) == first;
    TripleContinue(lines, i + 1, j, first, [fmt.quoted(lines[i][4..])], fmt);
  }

  lemma {:induction false} TripleContinue(lines: seq<string>, lo: nat, hi: nat, st: State, prior: seq<string>, fmt: LineFormat)
    requires lo <= hi <= |lines| && !st.inCode && !st.inList
    requires st.inQuote && st.inTriple && st.quoteLines == prior
    requires forall k | lo <= k < hi :: !IsBlank(lines[k]) && !IsFence(lines[k])
    ensures Steps(lines, lo, hi, st, fmt) == st.(quoteLines := prior + TripleContents(lines[lo..hi], fmt))
    decreases hi - lo
  {
    if lo == hi {
      assert prior + TripleContents(lines[lo..hi], fmt) == prior;
    } else {
      var entry := fmt.quoted(TripleContent(lines[lo]));
      TripleStep(lines, lo, st, fmt);
      var next := st.(quoteLines := prior + [entry]);
      assert Steps(lines, lo, hi, st, fmt) == Steps(lines, lo + 1, hi, next, fmt);
      TripleContinue(lines, lo + 1, hi, next, prior + [entry], fmt);
      TripleContentsCons(lines, lo, hi, fmt);
      Seqs.AppendAssoc(prior, [entry], TripleContents(lines[lo + 1..hi], fmt));
    }
  }

  /** Inside a `>>>` quote a non-blank, non-fence line appends its content. */
  lemma TripleStep(lines: seq<string>, i: nat, st: State, fmt: LineFormat)
    requires i < |lines| && !IsBlank(lines[i]) && !IsFence(lines[i])
    requires !st.inCode && !st.inList && st.inQuote && st.inTriple
    ensures Step(lines, i, st, fmt) == st.(quoteLines := st.quoteLines + [fmt.quoted(TripleContent(lines[i]))])
  {
  }

  lemma TripleContentsCons(lines: seq<string>, lo: nat, hi: nat, fmt: LineFormat)
    requires lo < hi <= |lines|
    ensures TripleContents(lines[lo..hi], fmt)
      == [fmt.quoted(TripleContent(lines[lo]))] + TripleContents(lines[lo + 1..hi], fmt)
  {
    assert lines[lo..hi][1..] == lines[lo + 1..hi];
  }

  /** The first blank line closes a `>>>` quote: the quote is pushed, the
      triple flag is reset, and a paragraph break follows. */
  lemma BlankClosesTriple(lines: seq<string>, j: nat, st: State, fmt: LineFormat)
    requires j < |lines| && !st.inCode && !st.inList
    requires st.inQuote && st.inTriple
    requires IsBlank(lines[j])
    ensures var r := Step(lines, j, st, fmt);
      && !r.inQuote && !r.inTriple && r.quoteLines == []
      && r.out == st.out + [Quote(st.quoteLines), ParagraphBreak]
  {
    var line := lines[j];
    assert !IsFence(line) && !IsTripleQuote(line) && !IsQuoteLine(line) && !IsListLine(line) by {
      if |line| > 0 {
        assert IsJsSpace(line[0]);
      }
    }
  }

  // ----- line breaks -----

  /** A plain non-blank line is followed by `<br>` exactly when a next line
      exists, is non-blank and starts with neither `>{1,3} ` nor `- `. */
  lemma PlainLineBreak(lines: seq<string>, i: nat, st: State, fmt: LineFormat)
    requires i < |lines| && !st.inCode && !st.inTriple
    requires var line := lines[i];
      !IsFence(line) && !IsTripleQuote(line) && !IsQuoteLine(line) && !IsListLine(line) && !IsBlank(line)
    ensures var base := FlushList(FlushQuote(st));
      var r := Step(lines, i, st, fmt);
      && |r.out| >= |base.out| + 1
      && r.out[..|base.out| + 1] == base.out + [Text(fmt.plain(lines[i]))]
      && (|r.out| == |base.out| + 2 <==> i + 1 < |lines| && BreaksBefore(lines[i + 1]))
      && (|r.out| == |base.out| + 2 ==> r.out[|base.out| + 1] == LineBreak)
  {
  }
}
