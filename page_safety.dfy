/**
 * What the Markdown converter can put into a page when raw HTML is off.
 * Every `<` in its output opens one of the tags the converter writes itself,
 * every anchor carries an `href` and every image a `src` that passes the URL
 * gate. Text lines are escaped before any block is formed, so the only `<`s
 * are those of the block tags, of the inline formatter's tags and of the
 * code-fence blocks, whose bodies are escaped on their own.
 */
module PageSafety {
  import opened JsText
  import opened Escape
  import opened Fences
  import opened Markdown
  import opened Inline
  import opened InlineSafety
  import opened ImageSafety

  /** Every tag a converted page can hold: the inline formatter's nine,
      then those the block loop and the fence pass write, each opening tag
      followed by its closing one. */
  const PageTags: seq<string> := [
    "<strong>", "</strong>", "<em>", "</em>", "<code>", "</code>", "<img src=\"",
    "<a href=\"", "</a>",
    "<h1>", "</h1>", "<h2>", "</h2>", "<h3>", "</h3>", "<hr>",
    "<blockquote>", "</blockquote>", "<ul>", "</ul>", "<ol>", "</ol>",
    "<li>", "</li>", "<p>", "</p>", "<pre>", "</pre>", "<code class=\"language-"]

  /** Every `<` opens a page tag, every anchor and image is safe, and the
      text does not end in a bare `<`. */
  predicate Safe(o: string)
  {
    Tags(o, PageTags) && Anchors(o) && Images(o) && Closed(o)
  }

  predicate AllSafe(parts: seq<string>)
  {
    forall j | 0 <= j < |parts| :: Safe(parts[j])
  }

  /** None of the strings holds a `<`. */
  predicate NoLt(ss: seq<string>)
  {
    forall j | 0 <= j < |ss| :: '<' !in ss[j]
  }

  // ---------------------------------------------------------------------
  // Building safe text.

  lemma SafeNoLt(s: string)
    requires '<' !in s
    ensures Safe(s)
  {
    TagsNoLt(s, PageTags);
    AnchorsNoLt(s);
    ImagesNoLt(s);
  }

  lemma SafeConcat(x: string, y: string)
    requires Safe(x) && Safe(y)
    ensures Safe(x + y)
  {
    TagsConcat(x, y, PageTags);
    AnchorsConcat(x, y);
    ImagesConcat(x, y);
    if y != [] {
      assert (x + y)[|x + y| - 1] == y[|y| - 1];
    }
  }

  lemma SafeWrap(open: string, mid: string, close: string)
    requires Safe(open) && Safe(mid) && Safe(close)
    ensures Safe(open + mid + close)
  {
    SafeConcat(open, mid);
    SafeConcat(open + mid, close);
  }

  lemma {:induction false} SafeJoin(parts: seq<string>, sep: string)
    requires AllSafe(parts) && '<' !in sep
    ensures Safe(Join(parts, sep))
    decreases |parts|
  {
    if |parts| == 0 {
      SafeNoLt("");
    } else if |parts| > 1 {
      SafeJoin(parts[1..], sep);
      SafeNoLt(sep);
      SafeWrap(parts[0], sep, Join(parts[1..], sep));
    }
  }

  lemma PageTagsText()
    ensures forall k | 0 <= k < |PageTags| :: TagText(PageTags[k])
  {
  }

  /** Past the inline formatter's tags, none opens an anchor or an image. */
  lemma BlockTagsPlain()
    ensures forall k | 9 <= k < |PageTags| :: PageTags[k][1] != 'a' && PageTags[k][1] != 'i'
  {
  }

  /** Where each tag the converter writes sits in the list. */
  lemma PageTagsAt()
    ensures PageTags[4] == "<code>" && PageTags[5] == "</code>"
    ensures PageTags[15] == "<hr>"
    ensures PageTags[16] == "<blockquote>" && PageTags[17] == "</blockquote>"
    ensures PageTags[18] == "<ul>" && PageTags[19] == "</ul>"
    ensures PageTags[20] == "<ol>" && PageTags[21] == "</ol>"
    ensures PageTags[22] == "<li>" && PageTags[23] == "</li>"
    ensures PageTags[24] == "<p>" && PageTags[25] == "</p>"
    ensures PageTags[26] == "<pre>" && PageTags[27] == "</pre>"
    ensures PageTags[28] == "<code class=\"language-"
  {
  }

  /** A page tag that opens neither an anchor nor an image is safe on its own. */
  lemma SafeTag(lit: string, k: nat)
    requires k < |PageTags| && lit == PageTags[k] && lit[1] != 'a' && lit[1] != 'i'
    ensures Safe(lit)
  {
    PageTagsText();
    assert TagText(lit);
    forall i | 0 <= i < |lit| && lit[i] == '<' ensures TagAt(lit, i, PageTags) {
      assert i == 0 && lit[0..] == lit;
    }
    forall i | 0 <= i < |lit| ensures AnchorOk(lit[i..]) {
      assert lit[i..][0] == lit[i];
      assert i == 0 ==> lit[i..][1] == lit[1];
    }
    assert '<' !in lit[1..] by {
      assert forall j | 0 <= j < |lit| - 1 :: lit[1..][j] == lit[j + 1];
    }
    LitImages(lit);
  }

  /** A block tag pair around safe text. */
  lemma SafeWrapTag(open: string, mid: string, close: string, k: nat)
    requires 9 <= k && k + 1 < |PageTags| && open == PageTags[k] && close == PageTags[k + 1]
    requires Safe(mid)
    ensures Safe(open + mid + close)
  {
    BlockTagsPlain();
    SafeTag(open, k);
    SafeTag(close, k + 1);
    SafeWrap(open, mid, close);
  }

  lemma TagsToPage(o: string)
    requires Tags(o, AllTags)
    ensures Tags(o, PageTags)
  {
    assert PageTags[..9] == AllTags;
    forall i | 0 <= i < |o| && o[i] == '<' ensures TagAt(o, i, PageTags) {
      var k :| 0 <= k < |AllTags| && StartsWith(o[i..], AllTags[k]);
      assert PageTags[k] == AllTags[k];
    }
  }

  /** The inline formatter run over escaped text. */
  lemma InlineSafe(t: string)
    requires '<' !in t
    ensures Safe(InlineFormat(t))
  {
    var o := InlineFormat(t);
    InlineFormatSafe(t);
    InlineFormatImages(t);
    TagsToPage(o);
    if o != [] {
      AllTagsWellFormed();
      TagsLast(o, AllTags);
    }
  }

  // ---------------------------------------------------------------------
  // Text without `<`.

  lemma SliceNoLt(s: string, a: nat, b: nat)
    requires '<' !in s && a <= b <= |s|
    ensures '<' !in s[a..b]
  {
    assert forall i | 0 <= i < b - a :: s[a..b][i] == s[a + i];
  }

  lemma TrimStartNoLt(s: string)
    requires '<' !in s
    ensures '<' !in TrimStart(s)
  {
    var r := TrimStart(s);
    SliceNoLt(s, |s| - |r|, |s|);
  }

  lemma {:induction false} JoinNoLt(ss: seq<string>, sep: string)
    requires NoLt(ss) && '<' !in sep
    ensures '<' !in Join(ss, sep)
    decreases |ss|
  {
    if |ss| > 1 {
      JoinNoLt(ss[1..], sep);
    }
  }

  lemma EscapedNoLt(s: string)
    ensures '<' !in EscapeHtml(s)
  {
    EscapeHtmlSafe(s);
    var t := EscapeHtml(s);
    assert forall i | 0 <= i < |t| :: !Special(t[i], false);
  }

  /** What the block loop keeps of a line holds no `<` when the line holds
      none. */
  lemma RunTextNoLt(kind: RunKind, l: Line)
    requires l.Plain? ==> '<' !in l.s
    ensures '<' !in RunText(kind, l)
  {
    if l.Plain? {
      var s := l.s;
      match kind
      case QuoteRun =>
        if StartsWith(s, "&gt; ") {
          SliceNoLt(s, 5, |s|);
        }
      case BulletRun =>
        if s != [] {
          SliceNoLt(s, 1, |s|);
          TrimStartNoLt(s[1..]);
        }
      case NumberRun =>
        var n := DigitRun(s);
        if n < |s| {
          SliceNoLt(s, n + 1, |s|);
          TrimStartNoLt(s[n + 1..]);
        }
      case ParaRun =>
    }
  }

  lemma HeadingTextNoLt(s: string)
    requires IsHeading(s) && '<' !in s
    ensures '<' !in HeadingText(s)
  {
    var t := TrimStart(s[HeadingLevel(s)..]);
    SliceNoLt(s, HeadingLevel(s), |s|);
    TrimStartNoLt(s[HeadingLevel(s)..]);
    var r := UpToLineEnd(t);
    SliceNoLt(t, 0, |r|);
    assert r == t[0..|r|];
  }

  lemma {:induction false} GroupNoLt(cur: seq<string>, rest: seq<string>)
    requires NoLt(cur) && NoLt(rest)
    ensures forall j | 0 <= j < |Group(cur, rest)| :: NoLt(Group(cur, rest)[j])
    decreases |rest|
  {
    if rest != [] {
      if Blank(rest[0]) {
        GroupNoLt([], rest[1..]);
      } else {
        GroupNoLt(cur + [rest[0]], rest[1..]);
      }
    }
  }

  // ---------------------------------------------------------------------
  // Blocks.

  /** The block's strings hold no `<`, and a heading has level 1 to 3. */
  predicate BlockOk(b: Block)
  {
    match b
    case Fence(_) => true
    case Skip => true
    case Heading(level, text) => 1 <= level <= 3 && '<' !in text
    case Rule => true
    case Quote(lines) => NoLt(lines)
    case Bullets(items) => NoLt(items)
    case Numbers(items) => NoLt(items)
    case Para(lines) => NoLt(lines)
  }

  /** No text line holds a `<`. */
  predicate LinesOk(ls: seq<Line>)
  {
    forall j | 0 <= j < |ls| && ls[j].Plain? :: '<' !in ls[j].s
  }

  lemma RunBlockOk(ls: seq<Line>, kind: RunKind)
    requires ls != [] && InRun(kind, ls[0]) && LinesOk(ls)
    ensures BlockOk(RunBlock(ls, kind).0)
  {
    var n := RunBlock(ls, kind).1;
    var texts := RunTexts(kind, ls[..n]);
    forall j | 0 <= j < |texts| ensures '<' !in texts[j] {
      RunTextNoLt(kind, ls[j]);
    }
  }

  /** The front block of escaped lines holds no `<`. */
  lemma FrontOk(ls: seq<Line>)
    requires ls != [] && LinesOk(ls)
    ensures BlockOk(Front(ls).0)
  {
    var l := ls[0];
    if l.FencePh? || Blank(l.s) {
    } else if IsHeading(l.s) {
      HeadingTextNoLt(l.s);
    } else if IsRule(l.s) {
    } else if OpensQuote(l.s) {
      RunBlockOk(ls, QuoteRun);
    } else if IsBullet(l.s) {
      RunBlockOk(ls, BulletRun);
    } else if IsNumbered(l.s) {
      RunBlockOk(ls, NumberRun);
    } else {
      RunBlockOk(ls, ParaRun);
    }
  }

  lemma ParagraphSafe(g: seq<string>)
    requires NoLt(g)
    ensures Safe(ParagraphHtml(g))
  {
    JoinNoLt(g, " ");
    InlineSafe(Join(g, " "));
    PageTagsAt();
    SafeWrapTag("<p>", InlineFormat(Join(g, " ")), "</p>", 24);
  }

  lemma QuoteSafe(lines: seq<string>)
    requires NoLt(lines)
    ensures Safe(QuoteHtml(lines))
  {
    var gs := Paragraphs(lines);
    GroupNoLt([], lines);
    var parts := seq(|gs|, j requires 0 <= j < |gs| => ParagraphHtml(gs[j]));
    forall j | 0 <= j < |parts| ensures Safe(parts[j]) {
      ParagraphSafe(gs[j]);
    }
    SafeJoin(parts, "\n");
  }

  lemma ItemsSafe(items: seq<string>)
    requires NoLt(items)
    ensures Safe(Join(ListItems(items), "\n"))
  {
    var li := ListItems(items);
    PageTagsAt();
    forall j | 0 <= j < |li| ensures Safe(li[j]) {
      InlineSafe(items[j]);
      SafeWrapTag("<li>", InlineFormat(items[j]), "</li>", 22);
    }
    SafeJoin(li, "\n");
  }

  /** The heading tags of levels 1 to 3 are page tags. */
  lemma HeadingTags(level: nat)
    requires 1 <= level <= 3
    ensures "<h" + Decimal(level) + ">" == PageTags[7 + 2 * level]
    ensures "</h" + Decimal(level) + ">" == PageTags[8 + 2 * level]
  {
    assert Decimal(level) == [('0' as int + level) as char];
  }

  lemma HeadingSafe(level: nat, text: string)
    requires 1 <= level <= 3 && '<' !in text
    ensures Safe("<h" + Decimal(level) + ">" + InlineFormat(text) + "</h" + Decimal(level) + ">")
  {
    HeadingTags(level);
    InlineSafe(text);
    Regroup("<h" + Decimal(level) + ">", InlineFormat(text), "</h", Decimal(level), ">");
    SafeWrapTag("<h" + Decimal(level) + ">", InlineFormat(text), "</h" + Decimal(level) + ">", 7 + 2 * level);
  }

  lemma Regroup(a: string, b: string, c: string, d: string, e: string)
    ensures a + b + c + d + e == a + b + (c + d + e)
  {
  }

  /** Each block, built from text without `<` and from safe fences, is safe. */
  lemma BlockSafe(b: Block, fences: seq<string>)
    requires BlockOk(b) && AllSafe(fences)
    ensures Safe(BlockHtml(b, fences))
  {
    PageTagsAt();
    match b
    case Fence(k) =>
      if k >= |fences| {
        SafeNoLt("");
      }
    case Skip => SafeNoLt("");
    case Heading(level, text) => HeadingSafe(level, text);
    case Rule => SafeTag("<hr>", 15);
    case Quote(lines) =>
      QuoteSafe(lines);
      SafeWrapTag("<blockquote>", QuoteHtml(lines), "</blockquote>", 16);
    case Bullets(items) =>
      ItemsSafe(items);
      SafeWrapTag("<ul>", Join(ListItems(items), "\n"), "</ul>", 18);
    case Numbers(items) =>
      ItemsSafe(items);
      SafeWrapTag("<ol>", Join(ListItems(items), "\n"), "</ol>", 20);
    case Para(lines) =>
      JoinNoLt(lines, "\n");
      InlineSafe(Join(lines, "\n"));
      SafeWrapTag("<p>", InlineFormat(Join(lines, "\n")), "</p>", 24);
  }

  lemma {:induction false} BlocksOfSafe(ls: seq<Line>, fences: seq<string>)
    requires LinesOk(ls) && AllSafe(fences)
    ensures AllSafe(BlocksOf(ls, fences))
    decreases |ls|
  {
    if ls != [] {
      var (b, n) := Front(ls);
      BlocksCons(ls, fences);
      FrontOk(ls);
      BlockSafe(b, fences);
      assert LinesOk(ls[n..]) by {
        assert forall j | 0 <= j < |ls| - n :: ls[n..][j] == ls[n + j];
      }
      BlocksOfSafe(ls[n..], fences);
    }
  }

  // ---------------------------------------------------------------------
  // Code fences.

  predicate WordChars(s: string)
  {
    forall i | 0 <= i < |s| :: IsWordChar(s[i])
  }

  lemma WordCharsNoLt(s: string)
    requires WordChars(s)
    ensures '<' !in s
  {
  }

  /** The opening `<code` tag of a fence, with or without its language. */
  lemma CodeOpenSafe(lang: string)
    requires WordChars(lang)
    ensures Safe("<code" + LangAttr(lang) + ">")
  {
    PageTagsAt();
    if lang == "" {
      assert "<code" + LangAttr(lang) + ">" == "<code>";
      SafeTag("<code>", 4);
    } else {
      var lit := "<code class=\"language-";
      SafeTag(lit, 28);
      WordCharsNoLt(lang);
      SafeNoLt(lang + "\">");
      SafeConcat(lit, lang + "\">");
      CodeOpenSplit(lang);
    }
  }

  lemma CodeOpenSplit(lang: string)
    requires lang != ""
    ensures "<code" + LangAttr(lang) + ">" == "<code class=\"language-" + (lang + "\">")
  {
    assert "<code" + " class=\"language-" == "<code class=\"language-";
  }

  lemma FenceSplit(lang: string, body: seq<string>)
    ensures FenceHtml(lang, body)
      == "<pre>" + ("<code" + LangAttr(lang) + ">") + EscapeHtml(Join(body, "\n"))
         + ("</code>" + "</pre>")
  {
  }

  /** A fence block with a word-character language is safe. */
  lemma FenceSafe(lang: string, body: seq<string>)
    requires WordChars(lang)
    ensures Safe(FenceHtml(lang, body))
  {
    var open := "<code" + LangAttr(lang) + ">";
    var code := EscapeHtml(Join(body, "\n"));
    CodeOpenSafe(lang);
    EscapedNoLt(Join(body, "\n"));
    SafeNoLt(code);
    PageTagsAt();
    SafeTag("<pre>", 26);
    SafeTag("</code>", 5);
    SafeTag("</pre>", 27);
    SafeConcat("</code>", "</pre>");
    SafeWrap("<pre>", open, code);
    SafeConcat("<pre>" + open + code, "</code>" + "</pre>");
    FenceSplit(lang, body);
  }

  /** The fence pass keeps its blocks safe and its language a word. */
  predicate ExtractionOk(st: Extraction)
  {
    AllSafe(st.fences) && WordChars(st.lang)
  }

  lemma NextOk(st: Extraction, line: string)
    requires ExtractionOk(st)
    ensures ExtractionOk(Next(st, line))
  {
    if !st.inFence && OpensFence(line) {
      var r := FenceLang(line);
      assert WordChars(r);
    } else if st.inFence && ClosesFence(line) {
      FenceSafe(st.lang, st.body);
      var f := st.fences + [FenceHtml(st.lang, st.body)];
      assert forall j | 0 <= j < |f| :: f[j] == if j < |st.fences| then st.fences[j] else FenceHtml(st.lang, st.body);
    }
  }

  lemma {:induction false} RunOk(lines: seq<string>)
    ensures ExtractionOk(Run(Initial, lines))
    decreases |lines|
  {
    if lines != [] {
      RunOk(lines[..|lines| - 1]);
      NextOk(Run(Initial, lines[..|lines| - 1]), lines[|lines| - 1]);
    }
  }

  lemma EscapedLinesOk(ls: seq<Line>)
    ensures LinesOk(EscapeLines(ls, false))
  {
    var e := EscapeLines(ls, false);
    forall j | 0 <= j < |e| && e[j].Plain? ensures '<' !in e[j].s {
      EscapedNoLt(ls[j].s);
    }
  }

  // ---------------------------------------------------------------------
  // The converter.

  /** With raw HTML off, every `<` in the converter's output opens a tag it
      writes itself, and every anchor and image it writes has a URL that
      passes the gate. */
  lemma ToHtmlSafe(md: string)
    ensures Safe(ToHtml(md, false))
  {
    var st := Run(Initial, SplitLines(md));
    RunOk(SplitLines(md));
    var ls := EscapeLines(st.out, false);
    EscapedLinesOk(st.out);
    BlocksOfSafe(ls, st.fences);
    SafeJoin(BlocksOf(ls, st.fences), "\n");
  }
}
