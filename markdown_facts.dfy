/**
 * Properties of the Markdown converter that relate its line tests, its
 * blocks and its two passes.
 */
module MarkdownFacts {
  import opened JsText
  import opened Fences
  import opened Markdown
  import Escape

  /** A heading of level `n` is exactly `n` hashes followed by whitespace. */
  lemma HeadingLevelIff(s: string, n: nat)
    requires 1 <= n <= 3
    ensures HeadingLevel(s) == n <==> n < |s| && (forall i | 0 <= i < n :: s[i] == '#') && IsSpace(s[n])
  {
    assert !IsSpace('#');
  }

  /** Every placeholder the escaping pass keeps names a fence the first pass
      collected, so the block loop never meets a missing fence. */
  lemma FencesResolve(md: string, allowHtml: bool)
    ensures var st := Run(Initial, SplitLines(md));
      var e := EscapeLines(st.out, allowHtml);
      forall i | 0 <= i < |e| && e[i].FencePh? ::
        e[i].k < |st.fences| && BlockHtml(Fence(e[i].k), st.fences) == st.fences[e[i].k]
  {
    var st := Run(Initial, SplitLines(md));
    RunNumbered(SplitLines(md));
    EscapedInRange(st.out, st.fences, allowHtml);
  }

  /** Escaping keeps numbered placeholders within the fence list. */
  lemma EscapedInRange(ls: seq<Line>, fences: seq<string>, allowHtml: bool)
    requires Placeholders(ls) == Upto(|fences|)
    ensures var e := EscapeLines(ls, allowHtml);
      forall i | 0 <= i < |e| && e[i].FencePh? ::
        e[i].k < |fences| && BlockHtml(Fence(e[i].k), fences) == fences[e[i].k]
  {
    var e := EscapeLines(ls, allowHtml);
    EscapeKeepsPlaceholders(ls, allowHtml);
    forall i | 0 <= i < |e| && e[i].FencePh?
      ensures e[i].k < |fences|
    {
      PlaceholderInRange(e, |fences|, i);
    }
  }

  /** A fence block's content is escaped text that decodes to the fence's
      lines joined by newlines. */
  lemma FenceBlockContent(lang: string, body: seq<string>)
    ensures var h := FenceHtml(lang, body);
      var open := "<pre><code" + LangAttr(lang) + ">";
      && StartsWith(h, open) && EndsWith(h, "</code></pre>")
      && |open| + 13 <= |h|
      && Escape.Escaped(h[|open|..|h| - 13], false)
      && Escape.Unescape(h[|open|..|h| - 13], false) == Some(Join(body, "\n"))
  {
    var c := Escape.EscapeHtml(Join(body, "\n"));
    Pieces("<pre><code" + LangAttr(lang) + ">", c, "</code></pre>");
    Escape.EscapeHtmlSafe(Join(body, "\n"));
    Escape.EscapeHtmlRoundTrip(Join(body, "\n"));
  }

  /** The middle of a three-part concatenation is what lies between the
      other two. */
  lemma Pieces(open: string, c: string, close: string)
    ensures var h := open + c + close;
      StartsWith(h, open) && EndsWith(h, close) && h[|open|..|h| - |close|] == c
  {
    var h := open + c + close;
    assert h[..|open|] == open;
    assert h[|h| - |close|..] == close;
  }

  /** A fence block carries a language class exactly when the fence named a
      language. */
  lemma FenceBlockClass(lang: string, body: seq<string>)
    ensures StartsWith(FenceHtml(lang, body), "<pre><code class=") <==> lang != ""
  {
    var h := FenceHtml(lang, body);
    if lang == "" {
      assert h[10] == '>';
    } else {
      assert h[..17] == "<pre><code class=";
    }
  }

  /** A line that starts with a character other than whitespace is its own
      trimmed start. */
  lemma TrimStartFrom(s: string)
    requires s != [] && !IsSpace(s[0])
    ensures TrimStart(s) == s
  {
  }

  /** Trimming such a line only cuts whitespace from its end. */
  lemma TrimFrom(s: string)
    requires s != [] && !IsSpace(s[0])
    ensures Trim(s) != [] && Trim(s) == s[..|Trim(s)|]
  {
    TrimStartFrom(s);
    assert Trim(s) == TrimEnd(s);
    assert !AllSpace(s) by {
      assert !IsSpace(s[0]);
    }
  }

  /** A bullet line starts no earlier kind of block. */
  lemma BulletIsOnlyBullet(s: string)
    requires IsBullet(s)
    ensures !Blank(s) && !IsHeading(s) && !IsRule(s) && !OpensQuote(s)
  {
    BulletNotRule(s);
    assert HeadingLevel(s) == 0 by {
      assert s[0] != '#';
    }
    assert !StartsWith(s, "&gt; ") by {
      if 5 <= |s| {
        assert s[..5][0] == s[0] != '&';
      }
    }
    assert s != "&gt;" by {
      assert s[0] != '&';
    }
  }

  /** The space after the bullet keeps the line from being a rule. */
  lemma BulletNotRule(s: string)
    requires IsBullet(s)
    ensures !Blank(s) && !IsRule(s)
  {
    assert !IsSpace(s[0]) by {
      assert s[0] == '-' || s[0] == '*' || s[0] == '+';
    }
    TrimFrom(s);
    var t := Trim(s);
    if |t| >= 3 {
      assert t[1] == s[1] && t[0] == s[0];
      assert IsSpace(t[1]);
    }
  }

  /** A bullet line opens a list whose items are the bullet texts of the
      longest run of bullet lines from there, one item per line. */
  lemma BulletRunItems(ls: seq<Line>)
    requires ls != [] && ls[0].Plain? && IsBullet(ls[0].s)
    ensures var (b, n) := Front(ls);
      && b == Bullets(RunTexts(BulletRun, ls[..n]))
      && |ListItems(b.items)| == n
      && (forall j | 0 <= j < n :: ls[j].Plain? && IsBullet(ls[j].s) && b.items[j] == BulletText(ls[j].s))
      && (n < |ls| ==> !(ls[n].Plain? && IsBullet(ls[n].s)))
  {
    BulletFront(ls);
    var n := RunLen(ls, Test(BulletRun));
    forall j | 0 <= j < n ensures ls[j].Plain? && IsBullet(ls[j].s) {
      assert Test(BulletRun)(ls[j]);
    }
    if n < |ls| {
      assert !Test(BulletRun)(ls[n]);
    }
  }

  /** A bullet line opens a bulleted list. */
  lemma BulletFront(ls: seq<Line>)
    requires ls != [] && ls[0].Plain? && IsBullet(ls[0].s)
    ensures Front(ls) == RunBlock(ls, BulletRun)
  {
    BulletIsOnlyBullet(ls[0].s);
  }

  /** A numbered line starts no earlier kind of block: it begins with a
      digit. */
  lemma NumberIsOnlyNumber(s: string)
    requires IsNumbered(s)
    ensures !Blank(s) && !IsHeading(s) && !IsRule(s) && !OpensQuote(s) && !IsBullet(s)
  {
    assert '0' <= s[0] <= '9';
    assert !IsSpace(s[0]);
    TrimFrom(s);
    assert Trim(s)[0] == s[0];
    assert HeadingLevel(s) == 0;
    assert !StartsWith(s, "&gt; ") by {
      if 5 <= |s| {
        assert s[..5][0] == s[0];
      }
    }
    assert s != "&gt;" by {
      assert s[0] != '&';
    }
  }

  /** A numbered line opens a numbered list. */
  lemma NumberFront(ls: seq<Line>)
    requires ls != [] && ls[0].Plain? && IsNumbered(ls[0].s)
    ensures Front(ls) == RunBlock(ls, NumberRun)
  {
    NumberIsOnlyNumber(ls[0].s);
  }

  /** A numbered line opens a list whose items are the texts after the
      numbers of the longest run of numbered lines from there, one item per
      line. */
  lemma NumberRunItems(ls: seq<Line>)
    requires ls != [] && ls[0].Plain? && IsNumbered(ls[0].s)
    ensures var (b, n) := Front(ls);
      && b == Numbers(RunTexts(NumberRun, ls[..n]))
      && |ListItems(b.items)| == n
      && (forall j | 0 <= j < n :: ls[j].Plain? && IsNumbered(ls[j].s) && b.items[j] == NumberedText(ls[j].s))
      && (n < |ls| ==> !(ls[n].Plain? && IsNumbered(ls[n].s)))
  {
    NumberFront(ls);
    var n := RunLen(ls, Test(NumberRun));
    forall j | 0 <= j < n ensures ls[j].Plain? && IsNumbered(ls[j].s) {
      assert Test(NumberRun)(ls[j]);
    }
    if n < |ls| {
      assert !Test(NumberRun)(ls[n]);
    }
  }

  /** The escaped bare `>` starts none of the blocks the paragraph loop
      stops at. */
  lemma BareQuoteContinues()
    ensures Continues("&gt;") && OpensQuote("&gt;")
  {
    var q := "&gt;";
    assert q[0] == '&';
    assert !IsSpace(q[0]);
    TrimFrom(q);
    assert Trim(q)[0] == '&';
    assert !IsRule(q);
    assert DigitRun(q) == 0;
  }

  /** A line that continues a paragraph and does not open a blockquote
      starts a paragraph. */
  lemma ParagraphFront(ls: seq<Line>)
    requires ls != [] && ls[0].Plain? && Continues(ls[0].s) && !OpensQuote(ls[0].s)
    ensures Front(ls) == RunBlock(ls, ParaRun)
  {
  }

  /** When every line is in the run, the run block takes all of them. */
  lemma WholeRun(ls: seq<Line>, kind: RunKind)
    requires ls != [] && forall j | 0 <= j < |ls| :: InRun(kind, ls[j])
    ensures RunBlock(ls, kind) == (RunKindBlock(kind, RunTexts(kind, ls)), |ls|)
  {
    forall j | 0 <= j < |ls| ensures Test(kind)(ls[j]) {
    }
    RunLenIs(ls, Test(kind), |ls|);
    assert ls[..|ls|] == ls;
  }

  /** A line that continues a paragraph and does not open a blockquote
      starts a paragraph made of the longest run of continuing lines from
      there, each kept as it is. */
  lemma ParagraphRunLines(ls: seq<Line>)
    requires ls != [] && ls[0].Plain? && Continues(ls[0].s) && !OpensQuote(ls[0].s)
    ensures var (b, n) := Front(ls);
      && b == Para(RunTexts(ParaRun, ls[..n]))
      && |b.lines| == n
      && (forall j | 0 <= j < n :: InRun(ParaRun, ls[j]) && b.lines[j] == ls[j].s)
      && (n < |ls| ==> !InRun(ParaRun, ls[n]))
  {
    ParagraphFront(ls);
    RunFacts(ls, ParaRun);
  }

  /** The run takes lines of its kind and stops at the first other one. */
  lemma RunFacts(ls: seq<Line>, kind: RunKind)
    ensures var n := RunLen(ls, Test(kind));
      && (forall j | 0 <= j < n :: InRun(kind, ls[j]))
      && (n < |ls| ==> !InRun(kind, ls[n]))
  {
    var n := RunLen(ls, Test(kind));
    forall j | 0 <= j < n ensures InRun(kind, ls[j]) {
      assert Test(kind)(ls[j]);
    }
    if n < |ls| {
      assert !Test(kind)(ls[n]);
    }
  }

  /** Lines that all continue a paragraph, the first not opening a
      blockquote, form one paragraph of all of them, each kept as it is. */
  lemma WholeParagraph(ls: seq<Line>)
    requires ls != [] && forall j | 0 <= j < |ls| :: InRun(ParaRun, ls[j])
    requires ls[0].Plain? && !OpensQuote(ls[0].s)
    ensures Front(ls) == (Para(RunTexts(ParaRun, ls)), |ls|)
    ensures forall j | 0 <= j < |ls| :: ls[j].Plain? && RunTexts(ParaRun, ls)[j] == ls[j].s
  {
    assert InRun(ParaRun, ls[0]);
    ParagraphFront(ls);
    WholeRun(ls, ParaRun);
  }

  /** A bare `&gt;` line is not a paragraph break: after a paragraph line it
      joins the paragraph, although on its own it would open a blockquote. */
  lemma BareQuoteJoinsParagraph(p: string)
    requires Continues(p) && !OpensQuote(p)
    ensures OpensQuote("&gt;")
    ensures Front([Plain(p), Plain("&gt;")]) == (Para([p, "&gt;"]), 2)
  {
    BareQuoteContinues();
    TwoLines(p, "&gt;");
  }

  lemma TwoLines(p: string, q: string)
    requires Continues(p) && !OpensQuote(p) && Continues(q)
    ensures Front([Plain(p), Plain(q)]) == (Para([p, q]), 2)
  {
    var ls := [Plain(p), Plain(q)];
    assert InRun(ParaRun, ls[0]) && InRun(ParaRun, ls[1]);
    WholeParagraph(ls);
    TwoTexts(p, q);
  }

  lemma TwoTexts(a: string, b: string)
    ensures RunTexts(ParaRun, [Plain(a), Plain(b)]) == [a, b]
  {
    var texts := RunTexts(ParaRun, [Plain(a), Plain(b)]);
    assert texts[0] == a && texts[1] == b;
  }
}
