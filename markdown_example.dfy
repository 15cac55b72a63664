/**
 * The converter end to end on the shape of a typical post body: a level-1
 * heading, a blank line and a paragraph.
 */
module MarkdownExample {
  import opened JsText
  import opened Escape
  import opened Fences
  import opened Markdown
  import opened Inline
  import MarkdownFacts

  /** Text the escaper leaves alone and that holds no line break. */
  predicate PlainText(s: string)
  {
    forall i | 0 <= i < |s| ::
      && !IsLineTerminator(s[i])
      && s[i] != '&' && s[i] != '<' && s[i] != '>' && s[i] != '"'
  }

  // ---------------------------------------------------------------------
  // Splitting into lines.

  lemma {:induction false} IndexOfFirst(s: string, c: char, from: nat, n: nat)
    requires from <= n < |s| && s[n] == c
    requires forall k | from <= k < n :: s[k] != c
    ensures IndexOfChar(s, c, from) == Some(n)
    decreases n - from
  {
    if from < n {
      IndexOfFirst(s, c, from + 1, n);
    }
  }

  /** A line without a break, then `\n`, is the first piece. */
  lemma SplitAfter(x: string, rest: string)
    requires '\n' !in x && (x == [] || x[|x| - 1] != '\r')
    ensures SplitLines(x + "\n" + rest) == [x] + SplitLines(rest)
  {
    var s := x + "\n" + rest;
    assert forall k | 0 <= k < |x| :: s[k] == x[k];
    IndexOfFirst(s, '\n', 0, |x|);
    assert s[..|x|] == x && s[|x| + 1..] == rest;
  }

  lemma SplitOne(p: string)
    requires '\n' !in p
    ensures SplitLines(p) == [p]
  {
    assert IndexOfChar(p, '\n', 0) == None;
  }

  lemma SplitThree(h: string, p: string)
    requires PlainText(h) && PlainText(p)
    ensures SplitLines("# " + h + "\n\n" + p) == ["# " + h, "", p]
  {
    var x := "# " + h;
    assert '\n' !in x && x[|x| - 1] != '\r' by {
      assert forall k | 2 <= k < |x| :: x[k] == h[k - 2];
    }
    assert '\n' !in p by {
      assert forall k | 0 <= k < |p| :: !IsLineTerminator(p[k]);
    }
    assert "# " + h + "\n\n" + p == x + "\n" + ("" + "\n" + p);
    SplitAfter(x, "" + "\n" + p);
    SplitAfter("", p);
    SplitOne(p);
  }

  // ---------------------------------------------------------------------
  // The fence pass and the escaping pass.

  lemma EscapePlainLines(ls: seq<Line>)
    requires forall j | 0 <= j < |ls| :: ls[j].Plain? && PlainText(ls[j].s)
    ensures EscapeLines(ls, false) == ls
  {
    var e := EscapeLines(ls, false);
    forall j | 0 <= j < |ls| ensures e[j] == ls[j] {
      var s := ls[j].s;
      assert forall i | 0 <= i < |s| :: s[i] != '&' && s[i] != '<' && s[i] != '>' && s[i] != '"';
      EscapeHtmlPlain(s);
    }
  }

  // ---------------------------------------------------------------------
  // The block loop.

  /** A line that starts with a letter starts a paragraph. */
  lemma LetterLine(s: string)
    requires s != [] && ('A' <= s[0] <= 'Z' || 'a' <= s[0] <= 'z')
    ensures Continues(s) && !OpensQuote(s) && !OpensFence(s)
  {
    assert !IsSpace(s[0]);
    MarkdownFacts.TrimFrom(s);
    assert Trim(s)[0] == s[0];
    assert DigitRun(s) == 0;
    assert !StartsWith(s, "&gt; ") by {
      if 5 <= |s| {
        assert s[..5][0] == s[0];
      }
    }
    assert !StartsWith(s, "```") by {
      if 3 <= |s| {
        assert s[..3][0] == s[0];
      }
    }
  }

  /** `# ` and a text without breaks is a level-1 heading of that text. */
  lemma HeadingLine(h: string)
    requires PlainText(h) && h != [] && !IsSpace(h[0])
    ensures !Blank("# " + h) && HeadingLevel("# " + h) == 1 && HeadingText("# " + h) == h
  {
    var s := "# " + h;
    assert s[0] == '#' && IsSpace(s[1]);
    assert s[1..] == " " + h;
    assert TrimStart(" " + h) == h;
    UpToLineEndWhole(h);
  }

  lemma UpToLineEndWhole(h: string)
    requires PlainText(h)
    ensures UpToLineEnd(h) == h
  {
    var r := UpToLineEnd(h);
    assert forall i | 0 <= i < |h| :: !IsLineTerminator(h[i]);
    assert r == h[..|r|];
  }

  lemma HeadingFront(h: string, rest: seq<Line>)
    requires PlainText(h) && h != [] && !IsSpace(h[0])
    ensures Front([Plain("# " + h)] + rest) == (Heading(1, h), 1)
  {
    HeadingLine(h);
  }

  /** A line that continues a paragraph, on its own, is a paragraph. */
  lemma ParagraphAlone(p: string)
    requires Continues(p) && !OpensQuote(p)
    ensures Front([Plain(p)]) == (Para([p]), 1)
  {
    var ls := [Plain(p)];
    MarkdownFacts.ParagraphFront(ls);
    assert Test(ParaRun)(ls[0]);
    RunLenIs(ls, Test(ParaRun), 1);
    var texts := RunTexts(ParaRun, ls[..1]);
    assert texts == [p] by {
      assert ls[..1] == ls;
      assert |texts| == 1 && texts[0] == RunText(ParaRun, ls[0]) == p;
    }
  }

  lemma HeadingBlock(h: string, rest: seq<Line>)
    requires PlainText(h) && h != [] && !IsSpace(h[0])
    ensures BlocksOf([Plain("# " + h)] + rest, [])
      == ["<h1>" + InlineFormat(h) + "</h1>"] + BlocksOf(rest, [])
  {
    var ls := [Plain("# " + h)] + rest;
    HeadingFront(h, rest);
    assert ls[1..] == rest;
    BlocksCons(ls, []);
    EmittedCases(Heading(1, h), []);
    LevelOneTags(InlineFormat(h));
  }

  lemma LevelOneTags(m: string)
    ensures "<h" + Decimal(1) + ">" + m + "</h" + Decimal(1) + ">" == "<h1>" + m + "</h1>"
  {
    assert Decimal(1) == "1";
  }

  lemma BlankBlock(rest: seq<Line>)
    ensures BlocksOf([Plain("")] + rest, []) == BlocksOf(rest, [])
  {
    var ls := [Plain("")] + rest;
    assert ls[1..] == rest;
    BlocksConsAt(ls, [], [], 1);
  }

  lemma ParagraphBlock(p: string)
    requires Continues(p) && !OpensQuote(p)
    ensures BlocksOf([Plain(p)], []) == ["<p>" + InlineFormat(p) + "</p>"]
  {
    ParagraphAlone(p);
    BlocksCons([Plain(p)], []);
    assert [Plain(p)][1..] == [];
    EmittedCases(Para([p]), []);
    assert Join([p], "\n") == p;
  }

  lemma ThreeBlocks(h: string, p: string)
    requires PlainText(h) && h != [] && !IsSpace(h[0])
    requires Continues(p) && !OpensQuote(p)
    ensures BlocksOf([Plain("# " + h), Plain(""), Plain(p)], [])
      == ["<h1>" + InlineFormat(h) + "</h1>", "<p>" + InlineFormat(p) + "</p>"]
  {
    ThreeParts(Plain("# " + h), Plain(""), Plain(p));
    HeadingBlock(h, [Plain("")] + [Plain(p)]);
    BlankBlock([Plain(p)]);
    ParagraphBlock(p);
  }

  lemma ThreeParts<T>(a: T, b: T, c: T)
    ensures [a, b, c] == [a] + ([b] + [c])
  {
  }

  /** The two passes before the block loop turn the three lines into plain
      lines, unchanged. */
  lemma ThreeLines(h: string, p: string)
    requires PlainText(h) && h != [] && PlainText(p) && !OpensFence(p)
    ensures var st := Run(Initial, SplitLines("# " + h + "\n\n" + p));
      && st.fences == []
      && EscapeLines(st.out, false) == [Plain("# " + h), Plain(""), Plain(p)]
  {
    var lines := ["# " + h, "", p];
    SplitThree(h, p);
    assert !OpensFence("# " + h) by {
      assert ("# " + h)[..3][0] == '#';
    }
    NoFences(lines);
    var ls := [Plain("# " + h), Plain(""), Plain(p)];
    assert Run(Initial, lines).out == ls by {
      var out := Run(Initial, lines).out;
      assert out[0] == ls[0] && out[1] == ls[1] && out[2] == ls[2];
    }
    EscapePlainLines(ls);
  }

  // ---------------------------------------------------------------------
  // End to end.

  /** A heading line, a blank line and a paragraph line become an `<h1>`
      and a `<p>` element joined by a newline, each with its text
      formatted. */
  lemma HeadingThenParagraph(h: string, p: string)
    requires PlainText(h) && h != [] && !IsSpace(h[0])
    requires PlainText(p) && Continues(p) && !OpensQuote(p) && !OpensFence(p)
    ensures ToHtml("# " + h + "\n\n" + p, false)
      == "<h1>" + InlineFormat(h) + "</h1>\n<p>" + InlineFormat(p) + "</p>"
  {
    ThreeLines(h, p);
    ThreeBlocks(h, p);
    JoinTwo("<h1>" + InlineFormat(h) + "</h1>", "<p>" + InlineFormat(p) + "</p>");
    GlueTwo(InlineFormat(h), InlineFormat(p));
  }

  lemma GlueTwo(x: string, y: string)
    ensures "<h1>" + x + "</h1>" + "\n" + ("<p>" + y + "</p>") == "<h1>" + x + "</h1>\n<p>" + y + "</p>"
  {
    assert "</h1>" + "\n" + "<p>" == "</h1>\n<p>";
  }

  lemma JoinTwo(x: string, y: string)
    ensures Join([x, y], "\n") == x + "\n" + y
  {
    assert [x, y][1..] == [y];
  }

  /** `# Hi`, a blank line and `This is **bold**.` become a heading and a
      paragraph with a `<strong>` element. */
  lemma HeadingAndBold()
    ensures ToHtml("# Hi\n\nThis is **bold**.", false)
      == "<h1>Hi</h1>\n<p>This is <strong>bold</strong>.</p>"
  {
    var h, p := "Hi", "This is **bold**.";
    ExampleLines();
    HeadingThenParagraph(h, p);
    ExampleInline();
    ExampleGlue(InlineFormat(h), InlineFormat(p));
  }

  lemma ExampleLines()
    ensures PlainText("Hi") && !IsSpace('H')
    ensures PlainText("This is **bold**.") && Continues("This is **bold**.")
    ensures !OpensQuote("This is **bold**.") && !OpensFence("This is **bold**.")
    ensures "# " + "Hi" + "\n\n" + "This is **bold**." == "# Hi\n\nThis is **bold**."
  {
    ExampleText();
    ExampleParagraph();
    ExampleSource();
  }

  lemma ExampleText()
    ensures PlainText("Hi") && PlainText("This is **bold**.")
  {
  }

  lemma ExampleParagraph()
    ensures Continues("This is **bold**.")
    ensures !OpensQuote("This is **bold**.") && !OpensFence("This is **bold**.")
  {
    var p := "This is **bold**.";
    assert p != [] && p[0] == 'T';
    LetterLine(p);
  }

  lemma ExampleSource()
    ensures "# " + "Hi" + "\n\n" + "This is **bold**." == "# Hi\n\nThis is **bold**."
  {
    assert "# " + "Hi" == "# Hi";
    assert "# Hi" + "\n\n" == "# Hi\n\n";
  }

  lemma ExampleInline()
    ensures InlineFormat("Hi") == "Hi"
    ensures InlineFormat("This is **bold**.") == "This is <strong>bold</strong>."
  {
    InlineFormatPlain("Hi");
    ExampleBoldParts();
    ExampleBold();
  }

  lemma ExampleBold()
    ensures InlineFormat("This is " + "**" + "bold" + "**" + ".")
      == "This is " + "<strong>" + "bold" + "</strong>" + "."
  {
    ExampleChars();
    BoldOnly("This is ", "bold", ".");
  }

  lemma ExampleChars()
    ensures '*' !in "This is " && '*' !in "bold" && '*' !in "."
    ensures '`' !in "This is " && '`' !in "bold" && '`' !in "."
    ensures '[' !in "This is " && '[' !in "bold" && '[' !in "."
    ensures NoBreak("bold")
  {
  }

  lemma ExampleBoldParts()
    ensures "This is **bold**." == "This is " + "**" + "bold" + "**" + "."
    ensures "This is " + "<strong>" + "bold" + "</strong>" + "." == "This is <strong>bold</strong>."
  {
    assert "This is " + "**" == "This is **";
    assert "This is **" + "bold" == "This is **bold";
    assert "This is **bold" + "**" == "This is **bold**";
    assert "This is " + "<strong>" == "This is <strong>";
    assert "This is <strong>" + "bold" == "This is <strong>bold";
    assert "This is <strong>bold" + "</strong>" == "This is <strong>bold</strong>";
  }

  lemma ExampleGlue(x: string, y: string)
    requires x == "Hi" && y == "This is <strong>bold</strong>."
    ensures "<h1>" + x + "</h1>\n<p>" + y + "</p>" == "<h1>Hi</h1>\n<p>This is <strong>bold</strong>.</p>"
  {
    GlueHead();
    GlueBody();
  }

  lemma GlueHead()
    ensures "<h1>" + "Hi" + "</h1>\n<p>" == "<h1>Hi</h1>\n<p>"
  {
    assert "<h1>" + "Hi" == "<h1>Hi";
  }

  lemma GlueBody()
    ensures "<h1>Hi</h1>\n<p>" + "This is <strong>bold</strong>." + "</p>"
      == "<h1>Hi</h1>\n<p>This is <strong>bold</strong>.</p>"
  {
    assert "<h1>Hi</h1>\n<p>" + "This is <strong>bold</strong>."
      == "<h1>Hi</h1>\n<p>This is <strong>bold</strong>.";
  }
}
