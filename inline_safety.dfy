/**
 * What the inline formatter can put into a page. On text that holds no `<`
 * (the markdown converter escapes it first), every `<` in the result opens
 * one of the tags the formatter writes itself, and every anchor it writes
 * carries an `href` whose value, read up to its closing quote, passes the
 * URL gate.
 */
module InlineSafety {
  import opened JsText
  import opened Url
  import opened Inline

  /** The tags the first four passes write. */
  const FormatTags: seq<string> :=
    ["<strong>", "</strong>", "<em>", "</em>", "<code>", "</code>", "<img src=\""]

  /** Those, and the two the link pass adds. */
  const AllTags: seq<string> := FormatTags + ["<a href=\"", "</a>"]

  /** A tag from `lits` starts at index `i`. */
  predicate TagAt(o: string, i: nat, lits: seq<string>)
    requires i <= |o|
  {
    exists k | 0 <= k < |lits| :: StartsWith(o[i..], lits[k])
  }

  /** Every `<` in `o` opens one of the tags in `lits`. */
  predicate Tags(o: string, lits: seq<string>)
  {
    forall i | 0 <= i < |o| && o[i] == '<' :: TagAt(o, i, lits)
  }

  /** `c` occurs in none of the tags. */
  predicate Avoids(lits: seq<string>, c: char)
  {
    forall k | 0 <= k < |lits| :: c !in lits[k]
  }

  /** Each tag has its only `<` in front and is at least two characters long. */
  predicate WellFormed(lits: seq<string>)
  {
    forall k | 0 <= k < |lits| :: |lits[k]| >= 2 && lits[k][0] == '<' && '<' !in lits[k][1..]
  }

  lemma TagLists()
    ensures |FormatTags| == 7 && |AllTags| == 9
    ensures forall k | 0 <= k < |FormatTags| :: FormatTags[k][1] != 'a'
    ensures AllTags[..7] == FormatTags
    ensures AllTags[7] == "<a href=\"" && AllTags[8] == "</a>"
  {
  }

  /** A character a tag is written with after its `<`. */
  predicate TagChar(c: char)
  {
    || 'a' <= c <= 'z' || '0' <= c <= '9'
    || c == '>' || c == '/' || c == '"' || c == '=' || c == ' ' || c == '-'
  }

  /** `<`, then at least one tag character. */
  predicate TagText(s: string)
  {
    |s| >= 2 && s[0] == '<' && forall j | 1 <= j < |s| :: TagChar(s[j])
  }

  lemma AllTagsText()
    ensures forall k | 0 <= k < |AllTags| :: TagText(AllTags[k])
  {
  }

  /** Tags written with tag characters are well formed and hold none of the
      characters the patterns are built from. */
  lemma TextFacts(lits: seq<string>)
    requires forall k | 0 <= k < |lits| :: TagText(lits[k])
    ensures WellFormed(lits)
    ensures Avoids(lits, '*') && Avoids(lits, '`') && Avoids(lits, '!')
    ensures Avoids(lits, '[') && Avoids(lits, ']') && Avoids(lits, ')')
  {
    forall k | 0 <= k < |lits| ensures '<' !in lits[k][1..] {
      var s := lits[k];
      assert forall j | 0 <= j < |s| - 1 :: s[1..][j] == s[j + 1];
    }
  }

  /** Both tag lists are well formed, and none of the characters the patterns
      are built from occurs in a tag. */
  lemma TagFacts(lits: seq<string>)
    requires lits == FormatTags || lits == AllTags
    ensures WellFormed(lits) && |lits| >= 7
    ensures lits[0] == "<strong>" && lits[1] == "</strong>" && lits[2] == "<em>" && lits[3] == "</em>"
    ensures lits[4] == "<code>" && lits[5] == "</code>" && lits[6] == "<img src=\""
    ensures Avoids(lits, '*') && Avoids(lits, '`') && Avoids(lits, '!')
    ensures Avoids(lits, '[') && Avoids(lits, ']') && Avoids(lits, ')')
  {
    AllTagsText();
    TagLists();
    assert forall k | 0 <= k < |FormatTags| :: FormatTags[k] == AllTags[k];
    TextFacts(lits);
  }

  lemma FormatTagsWellFormed()
    ensures WellFormed(FormatTags)
  {
    TagFacts(FormatTags);
  }

  lemma AllTagsWellFormed()
    ensures WellFormed(AllTags)
  {
    TagFacts(AllTags);
  }

  // ---------------------------------------------------------------------
  // How `Tags` behaves under cutting and gluing.

  lemma TagsNoLt(o: string, lits: seq<string>)
    requires '<' !in o
    ensures Tags(o, lits)
  {
  }

  lemma TagsLit(lits: seq<string>, k: nat)
    requires WellFormed(lits) && k < |lits|
    ensures Tags(lits[k], lits)
  {
    var o := lits[k];
    assert StartsWith(o[0..], lits[k]) by {
      assert o[0..] == o;
    }
    assert forall i | 1 <= i < |o| :: o[i] == o[1..][i - 1];
  }

  lemma TagsConcat(x: string, y: string, lits: seq<string>)
    requires Tags(x, lits) && Tags(y, lits)
    ensures Tags(x + y, lits)
  {
    var o := x + y;
    forall i | 0 <= i < |o| && o[i] == '<' ensures TagAt(o, i, lits) {
      if i < |x| {
        assert x[i] == '<';
        var k :| 0 <= k < |lits| && StartsWith(x[i..], lits[k]);
        assert o[i..] == x[i..] + y;
        StartsWithExtend(x[i..], y, lits[k]);
      } else {
        assert o[i..] == y[i - |x|..];
        assert y[i - |x|] == '<';
      }
    }
  }

  lemma TagsSuffix(t: string, n: nat, lits: seq<string>)
    requires Tags(t, lits) && n <= |t|
    ensures Tags(t[n..], lits)
  {
    var o := t[n..];
    forall i | 0 <= i < |o| && o[i] == '<' ensures TagAt(o, i, lits) {
      assert o[i..] == t[n + i..];
      assert t[n + i] == '<';
    }
  }

  /** A tag that starts before a character the tags avoid ends before it. */
  lemma TagFits(t: string, i: nat, b: nat, lit: string, lits: seq<string>)
    requires i < b < |t| && StartsWith(t[i..], lit) && lit in lits && Avoids(lits, t[b])
    ensures i + |lit| <= b
  {
    assert forall j | 0 <= j < |lit| :: lit[j] == t[i..][..|lit|][j] == t[i + j];
    assert forall j | i <= j < i + |lit| :: t[j] == lit[j - i] && t[j] in lit;
  }

  /** The text between a start and a character the tags avoid keeps `Tags`. */
  lemma TagsSegment(t: string, a: nat, b: nat, lits: seq<string>)
    requires Tags(t, lits) && a <= b < |t| && Avoids(lits, t[b])
    ensures Tags(t[a..b], lits)
  {
    var o := t[a..b];
    forall i | 0 <= i < |o| && o[i] == '<' ensures TagAt(o, i, lits) {
      assert t[a + i] == '<';
      var k :| 0 <= k < |lits| && StartsWith(t[a + i..], lits[k]);
      var lit := lits[k];
      TagFits(t, a + i, b, lit, lits);
      assert o[i..][..|lit|] == t[a + i..][..|lit|];
      assert StartsWith(o[i..], lits[k]);
    }
  }

  lemma TagsWiden(o: string)
    requires Tags(o, FormatTags)
    ensures Tags(o, AllTags)
  {
    TagLists();
    forall i | 0 <= i < |o| && o[i] == '<' ensures TagAt(o, i, AllTags) {
      var k :| 0 <= k < |FormatTags| && StartsWith(o[i..], FormatTags[k]);
      assert AllTags[k] == FormatTags[k];
    }
  }

  /** A text with well-formed tags does not end in a bare `<`. */
  lemma TagsLast(o: string, lits: seq<string>)
    requires WellFormed(lits) && Tags(o, lits) && o != []
    ensures o[|o| - 1] != '<'
  {
    var i := |o| - 1;
    assert |o[i..]| == 1;
    assert !TagAt(o, i, lits);
  }

  // ---------------------------------------------------------------------
  // A pass keeps `Tags`.

  /** The tag that the `<` in front of `t` opens. */
  lemma TagAtStart(t: string, lits: seq<string>) returns (k: nat)
    requires WellFormed(lits) && Tags(t, lits) && t != [] && t[0] == '<'
    ensures k < |lits| && StartsWith(t, lits[k]) && 0 < |lits[k]|
  {
    assert TagAt(t, 0, lits);
    assert t[0..] == t;
    k :| 0 <= k < |lits| && StartsWith(t, lits[k]);
  }

  /** The pattern matches only where a character no tag holds stands. */
  ghost predicate LeadsAvoid(step: Stepper, lits: seq<string>)
  {
    forall u | step(u).Some? :: u != [] && Avoids(lits, u[0])
  }

  /** What a match is replaced by keeps `Tags` when the text it came from did. */
  ghost predicate KeepsTags(step: Stepper, lits: seq<string>)
  {
    forall u | step(u).Some? && Tags(u, lits) :: Tags(step(u).value.1, lits)
  }

  /** A tag in the text is not a place where the pattern matches. */
  lemma TagUntouched(step: Stepper, t: string, lit: string, lits: seq<string>)
    requires LeadsAvoid(step, lits) && lit in lits && StartsWith(t, lit)
    ensures forall q | 0 <= q < |lit| :: step(t[q..]).None?
  {
    var k :| 0 <= k < |lits| && lits[k] == lit;
    forall q | 0 <= q < |lit| ensures step(t[q..]).None? {
      assert t[q..][0] == t[q] == t[..|lit|][q] == lits[k][q];
      assert t[q] in lits[k];
    }
  }

  lemma {:induction false} ScanTags(step: Stepper, t: string, lits: seq<string>)
    requires Advances(step) && WellFormed(lits)
    requires LeadsAvoid(step, lits) && KeepsTags(step, lits)
    requires Tags(t, lits)
    ensures Tags(Scan(step, t), lits)
    decreases |t|
  {
    if t == [] {
    } else if step(t).Some? {
      var (n, rep) := step(t).value;
      ScanSome(step, t, n, rep);
      TagsSuffix(t, n, lits);
      ScanTags(step, t[n..], lits);
      TagsConcat(rep, Scan(step, t[n..]), lits);
    } else if t[0] != '<' {
      ScanCons(step, t);
      TagsSuffix(t, 1, lits);
      ScanTags(step, t[1..], lits);
      TagsNoLt([t[0]], lits);
      TagsConcat([t[0]], Scan(step, t[1..]), lits);
    } else {
      var k := TagAtStart(t, lits);
      var lit := lits[k];
      TagUntouched(step, t, lit, lits);
      ScanPrefix(step, t, |lit|);
      TagsSuffix(t, |lit|, lits);
      ScanTags(step, t[|lit|..], lits);
      TagsLit(lits, k);
      TagsConcat(lit, Scan(step, t[|lit|..]), lits);
    }
  }

  // ---------------------------------------------------------------------
  // The replacements of each pass.

  lemma LazyStepTags(t: string, delim: string, open: string, close: string, lits: seq<string>)
    requires |delim| > 0 && LazyStep(t, delim, open, close).Some?
    requires Tags(t, lits) && Tags(open, lits) && Tags(close, lits) && Avoids(lits, delim[0])
    ensures Tags(LazyStep(t, delim, open, close).value.1, lits)
  {
    var g := LazyAt(t, delim).value;
    LazyShape(t, delim, g);
    TagsSegment(t, |delim|, |delim| + |g|, lits);
    TagsConcat(open, g, lits);
    TagsConcat(open + g, close, lits);
  }

  lemma CodeStepTags(t: string, lits: seq<string>)
    requires CodeStep(t).Some? && Tags(t, lits) && Avoids(lits, '`')
    requires WellFormed(lits) && |lits| >= 6 && lits[4] == "<code>" && lits[5] == "</code>"
    ensures Tags(CodeStep(t).value.1, lits)
  {
    var g := CodeAt(t).value;
    assert CodeMatch(t, g);
    CodeShape(t, g);
    TagsSegment(t, 1, 1 + |g|, lits);
    TagsLit(lits, 4);
    TagsLit(lits, 5);
    TagsConcat("<code>", g, lits);
    TagsConcat("<code>" + g, "</code>", lits);
  }

  lemma TagsConcat5(a: string, b: string, c: string, d: string, e: string, lits: seq<string>)
    requires Tags(a, lits) && Tags(b, lits) && Tags(c, lits) && Tags(d, lits) && Tags(e, lits)
    ensures Tags(a + b + c + d + e, lits)
  {
    TagsConcat(a, b, lits);
    TagsConcat(a + b, c, lits);
    TagsConcat(a + b + c, d, lits);
    TagsConcat(a + b + c + d, e, lits);
  }

  lemma ImgTagTags(url: string, alt: string, lits: seq<string>)
    requires Tags(url, lits) && Tags(alt, lits)
    requires WellFormed(lits) && |lits| >= 7 && lits[6] == "<img src=\""
    ensures Tags(ImgTag(url, alt), lits)
  {
    TagsLit(lits, 6);
    TagsNoLt("\" alt=\"", lits);
    TagsNoLt("\" loading=\"lazy\">", lits);
    TagsConcat5("<img src=\"", url, "\" alt=\"", alt, "\" loading=\"lazy\">", lits);
  }

  lemma AnchorTagTags(url: string, text: string, lits: seq<string>)
    requires Tags(url, lits) && Tags(text, lits)
    requires WellFormed(lits) && |lits| >= 9 && lits[7] == "<a href=\"" && lits[8] == "</a>"
    ensures Tags(AnchorTag(url, text), lits)
  {
    TagsLit(lits, 7);
    TagsLit(lits, 8);
    TagsNoLt("\">", lits);
    TagsConcat5("<a href=\"", url, "\">", text, "</a>", lits);
  }

  lemma ImageStepTags(t: string, lits: seq<string>)
    requires ImageStep(t).Some? && Tags(t, lits) && Avoids(lits, ']') && Avoids(lits, ')')
    requires WellFormed(lits) && |lits| >= 7 && lits[6] == "<img src=\""
    ensures Tags(ImageStep(t).value.1, lits)
  {
    var (alt, url) := ImageAt(t).value;
    assert ImageMatch(t, alt, url);
    ImageShape(t, alt, url);
    TagsSegment(t, 2, 2 + |alt|, lits);
    TagsSegment(t, 4 + |alt|, 4 + |alt| + |url|, lits);
    ImgTagTags(url, alt, lits);
  }

  /** The text and the URL of a link keep `Tags`. */
  lemma LinkPartsTags(t: string, text: string, url: string, lits: seq<string>)
    requires LinkMatch(t, text, url) && Tags(t, lits) && Avoids(lits, ']') && Avoids(lits, ')')
    ensures Tags(text, lits) && Tags(url, lits)
  {
    LinkShape(t, text, url);
    TagsSegment(t, 1, 1 + |text|, lits);
    TagsSegment(t, 3 + |text|, 3 + |text| + |url|, lits);
  }

  lemma LinkStepTags(t: string, lits: seq<string>)
    requires LinkStep(t).Some? && Tags(t, lits) && Avoids(lits, ']') && Avoids(lits, ')')
    requires WellFormed(lits) && |lits| >= 9 && lits[7] == "<a href=\"" && lits[8] == "</a>"
    ensures Tags(LinkStep(t).value.1, lits)
  {
    var (text, url) := LinkAt(t).value;
    assert LinkMatch(t, text, url);
    LinkPartsTags(t, text, url, lits);
    AnchorTagTags(url, text, lits);
  }

  lemma StepTags(p: Pattern, u: string, lits: seq<string>)
    requires lits == AllTags || (lits == FormatTags && p != Link)
    requires Step(p, u).Some? && Tags(u, lits)
    ensures Tags(Step(p, u).value.1, lits)
  {
    TagLists();
    TagFacts(lits);
    match p
    case Bold =>
      TagsLit(lits, 0);
      TagsLit(lits, 1);
      LazyStepTags(u, "**", "<strong>", "</strong>", lits);
    case Italic =>
      TagsLit(lits, 2);
      TagsLit(lits, 3);
      LazyStepTags(u, "*", "<em>", "</em>", lits);
    case Code => CodeStepTags(u, lits);
    case Image => ImageStepTags(u, lits);
    case Link => LinkStepTags(u, lits);
  }

  lemma PassKeepsTags(p: Pattern, lits: seq<string>)
    requires lits == AllTags || (lits == FormatTags && p != Link)
    ensures LeadsAvoid(StepOf(p), lits) && KeepsTags(StepOf(p), lits)
  {
    TagFacts(lits);
    var step := StepOf(p);
    forall u | step(u).Some? ensures u != [] && Avoids(lits, u[0]) {
      assert step(u) == Step(p, u);
    }
    forall u | step(u).Some? && Tags(u, lits) ensures Tags(step(u).value.1, lits) {
      StepTags(p, u, lits);
    }
  }

  /** Each pass keeps every `<` the opening of a tag. */
  lemma ApplyTags(p: Pattern, t: string, lits: seq<string>)
    requires lits == AllTags || (lits == FormatTags && p != Link)
    requires Tags(t, lits)
    ensures Tags(Apply(p, t), lits)
  {
    TagFacts(lits);
    PassKeepsTags(p, lits);
    ScanTags(StepOf(p), t, lits);
  }

  // ---------------------------------------------------------------------
  // Anchors.

  /** `u` starts with `<a`: it opens an anchor. */
  predicate OpensAnchor(u: string)
  {
    |u| >= 2 && u[0] == '<' && u[1] == 'a'
  }

  /** If `u` opens an anchor, it is `<a href="` followed by a quoted value
      that passes the URL gate. */
  predicate AnchorOk(u: string)
  {
    OpensAnchor(u) ==>
      && StartsWith(u, "<a href=\"") && '"' in u[9..] && IsSafeUrl(UpToQuote(u[9..]))
  }

  /** Every anchor opened anywhere in `o` is a safe one. */
  predicate Anchors(o: string)
  {
    forall i | 0 <= i < |o| :: AnchorOk(o[i..])
  }

  /** Text whose every `<` opens one of the formatting tags opens no anchor. */
  lemma FormatTagsAnchors(o: string)
    requires Tags(o, FormatTags)
    ensures Anchors(o)
  {
    TagLists();
    forall i | 0 <= i < |o| ensures AnchorOk(o[i..]) {
      if o[i] == '<' {
        var k :| 0 <= k < |FormatTags| && StartsWith(o[i..], FormatTags[k]);
        assert o[i..][1] == FormatTags[k][1];
        assert !OpensAnchor(o[i..]);
      }
    }
  }

  lemma AnchorsNoLt(o: string)
    requires '<' !in o
    ensures Anchors(o)
  {
    forall i | 0 <= i < |o| ensures AnchorOk(o[i..]) {
      assert o[i..][0] == o[i];
    }
  }

  /** Text appended after an anchor's closing quote does not change it. */
  lemma AnchorOkExtend(u: string, y: string)
    requires AnchorOk(u) && u != [] && u[|u| - 1] != '<'
    ensures AnchorOk(u + y)
  {
    var w := u + y;
    if OpensAnchor(w) {
      assert w[0] == u[0];
      assert |u| >= 2 && w[1] == u[1];
      StartsWithExtend(u, y, "<a href=\"");
      DropConcat(u, y, 9);
      UpToQuoteExtend(u[9..], y);
    }
  }

  lemma DropConcat(u: string, y: string, n: nat)
    requires n <= |u|
    ensures (u + y)[n..] == u[n..] + y
  {
  }

  lemma AnchorsConcat(x: string, y: string)
    requires Anchors(x) && Anchors(y) && (x == [] || x[|x| - 1] != '<')
    ensures Anchors(x + y)
  {
    var o := x + y;
    forall i | 0 <= i < |o| ensures AnchorOk(o[i..]) {
      if i < |x| {
        var u := x[i..];
        assert o[i..] == u + y;
        assert u[|u| - 1] == x[|x| - 1];
        AnchorOkExtend(u, y);
      } else {
        assert o[i..] == y[i - |x|..];
      }
    }
  }

  /** The opening tag of an anchor whose URL passed the gate. */
  lemma AnchorOpenOk(url: string)
    requires IsSafeUrl(url)
    ensures AnchorOk("<a href=\"" + url + "\">")
  {
    AnchorOpenPrefix(url);
    var v := url + "\">";
    assert '"' in v by {
      assert v[|url|] == '"';
    }
    UpToQuoteConcat(url, "\">");
    SafeUpToQuote(url);
  }

  lemma AnchorOpenPrefix(url: string)
    ensures var a := "<a href=\"" + url + "\">";
      StartsWith(a, "<a href=\"") && a[9..] == url + "\">"
  {
    var a := "<a href=\"" + url + "\">";
    assert a[..9] == "<a href=\"";
  }

  /** A prefix with a single `<`, in front, that opens a safe anchor. */
  lemma AnchorsPrepend(head: string, v: string)
    requires head != [] && '<' !in head[1..]
    requires AnchorOk(head + v) && Anchors(v)
    ensures Anchors(head + v)
  {
    var a := head + v;
    forall i | 0 <= i < |a| ensures AnchorOk(a[i..]) {
      if i == 0 {
        assert a[0..] == a;
      } else if i < |head| {
        assert a[i..][0] == head[1..][i - 1];
      } else {
        assert a[i..] == v[i - |head|..];
      }
    }
  }

  /** A URL taken from formatted text opens no anchor. */
  lemma UrlAnchors(url: string)
    requires Tags(url, FormatTags)
    ensures Anchors(url + "\">")
  {
    FormatTagsWellFormed();
    FormatTagsAnchors(url);
    AnchorsNoLt("\">");
    if url != [] {
      TagsLast(url, FormatTags);
    }
    AnchorsConcat(url, "\">");
  }

  lemma AnchorOpenAnchors(url: string)
    requires IsSafeUrl(url) && Anchors(url + "\">")
    ensures Anchors("<a href=\"" + url + "\">")
  {
    AnchorOpenOk(url);
    AllTagsWellFormed();
    TagLists();
    var head := AllTags[7];
    assert head + (url + "\">") == "<a href=\"" + url + "\">";
    AnchorsPrepend(head, url + "\">");
  }

  lemma AnchorsClose()
    ensures Anchors("</a>")
  {
    AllTagsWellFormed();
    TagLists();
    var c := AllTags[8];
    forall i | 0 <= i < |c| ensures AnchorOk(c[i..]) {
      if i == 0 {
        assert c[0..][1] == c[1] == '/';
      } else {
        assert c[i..][0] == c[1..][i - 1];
      }
    }
  }

  /** `o` does not end in a bare `<`. */
  predicate Closed(o: string)
  {
    o == [] || o[|o| - 1] != '<'
  }

  lemma FormatTagsClosed(o: string)
    requires Tags(o, FormatTags)
    ensures Anchors(o) && Closed(o)
  {
    FormatTagsWellFormed();
    FormatTagsAnchors(o);
    if o != [] {
      TagsLast(o, FormatTags);
    }
  }

  lemma AnchorTagSplit(url: string, text: string)
    ensures AnchorTag(url, text) == ("<a href=\"" + url + "\">") + (text + "</a>")
    ensures Closed("<a href=\"" + url + "\">") && Closed(text + "</a>")
  {
  }

  /** An anchor the link pass writes for a URL that passed the gate. */
  lemma AnchorTagAnchors(url: string, text: string)
    requires IsSafeUrl(url) && Anchors(url + "\">") && Anchors(text) && Closed(text)
    ensures Anchors(AnchorTag(url, text)) && Closed(AnchorTag(url, text))
  {
    AnchorTagSplit(url, text);
    AnchorOpenAnchors(url);
    AnchorsClose();
    AnchorsConcat(text, "</a>");
    AnchorsConcat("<a href=\"" + url + "\">", text + "</a>");
  }

  /** The replacement the link pass makes keeps every anchor safe. */
  lemma LinkStepAnchors(t: string)
    requires LinkStep(t).Some? && Tags(t, FormatTags)
    ensures Anchors(LinkStep(t).value.1) && Closed(LinkStep(t).value.1)
  {
    TagFacts(FormatTags);
    var (text, url) := LinkAt(t).value;
    assert LinkMatch(t, text, url);
    LinkPartsTags(t, text, url, FormatTags);
    FormatTagsClosed(text);
    if IsSafeUrl(url) {
      UrlAnchors(url);
      AnchorTagAnchors(url, text);
    }
  }

  lemma LinkLeadsAvoid()
    ensures LeadsAvoid(StepOf(Link), FormatTags)
  {
    TagFacts(FormatTags);
    var step := StepOf(Link);
    forall u | step(u).Some? ensures u != [] && Avoids(FormatTags, u[0]) {
      assert step(u) == Step(Link, u);
    }
  }

  /** What a match is replaced by opens only safe anchors, and does not end
      in a bare `<`, when the text it came from held only formatting tags. */
  ghost predicate KeepsAnchors(step: Stepper)
  {
    forall u | step(u).Some? && Tags(u, FormatTags) ::
      Anchors(step(u).value.1) && Closed(step(u).value.1)
  }

  lemma LinkKeepsAnchors()
    ensures KeepsAnchors(StepOf(Link))
  {
    var step := StepOf(Link);
    forall u | step(u).Some? && Tags(u, FormatTags)
      ensures Anchors(step(u).value.1) && Closed(step(u).value.1)
    {
      assert step(u) == LinkStep(u);
      LinkStepAnchors(u);
    }
  }

  lemma ScanAnchorsMatch(step: Stepper, t: string, n: nat, rep: string)
    requires Advances(step) && KeepsAnchors(step)
    requires step(t) == Some((n, rep)) && Tags(t, FormatTags) && t != []
    requires n <= |t| && Anchors(Scan(step, t[n..]))
    ensures Anchors(Scan(step, t))
  {
    ScanSome(step, t, n, rep);
    AnchorsConcat(rep, Scan(step, t[n..]));
  }

  lemma ScanAnchorsChar(step: Stepper, t: string)
    requires Advances(step)
    requires t != [] && step(t).None? && t[0] != '<'
    requires Anchors(Scan(step, t[1..]))
    ensures Anchors(Scan(step, t))
  {
    ScanCons(step, t);
    AnchorsNoLt([t[0]]);
    AnchorsConcat([t[0]], Scan(step, t[1..]));
  }

  lemma ScanAnchorsTag(step: Stepper, t: string, k: nat)
    requires Advances(step) && LeadsAvoid(step, FormatTags)
    requires k < |FormatTags| && StartsWith(t, FormatTags[k])
    requires Anchors(Scan(step, t[|FormatTags[k]|..]))
    ensures Anchors(Scan(step, t))
  {
    var lit := FormatTags[k];
    TagUntouched(step, t, lit, FormatTags);
    ScanPrefix(step, t, |lit|);
    assert t[..|lit|] == lit;
    FormatTagsWellFormed();
    TagsLit(FormatTags, k);
    FormatTagsClosed(lit);
    AnchorsConcat(lit, Scan(step, t[|lit|..]));
  }

  /** A pass whose replacements open only safe anchors, run over text whose
      every `<` opens a formatting tag, opens only safe anchors. */
  lemma {:induction false} ScanAnchors(step: Stepper, t: string)
    requires Advances(step) && LeadsAvoid(step, FormatTags) && KeepsAnchors(step)
    requires Tags(t, FormatTags)
    ensures Anchors(Scan(step, t))
    decreases |t|
  {
    if t == [] {
    } else if step(t).Some? {
      var (n, rep) := step(t).value;
      TagsSuffix(t, n, FormatTags);
      ScanAnchors(step, t[n..]);
      ScanAnchorsMatch(step, t, n, rep);
    } else if t[0] != '<' {
      TagsSuffix(t, 1, FormatTags);
      ScanAnchors(step, t[1..]);
      ScanAnchorsChar(step, t);
    } else {
      FormatTagsWellFormed();
      var k := TagAtStart(t, FormatTags);
      TagsSuffix(t, |FormatTags[k]|, FormatTags);
      ScanAnchors(step, t[|FormatTags[k]|..]);
      ScanAnchorsTag(step, t, k);
    }
  }

  /** The link pass, run over text whose every `<` opens a formatting tag,
      writes only anchors whose `href` passes the gate. */
  lemma LinkScanAnchors(t: string)
    requires Tags(t, FormatTags)
    ensures Anchors(Apply(Link, t))
  {
    LinkLeadsAvoid();
    LinkKeepsAnchors();
    ScanAnchors(StepOf(Link), t);
  }

  /** On text without `<`, every `<` the formatter leaves opens one of its
      own tags, and every anchor it writes has an `href` that passes the gate. */
  lemma InlineFormatSafe(t: string)
    requires '<' !in t
    ensures Tags(InlineFormat(t), AllTags)
    ensures Anchors(InlineFormat(t))
  {
    TagsNoLt(t, FormatTags);
    var t1 := Apply(Bold, t);
    ApplyTags(Bold, t, FormatTags);
    var t2 := Apply(Italic, t1);
    ApplyTags(Italic, t1, FormatTags);
    var t3 := Apply(Code, t2);
    ApplyTags(Code, t2, FormatTags);
    var t4 := Apply(Image, t3);
    ApplyTags(Image, t3, FormatTags);
    TagsWiden(t4);
    ApplyTags(Link, t4, AllTags);
    LinkScanAnchors(t4);
  }
}
