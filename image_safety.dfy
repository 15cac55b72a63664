/**
 * The images the inline formatter leaves in a page. On text that holds no
 * `<`, every `<img` in the result is `<img src="` followed by a value that,
 * read up to its closing quote or to the end of the text, passes the URL
 * gate. The image pass writes only such tags; the link pass, which runs
 * after it and may rewrite text inside an image's `src` value, cannot reach
 * the head of that value the gate reads, because no link starts with one of
 * its characters.
 */
module ImageSafety {
  import opened JsText
  import opened Url
  import opened Inline
  import opened InlineSafety

  /** `u` starts with `<i`: it opens an image. */
  predicate OpensImage(u: string)
  {
    |u| >= 2 && u[0] == '<' && u[1] == 'i'
  }

  /** If `u` opens an image, it is `<img src="` followed by a value that
      passes the gate. */
  predicate ImgOk(u: string)
  {
    OpensImage(u) ==> StartsWith(u, "<img src=\"") && SafeStart(u[10..])
  }

  /** The image opened at position `i` of `o`, if any, has a safe source. */
  predicate ImgAt(o: string, i: nat)
    requires i <= |o|
  {
    ImgOk(o[i..])
  }

  /** Every image opened anywhere in `o` has a safe source. */
  predicate Images(o: string)
  {
    forall i | 0 <= i < |o| :: ImgAt(o, i)
  }

  // ---------------------------------------------------------------------
  // How `Images` behaves under cutting and gluing.

  lemma ImagesNoLt(o: string)
    requires '<' !in o
    ensures Images(o) && Closed(o)
  {
    forall i | 0 <= i < |o| ensures ImgAt(o, i) {
      assert o[i..][0] == o[i];
    }
  }

  lemma ImagesSuffix(t: string, n: nat)
    requires Images(t) && n <= |t|
    ensures Images(t[n..])
  {
    forall i | 0 <= i < |t[n..]| ensures ImgAt(t[n..], i) {
      assert t[n..][i..] == t[n + i..];
      assert ImgAt(t, n + i);
    }
  }

  /** A tag other than the image tag, with its only `<` in front. */
  lemma LitImages(lit: string)
    requires |lit| >= 2 && lit[0] == '<' && lit[1] != 'i' && '<' !in lit[1..]
    ensures Images(lit) && Closed(lit)
  {
    forall i | 0 <= i < |lit| ensures ImgAt(lit, i) {
      if i > 0 {
        assert lit[i..][0] == lit[1..][i - 1];
      }
    }
    assert lit[|lit| - 1] == lit[1..][|lit| - 2];
  }

  /** Text appended after an image's value does not change its verdict. */
  lemma ImgOkExtend(u: string, y: string)
    requires ImgOk(u) && u != [] && u[|u| - 1] != '<'
    ensures ImgOk(u + y)
  {
    var w := u + y;
    if OpensImage(w) {
      assert w[0] == u[0];
      assert |u| >= 2 && w[1] == u[1];
      StartsWithExtend(u, y, "<img src=\"");
      DropConcat(u, y, 10);
      SafeStartExtend(u[10..], y);
    }
  }

  lemma ImagesConcat(x: string, y: string)
    requires Images(x) && Images(y) && Closed(x)
    ensures Images(x + y)
  {
    var o := x + y;
    forall i | 0 <= i < |o| ensures ImgAt(o, i) {
      if i < |x| {
        assert ImgAt(x, i);
        var u := x[i..];
        assert o[i..] == u + y;
        assert u[|u| - 1] == x[|x| - 1];
        ImgOkExtend(u, y);
      } else {
        assert ImgAt(y, i - |x|);
        assert o[i..] == y[i - |x|..];
      }
    }
  }

  /** A prefix with a single `<`, in front, that opens a safe image. */
  lemma ImagesPrepend(head: string, v: string)
    requires head != [] && '<' !in head[1..]
    requires ImgOk(head + v) && Images(v)
    ensures Images(head + v)
  {
    var a := head + v;
    forall i | 0 <= i < |a| ensures ImgAt(a, i) {
      if i == 0 {
        assert a[0..] == a;
      } else if i < |head| {
        assert a[i..][0] == head[1..][i - 1];
      } else {
        assert ImgAt(v, i - |head|);
        assert a[i..] == v[i - |head|..];
      }
    }
  }

  /** The text between a start and a character that no tag holds and the gate
      does not read keeps `Images`: an image tag and the head of its value
      both end before that character. */
  lemma ImagesSegment(t: string, a: nat, b: nat)
    requires Images(t) && a <= b < |t| && Avoids(FormatTags, t[b]) && !HeadChar(t[b])
    ensures Images(t[a..b])
  {
    TagFacts(FormatTags);
    var o := t[a..b];
    forall i | 0 <= i < |o| ensures ImgAt(o, i) {
      if OpensImage(o[i..]) {
        SegmentImage(t, a, b, i);
      }
    }
  }

  lemma SegmentImage(t: string, a: nat, b: nat, i: nat)
    requires Images(t) && a <= b < |t| && Avoids(FormatTags, t[b]) && !HeadChar(t[b])
    requires i < b - a && OpensImage(t[a..b][i..])
    ensures ImgOk(t[a..b][i..])
  {
    var j := a + i;
    assert ImgAt(t, j);
    assert t[a..b][i..] == t[j..][..b - j];
    assert t[j..][b - j] == t[b];
    ImgOkCut(t[j..], b - j);
  }

  /** Cutting text just before a character that no tag holds and the gate
      does not read keeps an image at its start safe. */
  lemma ImgOkCut(s: string, b: nat)
    requires ImgOk(s) && b < |s| && Avoids(FormatTags, s[b]) && !HeadChar(s[b])
    ensures ImgOk(s[..b])
  {
    if OpensImage(s[..b]) {
      ImgCutTag(s, b);
      assert s[10..][b - 10] == s[b];
      ImgCutValue(s[10..], b - 10);
      TakeDrop(s, 10, b);
    }
  }

  lemma TakeDrop(s: string, a: nat, b: nat)
    requires a <= b <= |s|
    ensures s[..b][a..] == s[a..][..b - a]
  {
  }

  /** The whole image tag lies before the cut. */
  lemma ImgCutTag(s: string, b: nat)
    requires ImgOk(s) && b < |s| && Avoids(FormatTags, s[b]) && OpensImage(s[..b])
    ensures 10 <= b && StartsWith(s[..b], "<img src=\"") && SafeStart(s[10..])
  {
    TagFacts(FormatTags);
    assert s[0] == s[..b][0] && s[1] == s[..b][1];
    var lit := FormatTags[6];
    assert lit in FormatTags;
    TagFits(s, 0, b, lit, FormatTags);
    assert s[..b][..10] == s[..10];
  }

  /** The head of the value lies before the cut. */
  lemma ImgCutValue(v: string, c: nat)
    requires SafeStart(v) && c < |v| && !HeadChar(v[c])
    ensures SafeStart(v[..c])
  {
    var h := SafeStartHead(v);
    HeadBefore(v, h, c);
    HeadStartCut(v, h, c);
  }

  lemma HeadStartCut(v: string, h: nat, c: nat)
    requires h <= c <= |v| && HeadChars(v[..h]) && IsSafeUrl(v[..h])
    ensures SafeStart(v[..c])
  {
    assert v[..c][..h] == v[..h];
    HeadStartAt(v[..c], h);
  }

  /** A character outside the head's alphabet lies past the head. */
  lemma HeadBefore(v: string, h: nat, c: nat)
    requires h <= |v| && HeadChars(v[..h]) && c < |v| && !HeadChar(v[c])
    ensures h <= c
  {
  }

  // ---------------------------------------------------------------------
  // A pass keeps `Images`.

  /** No match of the pattern starts with a character the gate reads. */
  ghost predicate LeadsOutsideHead(step: Stepper)
  {
    forall u | step(u).Some? :: u != [] && !HeadChar(u[0])
  }

  /** What a match is replaced by opens only safe images, and does not end in
      a bare `<`, when the text it came from held only formatting tags and
      safe images. */
  ghost predicate KeepsImages(step: Stepper)
  {
    forall u | step(u).Some? && Tags(u, FormatTags) && Images(u) ::
      Images(step(u).value.1) && Closed(step(u).value.1)
  }

  /** A scan keeps the head of an accepted value, so the value stays accepted. */
  lemma ScanKeepsSafeStart(step: Stepper, v: string)
    requires Advances(step) && LeadsOutsideHead(step) && SafeStart(v)
    ensures SafeStart(Scan(step, v))
  {
    var h := SafeStartHead(v);
    HeadUntouched(step, v, h);
    ScanPrefix(step, v, h);
    HeadThen(v, h, Scan(step, v[h..]), Scan(step, v));
  }

  /** No match starts inside the head. */
  lemma HeadUntouched(step: Stepper, v: string, h: nat)
    requires LeadsOutsideHead(step) && h <= |v| && HeadChars(v[..h])
    ensures forall q | 0 <= q < h :: step(v[q..]).None?
  {
    forall q | 0 <= q < h ensures step(v[q..]).None? {
      assert v[q..][0] == v[q] == v[..h][q];
    }
  }

  lemma HeadThen(v: string, h: nat, r: string, w: string)
    requires h <= |v| && HeadChars(v[..h]) && IsSafeUrl(v[..h]) && w == v[..h] + r
    ensures SafeStart(w)
  {
    HeadStart(v[..h], r);
  }

  lemma ScanImagesTag(step: Stepper, t: string, k: nat)
    requires Advances(step) && LeadsAvoid(step, FormatTags) && LeadsOutsideHead(step)
    requires k < |FormatTags| && StartsWith(t, FormatTags[k]) && Images(t)
    requires Images(Scan(step, t[|FormatTags[k]|..]))
    ensures Images(Scan(step, t))
  {
    TagFacts(FormatTags);
    var lit := FormatTags[k];
    TagUntouched(step, t, lit, FormatTags);
    ScanPrefix(step, t, |lit|);
    assert t[..|lit|] == lit;
    if k == 6 {
      ScanImagesImg(step, t, Scan(step, t[10..]));
    } else {
      FormatLitImages(k);
      ImagesConcat(lit, Scan(step, t[|lit|..]));
    }
  }

  /** The formatting tags other than the image tag open no image. */
  lemma FormatLitImages(k: nat)
    requires k < 6
    ensures Images(FormatTags[k]) && Closed(FormatTags[k])
  {
    TagFacts(FormatTags);
    match k
    case 0 => LitImages("<strong>");
    case 1 => LitImages("</strong>");
    case 2 => LitImages("<em>");
    case 3 => LitImages("</em>");
    case 4 => LitImages("<code>");
    case 5 => LitImages("</code>");
  }

  /** The image tag itself: the scan keeps the head of its value. */
  lemma ScanImagesImg(step: Stepper, t: string, rest: string)
    requires Advances(step) && LeadsOutsideHead(step) && Images(t)
    requires StartsWith(t, "<img src=\"") && rest == Scan(step, t[10..]) && Images(rest)
    ensures Images("<img src=\"" + rest)
  {
    ImagesFirst(t);
    ImgValue(t);
    ScanKeepsSafeStart(step, t[10..]);
    ImgOpenImages(rest);
  }

  lemma ImagesFirst(t: string)
    requires Images(t) && t != []
    ensures ImgOk(t)
  {
    assert ImgAt(t, 0);
  }

  lemma ImgValue(t: string)
    requires ImgOk(t) && StartsWith(t, "<img src=\"")
    ensures SafeStart(t[10..])
  {
    assert t[0] == t[..10][0] && t[1] == t[..10][1];
  }

  lemma ImgOpen(v: string)
    requires SafeStart(v)
    ensures ImgOk("<img src=\"" + v)
  {
    var u := "<img src=\"" + v;
    assert u[..10] == "<img src=\"";
    assert u[10..] == v;
  }

  /** An image tag followed by a safe value whose own images are safe. */
  lemma ImgOpenImages(v: string)
    requires SafeStart(v) && Images(v)
    ensures Images("<img src=\"" + v)
  {
    var a := "<img src=\"" + v;
    forall i | 0 <= i < |a| ensures ImgAt(a, i) {
      if i == 0 {
        ImgOpen(v);
        assert a[0..] == a;
      } else if i < 10 {
        assert a[i..][0] == a[i] != '<';
      } else {
        assert ImgAt(v, i - 10);
        assert a[i..] == v[i - 10..];
      }
    }
  }

  lemma ScanImagesMatch(step: Stepper, t: string, n: nat, rep: string)
    requires Advances(step) && KeepsImages(step)
    requires step(t) == Some((n, rep)) && Tags(t, FormatTags) && Images(t) && t != []
    requires n <= |t| && Images(Scan(step, t[n..]))
    ensures Images(Scan(step, t))
  {
    ScanSome(step, t, n, rep);
    ImagesConcat(rep, Scan(step, t[n..]));
  }

  lemma ScanImagesChar(step: Stepper, t: string)
    requires Advances(step)
    requires t != [] && step(t).None? && t[0] != '<'
    requires Images(Scan(step, t[1..]))
    ensures Images(Scan(step, t))
  {
    ScanCons(step, t);
    ImagesNoLt([t[0]]);
    ImagesConcat([t[0]], Scan(step, t[1..]));
  }

  /** A pass whose replacements open only safe images, run over text whose
      every `<` opens a formatting tag and whose images are safe, leaves only
      safe images. */
  lemma {:induction false} ScanImages(step: Stepper, t: string)
    requires Advances(step) && LeadsAvoid(step, FormatTags) && LeadsOutsideHead(step)
    requires KeepsImages(step)
    requires Tags(t, FormatTags) && Images(t)
    ensures Images(Scan(step, t))
    decreases |t|
  {
    if t == [] {
    } else if step(t).Some? {
      var (n, rep) := step(t).value;
      TagsSuffix(t, n, FormatTags);
      ImagesSuffix(t, n);
      ScanImages(step, t[n..]);
      ScanImagesMatch(step, t, n, rep);
    } else if t[0] != '<' {
      TagsSuffix(t, 1, FormatTags);
      ImagesSuffix(t, 1);
      ScanImages(step, t[1..]);
      ScanImagesChar(step, t);
    } else {
      FormatTagsWellFormed();
      var k := TagAtStart(t, FormatTags);
      TagsSuffix(t, |FormatTags[k]|, FormatTags);
      ImagesSuffix(t, |FormatTags[k]|);
      ScanImages(step, t[|FormatTags[k]|..]);
      ScanImagesTag(step, t, k);
    }
  }

  // ---------------------------------------------------------------------
  // The replacements of each pass.

  /** A piece of the matched text that ends before a character no tag holds
      and the gate does not read. */
  lemma PieceImages(t: string, a: nat, b: nat)
    requires Tags(t, FormatTags) && Images(t) && a <= b < |t|
    requires Avoids(FormatTags, t[b]) && !HeadChar(t[b])
    ensures Images(t[a..b]) && Closed(t[a..b]) && Tags(t[a..b], FormatTags)
  {
    ImagesSegment(t, a, b);
    TagsSegment(t, a, b, FormatTags);
    FormatTagsWellFormed();
    if a < b {
      TagsLast(t[a..b], FormatTags);
    }
  }

  /** `open + g + close` with tags around a piece that keeps `Images`. */
  lemma WrapImages(open: string, g: string, close: string)
    requires Images(open) && Closed(open) && Images(g) && Closed(g)
    requires Images(close) && Closed(close) && close != []
    ensures Images(open + g + close) && Closed(open + g + close)
  {
    ImagesConcat(open, g);
    assert Closed(open + g) by {
      if g != [] {
        assert (open + g)[|open + g| - 1] == g[|g| - 1];
      }
    }
    ImagesConcat(open + g, close);
    assert (open + g + close)[|open + g + close| - 1] == close[|close| - 1];
  }

  lemma LazyStepImages(t: string, delim: string, open: string, close: string)
    requires |delim| > 0 && LazyStep(t, delim, open, close).Some?
    requires Tags(t, FormatTags) && Images(t)
    requires Avoids(FormatTags, delim[0]) && !HeadChar(delim[0])
    requires Images(open) && Closed(open) && Images(close) && Closed(close) && close != []
    ensures Images(LazyStep(t, delim, open, close).value.1)
    ensures Closed(LazyStep(t, delim, open, close).value.1)
  {
    var g := LazyAt(t, delim).value;
    LazyShape(t, delim, g);
    PieceImages(t, |delim|, |delim| + |g|);
    WrapImages(open, g, close);
  }

  lemma CodeStepImages(t: string)
    requires CodeStep(t).Some? && Tags(t, FormatTags) && Images(t)
    ensures Images(CodeStep(t).value.1) && Closed(CodeStep(t).value.1)
  {
    TagFacts(FormatTags);
    var g := CodeAt(t).value;
    assert CodeMatch(t, g);
    CodeShape(t, g);
    PieceImages(t, 1, 1 + |g|);
    LitImages("<code>");
    LitImages("</code>");
    WrapImages("<code>", g, "</code>");
  }

  /** The tag the image pass writes for a URL that passed the gate. */
  lemma ImgTagImages(url: string, alt: string)
    requires IsSafeUrl(url) && Images(url) && Closed(url) && Images(alt) && Closed(alt)
    ensures Images(ImgTag(url, alt)) && Closed(ImgTag(url, alt))
  {
    assert SafeStart(url + ("\" alt=\"" + (alt + "\" loading=\"lazy\">"))) by {
      ImgValueSafe(url, "\" alt=\"" + (alt + "\" loading=\"lazy\">"));
    }
    ImgTagOpen(url, alt);
  }

  lemma ImgTagOpen(url: string, alt: string)
    requires SafeStart(url + ("\" alt=\"" + (alt + "\" loading=\"lazy\">")))
    requires Images(url) && Closed(url) && Images(alt) && Closed(alt)
    ensures Images(ImgTag(url, alt)) && Closed(ImgTag(url, alt))
  {
    ImgValueImages(url, alt);
    ImgOpenImages(url + ("\" alt=\"" + (alt + "\" loading=\"lazy\">")));
    ImgTagSplit(url, alt);
  }

  /** The value of an image tag opens no unsafe image. */
  lemma ImgValueImages(url: string, alt: string)
    requires Images(url) && Closed(url) && Images(alt) && Closed(alt)
    ensures Images(url + ("\" alt=\"" + (alt + "\" loading=\"lazy\">")))
  {
    var w := "\" alt=\"" + (alt + "\" loading=\"lazy\">");
    ImgAttrImages(alt, w);
    ImagesConcat(url, w);
  }

  /** What follows the URL in an image tag opens no image. */
  lemma ImgAttrImages(alt: string, w: string)
    requires Images(alt) && Closed(alt) && w == "\" alt=\"" + (alt + "\" loading=\"lazy\">")
    ensures Images(w) && w[0] == '"'
  {
    var mid := "\" alt=\"";
    var end := "\" loading=\"lazy\">";
    ImagesNoLt(mid);
    ImagesNoLt(end);
    ImagesConcat(alt, end);
    ImagesConcat(mid, alt + end);
  }

  /** The URL, read up to the quote that closes it, is the URL itself. */
  lemma ImgValueSafe(url: string, w: string)
    requires IsSafeUrl(url) && w != [] && w[0] == '"'
    ensures SafeStart(url + w)
  {
    UpToQuoteConcat(url, w);
    SafeUpToQuote(url);
  }

  lemma ImgTagSplit(url: string, alt: string)
    ensures ImgTag(url, alt) == "<img src=\"" + (url + ("\" alt=\"" + (alt + "\" loading=\"lazy\">")))
    ensures Closed(ImgTag(url, alt))
  {
  }

  lemma ImagePartsImages(t: string, alt: string, url: string)
    requires ImageMatch(t, alt, url) && Tags(t, FormatTags) && Images(t)
    ensures Images(alt) && Closed(alt) && Images(url) && Closed(url)
  {
    ImageShape(t, alt, url);
    ImageAltImages(t, alt, url);
    ImageUrlImages(t, alt, url);
  }

  lemma ImageAltImages(t: string, alt: string, url: string)
    requires Tags(t, FormatTags) && Images(t)
    requires |alt| + |url| + 5 <= |t| && t[2..2 + |alt|] == alt && t[2 + |alt|] == ']'
    ensures Images(alt) && Closed(alt)
  {
    TagFacts(FormatTags);
    PieceImages(t, 2, 2 + |alt|);
  }

  lemma ImageUrlImages(t: string, alt: string, url: string)
    requires Tags(t, FormatTags) && Images(t)
    requires |alt| + |url| + 5 <= |t|
    requires t[4 + |alt|..4 + |alt| + |url|] == url && t[4 + |alt| + |url|] == ')'
    ensures Images(url) && Closed(url)
  {
    TagFacts(FormatTags);
    PieceImages(t, 4 + |alt|, 4 + |alt| + |url|);
  }

  lemma ImageStepImages(t: string)
    requires ImageStep(t).Some? && Tags(t, FormatTags) && Images(t)
    ensures Images(ImageStep(t).value.1) && Closed(ImageStep(t).value.1)
  {
    var (alt, url) := ImageAt(t).value;
    assert ImageMatch(t, alt, url);
    ImagePartsImages(t, alt, url);
    if IsSafeUrl(url) {
      ImgTagImages(url, alt);
    }
  }

  /** The anchor the link pass writes. */
  lemma AnchorTagImages(url: string, text: string)
    requires Images(url) && Closed(url) && Images(text) && Closed(text)
    ensures Images(AnchorTag(url, text)) && Closed(AnchorTag(url, text))
  {
    LitImages("<a href=\"");
    LitImages("</a>");
    ImagesNoLt("\">");
    WrapImages("<a href=\"", url, "\">");
    WrapImages("<a href=\"" + url + "\">", text, "</a>");
  }

  lemma LinkPartsImages(t: string, text: string, url: string)
    requires LinkMatch(t, text, url) && Tags(t, FormatTags) && Images(t)
    ensures Images(text) && Closed(text) && Images(url) && Closed(url)
  {
    LinkShape(t, text, url);
    LinkTextImages(t, text, url);
    LinkUrlImages(t, text, url);
  }

  lemma LinkTextImages(t: string, text: string, url: string)
    requires Tags(t, FormatTags) && Images(t)
    requires |text| + |url| + 4 <= |t| && t[1..1 + |text|] == text && t[1 + |text|] == ']'
    ensures Images(text) && Closed(text)
  {
    TagFacts(FormatTags);
    PieceImages(t, 1, 1 + |text|);
  }

  lemma LinkUrlImages(t: string, text: string, url: string)
    requires Tags(t, FormatTags) && Images(t)
    requires |text| + |url| + 4 <= |t|
    requires t[3 + |text|..3 + |text| + |url|] == url && t[3 + |text| + |url|] == ')'
    ensures Images(url) && Closed(url)
  {
    TagFacts(FormatTags);
    PieceImages(t, 3 + |text|, 3 + |text| + |url|);
  }

  lemma LinkStepImages(t: string)
    requires LinkStep(t).Some? && Tags(t, FormatTags) && Images(t)
    ensures Images(LinkStep(t).value.1) && Closed(LinkStep(t).value.1)
  {
    var (text, url) := LinkAt(t).value;
    assert LinkMatch(t, text, url);
    LinkPartsImages(t, text, url);
    if IsSafeUrl(url) {
      AnchorTagImages(url, text);
    }
  }

  lemma StepImages(p: Pattern, u: string)
    requires Step(p, u).Some? && Tags(u, FormatTags) && Images(u)
    ensures Images(Step(p, u).value.1) && Closed(Step(p, u).value.1)
  {
    TagFacts(FormatTags);
    match p
    case Bold =>
      LitImages("<strong>");
      LitImages("</strong>");
      LazyStepImages(u, "**", "<strong>", "</strong>");
    case Italic =>
      LitImages("<em>");
      LitImages("</em>");
      LazyStepImages(u, "*", "<em>", "</em>");
    case Code => CodeStepImages(u);
    case Image => ImageStepImages(u);
    case Link => LinkStepImages(u);
  }

  lemma LeadNotHead(p: Pattern)
    ensures !HeadChar(Lead(p))
  {
  }

  lemma PassLeadsOutsideHead(p: Pattern)
    ensures LeadsOutsideHead(StepOf(p))
  {
    var step := StepOf(p);
    var c := Lead(p);
    LeadNotHead(p);
    forall u | step(u).Some? ensures u != [] && !HeadChar(u[0]) {
      var r := Step(p, u);
      assert step(u) == r;
      assert u[0] == c;
    }
  }

  lemma PassKeepsImages(p: Pattern)
    ensures KeepsImages(StepOf(p))
  {
    var step := StepOf(p);
    forall u | step(u).Some? && Tags(u, FormatTags) && Images(u)
      ensures Images(step(u).value.1) && Closed(step(u).value.1)
    {
      assert step(u) == Step(p, u);
      StepImages(p, u);
    }
  }

  /** Each pass, run over text whose every `<` opens a formatting tag, keeps
      every image safe. */
  lemma ApplyImages(p: Pattern, t: string)
    requires Tags(t, FormatTags) && Images(t)
    ensures Images(Apply(p, t))
  {
    if p == Link {
      LinkLeadsAvoid();
    } else {
      PassKeepsTags(p, FormatTags);
    }
    PassLeadsOutsideHead(p);
    PassKeepsImages(p);
    ScanImages(StepOf(p), t);
  }

  /** On text without `<`, every image the formatter leaves has a `src` value
      that passes the gate, also after the link pass has run over it. */
  lemma InlineFormatImages(t: string)
    requires '<' !in t
    ensures Images(InlineFormat(t))
  {
    TagsNoLt(t, FormatTags);
    ImagesNoLt(t);
    var t1 := Apply(Bold, t);
    ApplyTags(Bold, t, FormatTags);
    ApplyImages(Bold, t);
    var t2 := Apply(Italic, t1);
    ApplyTags(Italic, t1, FormatTags);
    ApplyImages(Italic, t1);
    var t3 := Apply(Code, t2);
    ApplyTags(Code, t2, FormatTags);
    ApplyImages(Code, t2);
    var t4 := Apply(Image, t3);
    ApplyTags(Image, t3, FormatTags);
    ApplyImages(Image, t3);
    ApplyImages(Link, t4);
  }
}
