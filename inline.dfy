/**
 * The inline formatter: five global regex replacements applied in a fixed
 * order (bold, italic, inline code, images, links). Each regex is written as
 * an explicit matcher that decides what the pattern matches at the start of
 * a text, and each global replacement as a leftmost scan that resumes after
 * every match.
 */
module Inline {
  import opened JsText
  import opened Url

  /** No line terminator: what `.` in a JavaScript regex may cross. */
  predicate NoBreak(g: string)
  {
    forall i | 0 <= i < |g| :: !IsLineTerminator(g[i])
  }

  lemma StartsWithConcat(t: string, a: string, g: string, b: string)
    ensures StartsWith(t, a + g + b) <==>
      && StartsWith(t, a) && |a| + |g| + |b| <= |t|
      && t[|a|..|a| + |g|] == g && OccursAt(t, b, |a| + |g|)
  {
    var n := |a| + |g| + |b|;
    if StartsWith(t, a + g + b) {
      assert t[..n] == a + g + b;
      assert t[..|a|] == t[..n][..|a|];
      assert t[|a|..|a| + |g|] == t[..n][|a|..|a| + |g|];
      assert t[|a| + |g|..n] == t[..n][|a| + |g|..];
    }
    if && StartsWith(t, a) && n <= |t|
       && t[|a|..|a| + |g|] == g && OccursAt(t, b, |a| + |g|) {
      assert t[..n] == t[..|a|] + t[|a|..|a| + |g|] + t[|a| + |g|..n];
    }
  }

  // ---------------------------------------------------------------------
  // What each regex matches at the start of a text.

  /** `\*\*(.+?)\*\*` matches with group `g`. */
  predicate BoldMatch(t: string, g: string)
  {
    |g| >= 1 && NoBreak(g) && StartsWith(t, "**" + g + "**")
  }

  /** `\*(.+?)\*` matches with group `g`. */
  predicate ItalicMatch(t: string, g: string)
  {
    |g| >= 1 && NoBreak(g) && StartsWith(t, "*" + g + "*")
  }

  /** `` `([^`]+)` `` matches with group `g`. */
  predicate CodeMatch(t: string, g: string)
  {
    |g| >= 1 && '`' !in g && StartsWith(t, "`" + g + "`")
  }

  /** `!\[([^\]]*)\]\(([^)]+)\)` matches with groups `alt` and `url`. */
  predicate ImageMatch(t: string, alt: string, url: string)
  {
    ']' !in alt && |url| >= 1 && ')' !in url && StartsWith(t, "![" + alt + "](" + url + ")")
  }

  /** `\[([^\]]+)\]\(([^)]+)\)` matches with groups `text` and `url`. */
  predicate LinkMatch(t: string, text: string, url: string)
  {
    |text| >= 1 && ']' !in text && |url| >= 1 && ')' !in url
    && StartsWith(t, "[" + text + "](" + url + ")")
  }

  /** The first `close` at or after `j`, provided no line terminator comes
      before it: how a lazy `.+?` looks for its terminator. */
  function LazyClose(t: string, close: string, j: nat): (r: Option<nat>)
    requires |close| > 0
    decreases |t| - j
    ensures r.Some? ==> j <= r.value && OccursAt(t, close, r.value)
    ensures r.Some? ==> forall m | j <= m < r.value :: !IsLineTerminator(t[m])
  {
    if OccursAt(t, close, j) then Some(j)
    else if j >= |t| || IsLineTerminator(t[j]) then None
    else LazyClose(t, close, j + 1)
  }

  /** A terminator reachable without crossing a line break is found, and
      nothing later than it is. */
  lemma {:induction false} LazyCloseReaches(t: string, close: string, j: nat, m: nat)
    requires |close| > 0 && j <= m && OccursAt(t, close, m)
    requires forall q | j <= q < m :: !IsLineTerminator(t[q])
    ensures LazyClose(t, close, j).Some? && LazyClose(t, close, j).value <= m
    decreases m - j
  {
    if !OccursAt(t, close, j) {
      assert j < m < |t|;
      LazyCloseReaches(t, close, j + 1, m);
    }
  }

  /** What a match of `delim(.+?)delim` at the start of `t` tells the scanner. */
  lemma LazyMatchOne(t: string, delim: string, g: string)
    requires |delim| > 0 && |g| >= 1 && NoBreak(g) && StartsWith(t, delim + g + delim)
    ensures |delim| < |t| && StartsWith(t, delim) && !IsLineTerminator(t[|delim|])
    ensures LazyClose(t, delim, |delim| + 1).Some? && LazyClose(t, delim, |delim| + 1).value <= |delim| + |g|
  {
    var d := |delim|;
    LazyMatchSplit(t, delim, g);
    LazyCloseReaches(t, delim, d + 1, d + |g|);
  }

  lemma LazyMatchSplit(t: string, delim: string, g: string)
    requires |delim| > 0 && NoBreak(g) && StartsWith(t, delim + g + delim)
    ensures StartsWith(t, delim) && |delim| + |g| < |t| && OccursAt(t, delim, |delim| + |g|)
    ensures forall q | |delim| <= q < |delim| + |g| :: !IsLineTerminator(t[q])
  {
    var d := |delim|;
    var m := d + |g|;
    StartsWithConcat(t, delim, g, delim);
    var w := t[d..m];
    assert w == g;
    forall q | d <= q < m ensures !IsLineTerminator(t[q]) {
      assert t[q] == w[q - d];
    }
  }

  /** The group a lazy `delim(.+?)delim` takes at the start of `t`. */
  function LazyAt(t: string, delim: string): (r: Option<string>)
    requires |delim| > 0
    ensures r.Some? ==> |r.value| >= 1 && NoBreak(r.value) && StartsWith(t, delim + r.value + delim)
  {
    var d := |delim|;
    if d < |t| && StartsWith(t, delim) && !IsLineTerminator(t[d]) then
      match LazyClose(t, delim, d + 1)
      case None => None
      case Some(e) =>
        LazyFound(t, delim, e);
        Some(t[d..e])
    else None
  }

  lemma LazyFound(t: string, delim: string, e: nat)
    requires 0 < |delim| < e && StartsWith(t, delim) && OccursAt(t, delim, e)
    requires !IsLineTerminator(t[|delim|]) && forall m | |delim| < m < e :: !IsLineTerminator(t[m])
    ensures |t[|delim|..e]| >= 1 && NoBreak(t[|delim|..e])
    ensures StartsWith(t, delim + t[|delim|..e] + delim)
  {
    var d := |delim|;
    var g := t[d..e];
    assert d + |g| == e;
    forall q | 0 <= q < |g| ensures !IsLineTerminator(g[q]) {
      assert g[q] == t[d + q];
    }
    StartsWithJoin(t, delim, g, delim);
  }

  lemma StartsWithJoin(t: string, a: string, g: string, b: string)
    requires StartsWith(t, a) && |a| + |g| + |b| <= |t|
    requires t[|a|..|a| + |g|] == g && OccursAt(t, b, |a| + |g|)
    ensures StartsWith(t, a + g + b)
  {
    var n := |a| + |g| + |b|;
    assert t[..n] == t[..|a|] + t[|a|..|a| + |g|] + t[|a| + |g|..n];
  }

  /** Wherever the pattern can match, the lazy group is found, and it is the
      shortest one. */
  lemma LazyAtShortest(t: string, delim: string, g: string)
    requires |delim| > 0 && |g| >= 1 && NoBreak(g) && StartsWith(t, delim + g + delim)
    ensures LazyAt(t, delim).Some? && |LazyAt(t, delim).value| <= |g|
  {
    LazyMatchOne(t, delim, g);
  }

  /** The run up to the first `c` at or after `from`, when that run is at
      least `min` long: how `[^c]+` (or `[^c]*`) followed by `c` matches. */
  function RunTo(t: string, c: char, from: nat, min: nat): (r: Option<nat>)
    ensures r.Some? ==> from + min <= r.value < |t| && t[r.value] == c
    ensures r.Some? ==> forall q | from <= q < r.value :: t[q] != c
  {
    match IndexOfChar(t, c, from)
    case None => None
    case Some(e) => if e >= from + min then Some(e) else None
  }

  /** A first `c` far enough from `from` is where the run ends. */
  lemma RunToFirst(t: string, c: char, from: nat, min: nat, e: nat)
    requires from + min <= e < |t| && t[e] == c
    requires forall q | from <= q < e :: t[q] != c
    ensures RunTo(t, c, from, min) == Some(e)
  {
  }

  function BoldAt(t: string): (r: Option<string>)
    ensures r.Some? ==> BoldMatch(t, r.value)
  {
    LazyAt(t, "**")
  }

  function ItalicAt(t: string): (r: Option<string>)
    ensures r.Some? ==> ItalicMatch(t, r.value)
  {
    LazyAt(t, "*")
  }

  /** `**(.+?)**` takes the shortest group wherever it can match. */
  lemma BoldAtShortest(t: string, g: string)
    requires BoldMatch(t, g)
    ensures BoldAt(t).Some? && |BoldAt(t).value| <= |g|
  {
    LazyAtShortest(t, "**", g);
  }

  /** `*(.+?)*` takes the shortest group wherever it can match. */
  lemma ItalicAtShortest(t: string, g: string)
    requires ItalicMatch(t, g)
    ensures ItalicAt(t).Some? && |ItalicAt(t).value| <= |g|
  {
    LazyAtShortest(t, "*", g);
  }

  function CodeAt(t: string): (r: Option<string>)
    ensures r.Some? ==> CodeMatch(t, r.value)
  {
    if t != [] && t[0] == '`' then
      match RunTo(t, '`', 1, 1)
      case None => None
      case Some(e) =>
        var g := t[1..e];
        assert '`' !in g by {
          assert forall q | 0 <= q < |g| :: g[q] == t[q + 1];
        }
        assert OccursAt(t, "`", e) by {
          assert t[e..e + 1] == [t[e]];
        }
        assert StartsWith(t, "`") by {
          assert t[..1] == [t[0]];
        }
        StartsWithConcat(t, "`", g, "`");
        Some(g)
    else None
  }

  /** `` `([^`]+)` `` matches with group `g` exactly when the matcher finds `g`. */
  lemma CodeAtMatch(t: string, g: string)
    ensures CodeMatch(t, g) <==> CodeAt(t) == Some(g)
  {
    if CodeMatch(t, g) {
      StartsWithConcat(t, "`", g, "`");
      assert t[0] == t[..1][0];
      assert t[1 + |g|] == t[1 + |g|..2 + |g|][0];
      forall q | 1 <= q < 1 + |g| ensures t[q] != '`' {
        assert t[q] == t[1..1 + |g|][q - 1];
      }
      RunToFirst(t, '`', 1, 1, 1 + |g|);
    }
  }

  lemma StartsWithAppend(t: string, x: string, y: string)
    ensures StartsWith(t, x + y) <==> StartsWith(t, x) && OccursAt(t, y, |x|)
  {
    if StartsWith(t, x + y) {
      assert t[..|x|] == (x + y)[..|x|];
      assert t[|x|..|x| + |y|] == (x + y)[|x|..];
    }
    if StartsWith(t, x) && OccursAt(t, y, |x|) {
      assert t[..|x| + |y|] == t[..|x|] + t[|x|..|x| + |y|];
    }
  }

  /** A bracketed group `open + g + close` at index `i`: `g` is the run from
      `i + |open|` up to the first `close`. */
  lemma BracketRun(t: string, x: string, g: string, c: char)
    requires StartsWith(t, x + g + [c]) && c !in g
    ensures t[|x|..|x| + |g|] == g && |x| + |g| < |t| && t[|x| + |g|] == c
    ensures forall q | |x| <= q < |x| + |g| :: t[q] != c
  {
    StartsWithAppend(t, x + g, [c]);
    StartsWithAppend(t, x, g);
    assert t[|x| + |g|] == t[|x| + |g|..|x| + |g| + 1][0];
    forall q | |x| <= q < |x| + |g| ensures t[q] != c {
      assert t[q] == t[|x|..|x| + |g|][q - |x|];
    }
  }

  /** What a match `![alt](url)` at the start of `t` tells the scanner. */
  lemma ImageMatchOne(t: string, alt: string, url: string)
    requires ImageMatch(t, alt, url)
    ensures var j := 2 + |alt|;
      && StartsWith(t, "![") && RunTo(t, ']', 2, 0) == Some(j) && t[2..j] == alt
      && OccursAt(t, "](", j)
      && RunTo(t, ')', j + 2, 1) == Some(j + 2 + |url|) && t[j + 2..j + 2 + |url|] == url
  {
    var j := 2 + |alt|;
    assert "![" + alt + "](" + url + ")" == ("![" + alt + "](" + url) + [')'];
    BracketRun(t, "![" + alt + "](", url, ')');
    StartsWithAppend(t, "![" + alt + "](" + url, ")");
    StartsWithAppend(t, "![" + alt + "](", url);
    assert "![" + alt + "](" == ("![" + alt) + [']'] + "(";
    StartsWithAppend(t, "![" + alt + "]", "(");
    StartsWithAppend(t, "![" + alt, "]");
    BracketRun(t, "![", alt, ']');
    StartsWithAppend(t, "![", alt);
    RunToFirst(t, ']', 2, 0, j);
    RunToFirst(t, ')', j + 2, 1, j + 2 + |url|);
    assert OccursAt(t, "](", j) by {
      assert t[j] == ']' && t[j + 1] == '(';
      assert t[j..j + 2] == [t[j], t[j + 1]];
    }
  }

  function ImageAt(t: string): (r: Option<(string, string)>)
    ensures r.Some? ==> ImageMatch(t, r.value.0, r.value.1)
  {
    if StartsWith(t, "![") then
      match RunTo(t, ']', 2, 0)
      case None => None
      case Some(j) =>
        if OccursAt(t, "](", j) then
          match RunTo(t, ')', j + 2, 1)
          case None => None
          case Some(k) =>
            ImageFound(t, j, k);
            Some((t[2..j], t[j + 2..k]))
        else None
    else None
  }

  /** `!\[([^\]]*)\]\(([^)]+)\)` matches with groups `alt` and `url` exactly
      when the matcher finds them. */
  lemma ImageAtMatch(t: string, alt: string, url: string)
    ensures ImageMatch(t, alt, url) <==> ImageAt(t) == Some((alt, url))
  {
    if ImageMatch(t, alt, url) {
      ImageMatchOne(t, alt, url);
    }
  }

  lemma ImageFound(t: string, j: nat, k: nat)
    requires StartsWith(t, "![") && RunTo(t, ']', 2, 0) == Some(j) && OccursAt(t, "](", j)
    requires RunTo(t, ')', j + 2, 1) == Some(k)
    ensures ImageMatch(t, t[2..j], t[j + 2..k])
  {
    var alt, url := t[2..j], t[j + 2..k];
    assert ']' !in alt by {
      assert forall q | 0 <= q < |alt| :: alt[q] == t[q + 2];
    }
    assert ')' !in url by {
      assert forall q | 0 <= q < |url| :: url[q] == t[q + j + 2];
    }
    StartsWithAppend(t, "![", alt);
    StartsWithAppend(t, "![" + alt, "](");
    StartsWithAppend(t, "![" + alt + "](", url);
    assert OccursAt(t, ")", k) by {
      assert t[k..k + 1] == [t[k]];
    }
    StartsWithAppend(t, "![" + alt + "](" + url, ")");
  }

  /** What a match `[text](url)` at the start of `t` tells the scanner. */
  lemma LinkMatchOne(t: string, text: string, url: string)
    requires LinkMatch(t, text, url)
    ensures var j := 1 + |text|;
      && t != [] && t[0] == '[' && RunTo(t, ']', 1, 1) == Some(j) && t[1..j] == text
      && OccursAt(t, "](", j)
      && RunTo(t, ')', j + 2, 1) == Some(j + 2 + |url|) && t[j + 2..j + 2 + |url|] == url
  {
    var j := 1 + |text|;
    assert "[" + text + "](" + url + ")" == ("[" + text + "](" + url) + [')'];
    BracketRun(t, "[" + text + "](", url, ')');
    StartsWithAppend(t, "[" + text + "](" + url, ")");
    StartsWithAppend(t, "[" + text + "](", url);
    assert "[" + text + "](" == ("[" + text) + [']'] + "(";
    StartsWithAppend(t, "[" + text + "]", "(");
    StartsWithAppend(t, "[" + text, "]");
    BracketRun(t, "[", text, ']');
    StartsWithAppend(t, "[", text);
    assert t[0] == t[..1][0];
    RunToFirst(t, ']', 1, 1, j);
    RunToFirst(t, ')', j + 2, 1, j + 2 + |url|);
    assert OccursAt(t, "](", j) by {
      assert t[j] == ']' && t[j + 1] == '(';
      assert t[j..j + 2] == [t[j], t[j + 1]];
    }
  }

  function LinkAt(t: string): (r: Option<(string, string)>)
    ensures r.Some? ==> LinkMatch(t, r.value.0, r.value.1)
  {
    if t != [] && t[0] == '[' then
      match RunTo(t, ']', 1, 1)
      case None => None
      case Some(j) =>
        if OccursAt(t, "](", j) then
          match RunTo(t, ')', j + 2, 1)
          case None => None
          case Some(k) =>
            LinkFound(t, j, k);
            Some((t[1..j], t[j + 2..k]))
        else None
    else None
  }

  /** `\[([^\]]+)\]\(([^)]+)\)` matches with groups `text` and `url` exactly
      when the matcher finds them. */
  lemma LinkAtMatch(t: string, text: string, url: string)
    ensures LinkMatch(t, text, url) <==> LinkAt(t) == Some((text, url))
  {
    if LinkMatch(t, text, url) {
      LinkMatchOne(t, text, url);
    }
  }

  lemma LinkFound(t: string, j: nat, k: nat)
    requires t != [] && t[0] == '[' && RunTo(t, ']', 1, 1) == Some(j) && OccursAt(t, "](", j)
    requires RunTo(t, ')', j + 2, 1) == Some(k)
    ensures LinkMatch(t, t[1..j], t[j + 2..k])
  {
    var text, url := t[1..j], t[j + 2..k];
    assert ']' !in text by {
      assert forall q | 0 <= q < |text| :: text[q] == t[q + 1];
    }
    assert ')' !in url by {
      assert forall q | 0 <= q < |url| :: url[q] == t[q + j + 2];
    }
    assert StartsWith(t, "[") by {
      assert t[..1] == [t[0]];
    }
    StartsWithAppend(t, "[", text);
    StartsWithAppend(t, "[" + text, "](");
    StartsWithAppend(t, "[" + text + "](", url);
    assert OccursAt(t, ")", k) by {
      assert t[k..k + 1] == [t[k]];
    }
    StartsWithAppend(t, "[" + text + "](" + url, ")");
  }

  // ---------------------------------------------------------------------
  // The five global replacements.

  datatype Pattern = Bold | Italic | Code | Image | Link

  /** The shape of one replacement step: how many characters the match at
      the start of a text covers, and what replaces them. */
  type Stepper = string -> Option<(nat, string)>

  /** A step that matches consumes at least one character and no more than
      the text holds. */
  ghost predicate Advances(step: Stepper)
  {
    forall u :: step(u).Some? ==> 0 < step(u).value.0 <= |u|
  }

  /** `t.replace(/pattern/g, ...)`: the leftmost match is replaced, the search
      resumes right after it, and text between matches is kept. */
  function Scan(step: Stepper, t: string): string
    requires Advances(step)
    decreases |t|, 1
  {
    if t == [] then [] else ScanFront(step, t)
  }

  /** The scan of a non-empty text: the match at its front is replaced, or
      its first character is kept, and the scan goes on after that. */
  function ScanFront(step: Stepper, t: string): string
    requires Advances(step) && t != []
    decreases |t|, 0
  {
    match step(t)
    case Some((n, rep)) => rep + Scan(step, t[n..])
    case None => [t[0]] + Scan(step, t[1..])
  }

  /** The character every match of the pattern starts with. */
  function Lead(p: Pattern): char
  {
    match p
    case Bold => '*'
    case Italic => '*'
    case Code => '`'
    case Image => '!'
    case Link => '['
  }

  /** `<img src="url" alt="alt" loading="lazy">`. */
  function ImgTag(url: string, alt: string): string
  {
    "<img src=\"" + url + "\" alt=\"" + alt + "\" loading=\"lazy\">"
  }

  /** `<a href="url">text</a>`. */
  function AnchorTag(url: string, text: string): string
  {
    "<a href=\"" + url + "\">" + text + "</a>"
  }

  lemma LazyShape(t: string, delim: string, g: string)
    requires |delim| > 0 && StartsWith(t, delim + g + delim)
    ensures |g| + 2 * |delim| <= |t| && t[0] == delim[0]
    ensures t[|delim|..|delim| + |g|] == g && t[|delim| + |g|] == delim[0]
  {
    StartsWithConcat(t, delim, g, delim);
    assert t[0] == t[..|delim|][0];
    assert t[|delim| + |g|] == t[|delim| + |g|..|delim| + |g| + |delim|][0];
  }

  lemma CodeShape(t: string, g: string)
    requires CodeMatch(t, g)
    ensures |g| + 2 <= |t| && t[0] == '`' && t[1..1 + |g|] == g && t[1 + |g|] == '`'
  {
    LazyShape(t, "`", g);
  }

  lemma ImageShape(t: string, alt: string, url: string)
    requires ImageMatch(t, alt, url)
    ensures |alt| + |url| + 5 <= |t| && t[0] == '!' && t[1] == '['
    ensures t[2..2 + |alt|] == alt && t[2 + |alt|] == ']'
    ensures t[4 + |alt|..4 + |alt| + |url|] == url && t[4 + |alt| + |url|] == ')'
  {
    var j := 2 + |alt|;
    assert "![" + alt + "](" + url + ")" == ("![" + alt + "](" + url) + [')'];
    BracketRun(t, "![" + alt + "](", url, ')');
    StartsWithAppend(t, "![" + alt + "](" + url, ")");
    StartsWithAppend(t, "![" + alt + "](", url);
    assert "![" + alt + "](" == ("![" + alt) + [']'] + "(";
    StartsWithAppend(t, "![" + alt + "]", "(");
    StartsWithAppend(t, "![" + alt, "]");
    BracketRun(t, "![", alt, ']');
    StartsWithAppend(t, "![", alt);
    assert t[0] == t[..2][0] && t[1] == t[..2][1];
  }

  lemma LinkShape(t: string, text: string, url: string)
    requires LinkMatch(t, text, url)
    ensures |text| + |url| + 4 <= |t| && t[0] == '['
    ensures t[1..1 + |text|] == text && t[1 + |text|] == ']'
    ensures t[3 + |text|..3 + |text| + |url|] == url && t[3 + |text| + |url|] == ')'
  {
    var j := 1 + |text|;
    assert "[" + text + "](" + url + ")" == ("[" + text + "](" + url) + [')'];
    BracketRun(t, "[" + text + "](", url, ')');
    StartsWithAppend(t, "[" + text + "](" + url, ")");
    StartsWithAppend(t, "[" + text + "](", url);
    assert "[" + text + "](" == ("[" + text) + [']'] + "(";
    StartsWithAppend(t, "[" + text + "]", "(");
    StartsWithAppend(t, "[" + text, "]");
    BracketRun(t, "[", text, ']');
    StartsWithAppend(t, "[", text);
    assert t[0] == t[..1][0];
  }

  /** Bold and italic: `open + group + close` for the shortest group. */
  function LazyStep(t: string, delim: string, open: string, close: string): (r: Option<(nat, string)>)
    requires |delim| > 0
    ensures r.Some? ==> 0 < r.value.0 <= |t| && t[0] == delim[0]
  {
    match LazyAt(t, delim)
    case None => None
    case Some(g) =>
      LazyShape(t, delim, g);
      Some((|g| + 2 * |delim|, open + g + close))
  }

  function CodeStep(t: string): (r: Option<(nat, string)>)
    ensures r.Some? ==> 0 < r.value.0 <= |t| && t[0] == '`'
  {
    match CodeAt(t)
    case None => None
    case Some(g) =>
      assert CodeMatch(t, g);
      CodeShape(t, g);
      Some((|g| + 2, "<code>" + g + "</code>"))
  }

  /** An image whose URL fails the gate leaves only its alt text. */
  function ImageStep(t: string): (r: Option<(nat, string)>)
    ensures r.Some? ==> 0 < r.value.0 <= |t| && t[0] == '!' && 1 < |t| && t[1] == '['
  {
    match ImageAt(t)
    case None => None
    case Some((alt, url)) =>
      assert ImageMatch(t, alt, url);
      ImageShape(t, alt, url);
      Some((|alt| + |url| + 5, if IsSafeUrl(url) then ImgTag(url, alt) else alt))
  }

  /** A link whose URL fails the gate leaves only its text. */
  function LinkStep(t: string): (r: Option<(nat, string)>)
    ensures r.Some? ==> 0 < r.value.0 <= |t| && t[0] == '['
  {
    match LinkAt(t)
    case None => None
    case Some((text, url)) =>
      assert LinkMatch(t, text, url);
      LinkShape(t, text, url);
      Some((|text| + |url| + 4, if IsSafeUrl(url) then AnchorTag(url, text) else text))
  }

  function Step(p: Pattern, t: string): (r: Option<(nat, string)>)
    ensures r.Some? ==> 0 < r.value.0 <= |t| && t[0] == Lead(p)
    ensures r.Some? && p == Image ==> 1 < |t| && t[1] == '['
  {
    match p
    case Bold => LazyStep(t, "**", "<strong>", "</strong>")
    case Italic => LazyStep(t, "*", "<em>", "</em>")
    case Code => CodeStep(t)
    case Image => ImageStep(t)
    case Link => LinkStep(t)
  }

  function StepOf(p: Pattern): (step: Stepper)
    ensures Advances(step)
  {
    u => Step(p, u)
  }

  function Apply(p: Pattern, t: string): string
  {
    Scan(StepOf(p), t)
  }

  /** `inlineFormat`. */
  function InlineFormat(t: string): string
  {
    Apply(Link, Apply(Image, Apply(Code, Apply(Italic, Apply(Bold, t)))))
  }

  // ---------------------------------------------------------------------
  // The scan is the leftmost, non-overlapping global replacement.

  lemma ScanCons(step: Stepper, t: string)
    requires Advances(step) && t != [] && step(t).None?
    ensures Scan(step, t) == [t[0]] + Scan(step, t[1..])
  {
    assert Scan(step, t) == ScanFront(step, t);
  }

  lemma ScanSome(step: Stepper, t: string, n: nat, rep: string)
    requires Advances(step) && t != [] && step(t) == Some((n, rep))
    ensures n <= |t| && Scan(step, t) == rep + Scan(step, t[n..])
  {
    assert Scan(step, t) == ScanFront(step, t);
  }

  /** Text in which the pattern matches nowhere is left as it is. */
  lemma {:induction false} ScanNoMatch(step: Stepper, t: string)
    requires Advances(step)
    requires forall q | 0 <= q < |t| :: step(t[q..]).None?
    ensures Scan(step, t) == t
    decreases |t|
  {
    if t != [] {
      assert t[0..] == t;
      ScanCons(step, t);
      forall q | 0 <= q < |t[1..]| ensures step(t[1..][q..]).None? {
        assert t[1..][q..] == t[q + 1..];
      }
      ScanNoMatch(step, t[1..]);
    }
  }

  lemma NoMatchBefore(step: Stepper, t: string, i: nat)
    requires 0 < i <= |t|
    requires forall q | 0 <= q < i :: step(t[q..]).None?
    ensures forall q | 0 <= q < i - 1 :: step(t[1..][q..]).None?
    ensures t[1..][i - 1..] == t[i..]
  {
    var u := t[1..];
    forall q | 0 <= q < i - 1 ensures step(u[q..]).None? {
      assert u[q..] == t[q + 1..];
    }
  }

  lemma SliceGlue(t: string, i: nat, n: nat, rep: string, w: string)
    requires 0 < i && i + n <= |t|
    ensures [t[0]] + (t[1..][..i - 1] + rep + w) == t[..i] + rep + w
    ensures t[1..][i - 1 + n..] == t[i + n..]
  {
    assert t[..i] == [t[0]] + t[1..][..i - 1];
  }

  lemma PrefixGlue(t: string, k: nat, w: string)
    requires 0 < k <= |t|
    ensures [t[0]] + (t[1..][..k - 1] + w) == t[..k] + w
  {
    assert t[..k] == [t[0]] + t[1..][..k - 1];
  }

  /** A scan copies text verbatim up to the first place its pattern matches. */
  lemma {:induction false} ScanPrefix(step: Stepper, t: string, k: nat)
    requires Advances(step) && k <= |t|
    requires forall q | 0 <= q < k :: step(t[q..]).None?
    ensures Scan(step, t) == t[..k] + Scan(step, t[k..])
    decreases k
  {
    assert t[0..] == t;
    if k > 0 {
      ScanCons(step, t);
      NoMatchBefore(step, t, k);
      ScanPrefix(step, t[1..], k - 1);
      PrefixGlue(t, k, Scan(step, t[k..]));
    } else {
      assert t[..0] == [];
    }
  }

  /** The first match is the leftmost one: everything before it is kept,
      it is replaced, and the scan goes on after it. */
  lemma {:induction false} ScanLeftmost(step: Stepper, t: string, i: nat, n: nat, rep: string)
    requires Advances(step)
    requires i < |t| && step(t[i..]) == Some((n, rep))
    requires forall q | 0 <= q < i :: step(t[q..]).None?
    ensures i + n <= |t| && Scan(step, t) == t[..i] + rep + Scan(step, t[i + n..])
    decreases i
  {
    assert t[0..] == t;
    if i == 0 {
      ScanSome(step, t, n, rep);
      assert t[..0] + rep == rep;
    } else {
      ScanCons(step, t);
      NoMatchBefore(step, t, i);
      ScanLeftmost(step, t[1..], i - 1, n, rep);
      SliceGlue(t, i, n, rep, Scan(step, t[i + n..]));
    }
  }

  /** A pattern whose first character is absent never matches, and the
      pass leaves the text as it is. */
  lemma ApplyPlain(p: Pattern, t: string)
    requires Lead(p) !in t || (p == Image && '[' !in t)
    ensures Apply(p, t) == t
  {
    forall q | 0 <= q < |t| ensures Step(p, t[q..]).None? {
      NoLeadAt(p, t, q);
    }
    var step := StepOf(p);
    assert forall q | 0 <= q < |t| :: step(t[q..]) == Step(p, t[q..]);
    ScanNoMatch(step, t);
  }

  lemma NoLeadAt(p: Pattern, t: string, q: nat)
    requires Lead(p) !in t || (p == Image && '[' !in t)
    requires q < |t|
    ensures Step(p, t[q..]).None?
  {
    var u := t[q..];
    assert u[0] == t[q] && t[q] in t;
    if Lead(p) in t {
      assert q + 1 < |t| ==> u[1] == t[q + 1] && t[q + 1] in t;
    }
  }

  /** Text without `*`, `` ` `` or `[` comes out of the formatter unchanged. */
  lemma InlineFormatPlain(t: string)
    requires '*' !in t && '`' !in t && '[' !in t
    ensures InlineFormat(t) == t
  {
    ApplyPlain(Bold, t);
    ApplyPlain(Italic, t);
    ApplyPlain(Code, t);
    ApplyPlain(Image, t);
    ApplyPlain(Link, t);
  }

  /** One `**` span in text that holds nothing else the formatter reacts to
      becomes a `<strong>` element, and the text around it is kept. */
  lemma BoldOnly(a: string, g: string, b: string)
    requires |g| >= 1 && NoBreak(g)
    requires '*' !in a && '*' !in g && '*' !in b
    requires '`' !in a && '`' !in g && '`' !in b
    requires '[' !in a && '[' !in g && '[' !in b
    ensures InlineFormat(a + "**" + g + "**" + b) == a + "<strong>" + g + "</strong>" + b
  {
    BoldPass(a, g, b);
    var u := a + "<strong>" + g + "</strong>" + b;
    Absent5('*', a, "<strong>", g, "</strong>", b);
    Absent5('`', a, "<strong>", g, "</strong>", b);
    Absent5('[', a, "<strong>", g, "</strong>", b);
    AfterBold(u);
  }

  /** The passes after bold leave text without `*`, `` ` `` or `[` alone. */
  lemma AfterBold(u: string)
    requires '*' !in u && '`' !in u && '[' !in u
    ensures Apply(Link, Apply(Image, Apply(Code, Apply(Italic, u)))) == u
  {
    ApplyPlain(Italic, u);
    ApplyPlain(Code, u);
    ApplyPlain(Image, u);
    ApplyPlain(Link, u);
  }

  /** The bold pass replaces the one span and keeps the rest. */
  lemma BoldPass(a: string, g: string, b: string)
    requires |g| >= 1 && NoBreak(g) && '*' !in a && '*' !in g && '*' !in b
    ensures Apply(Bold, a + "**" + g + "**" + b) == a + "<strong>" + g + "</strong>" + b
  {
    var t := a + "**" + g + "**" + b;
    var step := StepOf(Bold);
    BoldStep(a, g, b);
    assert step(t[|a|..]) == Step(Bold, t[|a|..]);
    BoldSlices(a, g, b);
    NoBoldBefore(t, a);
    ScanLeftmost(step, t, |a|, |g| + 4, "<strong>" + g + "</strong>");
    ApplyPlain(Bold, b);
    Regroup3(a, "<strong>", g, "</strong>", b);
  }

  lemma BoldSlices(a: string, g: string, b: string)
    ensures var t := a + "**" + g + "**" + b;
      t[..|a|] == a && t[|a| + |g| + 4..] == b
  {
  }

  /** No bold match starts inside a `*`-free prefix. */
  lemma NoBoldBefore(t: string, a: string)
    requires |a| <= |t| && t[..|a|] == a && '*' !in a
    ensures forall q | 0 <= q < |a| :: StepOf(Bold)(t[q..]).None?
  {
    forall q | 0 <= q < |a| ensures StepOf(Bold)(t[q..]).None? {
      assert t[q..][0] == a[q];
      assert StepOf(Bold)(t[q..]) == Step(Bold, t[q..]);
    }
  }

  lemma Regroup3(a: string, x: string, y: string, z: string, b: string)
    ensures a + (x + y + z) + b == a + x + y + z + b
  {
  }

  lemma Absent5(c: char, a: string, x: string, y: string, z: string, b: string)
    requires c !in a && c !in x && c !in y && c !in z && c !in b
    ensures c !in a + x + y + z + b
  {
  }

  /** The bold step at the `**` takes the whole group, since the group holds
      no `*`. */
  lemma BoldStep(a: string, g: string, b: string)
    requires |g| >= 1 && NoBreak(g) && '*' !in g
    ensures var t := a + "**" + g + "**" + b;
      Step(Bold, t[|a|..]) == Some((|g| + 4, "<strong>" + g + "</strong>"))
  {
    var v := "**" + g + "**" + b;
    assert (a + "**" + g + "**" + b)[|a|..] == v;
    assert StartsWith(v, "**" + g + "**") by {
      assert v[..|g| + 4] == "**" + g + "**";
    }
    LazyAtShortest(v, "**", g);
    var h := LazyAt(v, "**").value;
    assert v[2 + |h|] == '*' by {
      assert v[..|h| + 4] == "**" + h + "**";
      assert v[2 + |h|] == v[..|h| + 4][2 + |h|];
    }
    assert forall i | 2 <= i < 2 + |g| :: v[i] == g[i - 2] != '*';
    assert |h| == |g|;
    assert h == v[2..2 + |g|] == g by {
      assert v[..|h| + 4] == "**" + h + "**";
      assert v[2..2 + |g|] == v[..|h| + 4][2..2 + |h|];
    }
  }

  // ---------------------------------------------------------------------
  // Links and images go through the URL gate.

  /** Where `![alt](url)` matches, an image is written only for a URL that
      passes the gate; otherwise only the alt text is left. */
  lemma ImageStepGate(t: string, alt: string, url: string)
    requires ImageMatch(t, alt, url)
    ensures Step(Image, t) == Some((|alt| + |url| + 5, if IsSafeUrl(url) then ImgTag(url, alt) else alt))
  {
    ImageAtMatch(t, alt, url);
  }

  /** Where `[text](url)` matches, an anchor is written only for a URL that
      passes the gate; otherwise only the link text is left. */
  lemma LinkStepGate(t: string, text: string, url: string)
    requires LinkMatch(t, text, url)
    ensures Step(Link, t) == Some((|text| + |url| + 4, if IsSafeUrl(url) then AnchorTag(url, text) else text))
  {
    LinkAtMatch(t, text, url);
  }

  /** Where a pattern matches at the front, the pass replaces the match and
      goes on after it. */
  lemma ApplyStep(p: Pattern, t: string, n: nat, rep: string)
    requires Step(p, t) == Some((n, rep))
    ensures n <= |t| && Apply(p, t) == rep + Apply(p, t[n..])
  {
    var step := StepOf(p);
    assert step(t) == Some((n, rep));
    ScanSome(step, t, n, rep);
  }

  /** Text without `*`, `` ` `` or `!` is changed by the link pass alone. */
  lemma InlineFormatLinksOnly(t: string)
    requires '*' !in t && '`' !in t && '!' !in t
    ensures InlineFormat(t) == Apply(Link, t)
  {
    ApplyPlain(Bold, t);
    ApplyPlain(Italic, t);
    ApplyPlain(Code, t);
    ApplyPlain(Image, t);
  }

  lemma LinkMatchFront(text: string, url: string, rest: string)
    requires |text| >= 1 && ']' !in text && |url| >= 1 && ')' !in url
    ensures LinkMatch("[" + text + "](" + url + ")" + rest, text, url)
  {
    var m := "[" + text + "](" + url + ")";
    assert (m + rest)[..|m|] == m;
  }

  /** A link at the front whose URL fails the gate leaves only its text. */
  lemma LinkDegrades(t: string, text: string, url: string)
    requires LinkMatch(t, text, url) && !IsSafeUrl(url)
    ensures |text| + |url| + 4 <= |t|
    ensures Apply(Link, t) == text + Apply(Link, t[|text| + |url| + 4..])
  {
    LinkStepGate(t, text, url);
    ApplyStep(Link, t, |text| + |url| + 4, text);
  }

  /** A link whose URL uses a script scheme, in any letter case and after any
      leading whitespace, leaves only its text. Since the URL group stops at
      the first `)`, `[x](javascript:alert(1))` matches with the URL
      `javascript:alert(1` and leaves `x` followed by the unmatched `)`. */
  lemma ScriptLinkDegrades(text: string, url: string, rest: string)
    requires |text| >= 1 && ']' !in text && |url| >= 1 && ')' !in url
    requires StartsWith(Lower(TrimStart(url)), "javascript:")
    ensures Apply(Link, "[" + text + "](" + url + ")" + rest) == text + Apply(Link, rest)
  {
    var t := "[" + text + "](" + url + ")" + rest;
    LinkMatchFront(text, url, rest);
    ScriptSchemesFail(url);
    LinkDegrades(t, text, url);
    assert t[|text| + |url| + 4..] == rest;
  }
}
