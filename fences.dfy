/**
 * The first two passes of the Markdown converter: code fences are cut out of
 * the line list and replaced by placeholder lines, then every other line is
 * HTML-escaped unless raw HTML is allowed.
 *
 * The placeholder is a tagged line (`FencePh(k)`) rather than a text line
 * carrying a reserved prefix, so a text line can never be taken for one.
 */
module Fences {
  import opened JsText
  import opened Escape

  /** A line after fence extraction: text, or the place of fence number `k`. */
  datatype Line = Plain(s: string) | FencePh(k: nat)

  /** `\w`: an ASCII letter, digit or underscore. */
  predicate IsWordChar(c: char)
  {
    'a' <= c <= 'z' || 'A' <= c <= 'Z' || '0' <= c <= '9' || c == '_'
  }

  /** The longest run of word characters at the start of `s`. */
  function WordPrefix(s: string): (r: string)
    ensures StartsWith(s, r)
    ensures forall i | 0 <= i < |r| :: IsWordChar(r[i])
    ensures |r| < |s| ==> !IsWordChar(s[|r|])
  {
    if s != [] && IsWordChar(s[0]) then
      var r := [s[0]] + WordPrefix(s[1..]);
      assert s == [s[0]] + s[1..];
      r
    else []
  }

  /** `/^```(\w*)/`: an opening fence line. */
  predicate OpensFence(line: string)
  {
    StartsWith(line, "```")
  }

  /** The language tag of an opening fence: the word characters right after
      the backticks; anything after them is ignored. */
  function FenceLang(line: string): string
    requires OpensFence(line)
  {
    WordPrefix(line[3..])
  }

  /** `/^```\s*$/`: a closing fence line. */
  predicate ClosesFence(line: string)
  {
    StartsWith(line, "```") && AllSpace(line[3..])
  }

  function LangAttr(lang: string): string
  {
    if lang == "" then "" else " class=\"language-" + lang + "\""
  }

  /** The block a closed fence becomes: its lines joined and escaped, whether
      or not raw HTML is allowed elsewhere. */
  function FenceHtml(lang: string, body: seq<string>): string
  {
    "<pre><code" + LangAttr(lang) + ">" + EscapeHtml(Join(body, "\n")) + "</code></pre>"
  }

  // ---------------------------------------------------------------------
  // The extraction state machine.

  /** The loop's variables: `inFence`, `fenceLang`, `fenceLines`,
      `codeFences` and `processed`. */
  datatype Extraction = Extraction(
    inFence: bool, lang: string, body: seq<string>, fences: seq<string>, out: seq<Line>)

  const Initial: Extraction := Extraction(false, "", [], [], [])

  /** What one line does to the state. */
  function Next(st: Extraction, line: string): Extraction
  {
    if !st.inFence && OpensFence(line) then
      st.(inFence := true, lang := FenceLang(line), body := [])
    else if st.inFence && ClosesFence(line) then
      st.(inFence := false, fences := st.fences + [FenceHtml(st.lang, st.body)],
          out := st.out + [FencePh(|st.fences|)])
    else if st.inFence then
      st.(body := st.body + [line])
    else
      st.(out := st.out + [Plain(line)])
  }

  /** The state after the lines `lines`, read in order from `st`. */
  function Run(st: Extraction, lines: seq<string>): Extraction
  {
    if lines == [] then st else Next(Run(st, lines[..|lines| - 1]), lines[|lines| - 1])
  }

  /** `markdownToHtml`'s first loop. */
  method ExtractFences(lines: seq<string>) returns (processed: seq<Line>, codeFences: seq<string>)
    ensures processed == Run(Initial, lines).out && codeFences == Run(Initial, lines).fences
  {
    var inFence := false;
    var fenceLang := "";
    var fenceLines: seq<string> := [];
    codeFences := [];
    processed := [];
    var i := 0;
    while i < |lines|
      invariant 0 <= i <= |lines|
      invariant Extraction(inFence, fenceLang, fenceLines, codeFences, processed) == Run(Initial, lines[..i])
    {
      var line := lines[i];
      assert lines[..i + 1][..i] == lines[..i];
      if !inFence && StartsWith(line, "```") {
        inFence := true;
        fenceLang := FenceLang(line);
        fenceLines := [];
      } else if inFence && StartsWith(line, "```") && AllSpace(line[3..]) {
        inFence := false;
        var code := EscapeHtml(Join(fenceLines, "\n"));
        var langAttr := if fenceLang != "" then " class=\"language-" + fenceLang + "\"" else "";
        codeFences := codeFences + ["<pre><code" + langAttr + ">" + code + "</code></pre>"];
        processed := processed + [FencePh(|codeFences| - 1)];
      } else if inFence {
        fenceLines := fenceLines + [line];
      } else {
        processed := processed + [Plain(line)];
      }
      i := i + 1;
    }
    assert lines[..i] == lines;
  }

  // ---------------------------------------------------------------------
  // What the state machine does to whole runs of lines.

  lemma {:induction false} RunConcat(st: Extraction, a: seq<string>, b: seq<string>)
    ensures Run(st, a + b) == Run(Run(st, a), b)
    decreases |b|
  {
    if b == [] {
      assert a + b == a;
    } else {
      var n := |b| - 1;
      assert (a + b)[..|a + b| - 1] == a + b[..n];
      RunConcat(st, a, b[..n]);
    }
  }

  /** Outside a fence, lines that open none are kept, in order, as text. */
  lemma {:induction false} RunPlain(st: Extraction, lines: seq<string>)
    requires !st.inFence
    requires forall i | 0 <= i < |lines| :: !OpensFence(lines[i])
    ensures Run(st, lines) == st.(out := st.out + seq(|lines|, i requires 0 <= i < |lines| => Plain(lines[i])))
    decreases |lines|
  {
    if lines != [] {
      var n := |lines| - 1;
      RunPlain(st, lines[..n]);
    } else {
      assert st.out + [] == st.out;
    }
  }

  /** Inside a fence, lines that do not close it are collected. */
  lemma {:induction false} RunBody(st: Extraction, body: seq<string>)
    requires st.inFence
    requires forall i | 0 <= i < |body| :: !ClosesFence(body[i])
    ensures Run(st, body) == st.(body := st.body + body)
    decreases |body|
  {
    if body != [] {
      var n := |body| - 1;
      RunBody(st, body[..n]);
      assert st.body + body[..n] + [body[n]] == st.body + body;
    } else {
      assert st.body + [] == st.body;
    }
  }

  /** A closed fence becomes exactly one placeholder line, numbered by how
      many fences came before it, and one escaped `<pre><code>` block. */
  lemma ClosedFence(st: Extraction, open: string, body: seq<string>, close: string)
    requires !st.inFence && OpensFence(open) && ClosesFence(close)
    requires forall i | 0 <= i < |body| :: !ClosesFence(body[i])
    ensures var r := Run(st, [open] + body + [close]);
      && !r.inFence
      && r.fences == st.fences + [FenceHtml(FenceLang(open), body)]
      && r.out == st.out + [FencePh(|st.fences|)]
  {
    var entered := Next(st, open);
    assert Run(st, [open]) == entered;
    RunBody(entered, body);
    RunConcat(st, [open], body);
    RunConcat(st, [open] + body, [close]);
    assert entered.body + body == body;
  }

  /** A fence that is never closed produces nothing: the text and the fence
      list stay as they were before its opening line. */
  lemma UnclosedFence(st: Extraction, open: string, body: seq<string>)
    requires !st.inFence && OpensFence(open)
    requires forall i | 0 <= i < |body| :: !ClosesFence(body[i])
    ensures var r := Run(st, [open] + body);
      r.inFence && r.fences == st.fences && r.out == st.out
  {
    var entered := Next(st, open);
    assert Run(st, [open]) == entered;
    RunBody(entered, body);
    RunConcat(st, [open], body);
  }

  /** Text without fences passes through unchanged and yields no fence. */
  lemma NoFences(lines: seq<string>)
    requires forall i | 0 <= i < |lines| :: !OpensFence(lines[i])
    ensures Run(Initial, lines).fences == []
    ensures Run(Initial, lines).out == seq(|lines|, i requires 0 <= i < |lines| => Plain(lines[i]))
  {
    RunPlain(Initial, lines);
  }

  // ---------------------------------------------------------------------
  // Placeholders number the fences 0, 1, 2, ... in order.

  /** The fence numbers the placeholder lines carry, in order. */
  function Placeholders(ls: seq<Line>): (r: seq<nat>)
    ensures |r| <= |ls|
  {
    if ls == [] then []
    else
      var last := ls[|ls| - 1];
      Placeholders(ls[..|ls| - 1]) + (if last.FencePh? then [last.k] else [])
  }

  function Upto(n: nat): (r: seq<nat>)
    ensures |r| == n && forall j | 0 <= j < n :: r[j] == j
  {
    seq(n, j requires 0 <= j < n => j)
  }

  /** Every fence has exactly one placeholder, and they appear in fence order. */
  ghost predicate Numbered(st: Extraction)
  {
    Placeholders(st.out) == Upto(|st.fences|)
  }

  lemma NextNumbered(st: Extraction, line: string)
    requires Numbered(st)
    ensures Numbered(Next(st, line))
  {
    var r := Next(st, line);
    if |r.out| > |st.out| {
      assert r.out[..|r.out| - 1] == st.out;
      if r.out[|r.out| - 1].FencePh? {
        assert Upto(|st.fences|) + [|st.fences|] == Upto(|st.fences| + 1);
      } else {
        assert Placeholders(r.out) == Placeholders(st.out) + [];
      }
    }
  }

  lemma {:induction false} RunNumbered(lines: seq<string>)
    ensures Numbered(Run(Initial, lines))
    decreases |lines|
  {
    if lines == [] {
      assert Upto(0) == [];
    } else {
      var n := |lines| - 1;
      RunNumbered(lines[..n]);
      NextNumbered(Run(Initial, lines[..n]), lines[n]);
    }
  }

  /** Every placeholder names a fence that exists. */
  lemma {:induction false} PlaceholderInRange(ls: seq<Line>, n: nat, i: nat)
    requires Placeholders(ls) == Upto(n) && i < |ls| && ls[i].FencePh?
    ensures ls[i].k < n
    decreases |ls|
  {
    var m := |ls| - 1;
    var init := ls[..m];
    if i == m {
      assert Placeholders(ls) == Placeholders(init) + [ls[m].k];
      assert ls[m].k == Upto(n)[n - 1];
    } else {
      assert init[i] == ls[i];
      if ls[m].FencePh? {
        assert Placeholders(ls) == Placeholders(init) + [ls[m].k];
        assert Placeholders(init) == Upto(n)[..n - 1] == Upto(n - 1);
        PlaceholderInRange(init, n - 1, i);
      } else {
        assert Placeholders(ls) == Placeholders(init) + [];
        PlaceholderInRange(init, n, i);
      }
    }
  }

  // ---------------------------------------------------------------------
  // Pass 2: escaping.

  /** `processed.map(...)`: placeholder lines are kept; text lines are
      escaped unless raw HTML is allowed. */
  function EscapeLines(ls: seq<Line>, allowHtml: bool): (r: seq<Line>)
    ensures |r| == |ls|
    ensures forall i | 0 <= i < |ls| :: r[i].FencePh? == ls[i].FencePh?
    ensures forall i | 0 <= i < |ls| && ls[i].FencePh? :: r[i] == ls[i]
    ensures forall i | 0 <= i < |ls| && ls[i].Plain? ::
      r[i].s == (if allowHtml then ls[i].s else EscapeHtml(ls[i].s))
  {
    seq(|ls|, i requires 0 <= i < |ls| =>
      if ls[i].FencePh? || allowHtml then ls[i] else Plain(EscapeHtml(ls[i].s)))
  }

  /** With raw HTML allowed the lines are left alone; otherwise every text
      line becomes escaped text that decodes back to the line, and the
      placeholders stay where they are. */
  lemma EscapeLinesDecode(ls: seq<Line>, allowHtml: bool)
    ensures allowHtml ==> EscapeLines(ls, allowHtml) == ls
    ensures forall i | 0 <= i < |ls| && ls[i].FencePh? :: EscapeLines(ls, allowHtml)[i] == ls[i]
    ensures !allowHtml ==> forall i | 0 <= i < |ls| && ls[i].Plain? ::
      && EscapeLines(ls, allowHtml)[i].Plain?
      && Escaped(EscapeLines(ls, allowHtml)[i].s, false)
      && Unescape(EscapeLines(ls, allowHtml)[i].s, false) == Some(ls[i].s)
  {
    var r := EscapeLines(ls, allowHtml);
    if allowHtml {
      assert forall i | 0 <= i < |ls| :: r[i] == ls[i];
    } else {
      forall i | 0 <= i < |ls| && ls[i].Plain?
        ensures r[i].Plain? && Escaped(r[i].s, false) && Unescape(r[i].s, false) == Some(ls[i].s)
      {
        EscapeHtmlSafe(ls[i].s);
        EscapeHtmlRoundTrip(ls[i].s);
      }
    }
  }

  /** Escaping keeps the fence numbering. */
  lemma {:induction false} EscapeKeepsPlaceholders(ls: seq<Line>, allowHtml: bool)
    ensures Placeholders(EscapeLines(ls, allowHtml)) == Placeholders(ls)
    decreases |ls|
  {
    if ls != [] {
      var m := |ls| - 1;
      var e := EscapeLines(ls, allowHtml);
      assert e[..m] == EscapeLines(ls[..m], allowHtml);
      EscapeKeepsPlaceholders(ls[..m], allowHtml);
    }
  }
}
