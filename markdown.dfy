/**
 * The block level of the Markdown converter: an index-driven loop over the
 * escaped lines that recognises, in first-match order, a fence placeholder,
 * a blank line, a heading, a horizontal rule, a blockquote, an unordered
 * list, an ordered list and a paragraph; and the paragraph grouping inside
 * blockquotes.
 */
module Markdown {
  import opened JsText
  import opened Fences
  import Inline

  // ---------------------------------------------------------------------
  // Line tests, one per pattern of the block loop.

  /** The heading level of a line: the length of `#{1,3}` in
      `/^(#{1,3})\s+(.*)/`, or 0 when the line is not a heading. `#` is not
      whitespace, so at most one of the cases applies. */
  function HeadingLevel(s: string): nat
  {
    if |s| >= 2 && s[0] == '#' && IsSpace(s[1]) then 1
    else if |s| >= 3 && s[0] == '#' && s[1] == '#' && IsSpace(s[2]) then 2
    else if |s| >= 4 && s[0] == '#' && s[1] == '#' && s[2] == '#' && IsSpace(s[3]) then 3
    else 0
  }

  /** `/^#{1,3}\s/`, which is also where the heading pattern matches. */
  predicate IsHeading(s: string)
  {
    HeadingLevel(s) != 0
  }

  /** `(.*)`: the text up to the first line terminator. */
  function UpToLineEnd(s: string): (r: string)
    ensures StartsWith(s, r) && forall i | 0 <= i < |r| :: !IsLineTerminator(r[i])
    ensures |r| < |s| ==> IsLineTerminator(s[|r|])
  {
    if s == [] || IsLineTerminator(s[0]) then []
    else
      var r := [s[0]] + UpToLineEnd(s[1..]);
      assert s == [s[0]] + s[1..];
      r
  }

  /** The second group of the heading pattern: what follows the whitespace
      run after the `#`s, up to a line terminator. */
  function HeadingText(s: string): string
    requires IsHeading(s)
  {
    UpToLineEnd(TrimStart(s[HeadingLevel(s)..]))
  }

  predicate IsRuleChar(c: char)
  {
    c == '*' || c == '-' || c == '_'
  }

  /** `/^(\*{3,}|-{3,}|_{3,})\s*$/` on the trimmed line: three or more of one
      of `*`, `-`, `_` and nothing else. */
  predicate IsRule(s: string)
  {
    var t := Trim(s);
    |t| >= 3 && IsRuleChar(t[0]) && forall i | 0 <= i < |t| :: t[i] == t[0]
  }

  /** A line that starts a blockquote: `&gt; ` at the front, or exactly
      `&gt;` (the escaped `>`). */
  predicate OpensQuote(s: string)
  {
    StartsWith(s, "&gt; ") || s == "&gt;"
  }

  /** `replace(/^&gt;\s?/, '')` on a quote line. */
  function QuoteText(s: string): string
  {
    if StartsWith(s, "&gt; ") then s[5..] else ""
  }

  /** `/^[-*+]\s+/`. */
  predicate IsBullet(s: string)
  {
    |s| >= 2 && (s[0] == '-' || s[0] == '*' || s[0] == '+') && IsSpace(s[1])
  }

  /** `replace(/^[-*+]\s+/, '')`. */
  function BulletText(s: string): string
  {
    if s == [] then "" else TrimStart(s[1..])
  }

  /** The number of ASCII digits the line starts with. */
  function DigitRun(s: string): (n: nat)
    ensures n <= |s| && forall i | 0 <= i < n :: '0' <= s[i] <= '9'
    ensures n < |s| ==> !('0' <= s[n] <= '9')
  {
    if s != [] && '0' <= s[0] <= '9' then 1 + DigitRun(s[1..]) else 0
  }

  /** `/^\d+\.\s+/`. */
  predicate IsNumbered(s: string)
  {
    var n := DigitRun(s);
    1 <= n && n + 1 < |s| && s[n] == '.' && IsSpace(s[n + 1])
  }

  /** `replace(/^\d+\.\s+/, '')`. */
  function NumberedText(s: string): string
  {
    if DigitRun(s) < |s| then TrimStart(s[DigitRun(s) + 1..]) else ""
  }

  /** A line `trim()` turns into the empty string. */
  predicate Blank(s: string)
  {
    AllSpace(s)
  }

  /** The paragraph loop's condition: a line that starts no other block.
      Unlike the blockquote test it does not stop at a bare `&gt;`. */
  predicate Continues(s: string)
  {
    && !Blank(s) && !IsHeading(s) && !IsRule(s)
    && !IsBullet(s) && !IsNumbered(s) && !StartsWith(s, "&gt; ")
  }

  // ---------------------------------------------------------------------
  // Runs of lines.

  datatype RunKind = QuoteRun | BulletRun | NumberRun | ParaRun

  /** The condition of the inner loop that collects a run of kind `kind`. */
  predicate InRun(kind: RunKind, l: Line)
  {
    && l.Plain?
    && match kind
       case QuoteRun => OpensQuote(l.s)
       case BulletRun => IsBullet(l.s)
       case NumberRun => IsNumbered(l.s)
       case ParaRun => Continues(l.s)
  }

  function Test(kind: RunKind): Line -> bool
  {
    l => InRun(kind, l)
  }

  /** The length of the longest run of lines passing `test` at the front of
      `ls`. */
  function RunLen(ls: seq<Line>, test: Line -> bool): (n: nat)
    ensures n <= |ls| && forall j | 0 <= j < n :: test(ls[j])
    ensures n < |ls| ==> !test(ls[n])
  {
    if ls == [] || !test(ls[0]) then 0 else 1 + RunLen(ls[1..], test)
  }

  /** A run that is followed by the end or by a line outside it is the
      longest one. */
  lemma {:induction false} RunLenIs(ls: seq<Line>, test: Line -> bool, n: nat)
    requires n <= |ls| && forall j | 0 <= j < n :: test(ls[j])
    requires n == |ls| || !test(ls[n])
    ensures RunLen(ls, test) == n
    decreases n
  {
    if n > 0 {
      RunLenIs(ls[1..], test, n - 1);
    }
  }

  /** What the inner loop keeps of one line of its run. */
  function RunText(kind: RunKind, l: Line): string
  {
    if l.FencePh? then "" else
    match kind
    case QuoteRun => QuoteText(l.s)
    case BulletRun => BulletText(l.s)
    case NumberRun => NumberedText(l.s)
    case ParaRun => l.s
  }

  function RunTexts(kind: RunKind, ls: seq<Line>): (r: seq<string>)
    ensures |r| == |ls| && forall j | 0 <= j < |ls| :: r[j] == RunText(kind, ls[j])
  {
    seq(|ls|, j requires 0 <= j < |ls| => RunText(kind, ls[j]))
  }

  // ---------------------------------------------------------------------
  // Blocks.

  datatype Block =
    | Fence(k: nat)
    | Skip
    | Heading(level: nat, text: string)
    | Rule
    | Quote(lines: seq<string>)
    | Bullets(items: seq<string>)
    | Numbers(items: seq<string>)
    | Para(lines: seq<string>)

  /** The block a run of kind `kind` at the front of `ls` forms, and its
      length. */
  function RunBlock(ls: seq<Line>, kind: RunKind): (r: (Block, nat))
    requires ls != [] && InRun(kind, ls[0])
    ensures r.1 == RunLen(ls, Test(kind)) && 1 <= r.1
  {
    var n := RunLen(ls, Test(kind));
    assert Test(kind)(ls[0]);
    (RunKindBlock(kind, RunTexts(kind, ls[..n])), n)
  }

  function RunKindBlock(kind: RunKind, texts: seq<string>): Block
  {
    match kind
    case QuoteRun => Quote(texts)
    case BulletRun => Bullets(texts)
    case NumberRun => Numbers(texts)
    case ParaRun => Para(texts)
  }

  /** The block at the front of `ls` and the number of lines it takes: the
      first test that succeeds decides. */
  function Front(ls: seq<Line>): (r: (Block, nat))
    requires ls != []
    ensures 1 <= r.1 <= |ls|
  {
    var l := ls[0];
    if l.FencePh? then (Fence(l.k), 1)
    else if Blank(l.s) then (Skip, 1)
    else if IsHeading(l.s) then (Heading(HeadingLevel(l.s), HeadingText(l.s)), 1)
    else if IsRule(l.s) then (Rule, 1)
    else if OpensQuote(l.s) then RunBlock(ls, QuoteRun)
    else if IsBullet(l.s) then RunBlock(ls, BulletRun)
    else if IsNumbered(l.s) then RunBlock(ls, NumberRun)
    else RunBlock(ls, ParaRun)
  }

  /** One list item, formatted when it was collected. */
  function ListItem(item: string): string
  {
    "<li>" + Inline.InlineFormat(item) + "</li>"
  }

  /** `items.map(it => `<li>${it}</li>`)`. */
  function ListItems(items: seq<string>): (r: seq<string>)
    ensures |r| == |items| && forall j | 0 <= j < |items| :: r[j] == ListItem(items[j])
  {
    seq(|items|, j requires 0 <= j < |items| => ListItem(items[j]))
  }

  /** The HTML one block contributes; a blank line contributes none. A
      placeholder whose fence does not exist would push `undefined`, which
      `join` writes as nothing. */
  function BlockHtml(b: Block, fences: seq<string>): string
  {
    match b
    case Fence(k) => if k < |fences| then fences[k] else ""
    case Skip => ""
    case Heading(level, text) =>
      "<h" + Decimal(level) + ">" + Inline.InlineFormat(text) + "</h" + Decimal(level) + ">"
    case Rule => "<hr>"
    case Quote(lines) => "<blockquote>" + QuoteHtml(lines) + "</blockquote>"
    case Bullets(items) => "<ul>" + Join(ListItems(items), "\n") + "</ul>"
    case Numbers(items) => "<ol>" + Join(ListItems(items), "\n") + "</ol>"
    case Para(lines) => "<p>" + Inline.InlineFormat(Join(lines, "\n")) + "</p>"
  }

  /** The `blocks` array the loop builds from `ls`, in order. */
  function BlocksOf(ls: seq<Line>, fences: seq<string>): seq<string>
    decreases |ls|, 1
  {
    if ls == [] then [] else BlocksFrom(ls, fences)
  }

  /** The first block's contribution, then the blocks after it. */
  function BlocksFrom(ls: seq<Line>, fences: seq<string>): seq<string>
    requires ls != []
    decreases |ls|, 0
  {
    Emitted(Front(ls).0, fences) + BlocksOf(ls[Front(ls).1..], fences)
  }

  /** What one block adds to the `blocks` array. */
  function Emitted(b: Block, fences: seq<string>): seq<string>
  {
    if b.Skip? then [] else [BlockHtml(b, fences)]
  }

  // ---------------------------------------------------------------------
  // Paragraphs inside a blockquote.

  /** The groups `parseInlineBlocks` forms from `rest`, with `cur` the
      group under construction: blank lines close a group. */
  function Group(cur: seq<string>, rest: seq<string>): seq<seq<string>>
    decreases |rest|
  {
    if rest == [] then (if cur != [] then [cur] else [])
    else if Blank(rest[0]) then (if cur != [] then [cur] else []) + Group([], rest[1..])
    else Group(cur + [rest[0]], rest[1..])
  }

  function Paragraphs(lines: seq<string>): seq<seq<string>>
  {
    Group([], lines)
  }

  function ParagraphHtml(g: seq<string>): string
  {
    "<p>" + Inline.InlineFormat(Join(g, " ")) + "</p>"
  }

  function QuoteHtml(lines: seq<string>): string
  {
    var gs := Paragraphs(lines);
    Join(seq(|gs|, j requires 0 <= j < |gs| => ParagraphHtml(gs[j])), "\n")
  }

  /** `parseInlineBlocks`. */
  method ParseInlineBlocks(lines: seq<string>) returns (html: string)
    ensures html == QuoteHtml(lines)
  {
    var groups: seq<seq<string>> := [];
    var current: seq<string> := [];
    var i := 0;
    while i < |lines|
      invariant 0 <= i <= |lines|
      invariant groups + Group(current, lines[i..]) == Paragraphs(lines)
    {
      var line := lines[i];
      assert lines[i..][1..] == lines[i + 1..];
      if Trim(line) == "" {
        if |current| > 0 {
          groups := groups + [current];
        }
        current := [];
      } else {
        current := current + [line];
      }
      i := i + 1;
    }
    if |current| > 0 {
      groups := groups + [current];
    }
    assert groups == Paragraphs(lines);
    html := Join(seq(|groups|, j requires 0 <= j < |groups| => ParagraphHtml(groups[j])), "\n");
  }

  /** Non-blank lines, in order. */
  function NonBlank(lines: seq<string>): seq<string>
  {
    if lines == [] then []
    else (if Blank(lines[0]) then [] else [lines[0]]) + NonBlank(lines[1..])
  }

  function Flatten(gs: seq<seq<string>>): seq<string>
  {
    if gs == [] then [] else gs[0] + Flatten(gs[1..])
  }

  predicate NoBlank(g: seq<string>)
  {
    forall i | 0 <= i < |g| :: !Blank(g[i])
  }

  lemma {:induction false} FlattenAppend(a: seq<seq<string>>, b: seq<seq<string>>)
    ensures Flatten(a + b) == Flatten(a) + Flatten(b)
    decreases |a|
  {
    if a == [] {
      assert a + b == b;
    } else {
      assert (a + b)[1..] == a[1..] + b;
      FlattenAppend(a[1..], b);
    }
  }

  /** Grouping loses no line and keeps none that is blank: the groups, read
      one after the other, are the non-blank lines in order. */
  lemma {:induction false} GroupFlatten(cur: seq<string>, rest: seq<string>)
    ensures Flatten(Group(cur, rest)) == cur + NonBlank(rest)
    decreases |rest|
  {
    var head: seq<seq<string>> := if cur != [] then [cur] else [];
    if rest == [] {
      assert cur + NonBlank(rest) == cur;
    } else if Blank(rest[0]) {
      GroupFlatten([], rest[1..]);
      FlattenAppend(head, Group([], rest[1..]));
      assert Flatten(head) == cur;
    } else {
      GroupFlatten(cur + [rest[0]], rest[1..]);
      assert NonBlank(rest) == [rest[0]] + NonBlank(rest[1..]);
    }
  }

  /** No group is empty or holds a blank line. */
  lemma {:induction false} GroupNonEmpty(cur: seq<string>, rest: seq<string>)
    requires NoBlank(cur)
    ensures forall k | 0 <= k < |Group(cur, rest)| ::
      Group(cur, rest)[k] != [] && NoBlank(Group(cur, rest)[k])
    decreases |rest|
  {
    if rest != [] {
      if Blank(rest[0]) {
        GroupNonEmpty([], rest[1..]);
      } else {
        GroupNonEmpty(cur + [rest[0]], rest[1..]);
      }
    }
  }

  lemma ParagraphsLines(lines: seq<string>)
    ensures Flatten(Paragraphs(lines)) == NonBlank(lines)
    ensures forall k | 0 <= k < |Paragraphs(lines)| ::
      Paragraphs(lines)[k] != [] && NoBlank(Paragraphs(lines)[k])
  {
    GroupFlatten([], lines);
    GroupNonEmpty([], lines);
  }

  /** A blank quoted line separates paragraphs. */
  lemma {:induction false} GroupSplit(cur: seq<string>, a: seq<string>, blank: string, b: seq<string>)
    requires Blank(blank)
    ensures Group(cur, a + [blank] + b) == Group(cur, a) + Group([], b)
    decreases |a|
  {
    if a == [] {
      assert a + [blank] + b == [blank] + b;
    } else {
      assert (a + [blank] + b)[1..] == a[1..] + [blank] + b;
      if Blank(a[0]) {
        GroupSplit([], a[1..], blank, b);
      } else {
        GroupSplit(cur + [a[0]], a[1..], blank, b);
      }
    }
  }

  /** Lines without a blank one form a single paragraph. */
  lemma {:induction false} GroupWhole(cur: seq<string>, rest: seq<string>)
    requires NoBlank(rest)
    ensures Group(cur, rest) == if cur + rest == [] then [] else [cur + rest]
    decreases |rest|
  {
    if rest != [] {
      GroupWhole(cur + [rest[0]], rest[1..]);
      assert cur + [rest[0]] + rest[1..] == cur + rest;
    } else {
      assert cur + rest == cur;
    }
  }

  lemma ParagraphsSplit(a: seq<string>, blank: string, b: seq<string>)
    requires Blank(blank)
    ensures Paragraphs(a + [blank] + b) == Paragraphs(a) + Paragraphs(b)
  {
    GroupSplit([], a, blank, b);
  }

  lemma ParagraphsWhole(lines: seq<string>)
    requires lines != [] && NoBlank(lines)
    ensures Paragraphs(lines) == [lines]
  {
    GroupWhole([], lines);
    assert [] + lines == lines;
  }

  // ---------------------------------------------------------------------
  // The block loop.

  /** The inner loops of the blockquote, list and paragraph branches: from
      `start`, collect the text of every line of the run, and stop at the
      first line outside it. */
  method CollectRun(escaped: seq<Line>, start: nat, kind: RunKind) returns (texts: seq<string>, i: nat)
    requires start < |escaped| && InRun(kind, escaped[start])
    ensures start < i <= |escaped|
    ensures RunBlock(escaped[start..], kind) == (RunKindBlock(kind, texts), i - start)
  {
    texts := [];
    i := start;
    var test := Test(kind);
    while i < |escaped| && test(escaped[i])
      invariant start <= i <= |escaped|
      invariant forall j | start <= j < i :: test(escaped[j])
      invariant |texts| == i - start
      invariant forall j | 0 <= j < |texts| :: texts[j] == RunText(kind, escaped[start + j])
    {
      texts := texts + [RunText(kind, escaped[i])];
      i := i + 1;
    }
    CollectRunEnd(escaped, start, kind, texts, i);
  }

  lemma CollectRunEnd(escaped: seq<Line>, start: nat, kind: RunKind, texts: seq<string>, i: nat)
    requires start < i <= |escaped| && InRun(kind, escaped[start])
    requires forall j | start <= j < i :: Test(kind)(escaped[j])
    requires i < |escaped| ==> !Test(kind)(escaped[i])
    requires |texts| == i - start
    requires forall j | 0 <= j < |texts| :: texts[j] == RunText(kind, escaped[start + j])
    ensures RunBlock(escaped[start..], kind) == (RunKindBlock(kind, texts), i - start)
  {
    var rest := escaped[start..];
    var n := i - start;
    forall j | 0 <= j < n ensures Test(kind)(rest[j]) {
      assert rest[j] == escaped[start + j];
    }
    if i < |escaped| {
      assert rest[n] == escaped[i];
    }
    RunLenIs(rest, Test(kind), n);
    assert rest[..n] == escaped[start..i];
    assert RunTexts(kind, rest[..n]) == texts;
  }

  /** What each kind of block adds to the `blocks` array, spelled out. */
  lemma EmittedCases(b: Block, fences: seq<string>)
    ensures b.Fence? ==> Emitted(b, fences) == [if b.k < |fences| then fences[b.k] else ""]
    ensures b.Skip? ==> Emitted(b, fences) == []
    ensures b.Heading? ==> (Emitted(b, fences) ==
      ["<h" + Decimal(b.level) + ">" + Inline.InlineFormat(b.text) + "</h" + Decimal(b.level) + ">"])
    ensures b.Rule? ==> Emitted(b, fences) == ["<hr>"]
    ensures b.Quote? ==> Emitted(b, fences) == ["<blockquote>" + QuoteHtml(b.lines) + "</blockquote>"]
    ensures b.Bullets? ==> Emitted(b, fences) == ["<ul>" + Join(ListItems(b.items), "\n") + "</ul>"]
    ensures b.Numbers? ==> Emitted(b, fences) == ["<ol>" + Join(ListItems(b.items), "\n") + "</ol>"]
    ensures b.Para? ==> Emitted(b, fences) == ["<p>" + Inline.InlineFormat(Join(b.lines, "\n")) + "</p>"]
  {
  }

  /** The blocks from line `i` on: the front block, then the blocks after it. */
  lemma BlocksOfFront(ls: seq<Line>, i: nat, fences: seq<string>, emitted: seq<string>, next: nat)
    requires i < |ls|
    requires next == i + Front(ls[i..]).1 && emitted == Emitted(Front(ls[i..]).0, fences)
    ensures i < next <= |ls|
    ensures emitted + BlocksOf(ls[next..], fences) == BlocksOf(ls[i..], fences)
  {
    BlocksConsAt(ls[i..], fences, emitted, next - i);
    DropDrop(ls, i, next);
  }

  /** `BlocksCons` with the front block's output and length named. */
  lemma BlocksConsAt(u: seq<Line>, fences: seq<string>, emitted: seq<string>, n: nat)
    requires u != [] && n == Front(u).1 && emitted == Emitted(Front(u).0, fences)
    ensures 0 < n <= |u| && BlocksOf(u, fences) == emitted + BlocksOf(u[n..], fences)
  {
    BlocksCons(u, fences);
  }

  lemma BlocksCons(u: seq<Line>, fences: seq<string>)
    requires u != []
    ensures BlocksOf(u, fences) == Emitted(Front(u).0, fences) + BlocksOf(u[Front(u).1..], fences)
  {
    assert BlocksOf(u, fences) == BlocksFrom(u, fences);
  }

  lemma DropDrop<T>(ls: seq<T>, i: nat, j: nat)
    requires i <= j <= |ls|
    ensures ls[i..][j - i..] == ls[j..]
  {
  }

  /** `markdownToHtml`'s main loop over the escaped lines. */
  method BuildBlocks(escaped: seq<Line>, codeFences: seq<string>) returns (blocks: seq<string>)
    ensures blocks == BlocksOf(escaped, codeFences)
  {
    blocks := [];
    var i := 0;
    var ll := |escaped|;
    while i < ll
      invariant 0 <= i <= ll
      invariant blocks + BlocksOf(escaped[i..], codeFences) == BlocksOf(escaped, codeFences)
      decreases ll - i
    {
      var emitted, next := NextBlock(escaped, i, codeFences);
      blocks := blocks + emitted;
      i := next;
    }
  }

  /** One iteration of the main loop, stated in terms of the blocks that
      remain to be built. */
  method NextBlock(escaped: seq<Line>, i0: nat, codeFences: seq<string>) returns (emitted: seq<string>, i: nat)
    requires i0 < |escaped|
    ensures i0 < i <= |escaped|
    ensures emitted + BlocksOf(escaped[i..], codeFences) == BlocksOf(escaped[i0..], codeFences)
  {
    emitted, i := BlockStep(escaped, i0, codeFences);
    BlocksOfFront(escaped, i0, codeFences, emitted, i);
  }

  /** One iteration of the main loop: the block that starts at line `i0`,
      and the index of the first line after it. */
  method BlockStep(escaped: seq<Line>, i0: nat, codeFences: seq<string>) returns (emitted: seq<string>, i: nat)
    requires i0 < |escaped|
    ensures i == i0 + Front(escaped[i0..]).1
    ensures emitted == Emitted(Front(escaped[i0..]).0, codeFences)
  {
    var line := escaped[i0];
    var rest := escaped[i0..];
    assert rest[0] == line;

    if line.FencePh? {
      var idx := line.k;
      emitted := [if idx < |codeFences| then codeFences[idx] else ""];
      i := i0 + 1;
      EmittedCases(Fence(idx), codeFences);
    } else if Trim(line.s) == "" {
      emitted := [];
      i := i0 + 1;
      EmittedCases(Skip, codeFences);
    } else if IsHeading(line.s) {
      var level := HeadingLevel(line.s);
      var text := HeadingText(line.s);
      emitted := ["<h" + Decimal(level) + ">" + Inline.InlineFormat(text) + "</h" + Decimal(level) + ">"];
      i := i0 + 1;
      EmittedCases(Heading(level, text), codeFences);
    } else if IsRule(line.s) {
      emitted := ["<hr>"];
      i := i0 + 1;
      EmittedCases(Rule, codeFences);
    } else if OpensQuote(line.s) {
      emitted, i := QuoteStep(escaped, i0, codeFences);
    } else if IsBullet(line.s) {
      emitted, i := BulletStep(escaped, i0, codeFences);
    } else if IsNumbered(line.s) {
      emitted, i := NumberStep(escaped, i0, codeFences);
    } else {
      emitted, i := ParaStep(escaped, i0, codeFences);
    }
  }

  /** The blockquote branch: the run of quote lines, their `&gt;` marker
      removed, grouped into paragraphs. */
  method QuoteStep(escaped: seq<Line>, start: nat, codeFences: seq<string>) returns (emitted: seq<string>, i: nat)
    requires start < |escaped| && InRun(QuoteRun, escaped[start])
    ensures var (b, n) := RunBlock(escaped[start..], QuoteRun);
      i == start + n && emitted == Emitted(b, codeFences)
  {
    var bqLines: seq<string>;
    bqLines, i := CollectRun(escaped, start, QuoteRun);
    var inner := ParseInlineBlocks(bqLines);
    emitted := ["<blockquote>" + inner + "</blockquote>"];
    EmittedCases(Quote(bqLines), codeFences);
  }

  /** The unordered-list branch: one item per `-`, `*` or `+` line. */
  method BulletStep(escaped: seq<Line>, start: nat, codeFences: seq<string>) returns (emitted: seq<string>, i: nat)
    requires start < |escaped| && InRun(BulletRun, escaped[start])
    ensures var (b, n) := RunBlock(escaped[start..], BulletRun);
      i == start + n && emitted == Emitted(b, codeFences)
  {
    var items: seq<string>;
    items, i := CollectRun(escaped, start, BulletRun);
    emitted := ["<ul>" + Join(ListItems(items), "\n") + "</ul>"];
    EmittedCases(Bullets(items), codeFences);
  }

  /** The ordered-list branch: one item per `1.`-style line. */
  method NumberStep(escaped: seq<Line>, start: nat, codeFences: seq<string>) returns (emitted: seq<string>, i: nat)
    requires start < |escaped| && InRun(NumberRun, escaped[start])
    ensures var (b, n) := RunBlock(escaped[start..], NumberRun);
      i == start + n && emitted == Emitted(b, codeFences)
  {
    var items: seq<string>;
    items, i := CollectRun(escaped, start, NumberRun);
    emitted := ["<ol>" + Join(ListItems(items), "\n") + "</ol>"];
    EmittedCases(Numbers(items), codeFences);
  }

  /** The paragraph branch: consecutive lines that start no other block. */
  method ParaStep(escaped: seq<Line>, start: nat, codeFences: seq<string>) returns (emitted: seq<string>, i: nat)
    requires start < |escaped| && InRun(ParaRun, escaped[start])
    ensures var (b, n) := RunBlock(escaped[start..], ParaRun);
      i == start + n && emitted == Emitted(b, codeFences)
  {
    var pLines: seq<string>;
    pLines, i := CollectRun(escaped, start, ParaRun);
    // The source tests `pLines.length` here; the run always holds the line
    // at `start`, which passed every test before it, so the test succeeds.
    emitted := ["<p>" + Inline.InlineFormat(Join(pLines, "\n")) + "</p>"];
    EmittedCases(Para(pLines), codeFences);
  }

  // ---------------------------------------------------------------------
  // The converter.

  /** `markdownToHtml(md, allowHtml)`. */
  function ToHtml(md: string, allowHtml: bool): string
  {
    var st := Run(Initial, SplitLines(md));
    Join(BlocksOf(EscapeLines(st.out, allowHtml), st.fences), "\n")
  }

  method MarkdownToHtml(md: string, allowHtml: bool) returns (html: string)
    ensures html == ToHtml(md, allowHtml)
  {
    var lines := SplitLines(md);
    var processed, codeFences := ExtractFences(lines);
    var escaped := EscapeLines(processed, allowHtml);
    var blocks := BuildBlocks(escaped, codeFences);
    html := Join(blocks, "\n");
  }
}
