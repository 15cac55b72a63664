/**
 * The template engine and the page assembler. `render` fills `{{key}}`
 * placeholders from the entries of an object, one key after another;
 * `renderPage` builds the variables every page shares and hands them to
 * `render`; `postListItemHtml` builds one entry of a post list.
 */
module Template {
  import opened JsText
  import opened Escape
  import opened FrontMatter
  import opened Validate

  /** An object's entries in `Object.entries` order; `None` is `null` or
      `undefined`. */
  type Vars = seq<(string, Option<string>)>

  /** `{{key}}`. */
  function Placeholder(key: string): (r: string)
    ensures |r| == |key| + 4
  {
    "{{" + key + "}}"
  }

  /** `val ?? ''`, and also `val || ''` (for a string the two agree). */
  function ValueText(v: Option<string>): string
  {
    if v.Some? then v.value else ""
  }

  // ---------------------------------------------------------------------
  // `replaceAll` with a string replacement, as ECMAScript defines it.

  /** The characters that follow `$` in a replacement pattern of a search
      without capture groups. */
  predicate PatternChar(c: char)
  {
    c == '$' || c == '&' || c == '`' || c == '\''
  }

  /** GetSubstitution: `$$` is `$`, `$&` the matched text, `` $` `` the text
      before the match, `$'` the text after it; any other `$` stands for
      itself. */
  function Expand(rep: string, matched: string, before: string, after: string): string
    decreases |rep|
  {
    if rep == [] then ""
    else if rep[0] == '$' && |rep| >= 2 && PatternChar(rep[1]) then
      var piece := if rep[1] == '$' then "$" else if rep[1] == '&' then matched
        else if rep[1] == '`' then before else after;
      piece + Expand(rep[2..], matched, before, after)
    else [rep[0]] + Expand(rep[1..], matched, before, after)
  }

  /** `s.replaceAll(pat, rep)` from index `i` on: each leftmost occurrence is
      replaced by the expansion of `rep`, whose `before` and `after` are taken
      from the whole original string. */
  function ReplaceAllFrom(s: string, pat: string, rep: string, i: nat): string
    requires |pat| > 0 && i <= |s|
    decreases |s| - i
  {
    if |s| - i < |pat| then s[i..]
    else if OccursAt(s, pat, i) then
      Expand(rep, pat, s[..i], s[i + |pat|..]) + ReplaceAllFrom(s, pat, rep, i + |pat|)
    else [s[i]] + ReplaceAllFrom(s, pat, rep, i + 1)
  }

  /** `render` as written: the entries are applied in order, each through
      `replaceAll` with the value as replacement pattern. */
  function RenderAsWritten(template: string, vars: Vars): string
  {
    if vars == [] then template
    else
      var last := vars[|vars| - 1];
      ReplaceAllFrom(RenderAsWritten(template, vars[..|vars| - 1]), Placeholder(last.0), ValueText(last.1), 0)
  }

  /** What `render` is meant to do: every occurrence of each placeholder, in
      entry order, is replaced by the value's text, literally. */
  function Substituted(template: string, vars: Vars): string
  {
    if vars == [] then template
    else
      var last := vars[|vars| - 1];
      ReplaceAll(Substituted(template, vars[..|vars| - 1]), Placeholder(last.0), ValueText(last.1))
  }

  /** `render`, with literal replacement. */
  method Render(template: string, vars: Vars) returns (out: string)
    ensures out == Substituted(template, vars)
  {
    out := template;
    var i := 0;
    while i < |vars|
      invariant 0 <= i <= |vars|
      invariant out == Substituted(template, vars[..i])
    {
      assert vars[..i + 1][..i] == vars[..i];
      var (key, val) := vars[i];
      out := ReplaceAll(out, "{{" + key + "}}", if val.Some? then val.value else "");
      i := i + 1;
    }
    assert vars[..i] == vars;
  }

  // ---------------------------------------------------------------------
  // What substitution does.

  /** With one entry, the template is cut at every occurrence of the
      placeholder and the pieces are joined with the value. */
  lemma SubstitutedOne(template: string, key: string, val: Option<string>)
    ensures Substituted(template, [(key, val)]) == Join(SplitOn(template, Placeholder(key)), ValueText(val))
  {
    var vs := [(key, val)];
    assert vs[..0] == [];
    ReplaceAllIsJoinOfSplit(template, Placeholder(key), ValueText(val));
  }

  /** Entries are applied one after another: rendering with `a + b` is
      rendering with `a`, then with `b`. */
  lemma {:induction false} SubstitutedAppend(template: string, a: Vars, b: Vars)
    ensures Substituted(template, a + b) == Substituted(Substituted(template, a), b)
    decreases |b|
  {
    if b == [] {
      assert a + b == a;
    } else {
      var n := |b| - 1;
      assert (a + b)[..|a + b| - 1] == a + b[..n];
      assert (a + b)[|a + b| - 1] == b[n];
      SubstitutedAppend(template, a, b[..n]);
    }
  }

  /** A template holding none of the entries' placeholders comes back as it
      was. */
  lemma {:induction false} SubstitutedUntouched(template: string, vars: Vars)
    requires forall j | 0 <= j < |vars| :: Free(template, Placeholder(vars[j].0))
    ensures Substituted(template, vars) == template
    decreases |vars|
  {
    if vars != [] {
      var n := |vars| - 1;
      SubstitutedUntouched(template, vars[..n]);
      ReplaceAllFree(template, Placeholder(vars[n].0), ValueText(vars[n].1));
    }
  }

  /** A key without braces, as every key a page passes is. */
  predicate BraceFree(key: string)
  {
    '{' !in key && '}' !in key
  }

  /** The braces of a placeholder sit at its two ends only. */
  lemma PlaceholderBraces(key: string)
    requires BraceFree(key)
    ensures forall j | 0 <= j < |key| + 4 :: Placeholder(key)[j] == '{' <==> j < 2
    ensures forall j | 0 <= j < |key| + 4 :: Placeholder(key)[j] == '}' <==> |key| + 2 <= j
  {
    var p := Placeholder(key);
    forall j | 2 <= j < |key| + 2 ensures p[j] == key[j - 2] {
    }
  }

  /** Two placeholders of brace-free keys overlap only when they are the
      same placeholder at the same place. */
  lemma PlaceholdersApart(s: string, a: string, k: string, b: string, y: string, i: nat)
    requires s == a + Placeholder(k) + b && BraceFree(k) && BraceFree(y)
    requires OccursAt(s, Placeholder(y), i)
    ensures i + |Placeholder(y)| <= |a| || |a| + |Placeholder(k)| <= i || (i == |a| && y == k)
  {
    OverlapChars(s, a, k, b, y, i);
    PlaceholderBraces(k);
    PlaceholderBraces(y);
  }

  /** Where two placeholders overlap, the characters each sees of the other. */
  lemma OverlapChars(s: string, a: string, k: string, b: string, y: string, i: nat)
    requires s == a + Placeholder(k) + b && OccursAt(s, Placeholder(y), i)
    ensures var p, q, m := Placeholder(k), Placeholder(y), |a|;
      && (i < m < i + |q| ==> q[m - i] == '{')
      && (i < m && m + 1 < i + |q| ==> q[m - i + 1] == '{')
      && (m < i < m + |p| ==> p[i - m] == '{')
      && (m < i && i + 1 < m + |p| ==> p[i - m + 1] == '{')
      && (i == m && |y| < |k| ==> p[|y| + 2] == '}')
      && (i == m && |k| < |y| ==> q[|k| + 2] == '}')
      && (i == m && |y| == |k| ==> y == k)
  {
    var p := Placeholder(k);
    var q := Placeholder(y);
    var m := |a|;
    assert forall j | 0 <= j < |p| :: s[m + j] == p[j];
    assert forall j | 0 <= j < |q| :: s[i + j] == q[j];
    if i == m && |y| == |k| {
      forall j | 0 <= j < |y| ensures y[j] == k[j] {
        assert y[j] == q[j + 2] == s[i + j + 2] == p[j + 2] == k[j];
      }
    }
  }

  /** A placeholder whose key is not among the entries stays where it is,
      and the text on each side is rendered as it would be on its own. */
  lemma {:induction false} SubstitutedKeepsUnknown(a: string, k: string, b: string, vars: Vars)
    requires BraceFree(k)
    requires forall j | 0 <= j < |vars| :: BraceFree(vars[j].0) && vars[j].0 != k
    ensures Substituted(a + Placeholder(k) + b, vars)
      == Substituted(a, vars) + Placeholder(k) + Substituted(b, vars)
    decreases |vars|
  {
    if vars != [] {
      var n := |vars| - 1;
      assert forall j | 0 <= j < n :: vars[..n][j] == vars[j];
      SubstitutedKeepsUnknown(a, k, b, vars[..n]);
      var a' := Substituted(a, vars[..n]);
      var b' := Substituted(b, vars[..n]);
      var s := a' + Placeholder(k) + b';
      var y := vars[n].0;
      forall i: nat | OccursAt(s, Placeholder(y), i)
        ensures i + |Placeholder(y)| <= |a'| || |a'| + |Placeholder(k)| <= i
      {
        PlaceholdersApart(s, a', k, b', y, i);
        assert y != k;
      }
      ReplaceAllAround(a', Placeholder(k), b', Placeholder(y), ValueText(vars[n].1));
    }
  }

  /** A value substituted early can still be rewritten later: a value that
      holds the placeholder of a later entry gets that entry's value. */
  lemma LaterKeyReachesValue(x: string, y: string, v: string)
    requires x != y
    ensures Substituted(Placeholder(x), [(x, Some(Placeholder(y))), (y, Some(v))]) == v
  {
    var vs := [(x, Some(Placeholder(y))), (y, Some(v))];
    assert vs[..1] == [(x, Some(Placeholder(y)))];
    assert vs[..1][..0] == [];
    assert Substituted(Placeholder(x), vs[..1]) == ReplaceAll(Placeholder(x), Placeholder(x), Placeholder(y));
    ReplaceAllWhole(Placeholder(x), Placeholder(y));
    ReplaceAllWhole(Placeholder(y), v);
  }

  /** A string that is exactly the pattern is replaced whole. */
  lemma ReplaceAllWhole(pat: string, rep: string)
    requires |pat| > 0
    ensures ReplaceAll(pat, pat, rep) == rep
  {
    assert pat[..|pat|] == pat;
    assert pat[|pat|..] == [];
    assert ReplaceAll([], pat, rep) == [];
    assert rep + [] == rep;
  }

  // ---------------------------------------------------------------------
  // As written and as meant agree unless a value holds `$`.

  lemma {:induction false} ExpandPlain(rep: string, matched: string, before: string, after: string)
    requires '$' !in rep
    ensures Expand(rep, matched, before, after) == rep
    decreases |rep|
  {
    if rep != [] {
      assert rep[0] != '$';
      assert '$' !in rep[1..] by {
        forall j | 0 <= j < |rep| - 1 ensures rep[1..][j] != '$' {
          assert rep[1..][j] == rep[j + 1];
        }
      }
      ExpandPlain(rep[1..], matched, before, after);
      assert rep == [rep[0]] + rep[1..];
    }
  }

  lemma {:induction false} ReplaceAllFromPlain(s: string, pat: string, rep: string, i: nat)
    requires |pat| > 0 && i <= |s| && '$' !in rep
    ensures ReplaceAllFrom(s, pat, rep, i) == ReplaceAll(s[i..], pat, rep)
    decreases |s| - i
  {
    if |s| - i < |pat| {
      PlainShort(s, pat, rep, i);
    } else if OccursAt(s, pat, i) {
      ReplaceAllFromPlain(s, pat, rep, i + |pat|);
      PlainMatchStep(s, pat, rep, i);
    } else {
      ReplaceAllFromPlain(s, pat, rep, i + 1);
      PlainSkipStep(s, pat, rep, i);
    }
  }

  /** Too short a rest for the pattern is kept as it is. */
  lemma PlainShort(s: string, pat: string, rep: string, i: nat)
    requires |pat| > 0 && i <= |s| && |s| - i < |pat|
    ensures ReplaceAllFrom(s, pat, rep, i) == s[i..] == ReplaceAll(s[i..], pat, rep)
  {
  }

  /** One character kept where the pattern does not occur: both sides take
      the same step. */
  lemma PlainSkipStep(s: string, pat: string, rep: string, i: nat)
    requires |pat| > 0 && i + |pat| <= |s| && !OccursAt(s, pat, i)
    requires ReplaceAllFrom(s, pat, rep, i + 1) == ReplaceAll(s[i + 1..], pat, rep)
    ensures ReplaceAllFrom(s, pat, rep, i) == ReplaceAll(s[i..], pat, rep)
  {
    var t := s[i..];
    assert t[..|pat|] == s[i..i + |pat|];
    assert t[0] == s[i] && t[1..] == s[i + 1..];
  }

  /** One replaced occurrence, when the replacement has no `$`: both sides
      take the same step. */
  lemma PlainMatchStep(s: string, pat: string, rep: string, i: nat)
    requires |pat| > 0 && i + |pat| <= |s| && '$' !in rep && OccursAt(s, pat, i)
    requires ReplaceAllFrom(s, pat, rep, i + |pat|) == ReplaceAll(s[i + |pat|..], pat, rep)
    ensures ReplaceAllFrom(s, pat, rep, i) == ReplaceAll(s[i..], pat, rep)
  {
    var t := s[i..];
    assert t[..|pat|] == s[i..i + |pat|];
    assert t[|pat|..] == s[i + |pat|..];
    ExpandPlain(rep, pat, s[..i], s[i + |pat|..]);
  }

  /** When no value holds a `$`, `render` as written does what it is meant
      to. */
  lemma {:induction false} AsWrittenAgreesWithoutDollar(template: string, vars: Vars)
    requires forall j | 0 <= j < |vars| :: '$' !in ValueText(vars[j].1)
    ensures RenderAsWritten(template, vars) == Substituted(template, vars)
    decreases |vars|
  {
    if vars != [] {
      var n := |vars| - 1;
      AsWrittenAgreesWithoutDollar(template, vars[..n]);
      var s := RenderAsWritten(template, vars[..n]);
      ReplaceAllFromPlain(s, Placeholder(vars[n].0), ValueText(vars[n].1), 0);
      assert s[0..] == s;
    }
  }

  /** Rendering a template that is exactly the placeholder, as written. */
  lemma AsWrittenWhole(key: string, rep: string)
    ensures RenderAsWritten(Placeholder(key), [(key, Some(rep))]) == Expand(rep, Placeholder(key), "", "")
  {
    var p := Placeholder(key);
    var vs := [(key, Some(rep))];
    assert vs[..0] == [];
    assert OccursAt(p, p, 0) by {
      assert p[0..|p|] == p;
    }
    assert p[..0] == "" && p[|p|..] == "";
    assert ReplaceAllFrom(p, p, rep, |p|) == "";
    assert Expand(rep, p, "", "") + "" == Expand(rep, p, "", "");
  }

  /** A value of `$$` collapses to `$` as written, where the literal
      substitution keeps it. */
  lemma DollarPairCollapses(key: string)
    ensures RenderAsWritten(Placeholder(key), [(key, Some("$$"))]) == "$"
    ensures Substituted(Placeholder(key), [(key, Some("$$"))]) == "$$"
  {
    AsWrittenWhole(key, "$$");
    var rep := "$$";
    assert rep[2..] == [];
    assert PatternChar(rep[1]);
    assert Expand(rep, Placeholder(key), "", "") == "$" + "";
    var vs := [(key, Some("$$"))];
    assert vs[..0] == [];
    ReplaceAllWhole(Placeholder(key), "$$");
  }

  /** A value of `$&` puts the placeholder itself back as written. */
  lemma DollarAmpersandKeepsPlaceholder(key: string)
    ensures RenderAsWritten(Placeholder(key), [(key, Some("$&"))]) == Placeholder(key)
    ensures Substituted(Placeholder(key), [(key, Some("$&"))]) == "$&"
  {
    AsWrittenWhole(key, "$&");
    var rep := "$&";
    assert rep[2..] == [];
    assert PatternChar(rep[1]);
    assert Expand(rep, Placeholder(key), "", "") == Placeholder(key) + "";
    var vs := [(key, Some("$&"))];
    assert vs[..0] == [];
    ReplaceAllWhole(Placeholder(key), "$&");
  }

  // ---------------------------------------------------------------------
  // Objects as ordered entries.

  /** The object has a property `k`. */
  predicate Has(es: Vars, k: string)
  {
    es != [] && (es[0].0 == k || Has(es[1..], k))
  }

  /** `obj[k]`: the value of the entry for `k`, `undefined` when there is
      none. */
  function Get(es: Vars, k: string): Option<string>
  {
    if es == [] then None else if es[0].0 == k then es[0].1 else Get(es[1..], k)
  }

  /** Each key at most once, as in an object. */
  predicate Distinct(es: Vars)
  {
    es == [] || (!Has(es[1..], es[0].0) && Distinct(es[1..]))
  }

  /** A property defined in an object literal or assigned: an existing key
      keeps its place and takes the new value; a new key goes last. */
  function Put(es: Vars, k: string, v: Option<string>): Vars
  {
    if es == [] then [(k, v)]
    else if es[0].0 == k then [(k, v)] + es[1..]
    else [es[0]] + Put(es[1..], k, v)
  }

  /** `delete obj[k]`. */
  function Remove(es: Vars, k: string): Vars
  {
    if es == [] then []
    else if es[0].0 == k then Remove(es[1..], k)
    else [es[0]] + Remove(es[1..], k)
  }

  /** `{...base, ...more}`: the entries of `more` defined in turn. */
  function Spread(base: Vars, more: Vars): Vars
    decreases |more|
  {
    if more == [] then base else Spread(Put(base, more[0].0, more[0].1), more[1..])
  }

  /** A read after a write: the written key has the new value, every other
      key its old one; no key but the written one appears. */
  lemma {:induction false} GetPut(es: Vars, k: string, v: Option<string>, j: string)
    ensures Get(Put(es, k, v), j) == if j == k then v else Get(es, j)
    ensures Has(Put(es, k, v), j) <==> j == k || Has(es, j)
    decreases |es|
  {
    var p := Put(es, k, v);
    if es != [] && es[0].0 != k {
      GetPut(es[1..], k, v, j);
      assert p[0] == es[0] && p[1..] == Put(es[1..], k, v);
    } else if es != [] {
      assert p[0] == (k, v) && p[1..] == es[1..];
    }
  }

  lemma {:induction false} PutDistinct(es: Vars, k: string, v: Option<string>)
    requires Distinct(es)
    ensures Distinct(Put(es, k, v))
    decreases |es|
  {
    var p := Put(es, k, v);
    if es != [] && es[0].0 != k {
      PutDistinct(es[1..], k, v);
      GetPut(es[1..], k, v, es[0].0);
      assert p[0] == es[0] && p[1..] == Put(es[1..], k, v);
    } else if es != [] {
      assert p[0] == (k, v) && p[1..] == es[1..];
    }
  }

  /** After `delete obj[k]`, `k` is gone and every other key reads as before. */
  lemma {:induction false} GetRemove(es: Vars, k: string, j: string)
    ensures !Has(Remove(es, k), k)
    ensures j != k ==> Get(Remove(es, k), j) == Get(es, j)
    ensures Has(Remove(es, k), j) ==> Has(es, j)
    decreases |es|
  {
    if es != [] {
      GetRemove(es[1..], k, j);
      var r := Remove(es, k);
      if es[0].0 != k {
        assert r[0] == es[0] && r[1..] == Remove(es[1..], k);
      }
    }
  }

  lemma {:induction false} RemoveDistinct(es: Vars, k: string)
    requires Distinct(es)
    ensures Distinct(Remove(es, k))
    decreases |es|
  {
    if es != [] {
      RemoveDistinct(es[1..], k);
      var r := Remove(es, k);
      if es[0].0 != k {
        GetRemove(es[1..], k, es[0].0);
        assert r[0] == es[0] && r[1..] == Remove(es[1..], k);
      }
    }
  }

  /** An absent key reads as `undefined`. */
  lemma {:induction false} GetAbsent(es: Vars, k: string)
    requires !Has(es, k)
    ensures Get(es, k) == None
    decreases |es|
  {
    if es != [] {
      GetAbsent(es[1..], k);
    }
  }

  /** After a spread, a key of `more` reads as in `more`; any other key as in
      `base`. */
  lemma {:induction false} GetSpread(base: Vars, more: Vars, j: string)
    requires Distinct(more)
    ensures Get(Spread(base, more), j) == if Has(more, j) then Get(more, j) else Get(base, j)
    decreases |more|
  {
    if more != [] {
      GetSpread(Put(base, more[0].0, more[0].1), more[1..], j);
      GetPut(base, more[0].0, more[0].1, j);
    }
  }

  lemma {:induction false} SpreadDistinct(base: Vars, more: Vars)
    requires Distinct(base)
    ensures Distinct(Spread(base, more))
    decreases |more|
  {
    if more != [] {
      PutDistinct(base, more[0].0, more[0].1);
      SpreadDistinct(Put(base, more[0].0, more[0].1), more[1..]);
    }
  }

  // ---------------------------------------------------------------------
  // The page variables.

  /** The site's settings and the values that come from outside the model:
      the current year from the clock, the origin parsed out of the
      analytics script URL, and the site's serialized JSON-LD object. */
  datatype Site = Site(
    title: string, url: string, author: string,
    umamiSrc: string, umamiWebsiteId: string, umamiOrigin: string,
    year: string, websiteJsonLd: string)

  /** `root`: `/` at the top, one `../` per directory level below it. */
  function Root(depth: nat): string
  {
    if depth == 0 then "/" else Repeat("../", depth)
  }

  function CssPath(depth: nat): string
  {
    if depth == 0 then "/assets/css/styles.css" else Repeat("../", depth) + "assets/css/styles.css"
  }

  function JsPath(depth: nat): string
  {
    if depth == 0 then "/assets/js/main.js" else Repeat("../", depth) + "assets/js/main.js"
  }

  /** `umamiSnippet`: empty unless both settings are set; both escaped. */
  function UmamiSnippet(site: Site): string
  {
    if site.umamiSrc == "" || site.umamiWebsiteId == "" then ""
    else
      "<script defer src=\"" + EscapeHtml(site.umamiSrc) + "\" data-website-id=\""
      + EscapeHtml(site.umamiWebsiteId) + "\"></script>"
  }

  /** The analytics tag appears exactly when both settings are non-empty, and
      then both attribute values are escaped text that cannot end the
      attribute early. */
  lemma UmamiSnippetGate(site: Site)
    ensures UmamiSnippet(site) == "" <==> site.umamiSrc == "" || site.umamiWebsiteId == ""
    ensures UmamiSnippet(site) != "" ==>
      exists a, b | Escaped(a, false) && Escaped(b, false) ::
        UmamiSnippet(site) == "<script defer src=\"" + a + "\" data-website-id=\"" + b + "\"></script>"
  {
    if UmamiSnippet(site) != "" {
      var a, b := EscapeHtml(site.umamiSrc), EscapeHtml(site.umamiWebsiteId);
      EscapeHtmlSafe(site.umamiSrc);
      EscapeHtmlSafe(site.umamiWebsiteId);
      assert UmamiSnippet(site) == "<script defer src=\"" + a + "\" data-website-id=\"" + b + "\"></script>";
    }
  }

  /** The site's JSON-LD block, then the page's own one when it is given. */
  function JsonLdParts(site: Site, extra: Option<string>): seq<string>
  {
    [WrapJsonLd(site.websiteJsonLd)] + (if extra.Some? && extra.value != "" then [WrapJsonLd(extra.value)] else [])
  }

  /** `v || d` for a string or nothing. */
  function OrDefault(v: Option<string>, d: string): string
  {
    if v.Some? && v.value != "" then v.value else d
  }

  /** The object literal's entries before `...vars`. */
  function Defaults(site: Site, content: string, depth: nat, vars: Vars): Vars
  {
    [ ("site_title", Some(EscapeHtml(site.title))), ("site_url", Some(site.url)),
      ("author_name", Some(EscapeHtml(site.author))), ("year", Some(site.year)),
      ("root", Some(Root(depth))), ("css_path", Some(CssPath(depth))), ("js_path", Some(JsPath(depth))),
      ("json_ld", Some(Join(JsonLdParts(site, Get(vars, "_jsonLdExtra")), "\n  "))),
      ("umami_script", Some(UmamiSnippet(site))), ("umami_csp", Some(site.umamiOrigin)),
      ("content", Some(content)), ("og_type", Some(OrDefault(Get(vars, "og_type"), "website"))) ]
  }

  /** The keys whose values are escaped after the caller's entries. */
  predicate EscapedKey(k: string)
  {
    k == "title" || k == "description" || k == "og_title" || k == "og_description"
  }

  /** The keys used only to steer the assembly, deleted before rendering. */
  predicate PrivateKey(k: string)
  {
    k == "_depth" || k == "_jsonLdExtra"
  }

  /** `allVars` after the two deletions; `depth` is `vars._depth || 0`. */
  function PageVars(site: Site, content: string, depth: nat, vars: Vars): Vars
  {
    var spread := Spread(Defaults(site, content, depth, vars), vars);
    var escaped :=
      Put(Put(Put(Put(spread,
        "title", Some(EscapeHtml(ValueText(Get(vars, "title"))))),
        "description", Some(EscapeHtml(ValueText(Get(vars, "description"))))),
        "og_title", Some(EscapeHtml(ValueText(Get(vars, "og_title"))))),
        "og_description", Some(EscapeHtml(ValueText(Get(vars, "og_description")))));
    Remove(Remove(escaped, "_depth"), "_jsonLdExtra")
  }

  /** `renderPage`. */
  method RenderPage(baseTemplate: string, content: string, site: Site, depth: nat, vars: Vars)
    returns (page: string)
    ensures page == Substituted(baseTemplate, PageVars(site, content, depth, vars))
  {
    page := Render(baseTemplate, PageVars(site, content, depth, vars));
  }

  // ---------------------------------------------------------------------
  // What every page gets.

  /** The spread, before the escaped entries and the deletions, read at a
      key. */
  lemma GetPageVars(site: Site, content: string, depth: nat, vars: Vars, k: string)
    requires !PrivateKey(k)
    ensures Get(PageVars(site, content, depth, vars), k) ==
      if EscapedKey(k) then Some(EscapeHtml(ValueText(Get(vars, k))))
      else Get(Spread(Defaults(site, content, depth, vars), vars), k)
  {
    var spread := Spread(Defaults(site, content, depth, vars), vars);
    var p1 := Put(spread, "title", Some(EscapeHtml(ValueText(Get(vars, "title")))));
    var p2 := Put(p1, "description", Some(EscapeHtml(ValueText(Get(vars, "description")))));
    var p3 := Put(p2, "og_title", Some(EscapeHtml(ValueText(Get(vars, "og_title")))));
    var p4 := Put(p3, "og_description", Some(EscapeHtml(ValueText(Get(vars, "og_description")))));
    GetPut(spread, "title", Some(EscapeHtml(ValueText(Get(vars, "title")))), k);
    GetPut(p1, "description", Some(EscapeHtml(ValueText(Get(vars, "description")))), k);
    GetPut(p2, "og_title", Some(EscapeHtml(ValueText(Get(vars, "og_title")))), k);
    GetPut(p3, "og_description", Some(EscapeHtml(ValueText(Get(vars, "og_description")))), k);
    GetRemove(p4, "_depth", k);
    GetRemove(Remove(p4, "_depth"), "_jsonLdExtra", k);
  }

  /** Title, description and their Open Graph copies are always present and
      always escaped, whatever raw value the caller passed. */
  lemma EscapedFieldsWin(site: Site, content: string, depth: nat, vars: Vars, k: string)
    requires EscapedKey(k)
    ensures Get(PageVars(site, content, depth, vars), k) == Some(EscapeHtml(ValueText(Get(vars, k))))
    ensures Escaped(Get(PageVars(site, content, depth, vars), k).value, false)
  {
    GetPageVars(site, content, depth, vars, k);
    EscapeHtmlSafe(ValueText(Get(vars, k)));
  }

  /** `_depth` and `_jsonLdExtra` never reach the template. */
  lemma PrivateKeysRemoved(site: Site, content: string, depth: nat, vars: Vars)
    ensures !Has(PageVars(site, content, depth, vars), "_depth")
    ensures !Has(PageVars(site, content, depth, vars), "_jsonLdExtra")
  {
    var spread := Spread(Defaults(site, content, depth, vars), vars);
    var p4 :=
      Put(Put(Put(Put(spread,
        "title", Some(EscapeHtml(ValueText(Get(vars, "title"))))),
        "description", Some(EscapeHtml(ValueText(Get(vars, "description"))))),
        "og_title", Some(EscapeHtml(ValueText(Get(vars, "og_title"))))),
        "og_description", Some(EscapeHtml(ValueText(Get(vars, "og_description")))));
    var r1 := Remove(p4, "_depth");
    GetRemove(p4, "_depth", "_jsonLdExtra");
    GetRemove(r1, "_jsonLdExtra", "_depth");
  }

  /** Any other key the caller passes wins over the default. */
  lemma CallerOverrides(site: Site, content: string, depth: nat, vars: Vars, k: string)
    requires Distinct(vars) && !EscapedKey(k) && !PrivateKey(k) && Has(vars, k)
    ensures Get(PageVars(site, content, depth, vars), k) == Get(vars, k)
  {
    GetPageVars(site, content, depth, vars, k);
    GetSpread(Defaults(site, content, depth, vars), vars, k);
  }

  /** A key the caller does not pass keeps its default. */
  lemma DefaultKept(site: Site, content: string, depth: nat, vars: Vars, k: string)
    requires Distinct(vars) && !EscapedKey(k) && !PrivateKey(k) && !Has(vars, k)
    ensures Get(PageVars(site, content, depth, vars), k) == Get(Defaults(site, content, depth, vars), k)
  {
    GetPageVars(site, content, depth, vars, k);
    GetSpread(Defaults(site, content, depth, vars), vars, k);
  }

  /** Unless the caller passes its own, `root` is the relative prefix for
      the page's depth. */
  lemma RootDefault(site: Site, content: string, depth: nat, vars: Vars)
    requires Distinct(vars) && !Has(vars, "root")
    ensures Get(PageVars(site, content, depth, vars), "root") == Some(Root(depth))
  {
    DefaultKept(site, content, depth, vars, "root");
    RootIsDefault(site, content, depth, vars);
  }

  lemma RootIsDefault(site: Site, content: string, depth: nat, vars: Vars)
    ensures Get(Defaults(site, content, depth, vars), "root") == Some(Root(depth))
  {
    DefaultAt(site, content, depth, vars, 4);
  }

  /** Unless the caller passes its own, `content` is the page body. */
  lemma ContentDefault(site: Site, content: string, depth: nat, vars: Vars)
    requires Distinct(vars) && !Has(vars, "content")
    ensures Get(PageVars(site, content, depth, vars), "content") == Some(content)
  {
    DefaultKept(site, content, depth, vars, "content");
    ContentIsDefault(site, content, depth, vars);
  }

  lemma ContentIsDefault(site: Site, content: string, depth: nat, vars: Vars)
    ensures Get(Defaults(site, content, depth, vars), "content") == Some(content)
  {
    DefaultAt(site, content, depth, vars, 10);
  }

  /** `og_type` is the caller's when given, even an empty one, and
      `website` otherwise. */
  lemma OgTypeDefault(site: Site, content: string, depth: nat, vars: Vars)
    requires Distinct(vars)
    ensures Get(PageVars(site, content, depth, vars), "og_type") ==
      if Has(vars, "og_type") then Get(vars, "og_type") else Some("website")
  {
    if Has(vars, "og_type") {
      CallerOverrides(site, content, depth, vars, "og_type");
    } else {
      DefaultKept(site, content, depth, vars, "og_type");
      DefaultAt(site, content, depth, vars, 11);
      GetAbsent(vars, "og_type");
    }
  }

  /** Reading a default by its own key gives its value. */
  lemma DefaultAt(site: Site, content: string, depth: nat, vars: Vars, i: nat)
    requires i < 12
    ensures var d := Defaults(site, content, depth, vars);
      Get(d, d[i].0) == d[i].1
  {
    var d := Defaults(site, content, depth, vars);
    DefaultsDistinct(site, content, depth, vars);
    GetIndex(d, i);
  }

  /** In a list without repeated keys, each entry is what its key reads. */
  lemma {:induction false} GetIndex(es: Vars, i: nat)
    requires Distinct(es) && i < |es|
    ensures Get(es, es[i].0) == es[i].1
    decreases i
  {
    if i > 0 {
      assert es[1..][i - 1] == es[i];
      HasIndex(es[1..], i - 1);
      GetIndex(es[1..], i - 1);
    }
  }

  lemma {:induction false} HasIndex(es: Vars, i: nat)
    requires i < |es|
    ensures Has(es, es[i].0)
    decreases i
  {
    if i > 0 {
      assert es[1..][i - 1] == es[i];
      HasIndex(es[1..], i - 1);
    }
  }

  /** The defaults name each key once. */
  lemma DefaultsDistinct(site: Site, content: string, depth: nat, vars: Vars)
    ensures Distinct(Defaults(site, content, depth, vars))
  {
    var d := Defaults(site, content, depth, vars);
    assert forall i, j | 0 <= i < j < |d| :: d[i].0 != d[j].0;
    PairwiseDistinct(d);
  }

  /** Pairwise different keys make a list without repeated keys. */
  lemma {:induction false} PairwiseDistinct(es: Vars)
    requires forall i, j | 0 <= i < j < |es| :: es[i].0 != es[j].0
    ensures Distinct(es)
    decreases |es|
  {
    if es != [] {
      PairwiseDistinct(es[1..]);
      assert !Has(es[1..], es[0].0) by {
        if Has(es[1..], es[0].0) {
          var i := HasAt(es[1..], es[0].0);
          assert false;
        }
      }
    }
  }

  /** Where a present key is. */
  lemma {:induction false} HasAt(es: Vars, k: string) returns (i: nat)
    requires Has(es, k)
    ensures i < |es| && es[i].0 == k
    decreases |es|
  {
    if es[0].0 == k {
      i := 0;
    } else {
      var m := HasAt(es[1..], k);
      i := m + 1;
    }
  }

  /** Every key of the page variables is there once, so each placeholder is
      filled by a single value. */
  lemma PageVarsDistinct(site: Site, content: string, depth: nat, vars: Vars)
    ensures Distinct(PageVars(site, content, depth, vars))
  {
    var spread := Spread(Defaults(site, content, depth, vars), vars);
    DefaultsDistinct(site, content, depth, vars);
    SpreadDistinct(Defaults(site, content, depth, vars), vars);
    var p1 := Put(spread, "title", Some(EscapeHtml(ValueText(Get(vars, "title")))));
    var p2 := Put(p1, "description", Some(EscapeHtml(ValueText(Get(vars, "description")))));
    var p3 := Put(p2, "og_title", Some(EscapeHtml(ValueText(Get(vars, "og_title")))));
    var p4 := Put(p3, "og_description", Some(EscapeHtml(ValueText(Get(vars, "og_description")))));
    PutDistinct(spread, "title", Some(EscapeHtml(ValueText(Get(vars, "title")))));
    PutDistinct(p1, "description", Some(EscapeHtml(ValueText(Get(vars, "description")))));
    PutDistinct(p2, "og_title", Some(EscapeHtml(ValueText(Get(vars, "og_title")))));
    PutDistinct(p3, "og_description", Some(EscapeHtml(ValueText(Get(vars, "og_description")))));
    RemoveDistinct(p4, "_depth");
    RemoveDistinct(Remove(p4, "_depth"), "_jsonLdExtra");
  }

  /** `Repeat` lays its copies side by side. */
  lemma {:induction false} RepeatPieces(s: string, n: nat, i: nat)
    requires |s| == 3 && i < n
    ensures Repeat(s, n)[3 * i..3 * i + 3] == s
    decreases n
  {
    var r := Repeat(s, n);
    assert r == s + Repeat(s, n - 1);
    if i == 0 {
      assert r[..3] == s;
    } else {
      RepeatPieces(s, n - 1, i - 1);
      assert r[3 * i..3 * i + 3] == Repeat(s, n - 1)[3 * (i - 1)..3 * (i - 1) + 3];
    }
  }

  /** Below the top, the root prefix is `depth` copies of `../`. */
  lemma RootClimbs(depth: nat)
    requires depth > 0
    ensures |Root(depth)| == 3 * depth
    ensures forall i | 0 <= i < depth :: Root(depth)[3 * i..3 * i + 3] == "../"
  {
    forall i | 0 <= i < depth ensures Root(depth)[3 * i..3 * i + 3] == "../" {
      RepeatPieces("../", depth, i);
    }
  }

  /** The stylesheet path is the root prefix followed by the stylesheet's
      place. */
  lemma CssUnderRoot(depth: nat)
    ensures CssPath(depth) == Root(depth) + "assets/css/styles.css"
  {
  }

  /** The script path is the root prefix followed by the script's place. */
  lemma JsUnderRoot(depth: nat)
    ensures JsPath(depth) == Root(depth) + "assets/js/main.js"
  {
  }

  /** The JSON-LD holds the site's block first, and the page's own block only
      when one was given; neither can end its `<script>` element early. */
  lemma JsonLdShape(site: Site, extra: Option<string>)
    ensures var parts := JsonLdParts(site, extra);
      && parts[0] == WrapJsonLd(site.websiteJsonLd)
      && |parts| == (if extra.Some? && extra.value != "" then 2 else 1)
      && forall i | 0 <= i < |parts| :: exists j :: parts[i] == WrapJsonLd(j) && NoCloser(SplitClosers(j))
  {
    var parts := JsonLdParts(site, extra);
    SplitClosersShape(site.websiteJsonLd);
    if extra.Some? && extra.value != "" {
      SplitClosersShape(extra.value);
      assert parts[1] == WrapJsonLd(extra.value);
    }
  }

  // ---------------------------------------------------------------------
  // One entry of a post list.

  /** `escapeHtml(v)`: only a string has the `replace` method it calls; any
      other value makes it throw. */
  function EscapeValue(v: Option<MetaValue>): Option<string>
  {
    if v.Some? && v.value.Str? then Some(EscapeHtml(v.value.s)) else None
  }

  /** `${v}` in a template literal; a missing key reads `undefined`. */
  function Interpolate(v: Option<MetaValue>): string
  {
    if v.Some? then JsString(v.value) else "undefined"
  }

  function TagItem(t: string): string
  {
    "<li class=\"tag\">" + EscapeHtml(t) + "</li>"
  }

  /** The tag list: present only when `tags` is an array. */
  function TagsHtml(tags: Option<MetaValue>): string
  {
    if tags.Some? && tags.value.List? then
      "<ul class=\"tags\">" + Join(seq(|tags.value.items|, i requires 0 <= i < |tags.value.items| =>
        TagItem(tags.value.items[i])), "") + "</ul>"
    else ""
  }

  /** `postListItemHtml`; `dateDisplay` is what `displayDate` makes of the
      date. `None` when escaping the title or the description throws. */
  function PostListItemHtml(meta: map<string, MetaValue>, dateDisplay: string): (r: Option<string>)
    ensures r.Some? <==> EscapeValue(Lookup(meta, "title")).Some? && EscapeValue(Lookup(meta, "description")).Some?
  {
    var title := EscapeValue(Lookup(meta, "title"));
    var description := EscapeValue(Lookup(meta, "description"));
    if title.None? || description.None? then None
    else Some(
      "<li class=\"post-list-item\">\n  <h2><a href=\"/posts/" + Interpolate(Lookup(meta, "slug")) + "/\">"
      + title.value + "</a></h2>\n  <div class=\"post-meta\">\n    <time datetime=\""
      + Interpolate(Lookup(meta, "date")) + "\">" + dateDisplay + "</time>\n  </div>\n  <p class=\"description\">"
      + description.value + "</p>\n  " + TagsHtml(Lookup(meta, "tags")) + "\n</li>")
  }

  /** For a post that passed validation, the link target is one non-empty
      path component of letters, digits and inner hyphens: it cannot leave
      its attribute or climb out of `/posts/`. */
  lemma ListItemHrefSafe(meta: map<string, MetaValue>)
    requires ValidatePost(meta).Ok?
    ensures var slug := Interpolate(Lookup(meta, "slug"));
      && slug != []
      && (forall i | 0 <= i < |slug| :: SlugChar(slug[i]) || slug[i] == '-')
      && SlugChar(slug[0]) && SlugChar(slug[|slug| - 1])
  {
    var slug := JsString(meta["slug"]);
    SlugMatchesIsKebab(slug);
    SlugMatchesSafe(slug, false);
  }

  /** The text pieces an entry takes from the post are escaped: title,
      description and every tag. */
  lemma ListItemTextEscaped(meta: map<string, MetaValue>)
    ensures EscapeValue(Lookup(meta, "title")).Some? ==> Escaped(EscapeValue(Lookup(meta, "title")).value, false)
    ensures EscapeValue(Lookup(meta, "description")).Some? ==>
      Escaped(EscapeValue(Lookup(meta, "description")).value, false)
    ensures "tags" in meta && meta["tags"].List? ==>
      forall i | 0 <= i < |meta["tags"].items| :: Escaped(EscapeHtml(meta["tags"].items[i]), false)
  {
    if "title" in meta && meta["title"].Str? {
      EscapeHtmlSafe(meta["title"].s);
    }
    if "description" in meta && meta["description"].Str? {
      EscapeHtmlSafe(meta["description"].s);
    }
    if "tags" in meta && meta["tags"].List? {
      forall i | 0 <= i < |meta["tags"].items| ensures Escaped(EscapeHtml(meta["tags"].items[i]), false) {
        EscapeHtmlSafe(meta["tags"].items[i]);
      }
    }
  }

  /** A `tags` value that is not an array gives no tag list at all. */
  lemma TagsOnlyForArrays(tags: Option<MetaValue>)
    ensures TagsHtml(tags) != "" <==> tags.Some? && tags.value.List?
  {
    if tags.Some? && tags.value.List? {
      assert TagsHtml(tags)[0] == '<';
    }
  }
}
