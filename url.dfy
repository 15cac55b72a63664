/**
 * The URL gate in front of links and images: a URL is let through only when,
 * trimmed and lower-cased, it starts with `http://`, `https://`, `mailto:`,
 * `#` or `/`.
 */
module Url {
  import opened JsText

  predicate SafePrefix(t: string)
  {
    || StartsWith(t, "http://") || StartsWith(t, "https://") || StartsWith(t, "mailto:")
    || StartsWith(t, "#") || StartsWith(t, "/")
  }

  /** `isSafeUrl`. */
  predicate IsSafeUrl(url: string)
  {
    SafePrefix(Lower(Trim(url)))
  }

  /** A prefix the gate looks for: no whitespace and no `"` in it. */
  predicate Plain(pfx: string)
  {
    |pfx| > 0 && forall i | 0 <= i < |pfx| :: !IsSpace(pfx[i]) && pfx[i] != '"'
  }

  lemma PrefixesArePlain()
    ensures Plain("http://") && Plain("https://") && Plain("mailto:") && Plain("#") && Plain("/")
  {
  }

  /** Lower-casing maps no character into or out of the whitespace set. */
  lemma LowerCharSpace(c: char)
    ensures IsSpace(LowerChar(c)) == IsSpace(c)
    ensures LowerChar(c) == '"' <==> c == '"'
  {
  }

  /** Trailing whitespace cannot matter to a prefix without whitespace. */
  lemma LowerTrimEnd(s: string, pfx: string)
    requires Plain(pfx)
    ensures StartsWith(Lower(TrimEnd(s)), pfx) <==> StartsWith(Lower(s), pfx)
  {
    var r := TrimEnd(s);
    assert forall i | 0 <= i < |r| :: Lower(r)[i] == Lower(s)[i];
    if |r| >= |pfx| {
      assert Lower(r)[..|pfx|] == Lower(s)[..|pfx|];
    } else if |pfx| <= |s| {
      var last := |pfx| - 1;
      assert s[|r|..][last - |r|] == s[last];
      LowerCharSpace(s[last]);
      assert IsSpace(Lower(s)[last]) && !IsSpace(pfx[last]);
      assert Lower(s)[..|pfx|][last] != pfx[last];
    }
  }

  /** The gate only looks at the start of the URL, after leading whitespace. */
  lemma IsSafeUrlStart(url: string)
    ensures IsSafeUrl(url) <==> SafePrefix(Lower(TrimStart(url)))
  {
    PrefixesArePlain();
    var s := TrimStart(url);
    TrimStartEmpty(url);
    assert Trim(url) == TrimEnd(s);
    LowerTrimEnd(s, "http://");
    LowerTrimEnd(s, "https://");
    LowerTrimEnd(s, "mailto:");
    LowerTrimEnd(s, "#");
    LowerTrimEnd(s, "/");
  }

  /** The text of a quoted attribute value: everything up to the first `"`. */
  function UpToQuote(u: string): (r: string)
    ensures |r| <= |u|
  {
    if u == [] || u[0] == '"' then [] else [u[0]] + UpToQuote(u[1..])
  }

  /** The value is a prefix without `"`, followed by the end or by a `"`. */
  lemma {:induction false} UpToQuoteShape(u: string)
    ensures var r := UpToQuote(u);
      '"' !in r && r == u[..|r|] && (|r| < |u| ==> u[|r|] == '"')
    decreases |u|
  {
    if u != [] && u[0] != '"' {
      UpToQuoteShape(u[1..]);
      assert u == [u[0]] + u[1..];
    }
  }

  /** A run of `k` characters without `"` is kept whole. */
  lemma {:induction false} UpToQuoteLong(u: string, k: nat)
    requires k <= |u| && forall j | 0 <= j < k :: u[j] != '"'
    ensures |UpToQuote(u)| >= k
    decreases k
  {
    if k > 0 {
      UpToQuoteLong(u[1..], k - 1);
    }
  }

  lemma {:induction false} UpToQuoteConcat(u: string, w: string)
    requires w != [] && w[0] == '"'
    ensures UpToQuote(u + w) == UpToQuote(u)
    decreases |u|
  {
    if u == [] {
      assert u + w == w;
    } else {
      assert (u + w)[0] == u[0] && (u + w)[1..] == u[1..] + w;
      UpToQuoteConcat(u[1..], w);
    }
  }

  /** Once a `"` has been seen, what follows cannot change the value. */
  lemma {:induction false} UpToQuoteExtend(v: string, w: string)
    requires '"' in v
    ensures UpToQuote(v + w) == UpToQuote(v)
    decreases |v|
  {
    assert (v + w)[0] == v[0];
    if v[0] != '"' {
      assert v == [v[0]] + v[1..];
      assert (v + w)[1..] == v[1..] + w;
      UpToQuoteExtend(v[1..], w);
    }
  }

  /** Cutting at the first `"` keeps a plain prefix that follows the
      leading whitespace. */
  lemma {:induction false} UpToQuoteKeepsPrefix(u: string, pfx: string)
    requires Plain(pfx) && StartsWith(Lower(TrimStart(u)), pfx)
    ensures StartsWith(Lower(TrimStart(UpToQuote(u))), pfx)
    decreases |u|
  {
    if IsSpace(u[0]) {
      var r := UpToQuote(u);
      assert r == [u[0]] + UpToQuote(u[1..]);
      assert r[1..] == UpToQuote(u[1..]);
      UpToQuoteKeepsPrefix(u[1..], pfx);
    } else {
      UpToQuoteKeepsLead(u, pfx);
    }
  }

  /** The case without leading whitespace: the prefix itself holds no `"`. */
  lemma UpToQuoteKeepsLead(u: string, pfx: string)
    requires Plain(pfx) && StartsWith(Lower(u), pfx) && !IsSpace(u[0])
    ensures StartsWith(Lower(TrimStart(UpToQuote(u))), pfx)
  {
    var r := UpToQuote(u);
    assert forall j | 0 <= j < |pfx| :: u[j] != '"' by {
      forall j | 0 <= j < |pfx| ensures u[j] != '"' {
        assert Lower(u)[..|pfx|][j] == pfx[j];
        LowerCharSpace(u[j]);
      }
    }
    UpToQuoteLong(u, |pfx|);
    UpToQuoteShape(u);
    assert TrimStart(r) == r by {
      assert r[0] == u[0];
    }
    assert Lower(r)[..|pfx|] == pfx by {
      forall j | 0 <= j < |pfx| ensures Lower(r)[j] == Lower(u)[j] {
        assert r[j] == u[j];
      }
      assert Lower(r)[..|pfx|] == Lower(u)[..|pfx|];
    }
  }

  /** Whatever the gate lets through, the part a browser reads as the
      attribute value (up to the first `"`) would also pass. */
  lemma SafeUpToQuote(u: string)
    requires IsSafeUrl(u)
    ensures IsSafeUrl(UpToQuote(u))
  {
    PrefixesArePlain();
    IsSafeUrlStart(u);
    IsSafeUrlStart(UpToQuote(u));
    var s := Lower(TrimStart(u));
    if StartsWith(s, "http://") {
      UpToQuoteKeepsPrefix(u, "http://");
    } else if StartsWith(s, "https://") {
      UpToQuoteKeepsPrefix(u, "https://");
    } else if StartsWith(s, "mailto:") {
      UpToQuoteKeepsPrefix(u, "mailto:");
    } else if StartsWith(s, "#") {
      UpToQuoteKeepsPrefix(u, "#");
    } else {
      UpToQuoteKeepsPrefix(u, "/");
    }
  }

  /** Script-bearing schemes never pass, in any letter case. */
  lemma SafeUrlNotScript(url: string)
    requires IsSafeUrl(url)
    ensures !StartsWith(Lower(Trim(url)), "javascript:")
    ensures !StartsWith(Lower(Trim(url)), "data:")
    ensures !StartsWith(Lower(Trim(url)), "vbscript:")
  {
    SafePrefixFirst(Lower(Trim(url)));
  }

  lemma SafePrefixFirst(t: string)
    requires SafePrefix(t)
    ensures !StartsWith(t, "javascript:") && !StartsWith(t, "data:") && !StartsWith(t, "vbscript:")
  {
    assert t[0] == 'h' || t[0] == 'm' || t[0] == '#' || t[0] == '/';
  }

  /** Every allowed prefix starts with `h`, `m`, `#` or `/`. */
  lemma SafePrefixLead(t: string)
    ensures SafePrefix(t) ==> t != [] && (t[0] == 'h' || t[0] == 'm' || t[0] == '#' || t[0] == '/')
  {
  }

  /** A URL whose first character is not whitespace and does not lower-case
      to the first character of an allowed prefix fails the gate. */
  lemma UnsafeByFirst(url: string)
    requires url != [] && !IsSpace(url[0])
    requires LowerChar(url[0]) != 'h' && LowerChar(url[0]) != 'm'
    requires LowerChar(url[0]) != '#' && LowerChar(url[0]) != '/'
    ensures !IsSafeUrl(url)
  {
    assert TrimStart(url) == url;
    var l := Lower(url);
    assert l[0] == LowerChar(url[0]);
    SafePrefixLead(l);
    IsSafeUrlStart(url);
  }

  lemma UrlExampleUpperCase()
    ensures IsSafeUrl(" HTTPS://x")
  {
    var u := " HTTPS://x";
    assert TrimStart(u) == u[1..] by {
      assert IsSpace(u[0]) && !IsSpace(u[1..][0]);
    }
    var l := Lower(u[1..]);
    assert SafePrefix(l) by {
      assert l == "https://x";
    }
    IsSafeUrlStart(u);
  }

  /** A URL whose scheme, after leading whitespace and in any letter case, is
      `javascript:`, `data:` or `vbscript:` fails the gate. */
  lemma ScriptSchemesFail(url: string)
    requires var s := Lower(TrimStart(url));
      StartsWith(s, "javascript:") || StartsWith(s, "data:") || StartsWith(s, "vbscript:")
    ensures !IsSafeUrl(url)
  {
    var s := Lower(TrimStart(url));
    assert s != [] && (s[0] == 'j' || s[0] == 'd' || s[0] == 'v') by {
      if StartsWith(s, "javascript:") {
        StartsWithLead(s, "javascript:");
      } else if StartsWith(s, "data:") {
        StartsWithLead(s, "data:");
      } else {
        StartsWithLead(s, "vbscript:");
      }
    }
    SafePrefixLead(s);
    IsSafeUrlStart(url);
  }

  lemma StartsWithLead(s: string, p: string)
    requires p != [] && StartsWith(s, p)
    ensures s != [] && s[0] == p[0]
  {
    assert s[..|p|][0] == s[0];
  }

  // ---------------------------------------------------------------------
  // The gate reads only a short head of the URL.

  /** A character the part of a URL the gate reads can hold: whitespace, an
      ASCII letter, `:`, `/` or `#`. */
  predicate HeadChar(c: char)
  {
    IsSpace(c) || 'a' <= c <= 'z' || 'A' <= c <= 'Z' || c == ':' || c == '/' || c == '#'
  }

  predicate HeadChars(s: string)
  {
    forall j | 0 <= j < |s| :: HeadChar(s[j])
  }

  /** An attribute value, read up to its closing quote or to the end of the
      text, passes the gate. */
  predicate SafeStart(v: string)
  {
    IsSafeUrl(UpToQuote(v))
  }

  /** The characters of the allowed prefixes. */
  predicate PrefixChars(p: string)
  {
    forall j | 0 <= j < |p| :: 'a' <= p[j] <= 'z' || p[j] == ':' || p[j] == '/' || p[j] == '#'
  }

  lemma PrefixesAreHeads()
    ensures PrefixChars("http://") && PrefixChars("https://") && PrefixChars("mailto:")
    ensures PrefixChars("#") && PrefixChars("/")
  {
  }

  lemma {:induction false} TrimStartConcat(v: string, w: string)
    requires !AllSpace(v)
    ensures TrimStart(v + w) == TrimStart(v) + w
    decreases |v|
  {
    assert (v + w)[0] == v[0];
    if IsSpace(v[0]) {
      assert (v + w)[1..] == v[1..] + w;
      assert !AllSpace(v[1..]) by {
        var i :| 0 <= i < |v| && !IsSpace(v[i]);
        assert v[1..][i - 1] == v[i];
      }
      TrimStartConcat(v[1..], w);
    }
  }

  /** A whitespace run followed by another character is what `trimStart`
      removes. */
  lemma {:induction false} TrimStartSkip(x: string, m: nat)
    requires m < |x| && AllSpace(x[..m]) && !IsSpace(x[m])
    ensures TrimStart(x) == x[m..]
    decreases m
  {
    if m > 0 {
      assert x[..m][0] == x[0];
      assert x[1..][..m - 1] == x[..m][1..];
      TrimStartSkip(x[1..], m - 1);
    }
  }

  lemma LowerConcat(a: string, b: string)
    ensures Lower(a + b) == Lower(a) + Lower(b)
  {
    assert forall i | 0 <= i < |a + b| :: Lower(a + b)[i] == (Lower(a) + Lower(b))[i];
  }

  lemma StartsWithExtend(a: string, w: string, p: string)
    requires StartsWith(a, p)
    ensures StartsWith(a + w, p)
  {
    assert (a + w)[..|p|] == a[..|p|];
  }

  /** Text after an accepted URL does not change the verdict. */
  lemma SafeUrlExtend(v: string, w: string)
    requires IsSafeUrl(v)
    ensures IsSafeUrl(v + w)
  {
    IsSafeUrlStart(v);
    IsSafeUrlStart(v + w);
    var s := TrimStart(v);
    var l := Lower(s);
    SafePrefixLead(l);
    TrimStartEmpty(v);
    TrimStartConcat(v, w);
    LowerConcat(s, w);
    var lw := l + Lower(w);
    assert Lower(TrimStart(v + w)) == lw;
    if StartsWith(l, "http://") {
      StartsWithExtend(l, Lower(w), "http://");
    } else if StartsWith(l, "https://") {
      StartsWithExtend(l, Lower(w), "https://");
    } else if StartsWith(l, "mailto:") {
      StartsWithExtend(l, Lower(w), "mailto:");
    } else if StartsWith(l, "#") {
      StartsWithExtend(l, Lower(w), "#");
    } else {
      StartsWithExtend(l, Lower(w), "/");
    }
  }

  /** A character that lower-cases to a prefix character is a head character. */
  lemma LowerToHead(c: char)
    requires 'a' <= LowerChar(c) <= 'z' || LowerChar(c) == ':' || LowerChar(c) == '/' || LowerChar(c) == '#'
    ensures HeadChar(c)
  {
  }

  /** The leading whitespace and the prefix `p` after it form a head that
      starts with `p` on its own. */
  lemma HeadFor(u: string, p: string) returns (h: nat)
    requires PrefixChars(p) && p != [] && StartsWith(Lower(TrimStart(u)), p)
    ensures h <= |u| && HeadChars(u[..h]) && StartsWith(Lower(TrimStart(u[..h])), p)
  {
    var s := TrimStart(u);
    var m := |u| - |s|;
    LowerPrefix(s, p);
    h := m + |p|;
    HeadCharsFor(u, s, m, p, h);
    HeadTrimFor(u, s, m, p, h);
  }

  lemma LowerPrefix(s: string, p: string)
    requires StartsWith(Lower(s), p)
    ensures |p| <= |s| && forall j | 0 <= j < |p| :: LowerChar(s[j]) == p[j]
  {
    forall j | 0 <= j < |p| ensures LowerChar(s[j]) == p[j] {
      assert Lower(s)[..|p|][j] == p[j];
    }
  }

  /** Whitespace followed by the letters of a prefix, in any case, are
      gate characters. */
  lemma HeadCharsFor(u: string, s: string, m: nat, p: string, h: nat)
    requires h == m + |p| && m <= |u| && s == u[m..] && AllSpace(u[..m]) && PrefixChars(p)
    requires |p| <= |s| && forall j | 0 <= j < |p| :: LowerChar(s[j]) == p[j]
    ensures h <= |u| && HeadChars(u[..h])
  {
    var x := u[..h];
    forall j | 0 <= j < |x| ensures HeadChar(x[j]) {
      if j < m {
        assert x[j] == u[..m][j];
      } else {
        assert x[j] == s[j - m];
        LowerToHead(x[j]);
      }
    }
  }

  /** Cut after the prefix, the trimmed and lower-cased head is the prefix. */
  lemma HeadTrimFor(u: string, s: string, m: nat, p: string, h: nat)
    requires h == m + |p| && m <= |u| && s == u[m..] && AllSpace(u[..m]) && (s == [] || !IsSpace(s[0]))
    requires p != [] && |p| <= |s| && forall j | 0 <= j < |p| :: LowerChar(s[j]) == p[j]
    ensures h <= |u| && StartsWith(Lower(TrimStart(u[..h])), p)
  {
    var x := u[..h];
    assert x[..m] == u[..m];
    assert x[m] == s[0];
    TrimStartSkip(x, m);
    assert |x[m..]| == |p|;
    forall j | 0 <= j < |p| ensures Lower(x[m..])[j] == p[j] {
      assert x[m..][j] == u[m + j] == s[j];
    }
    assert Lower(x[m..]) == p;
  }

  /** An accepted URL has a head of gate characters that is accepted on its
      own. */
  lemma SafeHeadOf(u: string) returns (h: nat)
    requires IsSafeUrl(u)
    ensures h <= |u| && HeadChars(u[..h]) && IsSafeUrl(u[..h])
  {
    IsSafeUrlStart(u);
    PrefixesAreHeads();
    var l := Lower(TrimStart(u));
    if StartsWith(l, "http://") {
      h := HeadFor(u, "http://");
    } else if StartsWith(l, "https://") {
      h := HeadFor(u, "https://");
    } else if StartsWith(l, "mailto:") {
      h := HeadFor(u, "mailto:");
    } else if StartsWith(l, "#") {
      h := HeadFor(u, "#");
    } else {
      h := HeadFor(u, "/");
    }
    IsSafeUrlStart(u[..h]);
  }

  lemma {:induction false} UpToQuotePrefix(s: string, w: string)
    requires forall j | 0 <= j < |s| :: s[j] != '"'
    ensures UpToQuote(s + w) == s + UpToQuote(w)
    decreases |s|
  {
    if s == [] {
      assert s + w == w;
    } else {
      assert (s + w)[0] == s[0] && (s + w)[1..] == s[1..] + w;
      UpToQuotePrefix(s[1..], w);
    }
  }

  /** A value that starts with an accepted head passes, whatever follows. */
  lemma HeadStart(s: string, w: string)
    requires HeadChars(s) && IsSafeUrl(s)
    ensures SafeStart(s + w)
  {
    UpToQuotePrefix(s, w);
    SafeUrlExtend(s, UpToQuote(w));
  }

  /** A value that starts with an accepted head is accepted. */
  lemma HeadStartAt(x: string, h: nat)
    requires h <= |x| && HeadChars(x[..h]) && IsSafeUrl(x[..h])
    ensures SafeStart(x)
  {
    assert x == x[..h] + x[h..];
    HeadStart(x[..h], x[h..]);
  }

  /** The head of an accepted attribute value. */
  lemma SafeStartHead(v: string) returns (h: nat)
    requires SafeStart(v)
    ensures h <= |v| && HeadChars(v[..h]) && IsSafeUrl(v[..h])
  {
    var r := UpToQuote(v);
    UpToQuoteShape(v);
    h := SafeHeadOf(r);
    assert r[..h] == v[..h];
  }

  /** What follows an accepted attribute value cannot change the verdict. */
  lemma SafeStartExtend(v: string, y: string)
    requires SafeStart(v)
    ensures SafeStart(v + y)
  {
    var h := SafeStartHead(v);
    SplitAt(v, h, y);
    HeadStart(v[..h], v[h..] + y);
  }

  lemma SplitAt(v: string, h: nat, y: string)
    requires h <= |v|
    ensures v + y == v[..h] + (v[h..] + y)
  {
    assert v == v[..h] + v[h..];
  }
}
