/**
 * Entity escaping for HTML and XML text and attribute contexts, and the
 * `</`-splitting that keeps JSON-LD inside its `<script>` element.
 */
module Escape {
  import opened JsText

  /** `escapeHtml`: four global replacements, `&` first. */
  function EscapeHtml(s: string): string
  {
    ReplaceAll(ReplaceAll(ReplaceAll(ReplaceAll(s, "&", "&amp;"), "<", "&lt;"), ">", "&gt;"), "\"", "&quot;")
  }

  /** `escapeXml`: the same four replacements, then `'`. */
  function EscapeXml(s: string): string
  {
    ReplaceAll(EscapeHtml(s), "'", "&apos;")
  }

  // ---------------------------------------------------------------------
  // Reference definition: escaping character by character.

  /** What one character becomes; `xml` adds the apostrophe entity. */
  function Entity(c: char, xml: bool): string
  {
    if c == '&' then "&amp;"
    else if c == '<' then "&lt;"
    else if c == '>' then "&gt;"
    else if c == '"' then "&quot;"
    else if xml && c == '\'' then "&apos;"
    else [c]
  }

  function EscapeByChar(s: string, xml: bool): string
  {
    if s == [] then "" else Entity(s[0], xml) + EscapeByChar(s[1..], xml)
  }

  /** The characters that must not appear raw in escaped output. */
  predicate Special(c: char, xml: bool)
  {
    c == '<' || c == '>' || c == '"' || (xml && c == '\'')
  }

  /** Index `i` of `t` starts one of the entities the escaper produces. */
  predicate EntityAt(t: string, i: nat, xml: bool)
    requires i <= |t|
  {
    || StartsWith(t[i..], "&amp;") || StartsWith(t[i..], "&lt;")
    || StartsWith(t[i..], "&gt;") || StartsWith(t[i..], "&quot;")
    || (xml && StartsWith(t[i..], "&apos;"))
  }

  /** Escaped text: no raw special character, and every `&` begins an entity. */
  predicate Escaped(t: string, xml: bool)
  {
    && (forall i | 0 <= i < |t| :: !Special(t[i], xml))
    && (forall i | 0 <= i < |t| && t[i] == '&' :: EntityAt(t, i, xml))
  }

  // ---------------------------------------------------------------------
  // The replacement chain equals the character-by-character escaper.

  lemma {:induction false} ReplaceCharConcat(a: string, b: string, c: char, rep: string)
    ensures ReplaceAll(a + b, [c], rep) == ReplaceAll(a, [c], rep) + ReplaceAll(b, [c], rep)
    decreases |a|
  {
    if a == [] {
      assert a + b == b;
    } else {
      assert (a + b)[1..] == a[1..] + b;
      assert (a + b)[..1] == a[..1];
      ReplaceCharConcat(a[1..], b, c, rep);
    }
  }

  lemma {:induction false} ReplaceCharAbsent(t: string, c: char, rep: string)
    requires c !in t
    ensures ReplaceAll(t, [c], rep) == t
    decreases |t|
  {
    if t != [] {
      assert t[0] != c;
      assert t[..1] == [t[0]];
      ReplaceCharAbsent(t[1..], c, rep);
      assert [t[0]] + t[1..] == t;
    }
  }

  lemma EscapeHtmlOneChar(c: char)
    ensures EscapeHtml([c]) == Entity(c, false)
  {
    var s1 := ReplaceAll([c], "&", "&amp;");
    if c == '&' {
      assert s1 == "&amp;";
    } else {
      ReplaceCharAbsent([c], '&', "&amp;");
    }
    var s2 := ReplaceAll(s1, "<", "&lt;");
    if c == '<' {
      assert s2 == "&lt;";
    } else {
      ReplaceCharAbsent(s1, '<', "&lt;");
    }
    var s3 := ReplaceAll(s2, ">", "&gt;");
    if c == '>' {
      assert s3 == "&gt;";
    } else {
      ReplaceCharAbsent(s2, '>', "&gt;");
    }
    if c == '"' {
      assert ReplaceAll(s3, "\"", "&quot;") == "&quot;";
    } else {
      ReplaceCharAbsent(s3, '"', "&quot;");
    }
  }

  lemma EscapeHtmlConcat(a: string, b: string)
    ensures EscapeHtml(a + b) == EscapeHtml(a) + EscapeHtml(b)
  {
    ReplaceCharConcat(a, b, '&', "&amp;");
    var a1, b1 := ReplaceAll(a, "&", "&amp;"), ReplaceAll(b, "&", "&amp;");
    ReplaceCharConcat(a1, b1, '<', "&lt;");
    var a2, b2 := ReplaceAll(a1, "<", "&lt;"), ReplaceAll(b1, "<", "&lt;");
    ReplaceCharConcat(a2, b2, '>', "&gt;");
    var a3, b3 := ReplaceAll(a2, ">", "&gt;"), ReplaceAll(b2, ">", "&gt;");
    ReplaceCharConcat(a3, b3, '"', "&quot;");
  }

  /** Text with none of the four characters comes out unchanged. */
  lemma EscapeHtmlPlain(s: string)
    requires '&' !in s && '<' !in s && '>' !in s && '"' !in s
    ensures EscapeHtml(s) == s
  {
    ReplaceCharAbsent(s, '&', "&amp;");
    ReplaceCharAbsent(s, '<', "&lt;");
    ReplaceCharAbsent(s, '>', "&gt;");
    ReplaceCharAbsent(s, '"', "&quot;");
  }

  /** The chain of global replacements escapes each character on its own:
      because `&` is replaced first, no entity is escaped twice. */
  lemma {:induction false} EscapeHtmlIsByChar(s: string)
    ensures EscapeHtml(s) == EscapeByChar(s, false)
    decreases |s|
  {
    if s != [] {
      assert s == [s[0]] + s[1..];
      EscapeHtmlConcat([s[0]], s[1..]);
      EscapeHtmlOneChar(s[0]);
      EscapeHtmlIsByChar(s[1..]);
    }
  }

  lemma EntityXml(c: char)
    ensures ReplaceAll(Entity(c, false), "'", "&apos;") == Entity(c, true)
  {
    if c == '\'' {
      assert ReplaceAll("'", "'", "&apos;") == "&apos;" + ReplaceAll("", "'", "&apos;");
    } else {
      ReplaceCharAbsent(Entity(c, false), '\'', "&apos;");
    }
  }

  lemma {:induction false} EscapeXmlOfByChar(s: string)
    ensures ReplaceAll(EscapeByChar(s, false), "'", "&apos;") == EscapeByChar(s, true)
    decreases |s|
  {
    if s != [] {
      var e := Entity(s[0], false);
      var rest := EscapeByChar(s[1..], false);
      assert EscapeByChar(s, false) == e + rest;
      ReplaceCharConcat(e, rest, '\'', "&apos;");
      EntityXml(s[0]);
      EscapeXmlOfByChar(s[1..]);
      assert EscapeByChar(s, true) == Entity(s[0], true) + EscapeByChar(s[1..], true);
    }
  }

  /** `escapeXml` escapes each character on its own, apostrophe included. */
  lemma EscapeXmlIsByChar(s: string)
    ensures EscapeXml(s) == EscapeByChar(s, true)
  {
    EscapeHtmlIsByChar(s);
    EscapeXmlOfByChar(s);
  }

  // ---------------------------------------------------------------------
  // Safety: no raw special character, every `&` starts an entity.

  lemma EntityEscaped(c: char, xml: bool)
    ensures Escaped(Entity(c, xml), xml)
  {
    var e := Entity(c, xml);
    forall i | 0 <= i < |e| && e[i] == '&' ensures EntityAt(e, i, xml) {
      assert i == 0 && e[0..] == e;
    }
  }

  lemma EscapedConcat(a: string, b: string, xml: bool)
    requires Escaped(a, xml) && Escaped(b, xml)
    ensures Escaped(a + b, xml)
  {
    var t := a + b;
    forall i | 0 <= i < |t| && t[i] == '&' ensures EntityAt(t, i, xml) {
      if i < |a| {
        assert EntityAt(a, i, xml);
        assert t[i..] == a[i..] + b;
        var k :| k in {5, 4, 6} && |a[i..]| >= k && StartsWith(a[i..], a[i..][..k]) && (
          a[i..][..k] == "&amp;" || a[i..][..k] == "&lt;" || a[i..][..k] == "&gt;" || a[i..][..k] == "&quot;"
          || (xml && a[i..][..k] == "&apos;"));
        assert t[i..][..k] == a[i..][..k];
      } else {
        assert t[i..] == b[i - |a|..];
        assert b[i - |a|] == '&';
      }
    }
  }

  lemma {:induction false} EscapeByCharEscaped(s: string, xml: bool)
    ensures Escaped(EscapeByChar(s, xml), xml)
    decreases |s|
  {
    if s != [] {
      EntityEscaped(s[0], xml);
      EscapeByCharEscaped(s[1..], xml);
      EscapedConcat(Entity(s[0], xml), EscapeByChar(s[1..], xml), xml);
    }
  }

  /** `escapeHtml` output holds no `<`, `>` or `"`, and each `&` in it begins
      `&amp;`, `&lt;`, `&gt;` or `&quot;`. */
  lemma EscapeHtmlSafe(s: string)
    ensures Escaped(EscapeHtml(s), false)
  {
    EscapeHtmlIsByChar(s);
    EscapeByCharEscaped(s, false);
  }

  /** `escapeXml` output additionally holds no `'`, and `&apos;` is the fifth entity. */
  lemma EscapeXmlSafe(s: string)
    ensures Escaped(EscapeXml(s), true)
  {
    EscapeXmlIsByChar(s);
    EscapeByCharEscaped(s, true);
  }

  // ---------------------------------------------------------------------
  // Escaping loses nothing: decoding the entities gives the text back.

  function Prepend(c: char, r: Option<string>): Option<string>
  {
    if r.Some? then Some([c] + r.value) else None
  }

  /** Decodes the entities the escaper produces; a raw special character or an
      `&` that begins no entity makes the text ill-formed. */
  function Unescape(t: string, xml: bool): Option<string>
    decreases |t|
  {
    if t == [] then Some("")
    else if t[0] == '&' then
      if StartsWith(t, "&amp;") then Prepend('&', Unescape(t[5..], xml))
      else if StartsWith(t, "&lt;") then Prepend('<', Unescape(t[4..], xml))
      else if StartsWith(t, "&gt;") then Prepend('>', Unescape(t[4..], xml))
      else if StartsWith(t, "&quot;") then Prepend('"', Unescape(t[6..], xml))
      else if xml && StartsWith(t, "&apos;") then Prepend('\'', Unescape(t[6..], xml))
      else None
    else if Special(t[0], xml) then None
    else Prepend(t[0], Unescape(t[1..], xml))
  }

  /** Decoding one escaped character and then the rest. */
  lemma UnescapeStep(c: char, rest: string, xml: bool)
    ensures Unescape(Entity(c, xml) + rest, xml) == Prepend(c, Unescape(rest, xml))
  {
    if c == '&' {
      UnescapeAmp(rest, xml);
    } else if c == '<' {
      UnescapeLt(rest, xml);
    } else if c == '>' {
      UnescapeGt(rest, xml);
    } else if c == '"' {
      UnescapeQuot(rest, xml);
    } else if xml && c == '\'' {
      UnescapeApos(rest, xml);
    } else {
      var t := [c] + rest;
      assert t[0] == c && t[1..] == rest;
    }
  }

  // Each entity at the front decodes to its character.

  lemma UnescapeAmp(rest: string, xml: bool)
    ensures Unescape("&amp;" + rest, xml) == Prepend('&', Unescape(rest, xml))
  {
    var t := "&amp;" + rest;
    assert t[..5] == "&amp;" && t[5..] == rest;
    assert t[1] == 'a';
  }

  lemma UnescapeLt(rest: string, xml: bool)
    ensures Unescape("&lt;" + rest, xml) == Prepend('<', Unescape(rest, xml))
  {
    var t := "&lt;" + rest;
    assert t[..4] == "&lt;" && t[4..] == rest;
    assert t[1] == 'l';
  }

  lemma UnescapeGt(rest: string, xml: bool)
    ensures Unescape("&gt;" + rest, xml) == Prepend('>', Unescape(rest, xml))
  {
    var t := "&gt;" + rest;
    assert t[..4] == "&gt;" && t[4..] == rest;
    assert t[1] == 'g';
  }

  lemma UnescapeQuot(rest: string, xml: bool)
    ensures Unescape("&quot;" + rest, xml) == Prepend('"', Unescape(rest, xml))
  {
    var t := "&quot;" + rest;
    assert t[..6] == "&quot;" && t[6..] == rest;
    assert t[0] == '&' && t[1] == 'q';
    assert StartsWith(t, "&quot;");
    assert !StartsWith(t, "&amp;") && !StartsWith(t, "&lt;") && !StartsWith(t, "&gt;");
  }

  lemma UnescapeApos(rest: string, xml: bool)
    requires xml
    ensures Unescape("&apos;" + rest, xml) == Prepend('\'', Unescape(rest, xml))
  {
    var t := "&apos;" + rest;
    assert t[..6] == "&apos;" && t[6..] == rest;
    assert t[0] == '&' && t[2] == 'p';
    assert StartsWith(t, "&apos;");
    assert !StartsWith(t, "&amp;") && !StartsWith(t, "&lt;") && !StartsWith(t, "&gt;") && !StartsWith(t, "&quot;");
  }

  lemma {:induction false} UnescapeByChar(s: string, xml: bool)
    ensures Unescape(EscapeByChar(s, xml), xml) == Some(s)
    decreases |s|
  {
    if s != [] {
      UnescapeByChar(s[1..], xml);
      UnescapeStep(s[0], EscapeByChar(s[1..], xml), xml);
      assert s == [s[0]] + s[1..];
    }
  }

  /** Round trip: `escapeHtml` is undone by decoding its four entities. */
  lemma EscapeHtmlRoundTrip(s: string)
    ensures Unescape(EscapeHtml(s), false) == Some(s)
  {
    EscapeHtmlIsByChar(s);
    UnescapeByChar(s, false);
  }

  /** Round trip: `escapeXml` is undone by decoding its five entities. */
  lemma EscapeXmlRoundTrip(s: string)
    ensures Unescape(EscapeXml(s), true) == Some(s)
  {
    EscapeXmlIsByChar(s);
    UnescapeByChar(s, true);
  }

  // ---------------------------------------------------------------------
  // JSON-LD embedding.

  const ScriptOpen: string := "<script type=\"application/ld+json\">"
  const ScriptClose: string := "</script>"

  /** `</` splitting: the payload `wrapJsonLd` puts between the tags. */
  function SplitClosers(json: string): string
  {
    ReplaceAll(json, "</", "<\\/")
  }

  /** `wrapJsonLd`. */
  function WrapJsonLd(json: string): string
  {
    ScriptOpen + SplitClosers(json) + ScriptClose
  }

  /** No `<` in `t` is followed by `/`. */
  predicate NoCloser(t: string)
  {
    forall i | 0 <= i < |t| - 1 :: !(t[i] == '<' && t[i + 1] == '/')
  }

  lemma {:induction false} SplitClosersShape(s: string)
    ensures |SplitClosers(s)| >= |s|
    ensures s != [] ==> SplitClosers(s)[0] == s[0]
    ensures NoCloser(SplitClosers(s))
    decreases |s|
  {
    var r := SplitClosers(s);
    if |s| < 2 {
    } else if s[..2] == "</" {
      var rest := SplitClosers(s[2..]);
      SplitClosersShape(s[2..]);
      assert r == "<\\/" + rest;
      forall i | 0 <= i < |r| - 1 ensures !(r[i] == '<' && r[i + 1] == '/') {
        if i >= 3 { assert r[i] == rest[i - 3] && r[i + 1] == rest[i - 2]; }
      }
    } else {
      var rest := SplitClosers(s[1..]);
      SplitClosersShape(s[1..]);
      assert r == [s[0]] + rest;
      forall i | 0 <= i < |r| - 1 ensures !(r[i] == '<' && r[i + 1] == '/') {
        if i >= 1 {
          assert r[i] == rest[i - 1] && r[i + 1] == rest[i];
        } else {
          assert r[1] == rest[0] == s[1];
        }
      }
    }
  }

  /** The only `</` in the wrapped block is the one of its own closing tag, so
      no JSON content can end the `<script>` element early. */
  lemma WrapJsonLdCannotCloseEarly(json: string)
    ensures var r := WrapJsonLd(json);
      && EndsWith(r, ScriptClose) && StartsWith(r, ScriptOpen)
      && NoCloser(SplitClosers(json))
      && forall i | 0 <= i < |r| - |ScriptClose| :: !(r[i] == '<' && r[i + 1] == '/')
  {
    var p := SplitClosers(json);
    var r := WrapJsonLd(json);
    SplitClosersShape(json);
    var n := |ScriptOpen|;
    assert NoCloser(ScriptOpen);
    forall i | 0 <= i < |r| - |ScriptClose| ensures !(r[i] == '<' && r[i + 1] == '/') {
      if i < n - 1 {
        assert r[i] == ScriptOpen[i] && r[i + 1] == ScriptOpen[i + 1];
      } else if i == n - 1 {
        assert r[i] == '>';
      } else if i < n + |p| - 1 {
        assert r[i] == p[i - n] && r[i + 1] == p[i - n + 1];
      } else {
        assert r[i + 1] == ScriptClose[0] == '<';
      }
    }
    assert r[|r| - |ScriptClose|..] == ScriptClose;
    assert r[..|ScriptOpen|] == ScriptOpen;
  }

  /** JSON without `</` is embedded unchanged. */
  lemma WrapJsonLdKeepsCleanJson(json: string)
    requires NoCloser(json)
    ensures WrapJsonLd(json) == ScriptOpen + json + ScriptClose
  {
    assert Free(json, "</") by {
      forall i: nat ensures !OccursAt(json, "</", i) {
        if i + 2 <= |json| {
          assert json[i..i + 2] == [json[i], json[i + 1]];
        }
      }
    }
    ReplaceAllFree(json, "</", "<\\/");
  }
}
