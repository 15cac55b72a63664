/**
 * The front-matter parser: finds the `---` delimited header at the very start
 * of a post, reads its `key: value` lines into a metadata object, and returns
 * the trimmed remainder as the body.
 */
module FrontMatter {
  import opened JsText

  /** A metadata value: a string, a bracketed list of strings, or a boolean. */
  datatype MetaValue = Str(s: string) | List(items: seq<string>) | Bool(b: bool)

  datatype Document = Document(meta: map<string, MetaValue>, body: string)

  datatype FrontMatterError = MissingFrontMatter

  /** Where the header pattern `^---\r?\n([\s\S]*?)\r?\n---` matched: the
      header text is `raw[start..end]` and the whole match is `raw[..matchEnd]`. */
  datatype HeaderMatch = HeaderMatch(start: nat, end: nat, matchEnd: nat)

  // ---------------------------------------------------------------------
  // Locating the header.

  /** Length of the opening `---\r?\n`, if the text starts with one. */
  function OpeningLength(raw: string): (r: Option<nat>)
    ensures r.Some? ==> r.value <= |raw|
  {
    if StartsWith(raw, "---\r\n") then Some(5)
    else if StartsWith(raw, "---\n") then Some(4)
    else None
  }

  /** The closing `\r?\n---` may start at `q`; the result is where it ends. */
  function ClosingAt(raw: string, q: nat): Option<nat>
  {
    if q <= |raw| && StartsWith(raw[q..], "\r\n---") then Some(q + 5)
    else if q <= |raw| && StartsWith(raw[q..], "\n---") then Some(q + 4)
    else None
  }

  /** The lazy group stops at the first position from `q` on where a closing
      delimiter starts. */
  function FindClosing(raw: string, q: nat): (r: Option<(nat, nat)>)
    decreases |raw| - q
    ensures r.Some? ==> q <= r.value.0 && ClosingAt(raw, r.value.0) == Some(r.value.1)
    ensures r.Some? ==> r.value.1 <= |raw|
    ensures forall p | q <= p && (r.None? || p < r.value.0) :: ClosingAt(raw, p).None?
  {
    if q + 4 > |raw| then None
    else match ClosingAt(raw, q)
      case Some(e) => Some((q, e))
      case None => FindClosing(raw, q + 1)
  }

  function FindHeader(raw: string): (r: Option<HeaderMatch>)
    ensures r.Some? ==> r.value.start <= r.value.end <= r.value.matchEnd <= |raw|
  {
    match OpeningLength(raw)
    case None => None
    case Some(h) =>
      match FindClosing(raw, h)
      case None => None
      case Some(c) => Some(HeaderMatch(h, c.0, c.1))
  }

  /** A `\n---` starts at index `q`. */
  predicate NewlineDashesAt(raw: string, q: nat)
  {
    q <= |raw| && StartsWith(raw[q..], "\n---")
  }

  lemma ClosingAtIsNewlineDashes(raw: string, q: nat)
    ensures ClosingAt(raw, q).Some? ==> NewlineDashesAt(raw, q) || NewlineDashesAt(raw, q + 1)
    ensures NewlineDashesAt(raw, q) ==> ClosingAt(raw, q).Some?
  {
    if q <= |raw| && StartsWith(raw[q..], "\r\n---") {
      assert raw[q + 1..][..4] == raw[q..][1..5];
    }
  }

  /** The parser fails exactly when the text does not start with `---` and a
      line break, or no `\n---` follows that opening line. */
  lemma {:induction false} HeaderFoundIff(raw: string)
    ensures FindHeader(raw).Some? <==>
      && OpeningLength(raw).Some?
      && exists q | OpeningLength(raw).value <= q <= |raw| :: NewlineDashesAt(raw, q)
  {
    match OpeningLength(raw)
    case None =>
    case Some(h) =>
      match FindClosing(raw, h)
      case Some(c) =>
        ClosingAtIsNewlineDashes(raw, c.0);
        if NewlineDashesAt(raw, c.0) {
          assert h <= c.0 <= |raw|;
        } else {
          assert h <= c.0 + 1 <= |raw|;
        }
      case None =>
        forall q | h <= q <= |raw| ensures !NewlineDashesAt(raw, q) {
          ClosingAtIsNewlineDashes(raw, q);
        }
  }

  // ---------------------------------------------------------------------
  // Reading one header line.

  predicate IsQuote(c: char)
  {
    c == '"' || c == '\''
  }

  /** `replace(/^["']|["']$/g, '')`: one leading and one trailing quote are
      removed independently; a lone quote is removed once. */
  function StripQuotes(s: string): (r: string)
    ensures |s| >= 2 ==>
      r == s[(if IsQuote(s[0]) then 1 else 0)..|s| - (if IsQuote(s[|s| - 1]) then 1 else 0)]
    ensures |s| < 2 ==> r == (if |s| == 1 && IsQuote(s[0]) then "" else s)
  {
    if s == [] then s
    else
      var a := if IsQuote(s[0]) then 1 else 0;
      var b := if |s| - 1 >= a && IsQuote(s[|s| - 1]) then |s| - 1 else |s|;
      s[a..b]
  }

  /** The value part of a header line, already trimmed. */
  function ParseValue(val: string): MetaValue
  {
    if StartsWith(val, "[") && EndsWith(val, "]") then
      assert |val| >= 2 by {
        assert val[0] == '[' && val[|val| - 1] == ']';
      }
      List(ListItems(val[1..|val| - 1]))
    else
      var v := StripQuotes(val);
      if v == "true" then Bool(true)
      else if v == "false" then Bool(false)
      else Str(v)
  }

  /** A bracketed value is a list, one item per comma-separated part; any
      other value becomes a boolean exactly when, its quotes stripped, it is
      `true` or `false`, and a string otherwise. */
  lemma ParseValueKinds(val: string)
    ensures ParseValue(val).List? <==> StartsWith(val, "[") && EndsWith(val, "]")
    ensures ParseValue(val).List? ==>
      |val| >= 2 && |ParseValue(val).items| == |SplitOn(val[1..|val| - 1], ",")|
    ensures ParseValue(val).Bool? <==>
      !ParseValue(val).List? && (StripQuotes(val) == "true" || StripQuotes(val) == "false")
    ensures ParseValue(val).Bool? ==> (ParseValue(val).b <==> StripQuotes(val) == "true")
    ensures ParseValue(val).Str? ==> ParseValue(val).s == StripQuotes(val)
  {
    if StartsWith(val, "[") && EndsWith(val, "]") {
      assert val[0] == '[' && val[|val| - 1] == ']';
    }
  }

  /** `inner.split(',').map(s => s.trim().replace(/^["']|["']$/g, ''))`. */
  function ListItems(inner: string): (r: seq<string>)
    ensures |r| == |SplitOn(inner, ",")|
    ensures forall k | 0 <= k < |r| :: r[k] == StripQuotes(Trim(SplitOn(inner, ",")[k]))
  {
    var parts := SplitOn(inner, ",");
    seq(|parts|, k requires 0 <= k < |parts| => StripQuotes(Trim(parts[k])))
  }

  /** A list value has one item more than it has commas, and no item
      holds a comma. */
  lemma ListItemsShape(inner: string)
    ensures |ListItems(inner)| == multiset(inner)[','] + 1
    ensures forall k | 0 <= k < |ListItems(inner)| :: ',' !in ListItems(inner)[k]
  {
    var parts := SplitOn(inner, ",");
    assert [','] == ",";
    SplitOnCount(inner, ',');
    SplitOnPiecesFree(inner, ",");
    forall k | 0 <= k < |parts| ensures ',' !in ListItems(inner)[k] {
      CommaFree(parts[k]);
      NoCommaItem(parts[k]);
    }
  }

  lemma CommaFree(piece: string)
    requires Free(piece, ",")
    ensures ',' !in piece
  {
    forall i | 0 <= i < |piece| ensures piece[i] != ',' {
      assert !OccursAt(piece, ",", i);
      assert piece[i..i + 1] == [piece[i]];
    }
  }

  lemma NoCommaItem(piece: string)
    requires ',' !in piece
    ensures ',' !in StripQuotes(Trim(piece))
  {
    TrimKeepsOut(piece, ',');
    StripKeepsOut(Trim(piece), ',');
  }

  /** Stripping quotes only removes characters. */
  lemma StripKeepsOut(t: string, c: char)
    requires c !in t
    ensures c !in StripQuotes(t)
  {
    var r := StripQuotes(t);
    if |t| >= 2 {
      var d := if IsQuote(t[0]) then 1 else 0;
      var e := if IsQuote(t[|t| - 1]) then 1 else 0;
      assert r == t[d..|t| - e];
      forall i | 0 <= i < |r| ensures r[i] != c {
        assert r[i] == t[d + i];
      }
    }
  }

  /** One header line: `None` when it has no colon, else the key and value
      either side of the FIRST colon, each trimmed. */
  function ParseLine(line: string): (r: Option<(string, MetaValue)>)
    ensures r.None? <==> ':' !in line
  {
    match IndexOfChar(line, ':', 0)
    case None => None
    case Some(idx) =>
      assert line[idx] in line;
      Some((Trim(line[..idx]), ParseValue(Trim(line[idx + 1..]))))
  }

  /** A line with a colon is cut at its FIRST colon. */
  lemma ParseLineFirstColon(line: string)
    ensures ParseLine(line).Some? ==> exists idx | 0 <= idx < |line| ::
      && line[idx] == ':' && ':' !in line[..idx]
      && ParseLine(line).value.0 == Trim(line[..idx])
      && ParseLine(line).value.1 == ParseValue(Trim(line[idx + 1..]))
  {
    match IndexOfChar(line, ':', 0)
    case None =>
    case Some(idx) =>
  }

  /** Assigning `__proto__` on a plain object does not create a property. */
  const ProtoKey: string := "__proto__"

  /** What one header line asks for: no assignment, or `meta[key] = val`. */
  type Entry = Option<(string, MetaValue)>

  /** Entry `e` stores a property named `k`. */
  predicate Defines(e: Entry, k: string)
  {
    e.Some? && e.value.0 == k && k != ProtoKey
  }

  /** The assignment one entry performs on the metadata object. */
  function Assign(m: map<string, MetaValue>, e: Entry): map<string, MetaValue>
  {
    match e
    case None => m
    case Some(kv) => if kv.0 == ProtoKey then m else m[kv.0 := kv.1]
  }

  /** The metadata object after the assignments of `es`, in order. */
  function Assigned(es: seq<Entry>): map<string, MetaValue>
  {
    if es == [] then map[] else Assign(Assigned(es[..|es| - 1]), es[|es| - 1])
  }

  function Entries(lines: seq<string>): (es: seq<Entry>)
    ensures |es| == |lines| && forall i | 0 <= i < |lines| :: es[i] == ParseLine(lines[i])
  {
    seq(|lines|, i requires 0 <= i < |lines| => ParseLine(lines[i]))
  }

  function MetaOf(lines: seq<string>): map<string, MetaValue>
  {
    Assigned(Entries(lines))
  }

  /** A key is present iff some entry defines it. */
  lemma {:induction false} AssignedHas(es: seq<Entry>, k: string)
    ensures k in Assigned(es) <==> exists i | 0 <= i < |es| :: Defines(es[i], k)
    decreases |es|
  {
    if es != [] {
      var n := |es| - 1;
      var init := es[..n];
      AssignedHas(init, k);
      if Defines(es[n], k) {
        assert k in Assigned(es);
      } else if k in Assigned(es) {
        var i :| 0 <= i < n && Defines(init[i], k);
        assert Defines(es[i], k);
      } else {
        forall i | 0 <= i < n ensures !Defines(es[i], k) {
          assert init[i] == es[i];
        }
      }
    }
  }

  /** The LAST entry that defines a key gives its value. */
  lemma {:induction false} AssignedLast(es: seq<Entry>, k: string, i: nat)
    requires i < |es| && Defines(es[i], k)
    requires forall j | i < j < |es| :: !Defines(es[j], k)
    ensures k in Assigned(es) && Assigned(es)[k] == es[i].value.1
    decreases |es|
  {
    var n := |es| - 1;
    if i < n {
      var init := es[..n];
      assert !Defines(es[n], k);
      assert init[i] == es[i];
      forall j | i < j < n ensures !Defines(init[j], k) {
        assert init[j] == es[j];
      }
      AssignedLast(init, k, i);
    }
  }

  /** Line `i` is the last header line that defines `k`. */
  predicate LastDefines(lines: seq<string>, i: nat, k: string)
  {
    && i < |lines| && Defines(ParseLine(lines[i]), k)
    && forall j | i < j < |lines| :: !Defines(ParseLine(lines[j]), k)
  }

  /** Header lines: a key is present iff some line defines it. */
  lemma MetaOfHas(lines: seq<string>, k: string)
    ensures k in MetaOf(lines) <==> exists i | 0 <= i < |lines| :: Defines(ParseLine(lines[i]), k)
  {
    AssignedHas(Entries(lines), k);
  }

  /** Header lines: a key's value is the one parsed from the LAST line that
      defines it. */
  lemma MetaOfLast(lines: seq<string>, k: string, i: nat)
    requires LastDefines(lines, i, k)
    ensures k in MetaOf(lines) && MetaOf(lines)[k] == ParseLine(lines[i]).value.1
  {
    AssignedLast(Entries(lines), k, i);
  }

  lemma AssignedNext(es: seq<Entry>, i: nat)
    requires i < |es|
    ensures Assigned(es[..i + 1]) == Assign(Assigned(es[..i]), es[i])
  {
    assert es[..i + 1][..i] == es[..i];
  }

  // ---------------------------------------------------------------------
  // The parser.

  /** The lines between the delimiters. */
  function HeaderLines(raw: string, h: HeaderMatch): seq<string>
    requires h.start <= h.end <= |raw|
  {
    SplitLines(raw[h.start..h.end])
  }

  /** `parseFrontMatter`: the header is located, its lines read into the
      metadata object, and the rest of the text trimmed into the body. */
  method ParseFrontMatter(raw: string) returns (r: Result<Document, FrontMatterError>)
    ensures r.Err? <==> FindHeader(raw).None?
    ensures r.Ok? ==>
      var h := FindHeader(raw).value;
      && r.value.meta == MetaOf(HeaderLines(raw, h))
      && r.value.body == Trim(raw[h.matchEnd..])
  {
    var found := FindHeader(raw);
    if found.None? {
      return Err(MissingFrontMatter);
    }
    var h := found.value;
    var meta := ReadMeta(SplitLines(raw[h.start..h.end]));
    r := Ok(Document(meta, Trim(raw[h.matchEnd..])));
  }

  /** The loop over the header lines: `meta[key] = val` for each line with a
      colon, in order. */
  method ReadMeta(lines: seq<string>) returns (meta: map<string, MetaValue>)
    ensures meta == MetaOf(lines)
  {
    ghost var es := Entries(lines);
    meta := map[];
    var i := 0;
    while i < |lines|
      invariant 0 <= i <= |lines|
      invariant meta == Assigned(es[..i])
    {
      var entry := ParseLine(lines[i]);
      AssignedNext(es, i);
      if entry.Some? && entry.value.0 != ProtoKey {
        meta := meta[entry.value.0 := entry.value.1];
      }
      i := i + 1;
    }
    assert es[..|lines|] == es;
  }
}
