/**
 * The post validator: every required field must be present and truthy, and
 * the slug must be lower-case kebab-case, `^[a-z0-9]+(-[a-z0-9]+)*$`. The
 * slug names an output directory, so the second check is what keeps a post
 * from writing outside `docs/posts/`.
 */
module Validate {
  import opened JsText
  import opened FrontMatter

  datatype ValidationError = MissingField(field: string) | InvalidSlug(slug: string)

  /** The fields checked, in the order they are checked. */
  const Required: seq<string> := ["title", "date", "description", "tags", "slug"]

  /** JavaScript truthiness of `meta[field]`: a missing key, the empty string
      and `false` are falsy; every array, even an empty one, is truthy. */
  predicate Truthy(v: Option<MetaValue>)
  {
    match v
    case None => false
    case Some(Str(s)) => s != ""
    case Some(List(_)) => true
    case Some(Bool(b)) => b
  }

  function Lookup(meta: map<string, MetaValue>, k: string): Option<MetaValue>
  {
    if k in meta then Some(meta[k]) else None
  }

  /** `String(v)`, the conversion `RegExp.prototype.test` applies to its
      argument: an array joins its items with commas. */
  function JsString(v: MetaValue): string
  {
    match v
    case Str(s) => s
    case List(items) => Join(items, ",")
    case Bool(b) => if b then "true" else "false"
  }

  // ---------------------------------------------------------------------
  // The slug pattern.

  predicate SlugChar(c: char)
  {
    'a' <= c <= 'z' || '0' <= c <= '9'
  }

  /** One `[a-z0-9]+` run. */
  predicate Segment(w: string)
  {
    |w| > 0 && forall i | 0 <= i < |w| :: SlugChar(w[i])
  }

  /** The language of `^[a-z0-9]+(-[a-z0-9]+)*$`: one or more segments
      joined by single hyphens. */
  ghost predicate Kebab(s: string)
  {
    exists segs: seq<string> ::
      |segs| >= 1 && (forall k | 0 <= k < |segs| :: Segment(segs[k])) && s == Join(segs, "-")
  }

  /** The pattern as a left-to-right automaton: `inSegment` says the last
      character read was a letter or digit, which is where a hyphen or the end
      of the text may come. */
  function SlugRun(s: string, inSegment: bool): bool
  {
    if s == [] then inSegment
    else if SlugChar(s[0]) then SlugRun(s[1..], true)
    else if s[0] == '-' && inSegment then SlugRun(s[1..], false)
    else false
  }

  predicate SlugMatches(s: string)
  {
    SlugRun(s, false)
  }

  /** What the automaton accepts, described through the hyphen-separated
      pieces of the remaining text. */
  lemma {:induction false} SlugRunPieces(s: string, inSegment: bool)
    requires SlugRun(s, inSegment)
    ensures var p := SplitOn(s, "-");
      && (forall i | 0 <= i < |p[0]| :: SlugChar(p[0][i]))
      && (inSegment || p[0] != "")
      && forall k | 1 <= k < |p| :: Segment(p[k])
    decreases |s|
  {
    if s != [] {
      var r := s[1..];
      assert s == [s[0]] + r;
      var q := SplitOn(r, "-");
      if SlugChar(s[0]) {
        SlugRunPieces(r, true);
        assert SplitOn(r, "-") == q;
        assert var p := SplitOn(r, "-"); forall i | 0 <= i < |p[0]| :: SlugChar(p[0][i]);
        assert forall i | 0 <= i < |q[0]| :: SlugChar(q[0][i]);
        assert s[..1] != "-";
        var p := SplitOn(s, "-");
        assert p == [[s[0]] + q[0]] + q[1..];
        assert p[0] == [s[0]] + q[0];
        assert p[0][0] == s[0];
        assert forall i | 1 <= i < |p[0]| :: p[0][i] == q[0][i - 1];
        forall i | 0 <= i < |p[0]| ensures SlugChar(p[0][i]) {
          if i > 0 { assert p[0][i] == q[0][i - 1]; }
        }
        forall k | 1 <= k < |p| ensures Segment(p[k]) {
          assert p[k] == q[k];
        }
      } else {
        SlugRunPieces(r, false);
        assert s[..1] == "-";
        assert SplitOn(s, "-") == [""] + q;
      }
    }
  }

  /** A letter-or-digit run can always be read, and leaves the automaton
      inside a segment. */
  lemma {:induction false} SlugRunSegment(w: string, rest: string, inSegment: bool)
    requires forall i | 0 <= i < |w| :: SlugChar(w[i])
    ensures SlugRun(w + rest, inSegment) == (if w == [] then SlugRun(rest, inSegment) else SlugRun(rest, true))
    decreases |w|
  {
    if w != [] {
      assert (w + rest)[1..] == w[1..] + rest;
      assert (w + rest)[0] == w[0];
      SlugRunSegment(w[1..], rest, true);
    } else {
      assert w + rest == rest;
    }
  }

  lemma {:induction false} SlugRunJoin(segs: seq<string>)
    requires |segs| >= 1 && forall k | 0 <= k < |segs| :: Segment(segs[k])
    ensures SlugRun(Join(segs, "-"), false)
    decreases |segs|
  {
    if |segs| == 1 {
      SlugRunSegment(segs[0], "", false);
      assert segs[0] + "" == segs[0];
    } else {
      var tail := Join(segs[1..], "-");
      SlugRunJoin(segs[1..]);
      assert Join(segs, "-") == segs[0] + ("-" + tail);
      SlugRunSegment(segs[0], "-" + tail, false);
      assert ("-" + tail)[1..] == tail;
    }
  }

  /** The automaton accepts exactly the kebab-case language. */
  lemma SlugMatchesIsKebab(s: string)
    ensures SlugMatches(s) <==> Kebab(s)
  {
    if SlugMatches(s) {
      SlugRunPieces(s, false);
      SplitOnJoin(s, "-");
      assert |SplitOn(s, "-")| >= 1;
    }
    if Kebab(s) {
      var segs :| |segs| >= 1 && (forall k | 0 <= k < |segs| :: Segment(segs[k])) && s == Join(segs, "-");
      SlugRunJoin(segs);
    }
  }

  /** An accepted slug is a single, non-empty path component made only of
      letters, digits and inner hyphens: no `/`, no `.`, no `..`. */
  lemma {:induction false} SlugMatchesSafe(s: string, inSegment: bool)
    requires SlugRun(s, inSegment)
    ensures forall i | 0 <= i < |s| :: SlugChar(s[i]) || s[i] == '-'
    ensures s != [] ==> SlugChar(s[|s| - 1])
    ensures !inSegment ==> s != [] && SlugChar(s[0])
    decreases |s|
  {
    if s != [] {
      SlugMatchesSafe(s[1..], SlugChar(s[0]));
      assert forall i | 1 <= i < |s| :: s[i] == s[1..][i - 1];
    }
  }

  lemma SlugExampleAccepted()
    ensures SlugMatches("my-post-2")
  {
    assert "my-post-2"[1..] == "y-post-2";
  }

  /** Capitals, underscores and path characters are refused. */
  lemma SlugExamplesBadChars()
    ensures !SlugMatches("My-Post")
    ensures !SlugMatches("post_1")
    ensures !SlugMatches("../etc")
  {
    assert "post_1"[1..][1..][1..][1..] == "_1";
  }

  /** A hyphen may only join two non-empty segments. */
  lemma SlugExamplesBadHyphens()
    ensures !SlugMatches("-post")
    ensures !SlugMatches("post-")
    ensures !SlugMatches("a--b")
  {
    assert "post-"[1..][1..][1..][1..] == "-";
    assert "a--b"[1..] == "--b";
  }

  // ---------------------------------------------------------------------
  // The validator.

  /** The first required field that is not truthy, if any. */
  function FirstMissing(meta: map<string, MetaValue>, fields: seq<string>): (r: Option<string>)
    ensures r.None? <==> forall k | 0 <= k < |fields| :: Truthy(Lookup(meta, fields[k]))
    ensures r.Some? ==> exists k | 0 <= k < |fields| ::
      && r.value == fields[k] && !Truthy(Lookup(meta, fields[k]))
      && forall j | 0 <= j < k :: Truthy(Lookup(meta, fields[j]))
  {
    if fields == [] then None
    else if !Truthy(Lookup(meta, fields[0])) then Some(fields[0])
    else
      var r := FirstMissing(meta, fields[1..]);
      assert forall k | 1 <= k < |fields| :: fields[1..][k - 1] == fields[k];
      if r.Some? then
        var k :| 0 <= k < |fields[1..]| && r.value == fields[1..][k] && !Truthy(Lookup(meta, fields[1..][k]))
          && forall j | 0 <= j < k :: Truthy(Lookup(meta, fields[1..][j]));
        assert r.value == fields[k + 1];
        r
      else r
  }

  /** Every required field is present and truthy. */
  predicate AllPresent(meta: map<string, MetaValue>)
  {
    && Truthy(Lookup(meta, "title")) && Truthy(Lookup(meta, "date"))
    && Truthy(Lookup(meta, "description")) && Truthy(Lookup(meta, "tags"))
    && Truthy(Lookup(meta, "slug"))
  }

  /** `validatePost`: `Ok` when the post may be built, else the first failure
      in the order the checks run. */
  function ValidatePost(meta: map<string, MetaValue>): (r: Result<(), ValidationError>)
    ensures r.Ok? <==> AllPresent(meta) && Kebab(JsString(meta["slug"]))
    ensures r.Err? && r.error.MissingField? ==>
      && r.error.field in Required && !Truthy(Lookup(meta, r.error.field))
      && forall k | 0 <= k < |Required| && Required[k] == r.error.field ::
           forall j | 0 <= j < k :: Truthy(Lookup(meta, Required[j]))
    ensures r.Err? && r.error.InvalidSlug? ==>
      AllPresent(meta) && r.error.slug == JsString(meta["slug"]) && !Kebab(r.error.slug)
  {
    match FirstMissing(meta, Required)
    case Some(f) =>
      assert !AllPresent(meta) by {
        var k :| 0 <= k < |Required| && f == Required[k] && !Truthy(Lookup(meta, Required[k]));
      }
      Err(MissingField(f))
    case None =>
      assert AllPresent(meta) by {
        assert Truthy(Lookup(meta, Required[0])) && Truthy(Lookup(meta, Required[1]));
        assert Truthy(Lookup(meta, Required[2])) && Truthy(Lookup(meta, Required[3]));
        assert Truthy(Lookup(meta, Required[4]));
      }
      var slug := JsString(meta["slug"]);
      SlugMatchesIsKebab(slug);
      if SlugMatches(slug) then Ok(()) else Err(InvalidSlug(slug))
  }
}
