/**
 * Which posts the site shows, and in what order. Every post file is parsed
 * and validated (a failure stops the build), drafts are skipped, the rest are
 * converted to HTML and sorted by date, newest first. The home page lists the
 * first five and the feed the first `POSTS_PER_RSS`.
 */
module Selection {
  import opened JsText
  import opened FrontMatter
  import opened Validate
  import Markdown

  /** How many posts the home page lists. */
  const HomeCount: nat := 5

  /** `POSTS_PER_RSS`. */
  const PostsPerRss: nat := 20

  datatype Post = Post(meta: map<string, MetaValue>, body: string, html: string)

  /** Why the build stops: the file at position `file` has no front matter,
      or fails validation. */
  datatype BuildError = NoFrontMatter(file: nat) | Invalid(file: nat, error: ValidationError)

  /** `meta.draft === true`: only the boolean `true`. */
  predicate IsDraft(meta: map<string, MetaValue>)
  {
    Lookup(meta, "draft") == Some(Bool(true))
  }

  /** `meta.allow_html === true`. */
  predicate AllowsHtml(meta: map<string, MetaValue>)
  {
    Lookup(meta, "allow_html") == Some(Bool(true))
  }

  /** The document `parseFrontMatter` returns for a file. */
  function ParsedDoc(raw: string): Result<Document, FrontMatterError>
  {
    var h := FindHeader(raw);
    if h.None? then Err(MissingFrontMatter)
    else Ok(Document(MetaOf(HeaderLines(raw, h.value)), Trim(raw[h.value.matchEnd..])))
  }

  /** What one file can give. */
  type Outcome = Result<Option<Post>, BuildError>

  /** Validation and the draft test for the parsed file at position `file`:
      the document to convert, nothing for a draft, or the error that stops
      the build. Validation comes before the draft test, so drafts must be
      valid too. */
  function Admit(doc: Result<Document, FrontMatterError>, file: nat): Result<Option<Document>, BuildError>
  {
    if doc.Err? then Err(NoFrontMatter(file))
    else
      var v := ValidatePost(doc.value.meta);
      if v.Err? then Err(Invalid(file, v.error))
      else if IsDraft(doc.value.meta) then Ok(None)
      else Ok(Some(doc.value))
  }

  /** The post record for an admitted document. */
  function Convert(d: Document): Post
  {
    Post(d.meta, d.body, Markdown.ToHtml(d.body, AllowsHtml(d.meta)))
  }

  /** What the parsed file at position `file` gives. */
  function StepOf(doc: Result<Document, FrontMatterError>, file: nat): Outcome
  {
    var a := Admit(doc, file);
    if a.Err? then Err(a.error)
    else if a.value.None? then Ok(None)
    else Ok(Some(Convert(a.value.value)))
  }

  /** What the file at position `file` gives. */
  function FileStep(raw: string, file: nat): Outcome
  {
    StepOf(ParsedDoc(raw), file)
  }

  /** The posts gathered from the outcomes in order, or the first error. */
  function Collect(steps: seq<Outcome>): Result<seq<Post>, BuildError>
  {
    if steps == [] then Ok([])
    else
      var n := |steps| - 1;
      var prior := Collect(steps[..n]);
      if prior.Err? then prior
      else if steps[n].Err? then Err(steps[n].error)
      else if steps[n].value.None? then prior
      else Ok(prior.value + [steps[n].value.value])
  }

  function Outcomes(files: seq<string>): (r: seq<Outcome>)
    ensures |r| == |files|
  {
    seq(|files|, i requires 0 <= i < |files| => FileStep(files[i], i))
  }

  /** The posts read from `files`, in file order, or the first failure. */
  function PostsOf(files: seq<string>): Result<seq<Post>, BuildError>
  {
    Collect(Outcomes(files))
  }

  /** Once an outcome is an error, the outcomes after it change nothing. */
  lemma {:induction false} ErrorSticks(steps: seq<Outcome>, i: nat)
    requires i <= |steps| && Collect(steps[..i]).Err?
    ensures Collect(steps) == Collect(steps[..i])
    decreases |steps| - i
  {
    if i < |steps| {
      assert steps[..i + 1][..i] == steps[..i];
      ErrorSticks(steps, i + 1);
    } else {
      assert steps[..i] == steps;
    }
  }

  /** One iteration of the loop over the post files. */
  method ReadFile(raw: string, file: nat) returns (o: Outcome)
    ensures o == FileStep(raw, file)
  {
    var doc := ParseFrontMatter(raw);
    assert doc == ParsedDoc(raw) by {
      if doc.Ok? {
        var h := FindHeader(raw).value;
        assert doc.value == Document(MetaOf(HeaderLines(raw, h)), Trim(raw[h.matchEnd..]));
      } else {
        assert doc.error == MissingFrontMatter;
      }
    }
    if doc.Err? {
      return Err(NoFrontMatter(file));
    }
    var meta := doc.value.meta;
    var check := ValidatePost(meta);
    if check.Err? {
      return Err(Invalid(file, check.error));
    }
    if Lookup(meta, "draft") == Some(Bool(true)) {
      return Ok(None);
    }
    var html := Markdown.MarkdownToHtml(doc.value.body, Lookup(meta, "allow_html") == Some(Bool(true)));
    o := Ok(Some(Post(meta, doc.value.body, html)));
  }

  /** One more outcome that is not an error. */
  lemma CollectNext(steps: seq<Outcome>, i: nat)
    requires i < |steps| && Collect(steps[..i]).Ok? && steps[i].Ok?
    ensures Collect(steps[..i + 1]) ==
      if steps[i].value.None? then Collect(steps[..i]) else Ok(Collect(steps[..i]).value + [steps[i].value.value])
  {
    assert steps[..i + 1][..i] == steps[..i];
  }

  /** The loop over the post files. */
  method ReadPosts(files: seq<string>) returns (r: Result<seq<Post>, BuildError>)
    ensures r == PostsOf(files)
  {
    ghost var steps := Outcomes(files);
    var posts: seq<Post> := [];
    var i := 0;
    while i < |files|
      invariant 0 <= i <= |files|
      invariant Collect(steps[..i]) == Ok(posts)
    {
      var o := ReadFile(files[i], i);
      assert o == steps[i];
      if o.Err? {
        assert Collect(steps[..i + 1]) == Err(o.error) by {
          assert steps[..i + 1][..i] == steps[..i];
        }
        ErrorSticks(steps, i + 1);
        return Err(o.error);
      }
      CollectNext(steps, i);
      if o.value.Some? {
        posts := posts + [o.value.value];
      }
      i := i + 1;
    }
    assert steps[..i] == steps;
    r := Ok(posts);
  }

  // ---------------------------------------------------------------------
  // What reading the files guarantees.

  /** Every post gathered comes from an outcome that gave it. */
  lemma {:induction false} CollectFrom(steps: seq<Outcome>)
    requires Collect(steps).Ok?
    ensures forall p | p in Collect(steps).value :: exists j | 0 <= j < |steps| :: steps[j] == Ok(Some(p))
    decreases |steps|
  {
    if steps != [] {
      var n := |steps| - 1;
      CollectFrom(steps[..n]);
      forall p | p in Collect(steps).value ensures exists j | 0 <= j < |steps| :: steps[j] == Ok(Some(p)) {
        if p in Collect(steps[..n]).value {
          var j :| 0 <= j < n && steps[..n][j] == Ok(Some(p));
          assert steps[j] == Ok(Some(p));
        } else {
          assert steps[n] == Ok(Some(p));
        }
      }
    }
  }

  /** A post a file gives passed validation, is not a draft, and carries the
      HTML of its own body. */
  lemma StepGivesValidPost(doc: Result<Document, FrontMatterError>, file: nat, p: Post)
    requires StepOf(doc, file) == Ok(Some(p))
    ensures ValidatePost(p.meta).Ok? && !IsDraft(p.meta)
    ensures p.html == Markdown.ToHtml(p.body, AllowsHtml(p.meta))
  {
    assert p == Convert(doc.value);
  }

  /** Every post that is read passed validation, is not a draft, and carries
      the HTML of its own body. */
  lemma PostsAreValid(files: seq<string>)
    requires PostsOf(files).Ok?
    ensures forall p | p in PostsOf(files).value ::
      && ValidatePost(p.meta).Ok? && !IsDraft(p.meta)
      && p.html == Markdown.ToHtml(p.body, AllowsHtml(p.meta))
  {
    var steps := Outcomes(files);
    CollectFrom(steps);
    forall p | p in PostsOf(files).value
      ensures ValidatePost(p.meta).Ok? && !IsDraft(p.meta) && p.html == Markdown.ToHtml(p.body, AllowsHtml(p.meta))
    {
      var j :| 0 <= j < |steps| && steps[j] == Ok(Some(p));
      StepGivesValidPost(ParsedDoc(files[j]), j, p);
    }
  }

  /** How many outcomes are `nothing`. */
  function Skipped(steps: seq<Outcome>): nat
  {
    if steps == [] then 0
    else Skipped(steps[..|steps| - 1]) + (if steps[|steps| - 1] == Ok(None) then 1 else 0)
  }

  /** A file gives nothing exactly when it is a valid draft. */
  lemma StepSkipsDrafts(doc: Result<Document, FrontMatterError>, file: nat)
    ensures StepOf(doc, file) == Ok(None) <==>
      doc.Ok? && ValidatePost(doc.value.meta).Ok? && IsDraft(doc.value.meta)
  {
  }

  /** When the build goes through, every file that is not a draft gives
      exactly one post. */
  lemma {:induction false} PostsCount(steps: seq<Outcome>)
    requires Collect(steps).Ok?
    ensures |Collect(steps).value| + Skipped(steps) == |steps|
    decreases |steps|
  {
    if steps != [] {
      PostsCount(steps[..|steps| - 1]);
    }
  }

  /** When the build stops, it names an outcome that is that error, and
      every outcome before it is not an error. */
  lemma {:induction false} FirstFailure(steps: seq<Outcome>)
    requires Collect(steps).Err?
    ensures exists i | 0 <= i < |steps| ::
      && steps[i] == Err(Collect(steps).error)
      && forall j | 0 <= j < i :: steps[j].Ok?
    decreases |steps|
  {
    var n := |steps| - 1;
    var prior := Collect(steps[..n]);
    if prior.Err? {
      FirstFailure(steps[..n]);
      var i :| 0 <= i < n && steps[..n][i] == Err(prior.error) && forall j | 0 <= j < i :: steps[..n][j].Ok?;
      assert steps[i] == steps[..n][i];
      forall j | 0 <= j < i ensures steps[j].Ok? {
        assert steps[..n][j] == steps[j];
      }
    } else {
      AllPass(steps[..n]);
      forall j | 0 <= j < n ensures steps[j].Ok? {
        assert steps[..n][j] == steps[j];
      }
    }
  }

  /** A build that goes through met no error. */
  lemma {:induction false} AllPass(steps: seq<Outcome>)
    requires Collect(steps).Ok?
    ensures forall j | 0 <= j < |steps| :: steps[j].Ok?
    decreases |steps|
  {
    if steps != [] {
      var n := |steps| - 1;
      AllPass(steps[..n]);
      forall j | 0 <= j < n ensures steps[j].Ok? {
        assert steps[..n][j] == steps[j];
      }
    }
  }

  /** The error a build stops with names the file that gave it, and every
      earlier file parsed and validated. */
  lemma BuildStopsAtFirstBadFile(files: seq<string>)
    requires PostsOf(files).Err?
    ensures var e := PostsOf(files).error;
      && e.file < |files| && FileStep(files[e.file], e.file) == Err(e)
      && forall j | 0 <= j < e.file :: FileStep(files[j], j).Ok?
  {
    var steps := Outcomes(files);
    FirstFailure(steps);
    var i :| 0 <= i < |steps| && steps[i] == Err(Collect(steps).error) && forall j | 0 <= j < i :: steps[j].Ok?;
    assert steps[i] == FileStep(files[i], i);
    StepErrorNamesFile(ParsedDoc(files[i]), i);
    forall j | 0 <= j < i ensures FileStep(files[j], j).Ok? {
      assert steps[j] == FileStep(files[j], j);
    }
  }

  /** A file's error carries the file's position. */
  lemma StepErrorNamesFile(doc: Result<Document, FrontMatterError>, file: nat)
    ensures StepOf(doc, file).Err? ==> StepOf(doc, file).error.file == file
  {
  }

  // ---------------------------------------------------------------------
  // Newest first.

  /** JavaScript's `<` on two strings: the first differing code unit decides,
      and a proper prefix comes first. */
  predicate LexLess(a: string, b: string)
  {
    if b == [] then false
    else if a == [] then true
    else if a[0] != b[0] then a[0] < b[0]
    else LexLess(a[1..], b[1..])
  }

  lemma {:induction false} LexLessIrreflexive(a: string)
    ensures !LexLess(a, a)
    decreases |a|
  {
    if a != [] {
      LexLessIrreflexive(a[1..]);
    }
  }

  lemma {:induction false} LexLessTransitive(a: string, b: string, c: string)
    requires LexLess(a, b) && LexLess(b, c)
    ensures LexLess(a, c)
    decreases |a|
  {
    if a != [] && a[0] == b[0] && b[0] == c[0] {
      LexLessTransitive(a[1..], b[1..], c[1..]);
    }
  }

  /** Two different strings are always ordered one way or the other. */
  lemma {:induction false} LexLessTotal(a: string, b: string)
    requires a != b
    ensures LexLess(a, b) || LexLess(b, a)
    decreases |a|
  {
    if a != [] && b != [] && a[0] == b[0] {
      assert a == [a[0]] + a[1..] && b == [b[0]] + b[1..];
      LexLessTotal(a[1..], b[1..]);
    }
  }

  lemma LexLessAsymmetric(a: string, b: string)
    requires LexLess(a, b)
    ensures !LexLess(b, a)
  {
    if LexLess(b, a) {
      LexLessTransitive(a, b, a);
      LexLessIrreflexive(a);
    }
  }

  /** `${post.meta.date}` as the comparison reads it. */
  function DateKey(p: Post): string
  {
    if "date" in p.meta then JsString(p.meta["date"]) else ""
  }

  /** The comparator returns `-1`: `a`'s date is greater than `b`'s. */
  predicate Newer(a: Post, b: Post)
  {
    LexLess(DateKey(b), DateKey(a))
  }

  /** `a` may stand before `b` in a newest-first list. */
  predicate NotOlder(a: Post, b: Post)
  {
    !LexLess(DateKey(a), DateKey(b))
  }

  lemma NotOlderTransitive(a: Post, b: Post, c: Post)
    requires NotOlder(a, b) && NotOlder(b, c)
    ensures NotOlder(a, c)
  {
    var x, y, z := DateKey(a), DateKey(b), DateKey(c);
    if LexLess(x, z) && x != y && y != z {
      LexLessTotal(x, y);
      LexLessTotal(y, z);
      LexLessTransitive(z, y, x);
      LexLessAsymmetric(x, z);
    }
  }

  /** Newest first: no post is older than one after it. */
  predicate NewestFirst(s: seq<Post>)
  {
    forall i, j | 0 <= i < j < |s| :: NotOlder(s[i], s[j])
  }

  /** Puts `p` into a newest-first list, before the first post that is not
      newer than it. */
  function Insert(p: Post, sorted: seq<Post>): seq<Post>
  {
    if sorted == [] || !Newer(sorted[0], p) then [p] + sorted
    else [sorted[0]] + Insert(p, sorted[1..])
  }

  /** `posts.sort((a, b) => (a.meta.date > b.meta.date ? -1 : 1))`. */
  function SortByDate(ps: seq<Post>): seq<Post>
  {
    if ps == [] then [] else Insert(ps[0], SortByDate(ps[1..]))
  }

  lemma {:induction false} InsertPermutes(p: Post, s: seq<Post>)
    ensures multiset(Insert(p, s)) == multiset(s) + multiset{p}
    decreases |s|
  {
    if s != [] && Newer(s[0], p) {
      InsertPermutes(p, s[1..]);
      assert s == [s[0]] + s[1..];
    }
  }

  lemma {:induction false} InsertKeepsOrder(p: Post, s: seq<Post>)
    requires NewestFirst(s)
    ensures NewestFirst(Insert(p, s))
    decreases |s|
  {
    if s == [] {
    } else if !Newer(s[0], p) {
      PrependKeepsOrder(p, s);
    } else {
      var t := s[1..];
      assert NewestFirst(t) by {
        forall i, j | 0 <= i < j < |t| ensures NotOlder(t[i], t[j]) {
          assert t[i] == s[i + 1] && t[j] == s[j + 1];
        }
      }
      InsertKeepsOrder(p, t);
      InsertPermutes(p, t);
      KeepHeadKeepsOrder(p, s, Insert(p, t));
    }
  }

  /** `p` put in front of a list whose head is not newer than it. */
  lemma PrependKeepsOrder(p: Post, s: seq<Post>)
    requires NewestFirst(s) && s != [] && !Newer(s[0], p)
    ensures NewestFirst([p] + s)
  {
    var r := [p] + s;
    forall j | 1 <= j < |r| ensures NotOlder(r[0], r[j]) {
      assert r[j] == s[j - 1];
      if j > 1 {
        NotOlderTransitive(p, s[0], s[j - 1]);
      }
    }
    forall i, j | 1 <= i < j < |r| ensures NotOlder(r[i], r[j]) {
      assert r[i] == s[i - 1] && r[j] == s[j - 1];
    }
  }

  /** The head stays in front when `p` is older than it and goes into the
      rest. */
  lemma KeepHeadKeepsOrder(p: Post, s: seq<Post>, rest: seq<Post>)
    requires NewestFirst(s) && s != [] && Newer(s[0], p)
    requires NewestFirst(rest) && multiset(rest) == multiset(s[1..]) + multiset{p}
    ensures NewestFirst([s[0]] + rest)
  {
    var r := [s[0]] + rest;
    forall j | 1 <= j < |r| ensures NotOlder(r[0], r[j]) {
      assert r[j] == rest[j - 1];
      HeadBeforeMember(p, s, rest, j - 1);
    }
    forall i, j | 1 <= i < j < |r| ensures NotOlder(r[i], r[j]) {
      assert r[i] == rest[i - 1] && r[j] == rest[j - 1];
    }
  }

  lemma HeadBeforeMember(p: Post, s: seq<Post>, rest: seq<Post>, k: nat)
    requires NewestFirst(s) && s != [] && Newer(s[0], p)
    requires multiset(rest) == multiset(s[1..]) + multiset{p} && k < |rest|
    ensures NotOlder(s[0], rest[k])
  {
    var q := rest[k];
    assert q in multiset(rest);
    if q != p {
      assert q in multiset(s[1..]);
      var m :| 0 <= m < |s| - 1 && s[1..][m] == q;
      assert s[m + 1] == q;
    } else {
      LexLessAsymmetric(DateKey(p), DateKey(s[0]));
    }
  }

  /** The sort puts the posts newest first. */
  lemma {:induction false} SortIsNewestFirst(ps: seq<Post>)
    ensures NewestFirst(SortByDate(ps))
    decreases |ps|
  {
    if ps != [] {
      SortIsNewestFirst(ps[1..]);
      InsertKeepsOrder(ps[0], SortByDate(ps[1..]));
    }
  }

  /** The sort neither loses nor adds a post. */
  lemma {:induction false} SortPermutes(ps: seq<Post>)
    ensures multiset(SortByDate(ps)) == multiset(ps)
    decreases |ps|
  {
    if ps != [] {
      SortPermutes(ps[1..]);
      InsertPermutes(ps[0], SortByDate(ps[1..]));
      assert ps == [ps[0]] + ps[1..];
    }
  }

  // ---------------------------------------------------------------------
  // The home page and the feed.

  /** `posts.slice(0, n)`. */
  function Take(s: seq<Post>, n: nat): seq<Post>
  {
    if n <= |s| then s[..n] else s
  }

  /** A slice of a newest-first list: the first `n` posts (or all of them),
      each at least as new as every post left out. */
  lemma TakeNewest(s: seq<Post>, n: nat)
    requires NewestFirst(s)
    ensures var t := Take(s, n);
      && |t| == (if n <= |s| then n else |s|) && t == s[..|t|]
      && forall i, j | 0 <= i < |t| <= j < |s| :: NotOlder(t[i], s[j])
  {
  }

  /** The posts a build lists, newest first. */
  function Listed(files: seq<string>): Result<seq<Post>, BuildError>
  {
    var r := PostsOf(files);
    if r.Err? then r else Ok(SortByDate(r.value))
  }

  /** What the home page and the feed show: at most five and at most
      `POSTS_PER_RSS` posts, no draft, each at least as new as every listed
      post left out. */
  lemma HomeAndFeed(files: seq<string>)
    requires Listed(files).Ok?
    ensures var s := Listed(files).value;
      && NewestFirst(s) && multiset(s) == multiset(PostsOf(files).value)
      && (forall p | p in s :: !IsDraft(p.meta) && ValidatePost(p.meta).Ok?)
      && |Take(s, HomeCount)| == (if |s| < HomeCount then |s| else HomeCount)
      && |Take(s, PostsPerRss)| == (if |s| < PostsPerRss then |s| else PostsPerRss)
      && (forall i, j | 0 <= i < |Take(s, HomeCount)| <= j < |s| :: NotOlder(s[i], s[j]))
      && (forall i, j | 0 <= i < |Take(s, PostsPerRss)| <= j < |s| :: NotOlder(s[i], s[j]))
  {
    var ps := PostsOf(files).value;
    var s := SortByDate(ps);
    SortIsNewestFirst(ps);
    SortPermutes(ps);
    PostsAreValid(files);
    forall p | p in s ensures !IsDraft(p.meta) && ValidatePost(p.meta).Ok? {
      assert p in multiset(s);
    }
    TakeNewest(s, HomeCount);
    TakeNewest(s, PostsPerRss);
  }
}
