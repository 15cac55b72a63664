/**
 * The JavaScript string primitives the build script relies on, written out
 * as explicit character-level definitions: the `\s` / `trim()` whitespace set,
 * ASCII lower-casing, `startsWith`, `join`, `split(/\r?\n/)`, and the literal
 * (non-pattern) forms of `split` and global replacement.
 */
module JsText {

  datatype Option<T> = None | Some(value: T)

  datatype Result<T, E> = Ok(value: T) | Err(error: E)

  /** The ECMAScript WhiteSpace and LineTerminator code points: the set
      matched by `\s` and removed by `String.prototype.trim`. */
  predicate IsSpace(c: char)
  {
    || c == '\t' || c == '\n' || c == '\U{000B}' || c == '\U{000C}' || c == '\r'
    || c == ' ' || c == '\U{00A0}' || c == '\U{1680}' || ('\U{2000}' <= c <= '\U{200A}')
    || c == '\U{2028}' || c == '\U{2029}' || c == '\U{202F}' || c == '\U{205F}'
    || c == '\U{3000}' || c == '\U{FEFF}'
  }

  /** The characters a JavaScript `.` does not match. */
  predicate IsLineTerminator(c: char)
  {
    c == '\n' || c == '\r' || c == '\U{2028}' || c == '\U{2029}'
  }

  predicate AllSpace(s: string)
  {
    forall i | 0 <= i < |s| :: IsSpace(s[i])
  }

  /** `trimStart`: drops the longest all-whitespace prefix. */
  function TrimStart(s: string): (r: string)
    ensures |r| <= |s| && r == s[|s| - |r|..]
    ensures AllSpace(s[..|s| - |r|])
    ensures r == [] || !IsSpace(r[0])
  {
    if s != [] && IsSpace(s[0]) then TrimStart(s[1..]) else s
  }

  /** `trimEnd`: drops the longest all-whitespace suffix. */
  function TrimEnd(s: string): (r: string)
    ensures |r| <= |s| && r == s[..|r|]
    ensures AllSpace(s[|r|..])
    ensures r == [] || !IsSpace(r[|r| - 1])
  {
    if s != [] && IsSpace(s[|s| - 1]) then TrimEnd(s[..|s| - 1]) else s
  }

  lemma {:induction false} TrimStartEmpty(s: string)
    ensures TrimStart(s) == [] <==> AllSpace(s)
    decreases |s|
  {
    if s != [] && IsSpace(s[0]) {
      TrimStartEmpty(s[1..]);
      assert AllSpace(s) <==> AllSpace(s[1..]) by {
        assert forall i | 1 <= i < |s| :: s[i] == s[1..][i - 1];
        assert forall i | 0 <= i < |s[1..]| :: s[1..][i] == s[i + 1];
      }
    } else if s != [] {
      assert !IsSpace(s[0]);
    }
  }

  lemma {:induction false} TrimEndEmpty(s: string)
    ensures TrimEnd(s) == [] <==> AllSpace(s)
    decreases |s|
  {
    if s != [] && IsSpace(s[|s| - 1]) {
      var u := s[..|s| - 1];
      TrimEndEmpty(u);
      assert AllSpace(s) <==> AllSpace(u) by {
        assert forall i | 0 <= i < |u| :: u[i] == s[i];
      }
    } else if s != [] {
      assert !IsSpace(s[|s| - 1]);
    }
  }

  /** `String.prototype.trim`. */
  function Trim(s: string): (r: string)
    ensures r == [] <==> AllSpace(s)
    ensures r != [] ==> !IsSpace(r[0]) && !IsSpace(r[|r| - 1])
  {
    var t := TrimStart(s);
    TrimStartEmpty(s);
    TrimEndEmpty(t);
    assert t != [] ==> !AllSpace(t) by {
      if t != [] { assert !IsSpace(t[0]); }
    }
    var r := TrimEnd(t);
    assert r != [] ==> r[0] == t[0];
    r
  }

  /** ASCII lower-casing; other characters are left as they are. */
  function LowerChar(c: char): char
  {
    if 'A' <= c <= 'Z' then (c as int + 32) as char else c
  }

  function Lower(s: string): (r: string)
    ensures |r| == |s|
  {
    seq(|s|, i requires 0 <= i < |s| => LowerChar(s[i]))
  }

  predicate StartsWith(s: string, prefix: string)
  {
    |prefix| <= |s| && s[..|prefix|] == prefix
  }

  predicate EndsWith(s: string, suffix: string)
  {
    |suffix| <= |s| && s[|s| - |suffix|..] == suffix
  }

  /** Does `pat` occur in `s` starting at index `i`? */
  predicate OccursAt(s: string, pat: string, i: nat)
  {
    i + |pat| <= |s| && s[i..i + |pat|] == pat
  }

  predicate Contains(s: string, pat: string)
  {
    exists i: nat | i + |pat| <= |s| :: OccursAt(s, pat, i)
  }

  /** `Array.prototype.join(sep)` over strings. */
  function Join(parts: seq<string>, sep: string): string
  {
    if |parts| == 0 then ""
    else if |parts| == 1 then parts[0]
    else parts[0] + sep + Join(parts[1..], sep)
  }

  /** `'s'.repeat(n)`. */
  function Repeat(s: string, n: nat): (r: string)
    ensures |r| == n * |s|
  {
    if n == 0 then "" else s + Repeat(s, n - 1)
  }

  /** `String(n)` for a natural number: its decimal digits. */
  function Decimal(n: nat): (r: string)
    ensures |r| >= 1 && forall i | 0 <= i < |r| :: '0' <= r[i] <= '9'
  {
    if n < 10 then [('0' as int + n) as char]
    else Decimal(n / 10) + [('0' as int + n % 10) as char]
  }

  /** Index of the first `c` at or after `from`, if any. */
  function IndexOfChar(s: string, c: char, from: nat): (r: Option<nat>)
    decreases |s| - from
    ensures r.Some? ==> from <= r.value < |s| && s[r.value] == c
    ensures forall k | from <= k < |s| && (r.None? || k < r.value) :: s[k] != c
  {
    if from >= |s| then None
    else if s[from] == c then Some(from)
    else IndexOfChar(s, c, from + 1)
  }

  /** `s.split(/\r?\n/)`: pieces end at the first `\n`, and a `\r` right before
      that `\n` belongs to the separator. */
  function SplitLines(s: string): (r: seq<string>)
    decreases |s|
    ensures |r| >= 1
    ensures forall k | 0 <= k < |r| :: '\n' !in r[k]
  {
    match IndexOfChar(s, '\n', 0)
    case None => [s]
    case Some(n) =>
      var piece := if n > 0 && s[n - 1] == '\r' then s[..n - 1] else s[..n];
      assert forall j | 0 <= j < |piece| :: piece[j] == s[j];
      [piece] + SplitLines(s[n + 1..])
  }

  /** Literal global replacement, as `replaceAll(pat, rep)` or
      `replace(/pat/g, rep)` perform it when `rep` holds no `$`: the leftmost
      occurrence is replaced, and the search resumes after it. */
  function ReplaceAll(s: string, pat: string, rep: string): string
    requires |pat| > 0
    decreases |s|
  {
    if |s| < |pat| then s
    else if s[..|pat|] == pat then rep + ReplaceAll(s[|pat|..], pat, rep)
    else [s[0]] + ReplaceAll(s[1..], pat, rep)
  }

  /** `s.split(pat)` for a non-empty literal separator. */
  function SplitOn(s: string, pat: string): (r: seq<string>)
    requires |pat| > 0
    decreases |s|
    ensures |r| >= 1
  {
    if |s| < |pat| then [s]
    else if s[..|pat|] == pat then [""] + SplitOn(s[|pat|..], pat)
    else
      var rest := SplitOn(s[1..], pat);
      [[s[0]] + rest[0]] + rest[1..]
  }

  /** `pat` occurs nowhere in `s`. */
  ghost predicate Free(s: string, pat: string)
  {
    forall i: nat :: !OccursAt(s, pat, i)
  }

  lemma OccursShift(c: char, t: string, pat: string, i: nat)
    ensures OccursAt([c] + t, pat, i + 1) <==> OccursAt(t, pat, i)
  {
    if i + |pat| <= |t| {
      assert ([c] + t)[i + 1..i + 1 + |pat|] == t[i..i + |pat|];
    }
  }

  lemma {:induction false} SplitOnFirstIsPrefix(s: string, pat: string)
    requires |pat| > 0
    ensures StartsWith(s, SplitOn(s, pat)[0])
    decreases |s|
  {
    if |s| < |pat| {
    } else if s[..|pat|] == pat {
    } else {
      SplitOnFirstIsPrefix(s[1..], pat);
    }
  }

  lemma JoinCons(p: string, rest: seq<string>, sep: string)
    requires |rest| >= 1
    ensures Join([p] + rest, sep) == p + sep + Join(rest, sep)
  {
    assert ([p] + rest)[1..] == rest;
  }

  lemma JoinHead(c: char, rest: seq<string>, sep: string)
    requires |rest| >= 1
    ensures Join([[c] + rest[0]] + rest[1..], sep) == [c] + Join(rest, sep)
  {
    if |rest| == 1 {
    } else {
      JoinCons(rest[0], rest[1..], sep);
      JoinCons([c] + rest[0], rest[1..], sep);
    }
  }

  /** Splitting at `pat` and joining with `pat` gives back the string. */
  lemma {:induction false} SplitOnJoin(s: string, pat: string)
    requires |pat| > 0
    ensures Join(SplitOn(s, pat), pat) == s
    decreases |s|
  {
    if |s| < |pat| {
    } else if s[..|pat|] == pat {
      var rest := SplitOn(s[|pat|..], pat);
      SplitOnJoin(s[|pat|..], pat);
      assert SplitOn(s, pat) == [""] + rest;
      JoinCons("", rest, pat);
      assert s == pat + s[|pat|..];
    } else {
      var rest := SplitOn(s[1..], pat);
      SplitOnJoin(s[1..], pat);
      assert SplitOn(s, pat) == [[s[0]] + rest[0]] + rest[1..];
      JoinHead(s[0], rest, pat);
      assert s == [s[0]] + s[1..];
    }
  }

  /** No piece of the split holds an occurrence of the separator. */
  lemma {:induction false} SplitOnPiecesFree(s: string, pat: string)
    requires |pat| > 0
    ensures forall k | 0 <= k < |SplitOn(s, pat)| :: Free(SplitOn(s, pat)[k], pat)
    decreases |s|
  {
    var r := SplitOn(s, pat);
    if |s| < |pat| {
      forall i: nat ensures !OccursAt(s, pat, i) { }
    } else if s[..|pat|] == pat {
      var rest := SplitOn(s[|pat|..], pat);
      SplitOnPiecesFree(s[|pat|..], pat);
      assert r == [""] + rest;
      forall k | 0 <= k < |r| ensures Free(r[k], pat) {
        if k > 0 {
          assert r[k] == rest[k - 1];
        } else {
          forall i: nat ensures !OccursAt(r[k], pat, i) { }
        }
      }
    } else {
      var rest := SplitOn(s[1..], pat);
      SplitOnPiecesFree(s[1..], pat);
      SplitOnFirstIsPrefix(s[1..], pat);
      var p := [s[0]] + rest[0];
      assert r == [p] + rest[1..];
      assert Free(p, pat) by {
        forall i: nat ensures !OccursAt(p, pat, i) {
          if i == 0 {
            if |pat| <= |p| {
              assert p[..|pat|] == s[..|pat|];
            }
          } else {
            OccursShift(s[0], rest[0], pat, i - 1);
            assert Free(rest[0], pat);
          }
        }
      }
      forall k | 0 <= k < |r| ensures Free(r[k], pat) {
        if k > 0 { assert r[k] == rest[k]; }
      }
    }
  }

  /** Literal global replacement replaces exactly the separators of the split. */
  lemma {:induction false} ReplaceAllIsJoinOfSplit(s: string, pat: string, rep: string)
    requires |pat| > 0
    ensures ReplaceAll(s, pat, rep) == Join(SplitOn(s, pat), rep)
    decreases |s|
  {
    if |s| < |pat| {
    } else if s[..|pat|] == pat {
      ReplaceAllIsJoinOfSplit(s[|pat|..], pat, rep);
      JoinCons("", SplitOn(s[|pat|..], pat), rep);
    } else {
      ReplaceAllIsJoinOfSplit(s[1..], pat, rep);
      JoinHead(s[0], SplitOn(s[1..], pat), rep);
    }
  }

  /** A string without an occurrence of the pattern is left as it is. */
  lemma {:induction false} ReplaceAllFree(s: string, pat: string, rep: string)
    requires |pat| > 0 && Free(s, pat)
    ensures ReplaceAll(s, pat, rep) == s
    decreases |s|
  {
    if |s| < |pat| {
    } else {
      assert !OccursAt(s, pat, 0);
      assert Free(s[1..], pat) by {
        forall i: nat ensures !OccursAt(s[1..], pat, i) {
          OccursShift(s[0], s[1..], pat, i);
          assert [s[0]] + s[1..] == s;
        }
      }
      ReplaceAllFree(s[1..], pat, rep);
    }
  }

  /** Splitting at a one-character separator gives one piece more than
      there are separators. */
  lemma {:induction false} SplitOnCount(s: string, c: char)
    ensures |SplitOn(s, [c])| == multiset(s)[c] + 1
    decreases |s|
  {
    if s != [] {
      SplitOnCount(s[1..], c);
      assert s == [s[0]] + s[1..];
      assert multiset(s) == multiset([s[0]]) + multiset(s[1..]);
      assert s[..1] == [s[0]];
    }
  }

  /** A character absent from a string is absent from its trimmed form. */
  lemma TrimKeepsOut(s: string, c: char)
    requires c !in s
    ensures c !in Trim(s)
  {
    var t := TrimStart(s);
    var r := TrimEnd(t);
    assert Trim(s) == r;
    forall i | 0 <= i < |r| ensures r[i] != c {
      assert r[i] == t[i] == s[|s| - |t| + i];
    }
  }

  /** Looking at a suffix shifts the positions of the occurrences. */
  lemma OccursSuffix(s: string, d: nat, pat: string, i: nat)
    requires d <= |s|
    ensures OccursAt(s[d..], pat, i) <==> OccursAt(s, pat, i + d)
  {
    if i + d + |pat| <= |s| {
      assert s[d..][i..i + |pat|] == s[i + d..i + d + |pat|];
    }
  }

  /** When no occurrence of the pattern overlaps `mid`, replacing in
      `a + mid + b` replaces in `a` and in `b` alone and keeps `mid`. */
  lemma {:induction false} ReplaceAllAround(a: string, mid: string, b: string, pat: string, rep: string)
    requires |pat| > 0
    requires forall i: nat | OccursAt(a + mid + b, pat, i) :: i + |pat| <= |a| || |a| + |mid| <= i
    ensures ReplaceAll(a + mid + b, pat, rep) == ReplaceAll(a, pat, rep) + mid + ReplaceAll(b, pat, rep)
    decreases |a| + |mid|
  {
    var s := a + mid + b;
    if a == [] && mid == [] {
      AroundEmpty(b, pat, rep);
    } else if |s| < |pat| {
      AroundShort(a, mid, b, pat, rep);
    } else if s[..|pat|] == pat {
      assert OccursAt(s, pat, 0);
      var a' := a[|pat|..];
      assert s[|pat|..] == a' + mid + b;
      forall i: nat | OccursAt(a' + mid + b, pat, i) ensures i + |pat| <= |a'| || |a'| + |mid| <= i {
        OccursSuffix(s, |pat|, pat, i);
      }
      ReplaceAllAround(a', mid, b, pat, rep);
      AroundMatch(a, mid, b, pat, rep);
    } else if a != [] {
      assert s[1..] == a[1..] + mid + b;
      forall i: nat | OccursAt(a[1..] + mid + b, pat, i) ensures i + |pat| <= |a[1..]| || |a[1..]| + |mid| <= i {
        OccursSuffix(s, 1, pat, i);
      }
      ReplaceAllAround(a[1..], mid, b, pat, rep);
      AroundSkipFirst(a, mid, b, pat, rep);
    } else {
      forall i: nat | OccursAt(mid + b, pat, i) ensures |mid| <= i {
        assert mid + b == s;
      }
      KeepFront(mid, b, pat, rep);
      AroundFront(a, mid, b, pat, rep);
    }
  }

  /** No occurrence starts inside `mid`: it is kept in front. */
  lemma {:induction false} KeepFront(mid: string, b: string, pat: string, rep: string)
    requires |pat| > 0
    requires forall i: nat | OccursAt(mid + b, pat, i) :: |mid| <= i
    ensures ReplaceAll(mid + b, pat, rep) == mid + ReplaceAll(b, pat, rep)
    decreases |mid|
  {
    if mid == [] {
      assert mid + b == b;
    } else if |mid + b| < |pat| {
      assert ReplaceAll(b, pat, rep) == b;
    } else {
      var s := mid + b;
      assert !OccursAt(s, pat, 0);
      assert s[1..] == mid[1..] + b;
      forall i: nat | OccursAt(mid[1..] + b, pat, i) ensures |mid[1..]| <= i {
        OccursSuffix(s, 1, pat, i);
      }
      KeepFront(mid[1..], b, pat, rep);
      MidStep(mid, b, pat, rep);
    }
  }

  lemma AroundFront(a: string, mid: string, b: string, pat: string, rep: string)
    requires |pat| > 0 && a == []
    requires ReplaceAll(mid + b, pat, rep) == mid + ReplaceAll(b, pat, rep)
    ensures ReplaceAll(a + mid + b, pat, rep) == ReplaceAll(a, pat, rep) + mid + ReplaceAll(b, pat, rep)
  {
    assert a + mid + b == mid + b;
    assert ReplaceAll(a, pat, rep) == [];
  }

  lemma AroundEmpty(b: string, pat: string, rep: string)
    requires |pat| > 0
    ensures ReplaceAll([] + [] + b, pat, rep) == ReplaceAll([], pat, rep) + [] + ReplaceAll(b, pat, rep)
  {
    assert [] + [] + b == b;
    assert ReplaceAll([], pat, rep) == [];
  }

  lemma AroundShort(a: string, mid: string, b: string, pat: string, rep: string)
    requires |pat| > 0 && |a + mid + b| < |pat|
    ensures ReplaceAll(a + mid + b, pat, rep) == ReplaceAll(a, pat, rep) + mid + ReplaceAll(b, pat, rep)
  {
    assert ReplaceAll(a, pat, rep) == a && ReplaceAll(b, pat, rep) == b;
  }

  lemma AroundMatch(a: string, mid: string, b: string, pat: string, rep: string)
    requires |pat| > 0 && |pat| <= |a| && (a + mid + b)[..|pat|] == pat
    requires ReplaceAll(a[|pat|..] + mid + b, pat, rep) == ReplaceAll(a[|pat|..], pat, rep) + mid + ReplaceAll(b, pat, rep)
    ensures ReplaceAll(a + mid + b, pat, rep) == ReplaceAll(a, pat, rep) + mid + ReplaceAll(b, pat, rep)
  {
    var s := a + mid + b;
    assert a[..|pat|] == s[..|pat|];
    assert s[|pat|..] == a[|pat|..] + mid + b;
  }

  lemma AroundSkipFirst(a: string, mid: string, b: string, pat: string, rep: string)
    requires |pat| > 0 && a != [] && |pat| <= |a + mid + b| && (a + mid + b)[..|pat|] != pat
    requires ReplaceAll(a[1..] + mid + b, pat, rep) == ReplaceAll(a[1..], pat, rep) + mid + ReplaceAll(b, pat, rep)
    ensures ReplaceAll(a + mid + b, pat, rep) == ReplaceAll(a, pat, rep) + mid + ReplaceAll(b, pat, rep)
  {
    var s := a + mid + b;
    var ra := ReplaceAll(a[1..], pat, rep);
    var rb := ReplaceAll(b, pat, rep);
    assert s[0] == a[0] && s[1..] == a[1..] + mid + b;
    SkipStep(s, pat, rep);
    assert ReplaceAll(a, pat, rep) == [a[0]] + ra by {
      if |a| >= |pat| {
        assert a[..|pat|] == s[..|pat|];
        SkipStep(a, pat, rep);
      }
    }
    Regroup4([a[0]], ra, mid, rb);
  }

  lemma MidStep(mid: string, b: string, pat: string, rep: string)
    requires |pat| > 0 && mid != [] && |pat| <= |mid + b| && (mid + b)[..|pat|] != pat
    requires ReplaceAll(mid[1..] + b, pat, rep) == mid[1..] + ReplaceAll(b, pat, rep)
    ensures ReplaceAll(mid + b, pat, rep) == mid + ReplaceAll(b, pat, rep)
  {
    var s := mid + b;
    assert s[0] == mid[0] && s[1..] == mid[1..] + b;
    SkipStep(s, pat, rep);
    assert [mid[0]] + mid[1..] == mid;
  }

  /** Where the pattern does not start, the first character is kept. */
  lemma SkipStep(s: string, pat: string, rep: string)
    requires |pat| > 0 && |pat| <= |s| && s[..|pat|] != pat
    ensures ReplaceAll(s, pat, rep) == [s[0]] + ReplaceAll(s[1..], pat, rep)
  {
  }

  lemma Regroup4(c: string, x: string, m: string, y: string)
    ensures c + (x + m + y) == (c + x) + m + y
  {
  }
}
