/** The Python `str` operations the tool relies on, over Dafny strings. Each
    function is named after the Python method it stands for, and its lemmas
    pin down the behaviour the rest of the model depends on. */
module PyText {

  datatype Option<T> = None | Some(value: T)

  /** A value as `json.load` returns it: objects are dictionaries keyed by
      strings; a number keeps the text it was written with. */
  datatype Json =
    | Null
    | Bool(b: bool)
    | Number(literal: string)
    | Str(s: string)
    | Array(items: seq<Json>)
    | Object(fields: map<string, Json>)

  /** The characters Python's `str.isspace()` accepts, which are exactly
      the ones `str.strip()` with no argument removes. */
  const Whitespace: set<char> := {
    ' ', '\t', '\n', '\U{0B}', '\U{0C}', '\r', '\U{1C}', '\U{1D}', '\U{1E}', '\U{1F}',
    '\U{85}', '\U{A0}', '\U{1680}', '\U{2000}', '\U{2001}', '\U{2002}', '\U{2003}',
    '\U{2004}', '\U{2005}', '\U{2006}', '\U{2007}', '\U{2008}', '\U{2009}', '\U{200A}',
    '\U{2028}', '\U{2029}', '\U{202F}', '\U{205F}', '\U{3000}'
  }

  /** `c.isspace()` */
  predicate IsSpace(c: char) {
    c in Whitespace
  }

  predicate AllSpace(s: string) {
    forall k :: 0 <= k < |s| ==> IsSpace(s[k])
  }

  /** The second half of `Strip`: trailing whitespace removed, as
      `s.rstrip()` does (what this gives is lemma StripRightTrims). */
  function StripRight(s: string): string {
    if s != [] && IsSpace(s[|s| - 1]) then StripRight(s[..|s| - 1]) else s
  }

  /** StripRight keeps a prefix of `s`, removes only whitespace, and leaves no
      whitespace at the end. */
  lemma {:induction false} StripRightTrims(s: string)
    ensures |StripRight(s)| <= |s| && StripRight(s) == s[..|StripRight(s)|]
    ensures AllSpace(s[|StripRight(s)|..])
    ensures StripRight(s) != [] ==> !IsSpace(StripRight(s)[|StripRight(s)| - 1])
  {
    if s != [] && IsSpace(s[|s| - 1]) {
      var r := StripRight(s[..|s| - 1]);
      StripRightTrims(s[..|s| - 1]);
      assert s[|r|..] == s[..|s| - 1][|r|..] + [s[|s| - 1]];
    }
  }

  /** `s.strip()`: leading whitespace skipped one character at a time, then
      the trailing whitespace removed (what this gives is lemma
      StripTrims). */
  function Strip(s: string): string {
    if s != [] && IsSpace(s[0]) then Strip(s[1..]) else StripRight(s)
  }

  /** Strip leaves no whitespace at either end of a shorter text, and gives
      the empty text exactly when `s` is all whitespace. */
  lemma {:induction false} StripTrims(s: string)
    ensures |Strip(s)| <= |s|
    ensures Strip(s) != [] ==> !IsSpace(Strip(s)[0]) && !IsSpace(Strip(s)[|Strip(s)| - 1])
    ensures Strip(s) == [] <==> AllSpace(s)
  {
    if s != [] && IsSpace(s[0]) {
      StripTrims(s[1..]);
      if AllSpace(s[1..]) {
        forall k | 0 <= k < |s| ensures IsSpace(s[k]) {
          if k > 0 {
            assert s[k] == s[1..][k - 1];
          }
        }
      }
    } else {
      var r := StripRight(s);
      StripRightTrims(s);
      assert r == [] ==> s == s[|r|..];
    }
  }

  lemma {:induction false} StripSkipsLeading(pre: string, u: string)
    requires AllSpace(pre)
    ensures Strip(pre + u) == Strip(u)
  {
    if pre != [] {
      assert (pre + u)[0] == pre[0] && IsSpace(pre[0]);
      assert (pre + u)[1..] == pre[1..] + u;
      assert AllSpace(pre[1..]) by {
        forall k | 0 <= k < |pre[1..]| ensures IsSpace(pre[1..][k]) {
          assert pre[1..][k] == pre[k + 1];
        }
      }
      StripSkipsLeading(pre[1..], u);
    } else {
      assert pre + u == u;
    }
  }

  lemma {:induction false} StripRightPadded(u: string, post: string)
    requires AllSpace(post)
    requires u == [] || !IsSpace(u[|u| - 1])
    ensures StripRight(u + post) == u
  {
    if post != [] {
      assert (u + post)[..|u + post| - 1] == u + post[..|post| - 1];
      StripRightPadded(u, post[..|post| - 1]);
    }
  }

  /** Strip is characterised by its result: a text with no whitespace at its
      ends, surrounded by whitespace only, is what strip gives back. */
  lemma StripPadded(pre: string, t: string, post: string)
    requires AllSpace(pre) && AllSpace(post)
    requires t != [] ==> !IsSpace(t[0]) && !IsSpace(t[|t| - 1])
    ensures Strip(pre + t + post) == t
  {
    if t == [] {
      assert AllSpace(pre + t + post);
      StripTrims(pre + t + post);
    } else {
      assert pre + t + post == pre + (t + post);
      StripSkipsLeading(pre, t + post);
      StripRightPadded(t, post);
    }
  }

  /** The same with nothing before the text. */
  lemma StripPaddedRight(t: string, post: string)
    requires AllSpace(post)
    requires t != [] ==> !IsSpace(t[0]) && !IsSpace(t[|t| - 1])
    ensures Strip(t + post) == t
  {
    if t == [] {
      assert t + post == post;
      StripTrims(post);
    } else {
      assert (t + post)[0] == t[0];
      StripRightPadded(t, post);
    }
  }

  /** Python's `str.lower()` on one character, for ASCII letters. */
  function LowerChar(c: char): char {
    if 'A' <= c <= 'Z' then (c as int + 32) as char else c
  }

  /** `s.lower()` */
  function Lower(s: string): (r: string)
    ensures |r| == |s|
    ensures forall k :: 0 <= k < |s| ==> r[k] == LowerChar(s[k])
  {
    seq(|s|, k requires 0 <= k < |s| => LowerChar(s[k]))
  }

  /** Lower-casing twice is lower-casing once. */
  lemma LowerIdempotent(s: string)
    ensures Lower(Lower(s)) == Lower(s)
  {
  }

  /** Lower-casing leaves whitespace where it is. */
  lemma LowerKeepsSpace(s: string)
    ensures AllSpace(Lower(s)) <==> AllSpace(s)
  {
    assert forall k :: 0 <= k < |s| ==> (IsSpace(Lower(s)[k]) <==> IsSpace(s[k]));
  }

  /** `pat` occurs in `s` starting at index `i`. */
  predicate OccursAt(s: string, pat: string, i: int) {
    0 <= i && i + |pat| <= |s| && s[i..i + |pat|] == pat
  }

  lemma {:induction false} OccursShift(s: string, pat: string, i: int)
    requires s != [] && 1 <= i
    ensures OccursAt(s, pat, i) <==> OccursAt(s[1..], pat, i - 1)
  {
    if i + |pat| <= |s| {
      var a, b := s[i..i + |pat|], s[1..][i - 1..i - 1 + |pat|];
      forall j | 0 <= j < |pat| ensures a[j] == b[j] {
        assert b[j] == s[1..][i - 1 + j];
      }
      assert a == b;
    }
  }

  /** `s.find(pat)`: the index of the first occurrence of `pat`, or -1
      (that it is the first is lemma FindIsFirst). */
  function Find(s: string, pat: string): (r: int)
    ensures -1 <= r
    ensures r >= 0 ==> OccursAt(s, pat, r)
  {
    if |s| < |pat| then -1
    else if s[..|pat|] == pat then 0
    else
      var k := Find(s[1..], pat);
      if k < 0 then -1 else (OccursShift(s, pat, k + 1); k + 1)
  }

  /** No occurrence of `pat` starts before the index `find` reports, and
      none at all when it reports -1. */
  lemma {:induction false} FindIsFirst(s: string, pat: string, i: int)
    requires 0 <= i
    requires Find(s, pat) < 0 || i < Find(s, pat)
    ensures !OccursAt(s, pat, i)
  {
    if |s| >= |pat| && s[..|pat|] != pat && i > 0 {
      FindIsFirst(s[1..], pat, i - 1);
      OccursShift(s, pat, i);
    }
  }

  /** A prefix that does not contain the first character of `pat` holds no
      occurrence of it: `find` skips over it. */
  lemma {:induction false} FindPast(p: string, t: string, pat: string)
    requires pat != [] && pat[0] !in p
    ensures Find(p + t, pat) == if Find(t, pat) < 0 then -1 else |p| + Find(t, pat)
  {
    if p != [] {
      assert (p + t)[1..] == p[1..] + t;
      FindPast(p[1..], t, pat);
      if |p + t| >= |pat| {
        assert (p + t)[..|pat|][0] == p[0];
      }
    } else {
      assert p + t == t;
    }
  }

  /** An occurrence of `pat` at the very start is the one `find` reports. */
  lemma FindAtStart(t: string, pat: string)
    ensures Find(pat + t, pat) == 0
  {
    assert (pat + t)[..|pat|] == pat;
  }

  /** An occurrence of `pat` right after `p` is the one `find` reports when
      no earlier one starts within `p` (one that starts within `p` ends
      before the last character of this one). */
  lemma {:induction false} FindFirstAt(p: string, pat: string, t: string)
    requires pat != [] && !Contains(p + pat[..|pat| - 1], pat)
    ensures Find(p + pat + t, pat) == |p|
  {
    if p == [] {
      assert p + pat + t == pat + t;
      FindAtStart(t, pat);
    } else {
      NotAtStart(p, pat, t);
      NoneInTail(p + pat[..|pat| - 1], pat);
      assert (p + pat[..|pat| - 1])[1..] == p[1..] + pat[..|pat| - 1];
      FindFirstAt(p[1..], pat, t);
      assert (p + pat + t)[1..] == p[1..] + pat + t;
    }
  }

  lemma NotAtStart(p: string, pat: string, t: string)
    requires p != [] && pat != [] && !Contains(p + pat[..|pat| - 1], pat)
    ensures (p + pat + t)[..|pat|] != pat
  {
    var q := p + pat[..|pat| - 1];
    ContainsIff(q, pat);
    assert !OccursAt(q, pat, 0);
    assert q[..|pat|] == (p + pat + t)[..|pat|];
  }

  lemma NoneInTail(q: string, pat: string)
    requires q != [] && !Contains(q, pat)
    ensures !Contains(q[1..], pat)
  {
    ContainsIff(q, pat);
    forall i | 0 <= i ensures !OccursAt(q[1..], pat, i) {
      OccursShift(q, pat, i + 1);
    }
    ContainsIff(q[1..], pat);
  }

  /** `pat in s` */
  predicate Contains(s: string, pat: string) {
    Find(s, pat) >= 0
  }

  lemma ContainsIff(s: string, pat: string)
    ensures Contains(s, pat) <==> exists i :: OccursAt(s, pat, i)
  {
    if !Contains(s, pat) {
      forall i | 0 <= i ensures !OccursAt(s, pat, i) {
        FindIsFirst(s, pat, i);
      }
    }
  }

  /** The empty string is in every string. */
  lemma ContainsEmpty(s: string)
    ensures Contains(s, [])
  {
  }

  /** An occurrence of `pat` in `s` puts every character of `pat` in `s`. */
  lemma ContainsChars(s: string, pat: string, c: char)
    requires Contains(s, pat) && c in pat
    ensures c in s
  {
    var i := Find(s, pat);
    var j :| 0 <= j < |pat| && pat[j] == c;
    assert s[i..i + |pat|][j] == s[i + j];
  }

  /** Occurrences survive putting text on either side. */
  lemma ContainsInside(a: string, pat: string, b: string)
    ensures Contains(a + pat + b, pat)
  {
    assert (a + pat + b)[|a|..|a| + |pat|] == pat;
    assert OccursAt(a + pat + b, pat, |a|);
    ContainsIff(a + pat + b, pat);
  }

  /** `s.endswith(suffix)` */
  predicate EndsWith(s: string, suffix: string) {
    |suffix| <= |s| && s[|s| - |suffix|..] == suffix
  }

  /** `s.split(pat, 1)[-1]` when `pat in s`: the text after the first
      occurrence of `pat`. */
  function AfterFirst(s: string, pat: string): (r: string)
    requires Contains(s, pat)
    ensures exists i :: OccursAt(s, pat, i) && r == s[i + |pat|..]
  {
    s[Find(s, pat) + |pat|..]
  }

  /** `s[n:]` */
  function DropFirst(s: string, n: nat): (r: string)
    ensures |s| >= n ==> s == s[..n] + r
    ensures |s| < n ==> r == []
  {
    if |s| >= n then s[n..] else []
  }

  /** `s[:-n]` for a positive `n` */
  function DropLast(s: string, n: nat): (r: string)
    requires n > 0
    ensures |s| >= n ==> s == r + s[|s| - n..]
    ensures |s| < n ==> r == []
  {
    if |s| >= n then s[..|s| - n] else []
  }

  /** `s.replace(pat, '')`: a left-to-right scan that deletes each
      non-overlapping occurrence of `pat`. Occurrences that the deletions
      themselves bring together are not deleted again. */
  function RemoveAll(s: string, pat: string): (r: string)
    requires pat != []
    ensures |r| <= |s|
    decreases |s|
  {
    if |s| < |pat| then s
    else if s[..|pat|] == pat then RemoveAll(s[|pat|..], pat)
    else [s[0]] + RemoveAll(s[1..], pat)
  }

  /** Reference definition of `s.replace(pat, '')` in terms of `find`:
      keep the text before the first occurrence, drop the occurrence, and
      carry on after it. */
  function RemoveAllByFind(s: string, pat: string): string
    requires pat != []
    decreases |s|
  {
    var k := Find(s, pat);
    if k < 0 then s else s[..k] + RemoveAllByFind(s[k + |pat|..], pat)
  }

  /** The scanning definition and the find-based one agree everywhere. */
  lemma {:induction false} RemoveAllAgrees(s: string, pat: string)
    requires pat != []
    ensures RemoveAll(s, pat) == RemoveAllByFind(s, pat)
    decreases |s|
  {
    if |s| < |pat| {
    } else if s[..|pat|] == pat {
      RemoveAllAgrees(s[|pat|..], pat);
    } else {
      RemoveAllAgrees(s[1..], pat);
      RemoveAllByFindStep(s, pat);
    }
  }

  /** Unfolds the find-based definition at an occurrence. */
  lemma {:induction false} RemoveAllByFindAt(s: string, pat: string)
    requires pat != [] && Find(s, pat) >= 0
    ensures RemoveAllByFind(s, pat)
         == s[..Find(s, pat)] + RemoveAllByFind(s[Find(s, pat) + |pat|..], pat)
  {
  }

  /** One step of the find-based definition past a first character that
      does not start an occurrence. */
  lemma {:induction false} RemoveAllByFindStep(s: string, pat: string)
    requires pat != [] && |s| >= |pat| && s[..|pat|] != pat
    ensures RemoveAllByFind(s, pat) == [s[0]] + RemoveAllByFind(s[1..], pat)
  {
    if Find(s[1..], pat) >= 0 {
      RemoveAllByFindShift(s, pat);
    } else {
      assert [s[0]] + s[1..] == s;
    }
  }

  lemma {:induction false} RemoveAllByFindShift(s: string, pat: string)
    requires pat != [] && s != []
    requires Find(s[1..], pat) >= 0 && Find(s, pat) == Find(s[1..], pat) + 1
    ensures RemoveAllByFind(s, pat) == [s[0]] + RemoveAllByFind(s[1..], pat)
  {
    var k := Find(s[1..], pat);
    RemoveAllByFindAt(s, pat);
    RemoveAllByFindAt(s[1..], pat);
    TailShift(s, k + |pat|);
    ConcatShift(s, k, RemoveAllByFind(s[k + 1 + |pat|..], pat));
  }

  lemma TailShift(s: string, j: nat)
    requires j < |s|
    ensures s[1..][j..] == s[j + 1..]
  {
  }

  lemma ConcatShift(s: string, k: nat, a: string)
    requires k < |s|
    ensures s[..k + 1] + a == [s[0]] + (s[1..][..k] + a)
  {
    assert s[..k + 1] == [s[0]] + s[1..][..k];
  }

  /** `replace` keeps a prefix that does not contain the first character of
      `pat`, and deletes an occurrence at the start. */
  lemma {:induction false} RemoveAllPast(p: string, t: string, pat: string)
    requires pat != [] && pat[0] !in p
    ensures RemoveAll(p + t, pat) == p + RemoveAll(t, pat)
  {
    if p != [] {
      assert (p + t)[1..] == p[1..] + t;
      RemoveAllPast(p[1..], t, pat);
      if |p + t| >= |pat| {
        assert (p + t)[..|pat|][0] == p[0];
      } else {
        assert |t| < |pat|;
      }
      assert [p[0]] + (p[1..] + RemoveAll(t, pat)) == p + RemoveAll(t, pat);
    } else {
      assert p + t == t;
    }
  }

  lemma RemoveAllAtStart(t: string, pat: string)
    requires pat != []
    ensures RemoveAll(pat + t, pat) == RemoveAll(t, pat)
  {
    assert (pat + t)[..|pat|] == pat;
    assert (pat + t)[|pat|..] == t;
  }

  /** With no occurrence of `pat`, `replace` changes nothing. */
  lemma RemoveAllAbsent(s: string, pat: string)
    requires pat != [] && !Contains(s, pat)
    ensures RemoveAll(s, pat) == s
  {
    RemoveAllAgrees(s, pat);
  }

  /** `s.split(sep)` for a one-character separator. */
  function Split(s: string, sep: char): (parts: seq<string>)
    ensures |parts| >= 1
    ensures forall k :: 0 <= k < |parts| ==> sep !in parts[k]
    ensures sep in s <==> |parts| >= 2
  {
    if s == [] then [[]]
    else
      var rest := Split(s[1..], sep);
      if s[0] == sep then [[]] + rest
      else [[s[0]] + rest[0]] + rest[1..]
  }

  /** `sep.join(parts)` */
  function Join(parts: seq<string>, sep: string): string {
    if parts == [] then []
    else if |parts| == 1 then parts[0]
    else parts[0] + sep + Join(parts[1..], sep)
  }

  /** Splitting on a character and joining with it gives the text back. */
  lemma {:induction false} JoinSplit(s: string, sep: char)
    ensures Join(Split(s, sep), [sep]) == s
  {
    if s != [] {
      JoinSplit(s[1..], sep);
      var rest := Split(s[1..], sep);
      if s[0] == sep {
        assert ([[]] + rest)[1..] == rest;
      } else {
        var parts := [[s[0]] + rest[0]] + rest[1..];
        if |rest| == 1 {
          assert parts == [[s[0]] + rest[0]];
        } else {
          assert parts[1..] == rest[1..];
          assert Join(rest, [sep]) == rest[0] + [sep] + Join(rest[1..], [sep]);
        }
      }
    }
  }

  /** The last two pieces of a join sit at its end, separated once. */
  lemma {:induction false} JoinEndsWithLastTwo(parts: seq<string>, sep: string)
    requires |parts| >= 2
    ensures EndsWith(Join(parts, sep), parts[|parts| - 2] + sep + parts[|parts| - 1])
  {
    if |parts| > 2 {
      JoinEndsWithLastTwo(parts[1..], sep);
      var j := Join(parts[1..], sep);
      assert Join(parts, sep) == (parts[0] + sep) + j;
    }
  }

  /** The last two pieces are whole pieces: with exactly two, the join is
      them; with more, a separator precedes the second-to-last. */
  lemma {:induction false} JoinEndsWithWholeLastTwo(parts: seq<string>, sep: string)
    requires |parts| >= 2
    ensures |parts| == 2 ==> Join(parts, sep) == parts[0] + sep + parts[1]
    ensures |parts| > 2 ==>
      EndsWith(Join(parts, sep), sep + parts[|parts| - 2] + sep + parts[|parts| - 1])
  {
    if |parts| > 2 {
      var rest := parts[1..];
      var tail := sep + rest[|rest| - 2] + sep + rest[|rest| - 1];
      JoinEndsWithWholeLastTwo(rest, sep);
      assert Join(parts, sep) == (parts[0] + sep) + Join(rest, sep);
      if |rest| == 2 {
        EndsWithOwnSuffix(parts[0], rest[0], rest[1], sep);
      } else {
        EndsWithAfter(parts[0] + sep, Join(rest, sep), tail);
      }
      assert rest[|rest| - 2] == parts[|parts| - 2] && rest[|rest| - 1] == parts[|parts| - 1];
    }
  }

  lemma EndsWithOwnSuffix(a: string, b: string, c: string, sep: string)
    ensures EndsWith((a + sep) + (b + sep + c), sep + b + sep + c)
  {
    assert (a + sep) + (b + sep + c) == a + (sep + b + sep + c);
  }

  lemma EndsWithAfter(a: string, b: string, suffix: string)
    requires EndsWith(b, suffix)
    ensures EndsWith(a + b, suffix)
  {
    assert (a + b)[|a + b| - |suffix|..] == b[|b| - |suffix|..];
  }

  /** A character in no piece and not in the separator is not in the join. */
  lemma {:induction false} JoinAvoids(parts: seq<string>, sep: string, c: char)
    requires c !in sep
    requires forall k :: 0 <= k < |parts| ==> c !in parts[k]
    ensures c !in Join(parts, sep)
  {
    if |parts| > 1 {
      JoinAvoids(parts[1..], sep, c);
    }
  }

  /** Joining non-empty pieces: the first starts the join, the last ends it. */
  lemma {:induction false} JoinEnds(parts: seq<string>, sep: string)
    requires |parts| >= 1 && forall k :: 0 <= k < |parts| ==> parts[k] != []
    ensures Join(parts, sep) != []
    ensures Join(parts, sep)[0] == parts[0][0]
    ensures EndsWith(Join(parts, sep), parts[|parts| - 1])
  {
    if |parts| > 1 {
      JoinEnds(parts[1..], sep);
      var j := Join(parts[1..], sep);
      assert Join(parts, sep) == (parts[0] + sep) + j;
    }
  }

  /** A text without the separator splits into itself. */
  lemma {:induction false} SplitNoSep(s: string, sep: char)
    requires sep !in s
    ensures Split(s, sep) == [s]
  {
    if s != [] {
      SplitNoSep(s[1..], sep);
      assert [s[0]] + s[1..] == s;
    }
  }

  /** A separator in the middle splits the text into the pieces of either side. */
  lemma {:induction false} SplitConcat(a: string, b: string, sep: char)
    ensures Split(a + [sep] + b, sep) == Split(a, sep) + Split(b, sep)
  {
    if a == [] {
      assert a + [sep] + b == [sep] + b;
      SplitCons(sep, b, sep);
    } else {
      var t := a[1..] + [sep] + b;
      FrontOf(a, sep, b);
      SplitCons(a[0], t, sep);
      SplitCons(a[0], a[1..], sep);
      SplitConcat(a[1..], b, sep);
      if a[0] != sep {
        ConsFirst(a[0], Split(a[1..], sep), Split(b, sep));
      } else {
        ConsEmpty(Split(a[1..], sep), Split(b, sep));
      }
    }
  }

  lemma FrontOf(a: string, sep: char, b: string)
    requires a != []
    ensures a + [sep] + b == [a[0]] + (a[1..] + [sep] + b)
    ensures a == [a[0]] + a[1..]
  {
  }

  /** One step of Split at the front of a text. */
  lemma SplitCons(c: char, t: string, sep: char)
    ensures Split([c] + t, sep)
         == if c == sep then [[]] + Split(t, sep) else [[c] + Split(t, sep)[0]] + Split(t, sep)[1..]
  {
    assert ([c] + t)[1..] == t;
  }

  lemma ConsEmpty(head: seq<string>, tail: seq<string>)
    ensures [[]] + (head + tail) == ([[]] + head) + tail
  {
  }

  lemma ConsFirst(c: char, head: seq<string>, tail: seq<string>)
    requires |head| >= 1
    ensures [[c] + (head + tail)[0]] + (head + tail)[1..] == ([[c] + head[0]] + head[1..]) + tail
  {
    assert (head + tail)[1..] == head[1..] + tail;
  }

  /** Joining separator-free pieces and splitting again gives the pieces back. */
  lemma {:induction false} SplitJoin(parts: seq<string>, sep: char)
    requires |parts| >= 1
    requires forall k :: 0 <= k < |parts| ==> sep !in parts[k]
    ensures Split(Join(parts, [sep]), sep) == parts
  {
    if |parts| == 1 {
      SplitNoSep(parts[0], sep);
    } else {
      SplitJoin(parts[1..], sep);
      SplitNoSep(parts[0], sep);
      SplitConcat(parts[0], Join(parts[1..], [sep]), sep);
    }
  }

  function DigitChar(d: nat): char
    requires d < 10
  {
    ('0' as int + d) as char
  }

  predicate IsDigit(c: char) {
    '0' <= c <= '9'
  }

  /** `str(n)` for a non-negative integer: decimal digits, no leading zero. */
  function NatToString(n: nat): (r: string)
    ensures r != [] && forall k :: 0 <= k < |r| ==> IsDigit(r[k])
    ensures r[0] == '0' ==> n == 0 && r == "0"
    decreases n
  {
    if n < 10 then [DigitChar(n)] else NatToString(n / 10) + [DigitChar(n % 10)]
  }

  /** `int(s)` for a string of decimal digits. */
  function DecimalValue(s: string): nat
    requires forall k :: 0 <= k < |s| ==> IsDigit(s[k])
  {
    if s == [] then 0
    else
      assert IsDigit(s[|s| - 1]);
      DecimalValue(s[..|s| - 1]) * 10 + (s[|s| - 1] as int - '0' as int)
  }

  /** `int(str(n)) == n` */
  lemma {:induction false} DecimalRoundTrip(n: nat)
    ensures DecimalValue(NatToString(n)) == n
    decreases n
  {
    if n >= 10 {
      DecimalRoundTrip(n / 10);
      var r := NatToString(n);
      assert r[..|r| - 1] == NatToString(n / 10);
    }
  }
}
