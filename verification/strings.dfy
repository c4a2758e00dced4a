/**
  The few operations on Python `str` and `list` values that `mktable` relies on,
  written over `string` (= `seq<char>`): `str.replace`, `str.join`,
  `str.count` of one character and `str * k`. `str.split` with a
  one-character separator is here too, although the routine does not call it:
  it is the inverse that the column-spec round trip uses.
 */
module Strings {

  /** `s.replace(pat, rep)`: scan left to right and replace every
      non-overlapping occurrence of the (non-empty) pattern. */
  function ReplaceAll(s: string, pat: string, rep: string): string
    requires |pat| > 0
    decreases |s|
  {
    if |s| < |pat| then s
    else if s[..|pat|] == pat then rep + ReplaceAll(s[|pat|..], pat, rep)
    else [s[0]] + ReplaceAll(s[1..], pat, rep)
  }

  /** An occurrence of `w` starts at index `i` of `s`. */
  predicate MatchAt(s: string, i: int, w: string) {
    0 <= i && i + |w| <= |s| && s[i..i + |w|] == w
  }

  /** `w in s` for Python strings: `w` is a substring of `s`. */
  predicate Contains(s: string, w: string) {
    exists i | 0 <= i <= |s| :: MatchAt(s, i, w)
  }

  /** `sep.join(parts)`. */
  function Join(sep: string, parts: seq<string>): string {
    if |parts| == 0 then ""
    else if |parts| == 1 then parts[0]
    else parts[0] + sep + Join(sep, parts[1..])
  }

  /** `s.split(sep)` for a one-character separator; like Python it always
      returns at least one piece, so `"".split("|") == [""]`. */
  function Split(sep: char, s: string): seq<string>
    decreases |s|
  {
    if |s| == 0 then [""]
    else if s[0] == sep then [""] + Split(sep, s[1..])
    else
      var t := Split(sep, s[1..]);
      [[s[0]] + t[0]] + t[1..]
  }

  /** `s.count(c)` for a one-character argument. */
  function Count(c: char, s: string): nat {
    if |s| == 0 then 0 else (if s[0] == c then 1 else 0) + Count(c, s[1..])
  }

  /** `s * k`; like Python, a count of zero or below gives the empty string. */
  function Repeat(s: string, k: int): string
    decreases k
  {
    if k <= 0 then "" else s + Repeat(s, k - 1)
  }

  // ---------------------------------------------------------------------
  // str.replace with a one-character pattern

  lemma {:induction false} ReplaceCharAbsent(s: string, c: char, rep: string)
    requires c !in s
    ensures ReplaceAll(s, [c], rep) == s
  {
    if |s| > 0 {
      assert s[..1] == [s[0]];
      assert c !in s[1..];
      ReplaceCharAbsent(s[1..], c, rep);
    }
  }

  lemma ReplaceCharSingle(x: char, c: char, rep: string)
    ensures ReplaceAll([x], [c], rep) == if x == c then rep else [x]
  {
    assert [x][..1] == [x];
    assert [x][1..] == [];
  }

  /** A one-character replacement works character by character, so it
      distributes over concatenation. */
  lemma {:induction false} ReplaceCharAppend(a: string, b: string, c: char, rep: string)
    ensures ReplaceAll(a + b, [c], rep) == ReplaceAll(a, [c], rep) + ReplaceAll(b, [c], rep)
  {
    if |a| == 0 {
      assert a + b == b;
      assert ReplaceAll(a, [c], rep) == "";
    } else {
      assert (a + b)[..1] == a[..1] == [a[0]];
      assert (a + b)[1..] == a[1..] + b;
      ReplaceCharAppend(a[1..], b, c, rep);
    }
  }

  /** Replacing never introduces a character that neither the input nor the
      replacement holds. */
  lemma {:induction false} ReplaceKeepsAbsent(s: string, pat: string, rep: string, d: char)
    requires |pat| > 0 && d !in s && d !in rep
    ensures d !in ReplaceAll(s, pat, rep)
    decreases |s|
  {
    if |s| >= |pat| {
      if s[..|pat|] == pat {
        assert forall j :: 0 <= j < |s| - |pat| ==> s[|pat|..][j] == s[|pat| + j];
        ReplaceKeepsAbsent(s[|pat|..], pat, rep, d);
      } else {
        assert forall j :: 0 <= j < |s| - 1 ==> s[1..][j] == s[1 + j];
        ReplaceKeepsAbsent(s[1..], pat, rep, d);
      }
    }
  }

  // ---------------------------------------------------------------------
  // str.replace with a longer pattern

  /** An occurrence at the head is replaced, and scanning resumes after it. */
  lemma ReplaceHead(w: string, y: string, rep: string)
    requires |w| > 0
    ensures ReplaceAll(w + y, w, rep) == rep + ReplaceAll(y, w, rep)
  {
    assert (w + y)[..|w|] == w;
    assert (w + y)[|w|..] == y;
  }

  lemma MatchShift(z: string, i: nat, w: string)
    requires |z| > 0
    ensures MatchAt(z[1..], i, w) ==> MatchAt(z, i + 1, w)
  {
    if i + |w| <= |z| - 1 {
      assert z[1..][i..i + |w|] == z[i + 1..i + 1 + |w|];
    }
  }

  /** A prefix in which no occurrence starts is copied unchanged. */
  lemma {:induction false} ReplaceSkip(x: string, y: string, w: string, rep: string)
    requires |w| > 0
    requires forall i :: 0 <= i < |x| ==> !MatchAt(x + y, i, w)
    ensures ReplaceAll(x + y, w, rep) == x + ReplaceAll(y, w, rep)
    decreases |x|
  {
    var z := x + y;
    if |x| == 0 {
      assert z == y;
    } else {
      assert z[1..] == x[1..] + y;
      assert !MatchAt(z, 0, w);
      assert ReplaceAll(z, w, rep) == [z[0]] + ReplaceAll(z[1..], w, rep);
      forall i | 0 <= i < |x| - 1
        ensures !MatchAt(x[1..] + y, i, w)
      {
        MatchShift(z, i, w);
      }
      ReplaceSkip(x[1..], y, w, rep);
      assert x == [z[0]] + x[1..];
    }
  }

  /** A prefix of `[x] + r` is `x` followed by a prefix of `r`. */
  lemma ConsPrefix(x: char, r: string, p: string)
    requires |p| > 0
    ensures (|p| <= 1 + |r| && ([x] + r)[..|p|] == p) <==>
            (p[0] == x && |p| - 1 <= |r| && r[..|p| - 1] == p[1..])
  {
    if |p| <= 1 + |r| {
      assert ([x] + r)[..|p|] == [x] + r[..|p| - 1];
      assert p == [p[0]] + p[1..];
    }
  }

  // ---------------------------------------------------------------------
  // join, split, count, repeat

  lemma {:induction false} SplitAbsent(sep: char, p: string)
    requires sep !in p
    ensures Split(sep, p) == [p]
  {
    if |p| > 0 {
      assert sep !in p[1..];
      SplitAbsent(sep, p[1..]);
      assert [p[0]] + p[1..] == p;
    }
  }

  lemma {:induction false} SplitPiece(sep: char, p: string, rest: string)
    requires sep !in p
    ensures Split(sep, p + [sep] + rest) == [p] + Split(sep, rest)
    decreases |p|
  {
    var s := p + [sep] + rest;
    if |p| == 0 {
      assert s[1..] == rest;
    } else {
      assert s[1..] == p[1..] + [sep] + rest;
      assert sep !in p[1..];
      SplitPiece(sep, p[1..], rest);
      assert [p[0]] + p[1..] == p;
    }
  }

  /** Splitting undoes joining when no piece holds the separator. */
  lemma {:induction false} SplitJoin(sep: char, parts: seq<string>)
    requires |parts| > 0
    requires forall k :: 0 <= k < |parts| ==> sep !in parts[k]
    ensures Split(sep, Join([sep], parts)) == parts
  {
    if |parts| == 1 {
      SplitAbsent(sep, parts[0]);
    } else {
      SplitJoin(sep, parts[1..]);
      SplitPiece(sep, parts[0], Join([sep], parts[1..]));
      assert [parts[0]] + parts[1..] == parts;
    }
  }

  /** A join ends with its last part: nothing follows the last one. */
  lemma {:induction false} JoinLast(sep: string, parts: seq<string>)
    requires |parts| >= 2
    ensures Join(sep, parts) == Join(sep, parts[..|parts| - 1]) + sep + parts[|parts| - 1]
  {
    if |parts| > 2 {
      JoinLast(sep, parts[1..]);
      assert parts[1..][..|parts| - 2] == parts[..|parts| - 1][1..];
    }
  }

  lemma JoinFive(sep: string, a: string, b: string, c: string, d: string, e: string)
    ensures Join(sep, [a, b, c, d, e]) == a + sep + b + sep + c + sep + d + sep + e
  {
    var parts := [a, b, c, d, e];
    assert parts[1..] == [b, c, d, e];
    assert [b, c, d, e][1..] == [c, d, e];
    assert [c, d, e][1..] == [d, e];
    assert [d, e][1..] == [e];
    var de := d + sep + e;
    var cde := c + sep + de;
    var bcde := b + sep + cde;
    assert Join(sep, [d, e]) == de;
    assert Join(sep, [c, d, e]) == cde;
    assert Join(sep, [b, c, d, e]) == bcde;
    assert Join(sep, parts) == a + sep + bcde;
  }

  lemma {:induction false} CountAppend(c: char, a: string, b: string)
    ensures Count(c, a + b) == Count(c, a) + Count(c, b)
  {
    if |a| == 0 {
      assert a + b == b;
    } else {
      assert (a + b)[1..] == a[1..] + b;
      CountAppend(c, a[1..], b);
    }
  }

  lemma {:induction false} CountAbsent(c: char, s: string)
    requires c !in s
    ensures Count(c, s) == 0
  {
    if |s| > 0 {
      assert c !in s[1..];
      CountAbsent(c, s[1..]);
    }
  }

  /** Joining parts that hold `c` twice each, with a separator that lacks
      it, gives twice as many `c` as parts. */
  lemma {:induction false} CountJoin(c: char, sep: string, parts: seq<string>)
    requires c !in sep
    requires forall k :: 0 <= k < |parts| ==> Count(c, parts[k]) == 2
    ensures Count(c, Join(sep, parts)) == 2 * |parts|
  {
    if |parts| >= 2 {
      var rest := parts[1..];
      assert Count(c, parts[0]) == 2;
      assert forall k :: 0 <= k < |rest| ==> rest[k] == parts[k + 1];
      CountJoin(c, sep, rest);
      CountAppend(c, parts[0] + sep, Join(sep, rest));
      CountAppend(c, parts[0], sep);
      CountAbsent(c, sep);
    }
  }

  /** Joining `m >= 1` parts that hold `c` once each, with a separator that
      holds it once, gives `2 * m - 1` of them. */
  lemma {:induction false} CountJoinOnes(c: char, sep: string, parts: seq<string>)
    requires |parts| >= 1 && Count(c, sep) == 1
    requires forall k :: 0 <= k < |parts| ==> Count(c, parts[k]) == 1
    ensures Count(c, Join(sep, parts)) == 2 * |parts| - 1
  {
    if |parts| >= 2 {
      var rest := parts[1..];
      assert Count(c, parts[0]) == 1;
      assert forall k :: 0 <= k < |rest| ==> rest[k] == parts[k + 1];
      CountJoinOnes(c, sep, rest);
      CountAppend(c, parts[0] + sep, Join(sep, rest));
      CountAppend(c, parts[0], sep);
    }
  }

  lemma {:induction false} CountRepeatOne(c: char, s: string, k: nat)
    requires Count(c, s) == 1
    ensures Count(c, Repeat(s, k)) == k
  {
    if k > 0 {
      CountRepeatOne(c, s, k - 1);
      CountAppend(c, s, Repeat(s, k - 1));
    }
  }
}
