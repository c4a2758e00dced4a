/**
  The verbatim escaping of a symbol in `mktable`: four helpers `F`, `G`, `H`,
  `J`, each one or two `str.replace` calls, applied as `J(H(G(F(symbol))))`.
  `F` hides braces behind two sentinel words, `G` escapes backslashes (adding
  braces of its own, which must stay unescaped), `H` turns the sentinels into
  escaped braces and `J` escapes caret and underscore.

  The main result: for a symbol that holds neither sentinel word the chain is
  the per-character escaper `EscapeChars`, and `Unescape` undoes that escaper.
 */
module Escape {
  import opened Strings

  const LeftSentinel: string := "LEFTCURLYBRACE"
  const RightSentinel: string := "RIGHTCURLYBRACE"
  const TextBackslash: string := "\\textbackslash{}"

  function F(x: string): string {
    ReplaceAll(ReplaceAll(x, "{", LeftSentinel), "}", RightSentinel)
  }

  function G(x: string): string {
    ReplaceAll(x, "\\", TextBackslash)
  }

  function H(x: string): string {
    ReplaceAll(ReplaceAll(x, LeftSentinel, "\\{"), RightSentinel, "\\}")
  }

  function J(x: string): string {
    ReplaceAll(ReplaceAll(x, "^", "\\^{}"), "_", "\\_")
  }

  /** The text placed inside `\texttt{...}` for a symbol. */
  function Escaped(symbol: string): string {
    J(H(G(F(symbol))))
  }

  /** The reference escaper: one character at a time. */
  function EscapeChar(c: char): string {
    match c
    case '\\' => TextBackslash
    case '{' => "\\{"
    case '}' => "\\}"
    case '^' => "\\^{}"
    case '_' => "\\_"
    case _ => [c]
  }

  function EscapeChars(s: string): string {
    if |s| == 0 then "" else EscapeChar(s[0]) + EscapeChars(s[1..])
  }

  /** The symbol does not collide with the chain's sentinel words. */
  predicate NoSentinel(symbol: string) {
    !Contains(symbol, LeftSentinel) && !Contains(symbol, RightSentinel)
  }

  /** Reads escaped text back: each escape sequence becomes its character. */
  function Unescape(e: string): string
    decreases |e|
  {
    if |e| == 0 then ""
    else if |e| >= 16 && e[..16] == TextBackslash then "\\" + Unescape(e[16..])
    else if |e| >= 4 && e[..4] == "\\^{}" then "^" + Unescape(e[4..])
    else if |e| >= 2 && e[..2] == "\\{" then "{" + Unescape(e[2..])
    else if |e| >= 2 && e[..2] == "\\}" then "}" + Unescape(e[2..])
    else if |e| >= 2 && e[..2] == "\\_" then "_" + Unescape(e[2..])
    else [e[0]] + Unescape(e[1..])
  }

  // ---------------------------------------------------------------------
  // The chain, one replacement at a time

  /** What character `c` of the symbol has become once the first `k` of the
      seven replacements of the chain have run (`k = 0`: nothing yet). */
  function Image(k: nat, c: char): string
    requires k <= 7
  {
    if c == '{' && k >= 1 then (if k <= 3 then LeftSentinel else "\\{")
    else if c == '}' && k >= 2 then (if k <= 4 then RightSentinel else "\\}")
    else if c == '\\' && k >= 3 then TextBackslash
    else if c == '^' && k >= 6 then "\\^{}"
    else if c == '_' && k >= 7 then "\\_"
    else [c]
  }

  /** The whole symbol after the first `k` replacements, when each character
      is rewritten on its own. */
  function Stage(k: nat, s: string): string
    requires k <= 7
  {
    if |s| == 0 then "" else Image(k, s[0]) + Stage(k, s[1..])
  }

  lemma {:induction false} StageZero(s: string)
    ensures Stage(0, s) == s
  {
    if |s| > 0 {
      StageZero(s[1..]);
      assert [s[0]] + s[1..] == s;
    }
  }

  lemma {:induction false} StageSeven(s: string)
    ensures Stage(7, s) == EscapeChars(s)
  {
    if |s| > 0 {
      StageSeven(s[1..]);
    }
  }

  /** A one-character replacement that maps every character's image at stage
      `k` to its image at stage `k + 1` maps the whole stage. */
  lemma {:induction false} CharStep(k: nat, s: string, c: char, rep: string)
    requires k < 7
    requires forall x :: ReplaceAll(Image(k, x), [c], rep) == Image(k + 1, x)
    ensures ReplaceAll(Stage(k, s), [c], rep) == Stage(k + 1, s)
  {
    if |s| > 0 {
      CharStep(k, s[1..], c, rep);
      ReplaceCharAppend(Image(k, s[0]), Stage(k, s[1..]), c, rep);
    }
  }

  /** No occurrence of `w` can start inside `img`: at each position either the
      first or the second character of `w` fails to match. */
  predicate NoStartWithin(img: string, w: string)
    requires |w| >= 2
  {
    forall i {:trigger img[i]} :: 0 <= i < |img| ==> img[i] != w[0] || (i + 1 < |img| && img[i + 1] != w[1])
  }

  lemma NoMatchInside(img: string, y: string, w: string)
    requires |w| >= 2 && NoStartWithin(img, w)
    ensures forall i :: 0 <= i < |img| ==> !MatchAt(img + y, i, w)
  {
    forall i | 0 <= i < |img|
      ensures !MatchAt(img + y, i, w)
    {
      var z := img + y;
      assert img[i] != w[0] || (i + 1 < |img| && img[i + 1] != w[1]);
      if i + |w| <= |z| {
        assert z[i..i + |w|][0] == img[i];
        assert z[i..i + |w|][1] == z[i + 1];
        assert i + 1 < |img| ==> z[i + 1] == img[i + 1];
      }
    }
  }

  /** An image that cannot start inside `p` is not a prefix-match for it. */
  lemma NoHeadImage(img: string, rest: string, p: string)
    requires |img| >= 2 && |p| > 0 && NoStartWithin(p, img)
    ensures !HasPrefix(img + rest, p)
  {
    var z := img + rest;
    assert p[0] != img[0] || (1 < |p| && p[1] != img[1]);
    if |p| <= |z| {
      assert z[..|p|][0] == img[0];
      assert |p| >= 2 ==> z[..|p|][1] == img[1];
    }
  }

  lemma NoStartWithinTail(p: string, img: string)
    requires |img| >= 2 && |p| > 0 && NoStartWithin(p, img)
    ensures NoStartWithin(p[1..], img)
  {
    forall i | 0 <= i < |p| - 1
      ensures p[1..][i] != img[0] || (i + 1 < |p| - 1 && p[1..][i + 1] != img[1])
    {
      var j := i + 1;
      assert p[j] != img[0] || (j + 1 < |p| && p[j + 1] != img[1]);
      assert p[1..][i] == p[i + 1];
      assert i + 1 < |p| - 1 ==> p[1..][i + 1] == p[i + 2];
    }
  }

  predicate HasPrefix(s: string, p: string) {
    |p| <= |s| && s[..|p|] == p
  }

  /** The sentinel that replacement `k` (3 or 4) removes, its replacement and
      the brace it stands for. */
  function Sentinel(k: nat): string {
    if k == 3 then LeftSentinel else RightSentinel
  }

  function Restored(k: nat): string {
    if k == 3 then "\\{" else "\\}"
  }

  function SentinelChar(k: nat): char {
    if k == 3 then '{' else '}'
  }

  /** At stage `k`, none of the three images longer than one character can
      start inside `p`. */
  predicate Avoids(k: nat, p: string)
    requires k <= 7
  {
    |Image(k, '{')| >= 2 && |Image(k, '}')| >= 2 && |Image(k, '\\')| >= 2 &&
    NoStartWithin(p, Image(k, '{')) && NoStartWithin(p, Image(k, '}')) &&
    NoStartWithin(p, Image(k, '\\'))
  }

  lemma AvoidsTail(k: nat, p: string)
    requires k <= 7 && |p| > 0 && Avoids(k, p)
    ensures Avoids(k, p[1..])
  {
    NoStartWithinTail(p, Image(k, '{'));
    NoStartWithinTail(p, Image(k, '}'));
    NoStartWithinTail(p, Image(k, '\\'));
  }

  /** A prefix that avoids the long images cannot start at one of them. */
  lemma LongHead(k: nat, x: char, rest: string, p: string)
    requires k == 3 || k == 4
    requires x == '{' || x == '}' || x == '\\'
    requires |p| > 0 && Avoids(k, p)
    ensures !HasPrefix(Image(k, x) + rest, p)
  {
    NoHeadImage(Image(k, x), rest, p);
  }

  /** While the sentinels are in the text (stages 3 and 4), a prefix `p` that
      no long image can start inside is a prefix of the symbol itself. */
  lemma {:induction false} StagePrefix(k: nat, t: string, p: string)
    requires k == 3 || k == 4
    requires Avoids(k, p)
    requires HasPrefix(Stage(k, t), p)
    ensures HasPrefix(t, p)
    decreases |p|
  {
    if |p| > 0 {
      var x, rest := t[0], Stage(k, t[1..]);
      assert Stage(k, t) == Image(k, x) + rest;
      if x == '{' || x == '}' || x == '\\' {
        LongHead(k, x, rest, p);
      } else {
        assert Image(k, x) == [x];
        ConsPrefix(x, rest, p);
        AvoidsTail(k, p);
        StagePrefix(k, t[1..], p[1..]);
        assert t == [x] + t[1..];
        ConsPrefix(x, t[1..], p);
      }
    }
  }

  lemma LeftTailAvoidsLeft()
    ensures NoStartWithin(LeftSentinel[1..], LeftSentinel)
  {
  }

  lemma LeftTailAvoidsRight()
    ensures NoStartWithin(LeftSentinel[1..], RightSentinel)
  {
  }

  lemma RightTailAvoidsRight()
    ensures NoStartWithin(RightSentinel[1..], RightSentinel)
  {
  }

  /** A `p` lacking the first character of `img` cannot hold its start. */
  lemma FirstAbsent(p: string, img: string)
    requires |img| >= 2 && img[0] !in p
    ensures NoStartWithin(p, img)
  {
  }

  /** The rest of each sentinel, after its first letter, avoids the long
      images of its stage. */
  lemma SentinelTails(k: nat)
    requires k == 3 || k == 4
    ensures Avoids(k, Sentinel(k)[1..])
  {
    if k == 3 {
      LeftTailAvoidsLeft();
      LeftTailAvoidsRight();
      FirstAbsent(LeftSentinel[1..], TextBackslash);
    } else {
      FirstAbsent(RightSentinel[1..], "\\{");
      RightTailAvoidsRight();
      FirstAbsent(RightSentinel[1..], TextBackslash);
    }
  }

  /** A plain character followed by text whose stage starts like the rest of
      a sentinel: then the symbol itself starts with that sentinel. */
  lemma PlainPrefix(k: nat, c: char, t: string)
    requires k == 3 || k == 4
    requires c != '{' && c != '}' && c != '\\'
    requires HasPrefix([c] + Stage(k, t), Sentinel(k))
    ensures HasPrefix([c] + t, Sentinel(k))
  {
    var w := Sentinel(k);
    ConsPrefix(c, Stage(k, t), w);
    SentinelTails(k);
    StagePrefix(k, t, w[1..]);
    ConsPrefix(c, t, w);
  }

  /** Replacement `k` (3 or 4) applied to the image of the symbol's first
      character followed by the stage of the rest. */
  lemma ImageHead(k: nat, c: char, t: string)
    requires k == 3 || k == 4
    requires !HasPrefix([c] + t, Sentinel(k))
    ensures ReplaceAll(Image(k, c) + Stage(k, t), Sentinel(k), Restored(k))
         == Image(k + 1, c) + ReplaceAll(Stage(k, t), Sentinel(k), Restored(k))
  {
    var w, rep, img, y := Sentinel(k), Restored(k), Image(k, c), Stage(k, t);
    if c == SentinelChar(k) {
      ReplaceHead(w, y, rep);
    } else if c == '{' || c == '}' || c == '\\' {
      assert NoStartWithin(img, w);
      NoMatchInside(img, y, w);
      ReplaceSkip(img, y, w, rep);
    } else {
      assert img == [c];
      if MatchAt(img + y, 0, w) {
        PlainPrefix(k, c, t);
        assert false;
      }
      ReplaceSkip(img, y, w, rep);
    }
  }

  lemma ContainsTail(s: string, w: string)
    requires |s| > 0 && !Contains(s, w)
    ensures !Contains(s[1..], w) && !HasPrefix(s, w)
  {
    var t := s[1..];
    forall i | 0 <= i <= |t|
      ensures !MatchAt(t, i, w)
    {
      assert !MatchAt(s, i + 1, w);
      if i + |w| <= |t| {
        assert s[i + 1..i + 1 + |w|] == t[i..i + |w|];
      }
    }
    assert !MatchAt(s, 0, w);
  }

  /** Replacement `k` (3 or 4) turns each sentinel image back into an escaped
      brace and leaves every other image alone, provided the symbol does not
      hold that sentinel word itself. */
  lemma {:induction false} SentinelStep(k: nat, s: string)
    requires k == 3 || k == 4
    requires !Contains(s, Sentinel(k))
    ensures ReplaceAll(Stage(k, s), Sentinel(k), Restored(k)) == Stage(k + 1, s)
  {
    if |s| > 0 {
      ContainsTail(s, Sentinel(k));
      SentinelStep(k, s[1..]);
      assert [s[0]] + s[1..] == s;
      ImageHead(k, s[0], s[1..]);
    } else {
      assert Stage(k, s) == "";
    }
  }

  // ---------------------------------------------------------------------
  // Main results

  lemma OpenBraceImage(x: char)
    ensures ReplaceAll(Image(0, x), "{", LeftSentinel) == Image(1, x)
  {
    ReplaceCharSingle(x, '{', LeftSentinel);
  }

  lemma CloseBraceImage(x: char)
    ensures ReplaceAll(Image(1, x), "}", RightSentinel) == Image(2, x)
  {
    if x == '{' {
      ReplaceCharAbsent(LeftSentinel, '}', RightSentinel);
    } else {
      ReplaceCharSingle(x, '}', RightSentinel);
    }
  }

  lemma OpenBraceStage(s: string)
    ensures ReplaceAll(s, "{", LeftSentinel) == Stage(1, s)
  {
    StageZero(s);
    forall x ensures ReplaceAll(Image(0, x), "{", LeftSentinel) == Image(1, x) {
      OpenBraceImage(x);
    }
    CharStep(0, s, '{', LeftSentinel);
  }

  lemma CloseBraceStage(s: string)
    ensures ReplaceAll(Stage(1, s), "}", RightSentinel) == Stage(2, s)
  {
    forall x ensures ReplaceAll(Image(1, x), "}", RightSentinel) == Image(2, x) {
      CloseBraceImage(x);
    }
    CharStep(1, s, '}', RightSentinel);
  }

  /** `F` rewrites the symbol character by character into stage 2. */
  lemma FStages(s: string)
    ensures F(s) == Stage(2, s)
  {
    OpenBraceStage(s);
    CloseBraceStage(s);
  }

  lemma BackslashImage(x: char)
    ensures ReplaceAll(Image(2, x), "\\", TextBackslash) == Image(3, x)
  {
    if x == '{' || x == '}' {
      ReplaceCharAbsent(Image(2, x), '\\', TextBackslash);
    } else {
      ReplaceCharSingle(x, '\\', TextBackslash);
    }
  }

  /** `G` takes stage 2 to stage 3. */
  lemma GStages(s: string)
    ensures G(Stage(2, s)) == Stage(3, s)
  {
    forall x ensures ReplaceAll(Image(2, x), "\\", TextBackslash) == Image(3, x) {
      BackslashImage(x);
    }
    CharStep(2, s, '\\', TextBackslash);
  }

  lemma CaretImage(x: char)
    ensures ReplaceAll(Image(5, x), "^", "\\^{}") == Image(6, x)
  {
    if x == '{' || x == '}' || x == '\\' {
      ReplaceCharAbsent(Image(5, x), '^', "\\^{}");
    } else {
      ReplaceCharSingle(x, '^', "\\^{}");
    }
  }

  lemma UnderscoreImage(x: char)
    ensures ReplaceAll(Image(6, x), "_", "\\_") == Image(7, x)
  {
    if x == '{' || x == '}' || x == '\\' || x == '^' {
      ReplaceCharAbsent(Image(6, x), '_', "\\_");
    } else {
      ReplaceCharSingle(x, '_', "\\_");
    }
  }

  lemma CaretStage(s: string)
    ensures ReplaceAll(Stage(5, s), "^", "\\^{}") == Stage(6, s)
  {
    forall x ensures ReplaceAll(Image(5, x), "^", "\\^{}") == Image(6, x) {
      CaretImage(x);
    }
    CharStep(5, s, '^', "\\^{}");
  }

  lemma UnderscoreStage(s: string)
    ensures ReplaceAll(Stage(6, s), "_", "\\_") == Stage(7, s)
  {
    forall x ensures ReplaceAll(Image(6, x), "_", "\\_") == Image(7, x) {
      UnderscoreImage(x);
    }
    CharStep(6, s, '_', "\\_");
  }

  /** `J` takes stage 5 to stage 7. */
  lemma JStages(s: string)
    ensures J(Stage(5, s)) == Stage(7, s)
  {
    CaretStage(s);
    UnderscoreStage(s);
  }

  /** `J` on its own, for any input: `^` and `_` are rewritten, every other
      character is kept. */
  function JChar(c: char): string {
    if c == '^' then "\\^{}" else if c == '_' then "\\_" else [c]
  }

  function JChars(t: string): string {
    if |t| == 0 then "" else JChar(t[0]) + JChars(t[1..])
  }

  lemma JOneChar(c: char)
    ensures J([c]) == JChar(c)
  {
    ReplaceCharSingle(c, '^', "\\^{}");
    if c == '^' {
      ReplaceCharAbsent("\\^{}", '_', "\\_");
    } else {
      ReplaceCharSingle(c, '_', "\\_");
    }
  }

  /** `J` rewrites each `^` to `\^{}` and each `_` to `\_` and keeps every
      other character, whatever text it is given. */
  lemma {:induction false} JPerCharacter(t: string)
    ensures J(t) == JChars(t)
  {
    if |t| > 0 {
      var c, rest := t[0], t[1..];
      assert t == [c] + rest;
      ReplaceCharAppend([c], rest, '^', "\\^{}");
      ReplaceCharAppend(ReplaceAll([c], "^", "\\^{}"), ReplaceAll(rest, "^", "\\^{}"), '_', "\\_");
      JOneChar(c);
      JPerCharacter(rest);
    }
  }

  /** For a symbol without sentinel words, the replace chain is the
      per-character escaper. */
  lemma EscapedIsPerCharacter(s: string)
    requires NoSentinel(s)
    ensures Escaped(s) == EscapeChars(s)
  {
    FStages(s);
    GStages(s);
    SentinelStep(3, s);
    SentinelStep(4, s);
    assert H(Stage(3, s)) == Stage(5, s);
    JStages(s);
    StageSeven(s);
  }

  /** The characters the escaper rewrites. */
  predicate Special(c: char) {
    c == '\\' || c == '{' || c == '}' || c == '^' || c == '_'
  }

  lemma {:induction false} EscapeCharsPlain(s: string)
    requires forall i :: 0 <= i < |s| ==> !Special(s[i])
    ensures EscapeChars(s) == s
  {
    if |s| > 0 {
      assert !Special(s[0]);
      assert forall i :: 0 <= i < |s| - 1 ==> s[1..][i] == s[i + 1];
      EscapeCharsPlain(s[1..]);
      assert [s[0]] + s[1..] == s;
    }
  }

  /** A symbol without sentinel words and without special characters is
      shown as it is by the chain. */
  lemma EscapedPlain(s: string)
    requires NoSentinel(s)
    requires forall i :: 0 <= i < |s| ==> !Special(s[i])
    ensures Escaped(s) == s
  {
    EscapedIsPerCharacter(s);
    EscapeCharsPlain(s);
  }

  /** Both sentinel words start with an upper-case letter, so text without
      upper-case letters holds neither. */
  lemma NoUpperNoSentinel(s: string)
    requires forall i :: 0 <= i < |s| ==> !('A' <= s[i] <= 'Z')
    ensures NoSentinel(s)
  {
    UpperHeadAbsent(s, LeftSentinel);
    UpperHeadAbsent(s, RightSentinel);
  }

  /** A word starting with an upper-case letter is not in text without one. */
  lemma UpperHeadAbsent(s: string, w: string)
    requires forall i :: 0 <= i < |s| ==> !('A' <= s[i] <= 'Z')
    requires |w| > 0 && 'A' <= w[0] <= 'Z'
    ensures !Contains(s, w)
  {
    forall i | 0 <= i <= |s|
      ensures !MatchAt(s, i, w)
    {
      if i + |w| <= |s| {
        assert s[i..i + |w|][0] == s[i];
      }
    }
  }

  /** The sentinel precondition is needed: a symbol spelling the left
      sentinel word comes out as an escaped brace, while the per-character
      escaper leaves it alone. */
  lemma SentinelCollision()
    ensures Escaped(LeftSentinel) == "\\{"
    ensures EscapeChars(LeftSentinel) == LeftSentinel
  {
    SentinelEscaped(LeftSentinel);
    SentinelPlain();
  }

  lemma SentinelEscaped(w: string)
    requires w == LeftSentinel
    ensures Escaped(w) == "\\{"
  {
    BracelessUntouchedByFG(w);
    assert G(F(w)) == w;
    SentinelReplacedByH();
    assert H(w) == "\\{";
    CaretlessUntouchedByJ("\\{");
  }

  lemma SentinelPlain()
    ensures EscapeChars(LeftSentinel) == LeftSentinel
  {
    assert forall i :: 0 <= i < |LeftSentinel| ==> !Special(LeftSentinel[i]);
    EscapeCharsPlain(LeftSentinel);
  }

  lemma BracelessUntouchedByFG(s: string)
    requires '{' !in s && '}' !in s && '\\' !in s
    ensures G(F(s)) == s
  {
    ReplaceCharAbsent(s, '{', LeftSentinel);
    ReplaceCharAbsent(s, '}', RightSentinel);
    ReplaceCharAbsent(s, '\\', TextBackslash);
  }

  lemma SentinelReplacedByH()
    ensures H(LeftSentinel) == "\\{"
  {
    var w := LeftSentinel;
    assert w + "" == w;
    ReplaceHead(w, "", "\\{");
    assert ReplaceAll("\\{", RightSentinel, "\\}") == "\\{";
  }

  lemma CaretlessUntouchedByJ(s: string)
    requires '^' !in s && '_' !in s
    ensures J(s) == s
  {
    ReplaceCharAbsent(s, '^', "\\^{}");
    ReplaceCharAbsent(s, '_', "\\_");
  }

  /** The chain never introduces a character that is absent from the symbol,
      the escape sequences and the sentinel words (no sentinel precondition
      needed). */
  lemma EscapedKeepsAbsent(s: string, d: char)
    requires d !in s && d !in "\\textbackslash{}^_" && d !in LeftSentinel && d !in RightSentinel
    ensures d !in Escaped(s)
  {
    ReplaceKeepsAbsent(s, "{", LeftSentinel, d);
    ReplaceKeepsAbsent(ReplaceAll(s, "{", LeftSentinel), "}", RightSentinel, d);
    ReplaceKeepsAbsent(F(s), "\\", TextBackslash, d);
    ReplaceKeepsAbsent(G(F(s)), LeftSentinel, "\\{", d);
    ReplaceKeepsAbsent(ReplaceAll(G(F(s)), LeftSentinel, "\\{"), RightSentinel, "\\}", d);
    ReplaceKeepsAbsent(H(G(F(s))), "^", "\\^{}", d);
    ReplaceKeepsAbsent(ReplaceAll(H(G(F(s))), "^", "\\^{}"), "_", "\\_", d);
  }

  lemma UnescapeBackslash(rest: string)
    ensures Unescape(TextBackslash + rest) == "\\" + Unescape(rest)
  {
    var e := TextBackslash + rest;
    assert e[..16] == TextBackslash;
    assert e[16..] == rest;
  }

  lemma UnescapeCaret(rest: string)
    ensures Unescape("\\^{}" + rest) == "^" + Unescape(rest)
  {
    var e := "\\^{}" + rest;
    assert |e| >= 16 ==> e[..16][1] == '^';
    assert e[..4] == "\\^{}";
    assert e[4..] == rest;
  }

  lemma UnescapePair(c: char, rest: string)
    requires c == '{' || c == '}' || c == '_'
    ensures Unescape(['\\', c] + rest) == [c] + Unescape(rest)
  {
    var e := ['\\', c] + rest;
    assert |e| >= 16 ==> e[..16][1] == c;
    assert |e| >= 4 ==> e[..4][1] == c;
    assert e[..2] == ['\\', c];
    assert e[2..] == rest;
  }

  lemma UnescapePlain(c: char, rest: string)
    requires !Special(c)
    ensures Unescape([c] + rest) == [c] + Unescape(rest)
  {
    var e := [c] + rest;
    assert |e| >= 16 ==> e[..16][0] == c;
    assert |e| >= 4 ==> e[..4][0] == c;
    assert |e| >= 2 ==> e[..2][0] == c;
    assert e[1..] == rest;
  }

  lemma UnescapeHead(c: char, rest: string)
    ensures Unescape(EscapeChar(c) + rest) == [c] + Unescape(rest)
  {
    if c == '\\' {
      UnescapeBackslash(rest);
    } else if c == '^' {
      UnescapeCaret(rest);
    } else if c == '{' || c == '}' || c == '_' {
      assert EscapeChar(c) == ['\\', c];
      UnescapePair(c, rest);
    } else {
      UnescapePlain(c, rest);
    }
  }

  /** Stripping the escapes recovers the symbol. */
  lemma {:induction false} UnescapeEscapeChars(s: string)
    ensures Unescape(EscapeChars(s)) == s
  {
    if |s| > 0 {
      UnescapeEscapeChars(s[1..]);
      UnescapeHead(s[0], EscapeChars(s[1..]));
      assert [s[0]] + s[1..] == s;
    }
  }
}
