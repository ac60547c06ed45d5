/**
  googletest's test filters: wildcard patterns separated by ':', with an optional negative
  part after the first '-'. The end of a sequence plays the part of the terminating NUL.
 */
module GlobFilter {
  import opened Common

  /** The text before the first `ch`, or all of it. */
  function UpTo(s: string, ch: char): (p: string)
    ensures |p| <= |s| && p == s[..|p|] && ch !in p
    ensures |p| < |s| ==> s[|p|] == ch
  {
    if s == "" || s[0] == ch then "" else [s[0]] + UpTo(s[1..], ch)
  }

  /** The first pattern of a filter. */
  function Piece(filter: string): string {
    UpTo(filter, ':')
  }

  predicate PatternMatchesString(pattern: string, str: string)
    decreases |pattern| + |str|
  {
    if pattern == "" || pattern[0] == ':' then
      str == ""
    else match pattern[0]
      case '?' => str != "" && PatternMatchesString(pattern[1..], str[1..])
      case '*' => (str != "" && PatternMatchesString(pattern, str[1..])) || PatternMatchesString(pattern[1..], str)
      case ch => str != "" && ch == str[0] && PatternMatchesString(pattern[1..], str[1..])
  }

  // ----- What a pattern means -----

  /** `?` stands for one character, `*` for any block, another character for itself. */
  predicate WildcardMatches(w: char, block: string) {
    if w == '?' then |block| == 1 else if w == '*' then true else block == [w]
  }

  ghost predicate Splits(piece: string, blocks: seq<string>, str: string) {
    && |blocks| == |piece|
    && Flatten(blocks) == str
    && forall i :: 0 <= i < |piece| ==> WildcardMatches(piece[i], blocks[i])
  }

  ghost predicate GlobMatches(piece: string, str: string) {
    exists blocks :: Splits(piece, blocks, str)
  }

  lemma GlobEmpty(str: string)
    ensures GlobMatches("", str) <==> str == ""
  {
    assert Splits("", [], "");
  }

  lemma GlobCons(w: char, piece: string, b: string, t: string)
    requires WildcardMatches(w, b) && GlobMatches(piece, t)
    ensures GlobMatches([w] + piece, b + t)
  {
    var blocks :| Splits(piece, blocks, t);
    assert ([b] + blocks)[1..] == blocks;
    assert Splits([w] + piece, [b] + blocks, b + t);
  }

  lemma GlobUncons(w: char, piece: string, str: string) returns (k: nat)
    requires GlobMatches([w] + piece, str)
    ensures k <= |str| && WildcardMatches(w, str[..k]) && GlobMatches(piece, str[k..])
  {
    var blocks :| Splits([w] + piece, blocks, str);
    k := |blocks[0]|;
    assert str[..k] == blocks[0] && str[k..] == Flatten(blocks[1..]);
    assert ([w] + piece)[0] == w && ([w] + piece)[1..] == piece;
    assert Splits(piece, blocks[1..], str[k..]);
  }

  /** A star takes one more character, or none. */
  lemma GlobStar(piece: string, str: string)
    ensures GlobMatches(['*'] + piece, str)
       <==> (str != "" && GlobMatches(['*'] + piece, str[1..])) || GlobMatches(piece, str)
  {
    if GlobMatches(['*'] + piece, str) {
      var k := GlobUncons('*', piece, str);
      if k == 0 {
        assert str[0..] == str;
      } else {
        GlobCons('*', piece, str[1..k], str[k..]);
        assert str[1..k] + str[k..] == str[1..];
      }
    }
    if str != "" && GlobMatches(['*'] + piece, str[1..]) {
      var k := GlobUncons('*', piece, str[1..]);
      GlobCons('*', piece, str[..k + 1], str[1..][k..]);
      assert str[..k + 1] + str[1..][k..] == str;
    }
    if GlobMatches(piece, str) {
      GlobCons('*', piece, "", str);
      assert "" + str == str;
    }
  }

  lemma GlobOne(w: char, piece: string, str: string)
    requires w != '*'
    ensures GlobMatches([w] + piece, str) <==> str != "" && (w == '?' || w == str[0]) && GlobMatches(piece, str[1..])
  {
    if GlobMatches([w] + piece, str) {
      var k := GlobUncons(w, piece, str);
      assert k == 1 && str[..1] == [str[0]];
    }
    if str != "" && (w == '?' || w == str[0]) && GlobMatches(piece, str[1..]) {
      GlobCons(w, piece, [str[0]], str[1..]);
      assert [str[0]] + str[1..] == str;
    }
  }

  lemma {:induction false} PatternMatchesIffGlob(pattern: string, str: string)
    ensures PatternMatchesString(pattern, str) <==> GlobMatches(Piece(pattern), str)
    decreases |pattern| + |str|
  {
    if pattern == "" || pattern[0] == ':' {
      GlobEmpty(str);
    } else {
      var w, piece := pattern[0], Piece(pattern[1..]);
      if w == '*' {
        GlobStar(piece, str);
        PatternMatchesIffGlob(pattern[1..], str);
        if str != "" {
          PatternMatchesIffGlob(pattern, str[1..]);
        }
      } else {
        GlobOne(w, piece, str);
        if str != "" {
          PatternMatchesIffGlob(pattern[1..], str[1..]);
        }
      }
    }
  }

  // ----- Filters -----

  /** The ':'-separated patterns of a filter; the empty filter is one empty pattern. */
  function Pieces(filter: string): seq<string>
    decreases |filter|
  {
    var n := |Piece(filter)|;
    [Piece(filter)] + (if n < |filter| then Pieces(filter[n + 1..]) else [])
  }

  function Joined(pieces: seq<string>): string
    requires pieces != []
  {
    if |pieces| == 1 then pieces[0] else pieces[0] + ":" + Joined(pieces[1..])
  }

  /** The pieces hold no ':' and, joined by ':', are the filter. */
  lemma {:induction false} PiecesSplitFilter(filter: string)
    ensures Joined(Pieces(filter)) == filter
    ensures forall i :: 0 <= i < |Pieces(filter)| ==> ':' !in Pieces(filter)[i]
    decreases |filter|
  {
    var p := Piece(filter);
    if |p| < |filter| {
      var rest := filter[|p| + 1..];
      PiecesSplitFilter(rest);
      AtFirstColon(filter);
      hide Joined, UpTo;
      JoinedCons(p, Pieces(rest));
    } else {
      assert filter == filter[..|p|];
    }
  }

  lemma AtFirstColon(filter: string)
    requires |Piece(filter)| < |filter|
    ensures filter == Piece(filter) + ":" + filter[|Piece(filter)| + 1..]
  {
    var n := |Piece(filter)|;
    assert filter == filter[..n] + [filter[n]] + filter[n + 1..];
  }

  lemma JoinedCons(p: string, pieces: seq<string>)
    requires pieces != []
    ensures Joined([p] + pieces) == p + ":" + Joined(pieces)
  {
    assert ([p] + pieces)[1..] == pieces;
  }

  ghost predicate FilterMatches(name: string, filter: string) {
    exists i :: 0 <= i < |Pieces(filter)| && GlobMatches(Pieces(filter)[i], name)
  }

  /** `strchr`: the index of the first `ch`, if there is one. */
  method FindChar(s: string, ch: char) returns (at: Option<nat>)
    ensures at == if ch in s then Some(|UpTo(s, ch)|) else None
    ensures ch in s <==> |UpTo(s, ch)| < |s|
  {
    assert UpTo(s, ch) == s <==> ch !in s by {
      assert |UpTo(s, ch)| == |s| ==> UpTo(s, ch) == s[..|s|] == s;
    }
    var i := 0;
    while i < |s|
      invariant 0 <= i <= |s| && ch !in s[..i]
    {
      if s[i] == ch {
        FirstAt(s, ch, i);
        return Some(i);
      }
      i := i + 1;
    }
    return None;
  }

  lemma {:induction false} FirstAt(s: string, ch: char, i: nat)
    requires i < |s| && s[i] == ch && ch !in s[..i]
    ensures |UpTo(s, ch)| == i
  {
    if i > 0 {
      assert s[0] == s[..i][0] && s[1..][..i - 1] == s[..i][1..];
      FirstAt(s[1..], ch, i - 1);
    }
  }

  lemma FilterMatchesHead(name: string, filter: string)
    ensures FilterMatches(name, filter) <==>
      var n := |Piece(filter)|;
      GlobMatches(Piece(filter), name) || (n < |filter| && FilterMatches(name, filter[n + 1..]))
  {
    var n, pieces := |Piece(filter)|, Pieces(filter);
    assert pieces[0] == Piece(filter);
    if n < |filter| {
      var more := Pieces(filter[n + 1..]);
      assert forall i :: 0 <= i < |more| ==> more[i] == pieces[i + 1];
      assert forall i :: 0 < i < |pieces| ==> pieces[i] == more[i - 1];
    }
  }

  /** A name matches a filter iff it matches one of the filter's patterns. */
  method MatchesFilter(name: string, filter: string) returns (b: bool)
    ensures b <==> FilterMatches(name, filter)
  {
    var cur := filter;
    while true
      invariant FilterMatches(name, filter) <==> FilterMatches(name, cur)
      decreases |cur|
    {
      FilterMatchesHead(name, cur);
      PatternMatchesIffGlob(cur, name);
      if PatternMatchesString(cur, name) {
        return true;
      }
      var colon := FindChar(cur, ':');
      if colon.None? {
        return false;
      }
      cur := cur[colon.value + 1..];
    }
  }

  // ----- The filters googletest itself uses -----

  const DEATH_TEST_CASE_FILTER := "*DeathTest:*DeathTest/*"
  const DISABLE_TEST_FILTER := "DISABLED_*:*/DISABLED_*"
  const UNIVERSAL_FILTER := "*"

  /** No character of `text` is special in a filter. */
  predicate Plain(text: string) {
    forall i :: 0 <= i < |text| ==> text[i] !in "?*:"
  }

  predicate Contains(str: string, text: string) {
    exists i :: 0 <= i <= |str| && text <= str[i..]
  }

  predicate EndsWith(str: string, text: string) {
    |text| <= |str| && str[|str| - |text|..] == text
  }

  lemma {:induction false} GlobPlain(text: string, piece: string, str: string)
    requires Plain(text)
    ensures GlobMatches(text + piece, str) <==> text <= str && GlobMatches(piece, str[|text|..])
  {
    if text == "" {
      assert text + piece == piece && str[0..] == str;
    } else {
      assert text[0] !in "?*:";
      GlobOne(text[0], text[1..] + piece, str);
      assert [text[0]] + (text[1..] + piece) == text + piece;
      if str != "" && text[0] == str[0] {
        assert Plain(text[1..]) by {
          forall i | 0 <= i < |text[1..]|
            ensures text[1..][i] !in "?*:"
          {
            assert text[i + 1] !in "?*:";
          }
        }
        GlobPlain(text[1..], piece, str[1..]);
        assert text == [text[0]] + text[1..] && str == [str[0]] + str[1..];
        assert text <= str ==> str[1..][|text| - 1..] == str[|text|..];
      }
    }
  }

  /** A star in front: the rest of the pattern matches some suffix. */
  lemma GlobAnywhere(piece: string, str: string)
    ensures GlobMatches(['*'] + piece, str) <==> exists i :: 0 <= i <= |str| && GlobMatches(piece, str[i..])
  {
    if GlobMatches(['*'] + piece, str) {
      var k := GlobUncons('*', piece, str);
    }
    if i :| 0 <= i <= |str| && GlobMatches(piece, str[i..]) {
      GlobCons('*', piece, str[..i], str[i..]);
      assert str[..i] + str[i..] == str;
    }
  }

  lemma GlobEverything(str: string)
    ensures GlobMatches("*", str)
  {
    GlobEmpty("");
    GlobAnywhere("", str);
    assert str[|str|..] == "";
    assert ['*'] + "" == "*";
  }

  lemma PlainPrefix(text: string, str: string)
    requires Plain(text)
    ensures GlobMatches(text + "*", str) <==> text <= str
  {
    GlobPlain(text, "*", str);
    if text <= str {
      GlobEverything(str[|text|..]);
    }
  }

  lemma PlainSuffix(text: string, str: string)
    requires Plain(text)
    ensures GlobMatches("*" + text, str) <==> EndsWith(str, text)
  {
    GlobAnywhere(text, str);
    assert ['*'] + text == "*" + text;
    forall i | 0 <= i <= |str|
      ensures GlobMatches(text, str[i..]) <==> str[i..] == text
    {
      GlobPlain(text, "", str[i..]);
      assert text + "" == text;
      if text <= str[i..] {
        GlobEmpty(str[i..][|text|..]);
      }
    }
  }

  lemma PlainInside(text: string, str: string)
    requires Plain(text)
    ensures GlobMatches("*" + text + "*", str) <==> Contains(str, text)
  {
    GlobAnywhere(text + "*", str);
    assert ['*'] + (text + "*") == "*" + text + "*";
    forall i | 0 <= i <= |str|
      ensures GlobMatches(text + "*", str[i..]) <==> text <= str[i..]
    {
      PlainPrefix(text, str[i..]);
    }
  }

  /** A filter of two patterns. */
  lemma TwoPieces(name: string, first: string, second: string)
    requires ':' !in first && ':' !in second
    ensures FilterMatches(name, first + ":" + second) <==> GlobMatches(first, name) || GlobMatches(second, name)
  {
    PieceOfPrefix(first, ":" + second);
    PieceOfPrefix(second, "");
    assert second + "" == second;
    var filter := first + ":" + second;
    assert filter == first + (":" + second);
    assert filter[|first| + 1..] == second;
    FilterMatchesHead(name, filter);
    FilterMatchesHead(name, second);
  }

  lemma PieceOfPrefix(text: string, t: string)
    requires ':' !in text && (t != "" ==> t[0] == ':')
    ensures Piece(text + t) == text
  {
    UpToOf(text, t, ':');
  }

  /** The names of death test cases end in "DeathTest" or contain "DeathTest/". */
  lemma DeathTestCaseNames(name: string)
    ensures FilterMatches(name, DEATH_TEST_CASE_FILTER) <==> EndsWith(name, "DeathTest") || Contains(name, "DeathTest/")
  {
    hide FilterMatches, Contains, EndsWith;
    SuffixOrInside(name, "DeathTest", "DeathTest/");
    assert "*" + "DeathTest" + ":" + ("*" + "DeathTest/" + "*") == DEATH_TEST_CASE_FILTER;
  }

  /** A disabled name starts with "DISABLED_" or contains "/DISABLED_". */
  lemma DisabledNames(name: string)
    ensures FilterMatches(name, DISABLE_TEST_FILTER) <==> "DISABLED_" <= name || Contains(name, "/DISABLED_")
  {
    hide FilterMatches, Contains;
    PrefixOrInside(name, "DISABLED_", "/DISABLED_");
    assert "DISABLED_" + "*" + ":" + ("*" + "/DISABLED_" + "*") == DISABLE_TEST_FILTER;
  }

  lemma SuffixOrInside(name: string, t: string, u: string)
    requires Plain(t) && Plain(u)
    ensures FilterMatches(name, "*" + t + ":" + ("*" + u + "*")) <==> EndsWith(name, t) || Contains(name, u)
  {
    TwoPieces(name, "*" + t, "*" + u + "*");
    PlainSuffix(t, name);
    PlainInside(u, name);
  }

  lemma PrefixOrInside(name: string, t: string, u: string)
    requires Plain(t) && Plain(u)
    ensures FilterMatches(name, t + "*" + ":" + ("*" + u + "*")) <==> t <= name || Contains(name, u)
  {
    TwoPieces(name, t + "*", "*" + u + "*");
    PlainPrefix(t, name);
    PlainInside(u, name);
  }

  // ----- --gtest_filter -----

  /** A name is run if a positive pattern matches it and no negative one does. */
  ghost predicate Selects(filter: string, name: string) {
    var n := |UpTo(filter, '-')|;
    if n == |filter| then FilterMatches(name, filter) && !FilterMatches(name, "")
    else (n == 0 || FilterMatches(name, filter[..n])) && !FilterMatches(name, filter[n + 1..])
  }

  /** The parts of a filter, in front of and behind the first '-': an empty positive part means everything. */
  lemma SelectsParts(positive: string, negative: string, name: string)
    requires '-' !in positive
    ensures Selects(positive, name) <==> FilterMatches(name, positive) && name != ""
    ensures Selects(positive + "-" + negative, name)
       <==> (positive == "" || FilterMatches(name, positive)) && !FilterMatches(name, negative)
  {
    UpToOf(positive, "", '-');
    assert positive + "" == positive;
    UpToOf(positive, "-" + negative, '-');
    var filter := positive + "-" + negative;
    assert filter == positive + ("-" + negative);
    assert filter[..|positive|] == positive && filter[|positive| + 1..] == negative;
    FilterMatchesHead(name, "");
    GlobEmpty(name);
  }

  lemma {:induction false} UpToOf(text: string, t: string, ch: char)
    requires ch !in text && (t != "" ==> t[0] == ch)
    ensures UpTo(text + t, ch) == text
  {
    if text == "" {
      assert text + t == t;
    } else {
      assert (text + t)[1..] == text[1..] + t;
      assert (text + t)[0] in text;
      UpToOf(text[1..], t, ch);
    }
  }

  lemma StarAlone(name: string)
    ensures FilterMatches(name, "*")
  {
    GlobEverything(name);
    FilterMatchesHead(name, "*");
    PieceOfPrefix("*", "");
    assert "*" + "" == "*";
  }

  method FilterMatchesTest(testCaseName: string, testName: string, filter: string) returns (b: bool)
    ensures b <==> Selects(filter, testCaseName + "." + testName)
  {
    var fullName := testCaseName + "." + testName;
    var dash := FindChar(filter, '-');
    var positive, negative;
    if dash.None? {
      positive, negative := filter, "";
    } else {
      positive, negative := filter[..dash.value], filter[dash.value + 1..];
      if positive == "" {
        positive := UNIVERSAL_FILTER;
        StarAlone(fullName);
      }
    }
    b := MatchesFilter(fullName, positive);
    if b {
      var excluded := MatchesFilter(fullName, negative);
      b := !excluded;
    }
  }
}
