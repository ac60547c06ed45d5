/**
  googletest's simple regular expressions: the validator, the backtracking matcher and the
  class RE. A NUL-terminated string is the sequence of its characters; the terminator is
  the end of the sequence.
 */
module SimpleRegex {
  import opened Common

  // ----- Character classes -----

  const FORM_FEED := 12 as char
  const VERTICAL_TAB := 11 as char

  predicate IsAsciiDigit(ch: char) {
    '0' <= ch <= '9'
  }

  predicate IsAsciiPunct(ch: char) {
    ch in {'^', '-', '!', '\"', '#', '$', '%', '&', '\'', '(', ')', '*', '+', ',', '.', '/',
           ':', ';', '<', '=', '>', '?', '@', '[', '\\', ']', '_', '`', '{', '|', '}', '~'}
  }

  predicate IsRepeat(ch: char) {
    ch in {'?', '*', '+'}
  }

  predicate IsAsciiWhiteSpace(ch: char) {
    ch in {' ', FORM_FEED, '\n', '\r', '\t', VERTICAL_TAB}
  }

  predicate IsAsciiWordChar(ch: char) {
    'a' <= ch <= 'z' || 'A' <= ch <= 'Z' || '0' <= ch <= '9' || ch == '_'
  }

  predicate IsValidEscape(c: char) {
    IsAsciiPunct(c) || c in {'d', 'D', 'f', 'n', 'r', 's', 'S', 't', 'v', 'w', 'W'}
  }

  predicate AtomMatchesChar(escaped: bool, c: char, ch: char) {
    if escaped then
      match c
      case 'd' => IsAsciiDigit(ch)
      case 'D' => !IsAsciiDigit(ch)
      case 'f' => ch == FORM_FEED
      case 'n' => ch == '\n'
      case 'r' => ch == '\r'
      case 's' => IsAsciiWhiteSpace(ch)
      case 'S' => !IsAsciiWhiteSpace(ch)
      case 't' => ch == '\t'
      case 'v' => ch == VERTICAL_TAB
      case 'w' => IsAsciiWordChar(ch)
      case 'W' => !IsAsciiWordChar(ch)
      case _ => IsAsciiPunct(c) && c == ch
    else
      (c == '.' && ch != '\n') || c == ch
  }

  // ----- The grammar: ^? (atom [?*+]?)* $? -----

  datatype Repeat = Once | Optional | Star | Plus

  datatype Item = Item(escaped: bool, c: char, repeat: Repeat)

  datatype Regex = Regex(atStart: bool, items: seq<Item>, atEnd: bool)

  predicate IsAtom(escaped: bool, c: char) {
    if escaped then IsValidEscape(c) else c !in {'^', '$', '(', ')', '[', ']', '{', '}', '|', '?', '*', '+', '\\'}
  }

  predicate WellFormed(items: seq<Item>) {
    forall i :: 0 <= i < |items| ==> IsAtom(items[i].escaped, items[i].c)
  }

  function PrintRepeat(repeat: Repeat): string {
    match repeat
    case Once => ""
    case Optional => "?"
    case Star => "*"
    case Plus => "+"
  }

  function PrintItem(item: Item): string {
    (if item.escaped then ['\\', item.c] else [item.c]) + PrintRepeat(item.repeat)
  }

  function PrintTail(items: seq<Item>, atEnd: bool): string {
    if items == [] then (if atEnd then "$" else "") else PrintItem(items[0]) + PrintTail(items[1..], atEnd)
  }

  function Print(r: Regex): string {
    (if r.atStart then "^" else "") + PrintTail(r.items, r.atEnd)
  }

  /** `r` is what the text `regex` stands for. */
  ghost predicate Denotes(regex: string, r: Regex) {
    WellFormed(r.items) && Print(r) == regex
  }

  ghost predicate InGrammar(regex: string) {
    exists r :: Denotes(regex, r)
  }

  lemma PrintTailHead(items: seq<Item>, atEnd: bool)
    requires WellFormed(items)
    ensures var s := PrintTail(items, atEnd); s != "" ==> !IsRepeat(s[0]) && s[0] != '^' && (s[0] == '$' <==> items == [])
  {
  }

  /** How the text of a first item shows its parts. */
  lemma PrintedItem(item: Item, rest: seq<Item>, atEnd: bool)
    requires IsAtom(item.escaped, item.c) && WellFormed(rest)
    ensures var s, t, at := PrintItem(item) + PrintTail(rest, atEnd), PrintTail(rest, atEnd), if item.escaped then 1 else 0;
      && |s| > at
      && (s[0] == '\\' <==> item.escaped)
      && s[at] == item.c
      && (if at + 1 < |s| && IsRepeat(s[at + 1]) then item.repeat == RepeatOf(s[at + 1]) && s[at + 2..] == t
          else item.repeat == Once && s[at + 1..] == t)
  {
    PrintTailHead(rest, atEnd);
    hide PrintTail, IsValidEscape;
    var t, at, rep := PrintTail(rest, atEnd), if item.escaped then 1 else 0, PrintRepeat(item.repeat);
    var head := if item.escaped then ['\\', item.c] else [item.c];
    var s := PrintItem(item) + t;
    assert s == head + (rep + t) by {
      Associates(head, rep, t);
    }
    assert s[at + 1..] == rep + t;
    if item.repeat == Once {
      assert rep + t == t;
      assert t != "" ==> s[at + 1] == t[0];
    } else {
      assert s[at + 1] == rep[0] && s[at + 2..] == t;
    }
  }

  lemma PrintParts(r: Regex)
    requires WellFormed(r.items)
    ensures var s := Print(r);
      && (r.atStart <==> s != "" && s[0] == '^')
      && PrintTail(r.items, r.atEnd) == if r.atStart then s[1..] else s
  {
    PrintTailHead(r.items, r.atEnd);
    assert "" + PrintTail(r.items, r.atEnd) == PrintTail(r.items, r.atEnd);
  }

  /** No text stands for two regular expressions. */
  lemma {:induction false} PrintTailInjective(items: seq<Item>, atEnd: bool, items': seq<Item>, atEnd': bool)
    requires WellFormed(items) && WellFormed(items')
    requires PrintTail(items, atEnd) == PrintTail(items', atEnd')
    ensures items == items' && atEnd == atEnd'
    decreases |items|
  {
    PrintTailHead(items, atEnd);
    PrintTailHead(items', atEnd');
    if items != [] && items' != [] {
      hide PrintItem, IsAtom;
      PrintedItem(items[0], items[1..], atEnd);
      PrintedItem(items'[0], items'[1..], atEnd');
      PrintTailInjective(items[1..], atEnd, items'[1..], atEnd');
      assert items == [items[0]] + items[1..] && items' == [items'[0]] + items'[1..];
    }
  }

  lemma DenotesUnique(regex: string, r: Regex, r': Regex)
    requires Denotes(regex, r) && Denotes(regex, r')
    ensures r == r'
  {
    PrintParts(r);
    PrintParts(r');
    PrintTailInjective(r.items, r.atEnd, r'.items, r'.atEnd);
  }

  // ----- The validator -----

  /** The texts that may stand where an item or the end is due. */
  predicate ValidTail(s: string)
    decreases |s|, 0
  {
    || s == ""
    || s == "$"
    || (if s[0] == '\\' then |s| >= 2 && IsAtom(true, s[1]) && AfterAtom(s[2..])
        else IsAtom(false, s[0]) && AfterAtom(s[1..]))
  }

  predicate AfterAtom(s: string)
    decreases |s|, 1
  {
    ValidTail(s) || (s != "" && IsRepeat(s[0]) && ValidTail(s[1..]))
  }

  predicate ValidRegex(s: string) {
    ValidTail(if s != "" && s[0] == '^' then s[1..] else s)
  }

  lemma {:induction false} PrintedTailIsValid(items: seq<Item>, atEnd: bool)
    requires WellFormed(items)
    ensures ValidTail(PrintTail(items, atEnd))
  {
    if items != [] {
      PrintedTailIsValid(items[1..], atEnd);
      PrintedItem(items[0], items[1..], atEnd);
      var s, at := PrintTail(items, atEnd), if items[0].escaped then 1 else 0;
      assert at + 1 < |s| ==> s[at + 1..][1..] == s[at + 2..] && s[at + 1..][0] == s[at + 1];
      assert AfterAtom(s[at + 1..]);
    }
  }

  lemma {:induction false} ValidTailIsPrinted(s: string) returns (items: seq<Item>, atEnd: bool)
    requires ValidTail(s)
    ensures WellFormed(items) && PrintTail(items, atEnd) == s
    decreases |s|
  {
    if s == "" || s == "$" {
      return [], s == "$";
    }
    var item, after := FirstItem(s);
    var rest;
    rest, atEnd := ValidTailIsPrinted(after);
    items := [item] + rest;
    assert items[1..] == rest;
  }

  lemma FirstItem(s: string) returns (item: Item, after: string)
    requires ValidTail(s) && s != "" && s != "$"
    ensures |after| < |s| && ValidTail(after)
    ensures IsAtom(item.escaped, item.c) && s == PrintItem(item) + after
  {
    hide IsValidEscape;
    var escaped := s[0] == '\\';
    var n := if escaped then 2 else 1;
    var head, tail := s[..n], s[n..];
    assert s == head + tail;
    if ValidTail(tail) {
      item, after := Item(escaped, s[n - 1], Once), tail;
      assert head + "" == head;
    } else {
      item, after := Item(escaped, s[n - 1], RepeatOf(tail[0])), tail[1..];
      assert tail == PrintRepeat(item.repeat) + after;
      Associates(head, PrintRepeat(item.repeat), after);
    }
  }

  function RepeatOf(ch: char): Repeat
    requires IsRepeat(ch)
  {
    if ch == '?' then Optional else if ch == '*' then Star else Plus
  }

  lemma ValidRegexIsGrammar(regex: string)
    ensures ValidRegex(regex) <==> InGrammar(regex)
  {
    if ValidRegex(regex) {
      var atStart := regex != "" && regex[0] == '^';
      var items, atEnd := ValidTailIsPrinted(if atStart then regex[1..] else regex);
      assert Denotes(regex, Regex(atStart, items, atEnd));
    }
    if r :| Denotes(regex, r) {
      PrintParts(r);
      PrintedTailIsValid(r.items, r.atEnd);
    }
  }

  /** What may follow in the validator's loop: at the very start, after an atom, or elsewhere. */
  predicate Expected(u: string, first: bool, prevRepeatable: bool) {
    if prevRepeatable then AfterAtom(u) else if first then ValidRegex(u) else ValidTail(u)
  }

  lemma ExpectedEscape(s: string, i: nat, prevRepeatable: bool)
    requires i < |s| && s[i] == '\\'
    ensures Expected(s[i..], i == 0, prevRepeatable)
       <==> i + 2 <= |s| && IsValidEscape(s[i + 1]) && Expected(s[i + 2..], false, true)
  {
    var u := s[i..];
    assert |u| >= 2 ==> u[2..] == s[i + 2..];
    assert !IsRepeat(u[0]) && u != "$";
    assert AfterAtom(u) <==> ValidTail(u);
    assert ValidTail(u) <==> |u| >= 2 && IsAtom(true, u[1]) && AfterAtom(u[2..]);
  }

  /** What the loop objects to in an unescaped character. */
  predicate Objectionable(s: string, i: nat, prevRepeatable: bool)
    requires i < |s|
  {
    var ch := s[i];
    || (ch == '^' && i > 0)
    || (ch == '$' && i + 1 < |s|)
    || ch in {'(', ')', '[', ']', '{', '}', '|'}
    || (IsRepeat(ch) && !prevRepeatable)
  }

  lemma ExpectedPlain(s: string, i: nat, prevRepeatable: bool)
    requires i < |s| && s[i] != '\\' && !(i == 0 && prevRepeatable)
    ensures Expected(s[i..], i == 0, prevRepeatable)
       <==> !Objectionable(s, i, prevRepeatable) && Expected(s[i + 1..], false, s[i] !in {'^', '$', '?', '*', '+'})
  {
    var u := s[i..];
    assert u[1..] == s[i + 1..];
    assert u[0] == '$' && |u| == 1 ==> u == "$";
    assert IsRepeat(u[0]) ==> !ValidTail(u) && (AfterAtom(u) <==> ValidTail(u[1..]));
    assert !IsRepeat(u[0]) ==> (AfterAtom(u) <==> ValidTail(u));
    assert u[0] == '^' ==> !ValidTail(u);
    assert u[0] == '$' ==> (ValidTail(u) <==> |u| == 1) && ValidTail("");
    assert IsAtom(false, u[0]) ==> (ValidTail(u) <==> AfterAtom(u[1..]));
  }

  /** Exactly the texts in the grammar are accepted; None is the null pointer. */
  method ValidateRegex(regex: Option<string>) returns (valid: bool)
    ensures valid <==> regex.Some? && InGrammar(regex.value)
  {
    if regex.None? {
      return false;
    }
    var s := regex.value;
    ValidRegexIsGrammar(s);
    hide InGrammar, Expected, IsValidEscape, ValidRegex, IsRepeat;
    valid := true;
    var prevRepeatable := false;
    var i := 0;
    assert s[0..] == s && Expected(s, true, false) == ValidRegex(s) by {
      ExpectedAtStart(s);
    }
    while i < |s|
      invariant 0 <= i <= |s|
      invariant prevRepeatable ==> i > 0
      invariant ValidRegex(s) <==> valid && Expected(s[i..], i == 0, prevRepeatable)
    {
      if s[i] == '\\' {
        ExpectedEscape(s, i, prevRepeatable);
        i := i + 1;
        if i == |s| {
          return false;
        }
        if !IsValidEscape(s[i]) {
          valid := false;
        }
        prevRepeatable := true;
      } else {
        ExpectedPlain(s, i, prevRepeatable);
        var ch := s[i];
        if ch == '^' && i > 0 {
          valid := false;
        } else if ch == '$' && i + 1 < |s| {
          valid := false;
        } else if ch in {'(', ')', '[', ']', '{', '}', '|'} {
          valid := false;
        } else if IsRepeat(ch) && !prevRepeatable {
          valid := false;
        }
        prevRepeatable := ch !in {'^', '$', '?', '*', '+'};
      }
      i := i + 1;
    }
    NothingExpected(i == 0, prevRepeatable);
  }

  lemma ExpectedAtStart(s: string)
    ensures Expected(s, true, false) == ValidRegex(s)
  {
  }

  lemma NothingExpected(first: bool, prevRepeatable: bool)
    ensures Expected("", first, prevRepeatable)
  {
  }

  // ----- What a regular expression matches -----

  predicate InBounds(repeat: Repeat, n: nat) {
    match repeat
    case Once => n == 1
    case Optional => n <= 1
    case Star => true
    case Plus => n >= 1
  }

  predicate MatchesBlock(item: Item, block: string) {
    InBounds(item.repeat, |block|) && forall i :: 0 <= i < |block| ==> AtomMatchesChar(item.escaped, item.c, block[i])
  }

  ghost predicate Splits(items: seq<Item>, blocks: seq<string>, s: string) {
    && |blocks| == |items|
    && Flatten(blocks) == s
    && forall i :: 0 <= i < |items| ==> MatchesBlock(items[i], blocks[i])
  }

  /** `s` is one block per item, in order. */
  ghost predicate InLanguage(items: seq<Item>, s: string) {
    exists blocks :: Splits(items, blocks, s)
  }

  ghost predicate MatchesUpTo(items: seq<Item>, atEnd: bool, s: string, n: nat) {
    n <= |s| && InLanguage(items, s[..n]) && (atEnd ==> n == |s|)
  }

  /** Some prefix of `s`, all of it for a regex that ends in `$`, is in the language. */
  ghost predicate MatchesHead(items: seq<Item>, atEnd: bool, s: string) {
    exists n: nat :: MatchesUpTo(items, atEnd, s, n)
  }

  /** The first `k` characters are a block for `item`, and the others match at the head. */
  ghost predicate MatchesFrom(item: Item, items: seq<Item>, atEnd: bool, s: string, k: nat) {
    k <= |s| && MatchesBlock(item, s[..k]) && MatchesHead(items, atEnd, s[k..])
  }

  lemma EmptyLanguage(s: string)
    ensures InLanguage([], s) <==> s == ""
  {
    assert Splits([], [], "");
  }

  lemma LanguageCons(item: Item, items: seq<Item>, b: string, t: string)
    requires MatchesBlock(item, b) && InLanguage(items, t)
    ensures InLanguage([item] + items, b + t)
  {
    var blocks :| Splits(items, blocks, t);
    assert ([b] + blocks)[1..] == blocks;
    assert Splits([item] + items, [b] + blocks, b + t);
  }

  lemma LanguageUncons(items: seq<Item>, s: string) returns (k: nat)
    requires items != [] && InLanguage(items, s)
    ensures k <= |s| && MatchesBlock(items[0], s[..k]) && InLanguage(items[1..], s[k..])
  {
    var blocks :| Splits(items, blocks, s);
    k := |blocks[0]|;
    assert s[..k] == blocks[0] && s[k..] == Flatten(blocks[1..]);
    assert Splits(items[1..], blocks[1..], s[k..]);
  }

  lemma HeadCons(item: Item, items: seq<Item>, atEnd: bool, s: string)
    ensures MatchesHead([item] + items, atEnd, s) <==> exists k: nat :: MatchesFrom(item, items, atEnd, s, k)
  {
    hide InLanguage, MatchesBlock;
    var all := [item] + items;
    assert all[0] == item && all[1..] == items;
    if n: nat :| MatchesUpTo(all, atEnd, s, n) {
      var k := LanguageUncons(all, s[..n]);
      assert s[..n][..k] == s[..k] && s[..n][k..] == s[k..][..n - k];
      assert MatchesUpTo(items, atEnd, s[k..], n - k);
      assert MatchesFrom(item, items, atEnd, s, k);
    }
    if k: nat :| MatchesFrom(item, items, atEnd, s, k) {
      var m: nat :| MatchesUpTo(items, atEnd, s[k..], m);
      LanguageCons(item, items, s[..k], s[k..][..m]);
      assert s[..k] + s[k..][..m] == s[..k + m];
      assert MatchesUpTo(all, atEnd, s, k + m);
    }
  }

  lemma EmptyHead(atEnd: bool, s: string)
    ensures MatchesHead([], atEnd, s) <==> (atEnd ==> s == "")
  {
    EmptyLanguage(s[..0]);
    if !atEnd || s == "" {
      assert MatchesUpTo([], atEnd, s, 0);
    }
    if n: nat :| MatchesUpTo([], atEnd, s, n) {
      EmptyLanguage(s[..n]);
    }
  }

  // ----- What single items accept, in plain lists of characters -----

  function Digits(): set<char> {
    {'0', '1', '2', '3', '4', '5', '6', '7', '8', '9'}
  }

  function SmallLetters(): set<char> {
    {'a', 'b', 'c', 'd', 'e', 'f', 'g', 'h', 'i', 'j', 'k', 'l', 'm',
     'n', 'o', 'p', 'q', 'r', 's', 't', 'u', 'v', 'w', 'x', 'y', 'z'}
  }

  function CapitalLetters(): set<char> {
    {'A', 'B', 'C', 'D', 'E', 'F', 'G', 'H', 'I', 'J', 'K', 'L', 'M',
     'N', 'O', 'P', 'Q', 'R', 'S', 'T', 'U', 'V', 'W', 'X', 'Y', 'Z'}
  }

  function WordChars(): set<char> {
    SmallLetters() + CapitalLetters() + Digits() + {'_'}
  }

  function Blanks(): set<char> {
    {' ', 9 as char, 10 as char, 11 as char, 12 as char, 13 as char}
  }

  lemma OnceLanguage(escaped: bool, c: char, s: string)
    ensures InLanguage([Item(escaped, c, Once)], s) <==> |s| == 1 && AtomMatchesChar(escaped, c, s[0])
  {
    hide AtomMatchesChar;
    BlockLanguage(Item(escaped, c, Once), s);
  }

  lemma PlusLanguage(escaped: bool, c: char, s: string)
    ensures InLanguage([Item(escaped, c, Plus)], s)
       <==> s != "" && forall i :: 0 <= i < |s| ==> AtomMatchesChar(escaped, c, s[i])
  {
    hide AtomMatchesChar;
    BlockLanguage(Item(escaped, c, Plus), s);
  }

  lemma BlockLanguage(item: Item, s: string)
    ensures InLanguage([item], s) <==> MatchesBlock(item, s)
  {
    hide MatchesBlock;
    if InLanguage([item], s) {
      var k := LanguageUncons([item], s);
      EmptyLanguage(s[k..]);
      assert s[..k] == s;
    }
    if MatchesBlock(item, s) {
      EmptyLanguage("");
      LanguageCons(item, [], s, "");
      assert [item] + [] == [item] && s + "" == s;
    }
  }

  predicate AllIn(s: string, chars: set<char>) {
    forall i :: 0 <= i < |s| ==> s[i] in chars
  }

  /** `\d+`, `\w+` and `\s+` accept exactly the non-empty strings of digits, word characters and blanks. */
  lemma ClassLanguages(s: string)
    ensures InLanguage([Item(true, 'd', Plus)], s) <==> s != "" && AllIn(s, Digits())
    ensures InLanguage([Item(true, 'w', Plus)], s) <==> s != "" && AllIn(s, WordChars())
    ensures InLanguage([Item(true, 's', Plus)], s) <==> s != "" && AllIn(s, Blanks())
  {
    PlusLanguage(true, 'd', s);
    PlusLanguage(true, 'w', s);
    PlusLanguage(true, 's', s);
    hide InLanguage;
    forall i | 0 <= i < |s|
      ensures AtomMatchesChar(true, 'd', s[i]) <==> s[i] in Digits()
      ensures AtomMatchesChar(true, 'w', s[i]) <==> s[i] in WordChars()
      ensures AtomMatchesChar(true, 's', s[i]) <==> s[i] in Blanks()
    {
      ClassMembers(s[i]);
    }
    hide AtomMatchesChar;
  }

  lemma ClassMembers(ch: char)
    ensures AtomMatchesChar(true, 'd', ch) <==> ch in Digits()
    ensures AtomMatchesChar(true, 'w', ch) <==> ch in WordChars()
    ensures AtomMatchesChar(true, 's', ch) <==> ch in Blanks()
  {
    Letters(ch);
    hide SmallLetters, CapitalLetters;
    assert ch == (ch as int) as char;
  }

  lemma Letters(ch: char)
    ensures ch in SmallLetters() <==> 'a' <= ch <= 'z'
    ensures ch in CapitalLetters() <==> 'A' <= ch <= 'Z'
  {
    assert ch == (ch as int) as char;
  }

  /** A capital accepts exactly the single characters that its lower-case class does not. */
  lemma CapitalLanguages(s: string)
    ensures InLanguage([Item(true, 'D', Once)], s) <==> |s| == 1 && !InLanguage([Item(true, 'd', Once)], s)
    ensures InLanguage([Item(true, 'W', Once)], s) <==> |s| == 1 && !InLanguage([Item(true, 'w', Once)], s)
    ensures InLanguage([Item(true, 'S', Once)], s) <==> |s| == 1 && !InLanguage([Item(true, 's', Once)], s)
  {
    OnceLanguage(true, 'D', s);
    OnceLanguage(true, 'd', s);
    OnceLanguage(true, 'W', s);
    OnceLanguage(true, 'w', s);
    OnceLanguage(true, 'S', s);
    OnceLanguage(true, 's', s);
    hide InLanguage, IsAsciiDigit, IsAsciiWordChar, IsAsciiWhiteSpace;
  }

  /** The escapes of control characters, a dot, and everything that stands for itself. */
  lemma SingleLanguages(c: char, s: string)
    ensures InLanguage([Item(true, 't', Once)], s) <==> s == [9 as char]
    ensures InLanguage([Item(true, 'n', Once)], s) <==> s == [10 as char]
    ensures InLanguage([Item(true, 'v', Once)], s) <==> s == [11 as char]
    ensures InLanguage([Item(true, 'f', Once)], s) <==> s == [12 as char]
    ensures InLanguage([Item(true, 'r', Once)], s) <==> s == [13 as char]
    ensures InLanguage([Item(false, '.', Once)], s) <==> |s| == 1 && s != "\n"
    ensures c != '.' ==> (InLanguage([Item(false, c, Once)], s) <==> s == [c])
    ensures Punctuation(c) ==> (InLanguage([Item(true, c, Once)], s) <==> s == [c])
  {
    OnceLanguage(true, 't', s);
    OnceLanguage(true, 'n', s);
    OnceLanguage(true, 'v', s);
    OnceLanguage(true, 'f', s);
    OnceLanguage(true, 'r', s);
    OnceLanguage(false, '.', s);
    OnceLanguage(false, c, s);
    OnceLanguage(true, c, s);
    hide InLanguage;
  }

  /** The visible ASCII characters that are neither digits nor letters. */
  predicate Punctuation(c: char) {
    '!' <= c <= '/' || ':' <= c <= '@' || '[' <= c <= '`' || '{' <= c <= '~'
  }

  /** The valid regular expressions of one character, or of one character after a backslash. */
  lemma ShortestRegexes(c: char)
    ensures InGrammar([c]) <==> c !in {'(', ')', '[', ']', '{', '}', '|', '?', '*', '+', '\\'}
    ensures InGrammar(['\\', c])
       <==> Punctuation(c) || c in {'d', 'D', 'f', 'n', 'r', 's', 'S', 't', 'v', 'w', 'W'}
  {
    var one, two := [c], ['\\', c];
    ValidRegexIsGrammar(one);
    ValidRegexIsGrammar(two);
    OneCharacter(one);
    OneEscape(two);
    hide InGrammar, ValidRegex;
    assert one[0] == c && two[1] == c;
  }

  lemma OneCharacter(s: string)
    requires |s| == 1
    ensures ValidRegex(s) <==> s[0] !in {'(', ')', '[', ']', '{', '}', '|', '?', '*', '+', '\\'}
  {
    assert s[1..] == "" && AfterAtom("");
    assert s == "$" <==> s[0] == '$';
    assert s[0] == '\\' ==> !ValidTail(s);
  }

  lemma OneEscape(s: string)
    requires |s| == 2 && s[0] == '\\'
    ensures ValidRegex(s) <==> Punctuation(s[1]) || s[1] in {'d', 'D', 'f', 'n', 'r', 's', 'S', 't', 'v', 'w', 'W'}
  {
    assert s[2..] == "" && AfterAtom("");
    assert ValidTail(s) <==> IsAtom(true, s[1]);
  }

  // ----- The matcher -----

  method MatchRepetitionAndRegexAtHead(escaped: bool, c: char, repeat: char, regex: string, str: string,
                                       ghost items: seq<Item>, ghost atEnd: bool)
    returns (b: bool)
    requires IsRepeat(repeat)
    requires WellFormed(items) && regex == PrintTail(items, atEnd)
    ensures b <==> MatchesHead([Item(escaped, c, RepeatOf(repeat))] + items, atEnd, str)
    decreases |regex|, 1
  {
    ghost var item := Item(escaped, c, RepeatOf(repeat));
    HeadCons(item, items, atEnd, str);
    var minCount := if repeat == '+' then 1 else 0;
    var i := 0;
    while repeat != '?' || i <= 1
      invariant 0 <= i <= |str|
      invariant repeat == '?' ==> i <= 2
      invariant forall j :: 0 <= j < i ==> AtomMatchesChar(escaped, c, str[j])
      invariant forall j: nat :: j < i ==> !MatchesFrom(item, items, atEnd, str, j)
      decreases |str| - i
    {
      if i >= minCount {
        var tail := MatchRegexAtHead(regex, str[i..], items, atEnd);
        if tail {
          assert MatchesFrom(item, items, atEnd, str, i);
          return true;
        }
      }
      assert !MatchesFrom(item, items, atEnd, str, i);
      if i == |str| || !AtomMatchesChar(escaped, c, str[i]) {
        forall k: nat | k > i
          ensures !MatchesFrom(item, items, atEnd, str, k)
        {
          assert i < |str| && k <= |str| ==> str[..k][i] == str[i];
        }
        return false;
      }
      i := i + 1;
    }
    return false;
  }

  method MatchRegexAtHead(regex: string, str: string, ghost items: seq<Item>, ghost atEnd: bool) returns (b: bool)
    requires WellFormed(items) && regex == PrintTail(items, atEnd)
    ensures b <==> MatchesHead(items, atEnd, str)
    decreases |regex|, 0
  {
    PrintTailHead(items, atEnd);
    if items == [] {
      EmptyHead(atEnd, str);
    }
    if regex == "" {
      return true;
    }
    if regex[0] == '$' {
      return str == "";
    }
    ghost var item, rest := items[0], items[1..];
    assert items == [item] + rest;
    PrintedItem(item, rest, atEnd);
    var escaped := regex[0] == '\\';
    var at := if escaped then 1 else 0;
    if at + 1 < |regex| && IsRepeat(regex[at + 1]) {
      b := MatchRepetitionAndRegexAtHead(escaped, regex[at], regex[at + 1], regex[at + 2..], str, rest, atEnd);
      assert item == Item(escaped, regex[at], RepeatOf(regex[at + 1]));
    } else {
      OnceAtHead(item, rest, atEnd, str);
      if str == "" || !AtomMatchesChar(escaped, regex[at], str[0]) {
        return false;
      }
      b := MatchRegexAtHead(regex[at + 1..], str[1..], rest, atEnd);
    }
  }

  lemma OnceAtHead(item: Item, items: seq<Item>, atEnd: bool, s: string)
    requires item.repeat == Once
    ensures MatchesHead([item] + items, atEnd, s)
       <==> s != "" && AtomMatchesChar(item.escaped, item.c, s[0]) && MatchesHead(items, atEnd, s[1..])
  {
    HeadCons(item, items, atEnd, s);
    if k: nat :| MatchesFrom(item, items, atEnd, s, k) {
      assert s[..k][0] == s[0];
    }
    if s != "" && AtomMatchesChar(item.escaped, item.c, s[0]) && MatchesHead(items, atEnd, s[1..]) {
      assert MatchesFrom(item, items, atEnd, s, 1);
    }
  }

  ghost predicate MatchesAt(r: Regex, s: string, from: nat, to: nat) {
    && from <= to <= |s|
    && InLanguage(r.items, s[from..to])
    && (r.atStart ==> from == 0)
    && (r.atEnd ==> to == |s|)
  }

  /** Some substring is in the language, where the anchors allow one. */
  ghost predicate MatchesSubstring(r: Regex, s: string) {
    exists from: nat, to: nat :: MatchesAt(r, s, from, to)
  }

  lemma HeadAtOffset(r: Regex, s: string, from: nat)
    requires from <= |s| && (r.atStart ==> from == 0)
    ensures MatchesHead(r.items, r.atEnd, s[from..]) <==> exists to: nat :: MatchesAt(r, s, from, to)
  {
    if n: nat :| MatchesUpTo(r.items, r.atEnd, s[from..], n) {
      assert s[from..][..n] == s[from..from + n];
      assert MatchesAt(r, s, from, from + n);
    }
    if to: nat :| MatchesAt(r, s, from, to) {
      assert s[from..][..to - from] == s[from..to];
      assert MatchesUpTo(r.items, r.atEnd, s[from..], to - from);
    }
  }

  method MatchRegexAnywhere(regex: Option<string>, str: Option<string>, ghost r: Regex) returns (b: bool)
    requires regex.Some? ==> Denotes(regex.value, r)
    ensures b <==> regex.Some? && str.Some? && MatchesSubstring(r, str.value)
  {
    if regex.None? || str.None? {
      return false;
    }
    var pattern, s := regex.value, str.value;
    PrintParts(r);
    if pattern != "" && pattern[0] == '^' {
      HeadAtOffset(r, s, 0);
      assert s[0..] == s;
      b := MatchRegexAtHead(pattern[1..], s, r.items, r.atEnd);
      return;
    }
    var i := 0;
    while true
      invariant 0 <= i <= |s|
      invariant forall j: nat, to: nat :: j < i ==> !MatchesAt(r, s, j, to)
      decreases |s| - i
    {
      HeadAtOffset(r, s, i);
      b := MatchRegexAtHead(pattern, s[i..], r.items, r.atEnd);
      if b {
        return;
      }
      if i == |s| {
        return false;
      }
      i := i + 1;
    }
  }

  // ----- Class RE -----

  /** The regex ends in a `$` that is an escaped character and not an anchor. */
  predicate EndsInEscapedDollar(r: Regex) {
    !r.atEnd && r.items != [] && r.items[|r.items| - 1] == Item(true, '$', Once)
  }

  /** The regex that the full pattern stands for: the end anchor is missing after `\$`. */
  function Anchored(r: Regex): Regex {
    Regex(true, r.items, !EndsInEscapedDollar(r))
  }

  lemma {:induction false} PrintTailAnchor(items: seq<Item>)
    ensures PrintTail(items, true) == PrintTail(items, false) + "$"
  {
    if items != [] {
      PrintTailAnchor(items[1..]);
    }
  }

  lemma {:induction false} LastTailChar(items: seq<Item>)
    requires WellFormed(items) && items != []
    ensures var t := PrintTail(items, false);
      t != "" && (t[|t| - 1] == '$' <==> items[|items| - 1] == Item(true, '$', Once))
  {
    var p, t := PrintItem(items[0]), PrintTail(items[1..], false);
    if |items| == 1 {
      assert p + t == p;
    } else {
      LastTailChar(items[1..]);
      assert (p + t)[|p + t| - 1] == t[|t| - 1];
    }
  }

  lemma LastPrintedChar(r: Regex)
    requires WellFormed(r.items) && Print(r) != ""
    ensures Print(r)[|Print(r)| - 1] == '$' <==> r.atEnd || EndsInEscapedDollar(r)
  {
    var s, start, t := Print(r), if r.atStart then "^" else "", PrintTail(r.items, r.atEnd);
    assert s == start + t;
    if r.atEnd {
      PrintTailAnchor(r.items);
      assert t[|t| - 1] == '$';
    } else if r.items != [] {
      LastTailChar(r.items);
    }
    assert t != "" ==> s[|s| - 1] == t[|t| - 1];
  }

  /** The text between the anchors. */
  lemma PrintPieces(r: Regex)
    ensures Print(r) == (if r.atStart then "^" else "") + PrintTail(r.items, false) + (if r.atEnd then "$" else "")
  {
    PrintTailAnchor(r.items);
  }

  class RE {
    var pattern: Option<string>
    var fullPattern: Option<string>
    var isValid: bool

    ghost predicate Valid()
      reads this
    {
      && (isValid <==> pattern.Some? && InGrammar(pattern.value))
      && (isValid ==> fullPattern.Some? && forall r :: Denotes(pattern.value, r) ==> Denotes(fullPattern.value, Anchored(r)))
    }

    constructor (regex: Option<string>)
      ensures Valid() && pattern == regex
    {
      hide Denotes, InGrammar, Anchored;
      pattern, fullPattern, isValid := regex, None, false;
      new;
      isValid := ValidateRegex(regex);
      if !isValid {
        return;
      }
      var text := regex.value;
      var buffer := "";
      if text == "" || text[0] != '^' {
        buffer := buffer + ['^'];
      }
      buffer := buffer + text;
      if |text| == 0 || text[|text| - 1] != '$' {
        buffer := buffer + ['$'];
      }
      fullPattern := Some(buffer);
      forall r | Denotes(text, r)
        ensures Denotes(buffer, Anchored(r))
      {
        FullPatternDenotes(text, r);
        assert buffer == (if text == "" || text[0] != '^' then "^" else "") + text
                         + (if text == "" || text[|text| - 1] != '$' then "$" else "");
      }
    }

    static method FullMatch(str: Option<string>, re: RE) returns (b: bool)
      requires re.Valid()
      ensures b <==> str.Some? && re.isValid
                     && exists r :: Denotes(re.pattern.value, r) && MatchesSubstring(Anchored(r), str.value)
    {
      if !re.isValid {
        return false;
      }
      ghost var r :| Denotes(re.pattern.value, r);
      b := MatchRegexAnywhere(re.fullPattern, str, Anchored(r));
      forall r' | Denotes(re.pattern.value, r')
        ensures r' == r
      {
        DenotesUnique(re.pattern.value, r, r');
      }
    }

    static method PartialMatch(str: Option<string>, re: RE) returns (b: bool)
      requires re.Valid()
      ensures b <==> str.Some? && re.isValid
                     && exists r :: Denotes(re.pattern.value, r) && MatchesSubstring(r, str.value)
    {
      if !re.isValid {
        return false;
      }
      ghost var r :| Denotes(re.pattern.value, r);
      b := MatchRegexAnywhere(re.pattern, str, r);
      forall r' | Denotes(re.pattern.value, r')
        ensures r' == r
      {
        DenotesUnique(re.pattern.value, r, r');
      }
    }
  }

  lemma FullPatternDenotes(text: string, r: Regex)
    requires Denotes(text, r)
    ensures Denotes((if text == "" || text[0] != '^' then "^" else "") + text
                    + (if text == "" || text[|text| - 1] != '$' then "$" else ""), Anchored(r))
  {
    PrintParts(r);
    if text != "" {
      LastPrintedChar(r);
    }
    PrintAnchored(r);
    hide Print, PrintTail;
  }

  /** The text with the anchors it lacks, except that an escaped dollar passes for the last one. */
  lemma PrintAnchored(r: Regex)
    requires WellFormed(r.items)
    ensures Print(Anchored(r))
         == (if r.atStart then "" else "^") + Print(r) + (if r.atEnd || EndsInEscapedDollar(r) then "" else "$")
  {
    PrintPieces(r);
    PrintPieces(Anchored(r));
    var prefix, suffix := if r.atStart then "" else "^", if r.atEnd || EndsInEscapedDollar(r) then "" else "$";
    var start, t, end := if r.atStart then "^" else "", PrintTail(r.items, false), if r.atEnd then "$" else "";
    hide Print, PrintTail;
    Regroup(prefix, start, t, end, suffix);
    assert prefix + start == "^";
    assert end + suffix == if EndsInEscapedDollar(r) then "" else "$";
  }

  // ----- What FullMatch promises, and where it does not hold -----

  /** Every item matches some block. */
  lemma ItemInhabited(item: Item) returns (block: string)
    requires IsAtom(item.escaped, item.c)
    ensures MatchesBlock(item, block)
  {
    var ch := item.c;
    if item.escaped {
      match item.c
      case 'd' => ch := '0';
      case 'D' => ch := 'x';
      case 'f' => ch := FORM_FEED;
      case 'n' => ch := '\n';
      case 'r' => ch := '\r';
      case 's' => ch := ' ';
      case 'S' => ch := 'x';
      case 't' => ch := '\t';
      case 'v' => ch := VERTICAL_TAB;
      case 'w' => ch := 'x';
      case 'W' => ch := ' ';
      case _ =>
    }
    block := [ch];
  }

  lemma {:induction false} LanguageInhabited(items: seq<Item>) returns (s: string)
    requires WellFormed(items)
    ensures InLanguage(items, s)
  {
    if items == [] {
      EmptyLanguage("");
      s := "";
    } else {
      var block := ItemInhabited(items[0]);
      var rest := LanguageInhabited(items[1..]);
      LanguageCons(items[0], items[1..], block, rest);
      assert [items[0]] + items[1..] == items;
      s := block + rest;
    }
  }

  /** A string in the language of a regex that ends in `\$` ends in a dollar. */
  lemma {:induction false} EndsInDollar(items: seq<Item>, s: string)
    requires items != [] && items[|items| - 1] == Item(true, '$', Once)
    requires InLanguage(items, s)
    ensures s != "" && s[|s| - 1] == '$'
  {
    var k := LanguageUncons(items, s);
    if |items| == 1 {
      EmptyLanguage(s[k..]);
      assert s[..k] == s;
    } else {
      EndsInDollar(items[1..], s[k..]);
    }
  }

  lemma AnchoredMeaning(r: Regex, s: string)
    ensures MatchesSubstring(Anchored(r), s) <==> MatchesHead(r.items, !EndsInEscapedDollar(r), s)
    ensures MatchesHead(r.items, true, s) <==> InLanguage(r.items, s)
  {
    var a := Anchored(r);
    HeadAtOffset(a, s, 0);
    assert s[0..] == s;
    if from: nat, to: nat :| MatchesAt(a, s, from, to) {
      assert MatchesAt(a, s, 0, to);
    }
    assert s[..|s|] == s;
    if InLanguage(r.items, s) {
      assert MatchesUpTo(r.items, true, s, |s|);
    }
  }

  /**
    FullMatch accepts exactly the strings of the language for exactly the regexes that do
    not end in an escaped dollar: after `\$` it accepts any longer string as well.
   */
  lemma FullMatchExactIff(r: Regex)
    requires WellFormed(r.items)
    ensures (forall s :: MatchesSubstring(Anchored(r), s) <==> InLanguage(r.items, s)) <==> !EndsInEscapedDollar(r)
  {
    if EndsInEscapedDollar(r) {
      var s := EscapedDollarOvermatches(r);
      assert !(MatchesSubstring(Anchored(r), s) <==> InLanguage(r.items, s));
    } else {
      forall s
        ensures MatchesSubstring(Anchored(r), s) <==> InLanguage(r.items, s)
      {
        AnchoredMeaning(r, s);
      }
    }
  }

  lemma EscapedDollarOvermatches(r: Regex) returns (s: string)
    requires WellFormed(r.items) && EndsInEscapedDollar(r)
    ensures MatchesSubstring(Anchored(r), s) && !InLanguage(r.items, s)
  {
    var w := LanguageInhabited(r.items);
    s := w + "x";
    HeadOfLonger(r.items, w, "x");
    AnchoredMeaning(r, s);
    if InLanguage(r.items, s) {
      EndsInDollar(r.items, s);
    }
  }

  lemma HeadOfLonger(items: seq<Item>, w: string, t: string)
    requires InLanguage(items, w)
    ensures MatchesHead(items, false, w + t)
  {
    assert (w + t)[..|w|] == w;
    assert MatchesUpTo(items, false, w + t, |w|);
  }
}
