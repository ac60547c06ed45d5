/**
  The printer of byte strings as C string literals, and a lexer of C string literals.
 */
module LiteralPrinter {
  import opened Common

  datatype CharFormat = AsIs | HexEscape | SpecialEscape

  predicate IsPrintableAscii(c: Byte) {
    0x20 <= c <= 0x7E
  }

  /** `isxdigit`. */
  predicate IsXDigit(c: Byte) {
    HexValue(c).Some?
  }

  /** The digits of `n` as `FormatHexInt` prints them. */
  function FormatHexInt(n: Byte): string {
    if n < 16 then [HexDigit(n, true) as char] else [HexDigit(n / 16, true) as char, HexDigit(n % 16, true) as char]
  }

  /** How one byte is printed inside a character literal. */
  function CharLiteral(c: Byte): (string, CharFormat) {
    match c
    case 0 => ("\\0", SpecialEscape)
    case 39 => ("\\'", SpecialEscape)
    case 92 => ("\\\\", SpecialEscape)
    case 7 => ("\\a", SpecialEscape)
    case 8 => ("\\b", SpecialEscape)
    case 12 => ("\\f", SpecialEscape)
    case 10 => ("\\n", SpecialEscape)
    case 13 => ("\\r", SpecialEscape)
    case 9 => ("\\t", SpecialEscape)
    case 11 => ("\\v", SpecialEscape)
    case _ => if IsPrintableAscii(c) then ([c as char], AsIs) else ("\\x" + FormatHexInt(c), HexEscape)
  }

  /** How one byte is printed inside a string literal: the two quotes change roles. */
  function Literal(c: Byte): (string, CharFormat) {
    match c
    case 39 => ("'", AsIs)
    case 34 => ("\\\"", SpecialEscape)
    case _ => CharLiteral(c)
  }

  method PrintAsCharLiteralTo(c: Byte, os: string) returns (os': string, format: CharFormat)
    ensures os' == os + CharLiteral(c).0 && format == CharLiteral(c).1
  {
    match c {
      case 0 => os' := os + "\\0";
      case 39 => os' := os + "\\'";
      case 92 => os' := os + "\\\\";
      case 7 => os' := os + "\\a";
      case 8 => os' := os + "\\b";
      case 12 => os' := os + "\\f";
      case 10 => os' := os + "\\n";
      case 13 => os' := os + "\\r";
      case 9 => os' := os + "\\t";
      case 11 => os' := os + "\\v";
      case _ =>
        if IsPrintableAscii(c) {
          return os + [c as char], AsIs;
        } else {
          return os + ("\\x" + FormatHexInt(c)), HexEscape;
        }
    }
    format := SpecialEscape;
  }

  method PrintAsStringLiteralTo(c: Byte, os: string) returns (os': string, format: CharFormat)
    ensures os' == os + Literal(c).0 && format == Literal(c).1
  {
    match c {
      case 39 => os', format := os + "'", AsIs;
      case 34 => os', format := os + "\\\"", SpecialEscape;
      case _ => os', format := PrintAsCharLiteralTo(c, os);
    }
  }

  const BREAK := "\" \""

  /** The rest of the literal, given whether the previous byte was printed as a hex escape. */
  function PrintFrom(bytes: seq<Byte>, previousHex: bool): string {
    if bytes == [] then "\""
    else
      (if previousHex && IsXDigit(bytes[0]) then BREAK else "")
      + Literal(bytes[0]).0
      + PrintFrom(bytes[1..], Literal(bytes[0]).1 == HexEscape)
  }

  method PrintCharsAsStringTo(bytes: seq<Byte>) returns (os: string)
    ensures os == "\"" + PrintFrom(bytes, false)
  {
    os := "\"";
    var isPreviousHex := false;
    for index := 0 to |bytes|
      invariant os + PrintFrom(bytes[index..], isPreviousHex) == "\"" + PrintFrom(bytes, false)
    {
      var cur := bytes[index];
      ghost var rest := PrintFrom(bytes[index + 1..], Literal(cur).1 == HexEscape);
      ghost var br := if isPreviousHex && IsXDigit(cur) then BREAK else "";
      assert bytes[index..][1..] == bytes[index + 1..];
      Associates(os, br + Literal(cur).0, rest);
      Associates(os, br, Literal(cur).0);
      assert os + "" == os;
      if isPreviousHex && IsXDigit(cur) {
        os := os + BREAK;
      }
      var format;
      os, format := PrintAsStringLiteralTo(cur, os);
      isPreviousHex := format == HexEscape;
    }
    os := os + "\"";
  }

  // ----- The text itself -----

  /** Neither printable nor one of the control characters with a letter of their own. */
  predicate NeedsHex(c: Byte) {
    (c < 32 || c > 126) && c != 0 && !(7 <= c <= 13)
  }

  /** Which bytes stand for themselves, in either kind of literal, and which are written in hexadecimal. */
  lemma PrintedAsItself(c: Byte)
    ensures CharLiteral(c).0 == [c as char] <==> 32 <= c <= 126 && c != 39 && c != 92
    ensures Literal(c).0 == [c as char] <==> 32 <= c <= 126 && c != 34 && c != 92
    ensures CharLiteral(c).1 == HexEscape <==> NeedsHex(c)
    ensures Literal(c).1 == HexEscape <==> NeedsHex(c)
    ensures NeedsHex(c) ==> "\\x" <= Literal(c).0 && |Literal(c).0| == if c < 16 then 3 else 4
    ensures NeedsHex(c) ==> forall k :: 2 <= k < |Literal(c).0| ==>
      '0' <= Literal(c).0[k] <= '9' || 'A' <= Literal(c).0[k] <= 'F'
    ensures !NeedsHex(c) ==> |Literal(c).0| <= 2
  {
  }

  /** What is written for the i-th byte, with the break in front of it if it has one. */
  function Piece(bytes: seq<Byte>, i: nat): string
    requires i < |bytes|
  {
    var c := bytes[i];
    (if i > 0 && NeedsHex(bytes[i - 1]) && (48 <= c <= 57 || 65 <= c <= 70 || 97 <= c <= 102) then "\" \"" else "")
    + Literal(c).0
  }

  function PiecesFrom(bytes: seq<Byte>, i: nat): string
    requires i <= |bytes|
    decreases |bytes| - i
  {
    if i == |bytes| then "" else Piece(bytes, i) + PiecesFrom(bytes, i + 1)
  }

  /** The literal is broken exactly where a hexadecimal digit follows a byte in hexadecimal. */
  lemma BreaksExactly(bytes: seq<Byte>)
    ensures PrintFrom(bytes, false) == PiecesFrom(bytes, 0) + "\""
  {
    PrintedFrom(bytes, 0);
    assert bytes[0..] == bytes;
  }

  lemma {:induction false} PrintedFrom(bytes: seq<Byte>, i: nat)
    requires i <= |bytes|
    ensures PrintFrom(bytes[i..], i > 0 && Literal(bytes[i - 1]).1 == HexEscape) == PiecesFrom(bytes, i) + "\""
    decreases |bytes| - i
  {
    if i < |bytes| {
      PrintedFrom(bytes, i + 1);
      PrintedAsItself(bytes[i]);
      if i > 0 {
        PrintedAsItself(bytes[i - 1]);
      }
      hide Literal, NeedsHex;
      assert bytes[i..][1..] == bytes[i + 1..];
      Associates(Piece(bytes, i), PiecesFrom(bytes, i + 1), "\"");
    }
  }

  // ----- Lexing, as in sections 6.4.4.4 and 6.4.5 of ISO C11, adjacent literals concatenated -----

  function OctalValue(ch: char): Option<nat> {
    if '0' <= ch <= '7' then Some(ch as int - 48) else None
  }

  function CharHexValue(ch: char): Option<nat> {
    if ch as int < 256 then HexValue(ch as int) else None
  }

  function SimpleEscape(ch: char): Option<Byte> {
    match ch
    case '\'' => Some(39)
    case '"' => Some(34)
    case '?' => Some(63)
    case '\\' => Some(92)
    case 'a' => Some(7)
    case 'b' => Some(8)
    case 'f' => Some(12)
    case 'n' => Some(10)
    case 'r' => Some(13)
    case 't' => Some(9)
    case 'v' => Some(11)
    case _ => None
  }

  /** The value of up to `limit` octal digits at the front, and what follows them. */
  function TakeOctal(t: string, limit: nat, value: nat): (r: (nat, string))
    ensures |r.1| <= |t|
  {
    if t == "" || limit == 0 || OctalValue(t[0]).None? then (value, t)
    else TakeOctal(t[1..], limit - 1, 8 * value + OctalValue(t[0]).value)
  }

  /** The value of all the hexadecimal digits at the front, and what follows them. */
  function TakeHex(t: string, value: nat): (r: (nat, string))
    ensures |r.1| <= |t|
  {
    if t == "" || CharHexValue(t[0]).None? then (value, t)
    else TakeHex(t[1..], 16 * value + CharHexValue(t[0]).value)
  }

  /** A byte with the given value, before the rest of the literal. */
  function Cons(value: nat, rest: Option<seq<Byte>>): Option<seq<Byte>> {
    if value < 256 && rest.Some? then Some([value] + rest.value) else None
  }

  /** Between literals only blanks may stand. */
  function LexOutside(t: string): Option<seq<Byte>>
    decreases |t|
  {
    if t == "" then Some([])
    else if t[0] == ' ' then LexOutside(t[1..])
    else if t[0] == '"' then LexInside(t[1..])
    else None
  }

  function LexInside(t: string): Option<seq<Byte>>
    decreases |t|
  {
    if t == "" || t[0] == '\n' then None
    else if t[0] == '"' then LexOutside(t[1..])
    else if t[0] != '\\' then Cons(t[0] as nat, LexInside(t[1..]))
    else if |t| == 1 then None
    else if SimpleEscape(t[1]).Some? then Cons(SimpleEscape(t[1]).value, LexInside(t[2..]))
    else if OctalValue(t[1]).Some? then
      var (value, rest) := TakeOctal(t[1..], 3, 0);
      if |rest| < |t| then Cons(value, LexInside(rest)) else None
    else if t[1] == 'x' && |t| >= 3 && CharHexValue(t[2]).Some? then
      var (value, rest) := TakeHex(t[2..], 0);
      Cons(value, LexInside(rest))
    else None
  }

  // ----- Lexing what was printed -----

  predicate IsOctalDigit(c: Byte) {
    48 <= c <= 55
  }

  /** No NUL is directly followed by an octal digit. */
  predicate NoNulOctal(bytes: seq<Byte>) {
    forall i :: 0 <= i < |bytes| - 1 ==> !(bytes[i] == 0 && IsOctalDigit(bytes[i + 1]))
  }

  function Lexed(bytes: seq<Byte>, previousHex: bool): Option<seq<Byte>> {
    LexInside(PrintFrom(bytes, previousHex))
  }

  /** The break changes where the literals end, not what they stand for. */
  lemma BreakIsSilent(bytes: seq<Byte>)
    ensures Lexed(bytes, true) == Lexed(bytes, false)
  {
    if bytes != [] && IsXDigit(bytes[0]) {
      var s := PrintFrom(bytes, true);
      var t := PrintFrom(bytes, false);
      assert s == BREAK + t;
      assert s[1..][1..][1..] == t;
      assert s[0] == '"' && s[1..][0] == ' ' && s[1..][1..][0] == '"';
      assert LexInside(s) == LexOutside(s[1..]) == LexOutside(s[1..][1..]) == LexInside(t);
    }
  }

  /** After a hex escape the next character is no hexadecimal digit. */
  lemma HexEscapeEnds(bytes: seq<Byte>)
    ensures var t := PrintFrom(bytes, true); t != "" && CharHexValue(t[0]).None?
  {
    if bytes != [] {
      assert Literal(bytes[0]).0 != "";
      var t := PrintFrom(bytes, true);
      if IsXDigit(bytes[0]) {
        assert t[0] == '"';
      } else {
        assert t[0] == Literal(bytes[0]).0[0];
      }
    }
  }

  /** After another escape the next character is the next byte's own, or an escape or the end. */
  lemma PlainHead(bytes: seq<Byte>)
    ensures var t := PrintFrom(bytes, false);
      && t != ""
      && (OctalValue(t[0]).Some? <==> bytes != [] && IsOctalDigit(bytes[0]))
      && (bytes != [] && IsOctalDigit(bytes[0]) ==> t[0] as int == bytes[0] && t[1..] == PrintFrom(bytes[1..], false))
  {
    if bytes != [] {
      var t := PrintFrom(bytes, false);
      assert t[0] == Literal(bytes[0]).0[0];
    }
  }

  lemma TakeHexOf(c: Byte, t: string)
    requires t != "" && CharHexValue(t[0]).None?
    ensures TakeHex(FormatHexInt(c) + t, 0) == (c, t)
    ensures CharHexValue((FormatHexInt(c) + t)[0]).Some?
  {
    var digits := FormatHexInt(c) + t;
    assert TakeHex(t, c) == (c, t);
    if c < 16 {
      assert digits[1..] == t;
    } else {
      assert digits[1..] == [HexDigit(c % 16, true) as char] + t;
      assert digits[1..][1..] == t;
      assert TakeHex(digits[1..], c / 16) == TakeHex(t, c);
    }
  }

  lemma LexHexEscape(c: Byte, t: string)
    requires t != "" && CharHexValue(t[0]).None?
    ensures LexInside("\\x" + FormatHexInt(c) + t) == Cons(c, LexInside(t))
  {
    TakeHexOf(c, t);
    var prefix, digits := "\\x", FormatHexInt(c) + t;
    hide TakeHex, HexValue, CharHexValue, FormatHexInt;
    Associates(prefix, FormatHexInt(c), t);
    AppendSplits(prefix, digits);
    LexHexDigits(prefix + digits, digits, c, t);
  }

  lemma LexHexDigits(s: string, digits: string, c: Byte, t: string)
    requires |s| >= 3 && s[0] == '\\' && s[1] == 'x' && s[2..] == digits
    requires CharHexValue(digits[0]).Some? && TakeHex(digits, 0) == (c, t)
    ensures LexInside(s) == Cons(c, LexInside(t))
  {
    hide TakeHex, CharHexValue;
    assert s[2] == digits[0];
  }

  lemma LexPlainChar(ch: char, t: string)
    requires ch != '"' && ch != '\\' && ch != '\n'
    ensures LexInside([ch] + t) == Cons(ch as nat, LexInside(t))
  {
    assert ([ch] + t)[1..] == t;
  }

  lemma LexSimpleEscape(e: char, t: string)
    requires SimpleEscape(e).Some?
    ensures LexInside(['\\', e] + t) == Cons(SimpleEscape(e).value, LexInside(t))
  {
    hide SimpleEscape;
    assert (['\\', e] + t)[2..] == t;
  }

  /** A NUL takes up to two octal digits that follow it. */
  lemma LexNul(t: string)
    ensures LexInside("\\0" + t) == Cons(TakeOctal(t, 2, 0).0, LexInside(TakeOctal(t, 2, 0).1))
  {
    var s := "\\0" + t;
    assert s[1..] == ['0'] + t && s[1..][1..] == t;
    assert TakeOctal(s[1..], 3, 0) == TakeOctal(t, 2, 0);
  }

  lemma EscapeLetter(c: Byte)
    requires Literal(c).1 == SpecialEscape && c != 0
    ensures var l := Literal(c).0; |l| == 2 && l[0] == '\\' && SimpleEscape(l[1]) == Some(c)
  {
  }

  /** One byte of the string is read back, unless it is a NUL before an octal digit. */
  lemma LexOne(bytes: seq<Byte>)
    requires bytes != [] && !(|bytes| > 1 && bytes[0] == 0 && IsOctalDigit(bytes[1]))
    ensures Lexed(bytes, false) == Cons(bytes[0], Lexed(bytes[1..], false))
  {
    var c, rest := bytes[0], bytes[1..];
    var l, t := Literal(c).0, PrintFrom(rest, Literal(c).1 == HexEscape);
    assert PrintFrom(bytes, false) == l + t by {
      assert "" + l == l;
    }
    match Literal(c).1
    case HexEscape =>
      HexEscapeEnds(rest);
      hide LexInside;
      LexHexEscape(c, t);
      BreakIsSilent(rest);
    case AsIs =>
      hide LexInside;
      LexPlainChar(c as char, t);
    case SpecialEscape =>
      PlainHead(rest);
      hide LexInside;
      if c == 0 {
        LexNul(t);
        assert TakeOctal(t, 2, 0) == (0, t);
      } else {
        EscapeLetter(c);
        assert l == ['\\', l[1]];
        LexSimpleEscape(l[1], t);
      }
  }

  /** A NUL before octal digits swallows one or two of them. */
  lemma LexNulOctal(bytes: seq<Byte>) returns (n: nat, v: nat)
    requires |bytes| > 1 && bytes[0] == 0 && IsOctalDigit(bytes[1])
    ensures 2 <= n <= 3 && n <= |bytes|
    ensures Lexed(bytes, false) == Cons(v, Lexed(bytes[n..], false))
  {
    var t, u := PrintFrom(bytes[1..], false), PrintFrom(bytes[2..], false);
    assert PrintFrom(bytes, false) == "\\0" + t by {
      assert "" + "\\0" == "\\0";
    }
    PlainHead(bytes[1..]);
    assert bytes[1..][1..] == bytes[2..];
    hide PrintFrom, LexInside;
    LexNul(t);
    var d := bytes[1] - 48;
    assert TakeOctal(t, 2, 0) == TakeOctal(u, 1, d);
    n, v := SecondOctal(bytes, d);
  }

  lemma SecondOctal(bytes: seq<Byte>, d: nat) returns (n: nat, v: nat)
    requires |bytes| > 1
    ensures 2 <= n <= 3 && n <= |bytes|
    ensures TakeOctal(PrintFrom(bytes[2..], false), 1, d) == (v, PrintFrom(bytes[n..], false))
  {
    PlainHead(bytes[2..]);
    hide PrintFrom;
    var u := PrintFrom(bytes[2..], false);
    n, v := 2, d;
    if |bytes| > 2 && IsOctalDigit(bytes[2]) {
      n, v := 3, 8 * d + (bytes[2] - 48);
      assert bytes[2..][1..] == bytes[3..];
      assert TakeOctal(u[1..], 0, v) == (v, u[1..]);
    }
  }

  lemma {:induction false} LexedSize(bytes: seq<Byte>)
    ensures var r := Lexed(bytes, false);
      if NoNulOctal(bytes) then r == Some(bytes)
      else r.None? || |r.value| < |bytes|
    decreases |bytes|
  {
    assert Lexed([], false) == Some([]) by {
      assert LexOutside("") == Some([]) && "\""[1..] == "";
    }
    hide Lexed;
    if bytes == [] {
    } else if |bytes| > 1 && bytes[0] == 0 && IsOctalDigit(bytes[1]) {
      assert !NoNulOctal(bytes);
      var n, v := LexNulOctal(bytes);
      LexedSize(bytes[n..]);
    } else {
      LexOne(bytes);
      LexedSize(bytes[1..]);
      NoNulOctalTail(bytes);
      assert bytes == [bytes[0]] + bytes[1..];
    }
  }

  lemma NoNulOctalTail(bytes: seq<Byte>)
    requires bytes != [] && !(|bytes| > 1 && bytes[0] == 0 && IsOctalDigit(bytes[1]))
    ensures NoNulOctal(bytes) <==> NoNulOctal(bytes[1..])
  {
    var rest := bytes[1..];
    if NoNulOctal(rest) {
      forall i | 0 <= i < |bytes| - 1
        ensures !(bytes[i] == 0 && IsOctalDigit(bytes[i + 1]))
      {
        assert i > 0 ==> !(rest[i - 1] == 0 && IsOctalDigit(rest[i - 1 + 1]));
      }
    }
  }

  /** The literal stands for the bytes printed exactly when no NUL is directly followed by an octal digit. */
  lemma LexInvertsPrintIff(bytes: seq<Byte>)
    ensures LexOutside("\"" + PrintFrom(bytes, false)) == Some(bytes) <==> NoNulOctal(bytes)
  {
    LexedSize(bytes);
    assert ("\"" + PrintFrom(bytes, false))[1..] == PrintFrom(bytes, false);
  }

  // ----- Character literals -----

  /** The value of what stands between the quotes of a character constant, if it is one. */
  function CharConstant(t: string): Option<nat> {
    if t == "" then None
    else if t[0] != '\\' then
      if |t| == 1 && t[0] != '\'' && t[0] != '\n' then Some(t[0] as nat) else None
    else if |t| == 1 then None
    else if SimpleEscape(t[1]).Some? then
      if |t| == 2 then Some(SimpleEscape(t[1]).value) else None
    else if t[1] == 'x' then
      if |t| >= 3 && CharHexValue(t[2]).Some? then Whole(TakeHex(t[2..], 0)) else None
    else if OctalValue(t[1]).Some? then Whole(TakeOctal(t[1..], 3, 0))
    else None
  }

  /** A number that nothing follows. */
  function Whole(taken: (nat, string)): Option<nat> {
    if taken.1 == "" then Some(taken.0) else None
  }

  /** Every byte printed as a character literal stands for that byte, both quotes included. */
  lemma CharLiteralReadsBack(c: Byte)
    ensures CharConstant(CharLiteral(c).0) == Some(c)
  {
    var t := CharLiteral(c).0;
    match CharLiteral(c).1
    case HexEscape =>
      assert t[2..] == FormatHexInt(c);
      HexDigitsReadBack(c);
      assert SimpleEscape(t[1]).None? && t[1] == 'x';
    case AsIs =>
    case SpecialEscape =>
      if c == 0 {
        assert t[1..] == "0" && t[1..][1..] == "";
        assert TakeOctal("0", 3, 0) == TakeOctal("", 2, 0);
      } else {
        assert SimpleEscape(t[1]) == Some(c);
      }
  }

  lemma HexDigitsReadBack(c: Byte)
    ensures TakeHex(FormatHexInt(c), 0) == (c, "") && CharHexValue(FormatHexInt(c)[0]).Some?
  {
    var digits := FormatHexInt(c);
    assert TakeHex("", c) == (c, "");
    if c < 16 {
      assert digits[1..] == "";
    } else {
      assert digits[1..][1..] == "";
      assert TakeHex(digits[1..], c / 16) == TakeHex("", c);
    }
  }
}
