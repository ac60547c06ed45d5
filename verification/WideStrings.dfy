/**
  The transcoder from wide strings with 16-bit characters to UTF-8. Bits are taken out of
  a number by division and remainder, and put together by addition.
 */
module WideStrings {
  import opened Common

  const MAX_CODE_POINT1 := 0x7F
  const MAX_CODE_POINT2 := 0x7FF
  const MAX_CODE_POINT3 := 0xFFFF
  const MAX_CODE_POINT4 := 0x1F_FFFF

  type UInt32 = n: int | 0 <= n < 0x1_0000_0000

  /** The `n` lowest bits, and the others shifted down. */
  method ChopLowBits6(bits: UInt32) returns (low: Byte, rest: UInt32)
    ensures low < 64 && bits == rest * 64 + low
  {
    low, rest := bits % 64, bits / 64;
  }

  // ----- The encoding, by its bit layout: section 3 of RFC 3629 -----

  predicate IsTail(b: Byte) {
    0x80 <= b < 0xC0
  }

  /** The number whose bits the lead byte and the tails among the first `n` bytes hold. */
  function BitsOf(s: seq<Byte>, n: nat): int
    requires n <= |s|
  {
    match n
    case 1 => s[0] as int
    case 2 => (s[0] as int - 0xC0) * 64 + TailBits(s[1])
    case 3 => ((s[0] as int - 0xE0) * 64 + TailBits(s[1])) * 64 + TailBits(s[2])
    case 4 => (((s[0] as int - 0xF0) * 64 + TailBits(s[1])) * 64 + TailBits(s[2])) * 64 + TailBits(s[3])
    case _ => -1
  }

  function TailBits(b: Byte): int {
    b as int - 0x80
  }

  /** The first `n` bytes are the shortest encoding of `cp`. */
  predicate Holds(s: seq<Byte>, n: nat, cp: int)
    requires n <= |s|
  {
    && cp == BitsOf(s, n)
    && match n
       case 1 => 0 <= cp <= MAX_CODE_POINT1
       case 2 => MAX_CODE_POINT1 < cp <= MAX_CODE_POINT2 && 0xC0 <= s[0] < 0xE0 && IsTail(s[1])
       case 3 => MAX_CODE_POINT2 < cp <= MAX_CODE_POINT3 && 0xE0 <= s[0] < 0xF0 && IsTail(s[1]) && IsTail(s[2])
       case 4 => MAX_CODE_POINT3 < cp <= MAX_CODE_POINT4 && 0xF0 <= s[0] < 0xF8
                 && IsTail(s[1]) && IsTail(s[2]) && IsTail(s[3])
       case _ => false
  }

  predicate Encodes(s: seq<Byte>, cp: int) {
    Holds(s, |s|, cp)
  }

  const INVALID: seq<Byte> :=
    [40, 73, 110, 118, 97, 108, 105, 100, 32, 85, 110, 105, 99, 111, 100, 101, 32, 48, 120]  // "(Invalid Unicode 0x"

  /**
    What CodePointToUtf8 may return: the encoding, except that code point 0 ends the
    C string before it begins and that numbers of more than 21 bits are spelt out.
   */
  predicate Renders(cp: UInt32, text: seq<Byte>) {
    if cp == 0 then text == []
    else if cp <= MAX_CODE_POINT4 then Encodes(text, cp)
    else text == INVALID + HexText(cp, true) + [41]
  }

  /** `std::string(str)`: the bytes before the first NUL. */
  function CString(str: seq<Byte>): seq<Byte> {
    if str == [] || str[0] == 0 then [] else [str[0]] + CString(str[1..])
  }

  method CodePointToUtf8(codePoint: UInt32) returns (text: seq<Byte>)
    ensures Renders(codePoint, text)
  {
    hide CString, HexText, Encodes;
    if codePoint > MAX_CODE_POINT4 {
      return INVALID + HexText(codePoint, true) + [41];
    }
    var str := new Byte[5];
    var low;
    var bits := codePoint;
    if bits <= MAX_CODE_POINT1 {
      str[1] := 0;
      str[0] := bits;
      CStringUpTo(str[..], 1);
      HeldPrefix(str[..], 1, codePoint);
    } else if bits <= MAX_CODE_POINT2 {
      str[2] := 0;
      low, bits := ChopLowBits6(bits);
      str[1] := 0x80 + low;
      str[0] := 0xC0 + bits;
      CStringUpTo(str[..], 2);
      HeldPrefix(str[..], 2, codePoint);
    } else if bits <= MAX_CODE_POINT3 {
      str[3] := 0;
      low, bits := ChopLowBits6(bits);
      str[2] := 0x80 + low;
      low, bits := ChopLowBits6(bits);
      str[1] := 0x80 + low;
      str[0] := 0xE0 + bits;
      CStringUpTo(str[..], 3);
      HeldPrefix(str[..], 3, codePoint);
    } else {
      str[4] := 0;
      low, bits := ChopLowBits6(bits);
      str[3] := 0x80 + low;
      low, bits := ChopLowBits6(bits);
      str[2] := 0x80 + low;
      low, bits := ChopLowBits6(bits);
      str[1] := 0x80 + low;
      str[0] := 0xF0 + bits;
      CStringUpTo(str[..], 4);
      HeldPrefix(str[..], 4, codePoint);
    }
    text := CString(str[..]);
  }

  lemma HeldPrefix(s: seq<Byte>, n: nat, cp: int)
    requires n <= |s| && Holds(s, n, cp)
    ensures Encodes(s[..n], cp)
  {
  }

  lemma {:induction false} CStringUpTo(str: seq<Byte>, n: nat)
    requires n < |str| && str[n] == 0
    ensures (forall i :: 0 <= i < n ==> str[i] != 0) ==> CString(str) == str[..n]
    ensures n > 0 && str[0] == 0 ==> CString(str) == []
  {
    if n > 0 && str[0] != 0 {
      CStringUpTo(str[1..], n - 1);
      assert str[..n] == [str[0]] + str[1..][..n - 1];
    }
  }

  // ----- Decoding -----

  /** The number of bytes that the lead byte announces; 0 for a byte that cannot lead. */
  function Announced(lead: Byte): nat {
    if lead < 0x80 then 1
    else if lead < 0xC0 then 0
    else if lead < 0xE0 then 2
    else if lead < 0xF0 then 3
    else if lead < 0xF8 then 4
    else 0
  }

  /** The code point of one complete sequence, if it is well formed and in shortest form. */
  function DecodeOne(s: seq<Byte>): (cp: Option<nat>)
    ensures cp.Some? ==> Encodes(s, cp.value)
  {
    if Encodes(s, BitsOf(s, |s|)) then Some(BitsOf(s, |s|)) else None
  }

  function DecodeUtf8(s: seq<Byte>): Option<seq<nat>>
    decreases |s|
  {
    if s == [] then Some([])
    else
      var n := Announced(s[0]);
      if n == 0 || n > |s| then None
      else
        var cp, rest := DecodeOne(s[..n]), DecodeUtf8(s[n..]);
        if cp.Some? && rest.Some? then Some([cp.value] + rest.value) else None
  }

  lemma EncodesDecodes(s: seq<Byte>, cp: nat)
    requires Encodes(s, cp)
    ensures |s| > 0 && Announced(s[0]) == |s| && DecodeOne(s) == Some(cp)
  {
  }

  /** An encoding is told apart from whatever follows it. */
  lemma DecodePrepend(s: seq<Byte>, cp: nat, t: seq<Byte>)
    requires Encodes(s, cp) && DecodeUtf8(t).Some?
    ensures DecodeUtf8(s + t) == Some([cp] + DecodeUtf8(t).value)
  {
    EncodesDecodes(s, cp);
    hide Encodes, DecodeOne, Announced;
    assert (s + t)[..|s|] == s && (s + t)[|s|..] == t && (s + t)[0] == s[0];
  }

  /** A code point has one encoding only. */
  lemma EncodingUnique(cp: nat, s: seq<Byte>, t: seq<Byte>)
    requires Encodes(s, cp) && Encodes(t, cp)
    ensures s == t
  {
    assert |s| == |t|;
    if |s| == 2 {
      Horner(s[0] as int, TailBits(s[1]), t[0] as int, TailBits(t[1]));
    } else if |s| == 3 {
      var a, b := (s[0] as int - 0xE0) * 64 + TailBits(s[1]), (t[0] as int - 0xE0) * 64 + TailBits(t[1]);
      Horner(a, TailBits(s[2]), b, TailBits(t[2]));
    } else if |s| == 4 {
      var a, b := (s[0] as int - 0xF0) * 64 + TailBits(s[1]), (t[0] as int - 0xF0) * 64 + TailBits(t[1]);
      Horner(a * 64 + TailBits(s[2]), TailBits(s[3]), b * 64 + TailBits(t[2]), TailBits(t[3]));
      Horner(a, TailBits(s[2]), b, TailBits(t[2]));
    }
  }

  /**
    An encoding in numbers: its length goes by the size of the code point, its tails lie in
    80..BF, and its bytes, put together six bits at a time, are the code point plus the
    marks of all bytes.
   */
  lemma EncodingInNumbers(s: seq<Byte>, cp: UInt32)
    requires Renders(cp, s) && 0 < cp < 0x20_0000
    ensures |s| == if cp < 0x80 then 1 else if cp < 0x800 then 2 else if cp < 0x10000 then 3 else 4
    ensures forall k :: 0 < k < |s| ==> 0x80 <= s[k] < 0xC0
    ensures SixBitsEach(s)
         == cp + if cp < 0x80 then 0 else if cp < 0x800 then 0x3080 else if cp < 0x10000 then 0xE_2080 else 0x3C8_2080
  {
    assert SixBitsEach([]) == 0;
    assert |s| >= 2 ==> s[..|s| - 1][..|s| - 2] == s[..|s| - 2];
    assert |s| >= 3 ==> s[..|s| - 2][..|s| - 3] == s[..|s| - 3];
    assert |s| >= 4 ==> s[..|s| - 3][..|s| - 4] == s[..|s| - 4];
    assert s[..0] == [];
  }

  function SixBitsEach(s: seq<Byte>): nat {
    if s == [] then 0 else 64 * SixBitsEach(s[..|s| - 1]) + s[|s| - 1]
  }

  /** A number above 21 bits is spelt out, in capital hexadecimal digits. */
  lemma InvalidInWords(cp: UInt32, text: seq<Byte>)
    requires cp >= 0x20_0000 && Renders(cp, text)
    ensures |text| > 20
    ensures var digits := text[19..|text| - 1];
      && text == Ascii("(Invalid Unicode 0x") + digits + Ascii(")")
      && HexNumber(digits) == Some(cp)
      && forall k :: 0 <= k < |digits| ==> 48 <= digits[k] <= 57 || 65 <= digits[k] <= 70
  {
    HexTextReadsBack(cp, true);
    InvalidAscii();
    hide HexText, HexNumber, Ascii;
    MiddleOf(INVALID, HexText(cp, true), [41]);
  }

  lemma InvalidAscii()
    ensures Ascii("(Invalid Unicode 0x") == INVALID && Ascii(")") == [41]
  {
  }

  lemma Horner(a: int, b: int, c: int, d: int)
    requires 0 <= b < 64 && 0 <= d < 64 && a * 64 + b == c * 64 + d
    ensures a == c && b == d
  {
  }

  lemma {:induction false} HexTextInjective(a: nat, b: nat)
    requires HexText(a, true) == HexText(b, true)
    ensures a == b
    decreases a
  {
    var s, t := HexText(a, true), HexText(b, true);
    if a < 16 || b < 16 {
      assert |s| == |t|;
    } else {
      assert s[..|s| - 1] == HexText(a / 16, true) && t[..|t| - 1] == HexText(b / 16, true);
      HexTextInjective(a / 16, b / 16);
      assert s[|s| - 1] == HexDigit(a % 16, true) && t[|t| - 1] == HexDigit(b % 16, true);
    }
  }

  /** No two of the 2^32 arguments are rendered alike. */
  lemma RendersInjective(a: UInt32, b: UInt32, text: seq<Byte>)
    requires Renders(a, text) && Renders(b, text)
    ensures a == b
  {
    if a > MAX_CODE_POINT4 && b > MAX_CODE_POINT4 {
      var s, t := HexText(a, true), HexText(b, true);
      assert text[19..|text| - 1] == s && text[19..|text| - 1] == t;
      HexTextInjective(a, b);
    } else if 0 < a <= MAX_CODE_POINT4 && 0 < b <= MAX_CODE_POINT4 {
      EncodesDecodes(text, a);
      EncodesDecodes(text, b);
    }
  }

  // ----- Wide strings -----

  type Unit = n: int | 0 <= n < 0x1_0000

  /** The characters before the terminating NUL. */
  type WideString = s: seq<Unit> | forall i :: 0 <= i < |s| ==> s[i] != 0

  predicate IsUtf16SurrogatePair(first: Unit, second: Unit) {
    first / 1024 == 0x36 && second / 1024 == 0x37
  }

  function CreateCodePointFromUtf16SurrogatePair(first: Unit, second: Unit): (cp: UInt32)
    ensures 0x10000 <= cp <= 0x10_FFFF
  {
    first % 1024 * 1024 + second % 1024 + 0x10000
  }

  /** The code points of a wide string: surrogate pairs joined, any other unit by itself (section 2.2 of RFC 2781). */
  function CodePoints(s: WideString): (cps: seq<nat>)
    ensures forall k :: 0 <= k < |cps| ==> 0 < cps[k] <= 0x10_FFFF
  {
    if s == [] then []
    else if |s| > 1 && IsUtf16SurrogatePair(s[0], s[1]) then
      [CreateCodePointFromUtf16SurrogatePair(s[0], s[1])] + CodePoints(s[2..])
    else [s[0]] + CodePoints(s[1..])
  }

  /** `stream` renders the code points one after the other. */
  ghost predicate RendersAll(cps: seq<nat>, stream: seq<Byte>) {
    if cps == [] then stream == []
    else exists n: nat :: n <= |stream| && Encodes(stream[..n], cps[0]) && RendersAll(cps[1..], stream[n..])
  }

  /** The number of characters that are processed; -1 means all. */
  function Limit(str: WideString, numChars: int): nat {
    if numChars == -1 || numChars > |str| then |str| else if numChars < 0 then 0 else numChars
  }

  method WideStringToUtf8(str: WideString, numChars: int) returns (stream: seq<Byte>)
    ensures RendersAll(CodePoints(str[..Limit(str, numChars)]), stream)
    ensures numChars == -1 || numChars >= |str| ==> RendersAll(CodePoints(str), stream)
    ensures 0 <= numChars <= |str| ==> RendersAll(CodePoints(str[..numChars]), stream)
    ensures numChars < -1 ==> stream == []
  {
    hide CodePoints, RendersAll, Encodes;
    ghost var limit := Limit(str, numChars);
    ghost var s := str[..limit];
    var num := if numChars == -1 then |str| else numChars;
    stream := [];
    ghost var done: seq<nat> := [];
    var i := 0;
    CodePointsEnd(s);
    while i < num
      invariant 0 <= i <= limit
      invariant RendersAll(done, stream)
      invariant CodePoints(s) == done + CodePoints(s[i..])
      decreases num - i
    {
      if i == |str| {
        break;
      }
      var codePoint;
      codePoint, i := NextCodePoint(str, num, i);
      Associates(done, [codePoint], CodePoints(s[i..]));
      var text := CodePointToUtf8(codePoint);
      RendersOneMore(done, stream, codePoint, text);
      stream := stream + text;
      done := done + [codePoint];
    }
    CodePointsEnd(s);
    assert done + [] == done && i == limit;
    assert limit == |str| ==> s == str;
    if limit == 0 {
      NothingRendered(stream);
    }
  }

  /** The body of the loop: one code point, and the index after it. */
  method NextCodePoint(str: WideString, num: int, i: nat) returns (codePoint: UInt32, next: nat)
    requires i < num && i < |str|
    ensures var s := str[..if num > |str| then |str| else num];
      && i < next <= |s|
      && CodePoints(s[i..]) == [codePoint as nat] + CodePoints(s[next..])
      && 0 < codePoint <= 0x10_FFFF
  {
    CodePointsStep(str[..if num > |str| then |str| else num], i);
    hide CodePoints, CreateCodePointFromUtf16SurrogatePair;
    if i + 1 < num && IsUtf16SurrogatePair(str[i], if i + 1 < |str| then str[i + 1] else 0) {
      codePoint := CreateCodePointFromUtf16SurrogatePair(str[i], str[i + 1]);
      next := i + 2;
    } else {
      codePoint := str[i];
      next := i + 1;
    }
  }

  lemma NothingRendered(stream: seq<Byte>)
    ensures CodePoints([]) == []
    ensures RendersAll([], stream) ==> stream == []
  {
  }

  lemma CodePointsEnd(s: WideString)
    ensures CodePoints(s[|s|..]) == []
    ensures CodePoints(s[0..]) == CodePoints(s)
    ensures RendersAll([], [])
  {
    assert s[0..] == s;
  }

  lemma CodePointsStep(s: WideString, i: nat)
    requires i < |s|
    ensures CodePoints(s[i..]) ==
            if i + 1 < |s| && IsUtf16SurrogatePair(s[i], s[i + 1]) then
              [CreateCodePointFromUtf16SurrogatePair(s[i], s[i + 1])] + CodePoints(s[i + 2..])
            else [s[i]] + CodePoints(s[i + 1..])
  {
    var rest := s[i..];
    assert rest[1..] == s[i + 1..];
    assert i + 1 < |s| ==> rest[2..] == s[i + 2..];
  }

  lemma {:induction false} RendersOneMore(cps: seq<nat>, stream: seq<Byte>, cp: nat, text: seq<Byte>)
    requires RendersAll(cps, stream) && Encodes(text, cp)
    ensures RendersAll(cps + [cp], stream + text)
  {
    hide Encodes;
    var more, s := cps + [cp], stream + text;
    if cps == [] {
      assert more[1..] == [] && s[|text|..] == [] && s[..|text|] == text;
      assert RendersAll(more[1..], s[|text|..]);
    } else {
      var n: nat :| n <= |stream| && Encodes(stream[..n], cps[0]) && RendersAll(cps[1..], stream[n..]);
      RendersOneMore(cps[1..], stream[n..], cp, text);
      assert more[1..] == cps[1..] + [cp] && s[n..] == stream[n..] + text && s[..n] == stream[..n];
    }
  }

  /** Decoding what was written gives back exactly the code points. */
  lemma {:induction false} DecodeInvertsRender(cps: seq<nat>, stream: seq<Byte>)
    requires RendersAll(cps, stream)
    ensures DecodeUtf8(stream) == Some(cps)
  {
    assert DecodeUtf8([]) == Some([]);
    hide DecodeUtf8, Encodes;
    if cps != [] {
      var text, rest := RendersUncons(cps, stream);
      DecodeInvertsRender(cps[1..], rest);
      hide RendersAll;
      DecodePrepend(text, cps[0], rest);
      assert cps == [cps[0]] + cps[1..];
    }
  }

  lemma RendersUncons(cps: seq<nat>, stream: seq<Byte>) returns (text: seq<Byte>, rest: seq<Byte>)
    requires cps != [] && RendersAll(cps, stream)
    ensures stream == text + rest && Encodes(text, cps[0]) && RendersAll(cps[1..], rest)
  {
    var n: nat :| n <= |stream| && Encodes(stream[..n], cps[0]) && RendersAll(cps[1..], stream[n..]);
    text, rest := stream[..n], stream[n..];
  }

  /** The units of a code point: section 2.1 of RFC 2781. */
  function UnitsOfOne(cp: nat): seq<int> {
    if cp >= 0x10000 then [0xD800 + (cp - 0x10000) / 1024, 0xDC00 + (cp - 0x10000) % 1024] else [cp]
  }

  function UnitsOf(cps: seq<nat>): seq<int> {
    if cps == [] then [] else UnitsOfOne(cps[0]) + UnitsOf(cps[1..])
  }

  lemma UnitsOfCons(cp: nat, cps: seq<nat>)
    ensures UnitsOf([cp] + cps) == UnitsOfOne(cp) + UnitsOf(cps)
  {
    assert ([cp] + cps)[1..] == cps;
  }

  lemma PairRecovered(first: Unit, second: Unit)
    requires IsUtf16SurrogatePair(first, second)
    ensures UnitsOfOne(CreateCodePointFromUtf16SurrogatePair(first, second)) == [first, second]
  {
  }

  /** Nothing is lost: the units can be recovered, unpaired surrogates included. */
  lemma {:induction false} UnitsInvertCodePoints(s: WideString)
    ensures UnitsOf(CodePoints(s)) == s
    decreases |s|
  {
    hide UnitsOf, UnitsOfOne, CreateCodePointFromUtf16SurrogatePair;
    if s == [] {
      assert UnitsOf([]) == [] by {
        UnitsOfNone();
      }
    } else if |s| > 1 && IsUtf16SurrogatePair(s[0], s[1]) {
      UnitsInvertCodePoints(s[2..]);
      PairRecovered(s[0], s[1]);
      UnitsOfCons(CreateCodePointFromUtf16SurrogatePair(s[0], s[1]), CodePoints(s[2..]));
      assert s == [s[0], s[1]] + s[2..];
    } else {
      UnitsInvertCodePoints(s[1..]);
      SingleUnit(s[0]);
      UnitsOfCons(s[0], CodePoints(s[1..]));
      assert s == [s[0]] + s[1..];
    }
  }

  /** No two neighbours are a high and then a low surrogate. */
  predicate NoPairLeft(cps: seq<nat>) {
    forall k :: 0 <= k < |cps| - 1 ==> !(0xD800 <= cps[k] < 0xDC00 && 0xDC00 <= cps[k + 1] < 0xE000)
  }

  /** Every surrogate pair is joined. */
  lemma {:induction false} PairsAreJoined(s: WideString)
    ensures NoPairLeft(CodePoints(s))
    decreases |s|
  {
    if s != [] {
      var joined := |s| > 1 && IsUtf16SurrogatePair(s[0], s[1]);
      var rest: WideString := if joined then s[2..] else s[1..];
      PairsAreJoined(rest);
      FirstCodePoint(rest);
      var cps, more := CodePoints(s), CodePoints(rest);
      hide CodePoints;
      assert cps == [cps[0]] + more;
      forall k | 0 <= k < |cps| - 1
        ensures !(0xD800 <= cps[k] < 0xDC00 && 0xDC00 <= cps[k + 1] < 0xE000)
      {
        if k > 0 {
          assert cps[k] == more[k - 1] && cps[k + 1] == more[k - 1 + 1];
        }
      }
    }
  }

  lemma FirstCodePoint(s: WideString)
    ensures s != [] ==> CodePoints(s) != [] && (CodePoints(s)[0] < 0x10000 ==> CodePoints(s)[0] == s[0])
    ensures s == [] ==> CodePoints(s) == []
  {
  }

  lemma FirstUnit(cps: seq<nat>)
    ensures cps != [] ==> UnitsOf(cps) != []
    ensures cps != [] ==> UnitsOf(cps)[0] == if cps[0] >= 0x10000 then 0xD800 + (cps[0] - 0x10000) / 1024 else cps[0]
  {
  }

  /** The code points are the only ones with these units among which no pair is left: section 2.2 of RFC 2781. */
  lemma {:induction false} CodePointsUnique(s: WideString, cps: seq<nat>)
    requires UnitsOf(cps) == s && NoPairLeft(cps)
    requires forall k :: 0 <= k < |cps| ==> cps[k] <= 0x10_FFFF
    ensures cps == CodePoints(s)
    decreases |cps|
  {
    if cps != [] {
      var rest := cps[1..];
      forall k | 0 <= k < |rest| - 1
        ensures !(0xD800 <= rest[k] < 0xDC00 && 0xDC00 <= rest[k + 1] < 0xE000)
      {
        assert rest[k] == cps[k + 1] && rest[k + 1] == cps[k + 1 + 1];
      }
      FirstUnit(cps);
      FirstUnit(rest);
      var units := UnitsOf(rest);
      assert s == UnitsOfOne(cps[0]) + units;
      hide UnitsOf, CodePoints;
      if cps[0] >= 0x10000 {
        assert s[2..] == units;
        JoinedAtFront(s, cps[0]);
      } else {
        assert s[1..] == units;
        if rest != [] {
          assert cps[1] == rest[0] && s[1] == units[0];
          assert !(0xD800 <= cps[0] < 0xDC00 && 0xDC00 <= cps[0 + 1] < 0xE000);
        } else {
          assert units == [] by {
            UnitsOfNone();
          }
        }
        AloneAtFront(s);
      }
      CodePointsUnique(if cps[0] >= 0x10000 then s[2..] else s[1..], rest);
      assert cps == [cps[0]] + rest;
    } else {
      UnitsOfNone();
    }
  }

  lemma JoinedAtFront(s: WideString, cp: nat)
    requires 0x10000 <= cp <= 0x10_FFFF
    requires |s| >= 2 && s[0] == 0xD800 + (cp - 0x10000) / 1024 && s[1] == 0xDC00 + (cp - 0x10000) % 1024
    ensures CodePoints(s) == [cp] + CodePoints(s[2..])
  {
  }

  lemma AloneAtFront(s: WideString)
    requires s != [] && (|s| > 1 ==> !(0xD800 <= s[0] < 0xDC00 && 0xDC00 <= s[1] < 0xE000))
    ensures CodePoints(s) == [s[0] as nat] + CodePoints(s[1..])
  {
  }

  lemma UnitsOfNone()
    ensures UnitsOf([]) == []
  {
  }

  lemma SingleUnit(u: Unit)
    ensures UnitsOfOne(u) == [u]
  {
  }

  /** So no two wide strings have the same UTF-8 text. */
  lemma TranscodingInjective(s: WideString, t: WideString, stream: seq<Byte>)
    requires RendersAll(CodePoints(s), stream) && RendersAll(CodePoints(t), stream)
    ensures s == t
  {
    DecodeInvertsRender(CodePoints(s), stream);
    DecodeInvertsRender(CodePoints(t), stream);
    UnitsInvertCodePoints(s);
    UnitsInvertCodePoints(t);
  }
}
