/**
  Vocabulary shared by the other modules: optional results, bytes, the concatenation of
  a sequence of pieces, and the hexadecimal text that C++ streams print.
 */
module Common {
  datatype Option<+T> = None | Some(value: T)

  type Byte = b: int | 0 <= b < 256

  /** The codes of an ASCII text. */
  function Ascii(text: string): seq<Byte> {
    seq(|text|, i requires 0 <= i < |text| => text[i] as int % 256)
  }

  function Flatten<T>(parts: seq<seq<T>>): seq<T> {
    if parts == [] then [] else parts[0] + Flatten(parts[1..])
  }

  lemma Associates<T>(a: seq<T>, b: seq<T>, c: seq<T>)
    ensures a + (b + c) == (a + b) + c
  {
  }

  lemma Regroup<T>(a: seq<T>, b: seq<T>, c: seq<T>, d: seq<T>, e: seq<T>)
    ensures a + (b + c + d) + e == (a + b) + c + (d + e)
    ensures a + (b + c + (d + e)) == a + b + (c + d) + e
  {
  }

  lemma AppendSplits<T>(a: seq<T>, b: seq<T>)
    ensures (a + b)[..|a|] == a && (a + b)[|a|..] == b
    ensures a != [] ==> (a + b)[1..] == a[1..] + b
  {
  }

  lemma MiddleOf<T>(a: seq<T>, b: seq<T>, c: seq<T>)
    ensures |a + b + c| == |a| + |b| + |c| && (a + b + c)[|a|..|a| + |b|] == b
  {
  }

  lemma CutTwice<T>(s: seq<T>, i: nat, j: nat)
    requires i <= j <= |s|
    ensures s == s[..i] + (s[i..j] + s[j..])
  {
  }

  /** What is inside a prefix does not depend on what follows it. */
  lemma SliceKept<T>(a: seq<T>, b: seq<T>, i: nat, j: nat)
    requires i <= j <= |a|
    ensures (a + b)[i..j] == a[i..j]
  {
  }

  lemma {:induction false} FlattenAppend<T>(a: seq<seq<T>>, b: seq<seq<T>>)
    ensures Flatten(a + b) == Flatten(a) + Flatten(b)
  {
    if a == [] {
      assert a + b == b;
    } else {
      FlattenAppend(a[1..], b);
      assert (a + b)[1..] == a[1..] + b;
      Associates(a[0], Flatten(a[1..]), Flatten(b));
    }
  }

  // ----- Arithmetic -----

  lemma MulMonotone(a: int, b: int, k: nat)
    requires a <= b
    ensures a * k <= b * k
  {
  }

  lemma DivModUnique(n: nat, d: nat, q: nat, r: nat)
    requires r < d && n == q * d + r
    ensures n / d == q && n % d == r
  {
    var q', r' := n / d, n % d;
    assert n == q' * d + r';
    if q' < q {
      MulMonotone(q' + 1, q, d);
    } else if q < q' {
      MulMonotone(q + 1, q', d);
    }
  }

  lemma AddMultiple(n: nat, k: nat, d: nat)
    requires d > 0
    ensures (n + k * d) % d == n % d
  {
    var q, r := n / d, n % d;
    assert n + k * d == (q + k) * d + r;
    DivModUnique(n + k * d, d, q + k, r);
  }

  lemma AffineMod(a: nat, n: nat, c: nat, d: nat)
    requires d > 0
    ensures (a * n + c) % d == (a * (n % d) + c) % d
  {
    var q, r := n / d, n % d;
    assert n == r + q * d;
    assert a * n == a * r + (a * q) * d;
    AddMultiple(a * r + c, a * q, d);
  }

  lemma AddMod(n: nat, c: nat, d: nat)
    requires d > 0
    ensures (n + c) % d == (n % d + c) % d
  {
    AffineMod(1, n, c, d);
  }

  lemma ModOfMultiple(n: nat, k: nat, d: nat)
    requires k > 0 && d > 0
    ensures k * d > 0 && n % (k * d) % d == n % d
  {
    MulMonotone(1, k, d);
    RegroupMultiple(n, k, d, n / (k * d), n % (k * d));
  }

  lemma RegroupMultiple(n: nat, k: nat, d: nat, q: nat, r: nat)
    requires d > 0 && n == (k * d) * q + r
    ensures r % d == n % d
  {
    assert (k * d) * q == (q * k) * d;
    AddMultiple(r, q * k, d);
  }

  /** One hexadecimal digit, in the case `std::hex` or `std::hex << std::uppercase` prints it. */
  function HexDigit(d: nat, upper: bool): Byte
    requires d < 16
  {
    if d < 10 then 48 + d else (if upper then 55 else 87) + d
  }

  /** What streaming `n` with `std::hex` prints. */
  function HexText(n: nat, upper: bool): (text: seq<Byte>)
    ensures |text| >= if n < 16 then 1 else 2
  {
    if n < 16 then [HexDigit(n, upper)] else HexText(n / 16, upper) + [HexDigit(n % 16, upper)]
  }

  lemma HexDigitText(d: nat)
    requires d < 16
    ensures HexDigit(d, false) as char == "0123456789abcdef"[d]
    ensures HexDigit(d, true) as char == "0123456789ABCDEF"[d]
  {
  }

  lemma HexValueText(b: Byte, v: nat)
    ensures HexValue(b) == Some(v)
       <==> v < 16 && (b as char == "0123456789abcdef"[v] || b as char == "0123456789ABCDEF"[v])
  {
    if v < 16 {
      HexDigitText(v);
    }
  }

  /** The number that hexadecimal digits, most significant first, stand for. */
  function HexNumber(text: seq<Byte>): Option<nat> {
    if text == [] then Some(0)
    else
      var before, v := HexNumber(text[..|text| - 1]), HexValue(text[|text| - 1]);
      if before.Some? && v.Some? then Some(16 * before.value + v.value) else None
  }

  /** The text stands for the number, without leading zeros. */
  lemma {:induction false} HexTextReadsBack(n: nat, upper: bool)
    ensures HexNumber(HexText(n, upper)) == Some(n)
    ensures n > 0 ==> HexText(n, upper)[0] != 48
    ensures forall k :: 0 <= k < |HexText(n, upper)| ==>
      var b := HexText(n, upper)[k]; 48 <= b <= 57 || (if upper then 65 <= b <= 70 else 97 <= b <= 102)
  {
    var text := HexText(n, upper);
    assert HexValue(HexDigit(n % 16, upper)) == Some(n % 16);
    if n < 16 {
      assert text[..0] == [];
    } else {
      HexTextReadsBack(n / 16, upper);
      assert text[..|text| - 1] == HexText(n / 16, upper);
    }
  }

  /** The value of a hexadecimal digit of either case, if `b` is one. */
  function HexValue(b: Byte): (v: Option<nat>)
    ensures v.Some? ==> v.value < 16
  {
    if 48 <= b <= 57 then Some(b - 48)
    else if 65 <= b <= 70 then Some(b - 55)
    else if 97 <= b <= 102 then Some(b - 87)
    else None
  }
}
