/**
  The framed wire protocol: `01 02`, two size digits, the content, two checksum digits.
  The readers and `Parse` are methods, as in the program; `ReadFrame` and `ScanOnce` say
  what they compute, as functions of the buffer.
 */
module Framing {
  import opened Common

  datatype ParseCode = NOT_ENOUGH | PARSE_OK | BAD_CHECKSUM | BLURP

  /** How the two size bytes are read; `istringstream >> hex` is one such reader. */
  type SizeReader = (Byte, Byte) -> Option<nat>

  /** All the readers here assume: two lowercase digits of `n` are read as `n`. */
  ghost predicate ReadsHexPairs(size: SizeReader) {
    forall n: nat :: n < 256 ==> size(HexDigit(n / 16, false), HexDigit(n % 16, false)) == Some(n)
  }

  /**
    The command protocol `T` of `protocol<Msg, T>`. `parse` gets the message by reference,
    so `decode` is given the message's previous value.
   */
  datatype Codec<!Msg> = Codec(
    blank: Msg,
    encode: Msg -> seq<Byte>,
    decode: (Msg, seq<Byte>) -> Msg,
    size: SizeReader)

  /** `parse` assigns the whole message, whatever it held before. */
  ghost predicate Overwrites<Msg(!new)>(codec: Codec<Msg>) {
    forall m: Msg, content :: codec.decode(m, content) == codec.decode(codec.blank, content)
  }

  // ----- Checksum -----

  function Sum(content: seq<Byte>): nat {
    if content == [] then 0 else Sum(content[..|content| - 1]) + content[|content| - 1]
  }

  function Checksum(content: seq<Byte>): (cc: nat)
    ensures cc < 255
  {
    Sum(content) % 255
  }

  method ComputeCc(content: seq<Byte>) returns (cc: nat)
    ensures cc == Checksum(content)
  {
    var sum: nat := 0;
    for i := 0 to |content|
      invariant sum == Sum(content[..i])
    {
      sum := sum + content[i];
      assert content[..i + 1][..i] == content[..i];
    }
    assert content[..|content|] == content;
    cc := sum % 255;
  }

  /** `setfill('0') << setw(2) << hex`. */
  function PaddedHex(n: nat): (text: seq<Byte>)
    ensures |text| >= 2
  {
    if n < 16 then [48] + HexText(n, false) else HexText(n, false)
  }

  lemma PaddedHexOfByte(n: nat)
    requires n < 256
    ensures PaddedHex(n) == [HexDigit(n / 16, false), HexDigit(n % 16, false)]
  {
    if n >= 16 {
      assert HexText(n / 16, false) == [HexDigit(n / 16, false)];
    }
  }

  /** The text stands for the number; a zero comes first only in front of a single digit. */
  lemma PaddedHexReadsBack(n: nat)
    ensures HexNumber(PaddedHex(n)) == Some(n)
    ensures n < 256 ==> |PaddedHex(n)| == 2
    ensures n >= 16 ==> PaddedHex(n)[0] != 48
  {
    HexTextReadsBack(n, false);
    if n < 16 {
      var text, d := PaddedHex(n), HexDigit(n, false);
      assert text == [48, d] && text[..1] == [48] && [48][..0] == [] && [d][..0] == [];
      assert HexNumber([48]) == Some(0);
    }
  }

  // ----- One attempt at the front of the buffer -----

  /** `Starved` is NOT_ENOUGH; `Reject` is BAD_CHECKSUM or else BLURP. */
  datatype Attempt = Starved | Reject(badChecksum: bool) | Frame(content: seq<Byte>, length: nat)

  function ReadFrame(size: SizeReader, b: seq<Byte>): (a: Attempt)
    ensures a.Frame? ==> a.length == |a.content| + 6 <= |b|
  {
    if |b| < 2 then Starved
    else if b[0] != 1 || b[1] != 2 then Reject(false)
    else if |b| < 4 then Starved
    else match size(b[2], b[3])
      case None => Reject(false)
      case Some(n) =>
        if |b| < n + 6 then Starved
        else if b[n + 4..n + 6] != PaddedHex(Checksum(b[4..n + 4])) then Reject(true)
        else Frame(b[4..n + 4], n + 6)
  }

  function AttemptOf(code: ParseCode, content: seq<Byte>): Attempt {
    match code
    case NOT_ENOUGH => Starved
    case PARSE_OK => Frame(content, |content| + 6)
    case BAD_CHECKSUM => Reject(true)
    case BLURP => Reject(false)
  }

  method ChecksumRead(packet: seq<Byte>, content: seq<Byte>, iter: nat, len: nat) returns (code: ParseCode, iter': nat)
    requires iter + len == |packet|
    ensures code == if len < 2 then NOT_ENOUGH
                    else if packet[iter..iter + 2] != PaddedHex(Checksum(content)) then BAD_CHECKSUM
                    else PARSE_OK
    ensures iter' == if len < 2 then iter else iter + 2
  {
    iter' := iter;
    if len < 2 {
      return NOT_ENOUGH, iter;
    }
    var checksum := packet[iter..iter + 2];
    iter' := iter + 2;
    var expected := ComputeCc(content);
    code := if checksum != PaddedHex(expected) then BAD_CHECKSUM else PARSE_OK;
  }

  method ContentRead<Msg>(codec: Codec<Msg>, packet: seq<Byte>, msg: Msg, iter: nat, toRead: nat, remaining: nat)
    returns (code: ParseCode, msg': Msg, iter': nat)
    requires iter + remaining == |packet|
    ensures remaining < toRead ==> code == NOT_ENOUGH && msg' == msg
    ensures remaining >= toRead ==>
      var content := packet[iter..iter + toRead];
      && msg' == codec.decode(msg, content)
      && code == (if remaining < toRead + 2 then NOT_ENOUGH
                  else if packet[iter + toRead..iter + toRead + 2] != PaddedHex(Checksum(content)) then BAD_CHECKSUM
                  else PARSE_OK)
    ensures code == PARSE_OK ==> iter' == iter + toRead + 2
  {
    if remaining < toRead {
      return NOT_ENOUGH, msg, iter;
    }
    var content := packet[iter..iter + toRead];
    msg' := codec.decode(msg, content);
    code, iter' := ChecksumRead(packet, content, iter + toRead, remaining - toRead);
  }

  method SizeRead<Msg>(codec: Codec<Msg>, packet: seq<Byte>, msg: Msg, iter: nat, len: nat)
    returns (code: ParseCode, msg': Msg, iter': nat, ghost content: seq<Byte>)
    requires iter == 2 && iter + len == |packet|
    requires packet[..2] == [1, 2]
    ensures ReadFrame(codec.size, packet) == AttemptOf(code, content)
    ensures code == PARSE_OK ==> iter' == |content| + 6 && msg' == codec.decode(msg, content)
    ensures msg' == msg || exists c :: msg' == codec.decode(msg, c)
  {
    content := [];
    if len < 2 {
      return NOT_ENOUGH, msg, iter, content;
    }
    var size := codec.size(packet[iter], packet[iter + 1]);
    if size.None? {
      return BLURP, msg, iter + 2, content;
    }
    code, msg', iter' := ContentRead(codec, packet, msg, iter + 2, size.value, len - 2);
    if code == PARSE_OK {
      content := packet[4..4 + size.value];
    }
  }

  method SyncRead<Msg>(codec: Codec<Msg>, packet: seq<Byte>, msg: Msg)
    returns (code: ParseCode, msg': Msg, iter: nat, ghost content: seq<Byte>)
    ensures ReadFrame(codec.size, packet) == AttemptOf(code, content)
    ensures code == PARSE_OK ==> iter == |content| + 6 && msg' == codec.decode(msg, content)
    ensures msg' == msg || exists c :: msg' == codec.decode(msg, c)
  {
    content := [];
    if |packet| < 2 {
      return NOT_ENOUGH, msg, 0, content;
    }
    var candidate := packet[..2];
    if candidate != [1, 2] {
      return BLURP, msg, 0, content;
    }
    code, msg', iter, content := SizeRead(codec, packet, msg, 2, |packet| - 2);
  }

  // ----- The rescan loop -----

  /** A parse of the buffer: the content of the frame found, if any, and what is left. */
  datatype Scan = Scan(frame: Option<seq<Byte>>, rest: seq<Byte>)

  function ScanOnce(size: SizeReader, b: seq<Byte>): (s: Scan)
    ensures |s.rest| <= |b|
    ensures s.frame.Some? ==> |s.rest| < |b|
  {
    if b == [] then Scan(None, [])
    else match ReadFrame(size, b)
      case Starved => Scan(None, b)
      case Frame(content, length) => Scan(Some(content), b[length..])
      case Reject(_) => ScanOnce(size, b[1..])
  }

  /** The vector of bytes that `parse` takes by reference. */
  class Packet {
    var bytes: seq<Byte>

    constructor (bytes: seq<Byte>)
      ensures this.bytes == bytes
    {
      this.bytes := bytes;
    }
  }

  method Parse<Msg>(codec: Codec<Msg>, packet: Packet) returns (r: Option<Msg>)
    modifies packet
    ensures Scan(ScanOnce(codec.size, old(packet.bytes)).frame, packet.bytes) == ScanOnce(codec.size, old(packet.bytes))
    ensures r.Some? <==> ScanOnce(codec.size, old(packet.bytes)).frame.Some?
    ensures r.Some? ==> exists m :: r.value == codec.decode(m, ScanOnce(codec.size, old(packet.bytes)).frame.value)
  {
    var msg := codec.blank;
    while packet.bytes != []
      invariant ScanOnce(codec.size, packet.bytes) == ScanOnce(codec.size, old(packet.bytes))
      decreases |packet.bytes|
    {
      ghost var before := msg;
      var code, iter;
      ghost var content;
      code, msg, iter, content := SyncRead(codec, packet.bytes, msg);
      if code == NOT_ENOUGH {
        return None;
      } else if code == PARSE_OK {
        packet.bytes := packet.bytes[iter..];
        assert msg == codec.decode(before, content);
        return Some(msg);
      }
      packet.bytes := packet.bytes[1..];
    }
    return None;
  }

  // ----- Packing -----

  /** A frame around `content`; only the first two size digits are kept. */
  function PackContent(content: seq<Byte>): (frame: seq<Byte>) {
    [1, 2] + PaddedHex(|content|)[..2] + content + PaddedHex(Checksum(content))[..2]
  }

  method Pack<Msg>(codec: Codec<Msg>, msg: Msg) returns (packet: seq<Byte>)
    ensures packet == PackContent(codec.encode(msg))
  {
    var content := codec.encode(msg);
    packet := [];
    packet := packet + [1];
    packet := packet + [2];
    var digits := PaddedHex(|content|);
    packet := packet + [digits[0]];
    packet := packet + [digits[1]];
    packet := packet + content;
    var checksum := ComputeCc(content);
    var cc := PaddedHex(checksum);
    packet := packet + [cc[0]];
    packet := packet + [cc[1]];
    assert digits[..2] == [digits[0], digits[1]];
    assert cc[..2] == [cc[0], cc[1]];
  }
}
