/**
  `naive_command_protocol`: the first byte of a payload names the command, the others are
  its content. It is the codec that `naive_protocol` frames.
 */
module CommandCodec {
  import opened Common
  import opened Framing
  import opened FrameStream

  datatype Kind = ERROR | JOIN_REQUEST | JOIN_ACK | JOIN_NACK | ANSWER | MESSAGE | EMPTY

  datatype CommandValue = CommandValue(kind: Kind, content: seq<Byte>)

  // ASCII codes of the texts that the parser writes.
  const TOO_SHORT: seq<Byte> := Ascii("Message is too short. Requires at least 1 characters")
  const UNKNOWN: seq<Byte> := Ascii("Unknown command: ")

  function Letter(kind: Kind): Byte {
    match kind
    case ANSWER => 65
    case MESSAGE => 77
    case JOIN_NACK => 66
    case JOIN_REQUEST => 67
    case JOIN_ACK => 68
    case _ => 69
  }

  function Encode(cmd: CommandValue): seq<Byte> {
    [Letter(cmd.kind)] + cmd.content
  }

  function Decode(packet: seq<Byte>): CommandValue {
    if packet == [] then CommandValue(ERROR, TOO_SHORT)
    else match packet[0]
      case 65 => CommandValue(ANSWER, packet[1..])
      case 77 => CommandValue(MESSAGE, packet[1..])
      case 66 => CommandValue(JOIN_NACK, packet[1..])
      case 67 => CommandValue(JOIN_REQUEST, packet[1..])
      case 68 => CommandValue(JOIN_ACK, packet[1..])
      case _ => CommandValue(ERROR, UNKNOWN + packet[..1])
  }

  /** The command object that `parse` fills in. */
  class Command {
    var kind: Kind
    var content: seq<Byte>

    constructor ()
      ensures Value() == CommandValue(EMPTY, [])
    {
      kind, content := EMPTY, [];
    }

    function Value(): CommandValue
      reads this
    {
      CommandValue(kind, content)
    }
  }

  method ParseCommand(cmd: Command, packet: seq<Byte>)
    modifies cmd
    ensures cmd.Value() == Decode(packet)
  {
    var content: seq<Byte>;
    var kind := ERROR;
    if packet == [] {
      content := TOO_SHORT;
    } else {
      var commandStr := packet[..1];
      var messageContent := packet[1..];
      if commandStr == [65] {
        kind, content := ANSWER, messageContent;
      } else if commandStr == [77] {
        kind, content := MESSAGE, messageContent;
      } else if commandStr == [66] {
        kind, content := JOIN_NACK, messageContent;
      } else if commandStr == [67] {
        kind, content := JOIN_REQUEST, messageContent;
      } else if commandStr == [68] {
        kind, content := JOIN_ACK, messageContent;
      } else {
        content := UNKNOWN + commandStr;
      }
    }
    cmd.content := content;
    cmd.kind := kind;
  }

  method PackCommand(cmd: Command) returns (packet: seq<Byte>)
    ensures packet == Encode(cmd.Value())
  {
    packet := [];
    match cmd.kind {
      case ANSWER => packet := packet + [65];
      case MESSAGE => packet := packet + [77];
      case JOIN_NACK => packet := packet + [66];
      case JOIN_REQUEST => packet := packet + [67];
      case JOIN_ACK => packet := packet + [68];
      case _ => packet := packet + [69];
    }
    assert packet == [Letter(cmd.kind)];
    packet := packet + cmd.content;
  }

  /** The kinds that have a letter of their own. */
  predicate LetterCoded(kind: Kind) {
    kind in {ANSWER, MESSAGE, JOIN_NACK, JOIN_REQUEST, JOIN_ACK}
  }

  // The one other command that reads back: the parser's own complaint about the letter E.
  const UNKNOWN_E := CommandValue(ERROR, UNKNOWN + [69])

  lemma DecodeInvertsEncode(cmd: CommandValue)
    ensures Decode(Encode(cmd)) == cmd <==> LetterCoded(cmd.kind) || cmd == UNKNOWN_E
  {
    var packet := Encode(cmd);
    assert packet[1..] == cmd.content;
    assert packet[..1] == [Letter(cmd.kind)];
  }

  lemma EncodeInvertsDecode(packet: seq<Byte>)
    ensures Encode(Decode(packet)) == packet
       <==> packet != [] && (packet[0] in {65, 77, 66, 67, 68} || packet == [69] + UNKNOWN_E.content)
  {
    if packet != [] {
      assert packet == [packet[0]] + packet[1..];
      if packet[0] !in {65, 77, 66, 67, 68} {
        assert Encode(Decode(packet)) == [69] + (UNKNOWN + [packet[0]]);
      }
    }
  }

  /** The parser's two complaints. */
  lemma Complaints(packet: seq<Byte>)
    ensures Decode([]) == CommandValue(ERROR, Ascii("Message is too short. Requires at least 1 characters"))
    ensures packet != [] && packet[0] as char !in {'A', 'M', 'B', 'C', 'D'} ==>
      Decode(packet) == CommandValue(ERROR, Ascii("Unknown command: ") + [packet[0]])
  {
    assert packet != [] ==> packet[..1] == [packet[0]];
  }

  // ----- The size field as `istringstream >> std::hex` reads it -----

  predicate IsBlank(b: Byte) {
    b == 32 || 9 <= b <= 13
  }

  /**
    Blanks are skipped, a sign is allowed, extraction stops at the first other byte, as in
    the GNU library; `size_t` has 64 bits.
   */
  function StreamSize(first: Byte, second: Byte): Option<nat> {
    var a, b := HexValue(first), HexValue(second);
    if IsBlank(first) || first == 43 then b
    else if first == 45 then
      if b.None? then None else if b.value == 0 then Some(0) else Some(0x1_0000_0000_0000_0000 - b.value)
    else if a.None? then None
    else if b.Some? then Some(16 * a.value + b.value)
    else if first == 48 && second in {88, 120} then None
    else a
  }

  lemma StreamSizeReadsHexPairs()
    ensures ReadsHexPairs(StreamSize)
  {
    forall n: nat | n < 256
      ensures StreamSize(HexDigit(n / 16, false), HexDigit(n % 16, false)) == Some(n)
    {
      DigitValue(n / 16);
      DigitValue(n % 16);
    }
  }

  /** The value of the digits at the front of a text, after the digits with the given value. */
  function DigitRun(text: seq<Byte>, value: nat): nat {
    if text == [] || HexValue(text[0]).None? then value else DigitRun(text[1..], 16 * value + HexValue(text[0]).value)
  }

  /** Digits, which may come after `0x`; there must be one. */
  function ExtractDigits(text: seq<Byte>): Option<nat> {
    var t := if |text| >= 2 && text[0] == 48 && (text[1] == 88 || text[1] == 120) then text[2..] else text;
    if t == [] || HexValue(t[0]).None? then None else Some(DigitRun(t, 0))
  }

  /** Extraction from a short text: blanks, a sign, digits; a negative number is reduced modulo 2^64. */
  function Extract(text: seq<Byte>): Option<nat> {
    if text == [] then None
    else if IsBlank(text[0]) then Extract(text[1..])
    else if text[0] == 43 then ExtractDigits(text[1..])
    else if text[0] == 45 then
      match ExtractDigits(text[1..])
      case None => None
      case Some(n) => Some((0 - n as int) % 0x1_0000_0000_0000_0000)
    else ExtractDigits(text)
  }

  /** The size field is extracted by those general rules. */
  lemma StreamSizeExtracts(first: Byte, second: Byte)
    ensures StreamSize(first, second) == Extract([first, second])
  {
    var text: seq<Byte>, rest: seq<Byte> := [first, second], [second];
    assert text[1..] == rest;
    DigitsOfOne(second);
    DigitsOfTwo(first, second);
    ExtractFromOne(second);
    hide ExtractDigits, HexValue;
    if IsBlank(first) {
      assert Extract(text) == Extract(rest);
    }
  }

  lemma DigitsOfOne(b: Byte)
    ensures ExtractDigits([b]) == HexValue(b)
  {
    assert [b][1..] == [];
    assert HexValue(b).Some? ==> DigitRun([b], 0) == DigitRun([], HexValue(b).value);
  }

  lemma DigitsOfTwo(a: Byte, b: Byte)
    ensures ExtractDigits([a, b]) ==
            var x, y := HexValue(a), HexValue(b);
            if (a == 48 && (b == 88 || b == 120)) || x.None? then None
            else Some(if y.Some? then 16 * x.value + y.value else x.value)
  {
    var text: seq<Byte>, rest: seq<Byte> := [a, b], [b];
    assert text[1..] == rest && rest[1..] == [] && text[2..] == [];
    if HexValue(a).Some? {
      var x := HexValue(a).value;
      assert DigitRun(text, 0) == DigitRun(rest, x);
      assert HexValue(b).Some? ==> DigitRun(rest, x) == DigitRun([], 16 * x + HexValue(b).value);
    }
  }

  lemma ExtractFromOne(b: Byte)
    ensures Extract([b]) == if IsBlank(b) || b == 43 || b == 45 then None else HexValue(b)
    ensures IsBlank(b) || b == 43 || b == 45 ==> HexValue(b).None?
  {
    DigitsOfOne(b);
    assert [b][1..] == [] && Extract([]) == None && ExtractDigits([]) == None;
  }

  /** The bytes that may stand before a single digit without counting: white space, a plus, a zero. */
  lemma LeadingBytes(first: Byte, second: Byte)
    requires 48 <= second <= 57
    ensures StreamSize(first, second) == Some(second - 48) <==> first in {9, 10, 11, 12, 13, 32, 43, 48} || (first == 45 && second == 48)
  {
  }

  lemma DigitValue(d: nat)
    requires d < 16
    ensures HexValue(HexDigit(d, false)) == Some(d) == HexValue(HexDigit(d, true))
  {
  }

  /** The text of a negative size, which extraction into an unsigned number wraps around. */
  predicate IsNegative(first: Byte, second: Byte) {
    first == 45 && HexValue(second).Some? && HexValue(second).value > 0
  }

  /** Two bytes are read as a size below 256, or as a negative number wrapped around. */
  lemma SizeRange(first: Byte, second: Byte)
    ensures var n := StreamSize(first, second);
      n.Some? ==> if IsNegative(first, second) then n.value >= 0x1_0000_0000_0000_0000 - 15 else n.value < 256
  {
  }

  /** What stays in the buffer when no frame is left is short, unless it announces a negative size. */
  lemma {:induction false} ResidueBound(b: seq<Byte>)
    ensures var r := Residue(StreamSize, b);
      |r| <= 260 || (r[0] == 1 && r[1] == 2 && IsNegative(r[2], r[3]))
    decreases |b|
  {
    var s := ScanOnce(StreamSize, b);
    var k := ScanOnceSound(StreamSize, b);
    if s.frame.Some? {
      ResidueBound(s.rest);
    } else if |s.rest| > 260 {
      SizeRange(s.rest[2], s.rest[3]);
    }
  }

  /** After a negative size nothing comes out for 2^64 bytes, less a few, however they are cut. */
  lemma NegativeSizeWaits(g: seq<Byte>, d: Byte, t: seq<Byte>, chunks: seq<seq<Byte>>)
    requires NoSync(g) && IsNegative(45, d) && |t| < 0x1_0000_0000_0000_0000 - 13
    requires Flatten(chunks) == g + ([1, 2, 45, d] + t)
    ensures ReceiveAll(StreamSize, chunks).delivered == []
    ensures Residue(StreamSize, ReceiveAll(StreamSize, chunks).acc) == [1, 2, 45, d] + t
  {
    HeaderWaitsIff(StreamSize, g, 45, d, t);
    ChunkingAccounts(StreamSize, chunks);
  }

  // ----- naive_protocol: commands through frames -----

  const NAIVE: Codec<CommandValue> :=
    Codec(CommandValue(EMPTY, []), Encode, (_: CommandValue, packet) => Decode(packet), StreamSize)

  // ----- The bytes on the wire -----

  /** The letter of each kind. */
  lemma LettersOnTheWire(content: seq<Byte>)
    ensures Encode(CommandValue(ANSWER, content)) == Ascii("A") + content
    ensures Encode(CommandValue(MESSAGE, content)) == Ascii("M") + content
    ensures Encode(CommandValue(JOIN_NACK, content)) == Ascii("B") + content
    ensures Encode(CommandValue(JOIN_REQUEST, content)) == Ascii("C") + content
    ensures Encode(CommandValue(JOIN_ACK, content)) == Ascii("D") + content
    ensures Encode(CommandValue(ERROR, content)) == Encode(CommandValue(EMPTY, content)) == Ascii("E") + content
  {
  }

  /** A whole packet: the size is 0a and the checksum 2c. */
  lemma PackedExample()
    ensures PackContent(Encode(CommandValue(MESSAGE, Ascii("123456789"))))
         == [1, 2] + Ascii("0a") + Ascii("M123456789") + Ascii("2c")
  {
    var content := Encode(CommandValue(MESSAGE, Ascii("123456789")));
    assert content == Ascii("M123456789");
    ExampleChecksum(content);
    HexDigitText(0);
    HexDigitText(10);
    HexDigitText(2);
    HexDigitText(12);
    ExamplePacket(content, Ascii("0a"), Ascii("2c"));
  }

  lemma ExamplePacket(content: seq<Byte>, size: seq<Byte>, cc: seq<Byte>)
    requires |content| == 10 && Checksum(content) == 44
    requires size == [HexDigit(0, false), HexDigit(10, false)] && cc == [HexDigit(2, false), HexDigit(12, false)]
    ensures PackContent(content) == [1, 2] + size + content + cc
  {
    PaddedHexOfByte(10);
    PaddedHexOfByte(44);
    hide Checksum, PaddedHex, HexDigit;
    assert PaddedHex(10) == size && PaddedHex(44) == cc && size[..2] == size && cc[..2] == cc;
  }

  lemma ExampleChecksum(content: seq<Byte>)
    requires content == [77, 49, 50, 51, 52, 53, 54, 55, 56, 57]
    ensures Checksum(content) == 44
  {
    assert content == ([77] + [49, 50, 51]) + ([52, 53, 54] + [55, 56, 57]);
    SumOfTwo([77] + [49, 50, 51], [52, 53, 54] + [55, 56, 57]);
    SumOfTwo([52, 53, 54], [55, 56, 57]);
    SumOfTwo([77], [49, 50, 51]);
    SumOfThree(49, 50, 51);
    SumOfThree(52, 53, 54);
    SumOfThree(55, 56, 57);
    assert [77][..0] == [];
  }

  lemma SumOfThree(a: Byte, b: Byte, c: Byte)
    ensures Sum([a, b, c]) == a + b + c
  {
    assert Sum([a]) == a by {
      assert [a][..0] == [];
    }
    assert [a, b][..1] == [a] && [a, b, c][..2] == [a, b];
  }

  function EncodeAll(cmds: seq<CommandValue>): (contents: seq<seq<Byte>>)
    ensures |contents| == |cmds|
    ensures forall i :: 0 <= i < |cmds| ==> contents[i] == Encode(cmds[i])
  {
    seq(|cmds|, i requires 0 <= i < |cmds| => Encode(cmds[i]))
  }

  function DecodeAll(contents: seq<seq<Byte>>): (cmds: seq<CommandValue>)
    ensures |cmds| == |contents|
    ensures forall i :: 0 <= i < |contents| ==> cmds[i] == Decode(contents[i])
  {
    seq(|contents|, i requires 0 <= i < |contents| => Decode(contents[i]))
  }

  /**
    Commands sent among garbage, cut into reads in any way: those handed on, followed by
    those still to be drained, are exactly the commands sent, and no byte is left over.
   */
  lemma CommandsSurviveTheWire(cmds: seq<CommandValue>, noise: seq<seq<Byte>>, chunks: seq<seq<Byte>>)
    requires |noise| == |cmds|
    requires forall i :: 0 <= i < |cmds| ==> LetterCoded(cmds[i].kind) && |cmds[i].content| <= 254
    requires forall i :: 0 <= i < |noise| ==> NoSync(noise[i])
    requires Flatten(chunks) == Wire(noise, EncodeAll(cmds))
    ensures var st := ReceiveAll(StreamSize, chunks);
      && DecodeAll(st.delivered + Drain(StreamSize, st.acc)) == cmds
      && Residue(StreamSize, st.acc) == []
  {
    StreamSizeReadsHexPairs();
    var contents := EncodeAll(cmds);
    DrainInvertsWire(StreamSize, noise, contents);
    ChunkingAccounts(StreamSize, chunks);
    forall i | 0 <= i < |cmds|
      ensures Decode(contents[i]) == cmds[i]
    {
      DecodeInvertsEncode(cmds[i]);
    }
  }

  /** `parse` on a command's own packet, whatever follows it and whatever garbage precedes it. */
  method ParsePacked(cmd: CommandValue, noise: seq<Byte>, rest: seq<Byte>) returns (r: Option<CommandValue>, left: seq<Byte>)
    requires NoSync(noise) && |cmd.content| <= 254
    ensures left == rest
    ensures r == Some(cmd) <==> LetterCoded(cmd.kind) || cmd == UNKNOWN_E
  {
    var frame := Pack(NAIVE, cmd);
    var packet := new Packet(noise + frame + rest);
    StreamSizeReadsHexPairs();
    ScanGarbageThenFrame(StreamSize, noise, Encode(cmd), rest);
    DecodeInvertsEncode(cmd);
    r := Parse(NAIVE, packet);
    left := packet.bytes;
  }
}
