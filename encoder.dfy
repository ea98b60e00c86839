/** Transmit frames (main.py `generate_output`, lines 45-84). */
module Encoder {
  import opened Wrappers
  import opened ByteOrder
  import opened HexText
  import opened ChecksumCodec
  import opened Registers

  /** struct.pack('>I', ...) at main.py:64 raises unless the reversed payload fits in 32 bits. */
  predicate PayloadFits(payload: Option<nat>)
  {
    payload.Some? ==> Reversed(payload.value) < 0x1_0000_0000
  }

  /** The payload bytes for the reversed payload q: one byte, or q packed big-endian as uint16 or uint32. */
  function PayloadBytes(q: nat): seq<Byte>
    requires q < 0x1_0000_0000
  {
    if q < 256 then [q]
    else if q < 65536 then [q / 256, q % 256]
    else [q / 256 / 256 / 256, q / 256 / 256 % 256, q / 256 % 256, q % 256]
  }

  /** The message before the checksum: command, register low byte, register high byte, payload bytes. */
  function MessageBody(command: nat, register: nat, payload: Option<nat>): seq<Byte>
    requires PayloadFits(payload)
  {
    [command % 256, register % 256, register / 256 % 256] +
    (if payload.Some? then PayloadBytes(Reversed(payload.value)) else [])
  }

  /** The whole byte message, checksum last. */
  function Frame(command: nat, register: nat, payload: Option<nat>): seq<Byte>
    requires PayloadFits(payload)
  {
    var body := MessageBody(command, register, payload);
    body + [Checksum(body)]
  }

  /** payload_str: "%02X", "%04X" or "%06X" of the reversed payload, by the same thresholds as the bytes. */
  function PayloadText(q: nat): string
  {
    if q < 256 then PadHex(q, 2) else if q < 65536 then PadHex(q, 4) else PadHex(q, 6)
  }

  /** The text of the payload field, empty when there is none. */
  function PayloadField(payload: Option<nat>): string
  {
    if payload.Some? then PayloadText(Reversed(payload.value)) else ""
  }

  /** The line assembled from its four text fields. */
  function Line(commandStr: string, registerStr: string, payloadStr: string, checksumStr: string): string
  {
    ":" + commandStr + registerStr + payloadStr + checksumStr
  }

  /** The transmitted line: ":" + "%X" command + "%04X" reversed register + payload text + "%02X" checksum. */
  function OutputText(command: nat, register: nat, payload: Option<nat>): string
    requires PayloadFits(payload)
  {
    Line(HexDigits(command), PadHex(Reversed(register), 4), PayloadField(payload),
      PadHex(Checksum(MessageBody(command, register, payload)), 2))
  }

  /** main.py `generate_output`: grows the message, accumulates its checksum and renders the line. */
  method GenerateOutput(command: nat, register: nat, payload: Option<nat>)
    returns (output: string, ghost message: seq<Byte>)
    requires PayloadFits(payload)
    ensures message == Frame(command, register, payload)
    ensures output == OutputText(command, register, payload)
  {
    var msg: seq<Byte> := [command % 256, register % 256, register / 256 % 256];
    var payloadStr := "";
    if payload.Some? {
      var q := LittleEndian(payload.value);
      ghost var head := msg;
      if q < 256 {
        assert PayloadBytes(q) == [q] && PayloadText(q) == PadHex(q, 2);
        msg := msg + [q];
        payloadStr := PadHex(q, 2);
      } else if q < 65536 {
        assert PayloadBytes(q) == [q / 256, q % 256] && PayloadText(q) == PadHex(q, 4);
        msg := msg + [q / 256, q % 256];
        payloadStr := PadHex(q, 4);
      } else {
        assert PayloadBytes(q) == [q / 256 / 256 / 256, q / 256 / 256 % 256, q / 256 % 256, q % 256];
        assert PayloadText(q) == PadHex(q, 6);
        msg := msg + [q / 256 / 256 / 256, q / 256 / 256 % 256, q / 256 % 256, q % 256];
        payloadStr := PadHex(q, 6);
      }
      assert msg == head + PayloadBytes(q);
      assert payloadStr == PayloadText(q);
    }
    MessageBodyShape(command, register, payload);
    assert payload.None? ==> msg == msg + [];
    assert msg == MessageBody(command, register, payload);
    var checksum := ComputeChecksum(msg);
    msg := msg + [checksum];
    message := msg;

    var hexCommandStr := HexDigits(command);
    var reversedRegister := LittleEndian(register);
    var registerStr := PadHex(reversedRegister, 4);
    var checksumStr := PadHex(checksum, 2);
    output := ":" + hexCommandStr + registerStr + checksumStr;
    if payload.Some? {
      output := ":" + hexCommandStr + registerStr + payloadStr + checksumStr;
    } else {
      assert output == ":" + hexCommandStr + registerStr + "" + checksumStr;
    }
    assert payloadStr == PayloadField(payload);
    assert output == Line(hexCommandStr, registerStr, payloadStr, checksumStr);
  }

  lemma MessageBodyShape(command: nat, register: nat, payload: Option<nat>)
    requires PayloadFits(payload)
    ensures MessageBody(command, register, payload) ==
      [command % 256, register % 256, register / 256 % 256] +
      (if payload.Some? then PayloadBytes(Reversed(payload.value)) else [])
  {
  }

  /** Any payload below 2^32 fits. */
  lemma SmallPayloadFits(p: nat)
    requires p < 0x1_0000_0000
    ensures PayloadFits(Some(p))
  {
    assert Pow256(4) == 0x1_0000_0000;
    ReversedBound(p, 4);
  }

  /** The payload field is 1, 2 or 4 big-endian bytes, chosen by magnitude, whose value is q. */
  lemma PayloadBytesValue(q: nat)
    requires q < 0x1_0000_0000
    ensures ValueOf(PayloadBytes(q)) == q
    ensures |PayloadBytes(q)| == (if q < 256 then 1 else if q < 65536 then 2 else 4)
  {
    if q < 256 {
      assert PayloadBytes(q) == [] + [q];
      ValueOfSnoc([], q);
    } else if q < 65536 {
      PackUint16(q);
    } else {
      PackUint32(q);
    }
  }

  /** struct.pack('>H', q) read back big-endian is q. */
  lemma PackUint16(q: nat)
    requires 256 <= q < 65536
    ensures ValueOf(PayloadBytes(q)) == q
  {
    var hi: Byte, lo: Byte := q / 256, q % 256;
    assert PayloadBytes(q) == [hi] + [lo];
    ValueOfSnoc([hi], lo);
    assert [hi] == [] + [hi];
    ValueOfSnoc([], hi);
  }

  /** struct.pack('>I', q) read back big-endian is q. */
  lemma PackUint32(q: nat)
    requires 65536 <= q < 0x1_0000_0000
    ensures ValueOf(PayloadBytes(q)) == q
  {
    var a := q / 256;
    var b := a / 256;
    var c := b / 256;
    assert c < 256;
    assert PayloadBytes(q) == [c, b % 256, a % 256, q % 256];
    ValueOfFourBytes(c, b % 256, a % 256, q % 256);
    assert q == a * 256 + q % 256;
    assert a == b * 256 + a % 256;
    assert b == c * 256 + b % 256;
  }

  lemma ValueOfFourBytes(b0: Byte, b1: Byte, b2: Byte, b3: Byte)
    ensures ValueOf([b0, b1, b2, b3]) == ((b0 * 256 + b1) * 256 + b2) * 256 + b3
  {
    assert [b0, b1, b2, b3] == [b0, b1, b2] + [b3];
    ValueOfSnoc([b0, b1, b2], b3);
    assert [b0, b1, b2] == [b0, b1] + [b2];
    ValueOfSnoc([b0, b1], b2);
    assert [b0, b1] == [b0] + [b1];
    ValueOfSnoc([b0], b1);
    ValueOfSnoc([], b0);
    assert [] + [b0] == [b0];
  }

  /** The last byte is the checksum of all before it, and the whole frame sums to 0x55 modulo 256. */
  lemma FrameChecksum(command: nat, register: nat, payload: Option<nat>)
    requires PayloadFits(payload)
    ensures var f := Frame(command, register, payload);
      f[|f| - 1] == Checksum(f[..|f| - 1]) && Sum(f) % 256 == 0x55
  {
    var body := MessageBody(command, register, payload);
    assert (body + [Checksum(body)])[..|body|] == body;
    ChecksumBalances(body);
  }

  /** Command, register low and high byte lead; the payload bytes follow; 4, 5, 6 or 8 bytes in all. */
  lemma FrameLayout(command: nat, register: nat, payload: Option<nat>)
    requires PayloadFits(payload)
    ensures var f := Frame(command, register, payload);
      |f| >= 4 && f[..3] == [command % 256, register % 256, register / 256 % 256] &&
      (payload.None? ==> |f| == 4) &&
      (payload.Some? ==>
        var q := Reversed(payload.value);
        ValueOf(f[3..|f| - 1]) == q &&
        |f| == (if q < 256 then 5 else if q < 65536 then 6 else 8))
  {
    var body := MessageBody(command, register, payload);
    var f := Frame(command, register, payload);
    assert f[..|f| - 1] == body;
    if payload.Some? {
      var q := Reversed(payload.value);
      PayloadBytesValue(q);
      assert f[3..|f| - 1] == PayloadBytes(q);
    }
  }

  /** 200, 1000 and 100000 take 1, 2 and 4 payload bytes; a payload of 0 is still one 0x00 byte. */
  lemma PayloadWidthExamples(command: nat, register: nat)
    ensures PayloadFits(Some(200)) && |Frame(command, register, Some(200))| == 5
    ensures PayloadFits(Some(1000)) && |Frame(command, register, Some(1000))| == 6
    ensures PayloadFits(Some(100000)) && |Frame(command, register, Some(100000))| == 8
    ensures PayloadFits(Some(0)) && Frame(command, register, Some(0))[3] == 0
    ensures |Frame(command, register, Some(0))| == 5
  {
    ReversedSmall(200);
    ReversedSmall(0);
    ReversedTwoBytes(1000);
    ReversedThreeByteExample();
    FrameLayout(command, register, Some(200));
    FrameLayout(command, register, Some(1000));
    FrameLayout(command, register, Some(100000));
    FrameLayout(command, register, Some(0));
  }

  /** 100000 == 0x0186A0 has three bytes; reversed it is 0xA08601. */
  lemma ReversedThreeByteExample()
    ensures Reversed(100000) == 0xA08601
  {
    assert Bytes(1) == [1];
    assert Bytes(390) == [1, 134];
    assert Bytes(100000) == [1, 134, 160];
    ReverseCons<Byte>(1, [134, 160]);
    ReverseCons<Byte>(134, [160]);
    assert Reverse<Byte>([160]) == [160];
    ValueOfSnoc([], 160);
    ValueOfSnoc([160], 134);
    ValueOfSnoc([160, 134], 1);
  }

  /** The line main.py:132 sends: generate_output(Get, ChargerVoltageRegister) == ":7D5ED8C". */
  lemma GetChargerVoltageOutput()
    ensures OutputText(Get, ChargerVoltageRegister, None) == ":7D5ED8C"
  {
    GetChargerVoltageChecksum();
    ChargerVoltageRegisterText();
    PadHexByte(0x8C);
    assert [Digit(0x8), Digit(0xC)] == "8C";
    assert HexDigits(7) == "7";
  }

  lemma ChargerVoltageRegisterText()
    ensures PadHex(Reversed(ChargerVoltageRegister), 4) == "D5ED"
  {
    ReversedExamples();
    ReversedRegisterDigits();
  }

  lemma ReversedRegisterDigits()
    ensures PadHex(0xD5ED, 4) == "D5ED"
  {
    PadHexBytePair(0xD5, 0xED);
    PadHexByte(0xD5);
    PadHexByte(0xED);
    assert [Digit(0xD), Digit(0x5)] + [Digit(0xE), Digit(0xD)] == "D5ED";
  }

  lemma GetChargerVoltageChecksum()
    ensures Checksum(MessageBody(Get, ChargerVoltageRegister, None)) == 0x8C
  {
    var body := MessageBody(Get, ChargerVoltageRegister, None);
    assert body == [0x07, 0xD5] + [0xED];
    SumSnoc([], 0x07);
    assert [] + [0x07] == [0x07];
    SumSnoc([0x07], 0xD5);
    assert [0x07] + [0xD5] == [0x07, 0xD5];
    SumSnoc([0x07, 0xD5], 0xED);
  }

  lemma FrameHead(command: nat, register: nat, payload: Option<nat>)
    requires PayloadFits(payload)
    ensures var f := Frame(command, register, payload);
      |f| >= 4 && f[1] == register % 256 && f[2] == register / 256 % 256 &&
      f[|f| - 1] == Checksum(MessageBody(command, register, payload))
  {
  }

  lemma RegisterTextBytes(register: nat)
    requires 256 <= register < 65536
    ensures PadHex(Reversed(register), 4) == PadHex(register % 256, 2) + PadHex(register / 256 % 256, 2)
  {
    var hi, lo := register / 256, register % 256;
    DivMod256(hi, 0, hi);
    ReversedTwoBytes(register);
    PadHexBytePair(lo, hi);
  }

  /** For 256 <= register < 65536 the register text is the low byte's digits, then the high byte's. */
  lemma RegisterTextMatchesBytes(command: nat, register: nat, payload: Option<nat>)
    requires PayloadFits(payload)
    requires 256 <= register < 65536
    ensures var f := Frame(command, register, payload);
      PadHex(Reversed(register), 4) == PadHex(f[1], 2) + PadHex(f[2], 2)
  {
    FrameHead(command, register, payload);
    RegisterTextBytes(register);
  }

  /** The fields of a line, located by their lengths. */
  lemma LineFields(a: string, b: string, p: string, d: string)
    requires |b| == 4 && |d| == 2
    ensures var out := Line(a, b, p, d);
      |out| == 7 + |a| + |p| && out[0] == ':' &&
      out[1..1 + |a|] == a && out[1 + |a|..5 + |a|] == b &&
      out[5 + |a|..|out| - 2] == p && out[|out| - 2..] == d
  {
  }

  lemma PayloadTextParses(q: nat)
    ensures ParseInt16(PayloadText(q)) == Some(q)
  {
    HexRoundTrip(q, 2);
    HexRoundTrip(q, 4);
    HexRoundTrip(q, 6);
  }

  /** The line is ':' and four fields: the command digits, four register digits, the payload text and
      two checksum digits; each parses back to the command, the reversed register, the reversed
      payload and the frame's last byte. */
  lemma OutputAgreesWithFrame(command: nat, register: nat, payload: Option<nat>)
    requires PayloadFits(payload)
    requires register < 65536
    ensures var f := Frame(command, register, payload);
      OutputText(command, register, payload) ==
        Line(HexDigits(command), PadHex(Reversed(register), 4), PayloadField(payload), PadHex(f[|f| - 1], 2))
    ensures ParseInt16(HexDigits(command)) == Some(command)
    ensures |PadHex(Reversed(register), 4)| == 4 &&
      ParseInt16(PadHex(Reversed(register), 4)) == Some(Reversed(register))
    ensures payload.None? ==> PayloadField(payload) == ""
    ensures payload.Some? ==> ParseInt16(PayloadField(payload)) == Some(Reversed(payload.value))
    ensures var f := Frame(command, register, payload);
      |PadHex(f[|f| - 1], 2)| == 2 && ParseInt16(PadHex(f[|f| - 1], 2)) == Some(f[|f| - 1])
  {
    var c := Checksum(MessageBody(command, register, payload));
    FrameHead(command, register, payload);
    RegisterFieldText(register);
    ChecksumFieldText(c);
    CommandFieldText(command);
    if payload.Some? {
      PayloadTextParses(Reversed(payload.value));
    }
  }

  lemma CommandFieldText(command: nat)
    ensures ParseInt16(HexDigits(command)) == Some(command)
  {
    HexRoundTrip(command, 0);
  }

  lemma RegisterFieldText(register: nat)
    requires register < 65536
    ensures |PadHex(Reversed(register), 4)| == 4
    ensures ParseInt16(PadHex(Reversed(register), 4)) == Some(Reversed(register))
  {
    assert Pow256(2) == 65536 && Pow16(4) == 65536;
    ReversedBound(register, 2);
    PadHexFixed(Reversed(register), 4);
    HexRoundTrip(Reversed(register), 4);
  }

  lemma ChecksumFieldText(c: Byte)
    ensures |PadHex(c, 2)| == 2 && ParseInt16(PadHex(c, 2)) == Some(c)
  {
    assert Pow16(2) == 256;
    PadHexFixed(c, 2);
    HexRoundTrip(c, 2);
  }

  /** "%06X" gives the four-byte payload 8 digits only from 0x1000_0000 up: text width equals byte width otherwise only below 65536. */
  lemma PayloadTextWidth(q: nat)
    requires q < 0x1_0000_0000
    ensures |PayloadText(q)| == 2 * |PayloadBytes(q)| <==> q < 65536 || q >= 0x1000_0000
  {
    assert Pow16(2) == 256 && Pow16(4) == 65536 && Pow16(6) == 0x100_0000;
    assert Pow16(7) == 0x1000_0000 && Pow16(8) == 0x1_0000_0000;
    if q < 256 {
      PadHexFixed(q, 2);
    } else if q < 65536 {
      PadHexFixed(q, 4);
    } else {
      HexDigitsLength(q, 8);
      HexDigitsLength(q, 7);
      HexDigitsLength(q, 6);
    }
  }
}
