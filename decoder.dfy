/** Received lines (main.py `decode_input`, lines 89-125). */
module Decoder {
  import opened Wrappers
  import opened ByteOrder
  import opened HexText
  import opened ChecksumCodec
  import opened Registers
  import opened Encoder

  /** The exceptions decode_input can end in: int() rejecting its text, or `received_payload` never assigned. */
  datatype DecodeError = ValueError | UnboundPayload

  /** The returned triple: the command text "0x" + one character, the register and the payload. */
  datatype Decoded = Decoded(command: string, register: nat, payload: nat)

  /** A Python slice bound: negative counts from the end, and the result is clamped to 0..n. */
  function Clamp(i: int, n: nat): (k: nat)
    ensures k <= n
    ensures 0 <= i ==> k == if i <= n then i else n
    ensures i < 0 ==> k == if n + i >= 0 then n + i else 0
  {
    if i < 0 then (if n + i < 0 then 0 else n + i) else if i > n then n else i
  }

  /** Python's s[i:j]. */
  function Slice(s: string, i: int, j: int): (r: string)
    ensures |r| == if Clamp(i, |s|) < Clamp(j, |s|) then Clamp(j, |s|) - Clamp(i, |s|) else 0
  {
    var a, b := Clamp(i, |s|), Clamp(j, |s|);
    if a < b then s[a..b] else []
  }

  /** The values of the two-character chunks main.py:103-104 hands to int(..., 16); None when one of them raises. */
  function PairValues(s: string): Option<seq<nat>>
    decreases |s|
  {
    if s == [] then Some([])
    else
      match ParseInt16(Slice(s, 0, 2))
      case None => None
      case Some(b) =>
        match PairValues(Slice(s, 2, |s|))
        case None => None
        case Some(rest) => Some([b] + rest)
  }

  function Prepend(vals: seq<nat>, o: Option<seq<nat>>): Option<seq<nat>>
  {
    match o
    case None => None
    case Some(rest) => Some(vals + rest)
  }

  /** main.py:102-105: the checksum loop. Its value is never compared; only its int() calls can fail. */
  method MessageChecksum(messageStr: string) returns (checksum: Option<int>)
    ensures checksum.Some? <==> PairValues(messageStr).Some?
    ensures checksum.Some? ==> checksum.value == 0x55 - Sum(PairValues(messageStr).value)
  {
    var sum: int := 0x55;
    var i := 0;
    ghost var vals: seq<nat> := [];
    assert Slice(messageStr, 0, |messageStr|) == messageStr;
    PrependEmpty(PairValues(messageStr));
    while i < |messageStr|
      invariant 0 <= i
      invariant sum == 0x55 - Sum(vals)
      invariant PairValues(messageStr) == Prepend(vals, PairValues(Slice(messageStr, i, |messageStr|)))
      decreases |messageStr| - i
    {
      var b := ParseInt16(Slice(messageStr, i, i + 2));
      PairValuesStep(messageStr, i);
      if b.None? {
        return None;
      }
      PrependAppend(vals, b.value, PairValues(Slice(messageStr, i + 2, |messageStr|)));
      SumSnoc(vals, b.value);
      sum := sum - b.value;
      vals := vals + [b.value];
      i := i + 2;
    }
    assert Slice(messageStr, i, |messageStr|) == [];
    assert vals + [] == vals;
    return Some(sum);
  }

  lemma PairValuesStep(s: string, i: nat)
    requires i < |s|
    ensures var t := Slice(s, i, |s|);
      PairValues(t) ==
        match ParseInt16(Slice(s, i, i + 2))
        case None => None
        case Some(b) => Prepend([b], PairValues(Slice(s, i + 2, |s|)))
  {
    var t := Slice(s, i, |s|);
    assert t == s[i..];
    assert Slice(t, 0, 2) == Slice(s, i, i + 2);
    assert Slice(t, 2, |t|) == Slice(s, i + 2, |s|);
  }

  lemma PrependEmpty(o: Option<seq<nat>>)
    ensures Prepend([], o) == o
  {
    if o.Some? {
      assert [] + o.value == o.value;
    }
  }

  lemma PrependAppend(vals: seq<nat>, b: nat, o: Option<seq<nat>>)
    ensures Prepend(vals, Prepend([b], o)) == Prepend(vals + [b], o)
  {
    if o.Some? {
      assert vals + ([b] + o.value) == (vals + [b]) + o.value;
    }
  }

  lemma AllHexSplit(s: string, k: nat)
    requires k <= |s|
    ensures AllHex(s) <==> AllHex(s[..k]) && AllHex(s[k..])
  {
    if AllHex(s[..k]) && AllHex(s[k..]) {
      forall i | 0 <= i < |s| ensures IsHexDigit(s[i]) {
        if i < k { assert s[i] == s[..k][i]; } else { assert s[i] == s[k..][i - k]; }
      }
    }
  }

  /** A one- or two-character chunk parses exactly when it is all hex digits. */
  lemma ParseShort(p: string)
    requires 1 <= |p| <= 2
    ensures ParseInt16(p).Some? <==> AllHex(p)
  {
  }

  /** The checksum loop raises exactly when the message text holds a character that is not a hex digit. */
  lemma {:induction false} PairValuesHex(s: string)
    ensures PairValues(s).Some? <==> AllHex(s)
    ensures PairValues(s).Some? ==> |PairValues(s).value| == (|s| + 1) / 2
    decreases |s|
  {
    if s != [] {
      var k := if |s| < 2 then |s| else 2;
      assert Slice(s, 0, 2) == s[..k];
      assert Slice(s, 2, |s|) == s[k..];
      ParseShort(s[..k]);
      AllHexSplit(s, k);
      PairValuesHex(s[k..]);
    }
  }

  /** The register conversion as intended: int("0x" + field, 16). */
  function RegisterField(field: string): (r: Option<nat>)
    ensures r.Some? <==> |field| >= 1 && AllHex(field)
    ensures r.Some? ==> r.value == HexValue(field)
  {
    assert ("0x" + field)[2..] == field;
    ParseInt16("0x" + field)
  }

  /** The register text the encoder writes converts back to its value. */
  lemma RegisterFieldRoundTrip(r: nat)
    ensures RegisterField(PadHex(r, 4)) == Some(r)
  {
    HexRoundTrip(r, 4);
    PadHexDigits(r, 4);
  }

  /** Python's int(s) in its default base 10, restricted to a non-empty run of decimal digits. */
  function ParseDecimal(s: string): Option<nat>
  {
    if |s| > 0 && forall i :: 0 <= i < |s| ==> '0' <= s[i] <= '9' then Some(DecimalValue(s)) else None
  }

  function DecimalValue(s: string): nat
  {
    if s == [] then 0
    else DecimalValue(s[..|s| - 1]) * 10 + (if '0' <= s[|s| - 1] <= '9' then s[|s| - 1] as int - '0' as int else 0)
  }

  /** main.py:114 as written: little_endian calls int("0x" + field) with the default base. */
  function RegisterFieldAsWritten(field: string): Option<nat>
  {
    ParseDecimal("0x" + field)
  }

  /** As written the conversion raises for every field, even "D5ED", so decode_input could never return. */
  lemma RegisterFieldAsWrittenFails(field: string)
    ensures RegisterFieldAsWritten(field) == None
    ensures RegisterField("D5ED") == Some(0xD5ED)
  {
    assert ("0x" + field)[1] == 'x';
    assert "D5ED" == PadHex(0xD5ED, 4) by {
      PadHexBytePair(0xD5, 0xED);
      PadHexByte(0xD5);
      PadHexByte(0xED);
      assert [Digit(0xD), Digit(0x5)] + [Digit(0xE), Digit(0xD)] == "D5ED";
    }
    RegisterFieldRoundTrip(0xD5ED);
  }

  /** The payload text and value for a message text of 8 or 10 characters. */
  function PayloadDigits(messageStr: string): string
  {
    if |messageStr| - 4 == 4 then Slice(messageStr, 4, |messageStr|) else Slice(messageStr, 4, 9)
  }

  /** decode_input as a function of the received line. */
  function Decode(line: string): Result<Decoded, DecodeError>
  {
    // main.py:91: the first character is dropped whatever it is
    var input := Slice(line, 1, |line|);
    var commandStr := Slice(input, 0, 1);
    var registerStr := Slice(input, 1, 5);
    var messageStr := Slice(input, 2, -2);
    if PairValues(messageStr).None? then Err(ValueError)
    else
      // main.py:108-110: the checksum is computed but never compared with input[-2:]
      match RegisterField(registerStr)
      case None => Err(ValueError)
      case Some(reg) =>
        var payloadLength := if |messageStr| > 4 then |messageStr| - 4 else 0;
        if payloadLength == 4 || payloadLength == 6 then
          match ParseInt16(PayloadDigits(messageStr))
          case None => Err(ValueError)
          case Some(p) => Ok(Decoded("0x" + commandStr, Reversed(reg), Reversed(p)))
        else
          Err(UnboundPayload)
  }

  /** main.py `decode_input`. */
  method DecodeInput(line: string) returns (r: Result<Decoded, DecodeError>)
    ensures r == Decode(line)
  {
    var input := Slice(line, 1, |line|);
    var commandStr := Slice(input, 0, 1);
    var registerStr := Slice(input, 1, 5);
    var messageStr := Slice(input, 2, -2);
    var checksum := MessageChecksum(messageStr);
    if checksum.None? {
      return Err(ValueError);
    }
    var command := "0x" + commandStr;
    // main.py:114 passes "0x" + digits to int() in base 10, which always raises;
    // this is the base-16 conversion its comment and example describe
    var reg := RegisterField(registerStr);
    if reg.None? {
      return Err(ValueError);
    }
    var register := LittleEndian(reg.value);
    var payloadLength := if |messageStr| > 4 then |messageStr| - 4 else 0;
    if payloadLength > 0 {
      if payloadLength == 4 {
        var p := ParseInt16(Slice(messageStr, 4, |messageStr|));
        if p.None? {
          return Err(ValueError);
        }
        var payload := LittleEndian(p.value);
        return Ok(Decoded(command, register, payload));
      } else if payloadLength == 6 {
        var p := ParseInt16(Slice(messageStr, 4, 9));
        if p.None? {
          return Err(ValueError);
        }
        var payload := LittleEndian(p.value);
        return Ok(Decoded(command, register, payload));
      }
    }
    return Err(UnboundPayload);
  }

  /** The fields decode_input slices out of a line of at least 8 characters, as positions in the line. */
  lemma DecodeSlices(line: string)
    requires |line| >= 8
    ensures var input := Slice(line, 1, |line|);
      input == line[1..] &&
      Slice(input, 0, 1) == line[1..2] &&
      Slice(input, 1, 5) == line[2..6] &&
      Slice(input, 2, -2) == line[3..|line| - 2]
  {
  }

  lemma AllHexWindows(line: string)
    requires |line| >= 8
    ensures AllHex(line[2..|line| - 2]) <==> AllHex(line[2..6]) && AllHex(line[3..|line| - 2])
  {
    var w, r, m := line[2..|line| - 2], line[2..6], line[3..|line| - 2];
    if AllHex(r) && AllHex(m) {
      forall i | 0 <= i < |w| ensures IsHexDigit(w[i]) {
        if i == 0 { assert w[i] == r[0]; } else { assert w[i] == m[i - 1]; }
      }
    }
    if AllHex(w) {
      assert forall i :: 0 <= i < |r| ==> r[i] == w[i];
      assert forall i :: 0 <= i < |m| ==> m[i] == w[i + 1];
    }
  }

  /** Decoding succeeds exactly on lines of 13 or 15 characters whose characters 2 to |line|-3 are hex digits. */
  lemma DecodeSucceedsIff(line: string)
    ensures Decode(line).Ok? <==> (|line| == 13 || |line| == 15) && AllHex(line[2..|line| - 2])
  {
    var input := Slice(line, 1, |line|);
    var messageStr := Slice(input, 2, -2);
    if Decode(line).Ok? {
      assert |messageStr| == 8 || |messageStr| == 10;
      assert |line| == 13 || |line| == 15;
    }
    if |line| == 13 || |line| == 15 {
      DecodeAtLength(line);
    }
  }

  lemma DecodeAtLength(line: string)
    requires |line| == 13 || |line| == 15
    ensures Decode(line).Ok? <==> AllHex(line[2..|line| - 2])
    ensures Decode(line).Ok? ==>
      Decode(line).value ==
        Decoded("0x" + line[1..2], Reversed(HexValue(line[2..6])),
                Reversed(HexValue(if |line| == 13 then line[7..11] else line[7..12])))
  {
    DecodeSlices(line);
    AllHexWindows(line);
    PairValuesHex(line[3..|line| - 2]);
    if AllHex(line[2..|line| - 2]) {
      PayloadDigitsParse(line);
    }
  }

  lemma PayloadDigitsParse(line: string)
    requires |line| == 13 || |line| == 15
    requires AllHex(line[3..|line| - 2])
    ensures var digits := PayloadDigits(line[3..|line| - 2]);
      digits == (if |line| == 13 then line[7..11] else line[7..12]) &&
      ParseInt16(digits) == Some(HexValue(digits))
  {
    var messageStr := line[3..|line| - 2];
    var digits := PayloadDigits(messageStr);
    assert digits == messageStr[4..][..|digits|];
    AllHexSplit(messageStr, 4);
    AllHexSplit(messageStr[4..], |digits|);
    PlainHexParses(digits);
  }

  /** Digits without a prefix parse to their value. */
  lemma PlainHexParses(s: string)
    requires |s| >= 1 && AllHex(s)
    ensures ParseInt16(s) == Some(HexValue(s))
  {
    assert IsHexDigit(s[0]);
    assert |s| >= 2 ==> IsHexDigit(s[1]);
  }

  /** A line of 13 or 15 characters decodes to command "0x" + its second character, the reversed
      register digits at 2..5 and the reversed payload digits from 7 (four of them, or five of six). */
  lemma DecodeFields(line: string)
    requires Decode(line).Ok?
    ensures |line| == 13 || |line| == 15
    ensures Decode(line).value ==
      Decoded("0x" + line[1..2], Reversed(HexValue(line[2..6])),
              Reversed(HexValue(if |line| == 13 then line[7..11] else line[7..12])))
  {
    DecodeSucceedsIff(line);
    DecodeAtLength(line);
  }

  /** On lines of 8 characters or more: a non-hex character in 2..|line|-3 raises ValueError, and an
      all-hex line of any length but 13 or 15 leaves the payload unassigned. */
  lemma DecodeErrors(line: string)
    requires |line| >= 8
    ensures Decode(line) == Err(ValueError) <==> !AllHex(line[2..|line| - 2])
    ensures Decode(line) == Err(UnboundPayload) <==>
      AllHex(line[2..|line| - 2]) && |line| != 13 && |line| != 15
  {
    DecodeSlices(line);
    AllHexWindows(line);
    PairValuesHex(line[3..|line| - 2]);
    DecodeSucceedsIff(line);
  }

  /** The leading character is dropped unchecked: any character in place of ':' decodes the same. */
  lemma DecodeIgnoresPrefix(c: char, d: char, rest: string)
    ensures Decode([c] + rest) == Decode([d] + rest)
  {
    assert Slice([c] + rest, 1, |rest| + 1) == rest;
    assert Slice([d] + rest, 1, |rest| + 1) == rest;
  }

  /** The last two characters, the checksum field, take no part: any two characters there decode the same. */
  lemma DecodeIgnoresChecksumField(prefix: string, c: string, d: string)
    requires |prefix| >= 6 && |c| == 2 && |d| == 2
    ensures Decode(prefix + c) == Decode(prefix + d)
  {
    DecodeSlices(prefix + c);
    DecodeSlices(prefix + d);
    assert (prefix + c)[1..2] == (prefix + d)[1..2];
    assert (prefix + c)[2..6] == (prefix + d)[2..6];
    assert (prefix + c)[3..|prefix|] == (prefix + d)[3..|prefix|];
  }

  /** No round trip: the line generate_output(Get, ChargerVoltageRegister) sends has a 3-character
      message text and so leaves the payload unassigned. */
  lemma EncodedGetDoesNotDecode(line: string)
    requires line == OutputText(Get, ChargerVoltageRegister, None)
    ensures Decode(line) == Err(UnboundPayload)
  {
    GetChargerVoltageOutput();
    GetLineText(line);
    DecodeErrors(line);
  }

  lemma GetLineText(line: string)
    requires line == ":7D5ED8C"
    ensures |line| == 8 && AllHex(line[2..|line| - 2])
  {
    assert line[2..|line| - 2] == "D5ED";
    assert AllHex("D5ED");
  }

  /** A 13-character reply for register 0x0201 decodes to ("0x7", DeviceStateRegister, 0xF3). */
  lemma DecodeDeviceStateReply(line: string)
    requires line == ":70102000F3A5"
    ensures Decode(line) == Ok(Decoded("0x7", DeviceStateRegister, 0xF3))
    ensures LookupCommandName(Decode(line).value.register) == "DeviceStateRegister"
  {
    ReplyText(line);
    DecodeSucceedsIff(line);
    DecodeFields(line);
    ReplyValues(line);
    LookupConstants();
  }

  lemma ReplyText(line: string)
    requires line == ":70102000F3A5"
    ensures |line| == 13 && AllHex(line[2..|line| - 2])
    ensures line[2..6] == "0102" && line[7..11] == "00F3" && "0x" + line[1..2] == "0x7"
  {
    ReplyHex(line[2..|line| - 2]);
  }

  lemma ReplyHex(w: string)
    requires w == "0102000F3"
    ensures AllHex(w)
  {
    forall i | 0 <= i < |w| ensures IsHexDigit(w[i]) {
      assert w[i] in "0123F";
    }
  }

  lemma ReplyValues(line: string)
    requires line == ":70102000F3A5"
    ensures Reversed(HexValue(line[2..6])) == 0x0201 && Reversed(HexValue(line[7..11])) == 0xF3
  {
    ReplyText(line);
    HexValueDigits4('0', '1', '0', '2');
    HexValueDigits4('0', '0', 'F', '3');
    assert HexValue("0102") == 0x0102;
    assert HexValue("00F3") == 0xF3;
    ReversedTwoBytes(0x0102);
    ReversedSmall(0xF3);
  }

  lemma HexValueDigits4(a: char, b: char, c: char, d: char)
    ensures HexValue([a, b, c, d]) ==
      ((DigitValue(a) * 16 + DigitValue(b)) * 16 + DigitValue(c)) * 16 + DigitValue(d)
  {
    assert [a, b, c, d] == [a, b, c] + [d];
    HexValueSnoc([a, b, c], d);
    assert [a, b, c] == [a, b] + [c];
    HexValueSnoc([a, b], c);
    assert [a, b] == [a] + [b];
    HexValueSnoc([a], b);
    assert [a] == [] + [a];
    HexValueSnoc([], a);
  }
}
