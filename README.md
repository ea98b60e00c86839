# VE.Direct HEX codec: a verified model

`main.py` of VE.DirectHexPython talks to a Victron charger over a serial line in the
VE.Direct HEX protocol. Each frame is a line of upper-case hexadecimal text. An outgoing
line holds:
- a `:`;
- the command digit;
- the register address with its bytes reversed;
- an optional payload;
- a checksum byte that makes all message bytes sum to 0x55 modulo 256.

This project models the codec at the heart of that file:

- `little_endian` reverses the minimal byte representation of a number. It is modelled
  by `ByteOrder.LittleEndian`, a method with the source's `while` loop, proved against the
  specification function `ByteOrder.Reversed`.
- `generate_output` builds the byte message, grows it by one, two or four payload bytes and
  accumulates the checksum in a `for` loop. It then renders the line. It is modelled by
  `Encoder.GenerateOutput`, which uses `ChecksumCodec.ComputeChecksum` for the loop. It is
  proved against `Encoder.Frame` (the bytes) and `Encoder.OutputText` (the line).
- `decode_input` slices a received line by position. It runs the unchecked checksum loop
  (`Decoder.MessageChecksum`) and converts the register and payload fields. Its failure paths
  are modelled as a `Result`:
  - `ValueError` when `int(..., 16)` rejects a chunk;
  - `UnboundPayload` when `received_payload` is never assigned.

  `Decoder.DecodeInput` is proved equal to the reference function `Decoder.Decode`.
- The command and register constants, the `registers` table and `lookup_command_name` are in
  module `Registers`.

Helper modules:
- `HexText` models Python's `"%X"` and `"%0<w>X"` formatting and `int(s, 16)`.
- `Wrappers` holds `Option` and `Result`.

Integers are unbounded, as in Python. `& 0xFF` is Euclidean `% 256`, which agrees with
Python's masking of negative numbers. `>> 8` is `/ 256`, and `(result << 8) | low` is
`result * 256 + low`, since `low < 256`.

The model follows `main.py` where it departs from what the protocol expects:
- the received checksum is computed but never compared;
- the leading `:` is not checked;
- the command field is one character;
- the message text starts at index 2 of the stripped line;
- the command is rendered with `"%X"` and no padding;
- a four-byte payload is rendered with `"%06X"`.

Encoding followed by decoding is not a round trip, and `Decoder.EncodedGetDoesNotDecode`
shows this on the line the file itself sends.

## Model

| member | source | states |
|---|---|---|
| ByteOrder.LittleEndian | main.py:12-21 | the loop returns `Reversed(value)`: the value of the input's minimal big-endian bytes read in reverse order |
| ByteOrder.ValueOfBytes | main.py:18-20 | the minimal bytes of `v` read back big-endian give `v` |
| ByteOrder.BytesOfValue | main.py:18-20 | a byte string without a leading zero is the minimal representation of its value |
| ByteOrder.BytesLength | main.py:18-20 | `v` has at most `k` minimal bytes exactly when `v < 256^k` |
| ByteOrder.ReversedLength | main.py:12-21 | reversing never lengthens the minimal representation |
| ByteOrder.ReversedBound | main.py:12-21 | a value below `256^k` stays below `256^k` after reversal |
| ByteOrder.ReversedZero | main.py:16-18 | 0 is returned as 0: the loop body never runs |
| ByteOrder.ReversedSmall | main.py:12-21 | every value below 256 is returned unchanged |
| ByteOrder.ReversedTwoBytes | main.py:12-21 | a two-byte value has its two bytes swapped |
| ByteOrder.ReversedInvolution | main.py:12-21 | reversing twice gives the input back exactly when the input is 0 or its lowest byte is non-zero |
| ByteOrder.ReversedExamples | main.py:12-21 | 0xEDD5 and 0xD5ED reverse to each other; 0x0200 becomes 0x02, which stays 0x02 |
| HexText.HexDigitsValue | main.py:76 | `"%X"` of `n` is all hex digits, and its value is `n` |
| HexText.HexRoundTrip | main.py:76-78 | `int("%0<w>X" % n, 16) == n` for every width |
| HexText.HexDigitsLength | main.py:76-78 | `"%X"` of `n` has at most `w` digits exactly when `n < 16^w` |
| HexText.PadHexFixed | main.py:77-78 | below `16^w`, `"%0<w>X"` has exactly `w` digits, the low `w` hex digits of `n` |
| HexText.PadHexBytePair | main.py:77 | four digits of `hi * 256 + lo` are the two digits of `hi` followed by the two of `lo` |
| HexText.PadHexByte | main.py:78 | `"%02X"` of a byte is its high digit, then its low digit |
| ChecksumCodec.ComputeChecksum | main.py:67-72 | the loop yields `(0x55 - sum of the bytes) mod 256`, a byte |
| ChecksumCodec.ChecksumBalances | main.py:67-72 | the message with its checksum appended sums to 0x55 modulo 256 |
| ChecksumCodec.ChecksumUnique | main.py:67-72 | the checksum is the only byte that completes the sum to 0x55 modulo 256 |
| Registers.LookupCommandName | main.py:86-87 | a listed address gives its table name, and "Unknown" is returned exactly for unlisted addresses |
| Registers.LookupConstants | main.py:28-43 | each register constant is named by its own identifier |
| Registers.LookupUnknown | main.py:28-35 | exactly the six listed addresses have a name other than "Unknown"; 0x9999 is "Unknown" |
| Registers.LookupInjective | main.py:28-35 | no two listed addresses share a name |
| Encoder.GenerateOutput | main.py:45-84 | the grown message is `Frame(command, register, payload)` and the returned line is `OutputText(command, register, payload)` |
| Encoder.SmallPayloadFits | main.py:61-64 | any payload below 2^32 reverses to a value that `struct.pack('>I', ...)` accepts |
| Encoder.PayloadBytesValue | main.py:52-65 | the payload bytes are 1, 2 or 4 big-endian bytes, chosen by the thresholds 256 and 65536, and read back as the reversed payload |
| Encoder.PackUint16 | main.py:59 | `struct.pack('>H', q)` read back big-endian is `q` |
| Encoder.PackUint32 | main.py:64 | `struct.pack('>I', q)` read back big-endian is `q` |
| Encoder.FrameChecksum | main.py:67-72 | the last byte is the checksum of all bytes before it, and the whole message sums to 0x55 modulo 256 |
| Encoder.FrameLayout | main.py:47-72 | the message starts with the masked command, the register's low byte and its high byte. The payload bytes between them and the checksum read back as the reversed payload. The message has 4, 5, 6 or 8 bytes |
| Encoder.FrameHead | main.py:47-72 | message bytes 1 and 2 are the register's low and high byte, and the last byte is the checksum |
| Encoder.PayloadWidthExamples | main.py:50-65 | payloads 200, 1000 and 100000 give 5-, 6- and 8-byte messages; payload 0 is still one 0x00 byte |
| Encoder.ReversedThreeByteExample | main.py:12-21 | 100000 (0x0186A0) reverses to 0xA08601 |
| Encoder.GetChargerVoltageOutput | main.py:132 | `generate_output(Get, ChargerVoltageRegister)` is `":7D5ED8C"` |
| Encoder.ChargerVoltageRegisterText | main.py:77 | the register text of ChargerVoltageRegister is "D5ED" |
| Encoder.ReversedRegisterDigits | main.py:77 | `"%04X" % 0xD5ED` is "D5ED" |
| Encoder.GetChargerVoltageChecksum | main.py:67-72 | the checksum of the Get/ChargerVoltageRegister message is 0x8C |
| Encoder.RegisterTextBytes | main.py:77 | for a two-byte register, the register text is the digits of its low byte, then of its high byte |
| Encoder.RegisterTextMatchesBytes | main.py:47-77 | for `256 <= register < 65536`, the register text is the hex of message byte 1 followed by that of message byte 2 |
| Encoder.LineFields | main.py:81-83 | in `":" + a + b + p + d`, with 4-character `b` and 2-character `d`, every field is found at its position |
| Encoder.PayloadTextParses | main.py:55-65 | the payload text in any of its three widths parses back to the reversed payload |
| Encoder.OutputAgreesWithFrame | main.py:76-84 | the line is `:` followed by four fields. They parse back to the command, the reversed register, the reversed payload (the field is empty when there is none) and the message's checksum byte. The register field has 4 digits and the checksum field 2 |
| Encoder.CommandFieldText | main.py:76 | the command text parses back to the command |
| Encoder.RegisterFieldText | main.py:77 | for a register below 65536, the register text has 4 digits and parses back to the reversed register |
| Encoder.ChecksumFieldText | main.py:78 | the checksum text has 2 digits and parses back to the checksum |
| Encoder.PayloadTextWidth | main.py:56-65 | the payload text has two digits per payload byte exactly when `q < 65536` or `q >= 0x1000_0000`: `"%06X"` undercounts a four-byte payload otherwise |
| Decoder.Clamp | main.py:91-101 | Python's slice bound: a negative index counts from the end, and the result is clamped to the string |
| Decoder.Slice | main.py:91-101 | the length of Python's `s[i:j]` after clamping |
| Decoder.MessageChecksum | main.py:100-105 | the loop raises exactly when a two-character chunk does not parse; otherwise it returns 0x55 minus the sum of the chunk values |
| Decoder.PairValuesHex | main.py:103-104 | the chunks all parse exactly when the message text is all hex digits, and there are `(len + 1) / 2` of them |
| Decoder.RegisterField | main.py:112-114 | the intended base-16 conversion of `"0x" + field` succeeds exactly on a non-empty all-hex field, giving its value |
| Decoder.RegisterFieldRoundTrip | main.py:77-114 | the 4-digit register text the encoder writes converts back to its value |
| Decoder.RegisterFieldAsWrittenFails | main.py:114 | as written, `int("0x" + field)` in base 10 raises for every field, while the base-16 conversion of "D5ED" gives 0xD5ED |
| Decoder.DecodeInput | main.py:89-125 | the method returns `Decode(line)`: the same result, error or triple |
| Decoder.DecodeSlices | main.py:91-101 | on lines of 8 or more characters, the command, register and message texts are `line[1..2]`, `line[2..6]` and `line[3..len-2]` |
| Decoder.AllHexWindows | main.py:95-101 | the register and message windows are both hex exactly when `line[2..len-2]` is |
| Decoder.DecodeSucceedsIff | main.py:116-125 | decoding returns a triple exactly when the line has 13 or 15 characters and characters 2 to len-3 are hex digits |
| Decoder.DecodeAtLength | main.py:116-125 | on a 13- or 15-character line, decoding succeeds exactly on hex input, with the fields given in DecodeFields |
| Decoder.PayloadDigitsParse | main.py:120-123 | the payload text is `line[7..11]` (4 digits) or `line[7..12]` (5 of the 6 digits, as `[4:9]` slices), and it parses to its value |
| Decoder.PlainHexParses | main.py:104-123 | unprefixed hex digits parse to their value |
| Decoder.DecodeFields | main.py:113-123 | a successful decode returns `"0x"` and the second character, the reversed register digits at 2..5, and the reversed payload digits from 7 |
| Decoder.DecodeErrors | main.py:103-125 | on lines of 8 or more characters: a non-hex character in 2..len-3 gives ValueError, and an all-hex line whose length is neither 13 nor 15 leaves the payload unassigned |
| Decoder.DecodeIgnoresPrefix | main.py:91 | any first character decodes the same as ':' |
| Decoder.DecodeIgnoresChecksumField | main.py:97-110 | any two characters in the checksum field decode the same |
| Decoder.EncodedGetDoesNotDecode | main.py:132 | the line `generate_output(Get, ChargerVoltageRegister)` sends does not decode: its payload stays unassigned |
| Decoder.DecodeDeviceStateReply | main.py:125-147 | the reply ":70102000F3A5" decodes to ("0x7", 0x0201, 0xF3), and the register looks up as "DeviceStateRegister" |

## Left out

- The hardware imports, pins, UART set-up, `uart.write` and `uart.readline`, the print/decode demo
  and the empty `while True: break` (main.py:1-10, 129-154) are I/O on CircuitPython hardware.
  `GenerateOutput` returns the line, and `DecodeInput` receives it as a parameter.
- `struct.pack('>H')` and `struct.pack('>I')` are modelled as explicit big-endian byte splits. The
  rest of the `struct` and `binascii` libraries is not part of this model.
- Encoder.GenerateOutput: requires the reversed payload to be below 2^32, where
  `struct.pack('>I', ...)` would raise. It does not model that exception.
  `Encoder.SmallPayloadFits` shows that every payload below 2^32 qualifies.
- Non-`int` payloads, which fail the `isinstance` guard and leave `payload_str` unbound at
  main.py:83. The payload is an optional natural number, and `None` is distinct from 0.
- ByteOrder.LittleEndian: takes a natural number. For a negative Python int, `while value:` never
  ends (`-1 >> 8 == -1`), so negative inputs are not modelled.
- The leniency of Python's `int(s, 16)`: surrounding whitespace, a sign, underscores between
  digits and non-ASCII digits. Parsing accepts exactly an optional `0x`/`0X` prefix followed by at
  least one hex digit of either case.
- Decoder.DecodeInput: uses the base-16 register conversion. As written, main.py:114 raises on
  every line; see Findings.
- The command and register of the encoder are any natural numbers, and the message bytes are
  masked as in the source. The command text is `"%X"` of the unmasked command, as in the source.

## Findings

| source | as written | input that shows it | evidently intended | confidence | as-written member | corrected member |
|---|---|---|---|---|---|---|
| main.py:114 | `little_endian("0x" + received_register_str)` calls `int("0x...")` at main.py:14 in the default base 10. The call raises `ValueError`, so `decode_input` never returns | register field "D5ED" (any field at all) | convert the register digits in base 16, as the comment at main.py:112 and the example at main.py:125 describe | not executed | Decoder.RegisterFieldAsWrittenFails | Decoder.RegisterField |
