/** The protocol checksum: 0x55 minus the sum of the message bytes, modulo 256 (main.py:67-72). */
module ChecksumCodec {
  import opened ByteOrder

  function Sum(s: seq<int>): int
  {
    if s == [] then 0 else Sum(s[..|s| - 1]) + s[|s| - 1]
  }

  /** The byte that brings the sum of the message up to 0x55 modulo 256. */
  function Checksum(message: seq<Byte>): Byte
  {
    (0x55 - Sum(message)) % 256
  }

  lemma SumSnoc(s: seq<int>, x: int)
    ensures Sum(s + [x]) == Sum(s) + x
  {
    assert (s + [x])[..|s|] == s;
  }

  /** main.py:68-71: start at 0x55 and subtract each byte, masking with 0xFF after each step. */
  method ComputeChecksum(message: seq<Byte>) returns (checksum: Byte)
    ensures checksum == Checksum(message)
  {
    checksum := 0x55;
    for i := 0 to |message|
      invariant checksum == Checksum(message[..i])
    {
      // masking a Python int with 0xFF keeps its residue modulo 256, never negative
      checksum := (checksum - message[i]) % 256;
      assert message[..i + 1] == message[..i] + [message[i]];
      SumSnoc(message[..i], message[i]);
    }
    assert message[..|message|] == message;
  }

  /** Appending the checksum makes the whole message sum to 0x55 modulo 256. */
  lemma ChecksumBalances(message: seq<Byte>)
    ensures (Sum(message) + Checksum(message)) % 256 == 0x55
    ensures Sum(message + [Checksum(message)]) % 256 == 0x55
  {
    SumSnoc(message, Checksum(message));
  }

  /** The checksum is the only byte with that property. */
  lemma ChecksumUnique(message: seq<Byte>, c: Byte)
    ensures (Sum(message) + c) % 256 == 0x55 <==> c == Checksum(message)
  {
  }
}
