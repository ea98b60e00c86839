/** Byte reversal of non-negative integers (main.py `little_endian`). */
module ByteOrder {

  type Byte = x: nat | x < 256

  function Pow256(k: nat): (r: nat)
    ensures r >= 1
  {
    if k == 0 then 1 else 256 * Pow256(k - 1)
  }

  /** The minimal big-endian bytes of `v`: no leading zero byte, and none at all for 0. */
  function Bytes(v: nat): (r: seq<Byte>)
    ensures v == 0 <==> r == []
    ensures r != [] ==> r[|r| - 1] == v % 256
  {
    if v == 0 then [] else Bytes(v / 256) + [v % 256]
  }

  /** The value of a byte sequence read most significant byte first. */
  function ValueOf(bs: seq<Byte>): nat
  {
    if bs == [] then 0 else ValueOf(bs[..|bs| - 1]) * 256 + bs[|bs| - 1]
  }

  function Reverse<T>(s: seq<T>): (r: seq<T>)
    ensures |r| == |s|
  {
    if s == [] then [] else Reverse(s[1..]) + [s[0]]
  }

  /** The reference definition: the minimal bytes of `v` in reverse order, read back as a number. */
  function Reversed(v: nat): nat
  {
    ValueOf(Reverse(Bytes(v)))
  }

  /** main.py `little_endian`: peels off the low byte of `value` and shifts it into `result`. */
  method LittleEndian(value: nat) returns (result: nat)
    ensures result == Reversed(value)
  {
    result := 0;
    var v := value;
    ghost var done: seq<Byte> := [];
    assert Bytes(value) == Bytes(v) + done;
    while v != 0
      invariant Bytes(value) == Bytes(v) + done
      invariant result == ValueOf(Reverse(done))
      decreases v
    {
      var low: Byte := v % 256;
      // (result << 8) | low: the shift leaves the low eight bits clear, so the "or" adds
      result := result * 256 + low;
      PeelLowByte(v, done);
      ReverseCons<Byte>(low, done);
      ValueOfSnoc(Reverse(done), low);
      done := [low] + done;
      v := v / 256;
    }
    assert Bytes(v) + done == done;
  }

  lemma PeelLowByte(v: nat, done: seq<Byte>)
    requires v != 0
    ensures Bytes(v) + done == Bytes(v / 256) + ([v % 256] + done)
  {
  }

  lemma ReverseCons<T>(x: T, s: seq<T>)
    ensures Reverse([x] + s) == Reverse(s) + [x]
  {
    assert ([x] + s)[1..] == s;
  }

  lemma ValueOfSnoc(bs: seq<Byte>, b: Byte)
    ensures ValueOf(bs + [b]) == ValueOf(bs) * 256 + b
  {
    assert (bs + [b])[..|bs|] == bs;
  }

  lemma {:induction false} ReverseReverse<T>(s: seq<T>)
    ensures Reverse(Reverse(s)) == s
  {
    if s != [] {
      ReverseReverse(s[1..]);
      ReverseSnoc(Reverse(s[1..]), s[0]);
      assert [s[0]] + s[1..] == s;
    }
  }

  lemma {:induction false} ReverseSnoc<T>(s: seq<T>, x: T)
    ensures Reverse(s + [x]) == [x] + Reverse(s)
  {
    if s == [] {
      assert Reverse([x]) == Reverse([x][1..]) + [x];
    } else {
      assert (s + [x])[1..] == s[1..] + [x];
      ReverseSnoc(s[1..], x);
    }
  }

  lemma {:induction false} ValueOfBytes(v: nat)
    ensures ValueOf(Bytes(v)) == v
  {
    if v != 0 {
      ValueOfBytes(v / 256);
      ValueOfSnoc(Bytes(v / 256), v % 256);
    }
  }

  /** Reading a sequence without leading zero bytes and writing its value back gives the sequence. */
  lemma {:induction false} BytesOfValue(bs: seq<Byte>)
    requires bs == [] || bs[0] != 0
    ensures Bytes(ValueOf(bs)) == bs
  {
    if bs != [] {
      var init, last := bs[..|bs| - 1], bs[|bs| - 1];
      assert init + [last] == bs;
      BytesOfValue(init);
      ValueOfSnoc(init, last);
      ValueOfPositive(bs);
      DivMod256(ValueOf(bs), ValueOf(init), last);
      BytesStep(ValueOf(bs));
    }
  }

  lemma BytesStep(v: nat)
    requires v != 0
    ensures Bytes(v) == Bytes(v / 256) + [v % 256]
  {
  }

  /** Splitting v into the quotient and remainder by 256. */
  lemma DivMod256(v: nat, q: nat, r: nat)
    requires v == q * 256 + r && r < 256
    ensures v / 256 == q && v % 256 == r
  {
  }

  lemma {:induction false} ValueOfPositive(bs: seq<Byte>)
    requires bs != [] && bs[0] != 0
    ensures ValueOf(bs) > 0
  {
    if |bs| > 1 {
      ValueOfPositive(bs[..|bs| - 1]);
    }
  }

  lemma {:induction false} ValueOfLeadingZero(t: seq<Byte>)
    ensures ValueOf([0] + t) == ValueOf(t)
  {
    if t != [] {
      var init, last := t[..|t| - 1], t[|t| - 1];
      assert ([0] + t)[..|t|] == [0] + init;
      ValueOfLeadingZero(init);
    }
  }

  lemma {:induction false} ValueOfBound(bs: seq<Byte>)
    ensures ValueOf(bs) < Pow256(|bs|)
  {
    if bs != [] {
      ValueOfBound(bs[..|bs| - 1]);
    }
  }

  /** `v` needs at most `k` bytes exactly when it is below 256^k. */
  lemma {:induction false} BytesLength(v: nat, k: nat)
    ensures |Bytes(v)| <= k <==> v < Pow256(k)
  {
    if v != 0 && k != 0 {
      BytesLength(v / 256, k - 1);
    }
  }

  /** Byte reversal never makes a value longer. */
  lemma ReversedLength(v: nat)
    ensures |Bytes(Reversed(v))| <= |Bytes(v)|
  {
    var bs := Reverse(Bytes(v));
    ValueOfBound(bs);
    BytesLength(Reversed(v), |bs|);
  }

  /** A value that fits in `k` bytes still fits after reversal (so a 16-bit or 32-bit field stays in range). */
  lemma ReversedBound(v: nat, k: nat)
    requires v < Pow256(k)
    ensures Reversed(v) < Pow256(k)
  {
    ReversedLength(v);
    BytesLength(v, k);
    BytesLength(Reversed(v), k);
  }

  lemma ReversedZero()
    ensures Reversed(0) == 0
  {
  }

  lemma BytesOfByte(b: nat)
    requires 0 < b < 256
    ensures Bytes(b) == [b]
  {
    DivMod256(b, 0, b);
    BytesStep(b);
    assert [] + [b] == [b];
  }

  /** One-byte values are unchanged. */
  lemma ReversedSmall(v: nat)
    requires v < 256
    ensures Reversed(v) == v
  {
    if v != 0 {
      BytesOfByte(v);
      assert Reverse([v]) == Reverse<Byte>([]) + [v];
      ValueOfSnoc([], v);
      assert [] + [v] == [v];
    }
  }

  /** Two-byte values swap their bytes. */
  lemma ReversedTwoBytes(v: nat)
    requires 256 <= v < 65536
    ensures Reversed(v) == (v % 256) * 256 + v / 256
  {
    var hi: Byte, lo: Byte := v / 256, v % 256;
    BytesOfByte(hi);
    BytesStep(v);
    assert Bytes(v) == [hi] + [lo];
    ReverseCons<Byte>(hi, [lo]);
    assert Reverse([lo]) == Reverse<Byte>([]) + [lo];
    assert Reverse([hi] + [lo]) == [lo] + [hi];
    ValueOfSnoc([], lo);
    assert [] + [lo] == [lo];
    ValueOfSnoc([lo], hi);
    assert [lo] + [hi] == [lo, hi];
  }

  lemma {:induction false} LastOfBytes(v: nat)
    requires v != 0
    ensures Reverse(Bytes(v))[0] == v % 256
  {
    var init := Bytes(v / 256);
    assert Bytes(v) == init + [v % 256];
    ReverseSnoc<Byte>(init, v % 256);
  }

  lemma {:induction false} BytesLowerBound(v: nat)
    requires v != 0
    ensures Pow256(|Bytes(v)| - 1) <= v
  {
    if v >= 256 {
      BytesLowerBound(v / 256);
    }
  }

  /** Reversing twice gives the value back exactly when its lowest byte is non-zero (or it is 0). */
  lemma ReversedInvolution(v: nat)
    ensures Reversed(Reversed(v)) == v <==> v == 0 || v % 256 != 0
  {
    if v != 0 {
      var bs := Reverse(Bytes(v));
      LastOfBytes(v);
      if v % 256 != 0 {
        BytesOfValue(bs);
        ReverseReverse(Bytes(v));
        ValueOfBytes(v);
      } else {
        // the reversal starts with a zero byte, so it loses a byte
        var n := |bs|;
        assert bs == [0] + bs[1..];
        ValueOfLeadingZero(bs[1..]);
        ValueOfBound(bs[1..]);
        var w := Reversed(v);
        assert w < Pow256(n - 1);
        ReversedBound(w, n - 1);
        BytesLowerBound(v);
      }
    }
  }

  lemma ReversedExamples()
    ensures Reversed(0xEDD5) == 0xD5ED && Reversed(0xD5ED) == 0xEDD5
    ensures Reversed(0x0200) == 0x02 && Reversed(0x02) == 0x02
  {
    ReversedTwoBytes(0xEDD5);
    ReversedTwoBytes(0xD5ED);
    ReversedTwoBytes(0x0200);
    ReversedSmall(0x02);
  }
}
