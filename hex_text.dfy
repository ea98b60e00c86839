/** Upper-case hexadecimal rendering (Python's "%X" and "%0<w>X") and parsing (Python's int(s, 16)). */
module HexText {
  import opened Wrappers

  const Alphabet: string := "0123456789ABCDEF"

  function Pow16(k: nat): (r: nat)
    ensures r >= 1
  {
    if k == 0 then 1 else 16 * Pow16(k - 1)
  }

  function Digit(d: nat): char
    requires d < 16
  {
    Alphabet[d]
  }

  predicate IsHexDigit(c: char)
  {
    '0' <= c <= '9' || 'A' <= c <= 'F' || 'a' <= c <= 'f'
  }

  predicate AllHex(s: string)
  {
    forall i :: 0 <= i < |s| ==> IsHexDigit(s[i])
  }

  /** The value of one hex digit, either case; 0 for a character that is not one. */
  function DigitValue(c: char): (d: nat)
    ensures d < 16
  {
    if '0' <= c <= '9' then c as int - '0' as int
    else if 'A' <= c <= 'F' then c as int - 'A' as int + 10
    else if 'a' <= c <= 'f' then c as int - 'a' as int + 10
    else 0
  }

  /** The value of a digit string read most significant digit first. */
  function HexValue(s: string): nat
  {
    if s == [] then 0 else HexValue(s[..|s| - 1]) * 16 + DigitValue(s[|s| - 1])
  }

  /** "%X" % n: the minimal digits of n, "0" for zero. */
  function HexDigits(n: nat): (r: string)
    ensures |r| >= 1
  {
    if n < 16 then [Digit(n)] else HexDigits(n / 16) + [Digit(n % 16)]
  }

  function Zeros(k: nat): (r: string)
    ensures |r| == k && forall i :: 0 <= i < k ==> r[i] == '0'
  {
    if k == 0 then [] else Zeros(k - 1) + ['0']
  }

  /** "%0<w>X" % n: the minimal digits of n, left-padded with '0' to at least w characters. */
  function PadHex(n: nat, w: nat): string
  {
    var d := HexDigits(n);
    if |d| >= w then d else Zeros(w - |d|) + d
  }

  /** Exactly `w` digits: the low `w` hexadecimal digits of n. */
  function FixedHex(n: nat, w: nat): (r: string)
    ensures |r| == w
  {
    if w == 0 then [] else FixedHex(n / 16, w - 1) + [Digit(n % 16)]
  }

  /** Python's int(s, 16), restricted to an optional "0x"/"0X" prefix followed by at least one hex digit. */
  function ParseInt16(s: string): Option<nat>
  {
    var digits := if |s| >= 2 && s[0] == '0' && (s[1] == 'x' || s[1] == 'X') then s[2..] else s;
    if |digits| > 0 && AllHex(digits) then Some(HexValue(digits)) else None
  }

  lemma DigitRoundTrip(d: nat)
    requires d < 16
    ensures IsHexDigit(Digit(d)) && DigitValue(Digit(d)) == d
    ensures Digit(d) != 'x' && Digit(d) != 'X'
  {
  }

  lemma HexValueSnoc(s: string, c: char)
    ensures HexValue(s + [c]) == HexValue(s) * 16 + DigitValue(c)
  {
    assert (s + [c])[..|s|] == s;
  }

  lemma {:induction false} HexDigitsValue(n: nat)
    ensures AllHex(HexDigits(n)) && HexValue(HexDigits(n)) == n
  {
    if n < 16 {
      DigitRoundTrip(n);
      HexValueSnoc([], Digit(n));
      assert [] + [Digit(n)] == [Digit(n)];
    } else {
      var q, r := n / 16, n % 16;
      var init := HexDigits(q);
      assert HexDigits(n) == init + [Digit(r)];
      DigitRoundTrip(r);
      HexDigitsValue(q);
      HexValueSnoc(init, Digit(r));
      AllHexSnoc(init, Digit(r));
    }
  }

  lemma AllHexSnoc(s: string, c: char)
    requires AllHex(s) && IsHexDigit(c)
    ensures AllHex(s + [c])
  {
    assert forall i :: 0 <= i < |s| ==> (s + [c])[i] == s[i];
  }

  lemma {:induction false} HexValueLeadingZeros(k: nat, s: string)
    ensures HexValue(Zeros(k) + s) == HexValue(s)
  {
    if s == [] {
      assert Zeros(k) + s == Zeros(k);
      ZerosValue(k);
    } else {
      var init, last := s[..|s| - 1], s[|s| - 1];
      assert Zeros(k) + s == (Zeros(k) + init) + [last];
      assert s == init + [last];
      HexValueSnoc(Zeros(k) + init, last);
      HexValueSnoc(init, last);
      HexValueLeadingZeros(k, init);
    }
  }

  lemma {:induction false} ZerosValue(k: nat)
    ensures HexValue(Zeros(k)) == 0
  {
    if k != 0 {
      var init := Zeros(k - 1);
      assert Zeros(k) == init + ['0'];
      ZerosValue(k - 1);
      HexValueSnoc(init, '0');
      assert DigitValue('0') == 0;
    }
  }

  /** Padded rendering consists of digits only, and never spells a "0x" prefix. */
  lemma PadHexDigits(n: nat, w: nat)
    ensures AllHex(PadHex(n, w)) && |PadHex(n, w)| >= 1
    ensures forall i :: 0 <= i < |PadHex(n, w)| ==> PadHex(n, w)[i] != 'x' && PadHex(n, w)[i] != 'X'
  {
    HexDigitsValue(n);
    HexDigitsUpper(n);
  }

  lemma {:induction false} HexDigitsUpper(n: nat)
    ensures forall i :: 0 <= i < |HexDigits(n)| ==> HexDigits(n)[i] in Alphabet
  {
    if n >= 16 {
      HexDigitsUpper(n / 16);
    }
  }

  /** Parsing undoes padded rendering: int("%0<w>X" % n, 16) == n. */
  lemma HexRoundTrip(n: nat, w: nat)
    ensures ParseInt16(PadHex(n, w)) == Some(n)
  {
    PadHexDigits(n, w);
    HexDigitsValue(n);
    var d := HexDigits(n);
    if |d| < w {
      HexValueLeadingZeros(w - |d|, d);
    }
  }

  /** The minimal rendering fits in `w` digits exactly when n < 16^w. */
  lemma {:induction false} HexDigitsLength(n: nat, w: nat)
    requires w >= 1
    ensures |HexDigits(n)| <= w <==> n < Pow16(w)
  {
    if n >= 16 && w >= 2 {
      HexDigitsLength(n / 16, w - 1);
    }
  }

  lemma {:induction false} HexDigitsFixed(n: nat)
    ensures HexDigits(n) == FixedHex(n, |HexDigits(n)|)
  {
    if n >= 16 {
      var init := HexDigits(n / 16);
      assert HexDigits(n) == init + [Digit(n % 16)];
      HexDigitsFixed(n / 16);
      FixedHexStep(n, |init| + 1);
    } else {
      FixedHexStep(n, 1);
      DivMod16(n, 0, n);
    }
  }

  lemma {:induction false} FixedHexOfZero(j: nat)
    ensures FixedHex(0, j) == Zeros(j)
  {
    if j != 0 {
      FixedHexOfZero(j - 1);
    }
  }

  lemma {:induction false} FixedHexZeros(n: nat, k: nat, j: nat)
    requires n < Pow16(k)
    ensures FixedHex(n, k + j) == Zeros(j) + FixedHex(n, k)
  {
    if k == 0 {
      FixedHexOfZero(j);
      assert Zeros(j) + [] == Zeros(j);
    } else {
      var d := [Digit(n % 16)];
      QuotientBound(n, k);
      FixedHexZeros(n / 16, k - 1, j);
      FixedHexStep(n, k + j);
      FixedHexStep(n, k);
      assert k + j - 1 == (k - 1) + j;
      AppendAssoc(Zeros(j), FixedHex(n / 16, k - 1), d);
    }
  }

  lemma QuotientBound(n: nat, k: nat)
    requires k >= 1 && n < Pow16(k)
    ensures n / 16 < Pow16(k - 1)
  {
  }

  lemma AppendAssoc(a: string, b: string, c: string)
    ensures (a + b) + c == a + (b + c)
  {
  }

  /** "%0<w>X" % n has exactly w digits when n < 16^w. */
  lemma PadHexFixed(n: nat, w: nat)
    requires w >= 1 && n < Pow16(w)
    ensures PadHex(n, w) == FixedHex(n, w) && |PadHex(n, w)| == w
  {
    var k := |HexDigits(n)|;
    HexDigitsLength(n, w);
    HexDigitsFixed(n);
    if k < w {
      HexDigitsLength(n, k);
      FixedHexZeros(n, k, w - k);
      assert k + (w - k) == w;
    }
  }

  /** Four digits of a two-byte value are the two digits of each byte, high byte first. */
  lemma FixedHexBytePair(hi: nat, lo: nat)
    requires hi < 256 && lo < 256
    ensures FixedHex(hi * 256 + lo, 4) == FixedHex(hi, 2) + FixedHex(lo, 2)
  {
    var lo1, lo0 := lo / 16, lo % 16;
    var m := hi * 16 + lo1;
    FixedHexSplitLow(hi * 256 + lo, m, lo0, 4);
    FixedHexSplitLow(m, hi, lo1, 3);
    FixedHexSplitLow(lo, lo1, lo0, 2);
    FixedHexOne(lo1);
    SnocTwice(FixedHex(hi, 2), Digit(lo1), Digit(lo0));
    SnocPair(Digit(lo1), Digit(lo0));
  }

  lemma FixedHexOne(d: nat)
    requires d < 16
    ensures FixedHex(d, 1) == [Digit(d)]
  {
    DivMod16(d, 0, d);
    assert FixedHex(d, 1) == [] + [Digit(d)];
  }

  lemma SnocPair(a: char, b: char)
    ensures [a] + [b] == [a, b]
  {
  }

  /** With n == m * 16 + r, the w digits of n are the w - 1 digits of m, then Digit(r). */
  lemma FixedHexSplitLow(n: nat, m: nat, r: nat, w: nat)
    requires n == m * 16 + r && r < 16 && w >= 1
    ensures FixedHex(n, w) == FixedHex(m, w - 1) + [Digit(r)]
  {
    DivMod16(n, m, r);
    FixedHexStep(n, w);
  }

  lemma SnocTwice(s: string, a: char, b: char)
    ensures s + [a] + [b] == s + [a, b]
  {
  }

  lemma DivMod16(v: nat, q: nat, r: nat)
    requires v == q * 16 + r && r < 16
    ensures v / 16 == q && v % 16 == r
  {
  }

  lemma FixedHexStep(n: nat, w: nat)
    requires w >= 1
    ensures FixedHex(n, w) == FixedHex(n / 16, w - 1) + [Digit(n % 16)]
  {
  }

  lemma PadHexBytePair(hi: nat, lo: nat)
    requires hi < 256 && lo < 256
    ensures PadHex(hi * 256 + lo, 4) == PadHex(hi, 2) + PadHex(lo, 2)
  {
    PadHexFixed(hi * 256 + lo, 4);
    PadHexFixed(hi, 2);
    PadHexFixed(lo, 2);
    FixedHexBytePair(hi, lo);
  }

  /** "%02X" of a byte is its high digit, then its low digit. */
  lemma PadHexByte(b: nat)
    requires b < 256
    ensures PadHex(b, 2) == [Digit(b / 16), Digit(b % 16)]
  {
    assert Pow16(2) == 256;
    PadHexFixed(b, 2);
    FixedHexStep(b, 2);
    FixedHexStep(b / 16, 1);
    DivMod16(b / 16, 0, b / 16);
    SnocTwice([], Digit(b / 16), Digit(b % 16));
  }
}
