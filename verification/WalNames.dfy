/** WAL file names: `{offset:016x}.wal`, and how the retention worker reads the offset back. */
module WalNames {
  import opened Options

  const U64 := 0x1_0000_0000_0000_0000
  const SUFFIX := ".wal"

  function Pow16(w: nat): nat {
    if w == 0 then 1 else 16 * Pow16(w - 1)
  }

  function HexDigit(d: nat): char
    requires d < 16
  {
    if d < 10 then '0' + d as char else 'a' + (d - 10) as char
  }

  function DigitValue(c: char): Option<nat> {
    if '0' <= c <= '9' then Some((c - '0') as nat)
    else if 'a' <= c <= 'f' then Some((c - 'a') as nat + 10)
    else if 'A' <= c <= 'F' then Some((c - 'A') as nat + 10)
    else None
  }

  /** `n` in hexadecimal, padded with zeros to `w` digits. */
  function Hex(n: nat, w: nat): (s: string)
    ensures |s| == w
  {
    if w == 0 then [] else Hex(n / 16, w - 1) + [HexDigit(n % 16)]
  }

  function HexValue(s: string): Option<nat> {
    if s == [] then Some(0)
    else match (HexValue(s[..|s| - 1]), DigitValue(s[|s| - 1]))
      case (Some(high), Some(d)) => Some(16 * high + d)
      case _ => None
  }

  /** `u64::from_str_radix(s, 16)` */
  function ParseHex(s: string): Option<nat> {
    var digits := if |s| > 1 && s[0] == '+' then s[1..] else s;
    if digits == [] then None
    else match HexValue(digits)
      case Some(n) => if n < U64 then Some(n) else None
      case None => None
  }

  function WalName(offset: nat): string {
    Hex(offset, 16) + SUFFIX
  }

  /** The start offset in a name with a non-empty stem and the extension `wal`. */
  function ParseName(name: string): Option<nat> {
    if |name| <= |SUFFIX| || name[|name| - |SUFFIX|..] != SUFFIX then None
    else ParseHex(name[..|name| - |SUFFIX|])
  }

  lemma {:induction false} HexRoundTrip(n: nat, w: nat)
    requires n < Pow16(w)
    ensures HexValue(Hex(n, w)) == Some(n)
  {
    if w > 0 {
      HexRoundTrip(n / 16, w - 1);
      var s := Hex(n, w);
      assert s[..|s| - 1] == Hex(n / 16, w - 1);
      assert s[|s| - 1] == HexDigit(n % 16);
    }
  }

  lemma {:induction false} HexHasNoSign(n: nat, w: nat)
    ensures forall c <- Hex(n, w) :: c != '+'
  {
    if w > 0 {
      HexHasNoSign(n / 16, w - 1);
    }
  }

  lemma SixteenDigits()
    ensures Pow16(16) == U64
  {
    assert Pow16(4) == 0x1_0000;
    assert Pow16(8) == 0x1_0000_0000 by {
      assert Pow16(6) == 0x100_0000;
    }
    assert Pow16(12) == 0x1_0000_0000_0000 by {
      assert Pow16(10) == 0x100_0000_0000;
    }
    assert Pow16(14) == 0x100_0000_0000_0000;
  }

  /** The name of a WAL file says exactly where it starts, for every 64-bit offset. */
  lemma NameRoundTrip(offset: nat)
    requires offset < U64
    ensures ParseName(WalName(offset)) == Some(offset)
  {
    var stem := Hex(offset, 16);
    var name := WalName(offset);
    assert name[..|name| - |SUFFIX|] == stem;
    assert name[|name| - |SUFFIX|..] == SUFFIX;
    HexHasNoSign(offset, 16);
    assert stem[0] in stem;
    SixteenDigits();
    HexRoundTrip(offset, 16);
  }

  // ---------------------------------------------------------------- digit by digit

  lemma DivDiv(n: nat, p: nat)
    requires p > 0
    ensures n / (16 * p) == n / 16 / p
  {
    var q, r := n / 16, n % 16;
    var a, b := q / p, q % p;
    assert n == (16 * p) * a + (16 * b + r);
    Quotient(n, 16 * p, a, 16 * b + r);
  }

  lemma {:induction false} MultipleAtLeast(d: nat, k: nat)
    requires k >= 1
    ensures d * k >= d
  {
    if k > 1 {
      MultipleAtLeast(d, k - 1);
    }
  }

  lemma Quotient(n: nat, d: nat, a: nat, b: nat)
    requires d > 0 && b < d && n == d * a + b
    ensures n / d == a
  {
    var q, r := n / d, n % d;
    assert n == d * q + r;
    if q > a {
      MultipleAtLeast(d, q - a);
    } else if a > q {
      MultipleAtLeast(d, a - q);
    }
  }

  /** The digit of weight `16^i`, in lower case. */
  lemma {:induction false} HexDigits(n: nat, w: nat, i: nat)
    requires i < w
    ensures Pow16(i) > 0 && Hex(n, w)[w - 1 - i] == "0123456789abcdef"[n / Pow16(i) % 16]
  {
    if i > 0 {
      HexDigits(n / 16, w - 1, i - 1);
      DivDiv(n, Pow16(i - 1));
    }
  }

  /** A WAL file name is the sixteen hexadecimal digits of the offset, most significant first, and the extension. */
  lemma NameDigits(offset: nat)
    ensures |WalName(offset)| == 20 && WalName(offset)[16..] == ".wal"
    ensures forall i :: 0 <= i < 16 ==>
              Pow16(i) > 0 && WalName(offset)[15 - i] == "0123456789abcdef"[offset / Pow16(i) % 16]
  {
    hide Hex;
    forall i | 0 <= i < 16
      ensures Pow16(i) > 0 && WalName(offset)[15 - i] == "0123456789abcdef"[offset / Pow16(i) % 16]
    {
      HexDigits(offset, 16, i);
    }
  }

  /** `c` is the digit `d` in either case. */
  predicate IsDigit(c: char, d: nat)
    requires d < 16
  {
    c == "0123456789abcdef"[d] || c == "0123456789ABCDEF"[d]
  }

  lemma DigitIff(c: char, d: nat)
    requires d < 16
    ensures DigitValue(c) == Some(d) <==> IsDigit(c, d)
  {
  }

  lemma {:induction false} PowersPositive(w: nat)
    ensures forall i :: 0 <= i <= w ==> Pow16(i) > 0
  {
    if w > 0 {
      PowersPositive(w - 1);
    }
  }

  /** The digits of `s`, in either case, are those of `n`, and there are enough of them. */
  predicate DigitsOf(s: string, n: nat) {
    && n < Pow16(|s|)
    && forall i :: 0 <= i < |s| ==> Pow16(i) > 0 && IsDigit(s[|s| - 1 - i], n / Pow16(i) % 16)
  }

  lemma PowerStep(n: nat, i: nat)
    ensures Pow16(i) > 0 && Pow16(0) == 1 && Pow16(i + 1) == 16 * Pow16(i)
    ensures n / Pow16(i + 1) == n / 16 / Pow16(i)
  {
    PowersPositive(i);
    DivDiv(n, Pow16(i));
  }

  lemma DigitsDown(s: string, n: nat)
    requires s != [] && DigitsOf(s, n)
    ensures DigitsOf(s[..|s| - 1], n / 16) && IsDigit(s[|s| - 1], n % 16)
  {
    hide IsDigit, Pow16;
    var k := |s| - 1;
    var high := s[..k];
    PowerStep(n, k);
    assert IsDigit(s[|s| - 1 - 0], n / Pow16(0) % 16);
    forall i | 0 <= i < k
      ensures Pow16(i) > 0 && IsDigit(high[k - 1 - i], n / 16 / Pow16(i) % 16)
    {
      PowerStep(n, i);
      var up := i + 1;
      assert IsDigit(s[|s| - 1 - up], n / Pow16(up) % 16);
    }
  }

  lemma DigitsUp(s: string, n: nat)
    requires s != [] && DigitsOf(s[..|s| - 1], n / 16) && IsDigit(s[|s| - 1], n % 16)
    ensures DigitsOf(s, n)
  {
    hide IsDigit, Pow16;
    var k := |s| - 1;
    var high := s[..k];
    PowerStep(n, k);
    forall i | 0 <= i < |s|
      ensures Pow16(i) > 0 && IsDigit(s[|s| - 1 - i], n / Pow16(i) % 16)
    {
      PowerStep(n, i);
      if i > 0 {
        var down := i - 1;
        PowerStep(n, down);
        assert IsDigit(high[k - 1 - down], n / 16 / Pow16(down) % 16);
      }
    }
  }

  lemma DigitsStep(s: string, n: nat)
    requires s != []
    ensures DigitsOf(s, n) <==> DigitsOf(s[..|s| - 1], n / 16) && IsDigit(s[|s| - 1], n % 16)
  {
    hide IsDigit, DigitsOf;
    if DigitsOf(s, n) {
      DigitsDown(s, n);
    }
    if DigitsOf(s[..|s| - 1], n / 16) && IsDigit(s[|s| - 1], n % 16) {
      DigitsUp(s, n);
    }
  }

  /** Which number a string of hexadecimal digits is read as. */
  lemma {:induction false} HexValueIff(s: string, n: nat)
    ensures HexValue(s) == Some(n) <==> DigitsOf(s, n)
    decreases |s|
  {
    hide IsDigit, DigitValue, DigitsOf;
    if s == [] {
      NoDigits(n);
    } else {
      var k := |s| - 1;
      HexValueIff(s[..k], n / 16);
      DigitIff(s[k], n % 16);
      DigitsStep(s, n);
      DigitBound(s[k]);
    }
  }

  lemma NoDigits(n: nat)
    ensures DigitsOf([], n) <==> n == 0
  {
  }

  lemma DigitBound(c: char)
    ensures DigitValue(c).Some? ==> DigitValue(c).value < 16
  {
  }

  /** The stem of a WAL file name is read as the number it writes, an optional plus sign aside, if that fits 64 bits. */
  lemma ParseHexIff(s: string, n: nat)
    ensures ParseHex(s) == Some(n) <==>
            var digits := if |s| > 1 && s[0] == '+' then s[1..] else s;
            digits != [] && DigitsOf(digits, n) && n < 0x1_0000_0000_0000_0000
  {
    hide HexValue, DigitsOf;
    HexValueIff(if |s| > 1 && s[0] == '+' then s[1..] else s, n);
  }
}
