/** Numerals in the bases the class prints and reads: decimal (`(int)`,
    string interpolation), hexadecimal (`hexdec`, `dechex`, the fixed-width
    groups of the IPv6 full form) and binary (`decbin`). */
module Numerals {
  import opened Strings

  function Pow2(n: nat): (r: nat)
    ensures r >= 1
  {
    if n == 0 then 1 else 2 * Pow2(n - 1)
  }

  function Pow16(n: nat): (r: nat)
    ensures r >= 1
  {
    if n == 0 then 1 else 16 * Pow16(n - 1)
  }

  // ------------------------------------------------------------ decimal

  predicate IsDigit(c: char) { '0' <= c <= '9' }

  predicate AllDigits(s: string) { forall i :: 0 <= i < |s| ==> IsDigit(s[i]) }

  function DigitVal(c: char): nat
    requires IsDigit(c)
  {
    c as int - '0' as int
  }

  function DigitChar(d: nat): char
    requires d < 10
  {
    ('0' as int + d) as char
  }

  /** The value `(int)` gives a string of decimal digits. */
  function DecValue(s: string): nat
    requires AllDigits(s)
  {
    if s == [] then 0 else DecValue(s[..|s| - 1]) * 10 + DigitVal(s[|s| - 1])
  }

  /** The decimal numeral PHP prints for a natural number. */
  function NatStr(v: nat): string
  {
    if v < 10 then [DigitChar(v)] else NatStr(v / 10) + [DigitChar(v % 10)]
  }

  /** The numeral PHP prints for an integer. */
  function IntStr(i: int): string
  {
    if i < 0 then "-" + NatStr(-i) else NatStr(i)
  }

  /** A decimal numeral without superfluous leading zeros. */
  predicate Canonical(s: string)
  {
    |s| >= 1 && AllDigits(s) && (|s| > 1 ==> s[0] != '0')
  }

  // -------------------------------------------------------- hexadecimal

  predicate IsHexDigit(c: char)
  {
    IsDigit(c) || 'a' <= c <= 'f' || 'A' <= c <= 'F'
  }

  /** A digit of the upper-case form: `0`-`9` or `A`-`F`. */
  predicate IsUpperHexDigit(c: char)
  {
    IsDigit(c) || 'A' <= c <= 'F'
  }

  predicate AllHex(s: string) { forall i :: 0 <= i < |s| ==> IsHexDigit(s[i]) }

  function HexVal(c: char): nat
    requires IsHexDigit(c)
  {
    if IsDigit(c) then DigitVal(c)
    else if 'a' <= c <= 'f' then c as int - 'a' as int + 10
    else c as int - 'A' as int + 10
  }

  /** Upper-case hexadecimal digit. */
  function HexChar(d: nat): char
    requires d < 16
  {
    if d < 10 then DigitChar(d) else ('A' as int + d - 10) as char
  }

  /** Lower-case hexadecimal digit, as `dechex` prints it. */
  function LowerHexChar(d: nat): char
    requires d < 16
  {
    if d < 10 then DigitChar(d) else ('a' as int + d - 10) as char
  }

  /** `hexdec(s)` on a string of hexadecimal digits. */
  function HexValue(s: string): nat
    requires AllHex(s)
  {
    if s == [] then 0 else HexValue(s[..|s| - 1]) * 16 + HexVal(s[|s| - 1])
  }

  /** `hexdec(s)`: the value of the hexadecimal digits of `s`, any other
      character ignored. */
  function HexDec(s: string): nat
  {
    if s == [] then 0
    else if IsHexDigit(s[|s| - 1]) then HexDec(s[..|s| - 1]) * 16 + HexVal(s[|s| - 1])
    else HexDec(s[..|s| - 1])
  }

  /** The upper-case hexadecimal numeral of `v` without leading zeros. */
  function HexStr(v: nat): string
  {
    if v < 16 then [HexChar(v)] else HexStr(v / 16) + [HexChar(v % 16)]
  }

  /** `dechex(v)`. */
  function LowerHexStr(v: nat): string
  {
    if v < 16 then [LowerHexChar(v)] else LowerHexStr(v / 16) + [LowerHexChar(v % 16)]
  }

  /** The last `n` upper-case hexadecimal digits of `v`. */
  function FixedHex(v: nat, n: nat): (r: string)
    ensures |r| == n
  {
    if n == 0 then "" else FixedHex(v / 16, n - 1) + [HexChar(v % 16)]
  }

  // ------------------------------------------------------------- binary

  predicate AllBinary(s: string) { forall i :: 0 <= i < |s| ==> s[i] == '0' || s[i] == '1' }

  function BinValue(s: string): nat
    requires AllBinary(s)
  {
    if s == [] then 0 else BinValue(s[..|s| - 1]) * 2 + (if s[|s| - 1] == '1' then 1 else 0)
  }

  /** `decbin(v)`. */
  function BinStr(v: nat): string
  {
    if v < 2 then [DigitChar(v)] else BinStr(v / 2) + [DigitChar(v % 2)]
  }

  // ------------------------------------------------------------- lemmas

  /** The numeral PHP prints reads back as the same number, has no leading zero, and a bounded length. */
  lemma {:induction false} NatStrCanonical(v: nat)
    ensures Canonical(NatStr(v)) && DecValue(NatStr(v)) == v
    ensures v < 1000 ==> |NatStr(v)| <= 3
    ensures v < 256 ==> |NatStr(v)| <= 3
  {
    if v >= 10 {
      NatStrCanonical(v / 10);
      var s := NatStr(v);
      assert s[..|s| - 1] == NatStr(v / 10);
    }
  }

  lemma {:induction false} DecValuePositive(s: string)
    requires Canonical(s) && s[0] != '0'
    ensures DecValue(s) >= 1
  {
    if |s| > 1 {
      DecValuePositive(s[..|s| - 1]);
    }
  }

  /** A canonical numeral is what PHP prints for its value. */
  lemma {:induction false} CanonicalNatStr(s: string)
    requires Canonical(s)
    ensures NatStr(DecValue(s)) == s
  {
    if |s| > 1 {
      var p := s[..|s| - 1];
      assert Canonical(p) && p[0] != '0';
      DecValuePositive(p);
      CanonicalNatStr(p);
      assert s == p + [s[|s| - 1]];
    }
  }

  lemma {:induction false} DecValueBound(s: string)
    requires AllDigits(s)
    ensures |s| <= 3 ==> DecValue(s) <= 999
    ensures |s| <= 2 ==> DecValue(s) <= 99
    ensures |s| <= 1 ==> DecValue(s) <= 9
  {
    if s != [] {
      DecValueBound(s[..|s| - 1]);
    }
  }

  lemma {:induction false} HexValueFixed(v: nat, n: nat)
    requires v < Pow16(n)
    ensures AllHex(FixedHex(v, n)) && HexValue(FixedHex(v, n)) == v
  {
    if n > 0 {
      HexValueFixed(v / 16, n - 1);
      var s := FixedHex(v, n);
      assert s[..|s| - 1] == FixedHex(v / 16, n - 1);
    }
  }

  lemma {:induction false} HexDecHex(s: string)
    requires AllHex(s)
    ensures HexDec(s) == HexValue(s)
  {
    if s != [] {
      HexDecHex(s[..|s| - 1]);
    }
  }

  lemma {:induction false} HexValueBound(s: string, n: nat)
    requires AllHex(s) && |s| <= n
    ensures HexValue(s) < Pow16(n)
  {
    if s != [] {
      HexValueBound(s[..|s| - 1], n - 1);
    }
  }

  lemma Pow16Values()
    ensures Pow16(2) == 256 && Pow16(4) == 65536
  {
    assert Pow16(1) == 16;
    assert Pow16(3) == 4096;
  }

  lemma Pow2Values()
    ensures Pow2(8) == 256 && Pow2(16) == 65536 && Pow2(32) == 4294967296
    ensures Pow2(24) == 16777216 && Pow2(31) == 2147483648
  {
    assert Pow2(4) == 16;
    assert Pow2(8) == 256;
    assert Pow2(12) == 4096;
    assert Pow2(16) == 65536;
    assert Pow2(20) == 1048576;
    assert Pow2(24) == 16777216;
    assert Pow2(28) == 268435456;
  }

  lemma {:induction false} FixedHexUpper(v: nat, n: nat)
    ensures Upper(FixedHex(v, n)) == FixedHex(v, n)
    ensures AllHex(FixedHex(v, n))
    ensures forall i :: 0 <= i < n ==> IsUpperHexDigit(FixedHex(v, n)[i])
  {
    if n > 0 {
      FixedHexUpper(v / 16, n - 1);
      UpperAppend(FixedHex(v / 16, n - 1), [HexChar(v % 16)]);
    }
  }

  lemma UpperHexChar(c: char)
    requires IsHexDigit(c)
    ensures HexVal(c) < 16 && UpperChar(c) == HexChar(HexVal(c))
  {
  }

  /** Upper-casing a string of hex digits gives the fixed-width numeral of its value. */
  lemma {:induction false} UpperHex(s: string)
    requires AllHex(s)
    ensures Upper(s) == FixedHex(HexValue(s), |s|)
  {
    if s != [] {
      var p := s[..|s| - 1];
      var d := s[|s| - 1];
      UpperHex(p);
      UpperHexChar(d);
      assert s == p + [d];
      UpperAppend(p, [d]);
      assert (HexValue(p) * 16 + HexVal(d)) / 16 == HexValue(p);
      assert (HexValue(p) * 16 + HexVal(d)) % 16 == HexVal(d);
    }
  }

  lemma {:induction false} HexValueZeroPrefix(k: nat, s: string)
    requires AllHex(s)
    ensures AllHex(Rep(k, '0') + s) && HexValue(Rep(k, '0') + s) == HexValue(s)
    decreases |s|
  {
    var t := Rep(k, '0') + s;
    if s == [] {
      assert t == Rep(k, '0');
      HexValueZeros(k);
    } else {
      assert t[..|t| - 1] == Rep(k, '0') + s[..|s| - 1];
      HexValueZeroPrefix(k, s[..|s| - 1]);
    }
  }

  lemma {:induction false} HexValueZeros(k: nat)
    ensures AllHex(Rep(k, '0')) && HexValue(Rep(k, '0')) == 0
  {
    if k > 0 {
      assert Rep(k, '0')[..k - 1] == Rep(k - 1, '0');
      HexValueZeros(k - 1);
    }
  }

  /** Two fixed-width numerals side by side are the numeral of the combined value. */
  lemma {:induction false} FixedHexConcat(a: nat, b: nat, n: nat, k: nat)
    requires b < Pow16(k)
    ensures FixedHex(a * Pow16(k) + b, n + k) == FixedHex(a, n) + FixedHex(b, k)
  {
    if k == 0 {
    } else {
      var v := a * Pow16(k) + b;
      calc {
        v;
        a * (16 * Pow16(k - 1)) + b;
        (a * Pow16(k - 1)) * 16 + b;
        (a * Pow16(k - 1) + b / 16) * 16 + b % 16;
      }
      assert v / 16 == a * Pow16(k - 1) + b / 16;
      assert v % 16 == b % 16;
      FixedHexConcat(a, b / 16, n, k - 1);
    }
  }

  lemma {:induction false} HexStrFacts(v: nat)
    ensures AllHex(HexStr(v)) && HexValue(HexStr(v)) == v
    ensures |HexStr(v)| >= 1
    ensures (HexStr(v) == "0") <==> v == 0
    ensures v > 0 ==> HexStr(v)[0] != '0'
    ensures ':' !in HexStr(v)
  {
    if v >= 16 {
      HexStrFacts(v / 16);
      var s := HexStr(v);
      assert s[..|s| - 1] == HexStr(v / 16);
      assert s[0] == HexStr(v / 16)[0];
    }
  }

  /** The fixed-width numeral is the minimal one padded with zeros. */
  lemma {:induction false} FixedHexPadded(v: nat, n: nat)
    requires v < Pow16(n)
    ensures |HexStr(v)| <= n || (v == 0 && n == 0)
    ensures v > 0 ==> FixedHex(v, n) == Rep(n - |HexStr(v)|, '0') + HexStr(v)
  {
    if n == 0 {
    } else if v < 16 {
      FixedHexZero(n - 1);
      assert FixedHex(v / 16, n - 1) == Rep(n - 1, '0');
    } else {
      FixedHexPadded(v / 16, n - 1);
      assert Rep(n - |HexStr(v)|, '0') + HexStr(v)
          == (Rep(n - 1 - |HexStr(v / 16)|, '0') + HexStr(v / 16)) + [HexChar(v % 16)];
    }
  }

  lemma {:induction false} FixedHexZero(n: nat)
    ensures FixedHex(0, n) == Rep(n, '0')
  {
    if n > 0 {
      FixedHexZero(n - 1);
    }
  }

  /** `sprintf('%02s', dechex(v))`, upper-cased, is the two-digit numeral of an octet. */
  lemma LowerHexPadded(v: nat)
    requires v < 256
    ensures Upper(PadLeft(LowerHexStr(v), 2, '0')) == FixedHex(v, 2)
  {
    if v < 16 {
      assert PadLeft(LowerHexStr(v), 2, '0') == ['0', LowerHexChar(v)];
    } else {
      assert LowerHexStr(v) == [LowerHexChar(v / 16), LowerHexChar(v % 16)];
    }
  }

  /** `decbin` reads back as the same number and fits in `n` digits below `2^n`. */
  lemma {:induction false} BinStrFacts(v: nat, n: nat)
    requires v < Pow2(n)
    ensures AllBinary(BinStr(v)) && BinValue(BinStr(v)) == v
    ensures |BinStr(v)| <= n || (v == 0 && n == 0)
  {
    if v >= 2 {
      BinStrFacts(v / 2, n - 1);
      var s := BinStr(v);
      assert s[..|s| - 1] == BinStr(v / 2);
    }
  }
}
