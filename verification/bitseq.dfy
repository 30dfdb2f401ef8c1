/** The bit-level operators the subnet arithmetic uses (`>>`, `<<`, `^` on
    non-negative 64-bit PHP integers whose values stay below 2^32), and the
    bit strings (most significant bit first) in which their effect is stated. */
module BitSeq {
  import opened Strings
  import opened Numerals

  /** The low `n` bits of `v`, most significant first. */
  function Bits(v: nat, n: nat): (r: seq<bool>)
    ensures |r| == n
  {
    if n == 0 then [] else Bits(v / 2, n - 1) + [v % 2 == 1]
  }

  function Falses(n: nat): (r: seq<bool>)
    ensures |r| == n && forall i :: 0 <= i < n ==> !r[i]
  {
    seq(n, _ => false)
  }

  /** Bitwise exclusive or of two bit strings of one length. */
  function XorBits(x: seq<bool>, y: seq<bool>): (r: seq<bool>)
    requires |x| == |y|
    ensures |r| == |x|
  {
    seq(|x|, i requires 0 <= i < |x| => x[i] != y[i])
  }

  /** A bit string as the `'0'`/`'1'` characters that `decbin` uses. */
  function BitsText(b: seq<bool>): (r: string)
    ensures |r| == |b|
  {
    seq(|b|, i requires 0 <= i < |b| => if b[i] then '1' else '0')
  }

  /** PHP `v >> k` on a non-negative integer. */
  function Shr(v: nat, k: nat): nat
  {
    if k == 0 then v else Shr(v / 2, k - 1)
  }

  /** PHP `v << k`, for results that stay within 64 bits. */
  function Shl(v: nat, k: nat): nat
  {
    if k == 0 then v else 2 * Shl(v, k - 1)
  }

  /** PHP `a ^ b` on non-negative integers. */
  function Xor(a: nat, b: nat): nat
    decreases a + b
  {
    if a == 0 && b == 0 then 0 else 2 * Xor(a / 2, b / 2) + (if a % 2 != b % 2 then 1 else 0)
  }

  // ------------------------------------------------------------- lemmas

  /** Shifting right by `k` keeps the leading `n - k` bits. */
  lemma {:induction false} BitsShr(v: nat, n: nat, k: nat)
    requires k <= n
    ensures Bits(v, n)[..n - k] == Bits(Shr(v, k), n - k)
  {
    if k > 0 {
      BitsShr(v / 2, n - 1, k - 1);
      assert Bits(v, n)[..n - k] == Bits(v / 2, n - 1)[..n - k];
    }
  }

  /** Shifting left by `k` appends `k` zero bits. */
  lemma {:induction false} BitsShl(y: nat, n: nat, k: nat)
    requires k <= n
    ensures Bits(Shl(y, k), n) == Bits(y, n - k) + Falses(k)
  {
    if k > 0 {
      BitsShl(y, n - 1, k - 1);
      assert (2 * Shl(y, k - 1)) / 2 == Shl(y, k - 1);
      assert Falses(k - 1) + [false] == Falses(k);
    }
  }

  lemma XorStep(a: nat, b: nat)
    ensures Xor(a, b) / 2 == Xor(a / 2, b / 2)
    ensures Xor(a, b) % 2 == (if a % 2 != b % 2 then 1 else 0)
  {
  }

  /** `^` acts bit by bit. */
  lemma {:induction false} BitsXor(a: nat, b: nat, n: nat)
    ensures Bits(Xor(a, b), n) == XorBits(Bits(a, n), Bits(b, n))
  {
    if n > 0 {
      XorStep(a, b);
      BitsXor(a / 2, b / 2, n - 1);
    }
  }

  /** Writing `a` above `k` low bits `b` puts their bit strings side by side. */
  lemma {:induction false} BitsConcat(a: nat, b: nat, n: nat, k: nat)
    requires b < Pow2(k)
    ensures Bits(a * Pow2(k) + b, n + k) == Bits(a, n) + Bits(b, k)
  {
    if k > 0 {
      var v := a * Pow2(k) + b;
      calc {
        v;
        a * (2 * Pow2(k - 1)) + b;
        (a * Pow2(k - 1)) * 2 + b;
        (a * Pow2(k - 1) + b / 2) * 2 + b % 2;
      }
      assert v / 2 == a * Pow2(k - 1) + b / 2;
      assert v % 2 == b % 2;
      BitsConcat(a, b / 2, n, k - 1);
    }
  }

  lemma {:induction false} ShrBound(v: nat, n: nat, k: nat)
    requires k <= n && v < Pow2(n)
    ensures Shr(v, k) < Pow2(n - k)
    ensures k == n ==> Shr(v, k) == 0
  {
    if k > 0 {
      ShrBound(v / 2, n - 1, k - 1);
    }
  }

  lemma {:induction false} ShlBound(y: nat, n: nat, k: nat)
    requires k <= n && y < Pow2(n - k)
    ensures Shl(y, k) < Pow2(n)
  {
    if k > 0 {
      ShlBound(y, n - 1, k - 1);
    }
  }

  lemma {:induction false} XorBound(a: nat, b: nat, n: nat)
    requires a < Pow2(n) && b < Pow2(n)
    ensures Xor(a, b) < Pow2(n)
  {
    if n > 0 {
      XorStep(a, b);
      XorBound(a / 2, b / 2, n - 1);
      assert Xor(a, b) == 2 * (Xor(a, b) / 2) + Xor(a, b) % 2;
    } else {
      assert a == 0 && b == 0;
    }
  }

  lemma {:induction false} XorZero(v: nat)
    ensures Xor(0, v) == v
    decreases v
  {
    if v > 0 {
      XorZero(v / 2);
    }
  }

  lemma {:induction false} BitsZero(n: nat)
    ensures Bits(0, n) == Falses(n)
  {
    if n > 0 {
      BitsZero(n - 1);
      assert Falses(n - 1) + [false] == Falses(n);
    }
  }

  /** Below `2^n` a value is determined by its `n` bits. */
  lemma {:induction false} BitsInjective(v: nat, w: nat, n: nat)
    requires v < Pow2(n) && w < Pow2(n)
    requires Bits(v, n) == Bits(w, n)
    ensures v == w
  {
    if n > 0 {
      var bv, bw := Bits(v, n), Bits(w, n);
      assert bv[..n - 1] == Bits(v / 2, n - 1);
      assert bw[..n - 1] == Bits(w / 2, n - 1);
      assert bv[n - 1] == bw[n - 1];
      BitsInjective(v / 2, w / 2, n - 1);
    }
  }

  /** `str_pad(decbin(v), n, '0', STR_PAD_LEFT)` is the exact `n`-bit encoding of `v`. */
  lemma {:induction false} BinStrPadLeft(v: nat, n: nat)
    requires v < Pow2(n) && n > 0
    ensures PadLeft(BinStr(v), n, '0') == BitsText(Bits(v, n))
  {
    if v < 2 {
      BitsZero(n - 1);
      assert Bits(v / 2, n - 1) == Falses(n - 1);
      assert PadLeft(BinStr(v), n, '0') == Rep(n - 1, '0') + [DigitChar(v)];
    } else {
      BinStrPadLeft(v / 2, n - 1);
      BinStrFacts(v / 2, n - 1);
      assert PadLeft(BinStr(v), n, '0') == PadLeft(BinStr(v / 2), n - 1, '0') + [DigitChar(v % 2)];
    }
  }
}
