/**
 Machine-word operations on mathematical integers. `Bit(x, j)` is bit `j`,
 least significant first, of the two's complement of `x`, at any width.
 */
module Bitwise {

  function Pow2(n: nat): (p: nat)
    ensures p > 0
  {
    if n == 0 then 1 else 2 * Pow2(n - 1)
  }

  function Bit(x: int, j: nat): bool
    decreases j
  {
    if j == 0 then x % 2 == 1 else Bit(x / 2, j - 1)
  }

  /** Bitwise or of two unsigned words. */
  function Or(a: nat, b: nat): nat {
    if a == 0 then b
    else 2 * Or(a / 2, b / 2) + (if a % 2 == 1 || b % 2 == 1 then 1 else 0)
  }

  /** Bitwise and of two unsigned words. */
  function And(a: nat, b: nat): nat {
    if a == 0 then 0
    else 2 * And(a / 2, b / 2) + (if a % 2 == 1 && b % 2 == 1 then 1 else 0)
  }

  /** `x >> s`: logical on unsigned words, arithmetic on signed ones. */
  function Shr(x: int, s: nat): int {
    x / Pow2(s)
  }

  /** `x << s` in an unsigned word of `width` bits. */
  function Shl(x: nat, s: nat, width: nat): nat {
    x * Pow2(s) % Pow2(width)
  }

  /** `!x` in an unsigned word of `width` bits. */
  function Not(x: nat, width: nat): nat
    requires x < Pow2(width)
  {
    Pow2(width) - 1 - x
  }

  /** `x as uN`: keep the low `width` bits. */
  function Truncate(x: int, width: nat): (r: nat)
    ensures r < Pow2(width)
  {
    x % Pow2(width)
  }

  /** `x as iN`: read a word of `width` bits as two's complement. */
  function AsSigned(x: nat, width: nat): int
    requires width > 0 && x < Pow2(width)
  {
    if x < Pow2(width - 1) then x else x - Pow2(width)
  }

  // ----- powers of two -----

  lemma {:induction false} Pow2Adds(a: nat, b: nat)
    ensures Pow2(a + b) == Pow2(a) * Pow2(b)
  {
    if a > 0 {
      Pow2Adds(a - 1, b);
    }
  }

  lemma {:induction false} Pow2Grows(a: nat, b: nat)
    requires a <= b
    ensures Pow2(a) <= Pow2(b)
  {
    if a < b {
      Pow2Grows(a, b - 1);
    }
  }

  lemma HalfOfDouble(x: int, m: nat)
    requires m > 0
    ensures x / (2 * m) == (x / 2) / m
    ensures x % (2 * m) == 2 * ((x / 2) % m) + x % 2
  {
    var q, s := (x / 2) / m, (x / 2) % m;
    assert x / 2 == m * q + s;
    assert x == 2 * (x / 2) + x % 2;
    assert x == (2 * m) * q + (2 * s + x % 2);
    assert 0 <= 2 * s + x % 2 < 2 * m;
    DivModUnique(x, 2 * m, q, 2 * s + x % 2);
  }

  lemma DivModUnique(x: int, d: nat, q: int, r: int)
    requires d > 0 && x == d * q + r && 0 <= r < d
    ensures x / d == q && x % d == r
  {
    var k := x / d - q;
    MulAtLeast(d, k);
    MulAtLeast(d, -k);
    assert d * (x / d) == d * q + d * k;
  }

  lemma MulAtLeast(d: nat, k: int)
    ensures k >= 1 ==> d * k >= d
    ensures d * -k == -(d * k)
  {
  }

  lemma {:induction false} ShrBound(x: nat, s: nat)
    ensures 0 <= Shr(x, s) <= x
  {
    if s > 0 {
      HalfOfDouble(x, Pow2(s - 1));
      ShrBound(x / 2, s - 1);
    }
  }

  // ----- what each operation does to a bit -----

  lemma {:induction false} ShrBit(x: int, s: nat, j: nat)
    ensures Bit(Shr(x, s), j) == Bit(x, j + s)
    decreases s
  {
    if s > 0 {
      HalfOfDouble(x, Pow2(s - 1));
      ShrBit(x / 2, s - 1, j);
    }
  }

  lemma {:induction false} ScaleBit(x: int, s: nat, j: nat)
    ensures Bit(x * Pow2(s), j) == (j >= s && Bit(x, j - s))
  {
    if s > 0 {
      var y := x * Pow2(s - 1);
      assert x * Pow2(s) == 2 * y;
      if j > 0 {
        ScaleBit(x, s - 1, j - 1);
      }
    }
  }

  lemma {:induction false} TruncateBit(x: int, w: nat, j: nat)
    ensures Bit(x % Pow2(w), j) == (j < w && Bit(x, j))
    decreases w
  {
    if w == 0 {
      ZeroBit(j);
    } else {
      HalfOfDouble(x, Pow2(w - 1));
      if j > 0 {
        TruncateBit(x / 2, w - 1, j - 1);
      }
    }
  }

  lemma {:induction false} ZeroBit(j: nat)
    ensures !Bit(0, j)
  {
    if j > 0 {
      ZeroBit(j - 1);
    }
  }

  lemma ShlBit(x: nat, s: nat, width: nat, j: nat)
    ensures Bit(Shl(x, s, width), j) == (s <= j < width && Bit(x, j - s))
  {
    TruncateBit(x * Pow2(s), width, j);
    ScaleBit(x, s, j);
  }

  lemma {:induction false} OrBit(a: nat, b: nat, j: nat)
    ensures Bit(Or(a, b), j) == (Bit(a, j) || Bit(b, j))
    decreases j
  {
    if a == 0 {
      ZeroBit(j);
    } else if j > 0 {
      OrBit(a / 2, b / 2, j - 1);
    }
  }

  lemma {:induction false} AndBit(a: nat, b: nat, j: nat)
    ensures Bit(And(a, b), j) == (Bit(a, j) && Bit(b, j))
    decreases j
  {
    if a == 0 {
      ZeroBit(j);
    } else if j > 0 {
      AndBit(a / 2, b / 2, j - 1);
    }
  }

  /** Two's complement negation flips every bit. */
  lemma {:induction false} ComplementBit(x: int, j: nat)
    ensures Bit(-1 - x, j) == !Bit(x, j)
    decreases j
  {
    if j > 0 {
      assert (-1 - x) / 2 == -1 - x / 2;
      ComplementBit(x / 2, j - 1);
    }
  }

  lemma NotBit(x: nat, width: nat, j: nat)
    requires x < Pow2(width) && j < width
    ensures Bit(Not(x, width), j) == !Bit(x, j)
  {
    ComplementBit(x, j);
    DivModUnique(-1 - x, Pow2(width), -1, Pow2(width) - 1 - x);
    TruncateBit(-1 - x, width, j);
  }

  lemma HighBit(x: nat, w: nat, j: nat)
    requires x < Pow2(w) && w <= j
    ensures !Bit(x, j)
  {
    DivModUnique(x, Pow2(w), 0, x);
    TruncateBit(x, w, j);
  }

  /** A word is determined by its bits. */
  lemma {:induction false} SameBits(a: nat, b: nat, w: nat)
    requires a < Pow2(w) && b < Pow2(w)
    requires forall j :: 0 <= j < w ==> Bit(a, j) == Bit(b, j)
    ensures a == b
  {
    if w > 0 {
      forall j | 0 <= j < w - 1 ensures Bit(a / 2, j) == Bit(b / 2, j) {
        assert Bit(a, j + 1) == Bit(b, j + 1);
      }
      SameBits(a / 2, b / 2, w - 1);
      assert Bit(a, 0) == Bit(b, 0);
    }
  }

  lemma {:induction false} OrBound(a: nat, b: nat, w: nat)
    requires a < Pow2(w) && b < Pow2(w)
    ensures Or(a, b) < Pow2(w)
  {
    if a != 0 {
      OrBound(a / 2, b / 2, w - 1);
    }
  }

  lemma {:induction false} AndBound(a: nat, b: nat)
    ensures And(a, b) <= a
  {
    if a != 0 {
      AndBound(a / 2, b / 2);
    }
  }

  /** The low `k` bits of an all-ones word. */
  lemma OnesBit(k: nat, j: nat)
    ensures Bit(Pow2(k) - 1, j) == (j < k)
  {
    DivModUnique(-1, Pow2(k), -1, Pow2(k) - 1);
    TruncateBit(-1, k, j);
    ComplementBit(0, j);
    ZeroBit(j);
  }

  /** Masking with the low `w` ones is reduction modulo 2^w. */
  lemma MaskIsTruncate(x: nat, w: nat)
    ensures And(x, Pow2(w) - 1) == x % Pow2(w)
  {
    AndBelow(x, w);
    forall j | 0 <= j < w ensures Bit(And(x, Pow2(w) - 1), j) == Bit(x % Pow2(w), j) {
      AndBit(x, Pow2(w) - 1, j);
      OnesBit(w, j);
      TruncateBit(x, w, j);
    }
    SameBits(And(x, Pow2(w) - 1), x % Pow2(w), w);
  }

  lemma {:induction false} AndBelow(x: nat, w: nat)
    ensures And(x, Pow2(w) - 1) < Pow2(w)
    decreases w
  {
    if x != 0 && w > 0 {
      assert (Pow2(w) - 1) / 2 == Pow2(w - 1) - 1;
      AndBelow(x / 2, w - 1);
    } else if x != 0 {
      AndZero(x);
    }
  }

  lemma {:induction false} AndZero(x: nat)
    ensures And(x, 0) == 0
  {
    if x != 0 {
      AndZero(x / 2);
    }
  }

  /** Or of words with no bit in common is their sum. */
  lemma {:induction false} OrOfDisjoint(a: nat, b: nat, s: nat)
    requires a % Pow2(s) == 0 && b < Pow2(s)
    ensures Or(a, b) == a + b
    decreases s
  {
    if a != 0 {
      if s == 0 {
        OrZero(a);
      } else {
        HalfOfDouble(a, Pow2(s - 1));
        OrOfDisjoint(a / 2, b / 2, s - 1);
      }
    }
  }

  lemma {:induction false} OrZero(a: nat)
    ensures Or(a, 0) == a
  {
    if a != 0 {
      OrZero(a / 2);
    }
  }

  /** `(x >> s) & 1` reads bit `s`. */
  lemma ReadBit(x: nat, s: nat)
    ensures Shr(x, s) >= 0 && And(Shr(x, s), 1) == if Bit(x, s) then 1 else 0
  {
    ShrBound(x, s);
    ShrBit(x, s, 0);
    AndZero(Shr(x, s) / 2);
  }

  /** `1 << s` has only bit `s`. */
  lemma OneBit(s: nat, width: nat, j: nat)
    requires s < width
    ensures Bit(Shl(1, s, width), j) == (j == s)
  {
    ShlBit(1, s, width, j);
    if j > s {
      ZeroBit(j - s - 1);
    }
  }

  lemma ShlOne(s: nat, width: nat)
    requires s < width
    ensures Shl(1, s, width) == Pow2(s)
  {
    Pow2Grows(s + 1, width);
    DivModUnique(Pow2(s), Pow2(width), 0, Pow2(s));
  }
}
