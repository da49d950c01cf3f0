/**
 Go's bitwise operators on non-negative integers, defined bit by bit, and
 the arithmetic each use of them in the PER codec amounts to.

 The codec's operations are written with division, remainder and addition;
 the lemmas at the end of this module say why each of those computes what
 the shift, mask or flag expression in the Go code computes.
 */
module Bits {

  /** 2 to the power `k`. */
  function Pow2(k: nat): (r: nat)
    ensures r >= 1
  {
    if k == 0 then 1 else 2 * Pow2(k - 1)
  }

  /** `a & b`: a bit is set in the result when it is set in both. */
  function BitAnd(a: nat, b: nat): (r: nat)
    ensures r <= a && r <= b
    decreases a
  {
    if a == 0 || b == 0 then 0
    else 2 * BitAnd(a / 2, b / 2) + (if a % 2 == 1 && b % 2 == 1 then 1 else 0)
  }

  /** `a | b`: a bit is set in the result when it is set in either. */
  function BitOr(a: nat, b: nat): (r: nat)
    ensures r <= a + b
    decreases a + b
  {
    if a == 0 then b
    else if b == 0 then a
    else 2 * BitOr(a / 2, b / 2) + (if a % 2 == 1 || b % 2 == 1 then 1 else 0)
  }

  lemma AtLeastOnce(d: int, k: int)
    requires d > 0 && k >= 1
    ensures d * k >= d
  {
  }

  /** A quotient and remainder that add back up to `b` are the quotient and remainder. */
  lemma DivModUnique(b: int, d: int, q: int, m: int)
    requires d > 0 && 0 <= m < d && b == d * q + m
    ensures b / d == q && b % d == m
  {
    var q', m' := b / d, b % d;
    assert d * (q - q') == m' - m;
    if q > q' {
      AtLeastOnce(d, q - q');
    } else if q < q' {
      AtLeastOnce(d, q' - q);
    }
  }

  /** Halving and then dividing by `p` is dividing by `2 * p`; the remainders line up too. */
  lemma DivideTwice(b: nat, p: nat)
    requires p >= 1
    ensures b / 2 / p == b / (2 * p)
    ensures b % (2 * p) == 2 * ((b / 2) % p) + b % 2
  {
    var h := b / 2;
    var q := h / p;
    var m := h % p;
    assert h == p * q + m;
    assert b == (2 * p) * q + (2 * m + b % 2);
    DivModUnique(b, 2 * p, q, 2 * m + b % 2);
  }

  /** A multiple of `2^k`, for `k` at least 1, is even and halves to a multiple of `2^(k-1)`. */
  lemma HalveMultiple(x: nat, k: nat)
    requires k >= 1
    ensures (x * Pow2(k)) / 2 == x * Pow2(k - 1)
    ensures (x * Pow2(k)) % 2 == 0
  {
    assert x * Pow2(k) == 2 * (x * Pow2(k - 1));
    DivModUnique(x * Pow2(k), 2, x * Pow2(k - 1), 0);
  }

  /** Masking a multiple of `2^k` with a number below `2^k` gives 0: the two share no bits. */
  lemma {:induction false} AndOfDisjoint(x: nat, y: nat, k: nat)
    requires y < Pow2(k)
    ensures BitAnd(x * Pow2(k), y) == 0
  {
    if k > 0 && x > 0 && y > 0 {
      HalveMultiple(x, k);
      AndOfDisjoint(x, y / 2, k - 1);
    }
  }

  /** Or-ing a multiple of `2^k` with a number below `2^k` is their sum. */
  lemma {:induction false} OrOfDisjoint(x: nat, y: nat, k: nat)
    requires y < Pow2(k)
    ensures BitOr(x * Pow2(k), y) == x * Pow2(k) + y
  {
    if k > 0 && x > 0 && y > 0 {
      HalveMultiple(x, k);
      OrOfDisjoint(x, y / 2, k - 1);
    }
  }

  /** Masking with `2^k - 1` keeps the remainder by `2^k`. */
  lemma {:induction false} MaskLow(b: nat, k: nat)
    ensures BitAnd(b, Pow2(k) - 1) == b % Pow2(k)
  {
    if k > 0 && b > 0 {
      var p := Pow2(k - 1);
      var mask := Pow2(k) - 1;
      assert mask == 2 * (p - 1) + 1;
      DivModUnique(mask, 2, p - 1, 1);
      assert BitAnd(b, mask) == 2 * BitAnd(b / 2, p - 1) + b % 2;
      MaskLow(b / 2, k - 1);
      assert BitAnd(b / 2, p - 1) == (b / 2) % p;
      DivideTwice(b, p);
      assert b % Pow2(k) == b % (2 * p);
    } else if k > 0 {
      DivModUnique(0, Pow2(k), 0, 0);
    }
  }

  /** Masking with the single bit `2^k` tests that bit. */
  lemma {:induction false} AndOfPower(b: nat, k: nat)
    ensures BitAnd(b, Pow2(k)) == if (b / Pow2(k)) % 2 == 1 then Pow2(k) else 0
  {
    if k > 0 && b > 0 {
      var p := Pow2(k - 1);
      DivModUnique(Pow2(k), 2, p, 0);
      assert BitAnd(b, Pow2(k)) == 2 * BitAnd(b / 2, p);
      AndOfPower(b / 2, k - 1);
      DivideTwice(b, p);
    } else if k > 0 {
      DivModUnique(0, Pow2(k), 0, 0);
    }
  }

  /** Or-ing in the single bit `2^k` adds it unless it is already set. */
  lemma {:induction false} OrOfPower(b: nat, k: nat)
    ensures BitOr(b, Pow2(k)) == if (b / Pow2(k)) % 2 == 1 then b else b + Pow2(k)
  {
    if k > 0 && b > 0 {
      var p := Pow2(k - 1);
      DivModUnique(Pow2(k), 2, p, 0);
      assert BitOr(b, Pow2(k)) == 2 * BitOr(b / 2, p) + b % 2;
      OrOfPower(b / 2, k - 1);
      DivideTwice(b, p);
    } else if k > 0 {
      DivModUnique(0, Pow2(k), 0, 0);
    }
  }

  // ---------------------------------------------------------------------------
  // The bit expressions of the PER codec

  lemma BitWeights()
    ensures Pow2(4) == 0x10 && Pow2(7) == 0x80 && Pow2(15) == 0x8000
  {
    assert Pow2(2) == 4;
    assert Pow2(4) == 0x10;
    assert Pow2(6) == 0x40;
    assert Pow2(7) == 0x80;
    assert Pow2(9) == 0x200;
    assert Pow2(11) == 0x800;
    assert Pow2(13) == 0x2000;
  }

  /**
   Setting the length flag `value | 0x8000` on a 16-bit value adds 0x8000
   unless the flag bit is already set.
   */
  lemma SetLengthFlag(value: nat)
    requires value <= 0xFFFF
    ensures BitOr(value, 0x8000) == if value >= 0x8000 then value else value + 0x8000
  {
    BitWeights();
    OrOfPower(value, 15);
    assert value / 0x8000 == if value >= 0x8000 then 1 else 0;
  }

  /**
   On a byte, `b & 0x80 > 0` holds exactly when `b` is at least 0x80, and
   `b &^ 0x80` (that is, `b & 0x7F`) then takes 0x80 off.
   */
  lemma ClearLengthFlag(b: nat)
    requires b <= 0xFF
    ensures BitAnd(b, 0x80) > 0 <==> b >= 0x80
    ensures b >= 0x80 ==> BitAnd(b, 0x7F) == b - 0x80
  {
    BitWeights();
    AndOfPower(b, 7);
    MaskLow(b, 7);
    assert b / 0x80 == if b >= 0x80 then 1 else 0;
    assert b % 0x80 == if b >= 0x80 then b - 0x80 else b;
  }

  /** Two digits joined by `(c1 << 4) | c2` make the byte `16 * c1 + c2`. */
  lemma JoinNibbles(c1: nat, c2: nat)
    requires c2 < 16
    ensures BitOr(c1 * 16, c2) == 16 * c1 + c2
  {
    BitWeights();
    OrOfDisjoint(c1, c2, 4);
  }

  /** `(b >> 4) & 0x0f` and `b & 0x0f` split a byte into its quotient and remainder by 16. */
  lemma SplitNibbles(b: nat)
    requires b <= 0xFF
    ensures BitAnd(b / 16, 0x0F) == b / 16
    ensures BitAnd(b, 0x0F) == b % 16
  {
    BitWeights();
    MaskLow(b / 16, 4);
    MaskLow(b, 4);
  }

  /** `oid0 << 4` on a byte keeps the low four bits of `oid0`, moved up. */
  lemma ByteShiftLeftFour(oid0: nat)
    ensures (oid0 * 16) % 0x100 == (oid0 % 16) * 16
  {
    var q := oid0 / 16;
    assert oid0 * 16 == 0x100 * q + (oid0 % 16) * 16;
  }

  /**
   `(oid0 << 4) & (oid1 & 0x0f)` on bytes is always 0: the shifted value has
   only high bits and the masked one only low bits.
   */
  lemma PackedOidIsZero(oid0: nat, oid1: nat)
    ensures BitAnd((oid0 * 16) % 0x100, BitAnd(oid1, 0x0F)) == 0
  {
    ByteShiftLeftFour(oid0);
    BitWeights();
    AndOfDisjoint(oid0 % 16, BitAnd(oid1, 0x0F), 4);
  }

  /**
   `(oid0 << 4) | (oid1 & 0x0f)` on bytes joins the low nibbles of the two
   into one byte, `oid0`'s above `oid1`'s.
   */
  lemma PackedOidOr(oid0: nat, oid1: nat)
    requires oid0 <= 0xFF && oid1 <= 0xFF
    ensures BitOr((oid0 * 16) % 0x100, BitAnd(oid1, 0x0F)) == 16 * (oid0 % 16) + oid1 % 16
  {
    ByteShiftLeftFour(oid0);
    SplitNibbles(oid1);
    JoinNibbles(oid0 % 16, oid1 % 16);
  }
}
