/** Unsigned words as naturals, with the shift and mask operators of the source defined bit by bit. */
module Bits {
  import opened Bytes

  function Pow2(n: nat): (power: nat)
    ensures power > 0
  {
    if n == 0 then 1 else 2 * Pow2(n - 1)
  }

  predicate Bit(v: nat, p: nat) {
    if p == 0 then v % 2 == 1 else Bit(v / 2, p - 1)
  }

  function Shl(v: nat, k: nat): nat {
    if k == 0 then v else 2 * Shl(v, k - 1)
  }

  function Shr(v: nat, k: nat): nat {
    if k == 0 then v else Shr(v / 2, k - 1)
  }

  function And(a: nat, b: nat): nat {
    if a == 0 || b == 0 then 0
    else 2 * And(a / 2, b / 2) + (if a % 2 == 1 && b % 2 == 1 then 1 else 0)
  }

  function Or(a: nat, b: nat): nat {
    if a == 0 && b == 0 then 0
    else 2 * Or(a / 2, b / 2) + (if a % 2 == 1 || b % 2 == 1 then 1 else 0)
  }

  /** The complement in a word of `width` bits. */
  function Not(a: nat, width: nat): nat {
    if width == 0 then 0 else 2 * Not(a / 2, width - 1) + (1 - a % 2)
  }

  lemma {:induction false} BitOfZero(p: nat)
    ensures !Bit(0, p)
  {
    if p > 0 {
      BitOfZero(p - 1);
    }
  }

  lemma {:induction false} BitShl(v: nat, k: nat, p: nat)
    ensures Bit(Shl(v, k), p) <==> p >= k && Bit(v, p - k)
  {
    if k > 0 && p > 0 {
      BitShl(v, k - 1, p - 1);
    }
  }

  lemma {:induction false} BitShr(v: nat, k: nat, p: nat)
    ensures Bit(Shr(v, k), p) <==> Bit(v, p + k)
  {
    if k > 0 {
      BitShr(v / 2, k - 1, p);
    }
  }

  lemma {:induction false} BitAnd(a: nat, b: nat, p: nat)
    ensures Bit(And(a, b), p) <==> Bit(a, p) && Bit(b, p)
  {
    BitOfZero(p);
    if a != 0 && b != 0 && p > 0 {
      BitAnd(a / 2, b / 2, p - 1);
    }
  }

  lemma {:induction false} BitOr(a: nat, b: nat, p: nat)
    ensures Bit(Or(a, b), p) <==> Bit(a, p) || Bit(b, p)
  {
    BitOfZero(p);
    if (a != 0 || b != 0) && p > 0 {
      BitOr(a / 2, b / 2, p - 1);
    }
  }

  lemma {:induction false} BitNot(a: nat, width: nat, p: nat)
    ensures Bit(Not(a, width), p) <==> p < width && !Bit(a, p)
  {
    if width == 0 {
      BitOfZero(p);
    } else if p > 0 {
      BitNot(a / 2, width - 1, p - 1);
    }
  }

  lemma {:induction false} BitOfMask(width: nat, p: nat)
    ensures Bit(Pow2(width) - 1, p) <==> p < width
  {
    if width == 0 {
      BitOfZero(p);
    } else if p > 0 {
      BitOfMask(width - 1, p - 1);
    }
  }

  lemma {:induction false} BitBeyond(v: nat, n: nat, p: nat)
    requires v < Pow2(n) && n <= p
    ensures !Bit(v, p)
  {
    if n == 0 {
      BitOfZero(p);
    } else {
      BitBeyond(v / 2, n - 1, p - 1);
    }
  }

  /** The bits of a number put together from a high and a low part. */
  lemma {:induction false} BitOfSum(high: nat, low: nat, n: nat, p: nat)
    requires low < Pow2(n)
    ensures Bit(Pow2(n) * high + low, p) <==> if p < n then Bit(low, p) else Bit(high, p - n)
  {
    if n > 0 {
      var half := Pow2(n - 1) * high;
      assert Pow2(n) * high == 2 * half;
      assert (2 * half + low) / 2 == half + low / 2 && (2 * half + low) % 2 == low % 2;
      if p > 0 {
        BitOfSum(high, low / 2, n - 1, p - 1);
      }
    }
  }

  /** A word is determined by its bits. */
  lemma {:induction false} BitsDetermine(a: nat, b: nat)
    requires forall p: nat :: Bit(a, p) == Bit(b, p)
    ensures a == b
    decreases a + b
  {
    if a + b > 0 {
      assert Bit(a, 0) == Bit(b, 0);
      forall p: nat
        ensures Bit(a / 2, p) == Bit(b / 2, p)
      {
        assert Bit(a, p + 1) == Bit(b, p + 1);
      }
      BitsDetermine(a / 2, b / 2);
    }
  }

  lemma {:induction false} SameWord(a: nat, b: nat, n: nat)
    requires a < Pow2(n) && b < Pow2(n)
    requires forall p: nat :: p < n ==> Bit(a, p) == Bit(b, p)
    ensures a == b
  {
    forall p: nat
      ensures Bit(a, p) == Bit(b, p)
    {
      if p >= n {
        BitBeyond(a, n, p);
        BitBeyond(b, n, p);
      }
    }
    BitsDetermine(a, b);
  }

  lemma {:induction false} BoundedByBits(v: nat, n: nat)
    requires forall p: nat :: p >= n ==> !Bit(v, p)
    ensures v < Pow2(n)
    decreases n
  {
    if n == 0 {
      forall p: nat
        ensures Bit(v, p) == Bit(0, p)
      {
        BitOfZero(p);
      }
      BitsDetermine(v, 0);
    } else {
      forall p: nat | p >= n - 1
        ensures !Bit(v / 2, p)
      {
        assert !Bit(v, p + 1);
      }
      BoundedByBits(v / 2, n - 1);
    }
  }

  lemma {:induction false} AndBelow(a: nat, b: nat)
    ensures And(a, b) <= a
  {
    if a != 0 && b != 0 {
      AndBelow(a / 2, b / 2);
    }
  }

  lemma {:induction false} ByteAnd(byte: Byte, mask: Byte)
    ensures And(byte, mask) <= byte && And(byte, mask) < 256
  {
    AndBelow(byte, mask);
  }

  /** The masked byte of the source: `byte & mask`. */
  function Masked(byte: Byte, mask: Byte): (r: Byte) {
    ByteAnd(byte, mask);
    And(byte, mask)
  }

  /** The two masks the pattern compiler singles out: nothing selected, everything selected. */
  lemma {:induction false} MaskExtremes(byte: Byte)
    ensures Masked(byte, 0) == 0 && Masked(byte, 255) == byte
  {
    forall p: nat
      ensures Bit(And(byte, 255), p) == Bit(byte, p)
    {
      BitAnd(byte, 255, p);
      BitOfMask(8, p);
      assert Pow2(8) == 256;
      if p >= 8 {
        BitBeyond(byte, 8, p);
      }
    }
    BitsDetermine(And(byte, 255), byte);
  }
}
