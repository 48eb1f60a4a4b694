/** Machine words: naturals below a power of two, with the bit operations the sources use defined on
    binary digits. A word is the set of its bit positions. */
module Words {

  function Pow2(k: nat): (p: nat)
    ensures p > 0
  {
    if k == 0 then 1 else 2 * Pow2(k - 1)
  }

  type u64 = w: nat | w < Pow2(64)
  type u32 = w: nat | w < Pow2(32)

  predicate Has(w: nat, i: nat) {
    if i == 0 then w % 2 == 1 else Has(w / 2, i - 1)
  }

  /** `a | b` */
  function Or(a: nat, b: nat): nat
    decreases a + b
  {
    if a == 0 && b == 0 then 0
    else (if a % 2 == 1 || b % 2 == 1 then 1 else 0) + 2 * Or(a / 2, b / 2)
  }

  /** `a & b` */
  function And(a: nat, b: nat): nat
    decreases a
  {
    if a == 0 then 0
    else (if a % 2 == 1 && b % 2 == 1 then 1 else 0) + 2 * And(a / 2, b / 2)
  }

  /** `a & !b` */
  function AndNot(a: nat, b: nat): nat
    decreases a
  {
    if a == 0 then 0
    else (if a % 2 == 1 && b % 2 == 0 then 1 else 0) + 2 * AndNot(a / 2, b / 2)
  }

  /** `w.trailing_zeros()` of a nonzero word. */
  function TrailingZeros(w: nat): nat
    requires w > 0
  {
    if w % 2 == 1 then 0 else 1 + TrailingZeros(w / 2)
  }

  lemma {:induction false} HasZero(i: nat)
    ensures !Has(0, i)
  {
    if i > 0 {
      HasZero(i - 1);
    }
  }

  lemma {:induction false} HasOr(a: nat, b: nat, i: nat)
    ensures Has(Or(a, b), i) <==> Has(a, i) || Has(b, i)
    decreases i
  {
    if a == 0 && b == 0 {
      HasZero(i);
    } else if i > 0 {
      assert Or(a, b) / 2 == Or(a / 2, b / 2);
      HasOr(a / 2, b / 2, i - 1);
    }
  }

  lemma {:induction false} HasAnd(a: nat, b: nat, i: nat)
    ensures Has(And(a, b), i) <==> Has(a, i) && Has(b, i)
    decreases i
  {
    if a == 0 {
      HasZero(i);
    } else if i > 0 {
      assert And(a, b) / 2 == And(a / 2, b / 2);
      HasAnd(a / 2, b / 2, i - 1);
    }
  }

  lemma {:induction false} HasAndNot(a: nat, b: nat, i: nat)
    ensures Has(AndNot(a, b), i) <==> Has(a, i) && !Has(b, i)
    decreases i
  {
    if a == 0 {
      HasZero(i);
    } else if i > 0 {
      assert AndNot(a, b) / 2 == AndNot(a / 2, b / 2);
      HasAndNot(a / 2, b / 2, i - 1);
    }
  }

  /** `1 << i` has bit `i` and no other. */
  lemma {:induction false} HasPow2(i: nat, j: nat)
    ensures Has(Pow2(i), j) <==> i == j
    decreases j
  {
    if i == 0 {
      if j > 0 {
        HasZero(j - 1);
      }
    } else if j > 0 {
      assert Pow2(i) / 2 == Pow2(i - 1);
      HasPow2(i - 1, j - 1);
    }
  }

  lemma {:induction false} HasTrailingZeros(w: nat, j: nat)
    requires w > 0
    ensures Has(w, TrailingZeros(w))
    ensures j < TrailingZeros(w) ==> !Has(w, j)
    decreases w
  {
    if w % 2 == 0 {
      HasTrailingZeros(w / 2, if j > 0 then j - 1 else 0);
    }
  }

  /** `w & (w - 1)` drops the lowest set bit and nothing else. */
  lemma {:induction false} ClearLowest(w: nat, j: nat)
    requires w > 0
    ensures Has(And(w, w - 1), j) <==> Has(w, j) && j != TrailingZeros(w)
    ensures And(w, w - 1) < w
    decreases w
  {
    if w % 2 == 1 {
      AndSelf(w / 2);
      assert (w - 1) / 2 == w / 2;
      assert And(w, w - 1) == w - 1;
      if j > 0 {
        assert (w - 1) / 2 == w / 2;
      }
    } else {
      assert (w - 1) / 2 == w / 2 - 1;
      assert And(w, w - 1) == 2 * And(w / 2, w / 2 - 1);
      if j == 0 {
        ClearLowest(w / 2, 0);
      } else {
        ClearLowest(w / 2, j - 1);
      }
    }
  }

  lemma {:induction false} AndSelf(w: nat)
    ensures And(w, w) == w
  {
    if w > 0 {
      AndSelf(w / 2);
    }
  }

  // ----- Words stay within their width -----

  lemma {:induction false} Pow2Monotone(i: nat, k: nat)
    requires i < k
    ensures Pow2(i) < Pow2(k)
    decreases k
  {
    if i + 1 < k {
      Pow2Monotone(i, k - 1);
    }
  }

  lemma {:induction false} OrFits(a: nat, b: nat, k: nat)
    requires a < Pow2(k) && b < Pow2(k)
    ensures Or(a, b) < Pow2(k)
    decreases k
  {
    if k > 0 && (a > 0 || b > 0) {
      OrFits(a / 2, b / 2, k - 1);
    }
  }

  lemma {:induction false} AndBelow(a: nat, b: nat)
    ensures And(a, b) <= a
    decreases a
  {
    if a > 0 {
      AndBelow(a / 2, b / 2);
    }
  }

  lemma {:induction false} AndNotBelow(a: nat, b: nat)
    ensures AndNot(a, b) <= a
    decreases a
  {
    if a > 0 {
      AndNotBelow(a / 2, b / 2);
    }
  }

  /** Bits at or above the width of a word are not set. */
  lemma {:induction false} HasBelowWidth(w: nat, k: nat, i: nat)
    requires w < Pow2(k) && Has(w, i)
    ensures i < k
    decreases i
  {
    if k == 0 {
      HasZero(i);
    } else if i > 0 {
      HasBelowWidth(w / 2, k - 1, i - 1);
    }
  }

  function Bit64(i: nat): u64
    requires i < 64
  {
    Pow2Monotone(i, 64);
    Pow2(i)
  }

  function Bit32(i: nat): u32
    requires i < 32
  {
    Pow2Monotone(i, 32);
    Pow2(i)
  }

  function Or64(a: u64, b: u64): u64 {
    OrFits(a, b, 64);
    Or(a, b)
  }

  function Or32(a: u32, b: u32): u32 {
    OrFits(a, b, 32);
    Or(a, b)
  }

  function AndNot64(a: u64, b: u64): u64 {
    AndNotBelow(a, b);
    AndNot(a, b)
  }

  function And64(a: u64, b: u64): u64 {
    AndBelow(a, b);
    And(a, b)
  }

  /** The word of `width` bits in which bit `i` says whether `bit(base + i)`. */
  function WordOf(bit: nat -> bool, base: nat, width: nat): (w: nat)
    ensures w < Pow2(width)
    decreases width, base
  {
    if width == 0 then 0 else (if bit(base) then 1 else 0) + 2 * WordOf(bit, base + 1, width - 1)
  }

  lemma {:induction false} HasWordOf(bit: nat -> bool, base: nat, width: nat, i: nat)
    ensures Has(WordOf(bit, base, width), i) <==> i < width && bit(base + i)
    decreases width
  {
    if width == 0 {
      HasZero(i);
    } else if i > 0 {
      assert WordOf(bit, base, width) / 2 == WordOf(bit, base + 1, width - 1);
      HasWordOf(bit, base + 1, width - 1, i - 1);
    }
  }
}
