/**
 Bit masks over non-negative integers: the arithmetic behind the header's
 `1 << k` flag constants and the masks built from them with `|`.

 A mask is a `nat`. Testing a bit (`(m >> k) & 1`) and OR-ing two masks are
 written out one bit at a time, so that every fact about flags below is a
 fact about these two definitions rather than an appeal to machine words.
 */
module BitMask {

  /** The value of the single-bit mask `1 << k`. */
  function Pow2(k: nat): (r: nat)
    ensures r >= 1
  {
    if k == 0 then 1 else 2 * Pow2(k - 1)
  }

  /** True iff bit `k` of `m` is set, i.e. `((m >> k) & 1) == 1`. */
  predicate BitSet(m: nat, k: nat)
  {
    if k == 0 then m % 2 == 1 else BitSet(m / 2, k - 1)
  }

  /** Bitwise OR of two masks, lowest bit first. */
  function Or(a: nat, b: nat): nat
    decreases a + b
  {
    if a == 0 then b
    else if b == 0 then a
    else (if a % 2 == 1 || b % 2 == 1 then 1 else 0) + 2 * Or(a / 2, b / 2)
  }

  /** The mask with exactly the bits in `ps` below `width` set: the OR of
      `1 << k` over those positions, taken in increasing order. */
  function MaskOf(ps: set<nat>, width: nat): nat
  {
    if width == 0 then 0
    else Or(MaskOf(ps, width - 1), if width - 1 in ps then Pow2(width - 1) else 0)
  }

  /** The positions below `width` whose bit is set in `m`. */
  function PositionsOf(m: nat, width: nat): set<nat>
  {
    set k: nat | k < width && BitSet(m, k)
  }

  /** The empty mask has no bit set. */
  lemma {:induction false} ZeroHasNoBits(k: nat)
    ensures !BitSet(0, k)
  {
    if k > 0 {
      ZeroHasNoBits(k - 1);
    }
  }

  /** `1 << j` has bit `k` set exactly when `j == k`. */
  lemma {:induction false} Pow2IsSingleBit(j: nat, k: nat)
    ensures BitSet(Pow2(j), k) <==> j == k
  {
    if j == 0 {
      if k > 0 {
        ZeroHasNoBits(k - 1);
      }
    } else if k > 0 {
      Pow2IsSingleBit(j - 1, k - 1);
    }
  }

  /** Powers of two grow strictly. */
  lemma {:induction false} Pow2Monotone(j: nat, k: nat)
    requires j < k
    ensures Pow2(j) < Pow2(k)
  {
    if j + 1 < k {
      Pow2Monotone(j, k - 1);
    }
  }

  /** A bit of `a | b` is set exactly when it is set in `a` or in `b`. */
  lemma {:induction false} OrBits(a: nat, b: nat, k: nat)
    ensures BitSet(Or(a, b), k) <==> BitSet(a, k) || BitSet(b, k)
    decreases a + b
  {
    if a == 0 {
      ZeroHasNoBits(k);
    } else if b == 0 {
      ZeroHasNoBits(k);
    } else {
      var c := if a % 2 == 1 || b % 2 == 1 then 1 else 0;
      var q := Or(a / 2, b / 2);
      assert Or(a, b) == c + 2 * q;
      assert (c + 2 * q) % 2 == c;
      assert (c + 2 * q) / 2 == q;
      if k > 0 {
        OrBits(a / 2, b / 2, k - 1);
      }
    }
  }

  /** A mask below `2^width` has no bit set at or above `width`. */
  lemma {:induction false} NoBitsAboveWidth(m: nat, width: nat, k: nat)
    requires m < Pow2(width)
    requires width <= k
    ensures !BitSet(m, k)
  {
    if width == 0 {
      ZeroHasNoBits(k);
    } else {
      NoBitsAboveWidth(m / 2, width - 1, k - 1);
    }
  }

  /** OR-ing two masks below `2^width` stays below `2^width`. */
  lemma {:induction false} OrBelow(a: nat, b: nat, width: nat)
    requires a < Pow2(width) && b < Pow2(width)
    ensures Or(a, b) < Pow2(width)
    decreases a + b
  {
    if a != 0 && b != 0 {
      OrBelow(a / 2, b / 2, width - 1);
    }
  }

  /** Two masks that agree on every bit are the same number. */
  lemma {:induction false} SameBitsSameMask(a: nat, b: nat)
    requires forall k: nat :: BitSet(a, k) == BitSet(b, k)
    ensures a == b
    decreases a + b
  {
    assert BitSet(a, 0) == BitSet(b, 0);
    if a + b > 0 {
      forall k: nat
        ensures BitSet(a / 2, k) == BitSet(b / 2, k)
      {
        assert BitSet(a, k + 1) == BitSet(b, k + 1);
      }
      SameBitsSameMask(a / 2, b / 2);
    }
  }

  /** Bit `k` of `MaskOf(ps, width)` is set exactly when `k` is one of the
      chosen positions below `width`. */
  lemma {:induction false} MaskOfBits(ps: set<nat>, width: nat, k: nat)
    ensures BitSet(MaskOf(ps, width), k) <==> k < width && k in ps
  {
    if width == 0 {
      ZeroHasNoBits(k);
    } else {
      var w := width - 1;
      var top := if w in ps then Pow2(w) else 0;
      OrBits(MaskOf(ps, w), top, k);
      MaskOfBits(ps, w, k);
      if w in ps {
        Pow2IsSingleBit(w, k);
      } else {
        ZeroHasNoBits(k);
      }
    }
  }

  /** Every mask built from positions below `width` is below `2^width`. */
  lemma {:induction false} MaskOfBelow(ps: set<nat>, width: nat)
    ensures MaskOf(ps, width) < Pow2(width)
  {
    if width > 0 {
      var w := width - 1;
      MaskOfBelow(ps, w);
      Pow2Monotone(w, width);
      OrBelow(MaskOf(ps, w), if w in ps then Pow2(w) else 0, width);
    }
  }

  /** No positions give the empty mask. */
  lemma MaskOfNoPositions(width: nat)
    ensures MaskOf({}, width) == 0
  {
    forall k: nat
      ensures BitSet(MaskOf({}, width), k) == BitSet(0, k)
    {
      MaskOfBits({}, width, k);
      ZeroHasNoBits(k);
    }
    SameBitsSameMask(MaskOf({}, width), 0);
  }

  /** One position below `width` gives the single-bit mask `1 << k`. */
  lemma MaskOfOnePosition(k: nat, width: nat)
    requires k < width
    ensures MaskOf({k}, width) == Pow2(k)
  {
    forall j: nat
      ensures BitSet(MaskOf({k}, width), j) == BitSet(Pow2(k), j)
    {
      MaskOfBits({k}, width, j);
      Pow2IsSingleBit(k, j);
    }
    SameBitsSameMask(MaskOf({k}, width), Pow2(k));
  }

  /** OR does not depend on the order of its operands. */
  lemma OrCommutes(a: nat, b: nat)
    ensures Or(a, b) == Or(b, a)
  {
    forall k: nat
      ensures BitSet(Or(a, b), k) == BitSet(Or(b, a), k)
    {
      OrBits(a, b, k);
      OrBits(b, a, k);
    }
    SameBitsSameMask(Or(a, b), Or(b, a));
  }

  /** Adding one position below `width` ORs its single-bit mask in. */
  lemma MaskOfInsert(ps: set<nat>, k: nat, width: nat)
    requires k < width
    ensures MaskOf(ps + {k}, width) == Or(MaskOf(ps, width), Pow2(k))
  {
    forall j: nat
      ensures BitSet(MaskOf(ps + {k}, width), j) == BitSet(Or(MaskOf(ps, width), Pow2(k)), j)
    {
      MaskOfBits(ps + {k}, width, j);
      MaskOfBits(ps, width, j);
      OrBits(MaskOf(ps, width), Pow2(k), j);
      Pow2IsSingleBit(k, j);
    }
    SameBitsSameMask(MaskOf(ps + {k}, width), Or(MaskOf(ps, width), Pow2(k)));
  }

  /** Reading the bits of a mask below `2^width` and building a mask from
      them gives back the same number. */
  lemma MaskOfPositionsOf(m: nat, width: nat)
    requires m < Pow2(width)
    ensures MaskOf(PositionsOf(m, width), width) == m
  {
    var r := MaskOf(PositionsOf(m, width), width);
    forall k: nat
      ensures BitSet(r, k) == BitSet(m, k)
    {
      MaskOfBits(PositionsOf(m, width), width, k);
      if width <= k {
        NoBitsAboveWidth(m, width, k);
      }
    }
    SameBitsSameMask(r, m);
  }
}
