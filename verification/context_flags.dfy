/**
 `QCefContextMenuFlags`: the kind of node the context menu was invoked on.
 These are combinable single-bit flags; NONE is the empty mask.
 */
module ContextFlags {
  import opened BitMask

  datatype ContextFlag = Page | Frame | Link | Media | Selection | Editable

  /** Number of bits the flags occupy. */
  const Width: nat := 6

  /** QCM_FLAG_NONE: no node is selected. */
  const NoneMask: nat := 0

  /** The bit position of each flag. */
  function Bit(f: ContextFlag): (k: nat)
    ensures k < Width
  {
    match f
    case Page => 0
    case Frame => 1
    case Link => 2
    case Media => 3
    case Selection => 4
    case Editable => 5
  }

  /** The flag at a bit position; the inverse of `Bit`. */
  function FlagAt(k: nat): (f: ContextFlag)
    requires k < Width
    ensures Bit(f) == k
  {
    if k == 0 then Page
    else if k == 1 then Frame
    else if k == 2 then Link
    else if k == 3 then Media
    else if k == 4 then Selection
    else Editable
  }

  /** The constant the header gives each flag. */
  function Value(f: ContextFlag): nat
  {
    match f
    case Page => 1
    case Frame => 2
    case Link => 4
    case Media => 8
    case Selection => 16
    case Editable => 32
  }

  /** The bit positions of a set of flags. */
  function Positions(s: set<ContextFlag>): set<nat>
  {
    set k: nat | k < Width && FlagAt(k) in s
  }

  /** The mask of a set of flags: the OR of their values. */
  function Mask(s: set<ContextFlag>): nat
  {
    MaskOf(Positions(s), Width)
  }

  /** True iff `f` is set in `m`, i.e. `(m & f) != 0`. */
  predicate Has(m: nat, f: ContextFlag)
  {
    BitSet(m, Bit(f))
  }

  /** The flags set in `m`; bits above the known flags are ignored. */
  function FromMask(m: nat): set<ContextFlag>
  {
    set k: nat | k < Width && BitSet(m, k) :: FlagAt(k)
  }

  /** Each header constant is `1 << Bit(f)`. */
  lemma ValueIsPow2(f: ContextFlag)
    ensures Value(f) == Pow2(Bit(f))
  {
    match f {
      case Page => assert Pow2(0) == 1;
      case Frame => assert Pow2(1) == 2;
      case Link => assert Pow2(2) == 4;
      case Media => assert Pow2(3) == 8;
      case Selection => assert Pow2(4) == 16;
      case Editable => assert Pow2(5) == 32;
    }
  }

  /** Each header constant is a mask with exactly its own bit set; so the
      values are pairwise distinct and share no bit. */
  lemma ValueIsSingleBit(f: ContextFlag, k: nat)
    ensures Value(f) == Pow2(Bit(f))
    ensures BitSet(Value(f), k) <==> k == Bit(f)
  {
    ValueIsPow2(f);
    Pow2IsSingleBit(Bit(f), k);
  }

  /** Distinct flags have no bit in common. */
  lemma ValuesDisjoint(f: ContextFlag, g: ContextFlag, k: nat)
    requires f != g
    ensures !(BitSet(Value(f), k) && BitSet(Value(g), k))
  {
    ValueIsSingleBit(f, k);
    ValueIsSingleBit(g, k);
    assert FlagAt(Bit(f)) == f && FlagAt(Bit(g)) == g;
  }

  /** Testing each flag of an OR-ed mask recovers exactly the set it was
      built from. */
  lemma HasMask(s: set<ContextFlag>, f: ContextFlag)
    ensures Has(Mask(s), f) <==> f in s
  {
    MaskOfBits(Positions(s), Width, Bit(f));
    assert FlagAt(Bit(f)) == f;
  }

  /** The mask of the empty set is NONE and the mask of one flag is its
      header constant. */
  lemma MaskOfNoneAndSingle(f: ContextFlag)
    ensures Mask({}) == NoneMask
    ensures Mask({f}) == Value(f)
  {
    assert Positions({}) == {};
    MaskOfNoPositions(Width);
    assert Positions({f}) == {Bit(f)} by {
      forall k: nat | k < Width
        ensures FlagAt(k) in {f} <==> k == Bit(f)
      {
        assert Bit(FlagAt(k)) == k;
      }
    }
    MaskOfOnePosition(Bit(f), Width);
    ValueIsPow2(f);
  }

  /** OR-ing one more flag's constant into a mask, in either operand
      order, gives the mask of the larger set; so any `A | B | ...` written
      with the header's constants is the mask of the set of those flags. */
  lemma MaskInsert(s: set<ContextFlag>, f: ContextFlag)
    ensures Mask(s + {f}) == Or(Mask(s), Value(f))
    ensures Mask(s + {f}) == Or(Value(f), Mask(s))
  {
    assert Positions(s + {f}) == Positions(s) + {Bit(f)} by {
      forall k: nat
        ensures k in Positions(s + {f}) <==> k in Positions(s) + {Bit(f)}
      {
        if k < Width {
          assert Bit(FlagAt(k)) == k;
        }
      }
    }
    MaskOfInsert(Positions(s), Bit(f), Width);
    ValueIsPow2(f);
    OrCommutes(Mask(s), Value(f));
  }

  /** Every mask built from the flags is below 64. */
  lemma MaskBound(s: set<ContextFlag>)
    ensures Mask(s) < 64
  {
    MaskOfBelow(Positions(s), Width);
  }

  /** Set to mask and back is lossless. */
  lemma FromMaskMask(s: set<ContextFlag>)
    ensures FromMask(Mask(s)) == s
  {
    forall f
      ensures f in FromMask(Mask(s)) <==> f in s
    {
      HasMask(s, f);
      assert FlagAt(Bit(f)) == f;
    }
  }

  /** Mask to set and back is lossless for every mask of the six bits. */
  lemma MaskFromMask(m: nat)
    requires m < 64
    ensures Mask(FromMask(m)) == m
  {
    var ps := Positions(FromMask(m));
    forall k: nat
      ensures k in ps <==> k in PositionsOf(m, Width)
    {
      if k < Width && FlagAt(k) in FromMask(m) {
        var j: nat :| j < Width && BitSet(m, j) && FlagAt(j) == FlagAt(k);
        assert Bit(FlagAt(j)) == j;
      }
    }
    assert ps == PositionsOf(m, Width);
    MaskOfPositionsOf(m, Width);
  }
}
