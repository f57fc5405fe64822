/**
 `QCefContextMenuEditFlags`: the actions supported by the editable node the
 context menu was invoked on. Eight combinable single-bit flags; NONE is the
 empty mask.
 */
module EditFlags {
  import opened BitMask

  datatype EditFlag =
    | CanUndo
    | CanRedo
    | CanCut
    | CanCopy
    | CanPaste
    | CanDelete
    | CanSelectAll
    | CanTranslate

  /** Number of bits the flags occupy. */
  const Width: nat := 8

  /** QCM_EDITFLAG_NONE: no edit action is available. */
  const NoneMask: nat := 0

  /** The bit position of each flag. */
  function Bit(f: EditFlag): (k: nat)
    ensures k < Width
  {
    match f
    case CanUndo => 0
    case CanRedo => 1
    case CanCut => 2
    case CanCopy => 3
    case CanPaste => 4
    case CanDelete => 5
    case CanSelectAll => 6
    case CanTranslate => 7
  }

  /** The flag at a bit position; the inverse of `Bit`. */
  function FlagAt(k: nat): (f: EditFlag)
    requires k < Width
    ensures Bit(f) == k
  {
    if k == 0 then CanUndo
    else if k == 1 then CanRedo
    else if k == 2 then CanCut
    else if k == 3 then CanCopy
    else if k == 4 then CanPaste
    else if k == 5 then CanDelete
    else if k == 6 then CanSelectAll
    else CanTranslate
  }

  /** The constant the header gives each flag. */
  function Value(f: EditFlag): nat
  {
    match f
    case CanUndo => 1
    case CanRedo => 2
    case CanCut => 4
    case CanCopy => 8
    case CanPaste => 16
    case CanDelete => 32
    case CanSelectAll => 64
    case CanTranslate => 128
  }

  /** The bit positions of a set of flags. */
  function Positions(s: set<EditFlag>): set<nat>
  {
    set k: nat | k < Width && FlagAt(k) in s
  }

  /** The mask of a set of flags: the OR of their values. */
  function Mask(s: set<EditFlag>): nat
  {
    MaskOf(Positions(s), Width)
  }

  /** True iff `f` is set in `m`, i.e. `(m & f) != 0`. */
  predicate Has(m: nat, f: EditFlag)
  {
    BitSet(m, Bit(f))
  }

  /** The flags set in `m`; bits above the known flags are ignored. */
  function FromMask(m: nat): set<EditFlag>
  {
    set k: nat | k < Width && BitSet(m, k) :: FlagAt(k)
  }

  /** Each header constant is `1 << Bit(f)`. */
  lemma ValueIsPow2(f: EditFlag)
    ensures Value(f) == Pow2(Bit(f))
  {
    match f {
      case CanUndo => assert Pow2(0) == 1;
      case CanRedo => assert Pow2(1) == 2;
      case CanCut => assert Pow2(2) == 4;
      case CanCopy => assert Pow2(3) == 8;
      case CanPaste => assert Pow2(4) == 16;
      case CanDelete => assert Pow2(5) == 32;
      case CanSelectAll => assert Pow2(6) == 64;
      case CanTranslate => assert Pow2(7) == 128;
    }
  }

  /** Each header constant is a mask with exactly its own bit set; so the
      values are pairwise distinct and share no bit. */
  lemma ValueIsSingleBit(f: EditFlag, k: nat)
    ensures Value(f) == Pow2(Bit(f))
    ensures BitSet(Value(f), k) <==> k == Bit(f)
  {
    ValueIsPow2(f);
    Pow2IsSingleBit(Bit(f), k);
  }

  /** Distinct flags have no bit in common. */
  lemma ValuesDisjoint(f: EditFlag, g: EditFlag, k: nat)
    requires f != g
    ensures !(BitSet(Value(f), k) && BitSet(Value(g), k))
  {
    ValueIsSingleBit(f, k);
    ValueIsSingleBit(g, k);
    assert FlagAt(Bit(f)) == f && FlagAt(Bit(g)) == g;
  }

  /** Testing each flag of an OR-ed mask recovers exactly the set it was
      built from. */
  lemma HasMask(s: set<EditFlag>, f: EditFlag)
    ensures Has(Mask(s), f) <==> f in s
  {
    MaskOfBits(Positions(s), Width, Bit(f));
    assert FlagAt(Bit(f)) == f;
  }

  /** The mask of the empty set is NONE and the mask of one flag is its
      header constant. */
  lemma MaskOfNoneAndSingle(f: EditFlag)
    ensures Mask({}) == NoneMask
    ensures Mask({f}) == Value(f)
  {
    assert Positions({}) == {};
    MaskOfNoPositions(Width);
    assert Positions({f}) == {Bit(f)} by {
      forall k: nat | k < Width
        ensures FlagAt(k) in {f} <==> k == Bit(f)
      {
        assert Bit(FlagAt(k)) == k;
      }
    }
    MaskOfOnePosition(Bit(f), Width);
    ValueIsPow2(f);
  }

  /** OR-ing one more flag's constant into a mask, in either operand
      order, gives the mask of the larger set; so any `A | B | ...` written
      with the header's constants is the mask of the set of those flags. */
  lemma MaskInsert(s: set<EditFlag>, f: EditFlag)
    ensures Mask(s + {f}) == Or(Mask(s), Value(f))
    ensures Mask(s + {f}) == Or(Value(f), Mask(s))
  {
    assert Positions(s + {f}) == Positions(s) + {Bit(f)} by {
      forall k: nat
        ensures k in Positions(s + {f}) <==> k in Positions(s) + {Bit(f)}
      {
        if k < Width {
          assert Bit(FlagAt(k)) == k;
        }
      }
    }
    MaskOfInsert(Positions(s), Bit(f), Width);
    ValueIsPow2(f);
    OrCommutes(Mask(s), Value(f));
  }

  /** Every mask built from the flags is below 256. */
  lemma MaskBound(s: set<EditFlag>)
    ensures Mask(s) < 256
  {
    MaskOfBelow(Positions(s), Width);
  }

  /** Set to mask and back is lossless. */
  lemma FromMaskMask(s: set<EditFlag>)
    ensures FromMask(Mask(s)) == s
  {
    forall f
      ensures f in FromMask(Mask(s)) <==> f in s
    {
      HasMask(s, f);
      assert FlagAt(Bit(f)) == f;
    }
  }

  /** Mask to set and back is lossless for every mask of the eight bits. */
  lemma MaskFromMask(m: nat)
    requires m < 256
    ensures Mask(FromMask(m)) == m
  {
    var ps := Positions(FromMask(m));
    forall k: nat
      ensures k in ps <==> k in PositionsOf(m, Width)
    {
      if k < Width && FlagAt(k) in FromMask(m) {
        var j: nat :| j < Width && BitSet(m, j) && FlagAt(j) == FlagAt(k);
        assert Bit(FlagAt(j)) == j;
      }
    }
    assert ps == PositionsOf(m, Width);
    MaskOfPositionsOf(m, Width);
  }
}
