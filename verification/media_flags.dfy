/**
 `QCefContextMenuMediaFlags`: the state of, and the actions supported by, the
 media element the context menu was invoked on. Ten combinable single-bit
 flags; NONE is the empty mask.
 */
module MediaFlags {
  import opened BitMask

  datatype MediaFlag =
    | Error
    | Paused
    | Muted
    | Loop
    | CanSave
    | HasAudio
    | HasVideo
    | ControlRootElement
    | CanPrint
    | CanRotate

  /** Number of bits the flags occupy. */
  const Width: nat := 10

  /** QCM_MEDIAFLAG_NONE: no media state bit is set. */
  const NoneMask: nat := 0

  /** The bit position of each flag. */
  function Bit(f: MediaFlag): (k: nat)
    ensures k < Width
  {
    match f
    case Error => 0
    case Paused => 1
    case Muted => 2
    case Loop => 3
    case CanSave => 4
    case HasAudio => 5
    case HasVideo => 6
    case ControlRootElement => 7
    case CanPrint => 8
    case CanRotate => 9
  }

  /** The flag at a bit position; the inverse of `Bit`. */
  function FlagAt(k: nat): (f: MediaFlag)
    requires k < Width
    ensures Bit(f) == k
  {
    if k == 0 then Error
    else if k == 1 then Paused
    else if k == 2 then Muted
    else if k == 3 then Loop
    else if k == 4 then CanSave
    else if k == 5 then HasAudio
    else if k == 6 then HasVideo
    else if k == 7 then ControlRootElement
    else if k == 8 then CanPrint
    else CanRotate
  }

  /** The constant the header gives each flag. */
  function Value(f: MediaFlag): nat
  {
    match f
    case Error => 1
    case Paused => 2
    case Muted => 4
    case Loop => 8
    case CanSave => 16
    case HasAudio => 32
    case HasVideo => 64
    case ControlRootElement => 128
    case CanPrint => 256
    case CanRotate => 512
  }

  /** The bit positions of a set of flags. */
  function Positions(s: set<MediaFlag>): set<nat>
  {
    set k: nat | k < Width && FlagAt(k) in s
  }

  /** The mask of a set of flags: the OR of their values. */
  function Mask(s: set<MediaFlag>): nat
  {
    MaskOf(Positions(s), Width)
  }

  /** True iff `f` is set in `m`, i.e. `(m & f) != 0`. */
  predicate Has(m: nat, f: MediaFlag)
  {
    BitSet(m, Bit(f))
  }

  /** The flags set in `m`; bits above the known flags are ignored. */
  function FromMask(m: nat): set<MediaFlag>
  {
    set k: nat | k < Width && BitSet(m, k) :: FlagAt(k)
  }

  /** Each header constant is `1 << Bit(f)`. */
  lemma ValueIsPow2(f: MediaFlag)
    ensures Value(f) == Pow2(Bit(f))
  {
    match f {
      case Error => assert Pow2(0) == 1;
      case Paused => assert Pow2(1) == 2;
      case Muted => assert Pow2(2) == 4;
      case Loop => assert Pow2(3) == 8;
      case CanSave => assert Pow2(4) == 16;
      case HasAudio => assert Pow2(5) == 32;
      case HasVideo => assert Pow2(6) == 64;
      case ControlRootElement => assert Pow2(7) == 128;
      case CanPrint => assert Pow2(8) == 256;
      case CanRotate => assert Pow2(9) == 512;
    }
  }

  /** Each header constant is a mask with exactly its own bit set; so the
      values are pairwise distinct and share no bit. */
  lemma ValueIsSingleBit(f: MediaFlag, k: nat)
    ensures Value(f) == Pow2(Bit(f))
    ensures BitSet(Value(f), k) <==> k == Bit(f)
  {
    ValueIsPow2(f);
    Pow2IsSingleBit(Bit(f), k);
  }

  /** Distinct flags have no bit in common. */
  lemma ValuesDisjoint(f: MediaFlag, g: MediaFlag, k: nat)
    requires f != g
    ensures !(BitSet(Value(f), k) && BitSet(Value(g), k))
  {
    ValueIsSingleBit(f, k);
    ValueIsSingleBit(g, k);
    assert FlagAt(Bit(f)) == f && FlagAt(Bit(g)) == g;
  }

  /** Testing each flag of an OR-ed mask recovers exactly the set it was
      built from. */
  lemma HasMask(s: set<MediaFlag>, f: MediaFlag)
    ensures Has(Mask(s), f) <==> f in s
  {
    MaskOfBits(Positions(s), Width, Bit(f));
    assert FlagAt(Bit(f)) == f;
  }

  /** The mask of the empty set is NONE and the mask of one flag is its
      header constant. */
  lemma MaskOfNoneAndSingle(f: MediaFlag)
    ensures Mask({}) == NoneMask
    ensures Mask({f}) == Value(f)
  {
    assert Positions({}) == {};
    MaskOfNoPositions(Width);
    assert Positions({f}) == {Bit(f)} by {
      forall k: nat | k < Width
        ensures FlagAt(k) in {f} <==> k == Bit(f)
      {
        assert Bit(FlagAt(k)) == k;
      }
    }
    MaskOfOnePosition(Bit(f), Width);
    ValueIsPow2(f);
  }

  /** OR-ing one more flag's constant into a mask, in either operand
      order, gives the mask of the larger set; so any `A | B | ...` written
      with the header's constants is the mask of the set of those flags. */
  lemma MaskInsert(s: set<MediaFlag>, f: MediaFlag)
    ensures Mask(s + {f}) == Or(Mask(s), Value(f))
    ensures Mask(s + {f}) == Or(Value(f), Mask(s))
  {
    assert Positions(s + {f}) == Positions(s) + {Bit(f)} by {
      forall k: nat
        ensures k in Positions(s + {f}) <==> k in Positions(s) + {Bit(f)}
      {
        if k < Width {
          assert Bit(FlagAt(k)) == k;
        }
      }
    }
    MaskOfInsert(Positions(s), Bit(f), Width);
    ValueIsPow2(f);
    OrCommutes(Mask(s), Value(f));
  }

  /** Every mask built from the flags is below 1024. */
  lemma MaskBound(s: set<MediaFlag>)
    ensures Mask(s) < 1024
  {
    MaskOfBelow(Positions(s), Width);
  }

  /** Set to mask and back is lossless. */
  lemma FromMaskMask(s: set<MediaFlag>)
    ensures FromMask(Mask(s)) == s
  {
    forall f
      ensures f in FromMask(Mask(s)) <==> f in s
    {
      HasMask(s, f);
      assert FlagAt(Bit(f)) == f;
    }
  }

  /** Mask to set and back is lossless for every mask of the ten bits. */
  lemma MaskFromMask(m: nat)
    requires m < 1024
    ensures Mask(FromMask(m)) == m
  {
    var ps := Positions(FromMask(m));
    forall k: nat
      ensures k in ps <==> k in PositionsOf(m, Width)
    {
      if k < Width && FlagAt(k) in FromMask(m) {
        var j: nat :| j < Width && BitSet(m, j) && FlagAt(j) == FlagAt(k);
        assert Bit(FlagAt(j)) == j;
      }
    }
    assert ps == PositionsOf(m, Width);
    MaskOfPositionsOf(m, Width);
  }
}
