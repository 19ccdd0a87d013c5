/** The page-table-entry codec shared by the multi-process and the single-process
    simulators.

    An entry is one integer laid out, from the least significant bit, as
    `[frameBits bits: frame number][present][referenced][modified]`; bits above the
    modified bit are never set by the simulators but are carried along unchanged.
    Every accessor is the source's own shift-and-mask expression, written with the
    operators of `Bits`; its contract says which field it reads or writes and that
    the others keep their values. */
module PageTableDecoder {
  import opened Bits

  /** Bit positions of the three flags, above a frame field of `frameBits` bits. */
  function PresentPos(frameBits: nat): nat { frameBits }
  function ReferencedPos(frameBits: nat): nat { frameBits + 1 }
  function ModifiedPos(frameBits: nat): nat { frameBits + 2 }

  // ---------------------------------------------------------------------------
  // Getters
  // ---------------------------------------------------------------------------

  /** `(entry >> (frameBits + 2)) & 1` */
  function GetModified(frameBits: nat, entry: nat): (m: nat)
    ensures m == Bit(entry, ModifiedPos(frameBits))
    ensures IsBit(m)
  {
    AndOneIsBit(entry, frameBits + 2);
    BitIsBit(entry, frameBits + 2);
    And(Shr(entry, frameBits + 2), 1)
  }

  /** `(entry >> (frameBits + 1)) & 1` */
  function GetReferenced(frameBits: nat, entry: nat): (r: nat)
    ensures r == Bit(entry, ReferencedPos(frameBits))
    ensures IsBit(r)
  {
    AndOneIsBit(entry, frameBits + 1);
    BitIsBit(entry, frameBits + 1);
    And(Shr(entry, frameBits + 1), 1)
  }

  /** `(entry >> frameBits) & 1` */
  function GetPresent(frameBits: nat, entry: nat): (p: nat)
    ensures p == Bit(entry, PresentPos(frameBits))
    ensures IsBit(p)
  {
    AndOneIsBit(entry, frameBits);
    BitIsBit(entry, frameBits);
    And(Shr(entry, frameBits), 1)
  }

  /** `entry & ((1 << frameBits) - 1)`: the low `frameBits` bits of the entry. */
  function GetFrameNum(frameBits: nat, entry: nat): (f: nat)
    ensures f < Pow2(frameBits)
  {
    FrameFieldDigits(frameBits, entry);
    BelowPow2(And(entry, LowMask(frameBits)), frameBits);
    And(entry, LowMask(frameBits))
  }

  /** `entry & ((1 << frameBits) - 1)` keeps the low `frameBits` digits. */
  lemma FrameFieldDigits(frameBits: nat, entry: nat)
    ensures forall j: nat :: Bit(And(entry, LowMask(frameBits)), j) == if j < frameBits then Bit(entry, j) else 0
  {
    forall j: nat ensures Bit(And(entry, LowMask(frameBits)), j) == if j < frameBits then Bit(entry, j) else 0 {
      BitAnd(entry, LowMask(frameBits), j);
      BitLowMask(frameBits, j);
      BitIsBit(entry, j);
    }
  }

  /** The frame number is the entry's low `frameBits` digits and nothing else. */
  lemma FrameNumDigits(frameBits: nat, entry: nat)
    ensures forall j: nat :: Bit(GetFrameNum(frameBits, entry), j) == if j < frameBits then Bit(entry, j) else 0
  {
    FrameFieldDigits(frameBits, entry);
  }

  /** The frame field depends on the low `frameBits` bits only. */
  lemma FrameNumAgree(frameBits: nat, x: nat, y: nat)
    requires forall j: nat :: j < frameBits ==> Bit(x, j) == Bit(y, j)
    ensures GetFrameNum(frameBits, x) == GetFrameNum(frameBits, y)
  {
    var fx := GetFrameNum(frameBits, x);
    var fy := GetFrameNum(frameBits, y);
    FrameNumDigits(frameBits, x);
    FrameNumDigits(frameBits, y);
    assert forall j: nat :: Bit(fx, j) == Bit(fy, j);
    BitsEqual(fx, fy);
  }

  // ---------------------------------------------------------------------------
  // Setting and clearing one bit
  // ---------------------------------------------------------------------------

  /** `entry | (1 << k)` changes digit k to 1 and no other digit. */
  lemma SetBitDigits(entry: nat, k: nat)
    ensures forall j: nat :: Bit(Or(entry, Shl(1, k)), j) == if j == k then 1 else Bit(entry, j)
  {
    forall j: nat ensures Bit(Or(entry, Shl(1, k)), j) == if j == k then 1 else Bit(entry, j) {
      assert Shl(1, k) == Pow2(k);
      BitOr(entry, Pow2(k), j);
      BitPow2(k, j);
      BitIsBit(entry, j);
    }
  }

  /** `entry & ~(1 << k)` changes digit k to 0 and no other digit. */
  lemma ClearBitDigits(entry: nat, k: nat)
    ensures forall j: nat :: Bit(AndNot(entry, Shl(1, k)), j) == if j == k then 0 else Bit(entry, j)
  {
    forall j: nat ensures Bit(AndNot(entry, Shl(1, k)), j) == if j == k then 0 else Bit(entry, j) {
      assert Shl(1, k) == Pow2(k);
      BitAndNot(entry, Pow2(k), j);
      BitPow2(k, j);
      BitIsBit(entry, j);
    }
  }

  /** The three flags and the frame field of two entries agree everywhere except at
      digit k; a predicate shared by the contracts of the six flag mutators. */
  predicate OthersUnchanged(frameBits: nat, k: nat, before: nat, after: nat)
  {
    && (k != ModifiedPos(frameBits) ==> GetModified(frameBits, after) == GetModified(frameBits, before))
    && (k != ReferencedPos(frameBits) ==> GetReferenced(frameBits, after) == GetReferenced(frameBits, before))
    && (k != PresentPos(frameBits) ==> GetPresent(frameBits, after) == GetPresent(frameBits, before))
    && GetFrameNum(frameBits, after) == GetFrameNum(frameBits, before)
  }

  /** A digit change at or above the frame field leaves every other field alone. */
  lemma OneDigitChanged(frameBits: nat, k: nat, before: nat, after: nat)
    requires k >= frameBits
    requires forall j: nat :: j != k ==> Bit(after, j) == Bit(before, j)
    ensures OthersUnchanged(frameBits, k, before, after)
  {
    FrameNumAgree(frameBits, after, before);
  }

  /** `entry | (1 << (frameBits + 2))` */
  function SetModified(frameBits: nat, entry: nat): (e: nat)
    ensures GetModified(frameBits, e) == 1
    ensures OthersUnchanged(frameBits, ModifiedPos(frameBits), entry, e)
  {
    SetBitDigits(entry, frameBits + 2);
    OneDigitChanged(frameBits, frameBits + 2, entry, Or(entry, Shl(1, frameBits + 2)));
    Or(entry, Shl(1, frameBits + 2))
  }

  /** `entry | (1 << (frameBits + 1))` */
  function SetReferenced(frameBits: nat, entry: nat): (e: nat)
    ensures GetReferenced(frameBits, e) == 1
    ensures OthersUnchanged(frameBits, ReferencedPos(frameBits), entry, e)
  {
    SetBitDigits(entry, frameBits + 1);
    OneDigitChanged(frameBits, frameBits + 1, entry, Or(entry, Shl(1, frameBits + 1)));
    Or(entry, Shl(1, frameBits + 1))
  }

  /** `entry | (1 << frameBits)` */
  function SetPresent(frameBits: nat, entry: nat): (e: nat)
    ensures GetPresent(frameBits, e) == 1
    ensures OthersUnchanged(frameBits, PresentPos(frameBits), entry, e)
  {
    SetBitDigits(entry, frameBits);
    OneDigitChanged(frameBits, frameBits, entry, Or(entry, Shl(1, frameBits)));
    Or(entry, Shl(1, frameBits))
  }

  /** `entry & ~(1 << (frameBits + 2))` */
  function ClearModified(frameBits: nat, entry: nat): (e: nat)
    ensures GetModified(frameBits, e) == 0
    ensures OthersUnchanged(frameBits, ModifiedPos(frameBits), entry, e)
  {
    ClearBitDigits(entry, frameBits + 2);
    OneDigitChanged(frameBits, frameBits + 2, entry, AndNot(entry, Shl(1, frameBits + 2)));
    AndNot(entry, Shl(1, frameBits + 2))
  }

  /** `entry & ~(1 << (frameBits + 1))` */
  function ClearReferenced(frameBits: nat, entry: nat): (e: nat)
    ensures GetReferenced(frameBits, e) == 0
    ensures OthersUnchanged(frameBits, ReferencedPos(frameBits), entry, e)
  {
    ClearBitDigits(entry, frameBits + 1);
    OneDigitChanged(frameBits, frameBits + 1, entry, AndNot(entry, Shl(1, frameBits + 1)));
    AndNot(entry, Shl(1, frameBits + 1))
  }

  /** `entry & ~(1 << frameBits)` */
  function ClearPresent(frameBits: nat, entry: nat): (e: nat)
    ensures GetPresent(frameBits, e) == 0
    ensures OthersUnchanged(frameBits, PresentPos(frameBits), entry, e)
  {
    ClearBitDigits(entry, frameBits);
    OneDigitChanged(frameBits, frameBits, entry, AndNot(entry, Shl(1, frameBits)));
    AndNot(entry, Shl(1, frameBits))
  }

  /** `(entry & ~((1 << frameBits) - 1)) | frameNum`. The source ORs the frame number
      in unmasked, so a frame number of `frameBits` bits or more would spill into the
      flags; every caller passes a frame below `2^frameBits`, which is required here. */
  function ReplaceFrameNum(frameBits: nat, entry: nat, frameNum: nat): (e: nat)
    requires frameNum < Pow2(frameBits)
    ensures GetFrameNum(frameBits, e) == frameNum
    ensures forall j: nat :: j >= frameBits ==> Bit(e, j) == Bit(entry, j)
    ensures GetPresent(frameBits, e) == GetPresent(frameBits, entry)
    ensures GetReferenced(frameBits, e) == GetReferenced(frameBits, entry)
    ensures GetModified(frameBits, e) == GetModified(frameBits, entry)
  {
    var temp := AndNot(entry, LowMask(frameBits));
    var e := Or(temp, frameNum);
    BelowPow2(frameNum, frameBits);
    forall j: nat ensures Bit(e, j) == if j < frameBits then Bit(frameNum, j) else Bit(entry, j) {
      BitOr(temp, frameNum, j);
      BitAndNot(entry, LowMask(frameBits), j);
      BitLowMask(frameBits, j);
      BitIsBit(entry, j);
      BitIsBit(frameNum, j);
    }
    var f := GetFrameNum(frameBits, e);
    FrameNumDigits(frameBits, e);
    assert forall j: nat :: Bit(f, j) == Bit(frameNum, j);
    BitsEqual(f, frameNum);
    e
  }

  // ---------------------------------------------------------------------------
  // Properties relating several calls
  // ---------------------------------------------------------------------------

  /** The zero entry (a fresh or evicted page) has every field clear. */
  lemma ZeroEntry(frameBits: nat)
    ensures GetPresent(frameBits, 0) == 0
    ensures GetReferenced(frameBits, 0) == 0
    ensures GetModified(frameBits, 0) == 0
    ensures GetFrameNum(frameBits, 0) == 0
  {
    BitOfZero(frameBits);
    BitOfZero(frameBits + 1);
    BitOfZero(frameBits + 2);
    var f := GetFrameNum(frameBits, 0);
    forall j: nat ensures Bit(f, j) == Bit(0, j) { BitOfZero(j); }
    BitsEqual(f, 0);
  }

  /** Setting a flag twice is setting it once; clearing twice is clearing once. */
  lemma FlagUpdatesIdempotent(frameBits: nat, entry: nat)
    ensures SetModified(frameBits, SetModified(frameBits, entry)) == SetModified(frameBits, entry)
    ensures SetReferenced(frameBits, SetReferenced(frameBits, entry)) == SetReferenced(frameBits, entry)
    ensures SetPresent(frameBits, SetPresent(frameBits, entry)) == SetPresent(frameBits, entry)
    ensures ClearModified(frameBits, ClearModified(frameBits, entry)) == ClearModified(frameBits, entry)
    ensures ClearReferenced(frameBits, ClearReferenced(frameBits, entry)) == ClearReferenced(frameBits, entry)
    ensures ClearPresent(frameBits, ClearPresent(frameBits, entry)) == ClearPresent(frameBits, entry)
  {
    var k := [frameBits, frameBits + 1, frameBits + 2];
    forall i | 0 <= i < 3
      ensures Or(Or(entry, Shl(1, k[i])), Shl(1, k[i])) == Or(entry, Shl(1, k[i]))
      ensures AndNot(AndNot(entry, Shl(1, k[i])), Shl(1, k[i])) == AndNot(entry, Shl(1, k[i]))
    {
      SetBitDigits(entry, k[i]);
      SetBitDigits(Or(entry, Shl(1, k[i])), k[i]);
      BitsEqual(Or(Or(entry, Shl(1, k[i])), Shl(1, k[i])), Or(entry, Shl(1, k[i])));
      ClearBitDigits(entry, k[i]);
      ClearBitDigits(AndNot(entry, Shl(1, k[i])), k[i]);
      BitsEqual(AndNot(AndNot(entry, Shl(1, k[i])), Shl(1, k[i])), AndNot(entry, Shl(1, k[i])));
    }
    assert k[0] == frameBits && k[1] == frameBits + 1 && k[2] == frameBits + 2;
  }

  /** Setting a flag that is already set, or clearing one that is already clear,
      returns the entry itself. */
  lemma FlagUpdateNoop(frameBits: nat, entry: nat)
    ensures GetReferenced(frameBits, entry) == 1 ==> SetReferenced(frameBits, entry) == entry
    ensures GetReferenced(frameBits, entry) == 0 ==> ClearReferenced(frameBits, entry) == entry
    ensures GetModified(frameBits, entry) == 1 ==> SetModified(frameBits, entry) == entry
    ensures GetModified(frameBits, entry) == 0 ==> ClearModified(frameBits, entry) == entry
    ensures GetPresent(frameBits, entry) == 1 ==> SetPresent(frameBits, entry) == entry
    ensures GetPresent(frameBits, entry) == 0 ==> ClearPresent(frameBits, entry) == entry
  {
    var k := [frameBits, frameBits + 1, frameBits + 2];
    forall i | 0 <= i < 3
      ensures Bit(entry, k[i]) == 1 ==> Or(entry, Shl(1, k[i])) == entry
      ensures Bit(entry, k[i]) == 0 ==> AndNot(entry, Shl(1, k[i])) == entry
    {
      SetBitDigits(entry, k[i]);
      ClearBitDigits(entry, k[i]);
      if Bit(entry, k[i]) == 1 { BitsEqual(Or(entry, Shl(1, k[i])), entry); }
      if Bit(entry, k[i]) == 0 { BitsEqual(AndNot(entry, Shl(1, k[i])), entry); }
    }
    assert k[0] == frameBits && k[1] == frameBits + 1 && k[2] == frameBits + 2;
  }

  /** Replacing the frame number with a valid frame and reading it back gives that
      frame, and the flags survive; replacing it with the frame it already holds
      returns the entry unchanged. */
  lemma FrameNumRoundTrip(frameBits: nat, entry: nat, frameNum: nat)
    requires frameNum < Pow2(frameBits)
    ensures GetFrameNum(frameBits, ReplaceFrameNum(frameBits, entry, frameNum)) == frameNum
    ensures ReplaceFrameNum(frameBits, entry, GetFrameNum(frameBits, entry)) == entry
  {
    var f := GetFrameNum(frameBits, entry);
    var e := ReplaceFrameNum(frameBits, entry, f);
    FrameNumDigits(frameBits, entry);
    FrameNumDigits(frameBits, e);
    forall j: nat ensures Bit(e, j) == Bit(entry, j) {
      if j < frameBits {
        assert Bit(GetFrameNum(frameBits, e), j) == Bit(e, j);
      }
    }
    BitsEqual(e, entry);
  }
}
