/**
  The NextDimension board's register map and the NeXTbus physical address
  layout it sits in.

  Slot `s` owns two physical windows: a 16 MiB slot-space window at
  0xFs000000, where the Video Timing Controller (VTC) registers live, and a
  256 MiB board-space window at s << 28, where board memory lives. Addresses
  are 32-bit unsigned values (`bv32`); the slot number is taken as a 32-bit
  unsigned value, so its shifts drop every bit pushed past bit 31.

  The VTC registers are 32-bit words reached through a `volatile unsigned int *`
  that points at the VTC base, so register `r` is element `Offset(r) / 4`.
 */
module NextDimensionRegisters {

  datatype Option<T> = None | Some(value: T)

  // ---------------------------------------------------------------------
  // NeXTbus address layout
  // ---------------------------------------------------------------------

  /** Every slot-space address has its top four bits set. */
  const SlotSpaceStart: bv32 := 0xF000_0000
  /** Size of one slot-space window (2^24 bytes). */
  const SlotWindowSize: bv32 := 0x100_0000
  /** Size of one board-space window (2^28 bytes). */
  const BoardWindowSize: bv32 := 0x1000_0000

  /** Physical base of slot `s`'s slot space. */
  function SlotBase(s: bv32): (b: bv32)
    ensures b >= SlotSpaceStart
    ensures b & (SlotWindowSize - 1) == 0
  {
    0xF000_0000 | (s << 24)
  }

  /** Physical base of slot `s`'s board space. */
  function BoardBase(s: bv32): (b: bv32)
    ensures b & (BoardWindowSize - 1) == 0
  {
    s << 28
  }

  /** For slots below 16 the bases are the arithmetic forms 0xF0000000 + s * 2^24
      (the `0xFs000000` pattern) and s * 2^28. */
  lemma BaseValues(s: bv32)
    requires s < 16
    ensures SlotBase(s) as int == 0xF000_0000 + s as int * 0x100_0000
    ensures BoardBase(s) as int == s as int * 0x1000_0000
  {
  }

  /** Only the low four bits of a slot number reach either base, so slot
      numbers wrap around every 16. */
  lemma SlotNumbersWrap(s: bv32)
    ensures SlotBase(s) == SlotBase(s & 0xF)
    ensures BoardBase(s) == BoardBase(s & 0xF)
    ensures SlotBase(s + 16) == SlotBase(s)
    ensures BoardBase(s + 16) == BoardBase(s)
  {
  }

  /** Slot 16 lands on slot 0's windows. */
  lemma Slot16AliasesSlot0()
    ensures SlotBase(16) == SlotBase(0) && BoardBase(16) == BoardBase(0)
  {
    SlotNumbersWrap(0);
  }

  /** Distinct slots below 16 have disjoint slot-space windows: an address
      inside two windows names the same slot and the same offset. */
  lemma SlotWindowsDisjoint(s: bv32, t: bv32, a: bv32, b: bv32)
    requires s < 16 && t < 16
    requires a < SlotWindowSize && b < SlotWindowSize
    ensures SlotBase(s) + a == SlotBase(t) + b <==> s == t && a == b
  {
  }

  /** Distinct slots below 16 have disjoint board-space windows. */
  lemma BoardWindowsDisjoint(s: bv32, t: bv32, a: bv32, b: bv32)
    requires s < 16 && t < 16
    requires a < BoardWindowSize && b < BoardWindowSize
    ensures BoardBase(s) + a == BoardBase(t) + b <==> s == t && a == b
  {
  }

  /** Board space of slots 0 .. 14 lies wholly below slot space. */
  lemma BoardBelowSlotSpace(s: bv32, a: bv32)
    requires s < 15 && a < BoardWindowSize
    ensures BoardBase(s) + a < SlotSpaceStart
  {
  }

  /** Slot 15's board space is exactly the whole of slot space, so only that
      slot's board memory can alias registers. */
  lemma Slot15BoardAliasesSlotSpace(t: bv32, b: bv32)
    requires t < 16 && b < SlotWindowSize
    ensures BoardBase(15) == SlotBase(0)
    ensures (t << 24) | b < BoardWindowSize
    ensures BoardBase(15) + ((t << 24) | b) == SlotBase(t) + b
  {
  }

  /** A physical address, read as a window and an offset inside it. */
  datatype BusAddress =
    | SlotSpace(slot: bv32, offset: bv32)
    | BoardSpace(slot: bv32, offset: bv32)
  {
    /** Slot and offset lie inside the window they name, and board space is
        only claimed where it does not overlap slot space. */
    predicate Valid()
    {
      match this
      case SlotSpace(s, off) => s < 16 && off < SlotWindowSize
      case BoardSpace(s, off) => s < 15 && off < BoardWindowSize
    }
  }

  function Encode(p: BusAddress): bv32
  {
    match p
    case SlotSpace(s, off) => SlotBase(s) + off
    case BoardSpace(s, off) => BoardBase(s) + off
  }

  /** Which window a physical address falls in; slot space wins where slot
      15's board space overlaps it. */
  function Decode(a: bv32): (p: BusAddress)
    ensures p.Valid()
  {
    if a >= SlotSpaceStart then SlotSpace((a >> 24) & 0xF, a & (SlotWindowSize - 1))
    else BoardSpace(a >> 28, a & (BoardWindowSize - 1))
  }

  lemma DecodeEncode(p: BusAddress)
    requires p.Valid()
    ensures Decode(Encode(p)) == p
  {
    if p.SlotSpace? {
      DecodeSlotAddress(p.slot, p.offset);
    } else {
      DecodeBoardAddress(p.slot, p.offset);
    }
  }

  lemma DecodeSlotAddress(s: bv32, off: bv32)
    requires s < 16 && off < SlotWindowSize
    ensures Decode(SlotBase(s) + off) == SlotSpace(s, off)
  {
  }

  lemma DecodeBoardAddress(s: bv32, off: bv32)
    requires s < 15 && off < BoardWindowSize
    ensures Decode(BoardBase(s) + off) == BoardSpace(s, off)
  {
  }

  lemma EncodeDecode(a: bv32)
    ensures Encode(Decode(a)) == a
  {
    if a >= SlotSpaceStart {
      EncodeSlotAddress(a);
    } else {
      EncodeBoardAddress(a);
    }
  }

  lemma EncodeSlotAddress(a: bv32)
    requires a >= SlotSpaceStart
    ensures SlotBase((a >> 24) & 0xF) + (a & (SlotWindowSize - 1)) == a
  {
  }

  lemma EncodeBoardAddress(a: bv32)
    requires a < SlotSpaceStart
    ensures BoardBase(a >> 28) + (a & (BoardWindowSize - 1)) == a
  {
  }

  // ---------------------------------------------------------------------
  // VTC register map
  // ---------------------------------------------------------------------

  /** Offset of the VTC from the slot base. */
  const VtcOffset: bv32 := 0

  datatype VtcRegister =
    | PixelPllCtrl | PixelPllStatus
    | HTotal | HDisplay | HSyncStart | HSyncEnd
    | VTotal | VDisplay | VSyncStart | VSyncEnd
    | LineStride | DisplayCtrl

  /** The registers in address order. */
  const AllRegisters: seq<VtcRegister> := [
    PixelPllCtrl, PixelPllStatus, HTotal, HDisplay, VTotal, VDisplay,
    HSyncStart, HSyncEnd, DisplayCtrl, VSyncStart, VSyncEnd, LineStride]

  /** Byte offset of each register from the VTC base. */
  function Offset(r: VtcRegister): (off: bv32)
    ensures 0x40 <= off < 0x70
    ensures off & 3 == 0
  {
    match r
    case PixelPllCtrl => 0x40
    case PixelPllStatus => 0x44
    case HTotal => 0x48
    case HDisplay => 0x4C
    case HSyncStart => 0x58
    case HSyncEnd => 0x5C
    case VTotal => 0x50
    case VDisplay => 0x54
    case VSyncStart => 0x64
    case VSyncEnd => 0x68
    case LineStride => 0x6C
    case DisplayCtrl => 0x60
  }

  /** Element index of a register in the `unsigned int` window. */
  function WordIndex(r: VtcRegister): (i: nat)
    ensures 0x10 <= i < 0x1C
    ensures 4 * i == Offset(r) as int
  {
    (Offset(r) >> 2) as nat
  }

  /** The register, if any, at a byte offset from the VTC base. */
  function RegisterAt(off: bv32): (r: Option<VtcRegister>)
    ensures r.Some? ==> Offset(r.value) == off
  {
    if off == 0x40 then Some(PixelPllCtrl)
    else if off == 0x44 then Some(PixelPllStatus)
    else if off == 0x48 then Some(HTotal)
    else if off == 0x4C then Some(HDisplay)
    else if off == 0x50 then Some(VTotal)
    else if off == 0x54 then Some(VDisplay)
    else if off == 0x58 then Some(HSyncStart)
    else if off == 0x5C then Some(HSyncEnd)
    else if off == 0x60 then Some(DisplayCtrl)
    else if off == 0x64 then Some(VSyncStart)
    else if off == 0x68 then Some(VSyncEnd)
    else if off == 0x6C then Some(LineStride)
    else None
  }

  /** Each register is found again at its own offset, so no two registers
      share an offset. */
  lemma RegisterAtOffset(r: VtcRegister)
    ensures RegisterAt(Offset(r)) == Some(r)
  {
  }

  lemma OffsetsDistinct(r1: VtcRegister, r2: VtcRegister)
    ensures Offset(r1) == Offset(r2) <==> r1 == r2
    ensures WordIndex(r1) == WordIndex(r2) <==> r1 == r2
  {
    RegisterAtOffset(r1);
    RegisterAtOffset(r2);
  }

  /** The twelve registers are listed once each and have pairwise distinct offsets. */
  lemma AllRegistersDistinct()
    ensures |AllRegisters| == 12
    ensures forall r :: r in AllRegisters
    ensures forall i, j :: 0 <= i < j < |AllRegisters| ==>
      Offset(AllRegisters[i]) != Offset(AllRegisters[j])
  {
    forall r ensures r in AllRegisters {
      assert AllRegisters[WordIndex(r) - 0x10] == r;
    }
    forall i, j | 0 <= i < j < |AllRegisters|
      ensures Offset(AllRegisters[i]) != Offset(AllRegisters[j])
    {
      OffsetsDistinct(AllRegisters[i], AllRegisters[j]);
    }
  }

  /** The registers fill the words of [0x40, 0x70) with no gap: an offset
      names a register exactly when it is a word-aligned offset in that range. */
  lemma RegistersTileWindow(off: bv32)
    ensures RegisterAt(off).Some? <==> 0x40 <= off < 0x70 && off & 3 == 0
  {
  }

  /** Every register's four bytes lie within the first `len` bytes of the
      mapped window. */
  predicate WindowHolds(len: nat, r: VtcRegister)
  {
    VtcOffset as int + Offset(r) as int + 4 <= len
  }

  /** A mapped window holds every register exactly when it is at least 0x70
      bytes long. */
  lemma WindowHoldsAll(len: nat)
    ensures (forall r :: WindowHolds(len, r)) <==> len >= 0x70
  {
    if len < 0x70 {
      assert !WindowHolds(len, LineStride);
    }
  }

  /** Physical address of register `r` of the board in slot `s`. */
  function RegisterAddress(s: bv32, r: VtcRegister): (a: bv32)
    ensures s < 16 ==> Decode(a) == SlotSpace(s, VtcOffset + Offset(r))
  {
    SlotBase(s) + VtcOffset + Offset(r)
  }

  /** Distinct (slot, register) pairs have distinct physical addresses. */
  lemma RegisterAddressesDistinct(s: bv32, r: VtcRegister, t: bv32, q: VtcRegister)
    requires s < 16 && t < 16
    ensures RegisterAddress(s, r) == RegisterAddress(t, q) <==> s == t && r == q
  {
    OffsetsDistinct(r, q);
  }

  // ---------------------------------------------------------------------
  // Status and control bits
  // ---------------------------------------------------------------------

  /** The PLL lock mask. The header lists it only as a bitmask; reading it as
      bit 0 of the PLL status register is inferred from its name. */
  const PllLock: bv32 := 0x0000_0001
  /** The mode-update (commit) mask. The header lists it only as a bitmask;
      reading it as a bit of the display-control register is inferred from its
      name. */
  const ModeUpdate: bv32 := 0x8000_0000

  predicate SingleBit(m: bv32)
  {
    m != 0 && m & (m - 1) == 0
  }

  lemma MasksAreSeparateBits()
    ensures SingleBit(PllLock) && PllLock == 1 << 0
    ensures SingleBit(ModeUpdate) && ModeUpdate == 1 << 31
    ensures PllLock & ModeUpdate == 0
  {
  }

  predicate IsLocked(status: bv32)
  {
    status & PllLock != 0
  }

  predicate CommitRequested(ctrl: bv32)
  {
    ctrl & ModeUpdate != 0
  }

  /** The control word with the commit bit set and every other bit kept. */
  function RequestCommit(ctrl: bv32): (c: bv32)
    ensures c & ModeUpdate == ModeUpdate
    ensures c & !ModeUpdate == ctrl & !ModeUpdate
  {
    ctrl | ModeUpdate
  }

  /** The control word with the commit bit cleared and every other bit kept. */
  function ClearCommit(ctrl: bv32): (c: bv32)
    ensures c & ModeUpdate == 0
    ensures c & !ModeUpdate == ctrl & !ModeUpdate
  {
    ctrl & !ModeUpdate
  }

  /** Writing the commit bit never changes what the lock test reports, and
      the commit test sees it. */
  lemma CommitLeavesLockAlone(ctrl: bv32)
    ensures CommitRequested(RequestCommit(ctrl)) && !CommitRequested(ClearCommit(ctrl))
    ensures IsLocked(RequestCommit(ctrl)) == IsLocked(ctrl)
    ensures IsLocked(ClearCommit(ctrl)) == IsLocked(ctrl)
  {
    assert RequestCommit(ctrl) & PllLock == ctrl & PllLock;
    assert ClearCommit(ctrl) & PllLock == ctrl & PllLock;
  }

  /** Setting or clearing the commit bit is undone by the other operation. */
  lemma CommitInverse(ctrl: bv32)
    ensures CommitRequested(ctrl) ==> RequestCommit(ClearCommit(ctrl)) == ctrl
    ensures !CommitRequested(ctrl) ==> ClearCommit(RequestCommit(ctrl)) == ctrl
  {
  }

  /** The lock test reads only bit 0: it ignores the commit bit and every
      other bit of the word. */
  lemma LockIgnoresOtherBits(status: bv32, other: bv32)
    requires other & PllLock == 0
    ensures IsLocked(status | other) == IsLocked(status)
    ensures IsLocked(status & !other) == IsLocked(status)
    ensures IsLocked(status) <==> status & PllLock == PllLock
  {
  }
}
