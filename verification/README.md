# NextDimension register map and Mach message bit-fields in Dafny

This project models the parts of the NextDimension 1080p display driver's
headers that carry logic:

- **The NeXTbus address layout and the NextDimension VTC register map**
  (`NextDimension_Registers.h`). Slot `s` owns a 16 MiB slot-space window at
  `0xF0000000 | s << 24` and a 256 MiB board-space window at `s << 28`.
  The Video Timing Controller (VTC) sits at the start of slot space. Twelve
  32-bit registers sit at fixed byte offsets from it. The header lists two
  single-bit masks, `PLL_LOCK` (bit 0) and `MODE_UPDATE` (bit 31). It does not
  say which register each belongs to. The model's reading, that the first is
  tested in the PLL status register and the second set in the
  display-control register, is inferred from the names.
  The module is `NextDimensionRegisters`. Addresses and masks are `bv32`.
  The driver reaches registers through a `volatile unsigned int *`, so
  register `r` is element `Offset(r) / 4` of that window (`WordIndex`).
  `Decode`/`Encode` read a physical address as a window plus an offset. They
  are the inverse that the disjointness lemmas are checked against.
- **The Mach message bit-fields** (`reconstructed_mach_kernel.h`). These are
  the leading word of `msg_header_t` (`msg_unused : 24`, `msg_simple : 8`),
  the packed type descriptor `msg_type_t` (8 + 8 + 12 + 1 + 1 + 1 + 1 bits)
  and the long descriptor `msg_type_long_t`. The module is `MachMessages`.
  It is built on `BitFields`, a generic model of unsigned bit-fields under
  ISO/IEC 9899 section 6.7.2.1 (adjacent fields packed into one unit) and
  section 6.3.1.3 (a value stored into an unsigned field of width `w` keeps
  its value modulo 2^w).

Bit-field allocation order inside a unit is implementation-defined. This
model fixes one order: the first declared field takes the least significant
bits. Every property proved is independent of that choice, except
`BitFields.UnpackIsFieldAt`, `MachMessages.TypeFieldIsShiftMask` and
`MachMessages.ShiftIsFieldOffset`, which name the bit positions under this
order. Nothing here claims to
match the layout the NeXT 68k compiler actually chose.

Words of the message structures are C `unsigned int` values, written as
`BitFields.uint32` (an integer in [0, 2^32)) rather than `bv32`. The
bit-field semantics is arithmetic: a field at offset `k` of width `w` is
`(word / 2^k) % 2^w`. The stored images of the `short`/`int` members of
`msg_type_long_t` assume 16-bit `short`, 32-bit `int` and two's complement,
as on the 68k.

Slot space and board space are not disjoint for every slot. Slot 15's
board window covers all of slot space (`Slot15BoardAliasesSlotSpace`), so
board memory stays clear of the registers only for slots 0 to 14
(`BoardBelowSlotSpace`).

## Model

| member | source | states |
|---|---|---|
| `NextDimensionRegisters.SlotBase` | NextDimension_Registers.h:31 | every slot base lies in slot space (at or above 0xF0000000) and is aligned to a 16 MiB window |
| `NextDimensionRegisters.BoardBase` | NextDimension_Registers.h:32 | every board base is aligned to a 256 MiB window |
| `NextDimensionRegisters.BaseValues` | NextDimension_Registers.h:31-32 | for slots below 16 the slot base is 0xF0000000 + s·2^24 (the 0xFs000000 form) and the board base is s·2^28 |
| `NextDimensionRegisters.SlotNumbersWrap` | NextDimension_Registers.h:31-32 | only the low four bits of the slot number reach either base, so s and s + 16 give the same windows |
| `NextDimensionRegisters.Slot16AliasesSlot0` | NextDimension_Registers.h:31-32 | slot 16 yields exactly slot 0's slot base and board base |
| `NextDimensionRegisters.SlotWindowsDisjoint` | NextDimension_Registers.h:31 | for slots below 16, an address in two slot windows names the same slot and offset, in both directions |
| `NextDimensionRegisters.BoardWindowsDisjoint` | NextDimension_Registers.h:32 | for slots below 16, an address in two board windows names the same slot and offset, in both directions |
| `NextDimensionRegisters.BoardBelowSlotSpace` | NextDimension_Registers.h:31-32 | for slots 0 to 14 every board-space address lies strictly below 0xF0000000, so board memory never aliases registers |
| `NextDimensionRegisters.Slot15BoardAliasesSlotSpace` | NextDimension_Registers.h:31-32 | slot 15's board base equals slot 0's slot base, and every slot-space address (slot t, offset b) is board 15's base plus an offset below the 256 MiB board window size |
| `NextDimensionRegisters.Decode` | NextDimension_Registers.h:31-32 | every physical address reads as a valid slot-space or board-space (slot, offset) pair |
| `NextDimensionRegisters.DecodeEncode` | NextDimension_Registers.h:31-32 | a valid (window, slot, offset) triple is recovered from the address the macros give it |
| `NextDimensionRegisters.EncodeDecode` | NextDimension_Registers.h:31-32 | every 32-bit address is the base of the window it decodes to plus its offset |
| `NextDimensionRegisters.Offset` | NextDimension_Registers.h:13-24 | every register offset is word aligned and lies in [0x40, 0x70) |
| `NextDimensionRegisters.WordIndex` | HardwareReference/NextDimension1080p.h:14 | each register is one element, between 16 and 27, of the `unsigned int` window, and that element's bytes start at the register's offset |
| `NextDimensionRegisters.RegisterAt` | NextDimension_Registers.h:13-24 | an offset that names a register is that register's offset |
| `NextDimensionRegisters.RegisterAtOffset` | NextDimension_Registers.h:13-24 | each register is found again at its own offset |
| `NextDimensionRegisters.OffsetsDistinct` | NextDimension_Registers.h:13-24 | two registers share an offset, or a word index, exactly when they are the same register |
| `NextDimensionRegisters.AllRegistersDistinct` | NextDimension_Registers.h:13-24 | the twelve registers are all listed and have pairwise distinct offsets |
| `NextDimensionRegisters.RegistersTileWindow` | NextDimension_Registers.h:13-24 | an offset names a register exactly when it is word aligned and in [0x40, 0x70), so the twelve registers fill that range with no gap |
| `NextDimensionRegisters.WindowHoldsAll` | NextDimension_Registers.h:10-24 | a mapped window starting at the VTC offset holds every register's four bytes exactly when it is at least 0x70 bytes long |
| `NextDimensionRegisters.RegisterAddress` | NextDimension_Registers.h:9-31 | for slots below 16 a register's physical address decodes to slot space of that slot at the register's offset |
| `NextDimensionRegisters.RegisterAddressesDistinct` | NextDimension_Registers.h:9-31 | for slots below 16, two (slot, register) pairs share a physical address exactly when they are equal |
| `NextDimensionRegisters.MasksAreSeparateBits` | NextDimension_Registers.h:27-28 | PLL_LOCK is the single bit 0, MODE_UPDATE is the single bit 31, and they do not overlap |
| `NextDimensionRegisters.RequestCommit` | NextDimension_Registers.h:28 | OR-ing in the commit bit sets it and leaves every other bit of the word as it was |
| `NextDimensionRegisters.ClearCommit` | NextDimension_Registers.h:28 | masking the commit bit out clears it and leaves every other bit as it was |
| `NextDimensionRegisters.CommitLeavesLockAlone` | NextDimension_Registers.h:27-28 | setting or clearing the commit bit never changes what the lock test reports |
| `NextDimensionRegisters.CommitInverse` | NextDimension_Registers.h:28 | setting and clearing the commit bit undo each other |
| `NextDimensionRegisters.LockIgnoresOtherBits` | NextDimension_Registers.h:27 | the lock test depends on bit 0 only, so setting or clearing any other bits, the commit bit among them, does not change it |
| `BitFields.Store` | reconstructed_mach_kernel.h:43-50 | a value stored in an unsigned field of width w is below 2^w and congruent to the value modulo 2^w, and a value that fits is kept unchanged |
| `BitFields.Pack` | reconstructed_mach_kernel.h:43-50 | a packed unit fits in the total width of its fields |
| `BitFields.Unpack` | reconstructed_mach_kernel.h:43-50 | reading a unit yields one value per field, each below 2^width |
| `BitFields.Update` | reconstructed_mach_kernel.h:43-50 | assigning one bit-field (`t.f = v`) leaves the unit within the layout's total width; `UpdateReads` states what each field then reads |
| `BitFields.UnpackIsFieldAt` | reconstructed_mach_kernel.h:43-50 | reading field i agrees with shifting the unit right by the widths before it and keeping its width |
| `BitFields.FieldOffsetBound` | reconstructed_mach_kernel.h:43-50 | every field ends within the layout's total width |
| `BitFields.UnpackPack` | reconstructed_mach_kernel.h:43-50 | reading back a packed unit yields each stored value modulo 2^width |
| `BitFields.UnpackPackFits` | reconstructed_mach_kernel.h:43-50 | values that fit their fields are read back unchanged |
| `BitFields.PackUnpack` | reconstructed_mach_kernel.h:43-50 | every unit within the layout's width is the packing of its own fields |
| `BitFields.UpdateReads` | reconstructed_mach_kernel.h:43-50 | assigning one field changes that field to the stored value and leaves every other field's value unchanged |
| `MachMessages.HeaderFillsWord` | reconstructed_mach_kernel.h:30-31 | msg_unused and msg_simple together fill exactly one 32-bit word |
| `MachMessages.PackHeader` | reconstructed_mach_kernel.h:30-31 | the header word reads back as each field's value modulo 2^24 and 2^8 |
| `MachMessages.UnpackHeader` | reconstructed_mach_kernel.h:30-31 | the decoded msg_unused is below 2^24 and msg_simple below 2^8 |
| `MachMessages.HeaderRoundTrip` | reconstructed_mach_kernel.h:30-31 | fields in range survive packing and unpacking |
| `MachMessages.HeaderWordRoundTrip` | reconstructed_mach_kernel.h:30-31 | every 32-bit header word is the packing of its own fields |
| `MachMessages.TypeFillsWord` | reconstructed_mach_kernel.h:43-50 | the msg_type_t widths 8+8+12+1+1+1+1 total exactly 32 bits |
| `MachMessages.UnpackType` | reconstructed_mach_kernel.h:43-50 | a decoded descriptor has name and size below 256, number below 4096 and each flag 0 or 1 |
| `MachMessages.GetIsUnpack` | reconstructed_mach_kernel.h:43-50 | each named field of a decoded descriptor is the value in that field's declared position |
| `MachMessages.PackType` | reconstructed_mach_kernel.h:43-50 | each field of the packed descriptor reads back as the assigned value modulo 2^width |
| `MachMessages.TypeRoundTrip` | reconstructed_mach_kernel.h:43-50 | a descriptor whose fields are all in range survives packing and unpacking |
| `MachMessages.TypeWordRoundTrip` | reconstructed_mach_kernel.h:43-50 | every 32-bit word is the packing of its own decoded descriptor |
| `MachMessages.SetTypeField` | reconstructed_mach_kernel.h:43-50 | assigning any integer to one field leaves that field holding the value modulo 2^width and every other field unchanged |
| `MachMessages.UpdateAllReads` | reconstructed_mach_kernel.h:43-50 | the proof of `SetTypeField`'s contract: from `UpdateReads` on the type layout, the assigned field reads back mod 2^width and the other six are unchanged |
| `MachMessages.IndexInjective` | reconstructed_mach_kernel.h:43-50 | distinct fields occupy distinct declaration positions |
| `MachMessages.TypeFieldIsShiftMask` | reconstructed_mach_kernel.h:43-50 | under the chosen allocation order each field is the word shifted right by its position and masked to its width |
| `MachMessages.ShiftIsFieldOffset` | reconstructed_mach_kernel.h:43-50 | field positions 0, 8, 16, 28, 29, 30, 31 are the running sums of the declared widths, and each field ends by bit 32 |
| `MachMessages.Signed16` | reconstructed_mach_kernel.h:55-56 | the short read from a 16-bit unit is congruent to the unit modulo 2^16 |
| `MachMessages.Signed32` | reconstructed_mach_kernel.h:57 | the int read from a 32-bit unit is congruent to the unit modulo 2^32 |
| `MachMessages.StoreTwosComplement` | reconstructed_mach_kernel.h:55-57 | storing a value that fits a signed type gives its two's-complement unit |
| `MachMessages.EncodeLong` | reconstructed_mach_kernel.h:53-58 | the stored image of a long descriptor has in-range units, and they read back as the long name, size and count |
| `MachMessages.DecodeLong` | reconstructed_mach_kernel.h:53-58 | a decoded long descriptor embeds a short descriptor whose fields are in range |
| `MachMessages.LongRoundTrip` | reconstructed_mach_kernel.h:53-58 | a long descriptor with an in-range header survives encoding and decoding |
| `MachMessages.LongImageRoundTrip` | reconstructed_mach_kernel.h:53-58 | every valid stored image is the encoding of its own decoding |
| `MachMessages.ShortFormCounts` | reconstructed_mach_kernel.h:46 | some short descriptor carries count n exactly when 0 <= n < 4096 |
| `MachMessages.LongFormWidens` | reconstructed_mach_kernel.h:53-58 | the name, size and count of every short descriptor also fit the long form's short and int fields |
| `MachMessages.CountNeedsLongForm` | reconstructed_mach_kernel.h:53-58 | a count from 4096 up to 2^31 - 1 fits no short descriptor but is carried by some valid long image |

## Left out

- The mode controller (`enterLinearMode`, `revertToVGAMode`), `setVideoTiming1080p` and the `probe:`/`initFromDeviceDescription:` methods are left out. The headers declare them without bodies, so write order, commit-last, PLL polling, retry budget and state transitions have no source to model.
- Timing profiles (1080p and legacy VGA values) are left out: no timing constant appears in any header.
- Memory-mapped access through the `volatile` `vtcBase`/`vramBase` pointers is left out. The lock bit is set by hardware asynchronously. The model covers only the addresses, offsets and bit tests, not the loads and stores.
- Kernel support prototypes are left out: mutexes, condition variables, `kalloc`/`kfree`, `bcopy`/`bzero`, threads, `kern_serv_*` and `spl*`/`splx`. They are foreign calls, concurrency and interrupt control with no bodies.
- Plain data records are left out because they carry no behaviour: the remaining `msg_header_t` members, `IOAddressRange`, `IORange`, `IOCache`, `IODisplayInfo`, `IOInterruptMsg`, the port and VM typedefs, the `MSG_TYPE_NORMAL`/`MSG_TYPE_RPC`/`KERN_SUCCESS` constants and the opaque kernel handles.
- The compiler's actual bit-field allocation order is not modelled. One order is fixed instead, as described above.
- The in-memory byte order and padding of `msg_type_long_t` are left out. Its members are modelled as separate stored units, not as one byte sequence.
- SlotBase: the slot number is modelled as a 32-bit unsigned value, so bits shifted past bit 31 are dropped. The driver keeps the slot in an `int` (HardwareReference/NextDimension1080p.h:11). For a signed `int`, `s << 24` is defined for 0 <= s < 128. Because `0xf0000000` is an `unsigned int`, the macro's value then agrees with the model. C leaves the shift undefined for s >= 128 and for s < 0, and there the model gives the unsigned reading.
- BoardBase: `NEXTBUS_BOARD_BASE(s)` has C type signed `int` when `s` is an `int`. The model replaces that type with an unsigned 32-bit reading. For a signed `int`, `s << 28` overflows for s >= 8, and C leaves that undefined. The model gives the unsigned value, for example 0xF0000000 for slot 15.
