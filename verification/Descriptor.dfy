/** The 32-byte hardware descriptor and the driver's edits of its control word. The control
    word is kept as its bit fields; `Encode` is the word itself, and the Encode lemmas say
    that each field edit below is the driver's mask-and-merge on that word. */
module Descriptor {
  import opened Words

  const DESC_BYTES: nat := 32
  const MAX_EXTRA_ADJ: nat := 15
  const DESC_MAGIC: bv16 := 0xAD4B
  const STOPPED: bv8 := 0x01
  const COMPLETED: bv8 := 0x02
  const EOP: bv8 := 0x10

  type nibble = x: nat | x < 16

  /** Bits 31:16, 15:12, 11:8 and 7:0 of the control word. */
  datatype Control = Control(magic: bv16, reserved: nibble, extraAdj: nibble, flags: bv8)

  datatype Desc = Desc(
    control: Control, bytes: u32,
    srcLo: u32, srcHi: u32, dstLo: u32, dstHi: u32,
    nextLo: u32, nextHi: u32)
  {
    // What the hardware reads out of the record.
    function Src(): u64 { Join(srcLo, srcHi) }
    function Dst(): u64 { Join(dstLo, dstHi) }
    function Next(): u64 { Join(nextLo, nextHi) }
    predicate Stops() { control.flags & STOPPED != 0 }
  }

  const ZERO_DESC := Desc(Control(0, 0, 0, 0), 0, 0, 0, 0, 0, 0, 0)

  /** The control word of a chained descriptor. */
  function ControlWord(extraAdj: nibble, flags: bv8): Control {
    Control(DESC_MAGIC, 0, extraAdj, flags)
  }

  /** xdma_desc_link: point at a second descriptor, or terminate; the adjacent count becomes zero. */
  function Linked(first: Desc, second: bool, secondBus: u64): Desc {
    first.(nextLo := if second then Lo(secondBus) else 0,
           nextHi := if second then Hi(secondBus) else 0,
           control := first.control.(magic := DESC_MAGIC, extraAdj := 0))
  }

  /** xdma_desc_control_set: replace the flag byte. */
  function Flagged(d: Desc, flags: bv8): Desc {
    d.(control := d.control.(flags := flags))
  }

  /** xdma_desc_control_clear with the mask of the whole flag byte. */
  function Unflagged(d: Desc): Desc {
    d.(control := d.control.(flags := 0))
  }

  /** The clamp of xdma_desc_adjacent: at most 15, and not past the 4 KB page of the next
      descriptor; the page term is computed in 32 unsigned bits. */
  function AdjClamp(nextLo: u32, nextAdjacent: int): nibble {
    if nextAdjacent > 0 then
      var max4k: u32 := ((0x1000 - nextLo % 0x1000) / DESC_BYTES - 1) % U32;
      Min(Min(nextAdjacent - 1, MAX_EXTRA_ADJ), max4k)
    else 0
  }

  /** xdma_desc_adjacent: replace the adjacent count. */
  function Adjusted(d: Desc, nextAdjacent: int): Desc {
    d.(control := d.control.(magic := DESC_MAGIC, extraAdj := AdjClamp(d.nextLo, nextAdjacent)))
  }

  // ---- The control word as the 32 bits in memory ----

  function Encode(c: Control): bv32 {
    ((c.magic as bv32) << 16) | ((c.reserved as bv32) << 12) | ((c.extraAdj as bv32) << 8) | (c.flags as bv32)
  }

  /** The hardware reads each field back from its bits. */
  lemma {:induction false} EncodeFields(c: Control)
    ensures ((Encode(c) >> 8) & 0xF) as nat == c.extraAdj
    ensures (Encode(c) & 0xFF) as bv8 == c.flags
    ensures (Encode(c) & 0x01 != 0) <==> (c.flags & STOPPED != 0)
  {
  }

  lemma {:induction false} EncodeLinked(d: Desc, second: bool, bus: u64)
    ensures Encode(Linked(d, second, bus).control) == (Encode(d.control) & 0x0000f0ff) | 0xAD4B0000
  {
    assert (0 as nibble) as bv32 == 0;
    var x := d.control.extraAdj as bv32;
    assert x <= 15;
  }

  lemma {:induction false} EncodeFlagged(d: Desc, flags: bv8)
    ensures Encode(Flagged(d, flags).control) == (Encode(d.control) & 0xffffff00) | (flags as bv32)
    ensures Encode(Unflagged(d).control) == Encode(d.control) & 0xffffff00
  {
  }

  lemma {:induction false} EncodeAdjusted(d: Desc, nextAdjacent: int)
    ensures Encode(Adjusted(d, nextAdjacent).control)
         == (Encode(d.control) & 0x0000f0ff) | 0xAD4B0000 | ((AdjClamp(d.nextLo, nextAdjacent) as bv32) << 8)
  {
    var x := d.control.extraAdj as bv32;
    assert x <= 15;
  }
}
