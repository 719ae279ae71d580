/**
 * The segment descriptors of kernel/arch/i386/segmentation/gdt.c.
 *
 * `create_descriptor` packs a base, a 20-bit limit, an access byte and four
 * flag bits into the 64-bit layout of an i386 segment descriptor (section
 * 3.4.5 of the Intel 64 and IA-32 Architectures Software Developer's Manual,
 * Volume 3A); `init_gdt` fills a five-entry table for a flat memory model.
 */
module Gdt {

  /** `SEG_DESCTYPE | SEG_PRES | SEG_SAVL | SEG_LONG | SEG_SIZE | SEG_GRAN | SEG_PRIV | type`: the `flag` argument. */
  function SegmentFlag(descType: bv16, present: bv16, avl: bv16, long: bv16, size: bv16, gran: bv16, priv: bv16, segType: bv16): bv16
  {
    (descType << 4) | (present << 7) | (avl << 12) | (long << 13) | (size << 14) | (gran << 15) | ((priv & 3) << 5) | segType
  }

  const SEG_DATA_RDWR: bv16 := 0x02
  const SEG_CODE_EXRD: bv16 := 0x0A

  /** `GDT_CODE_PL0`, `GDT_DATA_PL0`, `GDT_CODE_PL3` and `GDT_DATA_PL3`: present 32-bit 4 KiB-granular segments. */
  const GDT_CODE_PL0: bv16 := SegmentFlag(1, 1, 0, 0, 1, 1, 0, SEG_CODE_EXRD)
  const GDT_DATA_PL0: bv16 := SegmentFlag(1, 1, 0, 0, 1, 1, 0, SEG_DATA_RDWR)
  const GDT_CODE_PL3: bv16 := SegmentFlag(1, 1, 0, 0, 1, 1, 3, SEG_CODE_EXRD)
  const GDT_DATA_PL3: bv16 := SegmentFlag(1, 1, 0, 0, 1, 1, 3, SEG_DATA_RDWR)

  /** The macros evaluate to the usual flat-model values. */
  lemma FlagValues()
    ensures GDT_CODE_PL0 == 0xC09A && GDT_DATA_PL0 == 0xC092
    ensures GDT_CODE_PL3 == 0xC0FA && GDT_DATA_PL3 == 0xC0F2
  {
  }

  /**
   * `create_descriptor`: the high word holds limit bits 19:16, the flag's
   * access byte and flag nibble, and base bits 23:16 and 31:24; the low word
   * holds base bits 15:0 and limit bits 15:0.
   */
  function CreateDescriptor(base: bv32, limit: bv32, flag: bv16): (d: bv64)
  {
    var high: bv64 := (limit & 0x000F_0000) as bv64 | ((flag as bv64 << 8) & 0x00F0_FF00) |
      ((base >> 16) & 0x0000_00FF) as bv64 | (base & 0xFF00_0000) as bv64;
    (high << 32) | (base << 16) as bv64 | (limit & 0x0000_FFFF) as bv64
  }

  /** The base a descriptor encodes, read back from its three fields. */
  function Base(d: bv64): bv32
  {
    (((d >> 16) & 0xFFFF) | (((d >> 32) & 0xFF) << 16) | (((d >> 56) & 0xFF) << 24)) as bv32
  }

  /** The 20-bit limit a descriptor encodes. */
  function Limit(d: bv64): bv32
  {
    ((d & 0xFFFF) | (((d >> 48) & 0xF) << 16)) as bv32
  }

  /** The access byte: present, privilege level, descriptor type and segment type. */
  function Access(d: bv64): bv8
  {
    ((d >> 40) & 0xFF) as bv8
  }

  /** The flag nibble: granularity, default size, long mode and available bit. */
  function Flags(d: bv64): bv8
  {
    ((d >> 52) & 0xF) as bv8
  }

  /**
   * Decoding a created descriptor gives back the base, the low 20 bits of the
   * limit, the low byte of the flag as the access byte and its top nibble as
   * the flags.
   */
  lemma DecodeCreated(base: bv32, limit: bv32, flag: bv16)
    ensures Base(CreateDescriptor(base, limit, flag)) == base
    ensures Limit(CreateDescriptor(base, limit, flag)) == limit & 0xF_FFFF
    ensures Access(CreateDescriptor(base, limit, flag)) == (flag & 0xFF) as bv8
    ensures Flags(CreateDescriptor(base, limit, flag)) == (flag >> 12) as bv8
  {
  }

  /** Limit bits above 19 and flag bits 8 to 11 do not reach the descriptor. */
  lemma IgnoredBits(base: bv32, limit: bv32, flag: bv16)
    ensures CreateDescriptor(base, limit, flag) == CreateDescriptor(base, limit & 0xF_FFFF, flag & 0xF0FF)
  {
  }

  /** The null descriptor is all zero. */
  lemma NullDescriptor()
    ensures CreateDescriptor(0, 0, 0) == 0
  {
  }

  /** Privilege level (DPL) in bits 6:5 of the access byte. */
  function Dpl(d: bv64): bv8
  {
    (Access(d) >> 5) & 3
  }

  /** The five descriptors `init_gdt` builds for the flat model. */
  function FlatTable(): (t: seq<bv64>)
    ensures |t| == 5
  {
    [CreateDescriptor(0, 0, 0),
     CreateDescriptor(0, 0x000F_FFFF, GDT_CODE_PL0), CreateDescriptor(0, 0x000F_FFFF, GDT_DATA_PL0),
     CreateDescriptor(0, 0x000F_FFFF, GDT_CODE_PL3), CreateDescriptor(0, 0x000F_FFFF, GDT_DATA_PL3)]
  }

  /**
   * Apart from the null entry, every segment spans 4 GiB from address 0
   * (base 0, limit 0xFFFFF in 4 KiB units), is present and 32-bit; entries
   * 1 and 2 are kernel code and data (DPL 0), 3 and 4 user code and data (DPL 3).
   */
  lemma FlatTableSegments()
    ensures FlatTable()[0] == 0
    ensures forall k :: 1 <= k < 5 ==>
      Base(FlatTable()[k]) == 0 && Limit(FlatTable()[k]) == 0xF_FFFF &&
      Access(FlatTable()[k]) & 0x80 != 0 && Flags(FlatTable()[k]) == 0xC
    ensures Dpl(FlatTable()[1]) == 0 && Dpl(FlatTable()[2]) == 0
    ensures Dpl(FlatTable()[3]) == 3 && Dpl(FlatTable()[4]) == 3
    ensures Access(FlatTable()[1]) & 0x0F == 0x0A && Access(FlatTable()[3]) & 0x0F == 0x0A
    ensures Access(FlatTable()[2]) & 0x0F == 0x02 && Access(FlatTable()[4]) & 0x0F == 0x02
  {
    FlagValues();
    DecodeCreated(0, 0x000F_FFFF, GDT_CODE_PL0);
    DecodeCreated(0, 0x000F_FFFF, GDT_DATA_PL0);
    DecodeCreated(0, 0x000F_FFFF, GDT_CODE_PL3);
    DecodeCreated(0, 0x000F_FFFF, GDT_DATA_PL3);
  }

  /** `uint64_t gdt[5]`. */
  class GlobalDescriptorTable {
    const gdt: array<bv64>

    constructor ()
      ensures gdt.Length == 5 && fresh(gdt)
    {
      gdt := new bv64[5](_ => 0);
    }

    /**
     * `init_gdt`: fills the table with the flat-model descriptors and returns
     * the size field of the pointer handed to `load_gdt`.
     */
    method InitGdt() returns (size: int)
      requires gdt.Length == 5
      modifies gdt
      ensures gdt[..] == FlatTable()
      ensures size == 8 * gdt.Length - 1
    {
      var nullSegment := CreateDescriptor(0, 0, 0);
      var kernelCodeSegment := CreateDescriptor(0, 0x000F_FFFF, GDT_CODE_PL0);
      var kernelDataSegment := CreateDescriptor(0, 0x000F_FFFF, GDT_DATA_PL0);
      var userCodeSegment := CreateDescriptor(0, 0x000F_FFFF, GDT_CODE_PL3);
      var userDataSegment := CreateDescriptor(0, 0x000F_FFFF, GDT_DATA_PL3);
      gdt[0] := nullSegment;
      gdt[1] := kernelCodeSegment;
      gdt[2] := kernelDataSegment;
      gdt[3] := userCodeSegment;
      gdt[4] := userDataSegment;
      size := 8 * gdt.Length - 1;
    }
  }
}
