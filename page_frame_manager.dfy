/**
 * The physical page frame allocator of kernel/memory/page_frame_manager.c.
 *
 * A bitmap of 65536 bytes holds one bit per 4 KiB frame of the first 2 GiB;
 * a set bit marks a frame available.  Allocation searches the bitmap four
 * bytes at a time from a remembered start index; freeing sets bits again.
 * The model keeps the source's quirks: the byte index of a single page is
 * truncated to an `unsigned char`, the search for 8n pages only ever starts
 * a run at the first byte of a 4-byte block, and page 0 doubles as the
 * failure value.
 */
module PageFrames {
  import opened CTypes

  const PAGE_SIZE: int := 4096
  const BITMAP_SIZE: int := 65536
  /** Frames the bitmap describes. */
  const FRAMES: int := 8 * BITMAP_SIZE

  /** `1 << n` in a byte, written out bit by bit. */
  function Bit(n: int): (r: bv8)
    requires 0 <= n < 8
    ensures r != 0
  {
    if n == 0 then 1 else if n == 1 then 2 else if n == 2 then 4 else if n == 3 then 8
    else if n == 4 then 16 else if n == 5 then 32 else if n == 6 then 64 else 128
  }

  /** The table is the shift the bit macros compute. */
  lemma BitIsShift(n: int)
    requires 0 <= n < 8
    ensures Bit(n) == 1 << n
  {
  }

  /** Bit `n` of `x` is set, checked against each constant mask. */
  predicate HasBit(x: bv8, n: int)
    requires 0 <= n < 8
  {
    if n == 0 then x & 1 != 0 else if n == 1 then x & 2 != 0 else if n == 2 then x & 4 != 0
    else if n == 3 then x & 8 != 0 else if n == 4 then x & 16 != 0 else if n == 5 then x & 32 != 0
    else if n == 6 then x & 64 != 0 else x & 128 != 0
  }

  /** `MASK_BIT(x, n)` is non-zero exactly when bit `n` is set. */
  lemma MaskBit(x: bv8, n: int)
    requires 0 <= n < 8
    ensures x & Bit(n) != 0 <==> HasBit(x, n)
  {
  }

  /** Frame `f` is marked available in bitmap `b`. */
  ghost predicate Available(b: seq<bv8>, f: int)
    requires 0 <= f < 8 * |b|
  {
    HasBit(b[f / 8], f % 8)
  }

  /** Setting or clearing bit `n` of a byte touches no other bit. */
  lemma BitUpdate(x: bv8, n: int, m: int)
    requires 0 <= n < 8 && 0 <= m < 8
    ensures HasBit(x | Bit(n), m) <==> m == n || HasBit(x, m)
    ensures HasBit(x & !Bit(n), m) <==> m != n && HasBit(x, m)
  {
  }

  /** `BITMAP_INDX` stored in an `unsigned char`, as `check_page_available` and the marking functions do. */
  function ByteIndex(p: int): (idx: int)
    requires 0 <= p
    ensures 0 <= idx < 256
    ensures p < 2048 ==> idx == p / 8
  {
    (p / 8) % 256
  }

  /** The frame whose bit `check_page_available` and `mark_page` use for page `p`. */
  function MarkedFrame(p: int): (g: int)
    requires 0 <= p
    ensures 0 <= g < 2048 && g % 8 == p % 8
    ensures p < 2048 ==> g == p
  {
    8 * ByteIndex(p) + p % 8
  }

  /** The byte and the bit of the marked frame are the page's truncated byte index and its bit. */
  lemma MarkedFrameParts(p: int)
    requires 0 <= p
    ensures MarkedFrame(p) / 8 == ByteIndex(p) && MarkedFrame(p) % 8 == p % 8
  {
  }

  /** Pages 2048 apart share a bit: page 2048 is marked through the bit of page 0. */
  lemma PagesAlias(p: int)
    requires 0 <= p
    ensures MarkedFrame(p + 2048) == MarkedFrame(p)
    ensures MarkedFrame(2048) == 0
  {
    assert (p + 2048) / 8 == p / 8 + 256;
  }

  /** The bitmap `b` with frame `g` marked available or unavailable, as `SET_BIT` and `CLR_BIT` do. */
  ghost function SetFrame(b: seq<bv8>, g: int, available: bool): (r: seq<bv8>)
    requires 0 <= g < 8 * |b|
    ensures |r| == |b|
  {
    var x := b[g / 8];
    b[g / 8 := if available then x | Bit(g % 8) else x & !Bit(g % 8)]
  }

  /** Marking a frame changes that frame and no other. */
  lemma SetFrameEffect(b: seq<bv8>, g: int, available: bool, h: int)
    requires 0 <= g < 8 * |b| && 0 <= h < 8 * |b|
    ensures Available(SetFrame(b, g, available), h) <==> if h == g then available else Available(b, h)
  {
    if h / 8 == g / 8 {
      BitUpdate(b[g / 8], g % 8, h % 8);
    }
  }

  /** The bitmap `b` with the bytes `lo` up to `hi` all 0xFF or all 0x00. */
  ghost function SetBytes(b: seq<bv8>, lo: int, hi: int, available: bool): (r: seq<bv8>)
    requires 0 <= lo <= hi <= |b|
    ensures |r| == |b|
  {
    b[..lo] + seq(hi - lo, _ => if available then 0xFF else 0x00) + b[hi..]
  }

  /** The bytes of `SetBytes`. */
  lemma SetBytesAt(b: seq<bv8>, lo: int, hi: int, available: bool, k: int)
    requires 0 <= lo <= hi <= |b| && 0 <= k < |b|
    ensures SetBytes(b, lo, hi, available)[k] == if lo <= k < hi then (if available then 0xFF else 0x00) else b[k]
  {
  }

  /** Filling bytes `lo` up to `hi` changes exactly their frames `8 * lo` up to `8 * hi`. */
  lemma SetBytesEffect(b: seq<bv8>, lo: int, hi: int, available: bool, h: int)
    requires 0 <= lo <= hi <= |b| && 0 <= h < 8 * |b|
    ensures Available(SetBytes(b, lo, hi, available), h) <==> if 8 * lo <= h < 8 * hi then available else Available(b, h)
  {
    SetBytesAt(b, lo, hi, available, h / 8);
  }

  /** Filling one more byte extends the filled range. */
  lemma SetBytesStep(b: seq<bv8>, lo: int, hi: int, available: bool)
    requires 0 <= lo <= hi < |b|
    ensures SetBytes(b, lo, hi + 1, available) == SetBytes(b, lo, hi, available)[hi := if available then 0xFF else 0x00]
  {
    var longer := SetBytes(b, lo, hi + 1, available);
    var stepped := SetBytes(b, lo, hi, available)[hi := if available then 0xFF else 0x00];
    forall k | 0 <= k < |b|
      ensures longer[k] == stepped[k]
    {
      SetBytesAt(b, lo, hi + 1, available, k);
      SetBytesAt(b, lo, hi, available, k);
    }
    assert longer == stepped;
  }

  /** The first available frame at or after `f`. */
  ghost function FirstAvailableFrom(b: seq<bv8>, f: int): (r: Option<int>)
    requires 0 <= f
    ensures r.Some? ==> f <= r.value < 8 * |b|
    decreases 8 * |b| - f
  {
    if f >= 8 * |b| then None
    else if Available(b, f) then Some(f)
    else FirstAvailableFrom(b, f + 1)
  }

  /** What the search finds is an available frame. */
  lemma {:induction false} FirstAvailableIsAvailable(b: seq<bv8>, f: int)
    requires 0 <= f && FirstAvailableFrom(b, f).Some?
    ensures Available(b, FirstAvailableFrom(b, f).value)
    decreases 8 * |b| - f
  {
    if !Available(b, f) {
      FirstAvailableIsAvailable(b, f + 1);
    }
  }

  /** The search finds the lowest available frame: none lies before the one found, or at all when none is found. */
  lemma {:induction false} FirstAvailableIsLowest(b: seq<bv8>, f: int, h: int)
    requires 0 <= f <= h < 8 * |b|
    requires FirstAvailableFrom(b, f).None? || h < FirstAvailableFrom(b, f).value
    ensures !Available(b, h)
    decreases h - f
  {
    if f < h {
      FirstAvailableIsLowest(b, f + 1, h);
    }
  }

  /** The search result that `find_available_page` returns for it: the frame, or 0 for none. */
  function OrZero(r: Option<int>): int
  {
    if r.Some? then r.value else 0
  }

  /** `i & ~0b11`: `i` rounded down to a multiple of 4. */
  function RoundDown4(i: int): (r: int)
    requires 0 <= i
    ensures 0 <= r <= i && r % 4 == 0 && i - r < 4
  {
    i - i % 4
  }

  /** Frames that are all unavailable may be skipped by the search. */
  lemma {:induction false} SkipUnavailable(b: seq<bv8>, f: int, g: int)
    requires 0 <= f <= g
    requires forall h :: f <= h < g && h < 8 * |b| ==> !Available(b, h)
    ensures FirstAvailableFrom(b, f) == FirstAvailableFrom(b, g)
    decreases g - f
  {
    if f < g {
      SkipUnavailable(b, f + 1, g);
    }
  }

  /**
   * The 32-bit word that `*(uint32_t *)(memory_bitmap + i)` loads on a
   * little-endian machine.
   */
  function Word(b0: bv8, b1: bv8, b2: bv8, b3: bv8): bv32
  {
    b0 as bv32 | (b1 as bv32 << 8) | (b2 as bv32 << 16) | (b3 as bv32 << 24)
  }

  /** The word is non-zero exactly when one of its bytes is, and its low byte is the first byte. */
  lemma WordBytes(b0: bv8, b1: bv8, b2: bv8, b3: bv8)
    ensures Word(b0, b1, b2, b3) != 0 <==> b0 != 0 || b1 != 0 || b2 != 0 || b3 != 0
    ensures Word(b0, b1, b2, b3) & 0xFF == b0 as bv32
  {
  }

  /** A non-zero block of four bytes holds an available frame. */
  lemma BlockHasAvailable(b: seq<bv8>, i: int)
    requires 0 <= i && i + 4 <= |b|
    requires b[i] != 0 || b[i + 1] != 0 || b[i + 2] != 0 || b[i + 3] != 0
    ensures exists f :: 8 * i <= f < 8 * i + 32 && Available(b, f)
  {
    var q := if b[i] != 0 then 0 else if b[i + 1] != 0 then 1 else if b[i + 2] != 0 then 2 else 3;
    var x := b[i + q];
    var n := if x & 1 != 0 then 0 else if x & 2 != 0 then 1 else if x & 4 != 0 then 2 else if x & 8 != 0 then 3
      else if x & 16 != 0 then 4 else if x & 32 != 0 then 5 else if x & 64 != 0 then 6 else 7;
    assert HasBit(x, n);
    assert (8 * i + (8 * q + n)) / 8 == i + q && (8 * i + (8 * q + n)) % 8 == n;
    assert Available(b, 8 * i + (8 * q + n));
  }

  /** An available frame at `f` or later than `s` bounds what the search from `s` finds. */
  lemma {:induction false} FoundNoLater(b: seq<bv8>, s: int, f: int)
    requires 0 <= s <= f < 8 * |b| && Available(b, f)
    ensures FirstAvailableFrom(b, s).Some? && FirstAvailableFrom(b, s).value <= f
    decreases f - s
  {
    if s < f && !Available(b, s) {
      FoundNoLater(b, s + 1, f);
    }
  }

  /** The search from a non-zero block finds a frame inside it. */
  lemma NonzeroBlockFound(b: seq<bv8>, i: int)
    requires 0 <= i && i + 4 <= |b| && BlockNonzero(b, i)
    ensures FirstAvailableFrom(b, 8 * i).Some? && FirstAvailableFrom(b, 8 * i).value < 8 * i + 32
  {
    BlockHasAvailable(b, i);
    var f :| 8 * i <= f < 8 * i + 32 && Available(b, f);
    FoundNoLater(b, 8 * i, f);
  }

  /** A page found in the block at byte `i` names that block again: `page / 32 * 4 == i`. */
  lemma BlockOfPage(i: int, j: int)
    requires 0 <= i && i % 4 == 0 && 0 <= j < 32
    ensures (8 * i + j) / 32 * 4 == i
  {
    assert 8 * i + j == 32 * (i / 4) + j;
  }

  /** A zero block of four bytes holds no available frame. */
  lemma ZeroBlock(b: seq<bv8>, i: int)
    requires 0 <= i && i + 4 <= |b|
    requires b[i] == 0 && b[i + 1] == 0 && b[i + 2] == 0 && b[i + 3] == 0
    ensures FirstAvailableFrom(b, 8 * i) == FirstAvailableFrom(b, 8 * i + 32)
  {
    forall h | 8 * i <= h < 8 * i + 32
      ensures !Available(b, h)
    {
      assert i <= h / 8 < i + 4;
    }
    SkipUnavailable(b, 8 * i, 8 * i + 32);
  }

  // ----- the search for 8n pages -----

  /** The bytes `i` up to `i + n` exist and are all 0xFF. */
  ghost predicate FullRun(b: seq<bv8>, i: int, n: int)
  {
    0 <= i && 0 <= n && i + n <= |b| && forall k :: i <= k < i + n ==> b[k] == 0xFF
  }

  /** The 4-byte block at `i` holds a free page. */
  ghost predicate BlockNonzero(b: seq<bv8>, i: int)
    requires 0 <= i && i + 4 <= |b|
  {
    b[i] != 0 || b[i + 1] != 0 || b[i + 2] != 0 || b[i + 3] != 0
  }

  /** Where `find_available_8n_pages` accepts a run: a non-zero block whose first byte starts n full bytes. */
  ghost predicate RunStart(b: seq<bv8>, i: int, n: int)
    requires 0 <= i && i + 4 <= |b|
  {
    BlockNonzero(b, i) && b[i] == 0xFF && FullRun(b, i, n)
  }

  /** The first 4-aligned block from `i` on where a run of `n` full bytes starts. */
  ghost function FirstRunFrom(b: seq<bv8>, i: int, n: int): (r: Option<int>)
    requires |b| == BITMAP_SIZE && 0 <= i && i % 4 == 0
    ensures r.Some? ==> i <= r.value < |b| && r.value % 4 == 0 && RunStart(b, r.value, n)
    decreases |b| - i
  {
    if i >= |b| then None
    else if RunStart(b, i, n) then Some(i)
    else FirstRunFrom(b, i + 4, n)
  }

  /** No block before the one found starts a run, and none at all when none is found. */
  lemma {:induction false} FirstRunIsFirst(b: seq<bv8>, i: int, n: int, k: int)
    requires |b| == BITMAP_SIZE && 0 <= i <= k && i % 4 == 0 && k % 4 == 0 && k + 4 <= |b|
    requires FirstRunFrom(b, i, n).None? || k < FirstRunFrom(b, i, n).value
    ensures !RunStart(b, k, n)
    decreases k - i
  {
    if i < k {
      FirstRunIsFirst(b, i + 4, n, k);
    }
  }

  /** The first 4-aligned block from `i` on that is not zero. */
  ghost function FirstNonzeroFrom(b: seq<bv8>, i: int): (r: Option<int>)
    requires |b| == BITMAP_SIZE && 0 <= i && i % 4 == 0
    ensures r.Some? ==> i <= r.value < |b| && r.value % 4 == 0 && BlockNonzero(b, r.value)
    decreases |b| - i
  {
    if i >= |b| then None
    else if BlockNonzero(b, i) then Some(i)
    else FirstNonzeroFrom(b, i + 4)
  }

  /** A block where a run starts is not zero, so the first non-zero block comes no later than the first run. */
  lemma {:induction false} NonzeroBeforeRun(b: seq<bv8>, i: int, n: int)
    requires |b| == BITMAP_SIZE && 0 <= i && i % 4 == 0 && FirstRunFrom(b, i, n).Some?
    ensures FirstNonzeroFrom(b, i).Some? && FirstNonzeroFrom(b, i).value <= FirstRunFrom(b, i, n).value
    decreases |b| - i
  {
    if !BlockNonzero(b, i) {
      NonzeroBeforeRun(b, i + 4, n);
    }
  }

  /**
   * The offset tests of `find_available_8n_pages` as written: C's `>>` binds
   * tighter than `&`, so `bytes & 0x0000ff00 >> 8` is `bytes & 0xff`, and the
   * three later tests repeat the first.
   */
  function FullByteOffset(bytes: bv32): (r: Option<int>)
    ensures r.Some? <==> bytes & 0xFF == 0xFF
    ensures r.Some? ==> r.value == 0
  {
    if bytes & 0x0000_00FF == 0xFF then Some(0)
    else if bytes & (0x0000_FF00 >> 8) == 0xFF then Some(1)
    else if bytes & (0x00FF_0000 >> 16) == 0xFF then Some(2)
    else if bytes & (0xFF00_0000 >> 24) == 0xFF then Some(3)
    else None
  }

  /** A block whose first byte is empty and whose second is full is passed over, although a run could start there. */
  lemma SecondByteNeverTried()
    ensures FullByteOffset(Word(0x00, 0xFF, 0x00, 0x00)) == None
  {
  }

  /** The offset tests as evidently intended: each byte is masked out before it is shifted down. */
  function FullByteOffsetIntended(bytes: bv32): (r: Option<int>)
    ensures r.Some? ==> 0 <= r.value < 4
  {
    if bytes & 0x0000_00FF == 0xFF then Some(0)
    else if (bytes & 0x0000_FF00) >> 8 == 0xFF then Some(1)
    else if (bytes & 0x00FF_0000) >> 16 == 0xFF then Some(2)
    else if (bytes & 0xFF00_0000) >> 24 == 0xFF then Some(3)
    else None
  }

  /** The bytes `Word` packs come back out of it, each masked and shifted down. */
  lemma WordFields(b0: bv8, b1: bv8, b2: bv8, b3: bv8)
    ensures Word(b0, b1, b2, b3) & 0x0000_00FF == b0 as bv32
    ensures (Word(b0, b1, b2, b3) & 0x0000_FF00) >> 8 == b1 as bv32
    ensures (Word(b0, b1, b2, b3) & 0x00FF_0000) >> 16 == b2 as bv32
    ensures (Word(b0, b1, b2, b3) & 0xFF00_0000) >> 24 == b3 as bv32
  {
  }

  /**
   * The intended tests find a full byte in a block exactly when it has one,
   * and pick the first.
   */
  lemma FullByteOffsetIntendedFirst(b0: bv8, b1: bv8, b2: bv8, b3: bv8)
    ensures var bs, r := [b0, b1, b2, b3], FullByteOffsetIntended(Word(b0, b1, b2, b3));
      (r.Some? <==> 0xFF in bs) && (r.Some? ==> bs[r.value] == 0xFF && 0xFF !in bs[..r.value])
  {
    WordFields(b0, b1, b2, b3);
    var bs := [b0, b1, b2, b3];
    assert bs[..1] == [b0] && bs[..2] == [b0, b1] && bs[..3] == [b0, b1, b2];
  }

  // ----- init_mark_segment -----

  /** The frames `init_mark_segment` marks for the frames `sf` up to `ef`, as written. */
  ghost predicate MarkedBySegment(g: int, sf: int, ef: int)
  {
    var sIdx, sBit, eIdx, eBit := sf / 8, sf % 8, ef / 8, ef % 8;
    var first := if sBit != 0 then sIdx + 1 else sIdx;
    (sBit != 0 && g / 8 == sIdx && g % 8 >= sBit) ||
    (first <= g / 8 < eIdx) ||
    (eBit != 0 && g / 8 == eIdx && g % 8 < eBit)
  }

  /** How far `init_mark_segment` moves the counter of available frames for `sf` up to `ef`. */
  function MarkCount(sf: int, ef: int): int
  {
    var sIdx, sBit, eIdx, eBit := sf / 8, sf % 8, ef / 8, ef % 8;
    var first := if sBit != 0 then sIdx + 1 else sIdx;
    (if sBit != 0 then 8 - sBit else 0) + (if first < eIdx then 8 * (eIdx - first) else 0) + eBit
  }

  /**
   * When the segment begins on a byte boundary or ends in a later byte than it
   * begins, `init_mark_segment` marks exactly its frames and counts each once.
   */
  lemma SegmentMarksExactly(sf: int, ef: int, g: int)
    requires 0 <= sf <= ef && (sf % 8 == 0 || sf / 8 < ef / 8)
    ensures MarkedBySegment(g, sf, ef) <==> sf <= g < ef
    ensures MarkCount(sf, ef) == ef - sf
  {
  }

  /**
   * A segment inside one byte that does not begin on its boundary marks the
   * whole byte: frames 1 and 2 mark frames 0 to 7 and count 10 frames.
   */
  lemma SegmentInsideByteMarksWholeByte()
    ensures forall g :: 0 <= g < 8 ==> MarkedBySegment(g, 1, 3)
    ensures !MarkedBySegment(8, 1, 3)
    ensures MarkCount(1, 3) == 10
  {
  }

  /**
   * The frames `init_mark_segment` evidently means to mark: when the segment
   * ends in the byte it begins in, the first loop stops at the end bit and
   * the last loop has nothing left to do.
   */
  ghost predicate MarkedBySegmentIntended(g: int, sf: int, ef: int)
  {
    var sIdx, sBit, eIdx, eBit := sf / 8, sf % 8, ef / 8, ef % 8;
    var first := if sBit != 0 then sIdx + 1 else sIdx;
    var stop := if sIdx == eIdx then eBit else 8;
    (sBit != 0 && g / 8 == sIdx && sBit <= g % 8 < stop) ||
    (first <= g / 8 < eIdx) ||
    (eBit != 0 && first <= eIdx && g / 8 == eIdx && g % 8 < eBit)
  }

  /** How far the intended `init_mark_segment` moves the counter. */
  function MarkCountIntended(sf: int, ef: int): int
  {
    var sIdx, sBit, eIdx, eBit := sf / 8, sf % 8, ef / 8, ef % 8;
    var first := if sBit != 0 then sIdx + 1 else sIdx;
    var stop := if sIdx == eIdx then eBit else 8;
    (if sBit != 0 && sBit < stop then stop - sBit else 0) + (if first < eIdx then 8 * (eIdx - first) else 0) +
    (if first <= eIdx then eBit else 0)
  }

  /** The intended marking covers exactly the segment's frames and counts each once, for every segment. */
  lemma SegmentIntendedMarksExactly(sf: int, ef: int, g: int)
    requires 0 <= sf <= ef
    ensures MarkedBySegmentIntended(g, sf, ef) <==> sf <= g < ef
    ensures MarkCountIntended(sf, ef) == ef - sf
  {
  }

  /**
   * The bytes `init_mark_segment` writes for frames `sf` up to `ef` exist:
   * the first byte when the segment begins inside it, the whole bytes, and
   * the last byte when the segment ends inside it.
   */
  predicate FramesFit(sf: int, ef: int)
  {
    0 <= sf && 0 <= ef &&
    (sf % 8 != 0 ==> sf / 8 < BITMAP_SIZE) &&
    ((if sf % 8 != 0 then sf / 8 + 1 else sf / 8) < ef / 8 ==> ef / 8 <= BITMAP_SIZE) &&
    (ef % 8 != 0 ==> ef / 8 < BITMAP_SIZE)
  }

  /** `FRAME_NUMBER(addr)`. */
  function StartFrame(addr: int): int
  {
    addr / PAGE_SIZE
  }

  /** `FRAME_NUMBER(addr + length)` with the 32-bit addition. */
  function EndFrame(addr: int, length: int): int
  {
    ((addr + length) % UINT32_MOD) / PAGE_SIZE
  }

  /** The segment `addr`, `length` lies where the bitmap can mark it. */
  predicate SegmentFits(addr: int, length: int)
  {
    0 <= addr < UINT32_MOD && 0 <= length < UINT32_MOD && FramesFit(StartFrame(addr), EndFrame(addr, length))
  }

  /** `ALIGN_BY_PAGE_SIZE`: rounded up to a multiple of the page size, in 32 bits. */
  function AlignByPageSize(n: int): (r: int)
    requires 0 <= n < UINT32_MOD
    ensures r % PAGE_SIZE == 0 && 0 <= r < UINT32_MOD
    ensures n <= UINT32_MOD - PAGE_SIZE ==> n <= r < n + PAGE_SIZE
  {
    ((n + PAGE_SIZE - 1) % UINT32_MOD) / PAGE_SIZE * PAGE_SIZE
  }

  /** The bitmap `b` with bits `lo` up to `hi` of byte `idx` set or cleared one after the other. */
  ghost function SetBits(b: seq<bv8>, idx: int, lo: int, hi: int, available: bool): (r: seq<bv8>)
    requires 0 <= idx < |b| && 0 <= lo <= hi <= 8
    ensures |r| == |b|
    decreases hi - lo
  {
    if hi == lo then b else SetFrame(SetBits(b, idx, lo, hi - 1, available), 8 * idx + hi - 1, available)
  }

  /** Marking bits `lo` up to `hi` of byte `idx` changes exactly those frames. */
  lemma {:induction false} SetBitsEffect(b: seq<bv8>, idx: int, lo: int, hi: int, available: bool, h: int)
    requires 0 <= idx < |b| && 0 <= lo <= hi <= 8 && 0 <= h < 8 * |b|
    ensures Available(SetBits(b, idx, lo, hi, available), h) <==>
      if h / 8 == idx && lo <= h % 8 < hi then available else Available(b, h)
    decreases hi - lo
  {
    if hi != lo {
      var prev, g := SetBits(b, idx, lo, hi - 1, available), 8 * idx + hi - 1;
      SetBitsEffect(b, idx, lo, hi - 1, available, h);
      SetFrameEffect(prev, g, available, h);
      assert h == 8 * (h / 8) + h % 8;
    }
  }

  /** The bitmap `b` after `init_mark_segment` marks frames `sf` up to `ef`, loop by loop. */
  ghost function SegmentBitmap(b: seq<bv8>, sf: int, ef: int, available: bool): (r: seq<bv8>)
    requires |b| == BITMAP_SIZE && FramesFit(sf, ef)
    ensures |r| == BITMAP_SIZE
  {
    var sIdx, sBit, eIdx, eBit := sf / 8, sf % 8, ef / 8, ef % 8;
    var b1 := if sBit != 0 then SetBits(b, sIdx, sBit, 8, available) else b;
    var first := if sBit != 0 then sIdx + 1 else sIdx;
    var b2 := if first < eIdx then SetBytes(b1, first, eIdx, available) else b1;
    if eBit != 0 then SetBits(b2, eIdx, 0, eBit, available) else b2
  }

  /** `init_mark_segment` changes exactly the frames `MarkedBySegment` names. */
  lemma SegmentBitmapEffect(b: seq<bv8>, sf: int, ef: int, available: bool, h: int)
    requires |b| == BITMAP_SIZE && FramesFit(sf, ef) && 0 <= h < FRAMES
    ensures Available(SegmentBitmap(b, sf, ef, available), h) <==>
      if MarkedBySegment(h, sf, ef) then available else Available(b, h)
  {
    var sIdx, sBit, eIdx, eBit := sf / 8, sf % 8, ef / 8, ef % 8;
    var b1 := if sBit != 0 then SetBits(b, sIdx, sBit, 8, available) else b;
    var first := if sBit != 0 then sIdx + 1 else sIdx;
    var b2 := if first < eIdx then SetBytes(b1, first, eIdx, available) else b1;
    if sBit != 0 {
      SetBitsEffect(b, sIdx, sBit, 8, available, h);
    }
    if first < eIdx {
      SetBytesEffect(b1, first, eIdx, available, h);
      assert 8 * first <= h < 8 * eIdx <==> first <= h / 8 < eIdx;
    }
    if eBit != 0 {
      SetBitsEffect(b2, eIdx, 0, eBit, available, h);
    }
  }

  /** A frame some segment of the memory map marks. */
  ghost predicate MarkedByMap(g: int, segments: seq<(int, int)>)
  {
    segments != [] &&
    var last := segments[|segments| - 1];
    (MarkedByMap(g, segments[..|segments| - 1]) || MarkedBySegment(g, StartFrame(last.0), EndFrame(last.0, last.1)))
  }

  /**
   * Allocating a page at or above 2048 clears the bit of a low frame instead,
   * so the page stays available and the next search finds it again.
   */
  lemma HighPageStaysAvailable(b: seq<bv8>, s: int, s': int, p: int)
    requires 0 <= s <= s' <= p && FirstAvailableFrom(b, s) == Some(p) && p >= 2048
    ensures FirstAvailableFrom(SetFrame(b, MarkedFrame(p), false), s') == Some(p)
  {
    var g := MarkedFrame(p);
    var b' := SetFrame(b, g, false);
    forall h | s' <= h < p && h < 8 * |b'|
      ensures !Available(b', h)
    {
      SetFrameEffect(b, g, false, h);
      if h != g {
        FirstAvailableIsLowest(b, s, h);
      }
    }
    SkipUnavailable(b', s', p);
    FirstAvailableIsAvailable(b, s);
    SetFrameEffect(b, g, false, p);
  }

  /**
   * With the byte index kept in 32 bits, as the bitmap's size evidently
   * needs, allocating the page the search finds takes that page: it is no
   * longer available and the next search does not find it again.
   */
  lemma IntendedAllocTakesPage(b: seq<bv8>, s: int, p: int)
    requires 0 <= s && FirstAvailableFrom(b, s) == Some(p)
    ensures !Available(SetFrame(b, p, false), p)
    ensures FirstAvailableFrom(SetFrame(b, p, false), s) != Some(p)
  {
    SetFrameEffect(b, p, false, p);
    if FirstAvailableFrom(SetFrame(b, p, false), s) == Some(p) {
      FirstAvailableIsAvailable(SetFrame(b, p, false), s);
    }
  }

  // ----- page_frame_manager_init -----

  /** A memory-map segment as `init_mark_segment` accepts it: address and length are multiples of the page size. */
  predicate PageAligned(segment: (int, int))
  {
    segment.0 % PAGE_SIZE == 0 && segment.1 % PAGE_SIZE == 0
  }

  /** Every segment of the map is page aligned and lies where the bitmap can mark it. */
  ghost predicate MapFits(segments: seq<(int, int)>)
  {
    forall k :: 0 <= k < |segments| ==> PageAligned(segments[k]) && SegmentFits(segments[k].0, segments[k].1)
  }

  /** The bitmap `b` after the segments of the map are marked available one after the other. */
  ghost function MapBitmap(b: seq<bv8>, segments: seq<(int, int)>): (r: seq<bv8>)
    requires |b| == BITMAP_SIZE && MapFits(segments)
    ensures |r| == BITMAP_SIZE
  {
    if segments == [] then b
    else
      var last := segments[|segments| - 1];
      SegmentBitmap(MapBitmap(b, segments[..|segments| - 1]), StartFrame(last.0), EndFrame(last.0, last.1), true)
  }

  /** The frames the segments of the map count in, one `MarkCount` per segment. */
  function MapCount(segments: seq<(int, int)>): int
  {
    if segments == [] then 0
    else
      var last := segments[|segments| - 1];
      MapCount(segments[..|segments| - 1]) + MarkCount(StartFrame(last.0), EndFrame(last.0, last.1))
  }

  /** Marking the map makes available exactly the frames some segment marks, and keeps those already available. */
  lemma {:induction false} MapBitmapEffect(b: seq<bv8>, segments: seq<(int, int)>, h: int)
    requires |b| == BITMAP_SIZE && MapFits(segments) && 0 <= h < FRAMES
    ensures Available(MapBitmap(b, segments), h) <==> MarkedByMap(h, segments) || Available(b, h)
    decreases |segments|
  {
    if segments != [] {
      var init, last := segments[..|segments| - 1], segments[|segments| - 1];
      var sf, ef := StartFrame(last.0), EndFrame(last.0, last.1);
      MapBitmapEffect(b, init, h);
      SegmentBitmapEffect(MapBitmap(b, init), sf, ef, true, h);
    }
  }

  /** Marking one more segment of the map extends the bitmap and the count by that segment. */
  lemma MapStep(b: seq<bv8>, segments: seq<(int, int)>, i: int)
    requires |b| == BITMAP_SIZE && 0 <= i < |segments| && MapFits(segments[..i])
    requires PageAligned(segments[i]) && SegmentFits(segments[i].0, segments[i].1)
    ensures MapFits(segments[..i + 1])
    ensures MapBitmap(b, segments[..i + 1]) ==
      SegmentBitmap(MapBitmap(b, segments[..i]), StartFrame(segments[i].0), EndFrame(segments[i].0, segments[i].1), true)
    ensures MapCount(segments[..i + 1]) == MapCount(segments[..i]) + MarkCount(StartFrame(segments[i].0), EndFrame(segments[i].0, segments[i].1))
  {
    assert segments[..i + 1][..i] == segments[..i];
  }

  /**
   * How `init_mark_segment` ends: with the segment marked, in the `kassert`
   * on a misaligned address or length, or at its first write past the end
   * of `memory_bitmap`.
   */
  datatype MarkOutcome = Marked | Misaligned | WritesPastBitmap

  /** The outcome of `init_mark_segment` for the segment `addr`, `length`. */
  function SegmentOutcome(addr: int, length: int): MarkOutcome
  {
    if addr % PAGE_SIZE != 0 || length % PAGE_SIZE != 0 then Misaligned
    else if !SegmentFits(addr, length) then WritesPastBitmap
    else Marked
  }

  /** The outcome of marking the segments of the map in order: that of the first segment not marked, if any. */
  function MapOutcome(segments: seq<(int, int)>): MarkOutcome
  {
    if segments == [] then Marked
    else if SegmentOutcome(segments[0].0, segments[0].1) != Marked then SegmentOutcome(segments[0].0, segments[0].1)
    else MapOutcome(segments[1..])
  }

  /**
   * The map is marked exactly when every segment is aligned and fits;
   * otherwise the outcome is that of a segment all of whose predecessors fit.
   */
  lemma {:induction false} MapOutcomeFirstFailure(segments: seq<(int, int)>)
    ensures MapOutcome(segments) == Marked <==> MapFits(segments)
    ensures MapOutcome(segments) != Marked ==>
      exists k :: 0 <= k < |segments| && MapFits(segments[..k]) && MapOutcome(segments) == SegmentOutcome(segments[k].0, segments[k].1)
    decreases |segments|
  {
    if segments != [] {
      var rest := segments[1..];
      MapOutcomeFirstFailure(rest);
      if SegmentOutcome(segments[0].0, segments[0].1) != Marked {
        assert MapFits(segments[..0]);
      } else {
        if MapOutcome(rest) != Marked {
          var k :| 0 <= k < |rest| && MapFits(rest[..k]) && MapOutcome(rest) == SegmentOutcome(rest[k].0, rest[k].1);
          assert segments[..k + 1] == [segments[0]] + rest[..k];
          assert MapFits(segments[..k + 1]);
        } else {
          forall j | 0 <= j < |segments|
            ensures PageAligned(segments[j]) && SegmentFits(segments[j].0, segments[j].1)
          {
            if j > 0 { assert segments[j] == rest[j - 1]; }
          }
        }
      }
    }
  }

  /** The loop of `page_frame_manager_init` past a marked segment: the map's outcome is that of the remaining segments. */
  lemma MapOutcomeStep(segments: seq<(int, int)>, i: int)
    requires 0 <= i < |segments| && SegmentOutcome(segments[i].0, segments[i].1) == Marked
    ensures MapOutcome(segments[i..]) == MapOutcome(segments[i + 1..])
  {
    assert segments[i..][1..] == segments[i + 1..];
  }

  /**
   * On a machine with 3 GiB of memory the map segment above 1 MiB ends past
   * the 2 GiB the bitmap covers, so `init_mark_segment` writes past
   * `memory_bitmap`; a segment ending below 2 GiB is marked.
   */
  lemma LargeMapWritesPastBitmap()
    ensures MapOutcome([(0x10_0000, 0xBFEE_0000)]) == WritesPastBitmap
    ensures MapOutcome([(0x10_0000, 0x7FEE_0000)]) == Marked
  {
  }

  /** The frames of `sf` up to `ef` the bitmap describes: the segment as a corrected `init_mark_segment` clips it. */
  function ClipFrames(sf: int, ef: int): (r: (int, int))
    requires 0 <= sf <= ef
    ensures 0 <= r.0 <= r.1 <= FRAMES && FramesFit(r.0, r.1)
  {
    (if sf < FRAMES then sf else FRAMES, if ef < FRAMES then ef else FRAMES)
  }

  /**
   * Clipping a segment to the bitmap before the corrected marking marks
   * exactly the segment's frames below 2 GiB, for every segment, and counts
   * each once.
   */
  lemma ClippedSegmentMarksLowFrames(sf: int, ef: int, g: int)
    requires 0 <= sf <= ef
    ensures MarkedBySegmentIntended(g, ClipFrames(sf, ef).0, ClipFrames(sf, ef).1) <==> sf <= g < ef && g < FRAMES
    ensures MarkCountIntended(ClipFrames(sf, ef).0, ClipFrames(sf, ef).1) ==
      (if ef < FRAMES then ef else FRAMES) - (if sf < FRAMES then sf else FRAMES)
  {
    var r := ClipFrames(sf, ef);
    SegmentIntendedMarksExactly(r.0, r.1, g);
  }

  /** `KERNEL_END - HIGHER_HALF_ADDR - KERNEL_START` in 32-bit arithmetic. */
  function KernelLength(kernelStart: int, kernelEnd: int, higherHalf: int): (r: int)
    ensures 0 <= r < UINT32_MOD
  {
    (kernelEnd - higherHalf - kernelStart) % UINT32_MOD
  }

  /** The all-zero bitmap `memset` leaves: no frame available. */
  ghost function ZeroBitmap(): (r: seq<bv8>)
    ensures |r| == BITMAP_SIZE && forall k :: 0 <= k < BITMAP_SIZE ==> r[k] == 0
  {
    seq(BITMAP_SIZE, _ => 0)
  }

  /**
   * The bitmap `page_frame_manager_init` builds: the map's segments marked
   * available on a zeroed bitmap, then the kernel's frames marked unavailable.
   */
  ghost function InitBitmap(segments: seq<(int, int)>, kernelStart: int, kernelLength: int): (r: seq<bv8>)
    requires MapFits(segments) && SegmentFits(kernelStart, kernelLength)
    ensures |r| == BITMAP_SIZE
  {
    SegmentBitmap(MapBitmap(ZeroBitmap(), segments), StartFrame(kernelStart), EndFrame(kernelStart, kernelLength), false)
  }

  /** After initialisation a frame is available exactly when a segment of the map marks it and the kernel's segment does not. */
  lemma InitAvailable(segments: seq<(int, int)>, kernelStart: int, kernelLength: int, h: int)
    requires MapFits(segments) && SegmentFits(kernelStart, kernelLength) && 0 <= h < FRAMES
    ensures Available(InitBitmap(segments, kernelStart, kernelLength), h) <==>
      MarkedByMap(h, segments) && !MarkedBySegment(h, StartFrame(kernelStart), EndFrame(kernelStart, kernelLength))
  {
    MapBitmapEffect(ZeroBitmap(), segments, h);
    SegmentBitmapEffect(MapBitmap(ZeroBitmap(), segments), StartFrame(kernelStart), EndFrame(kernelStart, kernelLength), false, h);
    assert !HasBit(0, h % 8);
  }

  // ----- allocation and freeing -----

  /** Clearing the bit of an available frame and setting it again gives back the bitmap. */
  lemma AllocFreeFrame(b: seq<bv8>, g: int)
    requires 0 <= g < 8 * |b| && Available(b, g)
    ensures !Available(SetFrame(b, g, false), g)
    ensures SetFrame(SetFrame(b, g, false), g, true) == b
  {
    var x, n := b[g / 8], g % 8;
    SetFrameEffect(b, g, false, g);
    assert (x & !Bit(n)) | Bit(n) == x by {
      if n == 0 {} else if n == 1 {} else if n == 2 {} else if n == 3 {}
      else if n == 4 {} else if n == 5 {} else if n == 6 {} else {}
    }
  }

  /** Emptying a run of full bytes and filling it again gives back the bitmap. */
  lemma AllocFreeRun(b: seq<bv8>, k: int, n: int)
    requires FullRun(b, k, n)
    ensures SetBytes(SetBytes(b, k, k + n, false), k, k + n, true) == b
  {
    var r := SetBytes(SetBytes(b, k, k + n, false), k, k + n, true);
    forall m | 0 <= m < |b|
      ensures r[m] == b[m]
    {
      SetBytesAt(SetBytes(b, k, k + n, false), k, k + n, true, m);
      SetBytesAt(b, k, k + n, false, m);
    }
  }

  /** The truncated byte index of the run's first page is the run's byte modulo 256. */
  lemma RunByteIndex(k: int)
    requires 0 <= k
    ensures ByteIndex(8 * k) == k % 256
  {
    assert 8 * k / 8 == k;
  }

  /**
   * A run found at byte 256 or later is marked through its truncated byte
   * index: when the bytes marked lie below the run, the run stays full.
   */
  lemma HighRunStaysFree(b: seq<bv8>, k: int, n: int)
    requires FullRun(b, k, n) && k % 256 + n <= k
    ensures FullRun(SetBytes(b, k % 256, k % 256 + n, false), k, n)
  {
    var r := SetBytes(b, k % 256, k % 256 + n, false);
    forall m | k <= m < k + n
      ensures r[m] == 0xFF
    {
      SetBytesAt(b, k % 256, k % 256 + n, false, m);
    }
  }

  class PageFrameManager {
    /** `memory_bitmap`. */
    const bitmap: array<bv8>
    /** `first_available_frame_idx`: despite its name, the byte index where searches start. */
    var firstAvailableIdx: int
    /** `n_available_frames`. */
    var nAvailable: int
    /** `amount_of_memory`. */
    var amountOfMemory: int
    /** `n_frames`. */
    var nFrames: int
    /** Frames counted in minus frames counted out: `n_available_frames` before 32-bit wrap-around. */
    ghost var count: int

    ghost predicate Valid()
      reads this
    {
      bitmap.Length == BITMAP_SIZE && 0 <= firstAvailableIdx < UINT32_MOD && nAvailable == count % UINT32_MOD &&
      0 <= amountOfMemory < UINT32_MOD && 0 <= nFrames < UINT32_MOD
    }

    /** Frame `f` is marked available. */
    ghost predicate IsAvailable(f: int)
      reads this, bitmap
      requires 0 <= f < 8 * bitmap.Length
    {
      Available(bitmap[..], f)
    }

    /** The static state: a zeroed bitmap and zeroed counters. */
    constructor ()
      ensures Valid() && fresh(bitmap)
      ensures forall f :: 0 <= f < FRAMES ==> !IsAvailable(f)
      ensures firstAvailableIdx == 0 && count == 0 && amountOfMemory == 0 && nFrames == 0
    {
      bitmap := new bv8[BITMAP_SIZE](_ => 0);
      firstAvailableIdx, nAvailable, amountOfMemory, nFrames := 0, 0, 0, 0;
      count := 0;
    }

    /** `check_page_available`: the bit the page's truncated byte index selects. */
    method CheckPageAvailable(p: int) returns (available: bool)
      requires bitmap.Length == BITMAP_SIZE && 0 <= p < UINT32_MOD
      ensures available == IsAvailable(MarkedFrame(p))
      ensures p < 2048 ==> available == IsAvailable(p)
    {
      var idx := ByteIndex(p);
      var bit := p % 8;
      available := bitmap[idx] & Bit(bit) != 0;
      MaskBit(bitmap[idx], bit);
    }

    /**
     * `mark_page`: sets or clears the page's bit (through the truncated byte
     * index), counts the frame in or out, and on freeing moves the search
     * start back to the byte when it lies lower.
     */
    method MarkPage(p: int, available: bool)
      requires Valid() && 0 <= p < UINT32_MOD
      modifies this, bitmap
      ensures Valid() && amountOfMemory == old(amountOfMemory) && nFrames == old(nFrames)
      ensures bitmap[..] == SetFrame(old(bitmap[..]), MarkedFrame(p), available)
      ensures count == old(count) + if available then 1 else -1
      ensures firstAvailableIdx ==
        if available && ByteIndex(p) < old(firstAvailableIdx) then ByteIndex(p) else old(firstAvailableIdx)
    {
      var idx := ByteIndex(p);
      var bit := p % 8;
      MarkedFrameParts(p);
      UpdateBit(idx, bit, available);
      if available {
        AddMod(count, 1);
        nAvailable, count := (nAvailable + 1) % UINT32_MOD, count + 1;
        if idx < firstAvailableIdx {
          firstAvailableIdx := idx;
        }
      } else {
        AddMod(count, -1);
        nAvailable, count := (nAvailable - 1) % UINT32_MOD, count - 1;
      }
    }

    /** `SET_BIT` or `CLR_BIT` on one byte of the bitmap. */
    method UpdateBit(idx: int, bit: int, available: bool)
      requires bitmap.Length == BITMAP_SIZE && 0 <= idx < BITMAP_SIZE && 0 <= bit < 8
      modifies bitmap
      ensures bitmap[..] == SetFrame(old(bitmap[..]), 8 * idx + bit, available)
    {
      if available {
        bitmap[idx] := bitmap[idx] | Bit(bit);
      } else {
        bitmap[idx] := bitmap[idx] & !Bit(bit);
      }
      assert (8 * idx + bit) / 8 == idx && (8 * idx + bit) % 8 == bit;
    }

    /** One byte of the bitmap set to 0xFF or 0x00. */
    method FillByte(k: int, available: bool)
      requires bitmap.Length == BITMAP_SIZE && 0 <= k < BITMAP_SIZE
      modifies bitmap
      ensures bitmap[..] == old(bitmap[..])[k := if available then 0xFF else 0x00]
    {
      bitmap[k] := if available then 0xFF else 0x00;
    }

    /**
     * One iteration of `mark_8n_pages`: byte `idx + i` filled, 8 frames
     * counted in or out, and the search start moved back on freeing.
     */
    method MarkByte(idx: int, i: int, available: bool, ghost orig: seq<bv8>)
      requires Valid() && 0 <= idx && 0 <= i && idx + i < BITMAP_SIZE && |orig| == BITMAP_SIZE
      requires bitmap[..] == SetBytes(orig, idx, idx + i, available)
      modifies this, bitmap
      ensures Valid() && amountOfMemory == old(amountOfMemory) && nFrames == old(nFrames)
      ensures bitmap[..] == SetBytes(orig, idx, idx + i + 1, available)
      ensures count == old(count) + if available then 8 else -8
      ensures firstAvailableIdx == if available && idx < old(firstAvailableIdx) then idx else old(firstAvailableIdx)
    {
      SetBytesStep(orig, idx, idx + i, available);
      FillByte(idx + i, available);
      if available {
        AddMod(count, 8);
        nAvailable, count := (nAvailable + 8) % UINT32_MOD, count + 8;
        if idx < firstAvailableIdx {
          firstAvailableIdx := idx;
        }
      } else {
        AddMod(count, -8);
        nAvailable, count := (nAvailable - 8) % UINT32_MOD, count - 8;
      }
    }

    /**
     * `mark_8n_pages`: the `n` bytes from the page's truncated byte index on
     * become all available or all unavailable, 8 frames counted per byte.
     */
    method Mark8nPages(p: int, n: int, available: bool)
      requires Valid() && 0 <= p < UINT32_MOD && 0 <= n < UINT32_MOD && ByteIndex(p) + n <= BITMAP_SIZE
      modifies this, bitmap
      ensures Valid() && amountOfMemory == old(amountOfMemory) && nFrames == old(nFrames)
      ensures bitmap[..] == SetBytes(old(bitmap[..]), ByteIndex(p), ByteIndex(p) + n, available)
      ensures count == old(count) + if available then 8 * n else -8 * n
      ensures firstAvailableIdx ==
        if available && n > 0 && ByteIndex(p) < old(firstAvailableIdx) then ByteIndex(p) else old(firstAvailableIdx)
    {
      var idx := ByteIndex(p);
      ghost var orig, count0, first0, memory0, frames0 := bitmap[..], count, firstAvailableIdx, amountOfMemory, nFrames;
      var i := 0;
      while i < n
        invariant 0 <= i <= n && Valid()
        invariant amountOfMemory == memory0 && nFrames == frames0
        invariant bitmap[..] == SetBytes(orig, idx, idx + i, available)
        invariant count == count0 + if available then 8 * i else -8 * i
        invariant firstAvailableIdx == if available && i > 0 && idx < first0 then idx else first0
      {
        MarkByte(idx, i, available, orig);
        i := i + 1;
      }
    }

    /** `*(uint32_t *)(memory_bitmap + i)`: the block at `i` as a little-endian word. */
    method LoadWord(i: int) returns (bytes: bv32)
      requires bitmap.Length == BITMAP_SIZE && 0 <= i && i + 4 <= BITMAP_SIZE
      ensures bytes > 0 <==> BlockNonzero(bitmap[..], i)
      ensures bytes & 0xFF == bitmap[i] as bv32
    {
      bytes := Word(bitmap[i], bitmap[i + 1], bitmap[i + 2], bitmap[i + 3]);
      WordBytes(bitmap[i], bitmap[i + 1], bitmap[i + 2], bitmap[i + 3]);
    }

    /** `MASK_BIT(bytes, j)` for the word at block `i`: bit `j % 8` of byte `i + j / 8`. */
    method WordBit(i: int, j: int) returns (isSet: bool)
      requires bitmap.Length == BITMAP_SIZE && 0 <= i && i + 4 <= BITMAP_SIZE && 0 <= j < 32
      ensures isSet == Available(bitmap[..], 8 * i + j)
    {
      isSet := bitmap[i + j / 8] & Bit(j % 8) != 0;
      MaskBit(bitmap[i + j / 8], j % 8);
      assert (8 * i + j) / 8 == i + j / 8 && (8 * i + j) % 8 == j % 8;
    }

    /**
     * The bit loop of `find_available_page`: the lowest set bit of the
     * non-zero little-endian word at block `i`.  Bit `j` of the word is bit
     * `j % 8` of byte `i + j / 8`, which is where the test reads it; since
     * the word is non-zero, the loop stops at bit 31 at the latest.
     */
    method LowestSetBit(i: int) returns (j: int)
      requires bitmap.Length == BITMAP_SIZE && 0 <= i && i + 4 <= BITMAP_SIZE && BlockNonzero(bitmap[..], i)
      ensures 0 <= j < 32 && FirstAvailableFrom(bitmap[..], 8 * i) == Some(8 * i + j)
    {
      ghost var b := bitmap[..];
      NonzeroBlockFound(b, i);
      j := 0;
      var isSet := WordBit(i, j);
      while j < 31 && !isSet
        invariant 0 <= j <= 31 && isSet == Available(b, 8 * i + j)
        invariant FirstAvailableFrom(b, 8 * i) == FirstAvailableFrom(b, 8 * i + j)
      {
        j := j + 1;
        isSet := WordBit(i, j);
      }
    }

    /**
     * `find_available_page`: from the search start rounded down to a 4-byte
     * block, the first block whose 32-bit word is non-zero becomes the new
     * search start, and its lowest set bit names the page; 0 when no block
     * has one.
     */
    method FindAvailablePage() returns (page: int)
      requires Valid()
      modifies this
      ensures Valid() && count == old(count) && amountOfMemory == old(amountOfMemory) && nFrames == old(nFrames)
      ensures page == OrZero(FirstAvailableFrom(bitmap[..], 8 * RoundDown4(old(firstAvailableIdx))))
      ensures firstAvailableIdx ==
        if FirstAvailableFrom(bitmap[..], 8 * RoundDown4(old(firstAvailableIdx))).Some? then page / 32 * 4
        else old(firstAvailableIdx)
    {
      ghost var b, count0, first0, memory0, frames0 := bitmap[..], count, firstAvailableIdx, amountOfMemory, nFrames;
      ghost var s := 8 * RoundDown4(firstAvailableIdx);
      var i := RoundDown4(firstAvailableIdx);
      ghost var q := i / 4;
      while i < BITMAP_SIZE
        invariant i == 4 * q
        invariant 8 * i >= s
        invariant Valid()
        invariant firstAvailableIdx == first0
        invariant count == count0 && amountOfMemory == memory0 && nFrames == frames0
        invariant FirstAvailableFrom(b, s) == FirstAvailableFrom(b, 8 * i)
        decreases BITMAP_SIZE - i
      {
        assert i % 4 == 0;
        var bytes := LoadWord(i);
        if bytes > 0 {
          firstAvailableIdx := i;
          var j := LowestSetBit(i);
          page := 8 * i + j;
          BlockOfPage(i, j);
          return;
        }
        ZeroBlock(b, i);
        i, q := i + 4, q + 1;
      }
      page := 0;
    }

    /**
     * The run test of `find_available_8n_pages`: bytes `k` up to `k + n` are
     * all 0xFF.  A byte past the end of the bitmap counts as not 0xFF.
     */
    method FullRunAt(k: int, n: int) returns (found: bool)
      requires bitmap.Length == BITMAP_SIZE && 0 <= k < BITMAP_SIZE && 0 <= n
      ensures found <==> FullRun(bitmap[..], k, n)
    {
      found := true;
      var j := 0;
      while j < n
        invariant 0 <= j <= n
        invariant found <==> k + j <= BITMAP_SIZE && forall m :: k <= m < k + j ==> bitmap[m] == 0xFF
      {
        if k + j >= BITMAP_SIZE || bitmap[k + j] != 0xFF {
          found := false;
        }
        j := j + 1;
      }
    }

    /**
     * `find_available_8n_pages`: from the search start rounded down to a
     * 4-byte block, the first non-zero block becomes the new search start,
     * and the first non-zero block whose first byte begins `n` full bytes
     * names the run; 0 when there is none.
     */
    method FindAvailable8nPages(n: int) returns (page: int)
      requires Valid() && 0 <= n < UINT32_MOD
      modifies this
      ensures Valid() && count == old(count) && amountOfMemory == old(amountOfMemory) && nFrames == old(nFrames)
      ensures var r := FirstRunFrom(bitmap[..], RoundDown4(old(firstAvailableIdx)), n);
        page == if r.Some? then 8 * r.value else 0
      ensures var z := FirstNonzeroFrom(bitmap[..], RoundDown4(old(firstAvailableIdx)));
        firstAvailableIdx == if z.Some? then z.value else old(firstAvailableIdx)
    {
      ghost var b, count0, first0, memory0, frames0 := bitmap[..], count, firstAvailableIdx, amountOfMemory, nFrames;
      ghost var s := RoundDown4(firstAvailableIdx);
      var foundFree := false;
      var i := RoundDown4(firstAvailableIdx);
      ghost var q := i / 4;
      while i < BITMAP_SIZE
        invariant i == 4 * q && s <= i
        invariant Valid() && count == count0 && amountOfMemory == memory0 && nFrames == frames0
        invariant FirstRunFrom(b, s, n) == FirstRunFrom(b, i, n)
        invariant !foundFree ==> FirstNonzeroFrom(b, s) == FirstNonzeroFrom(b, i) && firstAvailableIdx == first0
        invariant foundFree ==> FirstNonzeroFrom(b, s).Some? && firstAvailableIdx == FirstNonzeroFrom(b, s).value
        decreases BITMAP_SIZE - i
      {
        assert i % 4 == 0;
        var bytes := LoadWord(i);
        if bytes > 0 {
          if !foundFree {
            foundFree := true;
            firstAvailableIdx := i;
          }
          var offset := FullByteOffset(bytes);
          if offset.Some? {
            var found := FullRunAt(i + offset.value, n);
            if found {
              page := (i + offset.value) * 8;
              return;
            }
          }
        }
        i, q := i + 4, q + 1;
      }
      page := 0;
    }

    /** One iteration of a bit loop of `init_mark_segment`: bit `i` of byte `idx` marked, one frame counted. */
    method MarkBit(idx: int, i: int, available: bool, ghost orig: seq<bv8>, ghost lo: int)
      requires Valid() && 0 <= idx < BITMAP_SIZE && 0 <= lo <= i < 8 && |orig| == BITMAP_SIZE
      requires bitmap[..] == SetBits(orig, idx, lo, i, available)
      modifies this, bitmap
      ensures Valid() && firstAvailableIdx == old(firstAvailableIdx)
      ensures amountOfMemory == old(amountOfMemory) && nFrames == old(nFrames)
      ensures bitmap[..] == SetBits(orig, idx, lo, i + 1, available)
      ensures count == old(count) + if available then 1 else -1
    {
      UpdateBit(idx, i, available);
      if available {
        AddMod(count, 1);
        nAvailable, count := (nAvailable + 1) % UINT32_MOD, count + 1;
      } else {
        AddMod(count, -1);
        nAvailable, count := (nAvailable - 1) % UINT32_MOD, count - 1;
      }
    }

    /** A bit loop of `init_mark_segment`: bits `lo` up to `hi` of byte `idx`, one frame counted per bit. */
    method MarkBits(idx: int, lo: int, hi: int, available: bool)
      requires Valid() && 0 <= idx < BITMAP_SIZE && 0 <= lo <= hi <= 8
      modifies this, bitmap
      ensures Valid() && firstAvailableIdx == old(firstAvailableIdx)
      ensures amountOfMemory == old(amountOfMemory) && nFrames == old(nFrames)
      ensures bitmap[..] == SetBits(old(bitmap[..]), idx, lo, hi, available)
      ensures count == old(count) + if available then hi - lo else lo - hi
    {
      ghost var orig, count0, first0, memory0, frames0 := bitmap[..], count, firstAvailableIdx, amountOfMemory, nFrames;
      var i := lo;
      while i < hi
        invariant lo <= i <= hi && Valid() && firstAvailableIdx == first0
        invariant amountOfMemory == memory0 && nFrames == frames0
        invariant bitmap[..] == SetBits(orig, idx, lo, i, available)
        invariant count == count0 + if available then i - lo else lo - i
      {
        MarkBit(idx, i, available, orig, lo);
        i := i + 1;
      }
    }

    /** One iteration of the byte loop of `init_mark_segment`: byte `k` filled, 8 frames counted. */
    method MarkWholeByte(k: int, available: bool, ghost orig: seq<bv8>, ghost lo: int)
      requires Valid() && 0 <= lo <= k < BITMAP_SIZE && |orig| == BITMAP_SIZE
      requires bitmap[..] == SetBytes(orig, lo, k, available)
      modifies this, bitmap
      ensures Valid() && firstAvailableIdx == old(firstAvailableIdx)
      ensures amountOfMemory == old(amountOfMemory) && nFrames == old(nFrames)
      ensures bitmap[..] == SetBytes(orig, lo, k + 1, available)
      ensures count == old(count) + if available then 8 else -8
    {
      SetBytesStep(orig, lo, k, available);
      FillByte(k, available);
      if available {
        AddMod(count, 8);
        nAvailable, count := (nAvailable + 8) % UINT32_MOD, count + 8;
      } else {
        AddMod(count, -8);
        nAvailable, count := (nAvailable - 8) % UINT32_MOD, count - 8;
      }
    }

    /** The byte loop of `init_mark_segment`: bytes `lo` up to `hi`, 8 frames counted per byte. */
    method MarkBytes(lo: int, hi: int, available: bool)
      requires Valid() && 0 <= lo <= hi <= BITMAP_SIZE
      modifies this, bitmap
      ensures Valid() && firstAvailableIdx == old(firstAvailableIdx)
      ensures amountOfMemory == old(amountOfMemory) && nFrames == old(nFrames)
      ensures bitmap[..] == SetBytes(old(bitmap[..]), lo, hi, available)
      ensures count == old(count) + if available then 8 * (hi - lo) else 8 * (lo - hi)
    {
      ghost var orig, count0, first0, memory0, frames0 := bitmap[..], count, firstAvailableIdx, amountOfMemory, nFrames;
      var k := lo;
      while k < hi
        invariant lo <= k <= hi && Valid() && firstAvailableIdx == first0
        invariant amountOfMemory == memory0 && nFrames == frames0
        invariant bitmap[..] == SetBytes(orig, lo, k, available)
        invariant count == count0 + if available then 8 * (k - lo) else 8 * (lo - k)
      {
        MarkWholeByte(k, available, orig, lo);
        k := k + 1;
      }
    }

    /**
     * The three loops of `init_mark_segment` for frames `sf` up to `ef`:
     * the bits of the first byte from the segment's start on, the whole
     * bytes after it up to the end's byte, and the bits of the end's byte
     * below the end.
     */
    method MarkSegment(sf: int, ef: int, available: bool)
      requires Valid() && FramesFit(sf, ef)
      modifies this, bitmap
      ensures Valid() && firstAvailableIdx == old(firstAvailableIdx)
      ensures amountOfMemory == old(amountOfMemory) && nFrames == old(nFrames)
      ensures bitmap[..] == SegmentBitmap(old(bitmap[..]), sf, ef, available)
      ensures count == old(count) + if available then MarkCount(sf, ef) else -MarkCount(sf, ef)
    {
      var startIdx := sf / 8;
      var startBit := sf % 8;
      if startBit != 0 {
        MarkBits(startIdx, startBit, 8, available);
        startIdx := startIdx + 1;
      }
      var endIdx := ef / 8;
      var endBit := ef % 8;
      if startIdx < endIdx {
        MarkBytes(startIdx, endIdx, available);
      }
      if endBit != 0 {
        MarkBits(endIdx, 0, endBit, available);
      }
    }

    /**
     * `init_mark_segment`: panics unless address and length are multiples
     * of the page size; otherwise resets the search start and marks the
     * frames from `FRAME_NUMBER(addr)` up to `FRAME_NUMBER(addr + length)`.
     * A segment the bitmap cannot hold ends at the first write past
     * `memory_bitmap`: only the writes before it are made.
     */
    method InitMarkSegment(addr: int, length: int, available: bool) returns (outcome: MarkOutcome)
      requires Valid() && 0 <= addr < UINT32_MOD && 0 <= length < UINT32_MOD
      modifies this, bitmap
      ensures outcome == SegmentOutcome(addr, length)
      ensures outcome == Misaligned ==> unchanged(this) && unchanged(bitmap)
      ensures Valid() && amountOfMemory == old(amountOfMemory) && nFrames == old(nFrames)
      ensures outcome != Misaligned ==> firstAvailableIdx == 0
      ensures outcome == Marked ==>
        bitmap[..] == SegmentBitmap(old(bitmap[..]), StartFrame(addr), EndFrame(addr, length), available)
      ensures outcome == Marked ==>
        var c := MarkCount(StartFrame(addr), EndFrame(addr, length));
        count == old(count) + if available then c else -c
      ensures outcome == WritesPastBitmap ==>
        bitmap[..] == if StartFrame(addr) < FRAMES then SegmentBitmap(old(bitmap[..]), StartFrame(addr), FRAMES, available)
                      else old(bitmap[..])
      ensures outcome == WritesPastBitmap ==>
        var c := if StartFrame(addr) < FRAMES then MarkCount(StartFrame(addr), FRAMES) else 0;
        count == old(count) + if available then c else -c
    {
      if addr % PAGE_SIZE != 0 || length % PAGE_SIZE != 0 {
        return Misaligned;
      }
      firstAvailableIdx := 0;
      var sf, ef := addr / PAGE_SIZE, ((addr + length) % UINT32_MOD) / PAGE_SIZE;
      if FramesFit(sf, ef) {
        MarkSegment(sf, ef, available);
        outcome := Marked;
      } else {
        if sf < FRAMES {
          MarkSegment(sf, FRAMES, available);
        }
        outcome := WritesPastBitmap;
      }
    }

    /** The first half of `page_frame_manager_init`: the bitmap cleared, then every segment of the map marked available in turn. */
    method MarkMemoryMap(segments: seq<(int, int)>) returns (outcome: MarkOutcome)
      requires Valid()
      requires forall k :: 0 <= k < |segments| ==> 0 <= segments[k].0 < UINT32_MOD && 0 <= segments[k].1 < UINT32_MOD
      modifies this, bitmap
      ensures Valid() && amountOfMemory == old(amountOfMemory)
      ensures outcome == MapOutcome(segments)
      ensures outcome == Marked ==> MapFits(segments) && bitmap[..] == MapBitmap(ZeroBitmap(), segments)
      ensures outcome == Marked ==> count == old(count) + MapCount(segments)
    {
      forall k | 0 <= k < bitmap.Length { bitmap[k] := 0; }
      assert bitmap[..] == ZeroBitmap();
      ghost var count0 := count;
      var i := 0;
      while i < |segments|
        invariant 0 <= i <= |segments| && Valid() && amountOfMemory == old(amountOfMemory)
        invariant MapFits(segments[..i]) && MapOutcome(segments[i..]) == MapOutcome(segments)
        invariant bitmap[..] == MapBitmap(ZeroBitmap(), segments[..i])
        invariant count == count0 + MapCount(segments[..i])
      {
        var segment := segments[i];
        outcome := InitMarkSegment(segment.0, segment.1, true);
        if outcome != Marked {
          assert segments[i..][0] == segment;
          return;
        }
        MapStep(ZeroBitmap(), segments, i);
        MapOutcomeStep(segments, i);
        i := i + 1;
      }
      assert segments[..i] == segments;
      outcome := Marked;
    }

    /**
     * `page_frame_manager_init`: zeroes the bitmap, marks each segment of
     * the memory map available, takes the count so far as the number of
     * frames, then marks the kernel's frames unavailable.  The counter of
     * available frames is not reset: it starts from its static value.
     * The first segment that is not marked ends initialisation.
     */
    method Init(segments: seq<(int, int)>, memoryAmount: int, kernelStart: int, kernelEnd: int, higherHalf: int)
      returns (outcome: MarkOutcome)
      requires Valid() && 0 <= memoryAmount < UINT32_MOD && 0 <= kernelStart < UINT32_MOD
      requires forall k :: 0 <= k < |segments| ==> 0 <= segments[k].0 < UINT32_MOD && 0 <= segments[k].1 < UINT32_MOD
      modifies this, bitmap
      ensures Valid() && amountOfMemory == memoryAmount
      ensures outcome ==
        if MapOutcome(segments) != Marked then MapOutcome(segments)
        else SegmentOutcome(kernelStart, AlignByPageSize(KernelLength(kernelStart, kernelEnd, higherHalf)))
      ensures outcome == Marked ==>
        MapFits(segments) && SegmentFits(kernelStart, AlignByPageSize(KernelLength(kernelStart, kernelEnd, higherHalf)))
      ensures outcome == Marked ==>
        bitmap[..] == InitBitmap(segments, kernelStart, AlignByPageSize(KernelLength(kernelStart, kernelEnd, higherHalf)))
      ensures outcome == Marked ==>
        var kernelLength := AlignByPageSize(KernelLength(kernelStart, kernelEnd, higherHalf));
        count == old(count) + MapCount(segments) - MarkCount(StartFrame(kernelStart), EndFrame(kernelStart, kernelLength))
      ensures outcome == Marked ==> firstAvailableIdx == 0
      ensures outcome == Marked ==> nFrames == (old(count) + MapCount(segments)) % UINT32_MOD
    {
      amountOfMemory := memoryAmount;
      outcome := MarkMemoryMap(segments);
      if outcome != Marked { return; }
      var length := KernelLength(kernelStart, kernelEnd, higherHalf);
      outcome := MarkKernel(kernelStart, AlignByPageSize(length));
    }

    /** The second half of `page_frame_manager_init`: the frame count taken, then the kernel's segment marked unavailable. */
    method MarkKernel(kernelStart: int, kernelLength: int) returns (outcome: MarkOutcome)
      requires Valid() && 0 <= kernelStart < UINT32_MOD && 0 <= kernelLength < UINT32_MOD
      modifies this, bitmap
      ensures Valid() && amountOfMemory == old(amountOfMemory)
      ensures nFrames == old(count) % UINT32_MOD
      ensures outcome == SegmentOutcome(kernelStart, kernelLength)
      ensures outcome == Marked ==> firstAvailableIdx == 0
      ensures outcome == Marked ==>
        bitmap[..] == SegmentBitmap(old(bitmap[..]), StartFrame(kernelStart), EndFrame(kernelStart, kernelLength), false)
      ensures outcome == Marked ==> count == old(count) - MarkCount(StartFrame(kernelStart), EndFrame(kernelStart, kernelLength))
    {
      nFrames := nAvailable;
      outcome := InitMarkSegment(kernelStart, kernelLength, false);
    }

    /** `page_frame_manger_memory_stats`: the amount of memory, the frames available and the frames in all. */
    method MemoryStats() returns (memoryAmount: int, available: int, frames: int)
      requires Valid()
      ensures memoryAmount == amountOfMemory && frames == nFrames
      ensures available == count % UINT32_MOD
    {
      memoryAmount, available, frames := amountOfMemory, nAvailable, nFrames;
    }

    /**
     * `page_frame_alloc_page`: panics when bit 0 of the options asks for
     * high memory; otherwise takes the page the search finds and returns its
     * address, or 0 when the search finds none or finds page 0.
     */
    method AllocPage(options: int) returns (r: Outcome<int>)
      requires Valid() && 0 <= options < 256
      modifies this, bitmap
      ensures Valid() && amountOfMemory == old(amountOfMemory) && nFrames == old(nFrames)
      ensures r.Panic? <==> options % 2 == 1
      ensures r.Panic? ==> unchanged(this) && unchanged(bitmap)
      ensures r.Return? ==>
        var page := OrZero(FirstAvailableFrom(old(bitmap[..]), 8 * RoundDown4(old(firstAvailableIdx))));
        if page == 0 then r.value == 0 && bitmap[..] == old(bitmap[..]) && count == old(count)
        else (r.value == page * PAGE_SIZE && firstAvailableIdx == page / 32 * 4 && count == old(count) - 1 &&
          bitmap[..] == SetFrame(old(bitmap[..]), MarkedFrame(page), false))
    {
      if options % 2 == 1 {
        return Panic;
      }
      var page := FindAvailablePage();
      if page == 0 {
        return Return(0);
      }
      MarkPage(page, false);
      r := Return(page * PAGE_SIZE);
    }

    /**
     * `page_frame_alloc_pages`: panics when bit 0 of the options asks for
     * high memory; returns 0 for `n == 0`; otherwise marks the run of `n`
     * full bytes the search finds unavailable, through its truncated byte
     * index, and returns its address, or 0 when there is none or it begins
     * at page 0.
     */
    method AllocPages(options: int, n: int) returns (r: Outcome<int>)
      requires Valid() && 0 <= options < 256 && 0 <= n < UINT32_MOD
      modifies this, bitmap
      ensures Valid() && amountOfMemory == old(amountOfMemory) && nFrames == old(nFrames)
      ensures r.Panic? <==> options % 2 == 1
      ensures r.Panic? || n == 0 ==> unchanged(this) && unchanged(bitmap)
      ensures r.Return? && n > 0 ==>
        var run := FirstRunFrom(old(bitmap[..]), RoundDown4(old(firstAvailableIdx)), n);
        run.None? || run.value == 0 ==> r.value == 0 && bitmap[..] == old(bitmap[..]) && count == old(count)
      ensures r.Return? && n > 0 ==>
        var run := FirstRunFrom(old(bitmap[..]), RoundDown4(old(firstAvailableIdx)), n);
        run.Some? && run.value != 0 ==> r.value == 8 * run.value * PAGE_SIZE && count == old(count) - 8 * n
      ensures r.Return? && n > 0 ==>
        var run := FirstRunFrom(old(bitmap[..]), RoundDown4(old(firstAvailableIdx)), n);
        run.Some? && run.value != 0 ==>
          bitmap[..] == SetBytes(old(bitmap[..]), run.value % 256, run.value % 256 + n, false)
      ensures r.Return? && n > 0 ==>
        var z := FirstNonzeroFrom(old(bitmap[..]), RoundDown4(old(firstAvailableIdx)));
        firstAvailableIdx == if z.Some? then z.value else old(firstAvailableIdx)
    {
      if options % 2 == 1 {
        return Panic;
      }
      if n == 0 {
        return Return(0);
      }
      ghost var b := bitmap[..];
      ghost var run := FirstRunFrom(b, RoundDown4(firstAvailableIdx), n);
      assert b == old(bitmap[..]) && run == FirstRunFrom(old(bitmap[..]), RoundDown4(old(firstAvailableIdx)), n);
      var page := FindAvailable8nPages(n);
      if page == 0 {
        return Return(0);
      }
      assert bitmap[..] == b && page == 8 * run.value;
      RunByteIndex(run.value);
      Mark8nPages(page, n, false);
      assert bitmap[..] == SetBytes(b, run.value % 256, run.value % 256 + n, false);
      r := Return(page * PAGE_SIZE);
    }

    /**
     * `page_frame_free`: panics unless the address is page aligned, and on a
     * double free, when the page's bit is already set; otherwise marks the
     * page (`n == 0`) or the `n` bytes from its truncated byte index on
     * available.
     */
    method FreePages(addr: int, n: int) returns (panicked: bool)
      requires Valid() && 0 <= addr < UINT32_MOD && 0 <= n < UINT32_MOD
      requires addr % PAGE_SIZE == 0 && n > 0 ==> ByteIndex(addr / PAGE_SIZE) + n <= BITMAP_SIZE
      modifies this, bitmap
      ensures Valid() && amountOfMemory == old(amountOfMemory) && nFrames == old(nFrames)
      ensures panicked <==> addr % PAGE_SIZE != 0 || Available(old(bitmap[..]), MarkedFrame(addr / PAGE_SIZE))
      ensures panicked ==> unchanged(this) && unchanged(bitmap)
      ensures !panicked ==>
        var idx := ByteIndex(addr / PAGE_SIZE);
        firstAvailableIdx == (if idx < old(firstAvailableIdx) then idx else old(firstAvailableIdx)) &&
        if n == 0 then bitmap[..] == SetFrame(old(bitmap[..]), MarkedFrame(addr / PAGE_SIZE), true) && count == old(count) + 1
        else bitmap[..] == SetBytes(old(bitmap[..]), idx, idx + n, true) && count == old(count) + 8 * n
    {
      if addr % PAGE_SIZE != 0 {
        return true;
      }
      var page := addr / PAGE_SIZE;
      var taken := CheckPageAvailable(page);
      if taken {
        return true;
      }
      panicked := false;
      if n == 0 {
        MarkPage(page, true);
      } else {
        Mark8nPages(page, n, true);
      }
    }
  }
}
