/**
 * The read-only romfs driver of kernel/fs/romfs/romfs.c, reading an image of
 * the Linux romfs on-disk format held in RAM.
 *
 * The image is an array of bytes; `struct romfs_mount_data` is a pointer to
 * it (`null` for `NULL`) and the number of bytes the driver may read.  The
 * words of the format are 32-bit big-endian; the model keeps their values,
 * which is what `be32ton` makes of them on the little-endian target.
 */
module Romfs {
  import opened CTypes
  import opened LibC

  const ROMFS_MAXLEN: int := 128
  /** `sizeof(struct romfs_header)` and `sizeof(struct romfs_superblk)`. */
  const HEADER_SIZE: int := 16
  const SUPERBLOCK_SIZE: int := 16
  /** The bytes `romfs_mount` reads and checksums at once. */
  const MOUNT_READ: int := 512
  /** The range of the 32-bit `off_t`. */
  const OFF_MIN: int := -0x8000_0000
  const OFF_MAX: int := 0x7FFF_FFFF

  /** "-rom1fs-", the magic at the start of an image. */
  const MAGIC: seq<byte> := [45, 114, 111, 109, 49, 102, 115, 45]

  /** `struct romfs_mount_data`: the image and the number of its bytes that may be read. */
  datatype MountData = MountData(data: array?<byte>, size: int)

  /** The mount data describes readable memory. */
  predicate Backed(m: MountData)
  {
    0 <= m.size <= SIZE_MAX && (m.size > 0 ==> m.data != null && m.size <= m.data.Length)
  }

  // ----- big-endian words and the checksum -----------------------------------------

  /** The big-endian 32-bit word stored at `data[off..off + 4]`. */
  function BeWord(data: seq<byte>, off: int): (w: int)
    requires 0 <= off && off + 4 <= |data|
    ensures 0 <= w < UINT32_MOD
  {
    data[off] as int * 0x100_0000 + data[off + 1] as int * 0x1_0000 + data[off + 2] as int * 0x100 + data[off + 3] as int
  }

  /** The sum of the first `n` big-endian words of `data`. */
  function WordTotal(data: seq<byte>, n: nat): (total: int)
    requires 4 * n <= |data|
    ensures 0 <= total
  {
    if n == 0 then 0 else WordTotal(data, n - 1) + BeWord(data, 4 * (n - 1))
  }

  /** That sum in 32-bit arithmetic. */
  function WordSum(data: seq<byte>, n: nat): (sum: int)
    requires 4 * n <= |data|
    ensures 0 <= sum < UINT32_MOD
  {
    WordTotal(data, n) % UINT32_MOD
  }

  /**
   * `checksum`: the 32-bit sum of the `size / 4` words of the block, each
   * loaded and passed through `be32ton`, which gives its big-endian value.
   */
  method Checksum(buff: seq<byte>, size: int) returns (sum: int)
    requires 0 <= size <= |buff|
    ensures sum == WordSum(buff, size / 4)
  {
    sum := 0;
    var n := size / 4;
    var i := 0;
    while n != 0
      invariant 0 <= i <= size / 4 && n == size / 4 - i
      invariant sum == WordSum(buff, i)
    {
      AddMod(WordTotal(buff, i), BeWord(buff, 4 * i));
      sum := (sum + BeWord(buff, 4 * i)) % UINT32_MOD;
      i, n := i + 1, n - 1;
    }
  }

  /** The four bytes of `w`, most significant first. */
  function BeBytes(w: int): (b: seq<byte>)
    requires 0 <= w < UINT32_MOD
    ensures |b| == 4 && BeWord(b, 0) == w
  {
    [w / 0x100_0000, w / 0x1_0000 % 0x100, w / 0x100 % 0x100, w % 0x100]
  }

  /** `data` with the word `w` stored big-endian at word index `j`. */
  function SetWord(data: seq<byte>, j: nat, w: int): (r: seq<byte>)
    requires 4 * j + 4 <= |data| && 0 <= w < UINT32_MOD
    ensures |r| == |data| && BeWord(r, 4 * j) == w
    ensures forall k :: 0 <= k < |data| && !(4 * j <= k < 4 * j + 4) ==> r[k] == data[k]
  {
    var b := BeBytes(w);
    var r := data[..4 * j] + b + data[4 * j + 4..];
    assert r[4 * j..4 * j + 4] == b;
    assert BeWord(r, 4 * j) == BeWord(b, 0);
    r
  }

  /** The sum of words that agree in their bytes is the same. */
  lemma {:induction false} WordTotalAgrees(a: seq<byte>, b: seq<byte>, n: nat)
    requires 4 * n <= |a| && 4 * n <= |b|
    requires forall k :: 0 <= k < 4 * n ==> a[k] == b[k]
    ensures WordTotal(a, n) == WordTotal(b, n)
  {
    if n > 0 {
      WordTotalAgrees(a, b, n - 1);
      var o := 4 * (n - 1);
      assert a[o] == b[o] && a[o + 1] == b[o + 1] && a[o + 2] == b[o + 2] && a[o + 3] == b[o + 3];
    }
  }

  /** Replacing one word changes the sum by the difference of the two words. */
  lemma {:induction false} WordTotalUpdate(data: seq<byte>, n: nat, j: nat, w: int)
    requires j < n && 4 * n <= |data| && 0 <= w < UINT32_MOD
    ensures WordTotal(SetWord(data, j, w), n) == WordTotal(data, n) - BeWord(data, 4 * j) + w
  {
    var r := SetWord(data, j, w);
    if j == n - 1 {
      WordTotalAgrees(r, data, n - 1);
    } else {
      WordTotalUpdate(data, n - 1, j, w);
      var o := 4 * (n - 1);
      assert r[o] == data[o] && r[o + 1] == data[o + 1] && r[o + 2] == data[o + 2] && r[o + 3] == data[o + 3];
    }
  }

  /**
   * The superblock's checksum word, set to minus the sum of the other words of
   * the first 512 bytes, makes them sum to 0: every block can be made to pass
   * the check of `romfs_mount`.
   */
  lemma ChecksumFieldBalances(block: seq<byte>)
    requires |block| == MOUNT_READ
    ensures var rest := WordSum(SetWord(block, 3, 0), 128);
      WordSum(SetWord(block, 3, if rest == 0 then 0 else UINT32_MOD - rest), 128) == 0
  {
    var z := SetWord(block, 3, 0);
    var total := WordTotal(z, 128);
    var rest := total % UINT32_MOD;
    var c := if rest == 0 then 0 else UINT32_MOD - rest;
    WordTotalUpdate(z, 128, 3, c);
    WordTotalAgrees(SetWord(z, 3, c), SetWord(block, 3, c), 128);
    assert WordTotal(SetWord(block, 3, c), 128) == total + c;
    AddMod(total, c);
    assert rest + c == 0 || rest + c == UINT32_MOD;
    assert WordSum(SetWord(block, 3, c), 128) == (total + c) % UINT32_MOD;
  }

  // ----- read_data --------------------------------------------------------------------

  /** How many bytes `read_data` copies: none from the end on, else as many as fit up to the end. */
  function ReadCount(size: int, bufSize: int, offset: int): (n: int)
    requires 0 <= size && 0 <= bufSize && 0 <= offset
    ensures 0 <= n <= bufSize
    ensures offset >= size ==> n == 0
    ensures offset < size ==> offset + n <= size && (n == bufSize || offset + n == size)
  {
    if offset >= size then 0 else if size - offset < bufSize then size - offset else bufSize
  }

  /**
   * `read_data`: copies `ReadCount` bytes of the image from `offset` to the
   * start of `buff` and returns their number.  The buffer has to hold what is
   * copied, not `bufSize` bytes.
   */
  method ReadData(mdata: MountData, buff: array<byte>, bufSize: int, offset: int) returns (n: int)
    requires Backed(mdata) && 0 <= bufSize && 0 <= offset
    requires ReadCount(mdata.size, bufSize, offset) <= buff.Length && mdata.data != buff
    modifies buff
    ensures n == ReadCount(mdata.size, bufSize, offset)
    ensures n == 0 ==> buff[..] == old(buff[..])
    ensures n > 0 ==> buff[..] == Overwrite(old(buff[..]), 0, mdata.data[..], offset, n)
  {
    if offset >= mdata.size {
      return 0;
    }
    n := if mdata.size - offset < bufSize then mdata.size - offset else bufSize;
    if n > 0 {
      Memcpy(buff, 0, mdata.data, offset, n);
    }
  }

  // ----- names ---------------------------------------------------------------------------

  /** `strnlen`: the length of the string at `s[0]`, looking at no more than `max` bytes. */
  function Strnlen(s: seq<byte>, max: int): (n: int)
    requires 0 <= max <= |s|
    ensures 0 <= n <= max
    ensures forall k :: 0 <= k < n ==> s[k] != NUL
    ensures n < max ==> s[n] == NUL
  {
    if max == 0 || s[0] == NUL then 0 else 1 + Strnlen(s[1..], max - 1)
  }

  /** `ALIGN_BY_MULTIPLE(n, 16)`: `n` rounded up to a multiple of 16. */
  function Align16(n: nat): (r: nat)
    ensures r % 16 == 0 && n <= r < n + 16
  {
    (n + 15) / 16 * 16
  }

  /** A `size_t` converted to the 32-bit `int` of the return value. */
  function IntOfSize(x: int): (r: int)
    ensures -INT_MAX - 1 <= r <= INT_MAX
    ensures (x - r) % UINT32_MOD == 0
    ensures 0 <= x <= INT_MAX ==> r == x
  {
    var w := x % UINT32_MOD;
    if w <= INT_MAX then w else w - UINT32_MOD
  }

  /** The bytes a name occupies as the driver counts them: its length rounded up to 16. */
  function NameSpan(name: seq<byte>): (span: int)
    requires |name| >= ROMFS_MAXLEN
    ensures span % 16 == 0 && 0 <= span <= ROMFS_MAXLEN
  {
    Align16(Strnlen(name, ROMFS_MAXLEN))
  }

  /**
   * A name whose length is a multiple of 16 spans exactly its characters, so
   * the offset past it is the offset of its own terminating NUL, not of the
   * next 16-byte block.
   */
  lemma NameSpanEndsOnTerminator(name: seq<byte>)
    requires |name| >= ROMFS_MAXLEN
    requires Strnlen(name, ROMFS_MAXLEN) < ROMFS_MAXLEN && Strnlen(name, ROMFS_MAXLEN) % 16 == 0
    ensures NameSpan(name) == Strnlen(name, ROMFS_MAXLEN) && name[NameSpan(name)] == NUL
  {
  }

  /** The span of the name in the romfs format: characters and NUL, padded to 16 bytes. */
  function NameSpanIntended(name: seq<byte>): (span: int)
    requires |name| >= ROMFS_MAXLEN
    ensures span % 16 == 0 && 16 <= span <= ROMFS_MAXLEN + 16
  {
    Align16(Strnlen(name, ROMFS_MAXLEN) + 1)
  }

  /** The intended span passes the terminating NUL and is the least multiple of 16 that does. */
  lemma NameSpanIntendedPastTerminator(name: seq<byte>)
    requires |name| >= ROMFS_MAXLEN
    ensures var len := Strnlen(name, ROMFS_MAXLEN);
      len < NameSpanIntended(name) && NameSpanIntended(name) - 16 <= len
    ensures Strnlen(name, ROMFS_MAXLEN) < ROMFS_MAXLEN ==> name[Strnlen(name, ROMFS_MAXLEN)] == NUL
  {
  }

  // ----- header_mode_bits ------------------------------------------------------------------

  /** The file type bits of `mode_t` and their mask. */
  const S_IFMT: int := 0xF000
  const S_IFIFO: int := 0x1000
  const S_IFCHR: int := 0x2000
  const S_IFDIR: int := 0x4000
  const S_IFBLK: int := 0x6000
  const S_IFREG: int := 0x8000
  const S_IFLNK: int := 0xA000
  const S_IFSOCK: int := 0xC000
  /** The permissions 0444 (read for all) and 0555 (read and execute for all). */
  const READ_ALL: int := 0x124
  const READ_EXEC_ALL: int := 0x16D

  /** The kinds of file the `S_IS*` tests tell apart. */
  datatype Kind = Fifo | CharDevice | Directory | BlockDevice | Regular | Symlink | Socket

  /** The kind a mode has by the `S_IS*` tests, which compare `mode & S_IFMT`, if any. */
  function KindOf(mode: int): Option<Kind>
    requires 0 <= mode
  {
    var t := mode / 0x1000 % 16 * 0x1000;
    if t == S_IFIFO then Some(Fifo)
    else if t == S_IFCHR then Some(CharDevice)
    else if t == S_IFDIR then Some(Directory)
    else if t == S_IFBLK then Some(BlockDevice)
    else if t == S_IFREG then Some(Regular)
    else if t == S_IFLNK then Some(Symlink)
    else if t == S_IFSOCK then Some(Socket)
    else None
  }

  /** The kind a romfs file type (the low three bits of `next`) stands for; a hard link shows as a regular file. */
  function RomfsKind(t: int): Kind
    requires 0 <= t < 8
  {
    match t
    case 0 => Regular
    case 1 => Directory
    case 2 => Regular
    case 3 => Symlink
    case 4 => BlockDevice
    case 5 => CharDevice
    case 6 => Socket
    case _ => Fifo
  }

  /**
   * `header_mode_bits`: read permission for all, execute permission too when
   * bit 3 of `next` is set, and the type of its low three bits.  The type and
   * the permissions occupy different bits, so their `|` is their sum.
   */
  function ModeBits(next: int): (mode: int)
    requires 0 <= next < UINT32_MOD
    ensures 0 <= mode < 0x1_0000
  {
    var perm := if next / 8 % 2 == 1 then READ_EXEC_ALL else READ_ALL;
    var t := next % 8;
    var ty :=
      if t == 1 then S_IFDIR
      else if t == 0 || t == 2 then S_IFREG
      else if t == 3 then S_IFLNK
      else if t == 4 then S_IFBLK
      else if t == 5 then S_IFCHR
      else if t == 6 then S_IFSOCK
      else S_IFIFO;
    ty + perm
  }

  /**
   * The mode decodes to the kind the romfs type stands for, and its
   * permission bits are 0555 exactly when bit 3 of `next` is set, else 0444;
   * no other bit is set.
   */
  lemma ModeBitsDecode(next: int)
    requires 0 <= next < UINT32_MOD
    ensures KindOf(ModeBits(next)) == Some(RomfsKind(next % 8))
    ensures ModeBits(next) % 0x200 == (if next / 8 % 2 == 1 then READ_EXEC_ALL else READ_ALL)
    ensures ModeBits(next) == ModeBits(next) / 0x1000 * 0x1000 + ModeBits(next) % 0x200
  {
  }

  // ----- the superblock ---------------------------------------------------------------------

  /**
   * `strncmp(magic, "-rom1fs-", 8) == 0` as written: the comparison reads at
   * most the first nine bytes, so a NUL placed after them changes nothing.
   */
  predicate MagicAccepted(block: seq<byte>)
    requires |block| >= 9
  {
    var s := block[..9] + [NUL];
    assert s[9] == NUL;
    var m := MAGIC + [NUL];
    assert m[8] == NUL;
    Strncmp(s, m, 8) == 0
  }

  /** The magic the C library's `strncmp` would accept: the first eight bytes. */
  predicate MagicIntended(block: seq<byte>)
    requires |block| >= 9
  {
    var s := block[..9] + [NUL];
    assert s[9] == NUL;
    var m := MAGIC + [NUL];
    assert m[8] == NUL;
    StrncmpIntended(s, m, 8) == 0
  }

  /** The written check accepts the magic only when the ninth byte, the top byte of `fullsize`, is 0 too. */
  lemma MagicAcceptedIff(block: seq<byte>)
    requires |block| >= 9
    ensures MagicAccepted(block) <==> block[..8] == MAGIC && block[8] == NUL
  {
    var s, m := block[..9] + [NUL], MAGIC + [NUL];
    assert s[9] == NUL && m[8] == NUL;
    var j := StopIndex(s, m, 0, Some(8));
    if block[..8] == MAGIC && block[8] == NUL {
      assert forall k :: 0 <= k < 8 ==> s[k] == m[k] && s[k] != NUL;
    }
    if MagicAccepted(block) {
      assert s[j] == m[j];
      assert forall k :: 0 <= k < 8 ==> m[k] != NUL;
      assert j == 8;
      assert block[..8] == s[..8] == m[..8] == MAGIC;
    }
  }

  /** The intended check accepts exactly the images that start with the magic. */
  lemma MagicIntendedIff(block: seq<byte>)
    requires |block| >= 9
    ensures MagicIntended(block) <==> block[..8] == MAGIC
  {
    var s, m := block[..9] + [NUL], MAGIC + [NUL];
    assert s[9] == NUL && m[8] == NUL;
    var j := StopIndex(s, m, 0, Some(8));
    if block[..8] == MAGIC {
      assert forall k :: 0 <= k < 8 ==> s[k] == m[k] && s[k] != NUL;
    }
    if MagicIntended(block) {
      assert forall k :: 0 <= k < 8 ==> m[k] != NUL;
      assert j == 8;
      assert block[..8] == s[..8] == m[..8] == MAGIC;
    }
  }

  /** An image of 16 MiB or more has a non-zero top byte of `fullsize`: the written check rejects its magic. */
  lemma LargeImageMagicRejected(block: seq<byte>)
    requires |block| >= 12 && block[..8] == MAGIC && block[8] != NUL
    ensures !MagicAccepted(block) && MagicIntended(block)
  {
    MagicAcceptedIff(block);
    MagicIntendedIff(block);
  }

  /** `fullsize`, the number of accessible bytes of the image. */
  function FullSize(block: seq<byte>): int
    requires |block| >= SUPERBLOCK_SIZE
  {
    BeWord(block, 8)
  }

  /** The volume name, which starts after the fixed part of the superblock. */
  function VolumeName(block: seq<byte>): (name: seq<byte>)
    requires |block| == MOUNT_READ
    ensures |name| == ROMFS_MAXLEN
  {
    block[SUPERBLOCK_SIZE..SUPERBLOCK_SIZE + ROMFS_MAXLEN]
  }

  /** The checks `romfs_mount` makes of the first 512 bytes of an image of `imageSize` bytes. */
  predicate SuperblockAccepted(block: seq<byte>, imageSize: int)
    requires |block| == MOUNT_READ
  {
    MagicAccepted(block) && WordSum(block, 128) == 0 &&
    NameSpan(VolumeName(block)) < ROMFS_MAXLEN && FullSize(block) <= imageSize
  }

  /** The superblock checks of `romfs_mount`, each failure giving `-EINVAL`. */
  method CheckSuperblock(block: seq<byte>, imageSize: int) returns (r: int)
    requires |block| == MOUNT_READ
    ensures r == 0 || r == -EINVAL
    ensures r == 0 <==> SuperblockAccepted(block, imageSize)
  {
    var s, m := block[..9] + [NUL], MAGIC + [NUL];
    assert s[9] == NUL && m[8] == NUL;
    var c := StrncmpLoop(s, m, 8);
    if c != 0 {
      return -EINVAL;
    }
    var sum := Checksum(block, MOUNT_READ);
    if sum != 0 {
      return -EINVAL;
    }
    var nameLength := Align16(Strnlen(block[SUPERBLOCK_SIZE..], ROMFS_MAXLEN));
    assert block[SUPERBLOCK_SIZE..][..ROMFS_MAXLEN] == VolumeName(block);
    StrnlenPrefix(block[SUPERBLOCK_SIZE..], VolumeName(block), ROMFS_MAXLEN);
    if nameLength >= ROMFS_MAXLEN {
      return -EINVAL;
    }
    if BeWord(block, 8) > imageSize {
      return -EINVAL;
    }
    r := 0;
  }

  /** `strnlen` looks at no byte past `max`. */
  lemma StrnlenPrefix(a: seq<byte>, b: seq<byte>, max: int)
    requires 0 <= max <= |a| && max <= |b| && a[..max] == b[..max]
    ensures Strnlen(a, max) == Strnlen(b, max)
  {
    var n := Strnlen(a, max);
    assert forall k :: 0 <= k <= n && k < max ==> a[k] == b[k] by {
      forall k | 0 <= k <= n && k < max ensures a[k] == b[k] {
        assert a[..max][k] == b[..max][k];
      }
    }
    StrnlenUnique(b, max, n);
  }

  /** The length `strnlen` finds is the only one with its two properties. */
  lemma {:induction false} StrnlenUnique(s: seq<byte>, max: int, n: int)
    requires 0 <= n <= max <= |s|
    requires forall k :: 0 <= k < n ==> s[k] != NUL
    requires n < max ==> s[n] == NUL
    ensures Strnlen(s, max) == n
  {
  }

  // ----- romfs_read clipping ------------------------------------------------------------------

  /**
   * `read_size` of `romfs_read`: `size`, or `header.size - offset` when
   * `offset + size` passes the end of the file, both in 32-bit `size_t`
   * arithmetic.  Inside the file it is the part of the request the file holds.
   */
  function ReadClip(size: int, offset: int, fileSize: int): (n: int)
    requires 0 <= size <= SIZE_MAX && 0 <= fileSize <= SIZE_MAX
    ensures 0 <= n <= SIZE_MAX
    ensures 0 <= offset <= fileSize && offset + size <= SIZE_MAX ==>
      n == (if offset + size > fileSize then fileSize - offset else size)
  {
    if (offset + size) % UINT32_MOD > fileSize then (fileSize - offset) % UINT32_MOD else size
  }

  /**
   * An offset past the end of the file makes `header.size - offset` wrap
   * around: the clipped size is larger than the request.
   */
  lemma ReadPastEndWraps(size: int, offset: int, fileSize: int)
    requires 0 <= size <= SIZE_MAX && 0 <= fileSize < offset <= OFF_MAX && offset + size <= SIZE_MAX
    ensures ReadClip(size, offset, fileSize) == UINT32_MOD - (offset - fileSize) > size
  {
  }

  /** The clipping evidently intended: nothing at or past the end, else the part of the request the file holds. */
  function ReadClipIntended(size: int, offset: int, fileSize: int): (n: int)
    requires 0 <= size && 0 <= offset && 0 <= fileSize
    ensures 0 <= n <= size
    ensures offset + n <= fileSize || n == 0
    ensures offset < fileSize ==> n == size || offset + n == fileSize
  {
    if offset >= fileSize then 0 else if fileSize - offset < size then fileSize - offset else size
  }

  /** What `romfs_read` does: copies past the caller's buffer, or returns a count or `-EIO` with the bytes copied. */
  datatype ReadReply = Overrun | Done(r: int, bytes: seq<byte>)

  /**
   * `romfs_read` as written, for a file whose data starts at `data` and holds
   * `fileSize` bytes: it copies `read_size` bytes from `data`, wherever the
   * read `offset` is, into a buffer of `size` bytes.
   */
  function Reply(image: seq<byte>, imageSize: int, size: int, offset: int, fileSize: int, data: int): (reply: ReadReply)
    requires 0 <= imageSize <= |image| && 0 <= size <= SIZE_MAX && 0 <= fileSize <= SIZE_MAX && 0 <= data
    ensures reply.Done? ==> |reply.bytes| <= size && (reply.r == -EIO || reply.r == |reply.bytes|)
  {
    var n := ReadClip(size, offset, fileSize);
    var c := ReadCount(imageSize, n, data);
    if c > size then Overrun
    else
      var bytes := if c == 0 then [] else image[data..data + c];
      if c != n then Done(-EIO, bytes) else Done(n, bytes)
  }

  /**
   * A read that stays inside the file delivers the first bytes of the file,
   * the same bytes whatever its offset.
   */
  lemma ReadIgnoresOffset(image: seq<byte>, imageSize: int, size: int, offset: int, fileSize: int, data: int)
    requires 0 <= imageSize <= |image| && 0 < size && 0 <= fileSize <= SIZE_MAX && 0 <= data
    requires 0 <= offset && offset + size <= fileSize && data + fileSize <= imageSize
    ensures Reply(image, imageSize, size, offset, fileSize, data) == Done(size, image[data..data + size])
    ensures Reply(image, imageSize, size, offset, fileSize, data) == Reply(image, imageSize, size, 0, fileSize, data)
  {
  }

  /** The read evidently intended: the clipped part of the file from `data + offset` on. */
  function ReplyIntended(image: seq<byte>, imageSize: int, size: int, offset: int, fileSize: int, data: int): (reply: ReadReply)
    requires 0 <= imageSize <= |image| && 0 <= size && 0 <= offset && 0 <= fileSize && 0 <= data
    ensures reply.Done? && |reply.bytes| <= size
  {
    var n := ReadClipIntended(size, offset, fileSize);
    var c := ReadCount(imageSize, n, data + offset);
    var bytes := if c == 0 then [] else image[data + offset..data + offset + c];
    if c != n then Done(-EIO, bytes) else Done(n, bytes)
  }

  /** Inside an image that holds the whole file, the intended read returns the file's bytes at the offset. */
  lemma IntendedReadAtOffset(image: seq<byte>, imageSize: int, size: int, offset: int, fileSize: int, data: int)
    requires 0 <= imageSize <= |image| && 0 <= size && 0 <= offset && 0 <= fileSize && 0 <= data
    requires data + fileSize <= imageSize
    ensures var n := if offset >= fileSize then 0 else if fileSize - offset < size then fileSize - offset else size;
      ReplyIntended(image, imageSize, size, offset, fileSize, data) ==
        Done(n, if n == 0 then [] else image[data + offset..data + offset + n])
  {
  }

  // ----- the mounted file system ----------------------------------------------------------------

  /** A node header, its words in native order. */
  datatype Header = Header(next: int, info: int, size: int, checksum: int)

  /** The header stored at `off`. */
  function HeaderAt(data: seq<byte>, off: int): Header
    requires 0 <= off && off + HEADER_SIZE <= |data|
  {
    Header(BeWord(data, off), BeWord(data, off + 4), BeWord(data, off + 8), BeWord(data, off + 12))
  }

  /** The driver's static `mount_data`. */
  class Driver {
    var mountData: MountData

    ghost predicate Valid()
      reads this
    {
      Backed(mountData)
    }

    /** Nothing mounted: the zero-initialised static. */
    constructor ()
      ensures Valid() && mountData == MountData(null, 0)
    {
      mountData := MountData(null, 0);
    }

    /** `read_header`: `-1` unless a whole header lies in the image, else 0 and the header in native order. */
    method ReadHeader(offset: int) returns (r: int, header: Header)
      requires Valid() && 0 <= offset
      ensures r == 0 || r == -1
      ensures r == 0 <==> offset + HEADER_SIZE <= mountData.size
      ensures r == 0 ==> mountData.data != null && header == HeaderAt(mountData.data[..], offset)
    {
      var buff := new byte[HEADER_SIZE];
      var n := ReadData(mountData, buff, HEADER_SIZE, offset);
      if n != HEADER_SIZE {
        return -1, Header(0, 0, 0, 0);
      }
      assert forall k :: 0 <= k < HEADER_SIZE ==> buff[k] == mountData.data[offset + k];
      r, header := 0, Header(BeWord(buff[..], 0), BeWord(buff[..], 4), BeWord(buff[..], 8), BeWord(buff[..], 12));
    }

    /**
     * `read_filename`: reads up to 128 bytes at `offset` into `name`; `-1`
     * if fewer than 16 could be read, else the offset past the name as the
     * driver counts it.  `strnlen` also looks at bytes of `name` that were
     * not overwritten when the image ends within the 128 bytes.
     */
    method ReadFilename(offset: int, name: array<byte>) returns (end: int)
      requires Valid() && 0 <= offset && name.Length == ROMFS_MAXLEN && name != mountData.data
      modifies name
      ensures var n := ReadCount(mountData.size, ROMFS_MAXLEN, offset);
        (n == 0 ==> name[..] == old(name[..])) &&
        (n > 0 ==> name[..] == Overwrite(old(name[..]), 0, mountData.data[..], offset, n))
      ensures ReadCount(mountData.size, ROMFS_MAXLEN, offset) < 16 ==> end == -1
      ensures ReadCount(mountData.size, ROMFS_MAXLEN, offset) >= 16 ==> end == IntOfSize(offset + NameSpan(name[..]))
    {
      var n := ReadData(mountData, name, ROMFS_MAXLEN, offset);
      if n < 16 {
        return -1;
      }
      end := IntOfSize(offset + Align16(Strnlen(name[..], ROMFS_MAXLEN)));
    }

    /**
     * `romfs_mount`: `-EEXIST` when an image is mounted, `-ENOMEM` for an
     * image under 512 bytes, `-EINVAL` when the superblock fails a check, all
     * changing nothing.  Otherwise the image is mounted with its `fullsize`
     * and the root node follows the volume name.
     */
    method Mount(mdata: MountData) returns (r: int, root: Option<int>)
      requires Valid() && Backed(mdata)
      modifies this
      ensures Valid()
      ensures old(mountData.data) != null || old(mountData.size) != 0 ==>
        r == -EEXIST && root.None? && mountData == old(mountData)
      ensures old(mountData.data) == null && old(mountData.size) == 0 && mdata.size < MOUNT_READ ==>
        r == -ENOMEM && root.None? && mountData == old(mountData)
      ensures old(mountData.data) == null && old(mountData.size) == 0 && mdata.size >= MOUNT_READ ==>
        var block := mdata.data[..MOUNT_READ];
        (!SuperblockAccepted(block, mdata.size) ==> r == -EINVAL && root.None? && mountData == old(mountData)) &&
        (SuperblockAccepted(block, mdata.size) ==>
          r == 0 && mountData == MountData(mdata.data, FullSize(block)) &&
          root == Some(SUPERBLOCK_SIZE + NameSpan(VolumeName(block))))
    {
      if mountData.data != null || mountData.size != 0 {
        return -EEXIST, None;
      }
      var buff := new byte[MOUNT_READ];
      var n := ReadData(mdata, buff, MOUNT_READ, 0);
      if n < MOUNT_READ {
        return -ENOMEM, None;
      }
      assert buff[..] == mdata.data[..MOUNT_READ];
      r := CheckSuperblock(buff[..], mdata.size);
      if r != 0 {
        return r, None;
      }
      mountData := MountData(mdata.data, BeWord(buff[..], 8));
      root := Some(SUPERBLOCK_SIZE + Align16(Strnlen(VolumeName(buff[..]), ROMFS_MAXLEN)));
    }

    /**
     * `romfs_read` for a node that `load_file` found with `header` and its
     * data at `data`, into a buffer of `size` bytes.  A copy that would
     * pass the end of the buffer is `Overrun`, and the model copies nothing.
     */
    method Read(buf: array<byte>, size: int, offset: int, header: Header, data: int) returns (reply: ReadReply)
      requires Valid() && buf.Length == size && size <= SIZE_MAX && 0 <= data && buf != mountData.data
      requires 0 <= header.size < UINT32_MOD
      modifies buf
      ensures reply == Reply(if mountData.data == null then [] else mountData.data[..], mountData.size,
        size, offset, header.size, data)
      ensures reply.Done? ==> buf[..] == reply.bytes + old(buf[..])[|reply.bytes|..]
      ensures reply.Overrun? ==> buf[..] == old(buf[..])
    {
      var readSize := size;
      if (offset + size) % UINT32_MOD > header.size {
        readSize := (header.size - offset) % UINT32_MOD;
      }
      if ReadCount(mountData.size, readSize, data) > size {
        return Overrun;
      }
      var n := ReadData(mountData, buf, readSize, data);
      var bytes := if n == 0 then [] else mountData.data[data..data + n];
      if n != readSize {
        reply := Done(-EIO, bytes);
      } else {
        reply := Done(readSize, bytes);
      }
    }
  }
}
