# Project Islay core, modelled in Dafny

This project models the core of Project Islay, a small i386 hobby kernel, together with the
pre-commit format checker that its repository runs over C sources. One Dafny module stands for
each source file:

- `FormatChecker` (format_checker.dfy): `git-hooks/pre-commit/c-format-checker.py`. It covers the
  include-guard check, the brace-depth and comment scan over the lines of a file, and the
  violations it reports.
- `RingBuffers` (ring_buffer.dfy): the fixed-capacity ring buffer of `kernel/include/ring_buffer.h`,
  a class over an array with FIFO contents.
- `CircularList` (list.dfy): the intrusive doubly linked circular list of `kernel/utils/list.c`,
  as linked `Entry` objects around a sentinel head.
- `TaskQueues` (task_queue.dfy): the queue of tasks in `kernel/tasks/task_queue.c`.
- `LibC` (libc.dfy): `memcmp`, `memcpy`, `memmove`, `memset`, `strlen`, `strcmp`, `strncmp` and
  `strtok` of `kernel/utils/libc.c`, on arrays and C strings.
- `PageFrames` (page_frame_manager.dfy): the bitmap page-frame allocator of
  `kernel/memory/page_frame_manager.c`. It covers initialisation from the multiboot memory map,
  single-page and 8n-page allocation, freeing and the statistics.
- `Keymaps` (keymaps.dfy) and `Ps2Keyboard` (ps2_keyboard.dfy): keycode-to-character
  translation, and the scancode-set-1 state machine and command queue of the PS/2 driver.
- `Endianness` (endianness.dfy): `swap16`, `swap32` and the byte-order conversions on the
  little-endian target.
- `Gdt` (gdt.dfy): segment descriptor packing and the flat-model global descriptor table.
- `Fwriter` (fwriter.dfy): `itoa` and the printf-style `__fwriter` over a `putchar` callback.
- `TextModeDisplay` (text_mode_display.dfy): the 80x25 VGA text console, covering writing,
  scrolling, deleting and clearing.
- `FileTable` (file_table.dfy): the global open-file table, `alloc_fd` and `free_fd`.
- `Mounting` (mounting.dfy): file-system registration, superblock allocation and mounting.
- `Romfs` (romfs.dfy): the romfs driver's checksum, superblock checks, name and mode decoding,
  and reads.
- `PathWalker` (pathwalker.dfy): `path_init` and `path_next`.

`CTypes` (common.dfy) holds what the modules share: `Option`, bytes, the 32-bit limits and the
error numbers of `kernel/include/uapi/errno.h`.

C pointers into arrays are modelled as indices, `NULL` as `None` or `null`, and `char` as a
byte. Fixed-width arithmetic is written out where the source relies on it: 32-bit sums,
`size_t` wrap-around and bit-vector words. Where the code and its comments or the format it
implements disagree, the model follows the code. It models the as-written behaviour, and
`## Findings` lists each place where that behaviour differs from the evident intent.

## Model

| member | source | states |
|---|---|---|
| FormatChecker.CheckIncludeGuardName | git-hooks/pre-commit/c-format-checker.py:14-21 | a name is accepted exactly when it has no lower-case letter and ends in `_H` or `_HPP` |
| FormatChecker.RStrip | git-hooks/pre-commit/c-format-checker.py:57 | `rstrip()` keeps a prefix of the line that does not end in whitespace and drops only whitespace, whitespace being every character `str.isspace()` accepts, Unicode spaces included |
| FormatChecker.RStripUnicodeSpace | git-hooks/pre-commit/c-format-checker.py:57 | a trailing no-break space, ideographic space or unit separator is stripped like an ASCII blank |
| FormatChecker.RStripAll | git-hooks/pre-commit/c-format-checker.py:57 | every line of the file is right-stripped, and there are as many lines as before |
| FormatChecker.Split | git-hooks/pre-commit/c-format-checker.py:28-30 | `split(' ')` yields at least one piece, and no piece holds the separator |
| FormatChecker.Join | git-hooks/pre-commit/c-format-checker.py:28-30 | the joined string starts with the first piece; partner of `Split` |
| FormatChecker.JoinSplit | git-hooks/pre-commit/c-format-checker.py:28-30 | joining the pieces of `split(' ')` with single spaces gives back the line |
| FormatChecker.SplitNoSeparator | git-hooks/pre-commit/c-format-checker.py:28-30 | a line without a space splits into itself alone |
| FormatChecker.SplitAtSeparator | git-hooks/pre-commit/c-format-checker.py:28-30 | a space-free head followed by a space splits off as the first piece |
| FormatChecker.SplitJoin | git-hooks/pre-commit/c-format-checker.py:28-30 | splitting the join of space-free pieces gives back the pieces |
| FormatChecker.CheckIncludeGuard | git-hooks/pre-commit/c-format-checker.py:23-49 | the result is `MissingGuard` exactly for files of fewer than 3 lines, and a bad-name result names a name the name check rejects |
| FormatChecker.EndifJoin | git-hooks/pre-commit/c-format-checker.py:45 | the four expected pieces of the last line join to `#endif /* NAME */` |
| FormatChecker.CanonicalGuardAccepted | git-hooks/pre-commit/c-format-checker.py:23-49 | every well-named guard in the canonical three-line shape, with any body between, is accepted |
| FormatChecker.AcceptedGuardIsCanonical | git-hooks/pre-commit/c-format-checker.py:23-49 | an accepted file's first, second and last lines are exactly `#ifndef N`, `#define N` and `#endif /* N */` for one well-formed name N |
| FormatChecker.LowercaseGuardRejected | git-hooks/pre-commit/c-format-checker.py:36-39 | a guard whose name has a lower-case letter is reported as a bad name |
| FormatChecker.LeadingCommentNotSkipped | git-hooks/pre-commit/c-format-checker.py:28-34 | lines are taken as they are: a header whose first line opens a `/*` comment is reported as missing its `#ifndef` |
| FormatChecker.Step | git-hooks/pre-commit/c-format-checker.py:66-91 | one character makes it the previous character and only ever appends messages |
| FormatChecker.ScanChars | git-hooks/pre-commit/c-format-checker.py:66-91 | after a line's characters the previous character is the last one, and earlier messages are kept as a prefix |
| FormatChecker.ScanLinesStep | git-hooks/pre-commit/c-format-checker.py:63-64 | each line continues from the state the earlier lines left, with the previous character reset |
| FormatChecker.ScanCharsDepth | git-hooks/pre-commit/c-format-checker.py:67-70 | over a line the depth changes by the number of `{` minus the number of `}` |
| FormatChecker.DepthIsBraceBalance | git-hooks/pre-commit/c-format-checker.py:67-70 | after the whole file the depth is the brace balance of all lines, braces in comments included |
| FormatChecker.BlockFlagCarriesAcrossLines | git-hooks/pre-commit/c-format-checker.py:53-77 | a line without `/` leaves the block-comment flag as the previous line left it |
| FormatChecker.ScanCharsNoSlash | git-hooks/pre-commit/c-format-checker.py:72-77 | characters other than `/` never change the block-comment flag |
| FormatChecker.StepEmits | git-hooks/pre-commit/c-format-checker.py:74-87 | a message is emitted by one character exactly when comments are checked, the previous character is `/`, and `*` opens at depth > 0 or `/` comes at depth 0 outside a block comment |
| FormatChecker.ScanCharsPrefix | git-hooks/pre-commit/c-format-checker.py:66-91 | the messages of a prefix of a line are a prefix of the line's messages |
| FormatChecker.ScanLinesPrefix | git-hooks/pre-commit/c-format-checker.py:63-91 | the messages of the first lines are a prefix of the file's messages |
| FormatChecker.ScanCharsExact | git-hooks/pre-commit/c-format-checker.py:66-91 | a message is reported for a line exactly when it was there before or is justified at some character of the line |
| FormatChecker.ViolationsExactly | git-hooks/pre-commit/c-format-checker.py:63-91 | soundness and completeness: a message is reported for the file exactly when it is justified at some character of some line |
| FormatChecker.BlockCommentInBodyReported | git-hooks/pre-commit/c-format-checker.py:76-81 | a `/*` met at depth > 0 is reported at its 1-based line number |
| FormatChecker.LineCommentOutsideReported | git-hooks/pre-commit/c-format-checker.py:84-87 | a `//` met at depth 0 outside a block comment is reported at its 1-based line number |
| FormatChecker.LineCommentReportedOnlyAtTopLevel | git-hooks/pre-commit/c-format-checker.py:84-87 | every reported `//` sits at depth 0 right after a `/` on the same line, so one inside braces is never reported |
| FormatChecker.CommentsOffReportsNothing | git-hooks/pre-commit/c-format-checker.py:72-87 | with comment checking off nothing is ever reported |
| FormatChecker.ScanLineChars | git-hooks/pre-commit/c-format-checker.py:64-91 | the inner loop leaves the variables the fold `ScanChars` gives for the line, and `correct` is false exactly when a message was emitted |
| FormatChecker.ProcessFile | git-hooks/pre-commit/c-format-checker.py:51-94 | the guard result of a `.h`/`.hpp` file is only reported, the messages are those of the fold over the stripped lines, and the file is correct exactly when there are none |
| FormatChecker.ReportsMatchExtend | git-hooks/pre-commit/c-format-checker.py:104-106 | appending the report of the next file keeps the reports in step with the files |
| FormatChecker.RunChecker | git-hooks/pre-commit/c-format-checker.py:97-110 | fewer than two arguments give status 2; otherwise the status is 1 exactly when some file is incorrect and 0 otherwise, and every file gets its report in order |
| RingBuffers.NextIsWrap | kernel/include/ring_buffer.h:63-74 | the index step `(i + 1) % cap` is the successor of `i` on the ring |
| RingBuffers.Window | kernel/include/ring_buffer.h:20-27 | the `n` queued slots from the read index on, running round the ring: element `i` is the slot `read_idx + i` wrapped |
| RingBuffers.WindowPush | kernel/include/ring_buffer.h:60-65 | writing just past the queued slots extends the queue by the written element and leaves the earlier ones as they were |
| RingBuffers.RingBuffer.Contents | kernel/include/ring_buffer.h:20-27 | the queued elements, oldest first; there are `size` of them |
| RingBuffers.RingBuffer.constructor | kernel/include/ring_buffer.h:20-38 | a fresh buffer of the declared size, initialised empty with the whole array as capacity |
| RingBuffers.RingBuffer.Zeroed | kernel/include/ring_buffer.h:20-27 | the struct as a static declaration leaves it before `ring_buff_init`: every field 0, so the capacity is 0 |
| RingBuffers.RingBuffer.Init | kernel/include/ring_buffer.h:32-38 | size and both indices become 0 and the capacity is the array length; the queue is then empty |
| RingBuffers.RingBuffer.InitWithCap | kernel/include/ring_buffer.h:40-46 | size and both indices become 0 and the capacity is the given one; the queue is then empty |
| RingBuffers.RingBuffer.Empty | kernel/include/ring_buffer.h:52 | true exactly when `size == 0`, that is when nothing is queued |
| RingBuffers.RingBuffer.Full | kernel/include/ring_buffer.h:53 | true exactly when `size == cap`, that is when `cap` elements are queued |
| RingBuffers.RingBuffer.First | kernel/include/ring_buffer.h:54 | the slot at the read index, which is the oldest element when there is one |
| RingBuffers.RingBuffer.Push | kernel/include/ring_buffer.h:60-65 | stores at the write index, advances it modulo `cap` and increments the 32-bit size with no fullness check; on a buffer with room the queue gains the element at its end |
| RingBuffers.RingBuffer.Pop | kernel/include/ring_buffer.h:71-84 | yields the slot at the read index, advances it modulo `cap` and decrements the 32-bit size with no emptiness check; on a non-empty buffer it yields the oldest element and removes it |
| RingBuffers.RingBuffer.Rest | kernel/include/ring_buffer.h:86-90 | both indices become 0 and the size is left as it was; only an empty buffer stays a consistent queue |
| RingBuffers.FifoOrder | kernel/include/ring_buffer.h:60-84 | two guarded pushes followed by two pops yield the oldest queued elements in order, the pushed ones after the ones already queued |
| CircularList.Entry.constructor | kernel/utils/list.c:16-17 | a detached entry points to itself both ways, the shape `list_entry_remove` leaves behind |
| CircularList.IndexOf | kernel/utils/list.c:36-46 | the position of an entry on the circle, which holds that entry |
| CircularList.Inserted | kernel/utils/list.c:36-46 | the circle with the new entry placed right after position `p`, every other entry keeping its order |
| CircularList.Removed | kernel/utils/list.c:10-18 | the circle without the entry at position `p`, every other entry keeping its order |
| CircularList.DistinctAfterInsert | kernel/utils/list.c:36-46 | linking in an entry that was not on the circle keeps the entries distinct |
| CircularList.NextAfterInsert | kernel/utils/list.c:39-44 | once `entry->next` is the new entry and the new entry's `next` the old successor, every `next` link follows the enlarged circle |
| CircularList.PrevAfterInsert | kernel/utils/list.c:39-44 | once the old successor's `prev` is the new entry and the new entry's `prev` is `entry`, every `prev` link follows the enlarged circle backwards |
| CircularList.InsertRestoresCircle | kernel/utils/list.c:36-46 | the four writes of the single-element append turn a circle into a circle with the entry inserted after `entry` |
| CircularList.ElementsAfterInsert | kernel/utils/list.c:36-46 | the enlarged circle holds the old entries and the new one, and nothing else |
| CircularList.ElementsAfterRemove | kernel/utils/list.c:10-18 | the circle after a removal holds the old entries except the removed one |
| CircularList.DistinctAfterRemove | kernel/utils/list.c:10-18 | unlinking an entry keeps the remaining entries distinct |
| CircularList.NextAfterRemove | kernel/utils/list.c:13 | once the predecessor's `next` is the removed entry's successor, every `next` link follows the smaller circle |
| CircularList.PrevAfterRemove | kernel/utils/list.c:14 | once the successor's `prev` is the removed entry's predecessor, every `prev` link follows the smaller circle backwards |
| CircularList.RemoveRestoresCircle | kernel/utils/list.c:10-18 | the two neighbour writes of `list_entry_remove` turn a circle into the circle without the entry |
| CircularList.AppendSingleElement | kernel/utils/list.c:36-46 | `list_entry_append_single_element` on a circle and a detached entry leaves a circle with the entry right after `entry` |
| CircularList.EntryRemove | kernel/utils/list.c:10-18 | `list_entry_remove` leaves the remaining entries a circle and the removed entry pointing to itself both ways |
| CircularList.List.constructor | kernel/tests/list_tests.c:48-62 | `DEFINE_LIST` as list.c and the list tests use it: an empty list whose head entry points to itself |
| CircularList.List.IsEmpty | kernel/utils/list.c:64 | `LIST_EMPTY` as list.c uses it: true exactly when the list has no entries, read as the head pointing to itself |
| CircularList.List.HeadLinks | kernel/tests/list_tests.c:78-79 | the head points forward to the first entry and back to the last one, and to itself exactly when the list is empty |
| CircularList.List.LinkedBothWays | kernel/tests/list_tests.c:12-44 | in a valid list every entry's `next` points back to it and its `prev` forward to it, which is what `verify_list` checks |
| CircularList.List.Append | kernel/utils/list.c:36-46 | appending a fresh entry after one of the list puts it right after that entry and keeps the list a valid circle |
| CircularList.List.AddFirst | kernel/utils/list.c:47-51 | the entry becomes the first of the list, the others following in their order |
| CircularList.List.AddLast | kernel/utils/list.c:53-57 | the entry becomes the last of the list, the others preceding in their order |
| CircularList.List.Remove | kernel/utils/list.c:9-18 | removing an entry of the list drops exactly that entry, keeps the others in order and leaves it pointing to itself |
| CircularList.List.RemoveFirst | kernel/utils/list.c:59-71 | `NULL` on an empty list, which stays empty; otherwise the first entry, unlinked, with the rest in order |
| CircularList.List.RemoveLast | kernel/utils/list.c:73-85 | `NULL` on an empty list, which stays empty; otherwise the last entry, unlinked, with the rest in order |
| CircularList.BuildOrdered | kernel/tests/list_tests.c:73-80 | adding `first` at the front, then `mid` and `last` at the back gives the list first, mid, last, with the head pointing to `first` and back to `last` |
| CircularList.RemoveOrdered | kernel/tests/list_tests.c:82-87 | removing from the front yields `first`, from the back `last`, and unlinking `mid` leaves the list empty |
| TaskQueues.Task.constructor | kernel/tasks/task_queue.c:10 | a new task is unlinked (`next == NULL`), as the queue operations demand of a task they take |
| TaskQueues.TaskQueue.constructor | kernel/tasks/task_queue.c:13 | an empty queue has `start` and `end` both `NULL` |
| TaskQueues.TaskQueue.OnlyEndUnlinked | kernel/tasks/task_queue.c:10-21 | in a well-formed queue the only queued task with `next == NULL` is `end`, so the last task is the only queued one the `kassert` lets through |
| TaskQueues.TaskQueue.Enqueue | kernel/tasks/task_queue.c:7-22 | panics exactly when the task's `next` is not `NULL`; otherwise a task not in the queue becomes the last, the others keeping their order, and also the first when the queue was empty, while the queue's own last task, which passes the `kassert`, is linked to itself |
| TaskQueues.TaskQueue.AddFirst | kernel/tasks/task_queue.c:24-37 | panics exactly when the task's `next` is not `NULL`; otherwise a task not in the queue becomes the first, the others following in order, and also the last when the queue was empty, while the queue's own last task is linked back to the first task |
| TaskQueues.TaskQueue.EnqueueChecked | kernel/tasks/task_queue.c:7-22 | with the check also refusing `end`, the enqueue panics exactly for a linked or already queued task and otherwise appends it to a well-formed queue |
| TaskQueues.TaskQueue.AddFirstChecked | kernel/tasks/task_queue.c:24-37 | with the check also refusing `end`, adding in front panics exactly for a linked or already queued task and otherwise prepends it to a well-formed queue |
| TaskQueues.TaskQueue.Dequeue | kernel/tasks/task_queue.c:39-56 | `NULL` and no change on an empty queue; otherwise the first task, unlinked, with the rest in order and both pointers `NULL` once the queue is empty |
| TaskQueues.FifoOrder | kernel/tasks/task_queue.c:7-56 | two tasks enqueued on an empty queue are dequeued in the order they went in, and the queue is empty again |
| TaskQueues.RequeueEndMakesCycle | kernel/tasks/task_queue.c:7-22 | enqueueing the only task of a queue again passes the `kassert` and leaves the task as its own successor |
| LibC.NulIndex | kernel/utils/libc.c:57 | the first NUL at or after `i`: every byte before it is non-NUL |
| LibC.CString | kernel/utils/libc.c:53-60 | the string's characters hold no NUL and, followed by the NUL, are a prefix of the memory |
| LibC.Strlen | kernel/utils/libc.c:53-60 | `strlen` returns the index of the first NUL, which is the length of the string |
| LibC.CompareFrom | kernel/utils/libc.c:11-17 | the comparison is -1, 0 or 1, and 0 exactly when the remaining bytes agree |
| LibC.Memcmp | kernel/utils/libc.c:6-18 | `memcmp` is 0 exactly when the first `count` bytes agree, and otherwise the sign at the first differing unsigned byte |
| LibC.CompareAntisymmetric | kernel/utils/libc.c:6-18 | swapping the operands of `memcmp` negates its result |
| LibC.CompareFirstDifference | kernel/utils/libc.c:12-15 | the first differing byte alone decides `memcmp`: -1 when the left one is smaller, 1 when it is larger |
| LibC.Overwrite | kernel/utils/libc.c:20-51 | the memory after a copy keeps its length; the reference for the copying functions |
| LibC.OverwritePointwise | kernel/utils/libc.c:20-51 | memory that holds the copied bytes in the destination range and the old bytes elsewhere is the result of the copy |
| LibC.Memcpy | kernel/utils/libc.c:20-28 | `memcpy` makes the `count` destination bytes those of the source and leaves every other byte as it was |
| LibC.Memmove | kernel/utils/libc.c:30-43 | `memmove` leaves in the destination range the bytes the source range held before the call, even when the two overlap, and changes nothing else |
| LibC.MoveForward | kernel/utils/libc.c:35-36 | the forward loop is a correct move when the destination lies below the source |
| LibC.MoveBackward | kernel/utils/libc.c:37-41 | the backward loop is a correct move when the destination lies at or above the source |
| LibC.UnsignedChar | kernel/utils/libc.c:48 | the `(unsigned char)` conversion is the value modulo 256, the value itself when it is a byte |
| LibC.Memset | kernel/utils/libc.c:45-51 | `memset` sets exactly the `count` bytes from the destination on to `(unsigned char)ch` |
| LibC.StopIndex | kernel/utils/libc.c:62-79 | the compare loops stop at the first index where the strings differ, `lhs` ends or the count runs out, and the strings agree before it |
| LibC.StrcmpLoop | kernel/utils/libc.c:62-69 | the loop of `strcmp` yields the unsigned difference at the first mismatch or end of `lhs` |
| LibC.CStringsAgreeTo | kernel/utils/libc.c:62-69 | where the compare loop stops, equal bytes mean equal strings and different bytes different strings |
| LibC.StrcmpZeroIffEqual | kernel/utils/libc.c:62-69 | `strcmp` is 0 exactly when the two strings are equal |
| LibC.StrcmpAntisymmetric | kernel/utils/libc.c:62-69 | swapping the operands of `strcmp` negates its result |
| LibC.StopSymmetric | kernel/utils/libc.c:64 | the compare loop stops at the same index whichever string comes first |
| LibC.StrncmpLoop | kernel/utils/libc.c:71-79 | the loop of `strncmp` yields the difference of the bytes where it stopped, even when it stopped because `count` ran out |
| LibC.Take | kernel/utils/libc.c:71-79 | at most the first `count` characters of a string, all of them when it is shorter |
| LibC.StrncmpIntendedZeroIff | kernel/utils/libc.c:71-79 | the corrected `strncmp` is 0 exactly when the first `count` characters of both strings agree |
| LibC.StrncmpDiffersOnlyAtLimit | kernel/utils/libc.c:73-78 | the written `strncmp` departs from the corrected one only when the first `count` characters agree |
| LibC.StrncmpReadsPastCount | kernel/utils/libc.c:73-78 | "ab" and "ac" compared over one character give -1 although that character is shared |
| LibC.SkipMatching | kernel/utils/libc.c:99-122 | the skipped characters match the delimiter one for one, and skipping stops at the end of either or at a mismatch |
| LibC.TokenEnd | kernel/utils/libc.c:109 | the token ends at the first NUL or `delim[0]`, and holds neither before that |
| LibC.TokenStart | kernel/utils/libc.c:96-106 | the token starts past a leading copy of the delimiter on a first call and at the saved position otherwise, and a string starts there |
| LibC.Strtok | kernel/utils/libc.c:91-127 | `strtok` returns the token start, writes a NUL over the first `delim[0]` after it and saves the position past the rest of the delimiter; at the end of the string it writes nothing and saves the NUL's position |
| LibC.EndToken | kernel/utils/libc.c:116-122 | ending a token writes one NUL and saves the position past the matching rest of the delimiter |
| LibC.SkipMatchingLoop | kernel/utils/libc.c:99-102 | the skipping loop stops where `SkipMatching` says |
| LibC.TokenEndLoop | kernel/utils/libc.c:109 | the token loop stops where `TokenEnd` says |
| LibC.SkipMatchingFrame | kernel/utils/libc.c:117-122 | skipping reads only the bytes from its start on |
| LibC.StrtokToken | kernel/utils/libc.c:91-127 | after `strtok` the token is the string of bytes up to the first `delim[0]`, and holds no `delim[0]` |
| PageFrames.Bit | kernel/include/bit_manipulation.h:4-6 | `1 << n` in a byte is never 0 |
| PageFrames.BitIsShift | kernel/include/bit_manipulation.h:4-6 | the bit table is the shift the bit macros compute |
| PageFrames.MaskBit | kernel/include/bit_manipulation.h:6 | `MASK_BIT(x, n)` is non-zero exactly when bit `n` of `x` is set |
| PageFrames.BitUpdate | kernel/include/bit_manipulation.h:4-5 | `SET_BIT` sets bit `n` and `CLR_BIT` clears it, and neither touches another bit |
| PageFrames.ByteIndex | kernel/memory/page_frame_manager.c:35-62 | `BITMAP_INDX` stored in an `unsigned char` is below 256, and is `p / 8` only for pages below 2048 |
| PageFrames.MarkedFrame | kernel/memory/page_frame_manager.c:33-58 | the frame whose bit a page's check and mark use is below 2048, has the page's bit number, and is the page itself below 2048 |
| PageFrames.MarkedFrameParts | kernel/memory/page_frame_manager.c:35-44 | that frame's byte is the truncated byte index and its bit is `p % 8` |
| PageFrames.PagesAlias | kernel/memory/page_frame_manager.c:35-43 | pages 2048 apart share one bit; page 2048 is checked and marked through the bit of page 0 |
| PageFrames.SetFrame | kernel/memory/page_frame_manager.c:47-55 | setting or clearing a frame's bit keeps the bitmap's size |
| PageFrames.SetFrameEffect | kernel/memory/page_frame_manager.c:41-58 | marking a frame makes it available or unavailable as asked and leaves every other frame as it was |
| PageFrames.SetBytes | kernel/memory/page_frame_manager.c:64-77 | filling a range of bytes keeps the bitmap's size |
| PageFrames.SetBytesAt | kernel/memory/page_frame_manager.c:66-74 | a filled byte is 0xFF or 0x00 as asked, and a byte outside the range is unchanged |
| PageFrames.SetBytesEffect | kernel/memory/page_frame_manager.c:60-78 | filling bytes `lo` up to `hi` changes exactly the frames `8 * lo` up to `8 * hi` |
| PageFrames.SetBytesStep | kernel/memory/page_frame_manager.c:64-77 | each iteration of the fill loop extends the filled range by one byte |
| PageFrames.FirstAvailableFrom | kernel/memory/page_frame_manager.c:81-102 | the reference search: a frame at or after the start and inside the bitmap, or none |
| PageFrames.FirstAvailableIsAvailable | kernel/memory/page_frame_manager.c:81-102 | the frame the search finds is available |
| PageFrames.FirstAvailableIsLowest | kernel/memory/page_frame_manager.c:81-102 | no frame between the start and the frame found is available, and none at all when nothing is found |
| PageFrames.RoundDown4 | kernel/memory/page_frame_manager.c:109 | `i & ~0b11` is `i` rounded down to a multiple of 4 |
| PageFrames.SkipUnavailable | kernel/memory/page_frame_manager.c:87-100 | frames that are all unavailable can be skipped without changing what the search finds |
| PageFrames.WordBytes | kernel/memory/page_frame_manager.c:88-89 | the little-endian word of a block is non-zero exactly when one of its bytes is, and its low byte is the first byte |
| PageFrames.BlockHasAvailable | kernel/memory/page_frame_manager.c:89-98 | a non-zero block holds an available frame |
| PageFrames.FoundNoLater | kernel/memory/page_frame_manager.c:81-102 | an available frame bounds what the search finds before it |
| PageFrames.NonzeroBlockFound | kernel/memory/page_frame_manager.c:89-98 | the search from a non-zero block finds a frame inside that block |
| PageFrames.BlockOfPage | kernel/memory/page_frame_manager.c:91-96 | the page found in a block names that block's index again, `page / 32 * 4` |
| PageFrames.ZeroBlock | kernel/memory/page_frame_manager.c:87-89 | a zero block holds no available frame, so the search may skip it |
| PageFrames.FirstRunFrom | kernel/memory/page_frame_manager.c:114-156 | the reference 8n search: a 4-aligned block that is non-zero and whose first byte starts `n` full bytes, or none |
| PageFrames.FirstRunIsFirst | kernel/memory/page_frame_manager.c:114-156 | no block before the one found starts a run, and none at all when nothing is found |
| PageFrames.FirstNonzeroFrom | kernel/memory/page_frame_manager.c:118-124 | the first non-zero 4-aligned block from the start, the one the search remembers |
| PageFrames.NonzeroBeforeRun | kernel/memory/page_frame_manager.c:118-124 | the remembered block comes no later than the block of the run |
| PageFrames.FullByteOffset | kernel/memory/page_frame_manager.c:130-140 | with `>>` binding before `&`, a block gets an offset exactly when its first byte is full, and that offset is always 0 |
| PageFrames.SecondByteNeverTried | kernel/memory/page_frame_manager.c:130-140 | a block with an empty first byte and a full second byte is passed over |
| PageFrames.FullByteOffsetIntended | kernel/memory/page_frame_manager.c:130-140 | the corrected offset tests, each masking a byte before shifting it down, give an offset below 4 when they find a full byte |
| PageFrames.WordFields | kernel/memory/page_frame_manager.c:115-136 | each byte of the little-endian word comes back when it is masked out and shifted down |
| PageFrames.FullByteOffsetIntendedFirst | kernel/memory/page_frame_manager.c:129-140 | the corrected offset tests find a full byte exactly when the block has one, and pick the first |
| PageFrames.SegmentMarksExactly | kernel/memory/page_frame_manager.c:162-219 | for a segment that begins on a byte boundary or ends in a later byte, exactly its frames are marked and each is counted once |
| PageFrames.SegmentInsideByteMarksWholeByte | kernel/memory/page_frame_manager.c:176-218 | frames 1 and 2 alone mark frames 0 to 7 and count 10 frames |
| PageFrames.SegmentIntendedMarksExactly | kernel/memory/page_frame_manager.c:162-219 | the corrected marking covers exactly the segment's frames and counts each once, for every segment |
| PageFrames.AlignByPageSize | kernel/memory/paging.h:11-14 | the 32-bit round-up is a multiple of the page size, and no less than its argument and less than a page above it when it does not wrap |
| PageFrames.SetBits | kernel/memory/page_frame_manager.c:178-217 | marking bits of one byte keeps the bitmap's size |
| PageFrames.SetBitsEffect | kernel/memory/page_frame_manager.c:178-217 | marking bits `lo` up to `hi` of a byte changes exactly those frames |
| PageFrames.SegmentBitmap | kernel/memory/page_frame_manager.c:162-219 | the bitmap after the three loops keeps its size |
| PageFrames.SegmentBitmapEffect | kernel/memory/page_frame_manager.c:162-219 | `init_mark_segment` changes exactly the frames its three loops name, to the value asked |
| PageFrames.HighPageStaysAvailable | kernel/memory/page_frame_manager.c:261-267 | a page at or above 2048 that the search finds stays available after it is allocated, so the next search finds it again |
| PageFrames.IntendedAllocTakesPage | kernel/memory/page_frame_manager.c:261-267 | with a 32-bit byte index, the allocated page is no longer available and the next search does not find it again |
| PageFrames.MapBitmap | kernel/memory/page_frame_manager.c:233-236 | marking the map's segments keeps the bitmap's size |
| PageFrames.MapBitmapEffect | kernel/memory/page_frame_manager.c:233-236 | after the map is marked, a frame is available exactly when some segment marks it or it was available before |
| PageFrames.MapStep | kernel/memory/page_frame_manager.c:233-236 | each iteration of the map loop marks one more segment and counts its frames |
| PageFrames.MapOutcomeFirstFailure | kernel/memory/page_frame_manager.c:233-236 | the map is marked exactly when every segment is aligned and lies inside the bitmap; otherwise its outcome is that of a segment whose predecessors all fit |
| PageFrames.MapOutcomeStep | kernel/memory/page_frame_manager.c:233-236 | past a marked segment, the outcome of the map is that of the segments left |
| PageFrames.LargeMapWritesPastBitmap | kernel/memory/page_frame_manager.c:195-217 | a 3 GiB machine's segment from 1 MiB makes `init_mark_segment` write past the bitmap, while one ending below 2 GiB is marked |
| PageFrames.ClipFrames | kernel/memory/page_frame_manager.c:15-18 | a segment clipped to the frames the bitmap describes lies inside the bitmap |
| PageFrames.ClippedSegmentMarksLowFrames | kernel/memory/page_frame_manager.c:162-219 | clipping to the bitmap and then marking as intended marks exactly the segment's frames below 2 GiB and counts each once |
| PageFrames.KernelLength | kernel/memory/page_frame_manager.c:241 | the kernel's length is computed in 32 bits |
| PageFrames.ZeroBitmap | kernel/memory/page_frame_manager.c:229 | `memset` leaves every byte of the bitmap 0 |
| PageFrames.InitBitmap | kernel/memory/page_frame_manager.c:226-243 | the bitmap built by initialisation keeps its size |
| PageFrames.InitAvailable | kernel/memory/page_frame_manager.c:226-243 | after an initialisation that marks everything, a frame is available exactly when a segment of the map marks it and the kernel's segment does not |
| PageFrames.AllocFreeFrame | kernel/memory/page_frame_manager.c:266-303 | allocating an available frame makes it unavailable, and freeing it again gives back the bitmap |
| PageFrames.AllocFreeRun | kernel/memory/page_frame_manager.c:286-305 | allocating a run of full bytes and freeing it again gives back the bitmap |
| PageFrames.RunByteIndex | kernel/memory/page_frame_manager.c:62 | the truncated byte index of a run's first page is the run's byte modulo 256 |
| PageFrames.HighRunStaysFree | kernel/memory/page_frame_manager.c:281-287 | a run found at byte 256 or later is marked through its truncated index, so when the marked bytes lie below the run, the run stays full |
| PageFrames.PageFrameManager.constructor | kernel/memory/page_frame_manager.c:18-26 | the static state: no frame available and every counter 0 |
| PageFrames.PageFrameManager.CheckPageAvailable | kernel/memory/page_frame_manager.c:33-38 | the page's bit, read through the truncated byte index; the page's own bit for pages below 2048 |
| PageFrames.PageFrameManager.MarkPage | kernel/memory/page_frame_manager.c:41-58 | sets or clears the page's bit, counts the frame in or out, and on freeing moves the search start back when the byte lies lower |
| PageFrames.PageFrameManager.UpdateBit | kernel/memory/page_frame_manager.c:47-55 | one `SET_BIT` or `CLR_BIT` changes exactly one frame |
| PageFrames.PageFrameManager.FillByte | kernel/memory/page_frame_manager.c:66-74 | one byte becomes 0xFF or 0x00 and nothing else changes |
| PageFrames.PageFrameManager.MarkByte | kernel/memory/page_frame_manager.c:65-76 | one iteration fills the next byte, counts 8 frames and moves the search start back on freeing |
| PageFrames.PageFrameManager.Mark8nPages | kernel/memory/page_frame_manager.c:60-78 | the `n` bytes from the truncated byte index on become all available or all unavailable, 8 frames counted per byte |
| PageFrames.PageFrameManager.LoadWord | kernel/memory/page_frame_manager.c:115 | the loaded word is non-zero exactly when the block is, and its low byte is the block's first byte |
| PageFrames.PageFrameManager.WordBit | kernel/memory/page_frame_manager.c:95 | bit `j` of the word is the availability of frame `8i + j` |
| PageFrames.PageFrameManager.LowestSetBit | kernel/memory/page_frame_manager.c:94-98 | the bit loop returns the first available frame of a non-zero block |
| PageFrames.PageFrameManager.FindAvailablePage | kernel/memory/page_frame_manager.c:81-102 | returns the first available frame from the rounded-down search start, or 0, and remembers its block |
| PageFrames.PageFrameManager.FullRunAt | kernel/memory/page_frame_manager.c:143-150 | the run test holds exactly when the `n` bytes from `k` on are all 0xFF |
| PageFrames.PageFrameManager.FindAvailable8nPages | kernel/memory/page_frame_manager.c:104-159 | returns `8 * k` for the first block `k` that starts a run of `n` full bytes, or 0, and remembers the first non-zero block |
| PageFrames.PageFrameManager.MarkBit | kernel/memory/page_frame_manager.c:179-185 | one iteration of a bit loop marks one bit and counts one frame |
| PageFrames.PageFrameManager.MarkBits | kernel/memory/page_frame_manager.c:178-217 | a bit loop marks bits `lo` up to `hi` of one byte, one frame counted per bit |
| PageFrames.PageFrameManager.MarkWholeByte | kernel/memory/page_frame_manager.c:198-204 | one iteration of the byte loop fills one byte and counts 8 frames |
| PageFrames.PageFrameManager.MarkBytes | kernel/memory/page_frame_manager.c:197-205 | the byte loop fills bytes `lo` up to `hi`, 8 frames counted per byte |
| PageFrames.PageFrameManager.MarkSegment | kernel/memory/page_frame_manager.c:171-218 | the three loops leave the segment's bitmap and move the counter by its count |
| PageFrames.PageFrameManager.InitMarkSegment | kernel/memory/page_frame_manager.c:162-219 | `Misaligned`, changing nothing, unless address and length are page multiples; `Marked`, with the search start reset and the frames from `FRAME_NUMBER(addr)` up to `FRAME_NUMBER(addr + length)` marked, when the bitmap holds the segment; otherwise `WritesPastBitmap`, after marking the part below 2 GiB that C writes before it leaves `memory_bitmap` |
| PageFrames.PageFrameManager.MarkMemoryMap | kernel/memory/page_frame_manager.c:228-236 | clears the bitmap and ends with the outcome of the first segment that is not marked; when every segment is marked, the bitmap is the cleared one with each segment marked available in order and the count has grown by the frames those segments mark |
| PageFrames.PageFrameManager.Init | kernel/memory/page_frame_manager.c:226-243 | ends with the map's outcome when some segment is not marked, otherwise with the kernel segment's; when everything is marked, leaves the map marked and the kernel unmarked, records the amount of memory and takes the count after the map as the number of frames |
| PageFrames.PageFrameManager.MarkKernel | kernel/memory/page_frame_manager.c:237-242 | takes the count of available frames as the number of frames, then ends with the kernel segment's outcome; when it is marked, the kernel's frames are unavailable and the count drops by the frames marked |
| PageFrames.PageFrameManager.MemoryStats | kernel/memory/page_frame_manager.c:246-251 | reports the amount of memory, the available frames (the counter in 32 bits) and the frame total |
| PageFrames.PageFrameManager.AllocPage | kernel/memory/page_frame_manager.c:254-268 | panics on the high-memory option; otherwise returns 0 when the search finds nothing or page 0, else clears the found page's bit and returns its address |
| PageFrames.PageFrameManager.AllocPages | kernel/memory/page_frame_manager.c:272-288 | panics on the high-memory option; returns 0 for `n == 0` or when no run is found; otherwise clears `n` bytes at the run's truncated index, counts `8n` frames out and returns the run's address |
| PageFrames.PageFrameManager.FreePages | kernel/memory/page_frame_manager.c:292-307 | panics on a misaligned address or a double free; otherwise frees one page for `n == 0`, else the `n` bytes from the truncated index, and moves the search start back |
| Keymaps.KeyOf | kernel/devices/keyboard/keymaps.c:206 | the key of a keycode, kept in a `uint8_t`, is the keycode's low 8 bits |
| Keymaps.Column | kernel/devices/keyboard/keymaps.c:213-229 | Ctrl selects column 3, else Alt column 2; otherwise the column is 1 exactly when caps-lock on a letter or international key differs from shift |
| Keymaps.GetKey | kernel/devices/keyboard/keymaps.c:203-238 | keypad keys use the keypad table's column 0 with num-lock and 1 without; letters up to `/` and international keys use their table at the chosen column; every other key gives `UCS2_NOCHAR`; the result is a UCS-2 character |
| Keymaps.CapsShiftCancel | kernel/devices/keyboard/keymaps.c:215-223 | caps-lock and shift together on a letter give its regular character |
| Keymaps.CapsIgnoredOffLetters | kernel/devices/keyboard/keymaps.c:215-219 | caps-lock does not change what a digit or punctuation key gives |
| Keymaps.CtrlOverrides | kernel/devices/keyboard/keymaps.c:224-229 | with Ctrl every key of the regular table gives its Ctrl column, whatever else is held |
| Keymaps.KeyFieldTruncated | kernel/devices/keyboard/keymaps.c:206 | keycode 0x104 reads as `KEY_A`, since the 9-bit key field loses its top bit |
| Ps2Keyboard.KeyEvent | kernel/devices/keyboard/ps2_keyboard.c:196-211 | the event handed to the input manager is the keycode, with bit 15 set exactly for a release |
| Ps2Keyboard.RegularKeys | kernel/devices/keyboard/ps2_keyboard.c:194-200 | in state 0 a scancode up to 0x58 reports its table keycode pressed, and that code plus 0x80 up to 0xD7 reports it released; the machine stays in state 0 |
| Ps2Keyboard.ExtendedKeys | kernel/devices/keyboard/ps2_keyboard.c:177-214 | 0xE0 then a code in 0x10..0x6D reports its extended keycode pressed, and the code plus 0x80 reports it released |
| Ps2Keyboard.PrintScreen | kernel/devices/keyboard/ps2_keyboard.c:205-221 | E0 2A E0 37 reports print screen pressed and E0 B7 E0 AA reports it released |
| Ps2Keyboard.PrintScreenInterrupted | kernel/devices/keyboard/ps2_keyboard.c:216 | a print-screen prefix followed by a byte other than 0xE0 goes back to state 0 and reports nothing |
| Ps2Keyboard.PauseSequencePanics | kernel/devices/keyboard/ps2_keyboard.c:222-233 | the pause bytes E1 1D 45 E1 9D reach state 8, and the final C5 ends in `kpanic` |
| Ps2Keyboard.StateNineUnreachable | kernel/devices/keyboard/ps2_keyboard.c:223-227 | no byte leads from a reachable state to state 9, the state labelled to report the pause |
| Ps2Keyboard.F12ReleaseDropped | kernel/devices/keyboard/ps2_keyboard.c:195-199 | F12's press 0x58 is reported but its release 0xD8 reports nothing |
| Ps2Keyboard.IntendedTotal | kernel/devices/keyboard/ps2_keyboard.c:174-234 | the corrected machine never panics: from states 0 to 8 every byte leads to a state 0 to 8 |
| Ps2Keyboard.IntendedPauseAndRelease | kernel/devices/keyboard/ps2_keyboard.c:195-231 | the corrected machine reports the pause release for the full pause sequence and the release of every regular key, F12 included |
| Ps2Keyboard.IntendedRunTotal | kernel/devices/keyboard/ps2_keyboard.c:174-234 | any run of bytes through the corrected machine never panics |
| Ps2Keyboard.LedBits | kernel/devices/keyboard/ps2_keyboard.c:126-141 | caps-lock lights LED bit 2, num-lock bit 1 and scroll-lock bit 0, and no other bit is set |
| Ps2Keyboard.Keyboard.constructor | kernel/devices/keyboard/ps2_keyboard.c:107 | the static keyboard starts in state 0, unregistered, with a command buffer whose capacity is 0 until `ring_buff_init` |
| Ps2Keyboard.Keyboard.Register | kernel/devices/keyboard/ps2_keyboard.c:146-166 | panics when a keyboard is already registered; otherwise empties the 32-entry command buffer and registers |
| Ps2Keyboard.Keyboard.SendCommand | kernel/devices/keyboard/ps2_keyboard.c:109-124 | a full buffer, which the zero-capacity buffer before registration always is, drops the byte; otherwise it joins the end of the queue and is transmitted at once only when it is the only byte queued |
| Ps2Keyboard.Keyboard.SetLeds | kernel/devices/keyboard/ps2_keyboard.c:126-144 | queues the set-LEDs command followed by the LED bits |
| Ps2Keyboard.Keyboard.Acknowledge | kernel/devices/keyboard/ps2_keyboard.c:179-187 | faults exactly when the capacity is 0, changing nothing; otherwise the front command leaves the queue, unchecked, and the next one, if any, is transmitted |
| Ps2Keyboard.Keyboard.Resend | kernel/devices/keyboard/ps2_keyboard.c:188-193 | on RESEND the front command is transmitted again and the queue is unchanged |
| Ps2Keyboard.Keyboard.Send | kernel/devices/keyboard/ps2_keyboard.c:168-236 | in state 0 ACK and RESEND drive the command queue, an ACK before registration faulting; every other byte goes through the decoding machine, which reports at most one key, or panics in a state without a case |
| Ps2Keyboard.CommandsInOrder | kernel/devices/keyboard/ps2_keyboard.c:179-187 | two commands queued on an idle keyboard go out in order, the second only once the first is acknowledged |
| Ps2Keyboard.CommandBeforeRegistrationDropped | kernel/devices/keyboard/ps2_keyboard.c:109-124 | a command sent before registration is dropped, and the same command sent after it is queued and transmitted |
| Endianness.WordOfBytes | kernel/utils/endianness.c:9-15 | a 32-bit value is the word of its own four bytes |
| Endianness.Swap16 | kernel/utils/endianness.c:3-7 | `swap16` exchanges the two bytes |
| Endianness.Swap32 | kernel/utils/endianness.c:9-15 | `swap32` puts the four bytes in reverse order |
| Endianness.Swap16Involution | kernel/utils/endianness.c:3-7 | swapping a 16-bit value twice gives it back |
| Endianness.Swap32Involution | kernel/utils/endianness.c:9-15 | swapping a 32-bit value twice gives it back |
| Endianness.BigEndianLoad | kernel/include/endianness.h:24-28 | on little-endian i386, four bytes stored big-endian and passed through `be32ton` give the big-endian value, and `le32ton` leaves a little-endian load as it is |
| Gdt.FlagValues | kernel/arch/i386/segmentation/gdt.c:16-56 | the four flag macros evaluate to 0xC09A, 0xC092, 0xC0FA and 0xC0F2 |
| Gdt.DecodeCreated | kernel/arch/i386/segmentation/gdt.c:80-96 | a created descriptor encodes the base, the low 20 bits of the limit, the flag's low byte as access byte and its top nibble as flags, at the positions of section 3.4.5 of the Intel SDM, Volume 3A |
| Gdt.IgnoredBits | kernel/arch/i386/segmentation/gdt.c:84-94 | limit bits above 19 and flag bits 8 to 11 do not reach the descriptor |
| Gdt.NullDescriptor | kernel/arch/i386/segmentation/gdt.c:111 | `create_descriptor(0, 0, 0)` is the all-zero null descriptor |
| Gdt.FlatTable | kernel/arch/i386/segmentation/gdt.c:111-122 | the table has five entries |
| Gdt.FlatTableSegments | kernel/arch/i386/segmentation/gdt.c:98-122 | apart from the null entry every segment spans 4 GiB from address 0, present and 32-bit; entries 1 and 2 are kernel code and data, 3 and 4 user code and data |
| Gdt.GlobalDescriptorTable.constructor | kernel/arch/i386/segmentation/gdt.c:59 | the five-entry `gdt` array |
| Gdt.GlobalDescriptorTable.InitGdt | kernel/arch/i386/segmentation/gdt.c:108-129 | fills the table with the flat-model descriptors and passes `sizeof(gdt) - 1` as the table size |
| Fwriter.Divisor | kernel/utils/__fwriter.c:11-23 | radix 'x' gives 16, 'o' gives 8, anything else 10 |
| Fwriter.Reverse | kernel/utils/__fwriter.c:34-39 | reversal keeps the length |
| Fwriter.ReverseAt | kernel/utils/__fwriter.c:34-39 | element `k` of the reversal is element `length - 1 - k` |
| Fwriter.ReversedDigits | kernel/utils/__fwriter.c:26-39 | reversing the digits written least significant first gives them most significant first |
| Fwriter.DigitRoundTrip | kernel/utils/__fwriter.c:28 | a digit's character, '0' to '9' then 'a' on, stands for that digit |
| Fwriter.DigitsValue | kernel/utils/__fwriter.c:26-41 | reading the printed digits back in the base gives the number |
| Fwriter.NoLeadingZero | kernel/utils/__fwriter.c:26-30 | the most significant digit of a non-zero number is not '0' |
| Fwriter.DigitCount | kernel/utils/__fwriter.c:26-30 | a number below 8^k has at most k digits in base 8, 10 or 16 |
| Fwriter.DigitCount32 | kernel/utils/__fwriter.c:97-103 | a 32-bit number has at most 11 digits, so the 33-byte `numstr` holds them |
| Fwriter.WriteDigits | kernel/utils/__fwriter.c:26-31 | the first loop writes the digits least significant first while fewer than `len - 1` are written, then a NUL, and nothing beyond |
| Fwriter.PutDigit | kernel/utils/__fwriter.c:28 | one step writes one digit and changes nothing else |
| Fwriter.ReverseInPlace | kernel/utils/__fwriter.c:34-39 | the second loop reverses the written digits in place and leaves the rest of the buffer alone |
| Fwriter.Itoa | kernel/utils/__fwriter.c:7-42 | zero with room for two characters writes '0' and a newline, without a NUL, and returns 1; otherwise the digits written least significant first, at most `len - 1` of them, end up reversed in place, followed by a NUL, and their count is returned; nothing past the NUL changes |
| Fwriter.RunEnd | kernel/utils/__fwriter.c:65 | a literal run ends at the next '%' or the end of the format, and holds no '%' |
| Fwriter.RenderPlain | kernel/utils/__fwriter.c:62-73 | a format without '%' prints as it stands |
| Fwriter.RenderPercent | kernel/utils/__fwriter.c:62-63 | "%%" prints one '%' |
| Fwriter.RenderUnknown | kernel/utils/__fwriter.c:104-113 | an unknown conversion prints the rest of the format from its '%' and takes no argument |
| Fwriter.Terminal.constructor | kernel/utils/__fwriter.c:44-50 | a terminal with nothing written and room for `room` characters |
| Fwriter.Terminal.Putchar | kernel/utils/__fwriter.c:48 | `putchar` appends the character, or answers `EOF` when the terminal is full |
| Fwriter.Print | kernel/utils/__fwriter.c:44-50 | `print` succeeds exactly when all the characters fit, and the terminal then holds them; otherwise it holds a prefix |
| Fwriter.LiteralRun | kernel/utils/__fwriter.c:64-65 | the inner loop measures the literal run, whose first character is always printed |
| Fwriter.NumberPiece | kernel/utils/__fwriter.c:97-103 | `%u`, `%o` and `%x` print the number's digits, or "0" for zero |
| Fwriter.NextPiece | kernel/utils/__fwriter.c:59-114 | one turn of the loop prints the next piece of the text and moves on, the `maxrem` check guarding every branch but the numbers |
| Fwriter.PrefixOfText | kernel/utils/__fwriter.c:59-116 | printing a piece keeps the terminal's output a prefix of the whole text |
| Fwriter.Write | kernel/utils/__fwriter.c:53-117 | returns the number of characters printed, never above `INT_MAX`, with the terminal holding the whole text; -1 only when the text exceeds `INT_MAX` or the terminal's room; an overflow of the count only for a text longer than `INT_MAX`; the terminal always holds a prefix of the text |
| FileTable.FirstEmptySlot | kernel/fs/file_table.c:24-30 | the lowest descriptor whose slot is `NULL`, every lower slot being taken; none when all are taken |
| FileTable.FirstFree | kernel/fs/file_table.c:36-46 | the first open file with no references, every earlier one being referenced; none when all are |
| FileTable.TotalRefs | kernel/fs/file_table.c:66-76 | the sum of the reference counts is 0 for an empty table |
| FileTable.TotalRefsUpdate | kernel/fs/file_table.c:76 | replacing one open file changes the total by the difference of the two counts |
| FileTable.Released | kernel/fs/file_table.c:70-76 | as written, `free_fd` takes one reference off and leaves offset and inode as they were |
| FileTable.ReleasedIntended | kernel/fs/file_table.c:70-76 | the intended release takes one reference off and drops the inode when the count reaches 0 |
| FileTable.ReleaseLeavesStaleInode | kernel/fs/file_table.c:71-73 | releasing the last reference as written leaves an unreferenced open file that still names its inode |
| FileTable.ReleaseIntendedKeepsNoStale | kernel/fs/file_table.c:71-76 | the intended release keeps every unreferenced open file free of inodes |
| FileTable.TaskFsData.constructor | kernel/fs/mounting.c:209-212 | `task_data_init`: a descriptor table of `MAX_OPEN_PER_PROC` empty slots |
| FileTable.OpenFiles.constructor | kernel/fs/file_table.c:15 | the static `open_files` table of `MAX_OPEN_GLOBAL` unused objects |
| FileTable.OpenFiles.AllocFd | kernel/fs/file_table.c:20-49 | `-ENFILE` with nothing changed when the calling task has no empty slot or no open file is unreferenced; otherwise the lowest empty descriptor and the first unreferenced open file, whose offset alone is reset, neither claimed |
| FileTable.OpenFiles.FreeFd | kernel/fs/file_table.c:52-79 | `-EBADF` with nothing changed for a descriptor out of range, an empty slot or an unreferenced file; otherwise 0, the file loses one reference, the last one passes its inode to `put_node`, the slot is cleared and the total count drops by one |
| PathWalker.ScanStop | kernel/fs/pathwalker.c:36-42 | the loop stops at `PATH_MAX`, the terminating NUL or the first invalid character, every character before being valid |
| PathWalker.InitResultIff | kernel/fs/pathwalker.c:31-51 | `path_init` returns 0 exactly for a path shorter than `PATH_MAX` made of letters, digits and '/'; it writes past the buffer exactly when the first `PATH_MAX` characters are valid; otherwise it returns `-EINVAL` |
| PathWalker.TokenEndTerminated | kernel/fs/pathwalker.c:59-61 | after `strtok` with "/" the saved position is the token's end, or one past the '/' it overwrote, and a string starts there |
| PathWalker.Path.constructor | kernel/fs/pathwalker.c:16-21 | a path object with a `PATH_MAX`-byte buffer |
| PathWalker.Path.CopyValid | kernel/fs/pathwalker.c:36-44 | the loop copies exactly the characters before where it stops and leaves the rest of the buffer alone |
| PathWalker.Path.CopiedString | kernel/fs/pathwalker.c:43-46 | the copied characters and the NUL make the buffer hold the path as a C string |
| PathWalker.Path.Init | kernel/fs/pathwalker.c:31-51 | as written: the outcome `InitResult` gives; on success the buffer holds the path, no token is taken and `next_token` is the buffer's start; on failure only the copied prefix changes |
| PathWalker.Path.InitChecked | kernel/fs/pathwalker.c:31-51 | with the length checked: 0 exactly for an accepted path, `-ENAMETOOLONG` exactly where the written one overruns, `-EINVAL` otherwise, and the NUL always inside the buffer |
| PathWalker.Path.Next | kernel/fs/pathwalker.c:56-64 | the next component: the first call starts at the buffer, later ones at `next_token`; the token runs to the next '/' or the end, that '/' becomes a NUL, and `next_token` moves past it |
| TextModeDisplay.Index | kernel/include/devices/display/text_mode_display.h:19-23 | `TEXT_BUFF_IDX` of an on-screen row and column is one of the 2000 cells |
| TextModeDisplay.IndexInverse | kernel/include/devices/display/text_mode_display.h:23 | dividing a cell index by the row length gives back its row, the remainder its column |
| TextModeDisplay.Cell | kernel/devices/display/text_mode_display.c:11-13 | `TEXT_MODE_CHAR` as written is a 16-bit cell whose low byte is the character |
| TextModeDisplay.CellIntendedFields | kernel/devices/display/text_mode_display.c:11-13 | the intended cell has the character in its low byte and colour 0x0F in its high byte |
| TextModeDisplay.CellHighBytes | kernel/devices/display/text_mode_display.c:13 | as written, ASCII characters get the intended cell, and a byte from 0x80 on, sign-extended as a signed `char`, gets attribute 0xFF; 0xC0 becomes 0xFFC0 instead of 0x0FC0 |
| TextModeDisplay.Scrolled | kernel/devices/display/text_mode_display.c:20-33 | after `scroll` every cell takes the one a row below, and the last row is blank |
| TextModeDisplay.PutChar | kernel/devices/display/text_mode_display.c:40-64 | `write_char` keeps the cursor on the screen |
| TextModeDisplay.PutChars | kernel/devices/display/text_mode_display.c:76-78 | writing a sequence of characters keeps the cursor on the screen |
| TextModeDisplay.PutCharAdvances | kernel/devices/display/text_mode_display.c:45-48 | a character other than newline, away from the last column, goes into the cursor's cell and moves the cursor one column right |
| TextModeDisplay.PutCharNextRow | kernel/devices/display/text_mode_display.c:42-63 | a newline, or a character in the last column, moves to column 0 of the next row, and on the last row scrolls and stays on it |
| TextModeDisplay.ScrolledRows | kernel/devices/display/text_mode_display.c:23-32 | scrolling moves the text of each row up one and blanks the last row |
| TextModeDisplay.PutCharsAppend | kernel/devices/display/text_mode_display.c:76-78 | writing `a` then `b` is writing `a + b` |
| TextModeDisplay.PutCharsLine | kernel/devices/display/text_mode_display.c:40-64 | a line without newlines that fits in its row fills the cells after the cursor, moves the cursor by its length and changes no other cell |
| TextModeDisplay.TextModeDevice.State | kernel/devices/display/text_mode_display.c:40-64 | the device's cells and cursor form an on-screen screen |
| TextModeDisplay.TextModeDevice.constructor | kernel/devices/display/text_mode_display.c:40-64 | a device over a buffer of 2000 cells with the cursor at the top left |
| TextModeDisplay.TextModeDevice.MoveRowUp | kernel/devices/display/text_mode_display.c:24-26 | one `memmove` copies row `r + 1` onto row `r` and changes no other cell |
| TextModeDisplay.TextModeDevice.Scroll | kernel/devices/display/text_mode_display.c:20-33 | `scroll` leaves the buffer as `Scrolled` describes |
| TextModeDisplay.TextModeDevice.WriteChar | kernel/devices/display/text_mode_display.c:40-64 | `write_char` leaves the screen `PutChar` describes and does not move the hardware cursor |
| TextModeDisplay.TextModeDevice.Putc | kernel/devices/display/text_mode_display.c:66-70 | `text_mode_putc` writes one character; with a display active it then sets the cursor to the new position, and before `text_mode_set_active_display` has run the call through the `NULL` `current_dev` faults, the cursor left where it was |
| TextModeDisplay.TextModeDevice.Write | kernel/devices/display/text_mode_display.c:72-81 | `text_mode_write` writes the characters before the NUL, at most `n` of them, returns their number and then sets the cursor |
| TextModeDisplay.TextModeDevice.Del | kernel/devices/display/text_mode_display.c:83-93 | `text_mode_del` blanks up to `n` cells left of the cursor in its row, stops at column 0, moves the cursor onto the last blanked cell and sets it only when a cell was blanked |
| TextModeDisplay.TextModeDevice.Clear | kernel/devices/display/text_mode_display.c:95-106 | `text_mode_clear` blanks every cell and puts the cursor at the top left |
| Mounting.CheckRequiredFsOps | kernel/fs/mounting.c:43-49 | 0 exactly when `mount`, `read`, `fetch_inode` and `readdir` are all provided, otherwise -1 |
| Mounting.Fs.constructor | kernel/include/fs.h:92-97 | `DEFINE_FS`: a file system with its name and operations, not linked and with no mounts |
| Mounting.IndexOf | kernel/fs/mounting.c:73-80 | the first position of a node on the list |
| Mounting.FirstClash | kernel/fs/mounting.c:73-80 | the first node from `i` on whose name `strncmp(fs->name, next->name, FS_NAME_MAXLEN)` finds equal, every node before it differing |
| Mounting.FirstNamed | kernel/fs/mounting.c:93-96 | the first file system from `i` on that `strncmp(fs->name, fs_name, FS_NAME_MAXLEN)` finds called `fs_name`, every one before it differing |
| Mounting.StrncmpSelf | kernel/fs/mounting.c:74 | a name compares equal to itself |
| Mounting.SameNameIff | kernel/fs/mounting.c:63-74 | for names of at most `FS_NAME_MAXLEN` characters, `strncmp` finds them equal exactly when they are the same string |
| Mounting.Walked | kernel/fs/mounting.c:66-80 | after `fs->next = NULL` the walk reaches the nodes up to `fs` when it is on the list, and the whole list otherwise |
| Mounting.RegisteredOutcome | kernel/fs/mounting.c:66-83 | after the checks, registration gives 0 exactly when no registered name equals the new one, appending `fs` at the tail; otherwise `-EEXIST`, and for a file system not yet on the list the list is untouched |
| Mounting.WalkedWhole | kernel/fs/mounting.c:72-82 | a walk that finds no clash went through the whole list, and `fs` was not on it |
| Mounting.ReregisterTruncates | kernel/fs/mounting.c:66 | registering again a file system that is on the list, but not at its tail, is refused with `-EEXIST` and cuts off every file system registered after it |
| Mounting.IntendedRegistryGrows | kernel/fs/mounting.c:51-84 | the intended registration, which leaves the list alone on a clash, only ever extends the list and keeps names unique |
| Mounting.RegisteredKeepsNamesUnique | kernel/fs/mounting.c:51-84 | registration as written keeps the registered names unique |
| Mounting.RegisterTwiceThenAnother | kernel/tests/fs_tests.c:25-47 | a new name is accepted, the same file system again is refused with `-EEXIST` and leaves the list as it was, and a second name is appended after the first |
| Mounting.FirstFreeSuperblock | kernel/fs/mounting.c:104-109 | the first superblock from `i` on whose `fs` is `NULL`, every one before it in use |
| Mounting.InUse | kernel/fs/mounting.c:14 | at most every superblock is in use |
| Mounting.InUseUpdate | kernel/fs/mounting.c:104-109 | claiming a free superblock puts one more in use, and freeing one in use puts one fewer |
| Mounting.Vfs.constructor | kernel/fs/mounting.c:9-14 | an empty `fs_list`, ten free superblocks and no VFS root |
| Mounting.Vfs.RegisterFs | kernel/fs/mounting.c:51-84 | `register_fs`: `-EFAULT` for `NULL`, `-EINVAL` when operations are missing, `-ENAMETOOLONG` for a name shorter than 3 or longer than `FS_NAME_MAXLEN` characters, each leaving the list alone; otherwise the outcome `Registered` gives, and the list stays a chain of distinct nodes |
| Mounting.Vfs.AppendFs | kernel/fs/mounting.c:66-83 | clearing `fs->next` and walking the list gives the outcome `Registered` describes |
| Mounting.Vfs.WalkAndLink | kernel/fs/mounting.c:72-83 | the walk over a non-empty list ends in a clash or links `fs` after the tail |
| Mounting.Vfs.Append | kernel/fs/mounting.c:82 | `prev->next = fs` makes `fs` the new tail of the chain |
| Mounting.Vfs.Detach | kernel/fs/mounting.c:66 | `fs->next = NULL` makes the chain end at `fs` when it is on it |
| Mounting.Vfs.LinkTail | kernel/fs/mounting.c:82 | the chain with `fs` linked after its tail is still a chain of distinct nodes |
| Mounting.Vfs.FindClash | kernel/fs/mounting.c:72-80 | the loop finds a clash exactly when a walked name compares equal, and otherwise stops at the tail |
| Mounting.Vfs.AllocSuperblock | kernel/fs/mounting.c:88-114 | `-ENOENT` when no file system has the name and `-ENOMEM` when no superblock is free, changing nothing; otherwise the first free superblock gets the first file system of that name, and nothing else changes |
| Mounting.Vfs.LookupFs | kernel/fs/mounting.c:93-96 | the loop finds the first registered file system of the name, or `NULL` |
| Mounting.Vfs.ClaimSuperblock | kernel/fs/mounting.c:104-109 | the loop claims the first free superblock and changes nothing else, or reports none |
| Mounting.Vfs.FindSuperblock | kernel/fs/mounting.c:17-27 | `find_superblock`: the first superblock in use mounted on the inode, no earlier one matching; `NULL` when none matches |
| Mounting.Vfs.MountHelper | kernel/fs/mounting.c:118-149 | the `mount` operation's error is returned unchanged; a `get_inode` failure returns its error; a root that is not a directory or is referenced elsewhere goes to `put_node` and gives `-EINVAL`; otherwise the mount point is marked, the superblock records both inodes and is pushed on its file system's mounts, and 0 is returned |
| Mounting.Vfs.Mount | kernel/fs/mounting.c:171-206 | `-EINVAL` for a path not starting with '/'; a failed mount leaves the set of superblocks in use as it was; a successful one has a directory as mount point, marks it, and puts exactly one more superblock in use, mounted on it |
| Mounting.Vfs.MountClaimed | kernel/fs/mounting.c:186-205 | after the claim, every failure frees the superblock again, and success keeps it, mounted on the looked-up directory |
| Mounting.Vfs.Release | kernel/fs/mounting.c:186-204 | `superblk->fs = NULL` gives back the superblock the caller claimed, so the ones in use are as before the claim |
| Mounting.Vfs.MountRootfs | kernel/fs/mounting.c:151-169 | on success the root inode of the new superblock becomes `vfs_root` and one more superblock is in use; on failure `vfs_root` and the superblocks in use are as they were |
| Mounting.Vfs.MountRootClaimed | kernel/fs/mounting.c:161-168 | after the claim, a failed `mount_helper` frees the superblock, and success sets `vfs_root` |
| Romfs.BeWord | kernel/fs/romfs/romfs.c:54-62 | a big-endian word read from four bytes is a 32-bit value |
| Romfs.WordTotal | kernel/fs/romfs/romfs.c:54-62 | the unbounded sum of the first `n` words is not negative |
| Romfs.WordSum | kernel/fs/romfs/romfs.c:54-62 | the sum taken in 32-bit arithmetic is a 32-bit value |
| Romfs.Checksum | kernel/fs/romfs/romfs.c:54-62 | `checksum` returns the 32-bit sum of the `size / 4` big-endian words of the block |
| Romfs.BeBytes | kernel/fs/romfs/romfs.c:37-38 | the four big-endian bytes of a word read back as that word |
| Romfs.SetWord | kernel/fs/romfs/romfs.c:38 | storing a word changes its four bytes to it and no other byte |
| Romfs.WordTotalAgrees | kernel/fs/romfs/romfs.c:54-62 | blocks that agree in their bytes have the same sum |
| Romfs.WordTotalUpdate | kernel/fs/romfs/romfs.c:54-62 | replacing one word changes the sum by the difference of the two words |
| Romfs.ChecksumFieldBalances | kernel/fs/romfs/romfs.c:312-315 | setting the superblock's checksum word to minus the sum of the rest makes the first 512 bytes sum to 0, so every block can pass the check |
| Romfs.ReadCount | kernel/fs/romfs/romfs.c:66-76 | `read_data` copies nothing from the end of the image on, else the whole request or up to the end |
| Romfs.ReadData | kernel/fs/romfs/romfs.c:66-76 | `read_data` copies `ReadCount` bytes of the image from the offset to the start of the buffer, returns their number and changes nothing else |
| Romfs.Strnlen | kernel/fs/romfs/romfs.c:92-99 | `strnlen`: the length of the string, stopping at `max` bytes, with no NUL before it |
| Romfs.Align16 | kernel/arch/paging.h:18 | `ALIGN_BY_MULTIPLE(n, 16)` is the least multiple of 16 not below `n` |
| Romfs.IntOfSize | kernel/fs/romfs/romfs.c:92-98 | the `size_t` sum converted to the `int` return value: congruent modulo 2^32, in range, and unchanged when it fits |
| Romfs.NameSpan | kernel/fs/romfs/romfs.c:92-99 | the span the driver counts for a name is a multiple of 16 and at most `ROMFS_MAXLEN` |
| Romfs.NameSpanEndsOnTerminator | kernel/fs/romfs/romfs.c:317-332 | a name whose length is a multiple of 16 spans only its characters, so the offset past it is the offset of its own NUL |
| Romfs.NameSpanIntended | kernel/fs/romfs/romfs.c:92-99 | the span in the romfs format, characters and NUL padded to 16, is a multiple of 16 from 16 to `ROMFS_MAXLEN + 16` |
| Romfs.NameSpanIntendedPastTerminator | kernel/fs/romfs/romfs.c:92-99 | the intended span is the least multiple of 16 that passes the NUL |
| Romfs.ModeBits | kernel/fs/romfs/romfs.c:148-181 | `header_mode_bits` is a 16-bit mode |
| Romfs.ModeBitsDecode | kernel/fs/romfs/romfs.c:148-181 | the mode has the kind the romfs type stands for, a hard link showing as a regular file, permissions 0555 exactly when bit 3 of `next` is set and 0444 otherwise, and no other bit |
| Romfs.MagicAcceptedIff | kernel/fs/romfs/romfs.c:307 | as written the magic check passes exactly when the image starts with "-rom1fs-" and the top byte of `fullsize` is 0 |
| Romfs.MagicIntendedIff | kernel/fs/romfs/romfs.c:307 | the intended check passes exactly when the image starts with "-rom1fs-" |
| Romfs.LargeImageMagicRejected | kernel/fs/romfs/romfs.c:307 | an image of 16 MiB or more, with a good magic, is rejected as written and accepted as intended |
| Romfs.VolumeName | kernel/fs/romfs/romfs.c:317-321 | the volume name is the `ROMFS_MAXLEN` bytes after the fixed part of the superblock |
| Romfs.CheckSuperblock | kernel/fs/romfs/romfs.c:306-327 | 0 exactly when the magic, the checksum, the volume name's length and `fullsize` all pass, else `-EINVAL` |
| Romfs.StrnlenPrefix | kernel/fs/romfs/romfs.c:317 | `strnlen` looks at no byte past `max` |
| Romfs.StrnlenUnique | kernel/fs/romfs/romfs.c:317 | the length `strnlen` finds is the only one with no NUL before it and a NUL at it, below `max` |
| Romfs.ReadClip | kernel/fs/romfs/romfs.c:231-234 | inside the file, `read_size` is the request or what remains of the file from the offset |
| Romfs.ReadPastEndWraps | kernel/fs/romfs/romfs.c:232-233 | an offset past the end of the file makes `header.size - offset` wrap, so `read_size` exceeds the request |
| Romfs.ReadClipIntended | kernel/fs/romfs/romfs.c:231-234 | the intended clip is nothing at or past the end, else the request up to the end of the file |
| Romfs.Reply | kernel/fs/romfs/romfs.c:230-240 | what `romfs_read` returns is `-EIO` or the number of bytes it copied, never more than the buffer holds |
| Romfs.ReadIgnoresOffset | kernel/fs/romfs/romfs.c:236 | a read inside the file returns the file's first bytes, the same whatever the offset |
| Romfs.ReplyIntended | kernel/fs/romfs/romfs.c:230-240 | the intended read never delivers more than the buffer holds |
| Romfs.IntendedReadAtOffset | kernel/fs/romfs/romfs.c:230-240 | inside an image that holds the file, the intended read returns the file's bytes from the offset, clipped to its end |
| Romfs.Driver.constructor | kernel/fs/romfs/romfs.c:50 | the zero-initialised `mount_data`: nothing mounted |
| Romfs.Driver.ReadHeader | kernel/fs/romfs/romfs.c:78-89 | `read_header`: 0 exactly when a whole header lies in the image, with its words in native order, else -1 |
| Romfs.Driver.ReadFilename | kernel/fs/romfs/romfs.c:92-99 | `read_filename` copies what `read_data` gives, returns -1 when that is under 16 bytes and otherwise the offset plus the name's span, as an `int` |
| Romfs.Driver.Mount | kernel/fs/romfs/romfs.c:287-335 | `-EEXIST` when an image is mounted, `-ENOMEM` for an image under 512 bytes, `-EINVAL` when a superblock check fails, all changing nothing; otherwise 0, the image is mounted with its `fullsize` and the root node is right after the volume name |
| Romfs.Driver.Read | kernel/fs/romfs/romfs.c:218-241 | `romfs_read` returns what `Reply` gives and leaves the copied bytes at the start of the buffer and the rest of it unchanged |

## Left out

- Hardware and I/O: port I/O and interrupts, the actual screen, the serial line, `kprintf` and
  logging. The callbacks (`send_cmd`, `keyboard_send_key`, `set_cursor`, `putchar`, `put_node`)
  are recorded as sequences or fields of the objects that call them.
- Concurrency: the kernel code assumes a single CPU with interrupts as the only interleaving,
  and no locking is modelled.
- `pathwalk` itself is not modelled, beyond `path_init` and `path_next`. It needs `get_inode`,
  `put_node`, `clone_inode` and the file systems' `readdir`, and their inode cache is not part
  of this model.
- romfs `load_file` is not modelled; `Romfs.Driver.Read` takes the header and data offset it
  would find. Hard-link traversal, `romfs_getattr`, `read_attr`, `romfs_readdir` and
  `romfs_fetch_inode` are not modelled either; `ModeBits` covers their shared mode decoding.
- `strdup` (kernel/utils/libc.c:81) allocates and `abort` (kernel/utils/libc.c:129) only panics;
  neither is modelled. `strnlen` is not defined in kernel/utils/libc.c and is not part of this
  model; `Romfs.Strnlen` is a specification of it, not a model of an implementation.
- `list_entry_append`, the splice of two circles, is not modelled; the list operations are
  modelled on single entries.
- `sysfs_dump_vfs` in kernel/fs/mounting.c only prints and is not modelled.
- The text console's `text_get_number_of_displays`, `text_mode_set_active_display`,
  `text_mode_get_display` and `init_text_mode_dev` are not modelled. They manage the table of
  devices, not the screen.
- TextModeDisplay.TextModeDevice.Putc: whether a display is active is a parameter, since
  `current_dev` belongs to the unmodelled `text_mode_set_active_display`. Once one is active,
  `set_cursor` is the same VGA operation for every text-mode device, so the model records it as
  the device's own cursor.
- Keymaps.GetKey: `KEYCODE_GET_STATUS` is not available, so the modifier status bits are a
  parameter.
- Fwriter.Write requires arguments of the kinds the format's conversions take (`Render` is
  `None` otherwise). In C, a missing argument or one of the wrong type makes `va_arg` undefined.
  A `%s` argument is the characters before its NUL, so a `Str` holding a NUL is refused too.
- Fwriter.Write: a `putchar` that answers `EOF` is modelled as a terminal that is full. For a
  result of -1 the model states only that the text is longer than `INT_MAX` or than the room
  left. It does not say at which piece the writer stopped.
- Fwriter.Write: a `%u`, `%o` or `%x` piece is added to the `int` count without the `maxrem`
  check, so a count past `INT_MAX` is a signed overflow. The model stops there with `overflowed`
  set, after printing the piece, and gives no meaning to what C does next.
- Ps2Keyboard.Keyboard.Acknowledge: an ACK with an empty command buffer makes
  `ring_buffer_pop` wrap the size to 2^32 - 1. The model states that size, but not what the
  buffer then appears to hold.
- C `char` is taken to be signed where it matters (TextModeDisplay.Cell), as it is with GCC on
  i386.
- FormatChecker.CheckIncludeGuardName: Python's `str.islower` is modelled for ASCII letters
  only. The file list, the file reads and the exit status are parameters and results.
- Mounting.RegisterTwiceThenAnother: `kernel/tests/fs_tests.c` defines `test_fs` with only a
  `mount` operation, which `register_fs` refuses with `-EINVAL`. The lemma is stated for file
  systems that pass the operations check, which is what the test evidently expects.
- PathWalker.Path.Init stops at `WritesPastBuffer` instead of modelling the write one byte past
  `path_buff`; Romfs.Driver.Read stops at `Overrun` instead of copying past the caller's buffer.
- Romfs.Driver.ReadFilename: its result is `IntOfSize` of the offset sum, the 32-bit `int`
  conversion; offsets beyond `INT_MAX` are not given a meaning.
- CircularList: the ghost sequence of entries is the model's view of the circle; what the list
  holds is stated about it rather than about the raw pointers alone.
- CircularList.BuildOrdered does not state that the built entries are fresh objects.
- CircularList.List.constructor and CircularList.List.IsEmpty: the definitions of `DEFINE_LIST`
  and `LIST_EMPTY` are not part of this model. kernel/include/list.h declares an older list of
  two pointers, empty when `head == NULL`, which list.c does not use. The list as an embedded head
  entry that points to itself when empty is inferred from list.c (`&list->head`,
  `list->head.prev`) and from kernel/tests/list_tests.c:48-62.
- PageFrames.PageFrameManager.InitMarkSegment: for a segment that reaches past the 2 GiB the
  bitmap covers, C writes on past `memory_bitmap` into whatever follows it. The model makes the
  writes C makes before the first one past the end, then stops with `WritesPastBitmap`; the
  counter's further changes and the overwritten memory are not modelled.
- PageFrames.PageFrameManager.MarkMemoryMap and PageFrames.PageFrameManager.Init stop at the
  first segment that is not marked, so for `WritesPastBitmap` they state only the outcome.
- PageFrames.PageFrameManager.FullRunAt and PageFrames.PageFrameManager.FindAvailable8nPages: C
  tests `memory_bitmap[i + offset + j]` with no bound on the index, so a run that starts near the
  end reads past the array. The model counts such a byte as not 0xFF, so the run fails there.
- Ps2Keyboard.Keyboard.Send: an ACK before registration makes `ring_buffer_pop` take a remainder
  by the zero capacity, a divide fault. The model reports it as `panicked` and stops; what the
  kernel's fault handler does is not part of this model.
- FormatChecker.ProcessFile: a file that `open()` cannot open or that is not valid text raises
  out of `main`; the model takes every file's lines as given.

## Findings

| source | as written | input that shows it | evidently intended | confidence | as-written member | corrected member |
|---|---|---|---|---|---|---|
| kernel/utils/libc.c:71-79 | `strncmp` stops its loop when `count` reaches 0 and still compares the characters after the limit | "ab" and "ac" with `count` 1 give -1, though their first character agrees | 0 whenever the first `count` characters agree | high (not executed) | LibC.StrncmpReadsPastCount | LibC.StrncmpIntendedZeroIff |
| kernel/devices/keyboard/ps2_keyboard.c:222-233 | the pause sequence moves to state 8, but the case that reports the pause is labelled 9, so state 8 reaches `kpanic` | bytes E1 1D 45 E1 9D C5 | state 8 reports the pause release and returns to state 0 | high (not executed) | Ps2Keyboard.PauseSequencePanics | Ps2Keyboard.IntendedPauseAndRelease |
| kernel/devices/keyboard/ps2_keyboard.c:197 | releases are reported only up to 0xD7 | 0xD8, the release of F12 (press 0x58), is dropped | releases up to 0xD8, the release code of the last table entry | medium (not executed) | Ps2Keyboard.F12ReleaseDropped | Ps2Keyboard.IntendedPauseAndRelease |
| kernel/devices/display/text_mode_display.c:13 | `TEXT_MODE_CHAR(c)` ORs a signed `char` into the cell, so bytes from 0x80 on are sign-extended | 0xC0 gives the cell 0xFFC0, attribute 0xFF | colour 0x0F above the byte: 0x0FC0 | high (not executed) | TextModeDisplay.CellHighBytes | TextModeDisplay.CellIntendedFields |
| kernel/fs/file_table.c:73 | `file->inode == NULL;` is a comparison, not an assignment | releasing the only reference of an open file with an inode | the released open file holds no inode | high (not executed) | FileTable.ReleaseLeavesStaleInode | FileTable.ReleaseIntendedKeepsNoStale |
| kernel/fs/mounting.c:66 | `fs->next = NULL` is done before the duplicate walk, so re-registering a listed file system cuts the list after it | registering the first of two registered file systems again | `-EEXIST` with the list unchanged | high (not executed) | Mounting.ReregisterTruncates | Mounting.IntendedRegistryGrows |
| kernel/fs/romfs/romfs.c:98, 317, 332 | name spans are `ALIGN(strnlen(name), 16)`, which leaves out the terminating NUL | a name of 16 characters spans 16 bytes, ending on its own NUL | `ALIGN(strnlen(name) + 1, 16)`, as the romfs format pads the NUL too | high (not executed) | Romfs.NameSpanEndsOnTerminator | Romfs.NameSpanIntendedPastTerminator |
| kernel/fs/romfs/romfs.c:307 | the magic is compared with this kernel's `strncmp`, which also compares the ninth byte, the top byte of `fullsize` | an image of 16 MiB or more with a correct magic | accept exactly the images starting with "-rom1fs-" | high (not executed) | Romfs.LargeImageMagicRejected | Romfs.MagicIntendedIff |
| kernel/fs/romfs/romfs.c:232-233 | `header.size - offset` is computed in `size_t` when the offset is past the end of the file | file size 10, offset 20, size 5: `read_size` is 2^32 - 10 | nothing to read past the end | high (not executed) | Romfs.ReadPastEndWraps | Romfs.ReadClipIntended |
| kernel/fs/romfs/romfs.c:236 | `read_data` starts at `data` and ignores the read offset | offset 4 and offset 0 deliver the same first bytes | start at `data + offset` | high (not executed) | Romfs.ReadIgnoresOffset | Romfs.IntendedReadAtOffset |
| kernel/fs/pathwalker.c:36, 46 | a path whose first `PATH_MAX` characters are all valid gets its NUL written at `path_buff[PATH_MAX]`, past the buffer | a path of 4096 letters | refuse it with `-ENAMETOOLONG` | high (not executed) | PathWalker.InitResultIff | PathWalker.Path.InitChecked |
| kernel/memory/page_frame_manager.c:130-136 | `bytes & 0x0000ff00 >> 8` parses as `bytes & (0xff00 >> 8)`, so only the first byte of a block is ever tried | a block of bytes 00 FF 00 00 | try every byte of the block | high (not executed) | PageFrames.SecondByteNeverTried | PageFrames.FullByteOffsetIntendedFirst |
| kernel/memory/page_frame_manager.c:176-218 | a segment that begins and ends inside one byte, not at its start, marks up to the end of that byte, and then the final part marks from its start | frames 1 to 2 mark frames 0 to 7 and count 10 | mark exactly the segment's frames | high (not executed) | PageFrames.SegmentInsideByteMarksWholeByte | PageFrames.SegmentIntendedMarksExactly |
| kernel/memory/page_frame_manager.c:35, 43 | the bitmap index is an `unsigned char`, so pages 2048 apart share a bit | allocating page 2048 clears the bit of page 0, and page 2048 stays available | index the bitmap with the full `page_num / 8` | high (not executed) | PageFrames.HighPageStaysAvailable | PageFrames.IntendedAllocTakesPage |
| kernel/memory/page_frame_manager.c:195-217 | `init_mark_segment` marks every segment of the map, but `memory_bitmap` covers only 2 GiB and kernel/boot/init.c passes the map unclipped | on a 3 GiB machine the segment at 1 MiB of length 0xBFEE0000 runs past the bitmap | mark only the frames the bitmap describes | high (not executed) | PageFrames.LargeMapWritesPastBitmap | PageFrames.ClippedSegmentMarksLowFrames |
| kernel/tasks/task_queue.c:10, 27 | the `kassert(task->next == NULL)` meant to catch a task already in a list lets through the last task of a queue, whose `next` is `NULL` | enqueueing the only task of a queue again makes it its own successor | also refuse the queue's `end` | medium (not executed) | TaskQueues.RequeueEndMakesCycle | TaskQueues.TaskQueue.EnqueueChecked |
