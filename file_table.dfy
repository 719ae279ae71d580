/**
 * The open-file table of kernel/fs/file_table.c.
 *
 * The kernel keeps one global array of `struct open_file` objects, and every
 * task has a table of `MAX_OPEN_PER_PROC` pointers into it, indexed by file
 * descriptor.  A pointer into the global array is modelled by the index of
 * the object it points to, and `NULL` by `None`.  An inode pointer is
 * modelled by the inode's identity.
 */
module FileTable {
  import opened CTypes

  const MAX_OPEN_GLOBAL: int := 100
  const MAX_OPEN_PER_PROC: int := 20

  /** `struct open_file` without its `file_ops` copy. */
  datatype OpenFile = OpenFile(refCount: nat, offset: int, inode: Option<nat>)

  const UNUSED: OpenFile := OpenFile(0, 0, None)

  /** The lowest descriptor from `i` on whose slot is `NULL`. */
  function FirstEmptySlot(table: seq<Option<nat>>, i: nat): (fd: Option<nat>)
    requires i <= |table|
    ensures fd.Some? ==> i <= fd.value < |table| && table[fd.value].None?
    ensures fd.Some? ==> forall k :: i <= k < fd.value ==> table[k].Some?
    ensures fd.None? ==> forall k :: i <= k < |table| ==> table[k].Some?
    decreases |table| - i
  {
    if i == |table| then None
    else if table[i].None? then Some(i)
    else FirstEmptySlot(table, i + 1)
  }

  /** The first open file from `i` on that no descriptor refers to. */
  function FirstFree(files: seq<OpenFile>, i: nat): (j: Option<nat>)
    requires i <= |files|
    ensures j.Some? ==> i <= j.value < |files| && files[j.value].refCount == 0
    ensures j.Some? ==> forall k :: i <= k < j.value ==> files[k].refCount > 0
    ensures j.None? ==> forall k :: i <= k < |files| ==> files[k].refCount > 0
    decreases |files| - i
  {
    if i == |files| then None
    else if files[i].refCount == 0 then Some(i)
    else FirstFree(files, i + 1)
  }

  /** The number of descriptors, over all tasks, that the open files count. */
  function TotalRefs(files: seq<OpenFile>): (n: nat)
    ensures files == [] ==> n == 0
  {
    if files == [] then 0 else files[0].refCount + TotalRefs(files[1..])
  }

  /** Replacing one open file changes the total by the difference of the two counts. */
  lemma {:induction false} TotalRefsUpdate(files: seq<OpenFile>, j: nat, f: OpenFile)
    requires j < |files|
    ensures TotalRefs(files[j := f]) == TotalRefs(files) - files[j].refCount + f.refCount
  {
    if j == 0 {
      assert files[j := f][1..] == files[1..];
    } else {
      assert files[j := f][1..] == files[1..][j - 1 := f];
      TotalRefsUpdate(files[1..], j - 1, f);
    }
  }

  /**
   * What `free_fd` leaves in an open file it releases: one reference fewer.
   * `file->inode == NULL` is a comparison, so the inode stays in the object
   * even when its last reference goes.
   */
  function Released(f: OpenFile): (g: OpenFile)
    requires f.refCount > 0
    ensures g.refCount + 1 == f.refCount && g.offset == f.offset && g.inode == f.inode
  {
    f.(refCount := f.refCount - 1)
  }

  /** What the release evidently means to do: the last reference also drops the inode. */
  function ReleasedIntended(f: OpenFile): (g: OpenFile)
    requires f.refCount > 0
    ensures g.refCount + 1 == f.refCount && g.offset == f.offset
    ensures g.inode == (if g.refCount == 0 then None else f.inode)
  {
    if f.refCount == 1 then OpenFile(0, f.offset, None) else f.(refCount := f.refCount - 1)
  }

  /** An open file that nobody refers to holds no inode. */
  predicate NoStaleInode(files: seq<OpenFile>)
  {
    forall k :: 0 <= k < |files| && files[k].refCount == 0 ==> files[k].inode.None?
  }

  /**
   * Releasing the last reference of an open file leaves an unused object
   * that still names the inode `put_node` has just given up.
   */
  lemma ReleaseLeavesStaleInode(files: seq<OpenFile>, j: nat)
    requires j < |files| && files[j].refCount == 1 && files[j].inode.Some?
    ensures NoStaleInode(files) ==> !NoStaleInode(files[j := Released(files[j])])
  {
    assert files[j := Released(files[j])][j].refCount == 0;
  }

  /** The intended release keeps unused open files free of inodes. */
  lemma ReleaseIntendedKeepsNoStale(files: seq<OpenFile>, j: nat)
    requires j < |files| && files[j].refCount > 0 && NoStaleInode(files)
    ensures NoStaleInode(files[j := ReleasedIntended(files[j])])
  {
  }

  /** `struct task_fs_data`, its descriptor table: `file_table[fd]` is the open file of `fd`. */
  class TaskFsData {
    const fileTable: array<Option<nat>>

    /** The descriptor table `task_data_init` clears. */
    constructor ()
      ensures fileTable.Length == MAX_OPEN_PER_PROC && fresh(fileTable)
      ensures forall fd :: 0 <= fd < MAX_OPEN_PER_PROC ==> fileTable[fd].None?
    {
      fileTable := new Option<nat>[MAX_OPEN_PER_PROC](_ => None);
    }
  }

  /** The static `open_files` array, and the inodes released through `put_node`. */
  class OpenFiles {
    const openFiles: array<OpenFile>
    var putNodes: seq<Option<nat>>

    ghost predicate Valid()
      reads this
    {
      openFiles.Length == MAX_OPEN_GLOBAL
    }

    /** Every slot of the owning task points into `open_files`. */
    ghost predicate PointsInto(task: TaskFsData)
      reads this, task, task.fileTable
    {
      task.fileTable.Length == MAX_OPEN_PER_PROC &&
      forall fd :: 0 <= fd < MAX_OPEN_PER_PROC && task.fileTable[fd].Some? ==> task.fileTable[fd].value < openFiles.Length
    }

    constructor ()
      ensures Valid() && fresh(openFiles) && putNodes == []
      ensures forall j :: 0 <= j < MAX_OPEN_GLOBAL ==> openFiles[j] == UNUSED
    {
      openFiles := new OpenFile[MAX_OPEN_GLOBAL](_ => UNUSED);
      putNodes := [];
    }

    /**
     * `alloc_fd`: the lowest free descriptor of the calling task together with the
     * first open file that no descriptor refers to, whose offset is reset.
     * It claims neither: the slot stays `NULL` and the count stays 0 until
     * opening succeeds.  Without a free descriptor or a free open file it
     * returns `-ENFILE` and changes nothing.
     */
    method AllocFd(task: TaskFsData) returns (fd: int, file: Option<nat>)
      requires Valid() && task.fileTable.Length == MAX_OPEN_PER_PROC
      modifies openFiles
      ensures FirstEmptySlot(task.fileTable[..], 0).None? ==>
        fd == -ENFILE && file.None? && openFiles[..] == old(openFiles[..])
      ensures FirstEmptySlot(task.fileTable[..], 0).Some? && FirstFree(old(openFiles[..]), 0).None? ==>
        fd == -ENFILE && file.None? && openFiles[..] == old(openFiles[..])
      ensures FirstEmptySlot(task.fileTable[..], 0).Some? && FirstFree(old(openFiles[..]), 0).Some? ==>
        var j := FirstFree(old(openFiles[..]), 0).value;
        fd == FirstEmptySlot(task.fileTable[..], 0).value && file == Some(j) &&
        openFiles[..] == old(openFiles[..])[j := old(openFiles[j]).(offset := 0)]
    {
      fd := -1;
      var i := 0;
      while i < MAX_OPEN_PER_PROC
        invariant 0 <= i <= MAX_OPEN_PER_PROC
        invariant FirstEmptySlot(task.fileTable[..], 0) == FirstEmptySlot(task.fileTable[..], i)
      {
        if task.fileTable[i].None? {
          fd := i;
          break;
        }
        i := i + 1;
      }
      if fd < 0 {
        return -ENFILE, None;
      }
      var j := 0;
      while j < MAX_OPEN_GLOBAL
        invariant 0 <= j <= MAX_OPEN_GLOBAL
        invariant FirstFree(openFiles[..], 0) == FirstFree(openFiles[..], j)
      {
        if openFiles[j].refCount == 0 {
          openFiles[j] := openFiles[j].(offset := 0);
          return fd, Some(j);
        }
        j := j + 1;
      }
      return -ENFILE, None;
    }

    /**
     * `free_fd`: `-EBADF` for a descriptor out of range, an empty slot or an
     * open file with no references, changing nothing.  Otherwise the open
     * file loses one reference, the last one handing its inode to
     * `put_node`, and the slot is cleared.
     */
    method FreeFd(task: TaskFsData, fd: int) returns (r: int)
      requires Valid() && PointsInto(task)
      modifies this, openFiles, task.fileTable
      ensures Valid() && PointsInto(task)
      ensures (!(0 <= fd < MAX_OPEN_PER_PROC) || old(task.fileTable[fd]).None? ||
        old(openFiles[task.fileTable[fd].value]).refCount == 0) ==>
        r == -EBADF && unchanged(this, openFiles, task.fileTable)
      ensures (0 <= fd < MAX_OPEN_PER_PROC && old(task.fileTable[fd]).Some? &&
        old(openFiles[task.fileTable[fd].value]).refCount > 0) ==>
        var j := old(task.fileTable[fd]).value;
        r == 0 &&
        openFiles[..] == old(openFiles[..])[j := Released(old(openFiles[j]))] &&
        task.fileTable[..] == old(task.fileTable[..])[fd := None] &&
        putNodes == old(putNodes) + (if old(openFiles[j]).refCount == 1 then [old(openFiles[j]).inode] else []) &&
        TotalRefs(openFiles[..]) + 1 == TotalRefs(old(openFiles[..]))
    {
      if fd < 0 || fd >= MAX_OPEN_PER_PROC {
        return -EBADF;
      }
      var file := task.fileTable[fd];
      if file.None? {
        return -EBADF;
      }
      var j := file.value;
      if openFiles[j].refCount == 0 {
        return -EBADF;
      }
      if openFiles[j].refCount == 1 {
        putNodes := putNodes + [openFiles[j].inode];
      }
      TotalRefsUpdate(openFiles[..], j, Released(openFiles[j]));
      openFiles[j] := Released(openFiles[j]);
      task.fileTable[fd] := None;
      r := 0;
    }
  }
}
