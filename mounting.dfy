/**
 * File system registration and mounting of kernel/fs/mounting.c.
 *
 * Registered file systems form a singly linked list `fs_list` through their
 * `next` fields, in registration order; the ghost sequence `registered` is
 * that list as the nodes reached from its head.  Ten statically allocated
 * superblocks are claimed by setting their `fs` field and released by
 * clearing it again.  An inode pointer is modelled by the inode's identity.
 * What the callbacks a mount goes through return (`pathwalk`, the file
 * system's `mount` operation and `get_inode`) is passed in as parameters;
 * the inodes the code hands to `put_node` and the inodes it marks as mount
 * points are recorded.
 */
module Mounting {
  import opened CTypes
  import opened LibC

  const FS_NAME_MAXLEN: int := 127
  const N_SUPERBLOCK: int := 10
  const SLASH: byte := 47

  /** Which operations of `struct fs_ops` a file system provides. */
  datatype FsOps = FsOps(mount: bool, getattr: bool, read: bool, open: bool, fetchInode: bool, readdir: bool, close: bool)

  /** `check_required_fs_ops`: 0 when `mount`, `read`, `fetch_inode` and `readdir` are all there, else -1. */
  function CheckRequiredFsOps(ops: FsOps): (r: int)
    ensures r == 0 || r == -1
    ensures r == 0 <==> ops.mount && ops.read && ops.fetchInode && ops.readdir
  {
    if !ops.mount || !ops.read || !ops.fetchInode || !ops.readdir then -1 else 0
  }

  /** `struct fs`: a name of at most `FS_NAME_MAXLEN` characters in a buffer one longer. */
  class Fs {
    const name: seq<byte>
    const ops: Option<FsOps>
    var next: Fs?
    var mounts: Option<nat>

    /** `DEFINE_FS`. */
    constructor (name: seq<byte>, ops: Option<FsOps>)
      ensures this.name == name && this.ops == ops && next == null && mounts.None?
    {
      this.name := name;
      this.ops := ops;
      next := null;
      mounts := None;
    }
  }

  /** A name `register_fs` accepts: a string of 3 to `FS_NAME_MAXLEN` characters. */
  predicate RegisterableName(name: seq<byte>)
  {
    NulFrom(name, 0) && 3 <= NulIndex(name, 0) <= FS_NAME_MAXLEN
  }

  /** Every node of `list` holds a string. */
  predicate Named(list: seq<Fs>)
  {
    forall k :: 0 <= k < |list| ==> NulFrom(list[k].name, 0)
  }

  /** `list` is a chain through `next`, ending in `NULL`, that visits no node twice. */
  ghost predicate Linked(list: seq<Fs>)
    reads list
  {
    (forall i :: 0 <= i < |list| - 1 ==> list[i].next == list[i + 1]) &&
    (|list| > 0 ==> list[|list| - 1].next == null) &&
    (forall i, j :: 0 <= i < j < |list| ==> list[i] != list[j])
  }

  /** No two file systems of `list` have the same name. */
  ghost predicate UniqueNames(list: seq<Fs>)
    requires Named(list)
  {
    forall i, j :: 0 <= i < j < |list| ==> CString(list[i].name) != CString(list[j].name)
  }

  function IndexOf(list: seq<Fs>, fs: Fs): (k: nat)
    requires fs in list
    ensures k < |list| && list[k] == fs && fs !in list[..k]
  {
    if list[0] == fs then 0 else 1 + IndexOf(list[1..], fs)
  }

  /** The first node from `i` on whose name `strncmp(name, node->name, FS_NAME_MAXLEN)` finds equal: the loop of `register_fs`. */
  function FirstClash(list: seq<Fs>, name: seq<byte>, i: nat): (k: Option<nat>)
    requires Named(list) && NulFrom(name, 0) && i <= |list|
    ensures k.Some? ==> i <= k.value < |list| && Strncmp(name, list[k.value].name, FS_NAME_MAXLEN) == 0
    ensures forall j :: i <= j < (if k.Some? then k.value else |list|) ==>
      Strncmp(name, list[j].name, FS_NAME_MAXLEN) != 0
    decreases |list| - i
  {
    if i == |list| then None
    else if Strncmp(name, list[i].name, FS_NAME_MAXLEN) == 0 then Some(i)
    else FirstClash(list, name, i + 1)
  }

  /** The first node from `i` on whose name `strncmp(fs->name, fs_name, FS_NAME_MAXLEN)` finds equal: the loop of `alloc_superblock`. */
  function FirstNamed(list: seq<Fs>, name: seq<byte>, i: nat): (k: Option<nat>)
    requires Named(list) && NulFrom(name, 0) && i <= |list|
    ensures k.Some? ==> i <= k.value < |list| && Strncmp(list[k.value].name, name, FS_NAME_MAXLEN) == 0
    ensures forall j :: i <= j < (if k.Some? then k.value else |list|) ==>
      Strncmp(list[j].name, name, FS_NAME_MAXLEN) != 0
    decreases |list| - i
  {
    if i == |list| then None
    else if Strncmp(list[i].name, name, FS_NAME_MAXLEN) == 0 then Some(i)
    else FirstNamed(list, name, i + 1)
  }

  /** A string equals itself under `strncmp`. */
  lemma StrncmpSelf(s: seq<byte>, count: nat)
    requires NulFrom(s, 0)
    ensures Strncmp(s, s, count) == 0
  {
  }

  /**
   * For names of at most `FS_NAME_MAXLEN` characters, `strncmp` over
   * `FS_NAME_MAXLEN` characters finds two names equal exactly when they are.
   */
  lemma SameNameIff(a: seq<byte>, b: seq<byte>)
    requires NulFrom(a, 0) && NulFrom(b, 0) && NulIndex(a, 0) <= FS_NAME_MAXLEN && NulIndex(b, 0) <= FS_NAME_MAXLEN
    ensures Strncmp(a, b, FS_NAME_MAXLEN) == 0 <==> CString(a) == CString(b)
  {
    var j := StopIndex(a, b, 0, Some(FS_NAME_MAXLEN));
    CStringsAgreeTo(a, b, j);
    if j == FS_NAME_MAXLEN {
      assert NulIndex(a, 0) == j;
    }
  }

  /** The nodes the walk of `register_fs` visits once `fs->next` is `NULL`: up to `fs` if it is on the list, else all. */
  function Walked(list: seq<Fs>, fs: Fs): (w: seq<Fs>)
    ensures w <= list && (list != [] ==> w != [])
    ensures fs in list ==> w[|w| - 1] == fs
    ensures fs !in list ==> w == list
  {
    if fs in list then list[..IndexOf(list, fs) + 1] else list
  }

  /**
   * What `register_fs` does to the list once the file system passes its
   * checks.  It first sets `fs->next` to `NULL`, so when `fs` is already on
   * the list the walk ends at `fs` and everything after it is cut off; the
   * walk refuses a name that is already there with `-EEXIST`, and otherwise
   * appends `fs`.
   */
  function Registered(list: seq<Fs>, fs: Fs): (r: (int, seq<Fs>))
    requires Named(list) && NulFrom(fs.name, 0)
  {
    var walked := Walked(list, fs);
    if FirstClash(walked, fs.name, 0).Some? then (-EEXIST, walked) else (0, list + [fs])
  }

  /** A name clash refuses the registration, and a new name is appended at the tail. */
  lemma RegisteredOutcome(list: seq<Fs>, fs: Fs)
    requires Named(list) && NulFrom(fs.name, 0)
    ensures Registered(list, fs).0 == 0 || Registered(list, fs).0 == -EEXIST
    ensures Registered(list, fs).0 == 0 <==> FirstClash(list, fs.name, 0).None?
    ensures Registered(list, fs).0 == 0 ==> Registered(list, fs).1 == list + [fs]
    ensures fs !in list ==> Registered(list, fs).0 == -EEXIST ==> Registered(list, fs).1 == list
  {
    if fs in list {
      var p := IndexOf(list, fs);
      StrncmpSelf(fs.name, FS_NAME_MAXLEN);
      assert Strncmp(fs.name, list[..p + 1][p].name, FS_NAME_MAXLEN) == 0;
      assert FirstClash(list, fs.name, 0).Some?;
    }
  }

  /** A walk that finds no clash has gone through the whole list, and `fs` is not on it. */
  lemma WalkedWhole(list: seq<Fs>, fs: Fs)
    requires Named(list) && NulFrom(fs.name, 0)
    requires FirstClash(Walked(list, fs), fs.name, 0).None?
    ensures fs !in list && Registered(list, fs) == (0, list + [fs])
  {
  }

  /**
   * Registering a file system that is already on the list, anywhere but at
   * its tail, is refused with `-EEXIST` and drops every file system
   * registered after it.
   */
  lemma ReregisterTruncates(list: seq<Fs>, p: nat)
    requires Named(list) && p < |list| - 1
    ensures Registered(list, list[p]).0 == -EEXIST
    ensures |Registered(list, list[p]).1| <= p + 1 < |list|
  {
    var fs := list[p];
    var q := IndexOf(list, fs);
    StrncmpSelf(fs.name, FS_NAME_MAXLEN);
    assert Strncmp(fs.name, list[..q + 1][q].name, FS_NAME_MAXLEN) == 0;
  }

  /** What `register_fs` evidently means to do: refuse a duplicate name and leave the list as it was. */
  function RegisteredIntended(list: seq<Fs>, fs: Fs): (r: (int, seq<Fs>))
    requires Named(list) && NulFrom(fs.name, 0)
  {
    if FirstClash(list, fs.name, 0).Some? then (-EEXIST, list) else (0, list + [fs])
  }

  /**
   * The intended registration only ever extends the list, and keeps the
   * names on it unique.
   */
  lemma IntendedRegistryGrows(list: seq<Fs>, fs: Fs)
    requires Named(list) && RegisterableName(fs.name) && UniqueNames(list)
    requires forall k :: 0 <= k < |list| ==> RegisterableName(list[k].name)
    ensures list <= RegisteredIntended(list, fs).1
    ensures Named(RegisteredIntended(list, fs).1) && UniqueNames(RegisteredIntended(list, fs).1)
  {
    var after := RegisteredIntended(list, fs).1;
    if FirstClash(list, fs.name, 0).None? {
      forall i, j | 0 <= i < j < |after|
        ensures CString(after[i].name) != CString(after[j].name)
      {
        if j == |list| {
          SameNameIff(fs.name, list[i].name);
        }
      }
    }
  }

  /** The written registration keeps the names on the list unique too, whatever it cuts off. */
  lemma RegisteredKeepsNamesUnique(list: seq<Fs>, fs: Fs)
    requires Named(list) && RegisterableName(fs.name) && UniqueNames(list)
    requires forall k :: 0 <= k < |list| ==> RegisterableName(list[k].name)
    ensures Named(Registered(list, fs).1) && UniqueNames(Registered(list, fs).1)
  {
    RegisteredOutcome(list, fs);
    var after := Registered(list, fs).1;
    if Registered(list, fs).0 == 0 {
      forall i, j | 0 <= i < j < |after|
        ensures CString(after[i].name) != CString(after[j].name)
      {
        if j == |list| {
          SameNameIff(fs.name, list[i].name);
        }
      }
    }
  }

  /**
   * The sequence of registrations of the file system tests: a new name is
   * accepted, the same file system again is refused and leaves the list as
   * it was, and a second name is accepted after it.
   */
  lemma RegisterTwiceThenAnother(a: Fs, b: Fs)
    requires RegisterableName(a.name) && RegisterableName(b.name) && CString(a.name) != CString(b.name)
    ensures Registered([], a) == (0, [a])
    ensures Registered([a], a) == (-EEXIST, [a])
    ensures Registered([a], b) == (0, [a, b])
  {
    assert FirstClash([], a.name, 0) == None;
    assert [] + [a] == [a];
    RegisteredOutcome([a], a);
    assert [a][..1] == [a];
    SameNameIff(b.name, a.name);
    assert b !in [a];
    assert FirstClash([a], b.name, 1) == None;
    assert FirstClash([a], b.name, 0) == None;
    assert [a] + [b] == [a, b];
  }

  /** `struct superblock`: the file system it belongs to (`NULL` when free), the inodes it glues together, and the next mount of the same file system. */
  datatype Superblock = Superblock(fs: Fs?, mountedInode: Option<nat>, rootInode: Option<nat>, next: Option<nat>)

  const FREE_SUPERBLOCK: Superblock := Superblock(null, None, None, None)

  /** The first free superblock from `i` on. */
  function FirstFreeSuperblock(blocks: seq<Superblock>, i: nat): (k: Option<nat>)
    requires i <= |blocks|
    ensures k.Some? ==> i <= k.value < |blocks| && blocks[k.value].fs == null
    ensures forall j :: i <= j < (if k.Some? then k.value else |blocks|) ==> blocks[j].fs != null
    decreases |blocks| - i
  {
    if i == |blocks| then None
    else if blocks[i].fs == null then Some(i)
    else FirstFreeSuperblock(blocks, i + 1)
  }

  /** A superblock that was free and is now in use, mounted on `inode`. */
  predicate NewMount(before: Superblock, after: Superblock, inode: nat)
  {
    before.fs == null && after.fs != null && after.mountedInode == Some(inode)
  }

  /** An inode as the mounting code looks at it. */
  datatype Inode = Inode(id: nat, isDir: bool, count: int)

  /** What `pathwalk` or `get_inode` gives back: an inode, or a negative error number. */
  datatype Lookup = Failed(err: int) | Found(inode: Inode)

  /** The number of superblocks in use. */
  function InUse(blocks: seq<Superblock>): (n: nat)
    ensures n <= |blocks|
  {
    if blocks == [] then 0 else (if blocks[0].fs != null then 1 else 0) + InUse(blocks[1..])
  }

  /** Claiming a free superblock puts one more in use; freeing one in use, one fewer. */
  lemma {:induction false} InUseUpdate(blocks: seq<Superblock>, k: nat, b: Superblock)
    requires k < |blocks|
    ensures InUse(blocks[k := b]) == InUse(blocks) - (if blocks[k].fs != null then 1 else 0) + (if b.fs != null then 1 else 0)
  {
    if k == 0 {
      assert blocks[k := b][1..] == blocks[1..];
    } else {
      assert blocks[k := b][1..] == blocks[1..][k - 1 := b];
      InUseUpdate(blocks[1..], k - 1, b);
    }
  }

  /** The file system list, the superblocks and the root of the VFS. */
  class Vfs {
    var fsList: Fs?
    ghost var registered: seq<Fs>
    const superblocks: array<Superblock>
    var vfsRoot: Option<nat>
    var putNodes: seq<nat>
    var mountpoints: set<nat>

    ghost predicate Valid()
      reads this, registered
    {
      superblocks.Length == N_SUPERBLOCK &&
      (fsList == null <==> registered == []) &&
      (registered != [] ==> fsList == registered[0]) &&
      Linked(registered) && Named(registered) &&
      (forall k :: 0 <= k < |registered| ==> RegisterableName(registered[k].name))
    }

    constructor ()
      ensures Valid() && registered == [] && vfsRoot.None? && putNodes == [] && mountpoints == {}
      ensures forall k :: 0 <= k < N_SUPERBLOCK ==> superblocks[k] == FREE_SUPERBLOCK
    {
      fsList := null;
      registered := [];
      superblocks := new Superblock[N_SUPERBLOCK](_ => FREE_SUPERBLOCK);
      vfsRoot := None;
      putNodes := [];
      mountpoints := {};
    }

    /**
     * `register_fs`: `-EFAULT` for `NULL`, `-EINVAL` when operations are
     * missing, `-ENAMETOOLONG` for a name shorter than 3 or longer than
     * `FS_NAME_MAXLEN` characters, each changing nothing; otherwise what
     * `Registered` says, with `fs->next` cleared.
     */
    method RegisterFs(fs: Fs?) returns (r: int)
      requires Valid() && (fs != null ==> NulFrom(fs.name, 0))
      modifies this, registered, fs
      ensures Valid()
      ensures fs == null ==> r == -EFAULT && registered == old(registered)
      ensures fs != null && (fs.ops.None? || CheckRequiredFsOps(fs.ops.value) != 0) ==>
        r == -EINVAL && registered == old(registered)
      ensures fs != null && fs.ops.Some? && CheckRequiredFsOps(fs.ops.value) == 0 && !RegisterableName(fs.name) ==>
        r == -ENAMETOOLONG && registered == old(registered)
      ensures fs != null && fs.ops.Some? && CheckRequiredFsOps(fs.ops.value) == 0 && RegisterableName(fs.name) ==>
        (r, registered) == Registered(old(registered), fs) && fs.next == null
    {
      if fs == null {
        return -EFAULT;
      }
      if fs.ops.None? || CheckRequiredFsOps(fs.ops.value) != 0 {
        return -EINVAL;
      }
      var len := Strlen(fs.name);
      if len < 3 || len > FS_NAME_MAXLEN {
        return -ENAMETOOLONG;
      }
      r := AppendFs(fs);
    }

    /** The part of `register_fs` after the checks: clear `fs->next`, then walk the list for a clash or its tail. */
    method AppendFs(fs: Fs) returns (r: int)
      requires Valid() && RegisterableName(fs.name)
      modifies this, registered, fs
      ensures Valid()
      ensures (r, registered) == Registered(old(registered), fs)
      ensures fs.next == null
    {
      ghost var list := registered;
      Detach(fs, list);
      if fsList == null {
        fsList := fs;
        assert [] + [fs] == [fs];
        Install([fs]);
        return 0;
      }
      r := WalkAndLink(fs, list);
    }

    /** The walk of `register_fs` over a list that is not empty, and the append at its tail. */
    method WalkAndLink(fs: Fs, ghost list: seq<Fs>) returns (r: int)
      requires list != [] && fsList == list[0] && superblocks.Length == N_SUPERBLOCK
      requires Linked(Walked(list, fs)) && fs.next == null && Named(list)
      requires RegisterableName(fs.name) && forall k :: 0 <= k < |list| ==> RegisterableName(list[k].name)
      modifies this, list
      ensures Valid() && (r, registered) == Registered(list, fs) && fs.next == null
    {
      var prev, clash := FindClash(fs, Walked(list, fs));
      if clash {
        Install(Walked(list, fs));
        return -EEXIST;
      }
      WalkedWhole(list, fs);
      Append(prev, fs, list);
      r := 0;
    }

    /** The end of a walk that found no clash: `fs` is linked after the tail `prev`. */
    method Append(prev: Fs, fs: Fs, ghost list: seq<Fs>)
      requires list != [] && fsList == list[0] && superblocks.Length == N_SUPERBLOCK
      requires Linked(list) && prev == list[|list| - 1] && fs !in list && fs.next == null
      requires RegisterableName(fs.name) && forall k :: 0 <= k < |list| ==> RegisterableName(list[k].name)
      modifies this, list
      ensures Valid() && registered == list + [fs] && fs.next == null
    {
      LinkTail(prev, fs, list);
      Install(list + [fs]);
    }

    /** `fs->next = NULL`: the list now ends at `fs` if `fs` is on it. */
    method Detach(fs: Fs, ghost list: seq<Fs>)
      requires Linked(list)
      modifies fs
      ensures fs.next == null && Linked(Walked(list, fs))
    {
      fs.next := null;
    }

    /** Records `list` as the nodes reached from `fs_list`. */
    ghost method Install(list: seq<Fs>)
      requires Linked(list) && list != [] && fsList == list[0] && superblocks.Length == N_SUPERBLOCK
      requires forall k :: 0 <= k < |list| ==> RegisterableName(list[k].name)
      modifies this
      ensures Valid() && registered == list
      ensures fsList == old(fsList) && vfsRoot == old(vfsRoot) && putNodes == old(putNodes) && mountpoints == old(mountpoints)
    {
      registered := list;
    }

    /** `prev->next = fs`: `fs` becomes the new tail. */
    method LinkTail(prev: Fs, fs: Fs, ghost list: seq<Fs>)
      requires Linked(list) && list != [] && prev == list[|list| - 1] && fs !in list && fs.next == null
      modifies prev
      ensures Linked(list + [fs])
    {
      prev.next := fs;
    }

    /** The loop of `register_fs`: whether a node of `walked` clashes with `fs`, and otherwise the tail. */
    method FindClash(fs: Fs, ghost walked: seq<Fs>) returns (prev: Fs, clash: bool)
      requires Linked(walked) && walked != [] && fsList == walked[0] && Named(walked) && NulFrom(fs.name, 0)
      ensures clash <==> FirstClash(walked, fs.name, 0).Some?
      ensures !clash ==> prev == walked[|walked| - 1]
    {
      var next: Fs? := fsList;
      prev := fsList;
      ghost var k := 0;
      while next != null
        invariant 0 <= k <= |walked|
        invariant k < |walked| ==> next == walked[k]
        invariant k == |walked| ==> next == null
        invariant prev == walked[if k == 0 then 0 else k - 1]
        invariant FirstClash(walked, fs.name, 0) == FirstClash(walked, fs.name, k)
        decreases |walked| - k
      {
        var c := StrncmpLoop(fs.name, next.name, FS_NAME_MAXLEN);
        if c == 0 {
          return prev, true;
        }
        prev := next;
        next := next.next;
        k := k + 1;
      }
      clash := false;
    }

    /**
     * `alloc_superblock`: claims the first free superblock for the first
     * registered file system called `fsName`, or reports `-ENOENT` when
     * there is none and `-ENOMEM` when all superblocks are in use, changing
     * nothing.  Claiming sets only the `fs` field.
     */
    method AllocSuperblock(fsName: seq<byte>) returns (sb: Option<nat>, errno: int)
      requires Valid() && NulFrom(fsName, 0)
      modifies superblocks
      ensures FirstNamed(registered, fsName, 0).None? ==>
        sb.None? && errno == -ENOENT && superblocks[..] == old(superblocks[..])
      ensures FirstNamed(registered, fsName, 0).Some? && FirstFreeSuperblock(old(superblocks[..]), 0).None? ==>
        sb.None? && errno == -ENOMEM && superblocks[..] == old(superblocks[..])
      ensures FirstNamed(registered, fsName, 0).Some? && FirstFreeSuperblock(old(superblocks[..]), 0).Some? ==>
        var j := FirstFreeSuperblock(old(superblocks[..]), 0).value;
        sb == Some(j) &&
        superblocks[..] == old(superblocks[..])[j := old(superblocks[j]).(fs := registered[FirstNamed(registered, fsName, 0).value])]
      ensures sb.Some? ==> sb.value < N_SUPERBLOCK && superblocks[sb.value].fs in registered
      ensures sb.Some? ==> old(superblocks[sb.value]).fs == null
      ensures sb.Some? ==> forall k :: 0 <= k < N_SUPERBLOCK && k != sb.value ==> superblocks[k] == old(superblocks[k])
      ensures sb.None? ==> errno < 0 && superblocks[..] == old(superblocks[..])
    {
      var fs := LookupFs(fsName);
      if fs == null {
        return None, -ENOENT;
      }
      sb := ClaimSuperblock(fs);
      errno := if sb.None? then -ENOMEM else 0;
    }

    /** The loop of `alloc_superblock` over `fs_list`: the first file system called `fsName`. */
    method LookupFs(fsName: seq<byte>) returns (fs: Fs?)
      requires Valid() && NulFrom(fsName, 0)
      ensures FirstNamed(registered, fsName, 0).None? ==> fs == null
      ensures FirstNamed(registered, fsName, 0).Some? ==> fs == registered[FirstNamed(registered, fsName, 0).value]
    {
      fs := fsList;
      ghost var k := 0;
      while fs != null
        invariant 0 <= k <= |registered|
        invariant k < |registered| ==> fs == registered[k]
        invariant k == |registered| ==> fs == null
        invariant FirstNamed(registered, fsName, 0) == FirstNamed(registered, fsName, k)
        decreases |registered| - k
      {
        var c := StrncmpLoop(fs.name, fsName, FS_NAME_MAXLEN);
        if c == 0 {
          return;
        }
        fs := fs.next;
        k := k + 1;
      }
    }

    /** The loop of `alloc_superblock` over the superblocks: claims the first free one for `fs`. */
    method ClaimSuperblock(fs: Fs) returns (sb: Option<nat>)
      requires superblocks.Length == N_SUPERBLOCK
      modifies superblocks
      ensures FirstFreeSuperblock(old(superblocks[..]), 0).None? ==> sb.None? && superblocks[..] == old(superblocks[..])
      ensures FirstFreeSuperblock(old(superblocks[..]), 0).Some? ==>
        var j := FirstFreeSuperblock(old(superblocks[..]), 0).value;
        sb == Some(j) && superblocks[..] == old(superblocks[..])[j := old(superblocks[j]).(fs := fs)]
    {
      var j := 0;
      while j < N_SUPERBLOCK
        invariant 0 <= j <= N_SUPERBLOCK
        invariant FirstFreeSuperblock(superblocks[..], 0) == FirstFreeSuperblock(superblocks[..], j)
      {
        if superblocks[j].fs == null {
          superblocks[j] := superblocks[j].(fs := fs);
          return Some(j);
        }
        j := j + 1;
      }
      return None;
    }

    /** `find_superblock`: the first superblock in use that is mounted on `mounted`. */
    method FindSuperblock(mounted: Option<nat>) returns (sb: Option<nat>)
      requires Valid()
      ensures sb.Some? ==> sb.value < N_SUPERBLOCK
      ensures sb.Some? ==> superblocks[sb.value].fs != null && superblocks[sb.value].mountedInode == mounted
      ensures forall k :: 0 <= k < (if sb.Some? then sb.value else N_SUPERBLOCK) ==>
        superblocks[k].fs == null || superblocks[k].mountedInode != mounted
    {
      var k := 0;
      while k < N_SUPERBLOCK
        invariant 0 <= k <= N_SUPERBLOCK
        invariant forall j :: 0 <= j < k ==> superblocks[j].fs == null || superblocks[j].mountedInode != mounted
      {
        if superblocks[k].fs != null && superblocks[k].mountedInode == mounted {
          return Some(k);
        }
        k := k + 1;
      }
      return None;
    }

    /**
     * `mount_helper`: runs the file system's `mount` operation (its result
     * `mountRet`) and fetches the root inode (`fetched`).  A root that is not
     * a directory or is already referenced elsewhere is handed back to
     * `put_node` and refused with `-EINVAL`.  On success the mount point, if
     * any, is marked, and the superblock is pushed on its file system's
     * list of mounts.
     */
    method MountHelper(sb: nat, mnt: Option<nat>, mountRet: int, fetched: Lookup) returns (ret: int)
      requires Valid() && sb < N_SUPERBLOCK && superblocks[sb].fs in registered
      requires fetched.Failed? ==> fetched.err < 0
      modifies this, superblocks, superblocks[sb].fs
      ensures Valid() && registered == old(registered) && fsList == old(fsList) && vfsRoot == old(vfsRoot)
      ensures forall k :: 0 <= k < N_SUPERBLOCK && k != sb ==> superblocks[k] == old(superblocks[k])
      ensures superblocks[sb].fs == old(superblocks[sb].fs)
      ensures mountRet < 0 ==> ret == mountRet && unchanged(this, superblocks)
      ensures mountRet >= 0 && fetched.Failed? ==> ret == fetched.err && superblocks[sb].rootInode.None?
      ensures mountRet >= 0 && fetched.Found? && !(fetched.inode.isDir && fetched.inode.count == 1) ==>
        ret == -EINVAL && putNodes == old(putNodes) + [fetched.inode.id] && mountpoints == old(mountpoints)
      ensures mountRet >= 0 && fetched.Found? && fetched.inode.isDir && fetched.inode.count == 1 ==>
        ret == 0 && putNodes == old(putNodes) &&
        superblocks[sb].rootInode == Some(fetched.inode.id) &&
        superblocks[sb].next == old(superblocks[sb].fs.mounts) && superblocks[sb].fs.mounts == Some(sb) &&
        (mnt.Some? ==> superblocks[sb].mountedInode == mnt && mountpoints == old(mountpoints) + {mnt.value}) &&
        (mnt.None? ==> superblocks[sb].mountedInode == old(superblocks[sb].mountedInode) && mountpoints == old(mountpoints))
      ensures ret < 0 <==> !(mountRet >= 0 && fetched.Found? && fetched.inode.isDir && fetched.inode.count == 1)
    {
      if mountRet < 0 {
        return mountRet;
      }
      var fs := superblocks[sb].fs;
      if fetched.Failed? {
        superblocks[sb] := superblocks[sb].(rootInode := None);
        return fetched.err;
      }
      var root := fetched.inode;
      superblocks[sb] := superblocks[sb].(rootInode := Some(root.id));
      if !root.isDir || root.count != 1 {
        putNodes := putNodes + [root.id];
        return -EINVAL;
      }
      if mnt.Some? {
        mountpoints := mountpoints + {mnt.value};
        superblocks[sb] := superblocks[sb].(mountedInode := mnt);
      }
      superblocks[sb] := superblocks[sb].(next := fs.mounts);
      fs.mounts := Some(sb);
      ret := 0;
    }

    /**
     * `mount`: a path that does not start with `/` is refused with
     * `-EINVAL`.  Then a superblock is claimed for the file system called
     * `name`, the mount point is looked up (`walk`) and must be a
     * directory (`-ENOTDIR`), and `mount_helper` does the rest.  Every
     * failure after the claim frees the superblock again, so a failed mount
     * leaves the superblocks in use as they were.
     */
    method Mount(path: seq<byte>, name: seq<byte>, walk: Lookup, mountRet: int, fetched: Lookup) returns (ret: int)
      requires Valid() && NulFrom(path, 0) && NulFrom(name, 0)
      requires walk.Failed? ==> walk.err < 0
      requires fetched.Failed? ==> fetched.err < 0
      modifies this, superblocks, registered
      ensures Valid() && registered == old(registered)
      ensures path[0] != SLASH ==> ret == -EINVAL && unchanged(this, superblocks)
      ensures FirstNamed(registered, name, 0).None? ==> ret < 0 && superblocks[..] == old(superblocks[..])
      ensures ret < 0 ==> InUse(superblocks[..]) == InUse(old(superblocks[..]))
      ensures ret < 0 ==> forall k :: 0 <= k < N_SUPERBLOCK ==> (superblocks[k].fs == null <==> old(superblocks[k].fs) == null)
      ensures ret == 0 ==> walk.Found? && walk.inode.isDir && walk.inode.id in mountpoints
      ensures ret == 0 ==> InUse(superblocks[..]) == InUse(old(superblocks[..])) + 1
      ensures ret == 0 ==> exists k :: 0 <= k < N_SUPERBLOCK && NewMount(old(superblocks[k]), superblocks[k], walk.inode.id)
    {
      if path[0] != SLASH {
        return -EINVAL;
      }
      ghost var before := superblocks[..];
      var sb, errno := AllocSuperblock(name);
      if sb.None? {
        return errno;
      }
      ret := MountClaimed(sb.value, before, walk, mountRet, fetched);
      if ret == 0 {
        assert NewMount(before[sb.value], superblocks[sb.value], walk.inode.id);
      }
    }

    /** The part of `mount` after a superblock has been claimed, the only change from `before`. */
    method MountClaimed(j: nat, ghost before: seq<Superblock>, walk: Lookup, mountRet: int, fetched: Lookup) returns (ret: int)
      requires Valid() && j < N_SUPERBLOCK && |before| == N_SUPERBLOCK && before[j].fs == null
      requires superblocks[j].fs in registered
      requires forall k :: 0 <= k < N_SUPERBLOCK && k != j ==> superblocks[k] == before[k]
      requires walk.Failed? ==> walk.err < 0
      requires fetched.Failed? ==> fetched.err < 0
      modifies this, superblocks, superblocks[j].fs
      ensures Valid() && registered == old(registered)
      ensures ret < 0 ==> InUse(superblocks[..]) == InUse(before)
      ensures ret < 0 ==> forall k :: 0 <= k < N_SUPERBLOCK ==> (superblocks[k].fs == null <==> before[k].fs == null)
      ensures ret == 0 ==> walk.Found? && walk.inode.isDir && walk.inode.id in mountpoints
      ensures ret == 0 ==> InUse(superblocks[..]) == InUse(before) + 1
      ensures ret == 0 ==> superblocks[j].fs != null && superblocks[j].mountedInode == Some(walk.inode.id)
    {
      if walk.Failed? {
        Release(j, before);
        return walk.err;
      }
      if !walk.inode.isDir {
        Release(j, before);
        putNodes := putNodes + [walk.inode.id];
        return -ENOTDIR;
      }
      ret := MountHelper(j, Some(walk.inode.id), mountRet, fetched);
      if ret < 0 {
        Release(j, before);
        putNodes := putNodes + [walk.inode.id];
        return ret;
      }
      assert superblocks[..] == before[j := superblocks[j]];
      InUseUpdate(before, j, superblocks[j]);
    }

    /** `superblk->fs = NULL`: gives a superblock claimed by the caller back. */
    method Release(j: nat, ghost before: seq<Superblock>)
      requires Valid() && j < N_SUPERBLOCK && |before| == N_SUPERBLOCK && before[j].fs == null
      requires forall k :: 0 <= k < N_SUPERBLOCK && k != j ==> superblocks[k] == before[k]
      modifies superblocks
      ensures superblocks[..] == old(superblocks[..])[j := old(superblocks[j]).(fs := null)]
      ensures InUse(superblocks[..]) == InUse(before)
      ensures forall k :: 0 <= k < N_SUPERBLOCK ==> (superblocks[k].fs == null <==> before[k].fs == null)
    {
      superblocks[j] := superblocks[j].(fs := null);
      assert superblocks[..] == before[j := superblocks[j]];
      InUseUpdate(before, j, superblocks[j]);
    }

    /**
     * `mount_rootfs`: claims a superblock for `name` and mounts it on no
     * inode; on success its root inode becomes the root of the VFS, on
     * failure the superblock is freed again.
     */
    method MountRootfs(name: seq<byte>, mountRet: int, fetched: Lookup) returns (ret: int)
      requires Valid() && NulFrom(name, 0)
      requires fetched.Failed? ==> fetched.err < 0
      modifies this, superblocks, registered
      ensures Valid() && registered == old(registered)
      ensures ret < 0 ==> vfsRoot == old(vfsRoot) && InUse(superblocks[..]) == InUse(old(superblocks[..]))
      ensures ret == 0 ==> fetched.Found? && vfsRoot == Some(fetched.inode.id)
      ensures ret == 0 ==> InUse(superblocks[..]) == InUse(old(superblocks[..])) + 1
    {
      ghost var before := superblocks[..];
      var sb, errno := AllocSuperblock(name);
      if sb.None? {
        return errno;
      }
      ret := MountRootClaimed(sb.value, before, mountRet, fetched);
    }

    /** The part of `mount_rootfs` after a superblock has been claimed, the only change from `before`. */
    method MountRootClaimed(j: nat, ghost before: seq<Superblock>, mountRet: int, fetched: Lookup) returns (ret: int)
      requires Valid() && j < N_SUPERBLOCK && |before| == N_SUPERBLOCK && before[j].fs == null
      requires superblocks[j].fs in registered
      requires forall k :: 0 <= k < N_SUPERBLOCK && k != j ==> superblocks[k] == before[k]
      requires fetched.Failed? ==> fetched.err < 0
      modifies this, superblocks, superblocks[j].fs
      ensures Valid() && registered == old(registered)
      ensures ret < 0 ==> vfsRoot == old(vfsRoot) && InUse(superblocks[..]) == InUse(before)
      ensures ret == 0 ==> fetched.Found? && vfsRoot == Some(fetched.inode.id)
      ensures ret == 0 ==> InUse(superblocks[..]) == InUse(before) + 1
    {
      ret := MountHelper(j, None, mountRet, fetched);
      if ret < 0 {
        Release(j, before);
        return ret;
      }
      assert superblocks[..] == before[j := superblocks[j]];
      InUseUpdate(before, j, superblocks[j]);
      vfsRoot := superblocks[j].rootInode;
    }
  }
}
