/**
 * The statically sized ring buffer of kernel/include/ring_buffer.h.
 *
 * The header is a set of macros over a struct with `size`, `read_idx`,
 * `write_idx`, `cap` and a fixed array; here the struct is a class and each
 * macro a member.  Push and pop check neither fullness nor emptiness, exactly
 * as the macros do; `size` is a 32-bit `size_t` and wraps.  When every push
 * happens on a buffer that is not full and every pop on one that is not
 * empty, the buffer behaves as a FIFO queue whose contents are `Contents()`.
 */
module RingBuffers {
  import opened CTypes

  /** Index `k` of a ring of `c` slots, for `k` below two laps. */
  function Wrap(k: int, c: int): int
    requires 0 <= k < 2 * c
  {
    if k < c then k else k - c
  }

  /** The source's `(i + 1) % c` is the wrapped successor. */
  lemma NextIsWrap(i: int, c: int)
    requires 0 <= i < c
    ensures (i + 1) % c == Wrap(i + 1, c)
  {
    if i + 1 == c {
      assert (i + 1) % c == c % c == 0;
    } else {
      assert (i + 1) % c == i + 1;
    }
  }

  /** The `n` slots of `a` that start at `r` and run around a ring of `c`. */
  ghost function Window<T>(a: seq<T>, r: int, n: int, c: int): (q: seq<T>)
    requires 0 <= r < c <= |a| && 0 <= n <= c
    ensures |q| == n
    ensures forall i :: 0 <= i < n ==> q[i] == a[Wrap(r + i, c)]
  {
    seq(n, i requires 0 <= i < n => a[Wrap(r + i, c)])
  }

  /** Writing `x` into the slot just past a window extends the window by `x`. */
  lemma WindowPush<T>(a: seq<T>, r: int, n: int, c: int, x: T)
    requires 0 <= r < c <= |a| && 0 <= n < c
    ensures Window(a[Wrap(r + n, c) := x], r, n + 1, c) == Window(a, r, n, c) + [x]
  {
    var w := Wrap(r + n, c);
    forall i | 0 <= i < n
      ensures Window(a[w := x], r, n + 1, c)[i] == Window(a, r, n, c)[i]
    {
      assert Wrap(r + i, c) != w;
    }
  }

  class RingBuffer<T(0)> {
    var size: int
    var readIdx: int
    var writeIdx: int
    var cap: int
    /** The struct's array member; its length is the `SIZE` of the declaration. */
    const buf: array<T>

    /** What every macro relies on: indices inside the first `cap` slots of the array. */
    ghost predicate Valid()
      reads this
    {
      0 < cap <= buf.Length && cap <= SIZE_MAX && 0 <= readIdx < cap && 0 <= writeIdx < cap && 0 <= size <= SIZE_MAX
    }

    /** The queue invariant that guarded pushes and pops preserve. */
    ghost predicate Consistent()
      reads this
    {
      Valid() && size <= cap && writeIdx == Wrap(readIdx + size, cap)
    }

    /** The zeroed struct a static declaration leaves before `ring_buff_init`: no capacity at all. */
    ghost predicate Unset()
      reads this
    {
      cap == 0 && size == 0 && readIdx == 0 && writeIdx == 0
    }

    /** The queued elements, oldest first. */
    ghost function Contents(): (q: seq<T>)
      reads this, buf
      requires Consistent()
      ensures |q| == size
    {
      Window(buf[..], readIdx, size, cap)
    }

    /** A buffer over an array of `n` elements, initialised with `ring_buff_init`. */
    constructor (n: nat)
      requires 0 < n <= SIZE_MAX
      ensures Consistent() && Contents() == [] && cap == n
      ensures fresh(buf) && buf.Length == n
    {
      buf := new T[n];
      size, readIdx, writeIdx := 0, 0, 0;
      cap := n;
    }

    /** A buffer over an array of `n` elements as a static declaration leaves it, every field zero. */
    constructor Zeroed(n: nat)
      ensures Unset() && fresh(buf) && buf.Length == n
    {
      buf := new T[n];
      size, readIdx, writeIdx, cap := 0, 0, 0, 0;
    }

    /** `ring_buff_init`: empty, with the capacity of the whole array. */
    method Init()
      modifies this
      ensures size == 0 && readIdx == 0 && writeIdx == 0 && cap == buf.Length
      ensures 0 < buf.Length <= SIZE_MAX ==> Consistent() && Contents() == []
    {
      size, readIdx, writeIdx := 0, 0, 0;
      cap := buf.Length;
    }

    /** `ring_buff_init_with_cap`: empty, using only the first `capacity` slots. */
    method InitWithCap(capacity: int)
      requires 0 < capacity <= buf.Length && capacity <= SIZE_MAX
      modifies this
      ensures size == 0 && readIdx == 0 && writeIdx == 0 && cap == capacity
      ensures Consistent() && Contents() == []
    {
      size, readIdx, writeIdx := 0, 0, 0;
      cap := capacity;
    }

    /** `ring_buff_empty`. */
    method Empty() returns (b: bool)
      ensures b <==> size == 0
      ensures Consistent() ==> (b <==> Contents() == [])
    {
      b := size == 0;
    }

    /** `ring_buff_full`. */
    method Full() returns (b: bool)
      ensures b <==> size == cap
      ensures Consistent() ==> (b <==> |Contents()| == cap)
    {
      b := size == cap;
    }

    /** `ring_buff_first`: the slot at the read index, the oldest element when there is one. */
    method First() returns (x: T)
      requires Valid()
      ensures x == buf[readIdx]
      ensures Consistent() && Contents() != [] ==> x == Contents()[0]
    {
      x := buf[readIdx];
    }

    /** `ring_buffer_push`: stores at the write index without checking for room. */
    method Push(x: T)
      requires Valid()
      modifies this, buf
      ensures Valid()
      ensures buf[..] == old(buf[..])[old(writeIdx) := x]
      ensures writeIdx == (old(writeIdx) + 1) % cap && readIdx == old(readIdx) && cap == old(cap)
      ensures size == (old(size) + 1) % UINT32_MOD
      ensures old(Consistent()) && old(size) < cap ==> Consistent() && Contents() == old(Contents()) + [x]
    {
      ghost var a, n := buf[..], size;
      NextIsWrap(writeIdx, cap);
      buf[writeIdx] := x;
      writeIdx := (writeIdx + 1) % cap;
      size := (size + 1) % UINT32_MOD;
      if old(Consistent()) && old(size) < cap {
        assert size == old(size) + 1;
        assert writeIdx == Wrap(readIdx + size, cap);
        assert Consistent();
        WindowPush(a, readIdx, n, cap, x);
        assert buf[..] == a[Wrap(readIdx + n, cap) := x];
        assert Contents() == Window(a, readIdx, n, cap) + [x];
      }
    }

    /** `ring_buffer_pop`: takes the slot at the read index without checking for an element. */
    method Pop() returns (x: T)
      requires Valid()
      modifies this
      ensures Valid()
      ensures x == old(buf[readIdx])
      ensures readIdx == (old(readIdx) + 1) % cap && writeIdx == old(writeIdx) && cap == old(cap)
      ensures size == (old(size) - 1) % UINT32_MOD
      ensures old(Consistent()) && old(size) > 0 ==> Consistent() && x == old(Contents())[0] && Contents() == old(Contents())[1..]
    {
      NextIsWrap(readIdx, cap);
      x := buf[readIdx];
      readIdx := (readIdx + 1) % cap;
      size := (size - 1) % UINT32_MOD;
    }

    /** `ring_buffer_rest`: both indices back to 0; `size` is left as it is. */
    method Rest()
      requires Valid()
      modifies this
      ensures Valid()
      ensures readIdx == 0 && writeIdx == 0 && size == old(size) && cap == old(cap)
      ensures old(size) == 0 ==> Consistent() && Contents() == []
    {
      readIdx := 0;
      writeIdx := 0;
    }
  }

  /**
   * A client of the macros: two guarded pushes followed by two pops come out
   * in the order they went in.
   */
  method FifoOrder<T(0)>(b: RingBuffer<T>, x: T, y: T) returns (first: T, second: T)
    requires b.Consistent() && b.size + 2 <= b.cap
    modifies b, b.buf
    ensures first == (old(b.Contents()) + [x, y])[0] && second == (old(b.Contents()) + [x, y])[1]
    ensures b.Consistent() && b.Contents() == (old(b.Contents()) + [x, y])[2..]
  {
    b.Push(x);
    b.Push(y);
    assert b.Contents() == old(b.Contents()) + [x, y];
    first := b.Pop();
    second := b.Pop();
  }
}
