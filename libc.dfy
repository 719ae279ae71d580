/**
 * The freestanding C library of kernel/utils/libc.c.
 *
 * Memory is bytes.  A read-only pointer argument is the sequence of bytes from
 * the pointer on; a pointer that is written through is an array together with
 * an offset into it.  A C string is such a sequence with a NUL in it.
 */
module LibC {
  import opened CTypes

  // ----- C strings -----------------------------------------------------------

  /** From index `i` on, `s` holds a NUL-terminated string. */
  predicate NulFrom(s: seq<byte>, i: int)
  {
    0 <= i && exists k :: i <= k < |s| && s[k] == NUL
  }

  /** The index of the first NUL at or after `i`. */
  function NulIndex(s: seq<byte>, i: int): (n: int)
    requires NulFrom(s, i)
    ensures i <= n < |s| && s[n] == NUL
    ensures forall k :: i <= k < n ==> s[k] != NUL
    decreases |s| - i
  {
    if s[i] == NUL then i else NulIndex(s, i + 1)
  }

  /** The characters of the string that starts at `s[0]`, without its NUL. */
  function CString(s: seq<byte>): (r: seq<byte>)
    requires NulFrom(s, 0)
    ensures NUL !in r && r + [NUL] <= s
  {
    s[..NulIndex(s, 0)]
  }

  /** `strlen`: counts characters up to the first NUL. */
  method Strlen(str: seq<byte>) returns (len: int)
    requires NulFrom(str, 0)
    ensures 0 <= len < |str| && str[len] == NUL
    ensures forall k :: 0 <= k < len ==> str[k] != NUL
    ensures len == |CString(str)|
  {
    len := 0;
    while str[len] != NUL
      invariant 0 <= len <= NulIndex(str, 0)
      decreases NulIndex(str, 0) - len
    {
      len := len + 1;
    }
  }

  // ----- memcmp ---------------------------------------------------------------

  /** The comparison `memcmp` makes of `l[i..]` and `r[i..]`: the sign at the first differing byte. */
  function CompareFrom(l: seq<byte>, r: seq<byte>, i: int): (c: int)
    requires |l| == |r| && 0 <= i <= |l|
    ensures c == -1 || c == 0 || c == 1
    ensures c == 0 <==> l[i..] == r[i..]
    decreases |l| - i
  {
    if i == |l| then 0
    else if l[i] < r[i] then -1
    else if l[i] > r[i] then 1
    else
      var c := CompareFrom(l, r, i + 1);
      assert l[i..] == [l[i]] + l[i + 1..] && r[i..] == [r[i]] + r[i + 1..];
      c
  }

  /** `memcmp`: -1 or 1 at the first byte that differs, compared unsigned; 0 when `count` bytes agree. */
  method Memcmp(lhs: seq<byte>, rhs: seq<byte>, count: int) returns (c: int)
    requires 0 <= count <= |lhs| && count <= |rhs|
    ensures c == CompareFrom(lhs[..count], rhs[..count], 0)
    ensures c == 0 <==> lhs[..count] == rhs[..count]
  {
    ghost var L, R := lhs[..count], rhs[..count];
    var i := 0;
    while i < count
      invariant 0 <= i <= count
      invariant CompareFrom(L, R, 0) == CompareFrom(L, R, i)
    {
      if lhs[i] < rhs[i] {
        return -1;
      } else if lhs[i] > rhs[i] {
        return 1;
      }
      i := i + 1;
    }
    return 0;
  }

  /** Swapping the operands of `memcmp` negates its result. */
  lemma {:induction false} CompareAntisymmetric(l: seq<byte>, r: seq<byte>, i: int)
    requires |l| == |r| && 0 <= i <= |l|
    ensures CompareFrom(r, l, i) == -CompareFrom(l, r, i)
    decreases |l| - i
  {
    if i < |l| && l[i] == r[i] {
      CompareAntisymmetric(l, r, i + 1);
    }
  }

  /** The first differing byte decides `memcmp`, whatever follows it. */
  lemma {:induction false} CompareFirstDifference(l: seq<byte>, r: seq<byte>, j: int)
    requires |l| == |r| && 0 <= j < |l|
    requires l[..j] == r[..j] && l[j] != r[j]
    ensures CompareFrom(l, r, 0) == (if l[j] < r[j] then -1 else 1)
  {
    var i := j;
    while i > 0
      invariant 0 <= i <= j
      invariant CompareFrom(l, r, i) == (if l[j] < r[j] then -1 else 1)
    {
      assert l[i - 1] == l[..j][i - 1] == r[..j][i - 1] == r[i - 1];
      i := i - 1;
    }
  }

  // ----- memcpy, memmove, memset ------------------------------------------------

  /** `a` with its `count` bytes from `d` on replaced by `src[s..s + count]`. */
  ghost function Overwrite(a: seq<byte>, d: int, src: seq<byte>, s: int, count: int): (r: seq<byte>)
    requires 0 <= count && 0 <= d && d + count <= |a| && 0 <= s && s + count <= |src|
    ensures |r| == |a|
  {
    a[..d] + src[s..s + count] + a[d + count..]
  }

  /** A sequence that agrees with `Overwrite(a, d, src, s, count)` at every index is that sequence. */
  lemma OverwritePointwise(a: seq<byte>, d: int, src: seq<byte>, s: int, count: int, r: seq<byte>)
    requires 0 <= count && 0 <= d && d + count <= |a| && 0 <= s && s + count <= |src| && |r| == |a|
    requires forall k :: 0 <= k < |a| && !(d <= k < d + count) ==> r[k] == a[k]
    requires forall k :: d <= k < d + count ==> r[k] == src[s + (k - d)]
    ensures r == Overwrite(a, d, src, s, count)
  {
  }

  /**
   * `memcpy`: copies `count` bytes from `src` at `s` to `dest` at `d`.  The
   * `__restrict` qualifiers promise distinct objects, here distinct arrays.
   */
  method Memcpy(dest: array<byte>, d: int, src: array<byte>, s: int, count: int)
    requires dest != src
    requires 0 <= count && 0 <= d && d + count <= dest.Length && 0 <= s && s + count <= src.Length
    modifies dest
    ensures dest[..] == Overwrite(old(dest[..]), d, src[..], s, count)
  {
    var i := 0;
    while i < count
      invariant 0 <= i <= count
      invariant forall k :: 0 <= k < dest.Length && !(d <= k < d + i) ==> dest[k] == old(dest[k])
      invariant forall k :: d <= k < d + i ==> dest[k] == src[s + (k - d)]
    {
      dest[d + i] := src[s + i];
      i := i + 1;
    }
    assert dest[..] == Overwrite(old(dest[..]), d, src[..], s, count);
  }

  /**
   * `memmove`: copies `count` bytes from offset `s` to offset `d` of the same
   * memory; forwards when the destination lies below the source and backwards
   * otherwise, so an overlap loses nothing.
   */
  method Memmove(mem: array<byte>, d: int, s: int, count: int)
    requires 0 <= count && 0 <= d && d + count <= mem.Length && 0 <= s && s + count <= mem.Length
    modifies mem
    ensures mem[..] == Overwrite(old(mem[..]), d, old(mem[..]), s, count)
  {
    if d < s {
      MoveForward(mem, d, s, count);
    } else {
      MoveBackward(mem, d, s, count);
    }
  }

  /** The forward loop of `memmove`, lowest byte first. */
  method MoveForward(mem: array<byte>, d: int, s: int, count: int)
    requires 0 <= count && 0 <= d < s && s + count <= mem.Length
    modifies mem
    ensures mem[..] == Overwrite(old(mem[..]), d, old(mem[..]), s, count)
  {
    var i := 0;
    while i < count
      invariant 0 <= i <= count
      invariant forall k :: 0 <= k < mem.Length && !(d <= k < d + i) ==> mem[k] == old(mem[k])
      invariant forall k :: d <= k < d + i ==> mem[k] == old(mem[s + (k - d)])
    {
      assert mem[s + i] == old(mem[s + i]);
      mem[d + i] := mem[s + i];
      i := i + 1;
    }
    OverwritePointwise(old(mem[..]), d, old(mem[..]), s, count, mem[..]);
  }

  /** The backward loop of `memmove`, highest byte first. */
  method MoveBackward(mem: array<byte>, d: int, s: int, count: int)
    requires 0 <= count && 0 <= s <= d && d + count <= mem.Length
    modifies mem
    ensures mem[..] == Overwrite(old(mem[..]), d, old(mem[..]), s, count)
  {
    var i := count;
    while i != 0
      invariant 0 <= i <= count
      invariant forall k :: 0 <= k < mem.Length && !(d + i <= k < d + count) ==> mem[k] == old(mem[k])
      invariant forall k :: d + i <= k < d + count ==> mem[k] == old(mem[s + (k - d)])
    {
      assert mem[s + i - 1] == old(mem[s + i - 1]);
      mem[d + i - 1] := mem[s + i - 1];
      i := i - 1;
    }
    OverwritePointwise(old(mem[..]), d, old(mem[..]), s, count, mem[..]);
  }

  /** The `unsigned char` that `memset` converts its `int` argument to. */
  function UnsignedChar(ch: int): (b: byte)
    ensures b == ch % 256
    ensures 0 <= ch < 256 ==> b == ch
  {
    ch % 256
  }

  /** `memset`: `count` bytes from `d` on become `(unsigned char)ch`; nothing else changes. */
  method Memset(dest: array<byte>, d: int, ch: int, count: int)
    requires 0 <= count && 0 <= d && d + count <= dest.Length
    modifies dest
    ensures dest[..] == Overwrite(old(dest[..]), d, seq(count, _ => UnsignedChar(ch)), 0, count)
  {
    var i := 0;
    while i < count
      invariant 0 <= i <= count
      invariant forall k :: 0 <= k < dest.Length && !(d <= k < d + i) ==> dest[k] == old(dest[k])
      invariant forall k :: d <= k < d + i ==> dest[k] == UnsignedChar(ch)
    {
      dest[d + i] := UnsignedChar(ch);
      i := i + 1;
    }
    assert dest[..] == Overwrite(old(dest[..]), d, seq(count, _ => UnsignedChar(ch)), 0, count);
  }

  // ----- strcmp and strncmp -------------------------------------------------------

  /**
   * Where the loop of `strncmp` stops: the first index from `i` on that reaches
   * `limit`, the end of `l`, or a difference.  `strcmp` is the same loop with
   * no limit.
   */
  function StopIndex(l: seq<byte>, r: seq<byte>, i: int, limit: Option<int>): (j: int)
    requires NulFrom(l, i) && NulFrom(r, i)
    requires limit.Some? ==> i <= limit.value
    ensures i <= j <= NulIndex(l, i) && j < |r|
    ensures forall k :: i <= k < j ==> l[k] == r[k]
    ensures j == NulIndex(l, i) || l[j] != r[j] || (limit.Some? && j == limit.value)
    ensures limit.Some? ==> j <= limit.value
    decreases |l| - i
  {
    if (limit.Some? && i == limit.value) || l[i] == NUL || l[i] != r[i] then i
    else StopIndex(l, r, i + 1, limit)
  }

  /** `strcmp`: the unsigned difference of the first pair of bytes that differ or end `lhs`. */
  function Strcmp(lhs: seq<byte>, rhs: seq<byte>): (c: int)
    requires NulFrom(lhs, 0) && NulFrom(rhs, 0)
  {
    var j := StopIndex(lhs, rhs, 0, None);
    lhs[j] as int - rhs[j] as int
  }

  /** The loop of `strcmp`, walking both strings while they agree. */
  method StrcmpLoop(lhs: seq<byte>, rhs: seq<byte>) returns (c: int)
    requires NulFrom(lhs, 0) && NulFrom(rhs, 0)
    ensures c == Strcmp(lhs, rhs)
  {
    var i := 0;
    while lhs[i] != NUL && lhs[i] == rhs[i]
      invariant 0 <= i <= StopIndex(lhs, rhs, 0, None)
      invariant StopIndex(lhs, rhs, 0, None) == StopIndex(lhs, rhs, i, None)
      decreases NulIndex(lhs, 0) - i
    {
      i := i + 1;
    }
    c := lhs[i] as int - rhs[i] as int;
  }

  /** Two strings that agree up to a point, with `l` still going, agree as strings only if they agree past it. */
  lemma CStringsAgreeTo(l: seq<byte>, r: seq<byte>, j: int)
    requires NulFrom(l, 0) && NulFrom(r, 0) && 0 <= j
    requires j <= NulIndex(l, 0) && j < |r| && forall k :: 0 <= k < j ==> l[k] == r[k]
    ensures j <= NulIndex(r, 0)
    ensures l[j] == NUL && r[j] == NUL ==> CString(l) == CString(r)
    ensures l[j] != r[j] ==> CString(l) != CString(r)
  {
    if l[j] != r[j] {
      var nl, nr := NulIndex(l, 0), NulIndex(r, 0);
      if nl == nr {
        assert CString(l)[j] != CString(r)[j];
      }
    }
  }

  /** `strcmp` is 0 exactly when the two strings are equal. */
  lemma StrcmpZeroIffEqual(lhs: seq<byte>, rhs: seq<byte>)
    requires NulFrom(lhs, 0) && NulFrom(rhs, 0)
    ensures Strcmp(lhs, rhs) == 0 <==> CString(lhs) == CString(rhs)
  {
    var j := StopIndex(lhs, rhs, 0, None);
    CStringsAgreeTo(lhs, rhs, j);
  }

  /** Swapping the operands of `strcmp` negates its result. */
  lemma {:induction false} StrcmpAntisymmetric(lhs: seq<byte>, rhs: seq<byte>)
    requires NulFrom(lhs, 0) && NulFrom(rhs, 0)
    ensures Strcmp(rhs, lhs) == -Strcmp(lhs, rhs)
  {
    StopSymmetric(lhs, rhs, 0);
  }

  lemma {:induction false} StopSymmetric(l: seq<byte>, r: seq<byte>, i: int)
    requires NulFrom(l, i) && NulFrom(r, i)
    ensures StopIndex(l, r, i, None) == StopIndex(r, l, i, None)
    decreases |l| - i
  {
    if l[i] != NUL && l[i] == r[i] {
      StopSymmetric(l, r, i + 1);
    }
  }

  /**
   * `strncmp` as written: the loop stops after `count` equal bytes, yet the
   * result is still the difference of the bytes at the index where it stopped.
   */
  function Strncmp(lhs: seq<byte>, rhs: seq<byte>, count: int): (c: int)
    requires NulFrom(lhs, 0) && NulFrom(rhs, 0) && 0 <= count
  {
    var j := StopIndex(lhs, rhs, 0, Some(count));
    lhs[j] as int - rhs[j] as int
  }

  /** The loop of `strncmp`. */
  method StrncmpLoop(lhs: seq<byte>, rhs: seq<byte>, count: int) returns (c: int)
    requires NulFrom(lhs, 0) && NulFrom(rhs, 0) && 0 <= count
    ensures c == Strncmp(lhs, rhs, count)
  {
    var i, n := 0, count;
    while n != 0 && lhs[i] != NUL && lhs[i] == rhs[i]
      invariant 0 <= i <= StopIndex(lhs, rhs, 0, Some(count)) && n == count - i
      invariant StopIndex(lhs, rhs, 0, Some(count)) == StopIndex(lhs, rhs, i, Some(count))
      decreases n
    {
      i, n := i + 1, n - 1;
    }
    c := lhs[i] as int - rhs[i] as int;
  }

  /** At most the first `n` characters of a string. */
  function Take(s: seq<byte>, n: int): (r: seq<byte>)
    requires NulFrom(s, 0) && 0 <= n
    ensures r <= CString(s) && |r| <= n
    ensures |r| == n || r == CString(s)
  {
    if n <= |CString(s)| then CString(s)[..n] else CString(s)
  }

  /**
   * `strncmp` as a C library specifies it: the difference at the first of the
   * first `count` positions where the strings differ or end, else 0.
   */
  function StrncmpIntended(lhs: seq<byte>, rhs: seq<byte>, count: int): (c: int)
    requires NulFrom(lhs, 0) && NulFrom(rhs, 0) && 0 <= count
  {
    var j := StopIndex(lhs, rhs, 0, Some(count));
    if j == count then 0 else lhs[j] as int - rhs[j] as int
  }

  /** The intended `strncmp` is 0 exactly when the first `count` characters of both strings agree. */
  lemma StrncmpIntendedZeroIff(lhs: seq<byte>, rhs: seq<byte>, count: int)
    requires NulFrom(lhs, 0) && NulFrom(rhs, 0) && 0 <= count
    ensures StrncmpIntended(lhs, rhs, count) == 0 <==> Take(lhs, count) == Take(rhs, count)
  {
    var j := StopIndex(lhs, rhs, 0, Some(count));
    CStringsAgreeTo(lhs, rhs, j);
    var nl, nr := NulIndex(lhs, 0), NulIndex(rhs, 0);
    if j == count {
      assert Take(lhs, count) == lhs[..count] == rhs[..count] == Take(rhs, count);
    } else if lhs[j] == rhs[j] {
      assert lhs[j] == NUL && nl == j == nr;
      assert CString(lhs) == CString(rhs);
    } else {
      assert Take(lhs, count)[..j] == Take(rhs, count)[..j];
      if |Take(lhs, count)| > j && |Take(rhs, count)| > j {
        assert Take(lhs, count)[j] == lhs[j] && Take(rhs, count)[j] == rhs[j];
      }
    }
  }

  /** The written `strncmp` agrees with the intended one except when `count` characters match. */
  lemma StrncmpDiffersOnlyAtLimit(lhs: seq<byte>, rhs: seq<byte>, count: int)
    requires NulFrom(lhs, 0) && NulFrom(rhs, 0) && 0 <= count
    ensures Strncmp(lhs, rhs, count) != StrncmpIntended(lhs, rhs, count) ==>
      Take(lhs, count) == Take(rhs, count) && |Take(lhs, count)| == count
  {
    var j := StopIndex(lhs, rhs, 0, Some(count));
    if j == count && lhs[j] != rhs[j] {
      assert lhs[..count] == rhs[..count];
      assert Take(lhs, count) == lhs[..count];
    }
  }

  /**
   * The written `strncmp` reports "ab" and "ac" different over their first
   * character, which they share.
   */
  lemma StrncmpReadsPastCount()
    ensures NulFrom([97, 98, 0], 0) && NulFrom([97, 99, 0], 0)
    ensures Strncmp([97, 98, 0], [97, 99, 0], 1) == -1
    ensures Take([97, 98, 0], 1) == Take([97, 99, 0], 1) == [97]
  {
    var l: seq<byte>, r: seq<byte> := [97, 98, 0], [97, 99, 0];
    assert l[2] == NUL && r[2] == NUL;
    assert NulIndex(l, 2) == 2 && NulIndex(l, 1) == 2 && NulIndex(l, 0) == 2;
    assert NulIndex(r, 2) == 2 && NulIndex(r, 1) == 2 && NulIndex(r, 0) == 2;
    assert StopIndex(l, r, 1, Some(1)) == 1;
    assert StopIndex(l, r, 0, Some(1)) == 1;
  }

  // ----- strtok ------------------------------------------------------------------

  /**
   * Skips the characters of `s` from `i` on that match `delim` from `d` on, one
   * for one, stopping at the end of either string or at the first mismatch.
   */
  function SkipMatching(s: seq<byte>, i: int, delim: seq<byte>, d: int): (j: int)
    requires NulFrom(s, i) && NulFrom(delim, d)
    ensures i <= j <= NulIndex(s, i) && d + (j - i) <= NulIndex(delim, d)
    ensures forall k :: i <= k < j ==> s[k] == delim[d + (k - i)]
    ensures s[j] == NUL || s[j] != delim[d + (j - i)]
    decreases |s| - i
  {
    if s[i] != NUL && s[i] == delim[d] then SkipMatching(s, i + 1, delim, d + 1) else i
  }

  /** The first index from `i` on that holds a NUL or the byte `c`. */
  function TokenEnd(s: seq<byte>, i: int, c: byte): (j: int)
    requires NulFrom(s, i)
    ensures i <= j <= NulIndex(s, i)
    ensures s[j] == NUL || s[j] == c
    ensures forall k :: i <= k < j ==> s[k] != NUL && s[k] != c
    decreases |s| - i
  {
    if s[i] != NUL && s[i] != c then TokenEnd(s, i + 1, c) else i
  }

  /** Where `strtok` starts its token: past a leading copy of `delim` on a first call, else at the saved position. */
  function TokenStart(s: seq<byte>, str: Option<int>, delim: seq<byte>, saveptr: int): (start: int)
    requires NulFrom(delim, 0)
    requires str.Some? ==> NulFrom(s, str.value)
    requires str.None? ==> NulFrom(s, saveptr)
    ensures NulFrom(s, start)
  {
    if str.Some? then SkipMatching(s, str.value, delim, 0) else saveptr
  }

  /**
   * The reentrant `strtok`.  On the first call (`str` given) it skips a leading
   * copy of `delim`; it then ends the token at the first `delim[0]` by writing a
   * NUL there and saves the position after the rest of `delim` that follows.
   * At the end of the string it saves the position of the NUL.  The token it
   * returns may be empty; it never returns `NULL`.
   */
  method Strtok(buf: array<byte>, str: Option<int>, delim: seq<byte>, saveptr: int) returns (token: int, save: int)
    requires NulFrom(delim, 0)
    requires str.Some? ==> NulFrom(buf[..], str.value)
    requires str.None? ==> NulFrom(buf[..], saveptr)
    modifies buf
    ensures token == TokenStart(old(buf[..]), str, delim, saveptr)
    ensures var e := TokenEnd(old(buf[..]), token, delim[0]);
      if old(buf[e]) == NUL then
        buf[..] == old(buf[..]) && save == e
      else
        buf[..] == old(buf[..])[e := NUL] && save == SkipMatching(old(buf[..]), e + 1, delim, 1)
  {
    if str.Some? {
      token := SkipMatchingLoop(buf[..], str.value, delim, 0);
    } else {
      token := saveptr;
    }
    var s := TokenEndLoop(buf[..], token, delim[0]);
    if buf[s] == NUL {
      save := s;
    } else {
      save := EndToken(buf, s, delim);
    }
  }

  /** The end of a token at `s`, where `delim[0]` stands: a NUL there, and the rest of `delim` skipped. */
  method EndToken(buf: array<byte>, s: int, delim: seq<byte>) returns (save: int)
    requires NulFrom(delim, 0) && NulFrom(buf[..], s) && buf[s] != NUL && buf[s] == delim[0]
    modifies buf
    ensures buf[..] == old(buf[..])[s := NUL] && save == SkipMatching(old(buf[..]), s + 1, delim, 1)
  {
    ghost var before := buf[..];
    buf[s] := NUL;
    SkipMatchingFrame(before, buf[..], s + 1, delim, 1);
    save := SkipMatchingLoop(buf[..], s + 1, delim, 1);
  }

  /** The skipping loops of `strtok`: the leading-delimiter loop and the `do ... while` after a token. */
  method SkipMatchingLoop(s: seq<byte>, i: int, delim: seq<byte>, d: int) returns (j: int)
    requires NulFrom(s, i) && NulFrom(delim, d)
    ensures j == SkipMatching(s, i, delim, d)
  {
    j := i;
    var e := d;
    while s[j] != NUL && s[j] == delim[e]
      invariant i <= j <= NulIndex(s, i) && e == d + (j - i) && e <= NulIndex(delim, d)
      invariant SkipMatching(s, i, delim, d) == SkipMatching(s, j, delim, e)
      decreases |s| - j
    {
      j, e := j + 1, e + 1;
    }
  }

  /** The loop of `strtok` that looks for the end of the token. */
  method TokenEndLoop(s: seq<byte>, i: int, c: byte) returns (j: int)
    requires NulFrom(s, i)
    ensures j == TokenEnd(s, i, c)
  {
    j := i;
    while s[j] != NUL && s[j] != c
      invariant i <= j <= NulIndex(s, i)
      invariant TokenEnd(s, i, c) == TokenEnd(s, j, c)
      decreases |s| - j
    {
      j := j + 1;
    }
  }

  /** Skipping from `i` on reads nothing before `i`. */
  lemma {:induction false} SkipMatchingFrame(a: seq<byte>, b: seq<byte>, i: int, delim: seq<byte>, d: int)
    requires NulFrom(a, i) && NulFrom(delim, d) && |a| == |b|
    requires forall k :: i <= k < |a| ==> a[k] == b[k]
    ensures NulFrom(b, i) && SkipMatching(b, i, delim, d) == SkipMatching(a, i, delim, d)
    decreases |a| - i
  {
    var n := NulIndex(a, i);
    assert b[n] == NUL;
    if a[i] != NUL && a[i] == delim[d] {
      SkipMatchingFrame(a, b, i + 1, delim, d + 1);
    }
  }

  /**
   * What a call to `strtok` leaves behind: the returned token is a string of
   * the bytes that followed `token` up to the first `delim[0]`, so it holds no
   * `delim[0]`, and every other byte of the buffer is as before.
   */
  lemma StrtokToken(s: seq<byte>, token: int, delim: seq<byte>)
    requires NulFrom(s, token) && NulFrom(delim, 0)
    ensures var e := TokenEnd(s, token, delim[0]);
      var after := s[e := NUL];
      NulFrom(after[token..], 0) && CString(after[token..]) == s[token..e] && delim[0] !in s[token..e]
  {
    var e := TokenEnd(s, token, delim[0]);
    var after := s[e := NUL];
    assert after[token..][e - token] == NUL;
    assert NulIndex(after[token..], 0) == e - token;
  }
}
