/**
 * Path objects of kernel/fs/pathwalker.c: `path_init` checks a path and
 * copies it into the object's buffer, and `path_next` splits that copy into
 * its components with `strtok`.  A `char*` into the buffer is an index;
 * `NULL` is `None`.
 */
module PathWalker {
  import opened CTypes
  import opened LibC

  const PATH_MAX: int := 4096
  const SLASH: byte := 47
  /** The C string "/" that `path_next` hands to `strtok`. */
  const SLASH_DELIM: seq<byte> := [47, 0]

  /** `valid_path_char`: ASCII letters, digits and '/'. */
  predicate ValidPathChar(c: byte)
  {
    (97 <= c <= 122) || (65 <= c <= 90) || (48 <= c <= 57) || c == SLASH
  }

  /**
   * Where the loop of `path_init` started at `i` stops: at `PATH_MAX`, at the
   * terminating NUL or at the first invalid character.
   */
  function ScanStop(path: seq<byte>, i: int): (k: int)
    requires NulFrom(path, 0) && 0 <= i <= PATH_MAX && i <= NulIndex(path, 0)
    ensures i <= k <= PATH_MAX && k <= NulIndex(path, 0)
    ensures forall j :: i <= j < k ==> ValidPathChar(path[j])
    ensures k == PATH_MAX || path[k] == NUL || !ValidPathChar(path[k])
    decreases PATH_MAX - i
  {
    if i == PATH_MAX || path[i] == NUL || !ValidPathChar(path[i]) then i else ScanStop(path, i + 1)
  }

  /** A path the object can hold: shorter than `PATH_MAX` and made of valid characters only. */
  predicate AcceptedPath(path: seq<byte>)
    requires NulFrom(path, 0)
  {
    |CString(path)| < PATH_MAX && forall k :: 0 <= k < |CString(path)| ==> ValidPathChar(CString(path)[k])
  }

  /** What `path_init` does: return 0 or `-EINVAL`, or write its NUL past the buffer. */
  datatype InitOutcome = WritesPastBuffer | Status(code: int)

  /** The outcome of `path_init` as written. */
  function InitResult(path: seq<byte>): InitOutcome
    requires NulFrom(path, 0)
  {
    var k := ScanStop(path, 0);
    if k == PATH_MAX then WritesPastBuffer
    else if path[k] == NUL then Status(0)
    else Status(-EINVAL)
  }

  /**
   * `path_init` succeeds exactly on the paths the object can hold; it writes
   * past the buffer exactly when the first `PATH_MAX` characters are valid
   * ones, and fails with `-EINVAL` otherwise.
   */
  lemma InitResultIff(path: seq<byte>)
    requires NulFrom(path, 0)
    ensures InitResult(path) == Status(0) <==> AcceptedPath(path)
    ensures InitResult(path) == WritesPastBuffer <==>
      |CString(path)| >= PATH_MAX && forall k :: 0 <= k < PATH_MAX ==> ValidPathChar(path[k])
    ensures InitResult(path) == Status(0) || InitResult(path) == Status(-EINVAL) || InitResult(path) == WritesPastBuffer
  {
    var k := ScanStop(path, 0);
    var n := NulIndex(path, 0);
    assert CString(path) == path[..n];
    if k < PATH_MAX && path[k] != NUL {
      assert k < n && !ValidPathChar(CString(path)[k]);
    }
    if k < PATH_MAX && path[k] == NUL {
      assert k == n;
    }
    if |CString(path)| >= PATH_MAX && forall j :: 0 <= j < PATH_MAX ==> ValidPathChar(path[j]) {
      assert k == PATH_MAX;
    }
  }

  /**
   * After `strtok` with "/" ends a token that stops at a '/', the saved
   * position is just past that '/', and a string still starts there.
   */
  lemma TokenEndTerminated(before: seq<byte>, after: seq<byte>, token: int, save: int)
    requires NulFrom(before, token) && |before| <= PATH_MAX
    requires var e := TokenEnd(before, token, SLASH);
      assert SLASH_DELIM[1] == NUL && before[NulIndex(before, token)] == NUL;
      if before[e] == NUL then after == before && save == e
      else after == before[e := NUL] && save == SkipMatching(before, e + 1, SLASH_DELIM, 1)
    ensures var e := TokenEnd(before, token, SLASH);
      save == (if before[e] == NUL then e else e + 1) && 0 <= save < PATH_MAX && NulFrom(after, save)
  {
    var e := TokenEnd(before, token, SLASH);
    var n := NulIndex(before, token);
    if before[e] != NUL {
      assert SLASH_DELIM[1] == NUL;
      assert e < n && after[n] == NUL;
    }
  }

  /** `struct path`. */
  class Path {
    var path: seq<byte>
    var currentToken: Option<int>
    var nextToken: int
    const pathBuff: array<byte>

    /** The buffer holds a string at `next_token`, and before the first step `next_token` is its start. */
    ghost predicate Valid()
      reads this, pathBuff
    {
      pathBuff.Length == PATH_MAX && 0 <= nextToken < PATH_MAX && NulFrom(pathBuff[..], nextToken) &&
      (currentToken.None? ==> nextToken == 0)
    }

    constructor ()
      ensures pathBuff.Length == PATH_MAX && fresh(pathBuff)
      ensures path == [] && currentToken.None? && nextToken == 0
    {
      path, currentToken, nextToken := [], None, 0;
      pathBuff := new byte[PATH_MAX];
    }

    /** The loop of `path_init`: copies characters until `PATH_MAX`, the NUL or the first invalid one. */
    method CopyValid(p: seq<byte>) returns (len: int)
      requires NulFrom(p, 0) && pathBuff.Length == PATH_MAX
      modifies pathBuff
      ensures len == ScanStop(p, 0)
      ensures pathBuff[..len] == p[..len] && pathBuff[len..] == old(pathBuff[len..])
    {
      len := 0;
      while len < PATH_MAX && p[len] != NUL
        invariant 0 <= len <= ScanStop(p, 0)
        invariant ScanStop(p, len) == ScanStop(p, 0)
        invariant pathBuff[..len] == p[..len] && pathBuff[len..] == old(pathBuff[len..])
      {
        if !ValidPathChar(p[len]) {
          return;
        }
        pathBuff[len] := p[len];
        len := len + 1;
      }
    }

    /** After a copy of `p[..len]` and a NUL at `len`, the buffer holds the string `p`. */
    lemma CopiedString(p: seq<byte>, len: int)
      requires NulFrom(p, 0) && 0 <= len < pathBuff.Length && len == NulIndex(p, 0)
      requires pathBuff[..len + 1] == p[..len + 1]
      ensures NulFrom(pathBuff[..], 0) && CString(pathBuff[..]) == CString(p)
    {
      assert pathBuff[..][len] == NUL;
      assert forall k :: 0 <= k < len ==> pathBuff[..][k] == p[k];
      assert NulIndex(pathBuff[..], 0) == len;
    }

    /**
     * `path_init` as written.  On success the buffer holds the path, no token
     * has been taken yet and `next_token` is the start of the buffer.  On
     * `-EINVAL` the valid characters before the invalid one have been copied
     * and nothing else changes.  A path whose first `PATH_MAX` characters are
     * valid has its NUL written one past the buffer; the model stops there.
     */
    method Init(p: seq<byte>) returns (r: InitOutcome)
      requires NulFrom(p, 0) && pathBuff.Length == PATH_MAX
      modifies this, pathBuff
      ensures r == InitResult(p)
      ensures var k := ScanStop(p, 0);
        pathBuff[..k] == p[..k] && (r.Status? && r.code == 0 ==> k < PATH_MAX && pathBuff[k] == NUL)
      ensures r == Status(0) ==>
        Valid() && path == p && currentToken.None? && nextToken == 0 && CString(pathBuff[..]) == CString(p)
      ensures r != Status(0) ==>
        path == old(path) && currentToken == old(currentToken) && nextToken == old(nextToken)
    {
      var len := CopyValid(p);
      if len < PATH_MAX && p[len] != NUL {
        return Status(-EINVAL);
      }
      if len == PATH_MAX {
        return WritesPastBuffer;
      }
      pathBuff[len] := NUL;
      assert pathBuff[..len + 1] == p[..len + 1];
      CopiedString(p, len);
      path, currentToken, nextToken := p, None, 0;
      r := Status(0);
    }

    /**
     * `path_init` with the bound it evidently needs: a path of `PATH_MAX`
     * characters or more is refused with `-ENAMETOOLONG`, so the NUL always
     * lands inside the buffer.
     */
    method InitChecked(p: seq<byte>) returns (r: int)
      requires NulFrom(p, 0) && pathBuff.Length == PATH_MAX
      modifies this, pathBuff
      ensures r == 0 <==> AcceptedPath(p)
      ensures r == -ENAMETOOLONG <==> InitResult(p) == WritesPastBuffer
      ensures r == 0 || r == -EINVAL || r == -ENAMETOOLONG
      ensures r == 0 ==>
        Valid() && path == p && currentToken.None? && nextToken == 0 && CString(pathBuff[..]) == CString(p)
      ensures r != 0 ==>
        path == old(path) && currentToken == old(currentToken) && nextToken == old(nextToken)
    {
      InitResultIff(p);
      var len := CopyValid(p);
      if len == PATH_MAX {
        return -ENAMETOOLONG;
      }
      if p[len] != NUL {
        return -EINVAL;
      }
      pathBuff[len] := NUL;
      assert pathBuff[..len + 1] == p[..len + 1];
      CopiedString(p, len);
      path, currentToken, nextToken := p, None, 0;
      r := 0;
    }

    /**
     * `path_next`: the next component of the path.  The first call tokenises
     * the buffer from its start, skipping one leading '/'; later calls go on
     * from `next_token`.  The token runs up to the next '/' or the end, and
     * that '/' is overwritten with a NUL; past the end the token is empty.
     */
    method Next() returns (token: int)
      requires Valid()
      modifies this, pathBuff
      ensures Valid() && path == old(path) && currentToken == Some(token)
      ensures assert SLASH_DELIM[1] == NUL;
        token == TokenStart(old(pathBuff[..]), if old(currentToken).None? then Some(0) else None, SLASH_DELIM, old(nextToken))
      ensures var e := TokenEnd(old(pathBuff[..]), token, SLASH);
        pathBuff[..] == old(pathBuff[..])[e := NUL] && nextToken == (if old(pathBuff[e]) == NUL then e else e + 1)
      ensures var e := TokenEnd(old(pathBuff[..]), token, SLASH);
        pathBuff[e] == NUL && forall k :: token <= k < e ==> pathBuff[k] != SLASH
    {
      assert SLASH_DELIM[1] == NUL;
      var start := if currentToken.None? then Some(0) else None;
      var save;
      token, save := Strtok(pathBuff, start, SLASH_DELIM, nextToken);
      TokenEndTerminated(old(pathBuff[..]), pathBuff[..], token, save);
      nextToken, currentToken := save, Some(token);
    }
  }
}
