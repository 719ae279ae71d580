/**
 * The printf-style writer of kernel/utils/__fwriter.c.
 *
 * `__fwriter` walks a format string and sends characters one at a time to a
 * `putchar` callback: literal runs, `%%`, and the conversions `%c`, `%s`,
 * `%u`, `%o` and `%x`, the numbers turned into digits by `itoa`.  Characters
 * are bytes.  The callback is a `Terminal` object that accepts characters
 * until it is full and then answers `EOF`; the variadic arguments are a
 * sequence of tagged values.
 */
module Fwriter {
  import opened CTypes

  const PERCENT: byte := 37
  const NEWLINE: byte := 10
  const ZERO: byte := 48

  // ----- itoa -------------------------------------------------------------------

  /** The divisor `itoa` uses for a radix character: 16 for 'x', 8 for 'o', otherwise 10. */
  function Divisor(radix: byte): (d: int)
    ensures d == 8 || d == 10 || d == 16
  {
    if radix == 120 then 16 else if radix == 111 then 8 else 10
  }

  /** The character for digit `c`: '0' to '9', then 'a' on. */
  function DigitChar(c: int): (ch: byte)
    requires 0 <= c < 16
  {
    if c < 10 then ZERO + c else c - 10 + 97
  }

  /** The digit a digit character stands for. */
  function DigitValue(ch: byte): int
  {
    if ch < 97 then ch - ZERO else ch - 97 + 10
  }

  /** The digits of `n` in base `d`, least significant first, as `itoa`'s first loop writes them. */
  function LsdFirst(n: nat, d: int): (s: seq<byte>)
    requires d == 8 || d == 10 || d == 16
    decreases n
  {
    if n == 0 then [] else [DigitChar(n % d)] + LsdFirst(n / d, d)
  }

  function Reverse(s: seq<byte>): (r: seq<byte>)
    ensures |r| == |s|
  {
    if s == [] then [] else Reverse(s[1..]) + [s[0]]
  }

  /** Element `k` of the reversed sequence is element `|s| - 1 - k` of `s`. */
  lemma {:induction false} ReverseAt(s: seq<byte>)
    ensures forall k :: 0 <= k < |s| ==> Reverse(s)[k] == s[|s| - 1 - k]
  {
    if s != [] {
      ReverseAt(s[1..]);
    }
  }

  /** The digits of `n` in base `d`, most significant first. */
  function Digits(n: nat, d: int): (s: seq<byte>)
    requires d == 8 || d == 10 || d == 16
    decreases n
  {
    if n == 0 then [] else Digits(n / d, d) + [DigitChar(n % d)]
  }

  /** Reversing what the first loop writes gives the digits most significant first. */
  lemma {:induction false} ReversedDigits(n: nat, d: int)
    requires d == 8 || d == 10 || d == 16
    ensures Reverse(LsdFirst(n, d)) == Digits(n, d)
    decreases n
  {
    if n > 0 {
      ReversedDigits(n / d, d);
      assert ([DigitChar(n % d)] + LsdFirst(n / d, d))[1..] == LsdFirst(n / d, d);
    }
  }

  /** The value of a string of digits, most significant first, in base `d`. */
  function Value(s: seq<byte>, d: int): int
  {
    if s == [] then 0 else Value(s[..|s| - 1], d) * d + DigitValue(s[|s| - 1])
  }

  /** A digit's character stands for the digit. */
  lemma DigitRoundTrip(c: int)
    requires 0 <= c < 16
    ensures DigitValue(DigitChar(c)) == c
  {
  }

  /** Reading the digits back, most significant first, gives the number. */
  lemma {:induction false} DigitsValue(n: nat, d: int)
    requires d == 8 || d == 10 || d == 16
    ensures Value(Digits(n, d), d) == n
    decreases n
  {
    if n > 0 {
      var digits := Digits(n, d);
      DigitsValue(n / d, d);
      assert digits[..|digits| - 1] == Digits(n / d, d);
      DigitRoundTrip(n % d);
    }
  }

  /** The most significant digit of a non-zero number is not '0'. */
  lemma {:induction false} NoLeadingZero(n: nat, d: int)
    requires (d == 8 || d == 10 || d == 16) && n > 0
    ensures |LsdFirst(n, d)| > 0 && LsdFirst(n, d)[|LsdFirst(n, d)| - 1] != ZERO
    decreases n
  {
    if n / d > 0 {
      NoLeadingZero(n / d, d);
    }
  }

  function Pow8(k: nat): nat
  {
    if k == 0 then 1 else 8 * Pow8(k - 1)
  }

  /** A number below 8^k has at most k digits in base 8 or above. */
  lemma {:induction false} DigitCount(n: nat, d: int, k: nat)
    requires (d == 8 || d == 10 || d == 16) && n < Pow8(k)
    ensures |LsdFirst(n, d)| <= k
    decreases n
  {
    if n > 0 {
      var q := n / d;
      assert q * d <= n;
      assert q * 8 <= q * d;
      DigitCount(q, d, k - 1);
    }
  }

  /** A 32-bit number has at most 11 digits, so the 33-byte buffer of `__fwriter` always holds them. */
  lemma DigitCount32(n: nat, d: int)
    requires (d == 8 || d == 10 || d == 16) && n < UINT32_MOD
    ensures |LsdFirst(n, d)| <= 11
  {
    assert Pow8(11) == 0x2_0000_0000;
    DigitCount(n, d, 11);
  }

  /** The characters `%u`, `%o` or `%x` prints for `n`: "0" for zero, else its digits. */
  function NumberText(n: nat, radix: byte): seq<byte>
  {
    if n == 0 then [ZERO] else Digits(n, Divisor(radix))
  }

  /**
   * `itoa`'s first loop: writes the digits of `n` least significant first
   * while fewer than `len - 1` are written, and a NUL after them.
   */
  method WriteDigits(n: int, buffer: array<byte>, len: int, divisor: int) returns (i: int)
    requires 0 <= n && 1 <= len <= buffer.Length && (divisor == 8 || divisor == 10 || divisor == 16)
    modifies buffer
    ensures var lsd := LsdFirst(n, divisor);
      i == (if |lsd| < len - 1 then |lsd| else len - 1) && buffer[..i] == lsd[..i]
    ensures buffer[i] == NUL && buffer[i + 1..] == old(buffer[i + 1..])
  {
    ghost var before := buffer[..];
    ghost var lsd := LsdFirst(n, divisor);
    var tmp := n;
    i := 0;
    while tmp > 0 && i < len - 1
      invariant 0 <= i <= len - 1 && 0 <= tmp
      invariant i <= |lsd| && buffer[..i] == lsd[..i] && LsdFirst(tmp, divisor) == lsd[i..]
      invariant buffer[i..] == before[i..]
    {
      ghost var rest := LsdFirst(tmp, divisor);
      assert rest[0] == DigitChar(tmp % divisor) && rest[1..] == LsdFirst(tmp / divisor, divisor);
      ghost var prev := buffer[..];
      assert prev[i + 1..] == before[i + 1..] by {
        assert prev[i + 1..] == prev[i..][1..];
      }
      PutDigit(buffer, i, DigitChar(tmp % divisor));
      assert buffer[..i + 1] == prev[..i] + [DigitChar(tmp % divisor)];
      tmp := tmp / divisor;
      i := i + 1;
    }
    buffer[i] := NUL;
  }

  /** One step of the first loop: the digit goes to `buffer[i]` and nothing else changes. */
  method PutDigit(buffer: array<byte>, i: int, c: byte)
    requires 0 <= i < buffer.Length
    modifies buffer
    ensures buffer[..i] == old(buffer[..i]) && buffer[i] == c && buffer[i + 1..] == old(buffer[i + 1..])
  {
    buffer[i] := c;
  }

  /** `itoa`'s second loop: reverses `buffer[..i]` in place by swapping from both ends. */
  method ReverseInPlace(buffer: array<byte>, i: int)
    requires 0 <= i <= buffer.Length
    modifies buffer
    ensures buffer[..i] == Reverse(old(buffer[..i]))
    ensures buffer[i..] == old(buffer[i..])
  {
    ghost var before := buffer[..];
    ghost var written := buffer[..i];
    var j := 0;
    while j < i / 2
      invariant 0 <= j <= i / 2
      invariant forall k :: 0 <= k < j ==> buffer[k] == written[i - 1 - k] && buffer[i - 1 - k] == written[k]
      invariant forall k :: j <= k < i - j ==> buffer[k] == written[k]
      invariant buffer[i..] == before[i..]
    {
      var t := buffer[j];
      buffer[j] := buffer[i - j - 1];
      buffer[i - j - 1] := t;
      j := j + 1;
    }
    ReverseAt(written);
    assert forall k :: 0 <= k < i ==> buffer[k] == Reverse(written)[k];
    assert buffer[..i] == Reverse(written);
  }

  /**
   * `itoa`: for zero with room for two characters, writes '0' and a newline
   * and returns 1; otherwise writes the digits least significant first while
   * fewer than `len - 1` are written, a NUL after them, reverses them in
   * place and returns their number.
   */
  method Itoa(n: int, buffer: array<byte>, len: int, radix: byte) returns (i: int)
    requires 0 <= n < UINT32_MOD && 1 <= len <= buffer.Length
    modifies buffer
    ensures n == 0 && len > 1 ==> i == 1 && buffer[..] == old(buffer[..])[0 := ZERO][1 := NEWLINE]
    ensures !(n == 0 && len > 1) ==>
      var lsd := LsdFirst(n, Divisor(radix));
      i == (if |lsd| < len - 1 then |lsd| else len - 1) &&
      buffer[..i] == Reverse(lsd[..i]) && buffer[i] == NUL && buffer[i + 1..] == old(buffer[i + 1..])
  {
    var divisor := 10;
    if n == 0 && len > 1 {
      buffer[0] := ZERO;
      buffer[1] := NEWLINE;
      return 1;
    }
    if radix == 120 {
      divisor := 16;
    } else if radix == 111 {
      divisor := 8;
    }
    ghost var before := buffer[..];
    i := WriteDigits(n, buffer, len, divisor);
    ghost var digits := buffer[..];
    assert digits[i + 1..] == before[i + 1..];
    ReverseInPlace(buffer, i);
    assert buffer[i + 1..] == buffer[i..][1..];
    assert digits[i + 1..] == digits[i..][1..];
  }

  // ----- the writer -------------------------------------------------------------

  /** A variadic argument: a `char`, the characters of a string before its NUL, or an `unsigned int`. */
  datatype Arg = Char(c: byte) | Str(s: seq<byte>) | Unsigned(n: int)

  /** `format[i]`, with the terminating NUL after the last character. */
  function At(format: seq<byte>, i: int): byte
    requires 0 <= i
  {
    if i < |format| then format[i] else NUL
  }

  /** The end of the literal run from `i`: the next '%' or the end of the format. */
  function RunEnd(format: seq<byte>, i: int): (e: int)
    requires 0 <= i <= |format|
    ensures i <= e <= |format| && (e < |format| ==> format[e] == PERCENT)
    ensures forall k :: i <= k < e ==> format[k] != PERCENT
    decreases |format| - i
  {
    if i == |format| || format[i] == PERCENT then i else RunEnd(format, i + 1)
  }

  /**
   * The characters `__fwriter` prints for `format[p..]` with arguments from
   * `args[a]` on, when no limit is hit; `None` when an argument is missing or
   * of the wrong kind, a string holding a NUL or a number beyond 32 bits.
   */
  function Render(format: seq<byte>, p: int, args: seq<Arg>, a: int): (r: Option<seq<byte>>)
    requires 0 <= p <= |format| && 0 <= a
    decreases |format| - p
  {
    if p == |format| then Some([])
    else if format[p] != PERCENT || At(format, p + 1) == PERCENT then
      var s := if format[p] == PERCENT then p + 1 else p;
      var e := RunEnd(format, s + 1);
      var rest := Render(format, e, args, a);
      if rest.Some? then Some(format[s..e] + rest.value) else None
    else
      var conv := At(format, p + 1);
      if conv == 99 || conv == 115 || conv == 117 || conv == 111 || conv == 120 then
        if a >= |args| then None
        else
          var piece :=
            if conv == 99 && args[a].Char? then Some([args[a].c])
            else if conv == 115 && args[a].Str? && NUL !in args[a].s then Some(args[a].s)
            else if conv != 99 && conv != 115 && args[a].Unsigned? && 0 <= args[a].n < UINT32_MOD then
              Some(NumberText(args[a].n, conv))
            else None;
          var rest := Render(format, p + 2, args, a + 1);
          if piece.Some? && rest.Some? then Some(piece.value + rest.value) else None
      else Some(format[p..])
  }

  /** A format without '%' renders as itself, whatever the arguments. */
  lemma {:induction false} RenderPlain(format: seq<byte>, p: int, args: seq<Arg>, a: int)
    requires 0 <= p <= |format| && 0 <= a && PERCENT !in format[p..]
    ensures Render(format, p, args, a) == Some(format[p..])
    decreases |format| - p
  {
    if p < |format| {
      assert format[p] in format[p..];
      var e := RunEnd(format, p + 1);
      assert PERCENT !in format[e..] by {
        assert format[e..] == format[p..][e - p..];
      }
      RenderPlain(format, e, args, a);
      assert Render(format, p, args, a) == Some(format[p..e] + format[e..]);
      assert format[p..] == format[p..e] + format[e..];
      assert Render(format, p, args, a) == Some(format[p..]);
    } else {
      assert format[p..] == [];
    }
  }

  /** "%%" prints a single '%'. */
  lemma RenderPercent(args: seq<Arg>)
    ensures Render([PERCENT, PERCENT], 0, args, 0) == Some([PERCENT])
  {
    assert RunEnd([PERCENT, PERCENT], 2) == 2;
    assert Render([PERCENT, PERCENT], 2, args, 0) == Some([]);
    assert [PERCENT, PERCENT][1..2] == [PERCENT];
    assert Render([PERCENT, PERCENT], 0, args, 0) == Some([PERCENT] + []);
    assert [PERCENT] + [] == [PERCENT];
  }

  /** An unknown conversion prints the rest of the format as it stands and takes no argument. */
  lemma RenderUnknown(format: seq<byte>, p: int, args: seq<Arg>, a: int)
    requires 0 <= p < |format| - 1 && 0 <= a && format[p] == PERCENT
    requires format[p + 1] !in {PERCENT, 99, 115, 117, 111, 120}
    ensures Render(format, p, args, a) == Some(format[p..])
  {
  }

  /** The `putchar` callback: a terminal that takes characters until `room` of them are written, then answers `EOF`. */
  class Terminal {
    var out: seq<byte>
    const room: int

    constructor (room: nat)
      ensures out == [] && this.room == room
    {
      out := [];
      this.room := room;
    }

    /** `putchar`: appends the character, or fails with `EOF` when the terminal is full. */
    method Putchar(c: byte) returns (ok: bool)
      modifies this
      ensures ok <==> |old(out)| < room
      ensures out == if ok then old(out) + [c] else old(out)
    {
      ok := |out| < room;
      if ok {
        out := out + [c];
      }
    }
  }

  /** `print`: sends the characters one by one and fails at the first `EOF`. */
  method Print(terminal: Terminal, data: seq<byte>) returns (ok: bool)
    requires |terminal.out| <= terminal.room
    modifies terminal
    ensures |terminal.out| <= terminal.room
    ensures ok <==> |old(terminal.out)| + |data| <= terminal.room
    ensures ok ==> terminal.out == old(terminal.out) + data
    ensures old(terminal.out) <= terminal.out <= old(terminal.out) + data
  {
    var i := 0;
    while i < |data|
      invariant 0 <= i <= |data| && terminal.out == old(terminal.out) + data[..i]
      invariant |terminal.out| <= terminal.room
    {
      var accepted := terminal.Putchar(data[i]);
      if !accepted {
        return false;
      }
      assert data[..i + 1] == data[..i] + [data[i]];
      i := i + 1;
    }
    assert data[..i] == data;
    ok := true;
  }

  /** `__fwriter`'s inner loop: the length of the literal run starting at `format[f]`, which is always printed. */
  method LiteralRun(format: seq<byte>, f: int) returns (amount: int)
    requires 0 <= f < |format|
    ensures amount == RunEnd(format, f + 1) - f
  {
    amount := 1;
    while f + amount < |format| && format[f + amount] != PERCENT
      invariant 1 <= amount && f + amount <= |format|
      invariant RunEnd(format, f + 1) == RunEnd(format, f + amount)
      decreases |format| - amount
    {
      amount := amount + 1;
    }
  }

  /** The number conversions: `itoa` into the 33-byte `numstr`, whose first `len` characters are printed. */
  method NumberPiece(n: int, radix: byte, numstr: array<byte>) returns (piece: seq<byte>)
    requires 0 <= n < UINT32_MOD && numstr.Length == 33
    modifies numstr
    ensures piece == NumberText(n, radix)
  {
    var len := Itoa(n, numstr, numstr.Length, radix);
    if n != 0 {
      var d := Divisor(radix);
      DigitCount32(n, d);
      assert LsdFirst(n, d)[..len] == LsdFirst(n, d);
      ReversedDigits(n, d);
    }
    piece := numstr[..len];
  }

  /**
   * One turn of `__fwriter`'s loop up to the printing: the piece it prints
   * for the directive at `format[p..]`, where the format goes on, which
   * argument comes next, and whether the `maxrem` check guards the piece
   * (every branch but the number conversions).  The piece followed by the
   * rendering of the rest is the rendering from `p`.
   */
  method NextPiece(format: seq<byte>, p: int, args: seq<Arg>, a: int, numstr: array<byte>)
    returns (piece: seq<byte>, next: int, nextArg: int, guarded: bool)
    requires 0 <= p < |format| && 0 <= a && numstr.Length == 33
    requires Render(format, p, args, a).Some?
    modifies numstr
    ensures p < next <= |format| && a <= nextArg
    ensures Render(format, next, args, nextArg).Some?
    ensures Render(format, p, args, a).value == piece + Render(format, next, args, nextArg).value
    ensures !guarded <==> format[p] == PERCENT && At(format, p + 1) in {117, 111, 120}
  {
    var f := p;
    guarded := true;
    if format[f] != PERCENT || At(format, f + 1) == PERCENT {
      if format[f] == PERCENT {
        f := f + 1;
      }
      var amount := LiteralRun(format, f);
      piece := format[f..f + amount];
      next, nextArg := f + amount, a;
      return;
    }
    f := f + 1;
    var conv := At(format, f);
    if conv == 99 {
      piece := [args[a].c];
      next, nextArg := f + 1, a + 1;
    } else if conv == 115 {
      piece := args[a].s;
      next, nextArg := f + 1, a + 1;
    } else if conv == 117 || conv == 111 || conv == 120 {
      piece := NumberPiece(args[a].n, conv, numstr);
      next, nextArg := f + 1, a + 1;
      guarded := false;
    } else {
      piece := format[p..];
      next, nextArg := |format|, a;
    }
  }

  /** Printing a piece of the text keeps the terminal's output a prefix of the whole text. */
  lemma PrefixOfText(start: seq<byte>, done: seq<byte>, out: seq<byte>, piece: seq<byte>, rest: seq<byte>)
    requires start + done <= out <= start + done + piece
    ensures start <= out <= start + (done + piece + rest)
  {
    assert start + (done + piece + rest) == (start + done + piece) + rest;
  }

  /**
   * `__fwriter`: prints what `Render` describes and returns how many
   * characters that is; -1 once a guarded piece would take the count past
   * `INT_MAX` or the terminal answers `EOF`.  A number piece is not guarded,
   * and when it takes the `int` count past `INT_MAX` the signed addition
   * overflows: the model stops there with `overflowed` set and `result` the
   * count before the addition.  Whatever happens, the terminal has received
   * a prefix of the text.
   */
  method Write(terminal: Terminal, format: seq<byte>, args: seq<Arg>) returns (result: int, overflowed: bool)
    requires NUL !in format && Render(format, 0, args, 0).Some?
    requires |terminal.out| <= terminal.room
    modifies terminal
    ensures old(terminal.out) <= terminal.out <= old(terminal.out) + Render(format, 0, args, 0).value
    ensures result <= INT_MAX
    ensures overflowed ==> result != -1 && |Render(format, 0, args, 0).value| > INT_MAX
    ensures result != -1 && !overflowed ==> result == |Render(format, 0, args, 0).value|
    ensures result != -1 && !overflowed ==> terminal.out == old(terminal.out) + Render(format, 0, args, 0).value
    ensures result == -1 ==>
      |Render(format, 0, args, 0).value| > INT_MAX || |old(terminal.out)| + |Render(format, 0, args, 0).value| > terminal.room
  {
    ghost var text := Render(format, 0, args, 0).value;
    ghost var done: seq<byte> := [];
    var numstr := new byte[33];
    var p, a, written := 0, 0, 0;
    overflowed := false;
    while p < |format|
      invariant 0 <= p <= |format| && 0 <= a && written <= INT_MAX
      invariant Render(format, p, args, a).Some? && text == done + Render(format, p, args, a).value
      invariant written == |done| && terminal.out == old(terminal.out) + done
      invariant |terminal.out| <= terminal.room
      decreases |format| - p
    {
      var maxrem := INT_MAX - written;
      var piece, next, nextArg, guarded := NextPiece(format, p, args, a, numstr);
      ghost var rest := Render(format, next, args, nextArg).value;
      assert text == done + piece + rest;
      if guarded && maxrem < |piece| {
        PrefixOfText(old(terminal.out), done, terminal.out, [], piece + rest);
        return -1, false;
      }
      var ok := Print(terminal, piece);
      if !ok {
        PrefixOfText(old(terminal.out), done, terminal.out, piece, rest);
        return -1, false;
      }
      if maxrem < |piece| {
        PrefixOfText(old(terminal.out), done, terminal.out, piece, rest);
        return written, true;
      }
      done := done + piece;
      p, a := next, nextArg;
      written := written + |piece|;
    }
    result := written;
  }
}
