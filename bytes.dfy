/** Bytes and C strings as the chat programs handle them: a `char` buffer is a
    sequence of bytes, a C string is the part of it before the first NUL, and
    `sprintf("%d")` renders an integer as decimal digits. */
module Bytes {

  type Byte = b: int | 0 <= b < 256

  type Str = seq<Byte>

  const NUL: Byte := 0
  const MINUS: Byte := 45   // '-'
  const DIGIT0: Byte := 48  // '0'

  /** A string that `strlen` measures in full: it holds no NUL byte. */
  predicate IsCStr(s: Str) {
    NUL !in s
  }

  predicate IsDecimalDigit(b: Byte) {
    DIGIT0 <= b < DIGIT0 + 10
  }

  /** The bytes of a string literal of the source (all of them ASCII). */
  function Ascii(s: string): (r: Str)
    requires forall i :: 0 <= i < |s| ==> s[i] as int < 128
    ensures |r| == |s|
    ensures forall i :: 0 <= i < |s| ==> r[i] == s[i] as int
  {
    seq(|s|, i requires 0 <= i < |s| => s[i] as int)
  }

  /** What `strlen`, `strcpy` and `strdup` see of a buffer: the bytes before the
      first NUL, or the whole buffer when it holds none. */
  function CPrefix(s: Str): (r: Str)
    ensures IsCStr(r) && r <= s
    ensures |r| < |s| ==> s[|r|] == NUL
    ensures IsCStr(s) ==> r == s
  {
    if s == [] || s[0] == NUL then [] else [s[0]] + CPrefix(s[1..])
  }

  /** What follows the first C string of a buffer and its terminator: the
      pointer `p + strlen(p) + 1` of the source. Empty when there is no NUL. */
  function AfterCStr(s: Str): (r: Str)
    ensures |CPrefix(s)| < |s| ==> s == CPrefix(s) + [NUL] + r
    ensures |CPrefix(s)| == |s| ==> r == []
    ensures s != [] ==> |r| < |s|
  {
    var n := |CPrefix(s)|;
    if n < |s| then s[n + 1..] else []
  }

  /** Splitting a NUL-terminated field off a buffer gives back the field and
      what followed it. */
  lemma {:induction false} SplitCStr(a: Str, b: Str)
    requires IsCStr(a)
    ensures CPrefix(a + [NUL] + b) == a
    ensures AfterCStr(a + [NUL] + b) == b
  {
    if a != [] {
      assert (a + [NUL] + b)[1..] == a[1..] + [NUL] + b;
      SplitCStr(a[1..], b);
    }
  }

  /** The decimal digits of a natural number, most significant first. */
  function Digits(n: nat): (r: Str)
    ensures |r| >= 1
    ensures forall i :: 0 <= i < |r| ==> IsDecimalDigit(r[i])
    ensures n >= 1 ==> r[0] != DIGIT0
  {
    if n < 10 then [DIGIT0 + n] else Digits(n / 10) + [DIGIT0 + n % 10]
  }

  /** `sprintf(buf, "%d", n)`: an optional minus sign, then the digits. */
  function Decimal(n: int): (r: Str)
    ensures IsCStr(r) && |r| >= 1
    ensures n >= 0 ==> r == Digits(n)
    ensures n < 0 ==> r[0] == MINUS && r[1..] == Digits(-n)
  {
    if n < 0 then [MINUS] + Digits(-n) else Digits(n)
  }

  /** `sprintf(p, "%s", s)` or `strcpy(p, s)` at offset `at` of a buffer,
      followed by the source's `p += strlen(p) + 1`. */
  method PutCStr(buf: array<Byte>, at: nat, s: Str) returns (next: nat)
    requires IsCStr(s) && at + |s| + 1 <= buf.Length
    modifies buf
    ensures next == at + |s| + 1
    ensures buf[..] == old(buf[..at]) + s + [NUL] + old(buf[next..])
  {
    forall k | 0 <= k < |s| {
      buf[at + k] := s[k];
    }
    buf[at + |s|] := NUL;
    next := at + |s| + 1;
  }
}
