/** The server's address as the server publishes it and the client reads it
    back (chatlinker.c): the text `host:port`, split at its first colon, and
    the port text turned back into a number by `strtoul(servport, NULL, 0)`
    and a cast to `unsigned short`. */
module Address {
  import opened Wrappers
  import opened Bytes
  import Protocol

  const COLON: Byte := 58   // ':'
  const ULONG_MAX := 0x1_0000_0000_0000_0000 - 1
  const USHORT_RANGE := 0x1_0000

  /** `sprintf(linktrgt, "%s:%d", myname, myport)`. */
  function Target(host: Str, port: int): (r: Str)
    requires IsCStr(host)
    ensures IsCStr(r)
  {
    host + [COLON] + Decimal(port)
  }

  /** `index(s, c)`: the first position of `c` in the C string held by `s`. */
  function IndexOf(s: Str, c: Byte): (r: Option<nat>)
    requires c != NUL
    ensures r.Some? ==> r.value < |CPrefix(s)| && s[r.value] == c
    ensures r.Some? ==> forall j :: 0 <= j < r.value ==> s[j] != c
    ensures r.None? ==> c !in CPrefix(s)
  {
    if s == [] || s[0] == NUL then None
    else if s[0] == c then Some(0)
    else match IndexOf(s[1..], c)
      case None => None
      case Some(i) => Some(i + 1)
  }

  /** What `hooktoserver` makes of the link target: the host before the first
      colon and the port text after it. The source does not check for a
      missing colon (it writes through the NULL that `index` returns); here
      that case is an error. */
  function SplitTarget(target: Str): (r: Option<(Str, Str)>)
    ensures r.None? <==> COLON !in CPrefix(target)
    ensures r.Some? ==> && IsCStr(r.value.0) && COLON !in r.value.0 && IsCStr(r.value.1)
                        && r.value.0 <= target && |r.value.0| < |target| && target[|r.value.0|] == COLON
                        && r.value.1 == CPrefix(target[|r.value.0| + 1..])
  {
    match IndexOf(target, COLON)
    case None => None
    case Some(p) =>
      FoundInCPrefix(target, COLON);
      var host := target[..p];
      assert |host| == p < |target| && target[p] == COLON;
      Some((host, CPrefix(target[p + 1..])))
  }

  /** A byte IndexOf finds lies inside the C string, and what comes before
      it is a C string without that byte. */
  lemma FoundInCPrefix(s: Str, c: Byte)
    requires c != NUL && IndexOf(s, c).Some?
    ensures var p := IndexOf(s, c).value;
      && c in CPrefix(s) && IsCStr(s[..p]) && c !in s[..p]
  {
    var p := IndexOf(s, c).value;
    var pre := CPrefix(s);
    assert pre[p] == c;
    assert s[..p] == pre[..p];
  }

  /** `hooktoserver` on a link target the kernel returned: copy it into
      `linktrgt`, terminate it, overwrite the first colon with NUL, and take
      the host from the start of the buffer and the port from after the colon. */
  method ReadTarget(target: Str) returns (r: Option<(Str, Str)>)
    requires IsCStr(target) && |target| < Protocol.MAXNAMELEN
    ensures r == SplitTarget(target)
  {
    var linktrgt := new Byte[Protocol.MAXNAMELEN];
    forall k | 0 <= k < |target| {
      linktrgt[k] := target[k];
    }
    var bytecnt := |target|;
    linktrgt[bytecnt] := NUL;
    var link := linktrgt[..];
    assert link[..bytecnt] == target;
    CStrInBuffer(link, target);
    var servport := IndexOf(link, COLON);
    IndexOfCPrefix(link, COLON);
    if servport.None? {
      return None;
    }
    var p := servport.value;
    linktrgt[p] := NUL;
    var split := linktrgt[..];
    assert split == link[p := NUL];
    SplitInBuffer(link, target, p);
    r := Some((CPrefix(split), CPrefix(split[p + 1..])));
  }

  /** A buffer holding `t` and then a NUL holds the C string `t`. */
  lemma CStrInBuffer(b: Str, t: Str)
    requires IsCStr(t) && |t| < |b| && b[..|t|] == t && b[|t|] == NUL
    ensures CPrefix(b) == t
  {
    assert b == t + [NUL] + b[|t| + 1..];
    SplitCStr(t, b[|t| + 1..]);
  }

  /** Overwriting position `p` of the C string a buffer holds with NUL
      leaves two C strings: the bytes before `p` and the bytes after it. */
  lemma SplitInBuffer(b: Str, t: Str, p: nat)
    requires IsCStr(t) && |t| < |b| && b[..|t|] == t && b[|t|] == NUL && p < |t|
    ensures CPrefix(b[p := NUL]) == t[..p]
    ensures CPrefix(b[p := NUL][p + 1..]) == t[p + 1..]
  {
    var c := b[p := NUL];
    assert c[..p] == t[..p];
    CStrInBuffer(c, t[..p]);
    assert c[p + 1..][..|t| - p - 1] == t[p + 1..];
    CStrInBuffer(c[p + 1..], t[p + 1..]);
  }

  /** `index` looks only at the C string a buffer holds. */
  lemma {:induction false} IndexOfCPrefix(s: Str, c: Byte)
    requires c != NUL
    ensures IndexOf(s, c) == IndexOf(CPrefix(s), c)
  {
    if s != [] && s[0] != NUL && s[0] != c {
      IndexOfCPrefix(s[1..], c);
      assert CPrefix(s) == [s[0]] + CPrefix(s[1..]);
      assert CPrefix(s)[1..] == CPrefix(s[1..]);
    }
  }

  /** The value of a digit in bases up to 16, or 16 for a byte that is no
      digit at all. */
  function DigitValue(b: Byte): (v: nat)
    ensures v <= 16
    ensures IsDecimalDigit(b) ==> v == b - DIGIT0
  {
    if IsDecimalDigit(b) then b - DIGIT0
    else if 97 <= b <= 102 then b - 97 + 10   // 'a'..'f'
    else if 65 <= b <= 70 then b - 65 + 10    // 'A'..'F'
    else 16
  }

  /** How many bytes at the start of `s` are digits of `base`. */
  function LeadingDigits(s: Str, base: nat): (n: nat)
    ensures n <= |s| && forall i :: 0 <= i < n ==> DigitValue(s[i]) < base
    ensures n < |s| ==> DigitValue(s[n]) >= base
  {
    if s == [] || DigitValue(s[0]) >= base then 0 else 1 + LeadingDigits(s[1..], base)
  }

  /** The number the digits `ds` denote in `base`, most significant first. */
  function ValueOf(ds: Str, base: nat): nat
  {
    if ds == [] then 0 else ValueOf(ds[..|ds| - 1], base) * base + DigitValue(ds[|ds| - 1])
  }

  function Saturate(v: nat): (r: nat)
    ensures r <= ULONG_MAX && (v <= ULONG_MAX ==> r == v)
  {
    if v <= ULONG_MAX then v else ULONG_MAX
  }

  /** `strtoul(s, NULL, 0)` on a string without leading blanks or sign: a
      `0x` prefix selects base 16, a leading `0` base 8, anything else base
      10; the longest run of digits is read, and an out-of-range value gives
      `ULONG_MAX`. */
  function StrToUL(s: Str): (r: nat)
    ensures r <= ULONG_MAX
  {
    if |s| >= 3 && s[0] == DIGIT0 && (s[1] == 120 || s[1] == 88) && DigitValue(s[2]) < 16 then
      var ds := s[2..]; Saturate(ValueOf(ds[..LeadingDigits(ds, 16)], 16))
    else if |s| >= 1 && s[0] == DIGIT0 then
      Saturate(ValueOf(s[..LeadingDigits(s, 8)], 8))
    else
      Saturate(ValueOf(s[..LeadingDigits(s, 10)], 10))
  }

  /** `(unsigned short) strtoul(servport, NULL, 0)`. */
  function PortNumber(s: Str): (n: nat)
    ensures n < USHORT_RANGE
  {
    StrToUL(s) % USHORT_RANGE
  }

  lemma {:induction false} ValueOfDigits(n: nat)
    ensures ValueOf(Digits(n), 10) == n
    ensures LeadingDigits(Digits(n), 10) == |Digits(n)|
  {
    var ds := Digits(n);
    if n >= 10 {
      ValueOfDigits(n / 10);
      assert ds[..|ds| - 1] == Digits(n / 10);
      AllDigitsLead(ds, 10);
    } else {
      assert ds[..0] == [];
    }
  }

  lemma {:induction false} AllDigitsLead(s: Str, base: nat)
    requires forall i :: 0 <= i < |s| ==> DigitValue(s[i]) < base
    ensures LeadingDigits(s, base) == |s|
  {
    if s != [] {
      AllDigitsLead(s[1..], base);
    }
  }

  /** The port text the server writes reads back as the same port. */
  lemma PortRoundTrip(port: nat)
    requires port < USHORT_RANGE
    ensures PortNumber(Decimal(port)) == port
  {
    if port == 0 {
      PortZero();
    } else {
      var s := Decimal(port);
      ValueOfDigits(port);
      assert s[0] != DIGIT0;
      assert s[..LeadingDigits(s, 10)] == s;
      assert StrToUL(s) == Saturate(port) == port;
      assert port % USHORT_RANGE == port;
    }
  }

  /** Port 0 is written "0", which `strtoul` with base 0 reads as octal. */
  lemma PortZero()
    ensures PortNumber(Decimal(0)) == 0
  {
    var s := Digits(0);
    assert s == [DIGIT0];
    assert LeadingDigits(s, 8) == 1;
    assert s[..1] == s;
    assert ValueOf(s, 8) == 0 by {
      assert s[..0] == [];
    }
  }

  /** The published target splits back into the host and the port text, and
      the port text into the port, when the host holds no colon. */
  lemma TargetRoundTrip(host: Str, port: nat)
    requires IsCStr(host) && COLON !in host && port < USHORT_RANGE
    ensures SplitTarget(Target(host, port)) == Some((host, Decimal(port)))
    ensures PortNumber(Decimal(port)) == port
  {
    SplitOfTarget(host, port);
    PortRoundTrip(port);
  }

  /** The published target splits at the colon that follows the host. */
  lemma SplitOfTarget(host: Str, port: int)
    requires IsCStr(host) && COLON !in host
    ensures SplitTarget(Target(host, port)) == Some((host, Decimal(port)))
  {
    var t := Target(host, port);
    var d := Decimal(port);
    assert t == host + ([COLON] + d);
    IndexOfSkips(host, COLON, [COLON] + d);
    assert t[..|host|] == host;
    assert t[|host| + 1..] == d;
    assert CPrefix(d) == d;
  }

  /** `index` passes over a prefix that neither holds the byte sought nor ends
      the C string. */
  lemma {:induction false} IndexOfSkips(a: Str, c: Byte, b: Str)
    requires c != NUL && IsCStr(a) && c !in a && b != [] && b[0] == c
    ensures IndexOf(a + b, c) == Some(|a|)
  {
    if a != [] {
      assert (a + b)[1..] == a[1..] + b;
      IndexOfSkips(a[1..], c, b);
    }
  }
}
