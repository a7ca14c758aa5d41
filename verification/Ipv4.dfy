/** IPv4 literals and prefixes as Go's `net.ParseIP`, `net.ParseCIDR` and
    `IPNet.Contains` treat them, and the reverse-lookup name of an address
    (the IN-ADDR.ARPA form of section 3.5 of RFC 1035) as `dns.ReverseAddr`
    builds it. IPv6 is not modelled. */
module Ipv4 {
  import opened Wrappers
  import Strings

  predicate IsDigit(c: char) { '0' <= c <= '9' }

  predicate AllDigits(s: string) {
    forall i :: 0 <= i < |s| ==> IsDigit(s[i])
  }

  /** The value of a string of decimal digits. */
  function DigitsValue(s: string): nat
    requires AllDigits(s)
  {
    if |s| == 0 then 0
    else DigitsValue(s[..|s| - 1]) * 10 + ((s[|s| - 1] as int) - ('0' as int))
  }

  /** One dotted-quad component: decimal digits without a leading zero
      (except "0" itself), at most 255. */
  function ParseOctet(s: string): (r: Option<int>)
    ensures r.Some? ==> 0 <= r.value < 256
    ensures r.Some? ==> |s| >= 1 && AllDigits(s) && r.value == DigitsValue(s)
    ensures r.Some? ==> |s| == 1 || s[0] != '0'
  {
    if |s| == 0 || !AllDigits(s) then None
    else if |s| > 1 && s[0] == '0' then None
    else if DigitsValue(s) > 255 then None
    else Some(DigitsValue(s))
  }

  /** An IPv4 address as its four octets, most significant first. */
  datatype Addr = Addr(o0: int, o1: int, o2: int, o3: int)

  predicate ValidAddr(a: Addr) {
    0 <= a.o0 < 256 && 0 <= a.o1 < 256 && 0 <= a.o2 < 256 && 0 <= a.o3 < 256
  }

  /** A dotted-quad IPv4 literal: exactly four valid octets separated by dots. */
  function ParseIPv4(s: string): (r: Option<Addr>)
    ensures r.Some? ==> ValidAddr(r.value)
  {
    var parts := Strings.Split(s, '.');
    if |parts| != 4 then None
    else
      match (ParseOctet(parts[0]), ParseOctet(parts[1]), ParseOctet(parts[2]), ParseOctet(parts[3]))
      case (Some(a), Some(b), Some(c), Some(d)) => Some(Addr(a, b, c, d))
      case _ => None
  }

  function DigitChar(d: int): (c: char)
    requires 0 <= d < 10
    ensures IsDigit(c) && (c as int) - ('0' as int) == d
  {
    (('0' as int) + d) as char
  }

  /** The shortest decimal spelling of `n`, as strconv.Itoa writes it. */
  function Decimal(n: nat): (s: string)
    ensures |s| >= 1 && AllDigits(s)
  {
    if n < 10 then [DigitChar(n)] else Decimal(n / 10) + [DigitChar(n % 10)]
  }

  lemma {:induction false} DecimalValue(n: nat)
    ensures DigitsValue(Decimal(n)) == n
    ensures n > 0 ==> Decimal(n)[0] != '0'
    decreases n
  {
    if n >= 10 {
      DecimalValue(n / 10);
      var s := Decimal(n);
      assert s[..|s| - 1] == Decimal(n / 10);
    }
  }

  lemma {:induction false} LeadingDigitNonZero(s: string)
    requires |s| >= 1 && AllDigits(s) && s[0] != '0'
    ensures DigitsValue(s) >= 1
    decreases |s|
  {
    if |s| > 1 {
      LeadingDigitNonZero(s[..|s| - 1]);
    }
  }

  /** A digit string without a leading zero is the decimal spelling of its value. */
  lemma {:induction false} DecimalUnique(s: string)
    requires |s| >= 1 && AllDigits(s)
    requires |s| == 1 || s[0] != '0'
    ensures Decimal(DigitsValue(s)) == s
    decreases |s|
  {
    if |s| > 1 {
      var q := s[..|s| - 1];
      LeadingDigitNonZero(q);
      DecimalUnique(q);
      var d := (s[|s| - 1] as int) - ('0' as int);
      var n := DigitsValue(s);
      assert n == DigitsValue(q) * 10 + d;
      assert n / 10 == DigitsValue(q) && n % 10 == d;
      assert s == q + [s[|s| - 1]];
    }
  }

  lemma OctetRoundTrip(n: int)
    requires 0 <= n < 256
    ensures ParseOctet(Decimal(n)) == Some(n)
    ensures '.' !in Decimal(n) && '/' !in Decimal(n)
  {
    DecimalValue(n);
  }

  /** The dotted-quad spelling of an address. */
  function FormatAddr(a: Addr): string
    requires ValidAddr(a)
  {
    Strings.Join([Decimal(a.o0), Decimal(a.o1), Decimal(a.o2), Decimal(a.o3)], '.')
  }

  lemma Join4(p0: string, p1: string, p2: string, p3: string)
    ensures Strings.Join([p0, p1, p2, p3], '.') == p0 + "." + p1 + "." + p2 + "." + p3
  {
    assert [p0, p1, p2, p3][1..] == [p1, p2, p3];
    assert [p1, p2, p3][1..] == [p2, p3];
    assert [p2, p3][1..] == [p3];
    assert Strings.Join([p3], '.') == p3;
    assert Strings.Join([p2, p3], '.') == p2 + "." + p3;
    assert Strings.Join([p1, p2, p3], '.') == p1 + "." + p2 + "." + p3;
  }

  /** Parsing undoes formatting. */
  lemma ParseFormat(a: Addr)
    requires ValidAddr(a)
    ensures ParseIPv4(FormatAddr(a)) == Some(a)
  {
    var parts := [Decimal(a.o0), Decimal(a.o1), Decimal(a.o2), Decimal(a.o3)];
    OctetRoundTrip(a.o0);
    OctetRoundTrip(a.o1);
    OctetRoundTrip(a.o2);
    OctetRoundTrip(a.o3);
    Strings.SplitJoin(parts, '.');
  }

  /** Formatting undoes parsing: an accepted literal is the canonical
      spelling of its address, so two different literals never name the same address. */
  lemma FormatParse(s: string)
    requires ParseIPv4(s).Some?
    ensures FormatAddr(ParseIPv4(s).value) == s
  {
    var parts := Strings.Split(s, '.');
    DecimalUnique(parts[0]);
    DecimalUnique(parts[1]);
    DecimalUnique(parts[2]);
    DecimalUnique(parts[3]);
    assert parts == [parts[0], parts[1], parts[2], parts[3]];
  }

  /** The address as a 32-bit number. */
  function Value(a: Addr): int {
    ((a.o0 * 256 + a.o1) * 256 + a.o2) * 256 + a.o3
  }

  function Pow2(n: nat): (p: nat)
    ensures p >= 1
  {
    if n == 0 then 1 else 2 * Pow2(n - 1)
  }

  /** An IPv4 network written `address/prefix-length`. */
  datatype Cidr = Cidr(addr: Addr, prefix: int)

  /** net.ParseCIDR restricted to IPv4: an address, '/', and a decimal prefix
      length of at most 32 (leading zeros allowed, as Go's dtoi allows them). */
  function ParseCidr(s: string): (r: Option<Cidr>)
    ensures r.Some? ==> ValidAddr(r.value.addr) && 0 <= r.value.prefix <= 32
  {
    var i := Strings.IndexFrom(s, '/', 0);
    if i == |s| then None
    else
      var mask := s[i + 1..];
      match ParseIPv4(s[..i])
      case None => None
      case Some(a) =>
        if |mask| == 0 || !AllDigits(mask) || DigitsValue(mask) > 32 then None
        else Some(Cidr(a, DigitsValue(mask)))
  }

  /** Parsing a formatted prefix gives the prefix back. */
  lemma ParseFormatCidr(a: Addr, p: int)
    requires ValidAddr(a) && 0 <= p <= 32
    ensures ParseCidr(FormatAddr(a) + "/" + Decimal(p)) == Some(Cidr(a, p))
  {
    var f := FormatAddr(a);
    var s := f + "/" + Decimal(p);
    ParseFormat(a);
    OctetRoundTrip(a.o0);
    OctetRoundTrip(a.o1);
    OctetRoundTrip(a.o2);
    OctetRoundTrip(a.o3);
    JoinAvoids([Decimal(a.o0), Decimal(a.o1), Decimal(a.o2), Decimal(a.o3)], '.', '/');
    Strings.IndexOfJoinedPart(f, '/', Decimal(p));
    assert s[..|f|] == f;
    assert s[|f| + 1..] == Decimal(p);
    DecimalValue(p);
  }

  /** Joining parts that avoid a character (other than the separator) avoids it too. */
  lemma {:induction false} JoinAvoids(parts: seq<string>, sep: char, c: char)
    requires c != sep
    requires forall k :: 0 <= k < |parts| ==> c !in parts[k]
    ensures c !in Strings.Join(parts, sep)
    decreases |parts|
  {
    if |parts| > 1 {
      JoinAvoids(parts[1..], sep, c);
    }
  }

  predicate DigitsAndDots(s: string) {
    forall i :: 0 <= i < |s| ==> IsDigit(s[i]) || s[i] == '.'
  }

  /** Joining digit strings with '.' gives only digits and dots. */
  lemma {:induction false} JoinDigits(parts: seq<string>)
    requires forall k :: 0 <= k < |parts| ==> AllDigits(parts[k])
    ensures DigitsAndDots(Strings.Join(parts, '.'))
    decreases |parts|
  {
    if |parts| == 1 {
      assert AllDigits(parts[0]);
    } else if |parts| > 1 {
      var p := parts[0];
      assert AllDigits(p);
      JoinDigits(parts[1..]);
      var t := Strings.Join(parts[1..], '.');
      var s := Strings.Join(parts, '.');
      assert s == p + ['.'] + t;
      forall i | 0 <= i < |s|
        ensures IsDigit(s[i]) || s[i] == '.'
      {
        if i < |p| {
          assert s[i] == p[i];
        } else if i > |p| {
          assert s[i] == t[i - |p| - 1];
        }
      }
    }
  }

  /** An IPv4 literal is spelled with digits and dots only, so a host name
      with a letter in it never parses as an address. */
  lemma LiteralCharacters(s: string)
    requires ParseIPv4(s).Some?
    ensures DigitsAndDots(s)
  {
    var parts := Strings.Split(s, '.');
    assert |parts| == 4;
    assert AllDigits(parts[0]) && AllDigits(parts[1]);
    assert AllDigits(parts[2]) && AllDigits(parts[3]);
    JoinDigits(parts);
  }

  /** A string with a character other than a digit or a dot is no IPv4 literal. */
  lemma NotALiteral(s: string, i: nat)
    requires i < |s| && !IsDigit(s[i]) && s[i] != '.'
    ensures ParseIPv4(s).None?
  {
    if ParseIPv4(s).Some? {
      LiteralCharacters(s);
    }
  }

  /** IPNet.Contains for IPv4: the first `prefix` bits of the two addresses agree. */
  predicate Contains(c: Cidr, ip: Addr)
    requires 0 <= c.prefix <= 32
  {
    Value(ip) / Pow2(32 - c.prefix) == Value(c.addr) / Pow2(32 - c.prefix)
  }

  lemma DivExact(x: int, r: int, d: int)
    requires d > 0 && 0 <= r < d
    ensures (x * d + r) / d == x && (x * d + r) % d == r
  {
    var q, m := (x * d + r) / d, (x * d + r) % d;
    assert q * d + m == x * d + r;
    assert (x - q) * d == m - r;
    assert x - q >= 1 ==> (x - q) * d >= d;
    assert x - q <= -1 ==> (x - q) * d <= -d;
  }

  /** Base-256 digits are unique. */
  lemma DigitPair(a: int, b: int, c: int, d: int)
    requires 0 <= b < 256 && 0 <= d < 256
    requires a * 256 + b == c * 256 + d
    ensures a == c && b == d
  {
    DivExact(a, b, 256);
    DivExact(c, d, 256);
  }

  /** Dropping the last 8 or 24 bits of an address leaves its leading octets. */
  lemma LeadingOctets(ip: Addr)
    requires ValidAddr(ip)
    ensures Value(ip) / 256 == (ip.o0 * 256 + ip.o1) * 256 + ip.o2
    ensures Value(ip) / 65536 == ip.o0 * 256 + ip.o1
    ensures Value(ip) / 16777216 == ip.o0
  {
    DivExact((ip.o0 * 256 + ip.o1) * 256 + ip.o2, ip.o3, 256);
    assert Value(ip) == (ip.o0 * 256 + ip.o1) * 65536 + (ip.o2 * 256 + ip.o3);
    DivExact(ip.o0 * 256 + ip.o1, ip.o2 * 256 + ip.o3, 65536);
    assert Value(ip) == ip.o0 * 16777216 + ((ip.o1 * 256 + ip.o2) * 256 + ip.o3);
    DivExact(ip.o0, (ip.o1 * 256 + ip.o2) * 256 + ip.o3, 16777216);
  }

  /** For the byte-aligned prefix lengths 8, 16 and 24, membership in a
      network means agreeing with its address on the leading octets. */
  lemma {:induction false} ContainsByOctets(c: Cidr, ip: Addr)
    requires ValidAddr(c.addr) && ValidAddr(ip)
    requires c.prefix == 8 || c.prefix == 16 || c.prefix == 24
    ensures c.prefix == 8 ==> (Contains(c, ip) <==> ip.o0 == c.addr.o0)
    ensures c.prefix == 16 ==> (Contains(c, ip) <==> ip.o0 == c.addr.o0 && ip.o1 == c.addr.o1)
    ensures c.prefix == 24 ==>
              (Contains(c, ip) <==> ip.o0 == c.addr.o0 && ip.o1 == c.addr.o1 && ip.o2 == c.addr.o2)
  {
    assert Pow2(8) == 256;
    assert Pow2(16) == 65536;
    assert Pow2(24) == 16777216;
    LeadingOctets(ip);
    LeadingOctets(c.addr);
    var a, b := ip, c.addr;
    if a.o0 * 256 + a.o1 == b.o0 * 256 + b.o1 {
      DigitPair(a.o0, a.o1, b.o0, b.o1);
    }
    if (a.o0 * 256 + a.o1) * 256 + a.o2 == (b.o0 * 256 + b.o1) * 256 + b.o2 {
      DigitPair(a.o0 * 256 + a.o1, a.o2, b.o0 * 256 + b.o1, b.o2);
      DigitPair(a.o0, a.o1, b.o0, b.o1);
    }
  }

  const InAddrArpa: string := ".in-addr.arpa."

  function ReverseOctets(a: Addr): Addr {
    Addr(a.o3, a.o2, a.o1, a.o0)
  }

  /** dns.ReverseAddr for IPv4: the octets in reverse order followed by
      "in-addr.arpa." (with the trailing root dot); None for a string that is
      not an IPv4 literal. */
  function ReverseAddr(s: string): (r: Option<string>)
    ensures r.Some? <==> ParseIPv4(s).Some?
    ensures r.Some? ==> r.value == FormatAddr(ReverseOctets(ParseIPv4(s).value)) + InAddrArpa
  {
    match ParseIPv4(s)
    case None => None
    case Some(a) =>
      var b := ReverseOctets(a);
      Join4(Decimal(b.o0), Decimal(b.o1), Decimal(b.o2), Decimal(b.o3));
      Some(Decimal(b.o0) + "." + Decimal(b.o1) + "." + Decimal(b.o2) + "." + Decimal(b.o3) + InAddrArpa)
  }

  /** A reverse name never contains '/', is never empty, and names its address
      unambiguously: the part before ".in-addr.arpa." parses back to the
      reversed address. */
  lemma ReverseAddrRecoversAddress(s: string)
    requires ParseIPv4(s).Some?
    ensures '/' !in ReverseAddr(s).value
    ensures |ReverseAddr(s).value| > 0
    ensures Strings.HasSuffix(ReverseAddr(s).value, InAddrArpa)
    ensures var r := ReverseAddr(s).value;
            ParseIPv4(r[..|r| - |InAddrArpa|]) == Some(ReverseOctets(ParseIPv4(s).value))
  {
    var a := ParseIPv4(s).value;
    var b := ReverseOctets(a);
    var f := FormatAddr(b);
    var r := ReverseAddr(s).value;
    OctetRoundTrip(b.o0);
    OctetRoundTrip(b.o1);
    OctetRoundTrip(b.o2);
    OctetRoundTrip(b.o3);
    JoinAvoids([Decimal(b.o0), Decimal(b.o1), Decimal(b.o2), Decimal(b.o3)], '.', '/');
    assert r == f + InAddrArpa;
    assert r[..|r| - |InAddrArpa|] == f;
    assert r[|r| - |InAddrArpa|..] == InAddrArpa;
    ParseFormat(b);
  }

  /** Different IPv4 literals have different reverse names. */
  lemma ReverseAddrInjective(s: string, t: string)
    requires ReverseAddr(s).Some? && ReverseAddr(s) == ReverseAddr(t)
    ensures s == t
  {
    ReverseAddrRecoversAddress(s);
    ReverseAddrRecoversAddress(t);
    var a := ParseIPv4(s).value;
    var b := ParseIPv4(t).value;
    assert ReverseOctets(a) == ReverseOctets(b);
    FormatParse(s);
    FormatParse(t);
  }
}
