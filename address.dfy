/**
  IP address literals as the classifier reads a host name: dotted-quad IPv4
  (four decimal fields, each at most 255 and without leading zeros) and
  colon-separated IPv6 (eight groups of one to four hexadecimal digits, one
  `::` standing for at least one group of zeros). The first `.` or `:` in the
  text decides which of the two is tried; anything else is not an address.
 */
module Address {
  import opened Wrappers
  import opened Text

  predicate IsHexDigit(c: char) {
    IsDigit(c) || ('a' <= c <= 'f') || ('A' <= c <= 'F')
  }

  /** The value of a hexadecimal digit of either case (0 for any other character). */
  function DigitValue(c: char): (v: nat)
    ensures v < 16
    ensures IsDigit(c) ==> v < 10
  {
    if IsDigit(c) then c as int - '0' as int
    else if 'a' <= c <= 'f' then c as int - 'a' as int + 10
    else if 'A' <= c <= 'F' then c as int - 'A' as int + 10
    else 0
  }

  /** The lower-case digit for `d`. */
  function DigitChar(d: nat): (c: char)
    requires d < 16
    ensures IsHexDigit(c) && DigitValue(c) == d
    ensures IsDigit(c) <==> d < 10
  {
    if d < 10 then ('0' as int + d) as char else ('a' as int + d - 10) as char
  }

  /** The value of the digits `s` in `base`, most significant first. */
  function Value(s: string, base: nat): nat
    decreases |s|
  {
    if s == [] then 0 else Value(s[..|s| - 1], base) * base + DigitValue(s[|s| - 1])
  }

  /** `n` written in `base` with lower-case digits and no leading zeros. */
  function Numeral(n: nat, base: nat): string
    requires 2 <= base <= 16
    decreases n
  {
    if n < base then [DigitChar(n)] else Numeral(n / base, base) + [DigitChar(n % base)]
  }

  /** Every character of `s` is a digit of `base`. */
  predicate DigitsIn(s: string, base: nat) {
    forall i :: 0 <= i < |s| ==> IsHexDigit(s[i]) && DigitValue(s[i]) < base && (base <= 10 ==> IsDigit(s[i]))
  }

  function Pow(base: nat, k: nat): nat {
    if k == 0 then 1 else base * Pow(base, k - 1)
  }

  /** A numeral is made of digits of its base, has no leading zero, reads back as
      the number, and is no longer than the number needs. */
  lemma NumeralSpec(n: nat, base: nat, k: nat)
    requires 2 <= base <= 16
    requires k >= 1 && n < Pow(base, k)
    ensures var r := Numeral(n, base);
            r != [] && DigitsIn(r, base) && (|r| == 1 || r[0] != '0')
            && Value(r, base) == n && |r| <= k
  {
    NumeralDigits(n, base);
    NumeralValue(n, base);
    NumeralLength(n, base, k);
  }

  lemma {:induction false} NumeralDigits(n: nat, base: nat)
    requires 2 <= base <= 16
    ensures var r := Numeral(n, base);
            r != [] && DigitsIn(r, base) && (|r| == 1 || r[0] != '0')
    decreases n
  {
    if n >= base {
      DivMod(n, base);
      NumeralDigits(n / base, base);
      var q := Numeral(n / base, base);
      var r := Numeral(n, base);
      assert r == q + [DigitChar(n % base)];
      assert r[0] == q[0];
      if |q| == 1 {
        assert n / base != 0;
        assert DigitValue(q[0]) == n / base;
      }
    }
  }

  lemma {:induction false} NumeralValue(n: nat, base: nat)
    requires 2 <= base <= 16
    ensures Value(Numeral(n, base), base) == n
    decreases n
  {
    var r := Numeral(n, base);
    if n < base {
      assert r == [DigitChar(n)];
      assert Value(r, base) == Value([], base) * base + DigitValue(r[0]);
    } else {
      var m, d := n / base, DigitChar(n % base);
      var q := Numeral(m, base);
      DivMod(n, base);
      NumeralValue(m, base);
      assert r == q + [d];
      assert r[..|r| - 1] == q && r[|r| - 1] == d;
      assert Value(r, base) == Value(q, base) * base + DigitValue(d);
      DivMod(n, base);
    }
  }

  lemma DivMod(n: nat, base: nat)
    requires base >= 2
    ensures (n / base) * base + n % base == n
    ensures n > 0 ==> n / base < n
  {
  }

  /** Dividing by the base removes one factor of it from a bound. */
  lemma DivBound(n: nat, base: nat, p: nat)
    requires base >= 2 && n < base * p
    ensures n / base < p
  {
    DivMod(n, base);
    MulCancel(n / base, p, base);
  }

  lemma MulCancel(a: nat, b: nat, c: nat)
    requires c > 0 && a * c < b * c
    ensures a < b
  {
  }

  lemma {:induction false} NumeralLength(n: nat, base: nat, k: nat)
    requires 2 <= base <= 16
    requires k >= 1 && n < Pow(base, k)
    ensures |Numeral(n, base)| <= k
    decreases n
  {
    if n >= base {
      DivMod(n, base);
      assert k >= 2 by {
        assert Pow(base, 1) == base * Pow(base, 0) == base;
      }
      DivBound(n, base, Pow(base, k - 1));
      NumeralLength(n / base, base, k - 1);
    }
  }

  /** A canonical decimal numeral is the numeral of its own value. */
  lemma {:induction false} DecimalCanonical(p: string)
    requires p != [] && AllDigits(p) && (|p| == 1 || p[0] != '0')
    ensures Numeral(Value(p, 10), 10) == p
    decreases |p|
  {
    var q, d := p[..|p| - 1], p[|p| - 1];
    var v := Value(p, 10);
    assert v == Value(q, 10) * 10 + DigitValue(d);
    assert DigitChar(DigitValue(d)) == d;
    if q == [] {
      assert p == [d];
    } else {
      assert q[0] == p[0];
      DecimalPositive(q);
      DecimalCanonical(q);
      assert v / 10 == Value(q, 10) && v % 10 == DigitValue(d);
      assert p == q + [d];
    }
  }

  lemma {:induction false} DecimalPositive(p: string)
    requires p != [] && AllDigits(p) && p[0] != '0'
    ensures Value(p, 10) >= 1
    decreases |p|
  {
    if |p| > 1 {
      var q := p[..|p| - 1];
      assert q[0] == p[0];
      DecimalPositive(q);
    } else {
      assert DigitValue(p[0]) >= 1;
    }
  }

  // ---------------------------------------------------------------------------
  // IPv4

  /** A decimal field of a dotted quad. */
  predicate ValidOctet(p: string) {
    p != [] && AllDigits(p) && (|p| == 1 || p[0] != '0') && Value(p, 10) <= 255
  }

  function ParseIPv4(s: string): (r: Option<seq<nat>>)
    ensures r.Some? ==> |r.value| == 4 && forall i :: 0 <= i < 4 ==> r.value[i] <= 255
  {
    var parts := Split(s, '.');
    if |parts| == 4 && forall i :: 0 <= i < 4 ==> ValidOctet(parts[i]) then
      Some(seq(4, i requires 0 <= i < 4 => Value(parts[i], 10)))
    else None
  }

  /** An IPv4 address in dotted-quad notation. */
  function FormatIPv4(octets: seq<nat>): string
    requires |octets| == 4
  {
    Join(OctetNumerals(octets), '.')
  }

  function OctetNumerals(octets: seq<nat>): seq<string>
    requires |octets| == 4
  {
    seq(4, i requires 0 <= i < 4 => Numeral(octets[i], 10))
  }

  /** The numeral of an octet is a valid field. */
  lemma OctetNumeral(n: nat)
    requires n <= 255
    ensures ValidOctet(Numeral(n, 10)) && Value(Numeral(n, 10), 10) == n
    ensures forall c :: c in Numeral(n, 10) ==> IsDigit(c)
  {
    assert Pow(10, 3) == 1000 by {
      assert Pow(10, 1) == 10 && Pow(10, 2) == 100;
    }
    NumeralSpec(n, 10, 3);
  }

  /** Formatting then parsing gives back the address. */
  lemma ParseFormatIPv4(octets: seq<nat>)
    requires |octets| == 4 && forall i :: 0 <= i < 4 ==> octets[i] <= 255
    ensures ParseIPv4(FormatIPv4(octets)) == Some(octets)
  {
    var parts := OctetNumerals(octets);
    forall i | 0 <= i < 4 ensures ValidOctet(parts[i]) && Value(parts[i], 10) == octets[i] && '.' !in parts[i] {
      OctetNumeral(octets[i]);
    }
    SplitJoin(parts, '.');
    assert Split(FormatIPv4(octets), '.') == parts;
    assert seq(4, i requires 0 <= i < 4 => Value(parts[i], 10)) == octets;
  }

  /** Dotted-quad notation is canonical: a parsed address formats back to its text. */
  lemma FormatParseIPv4(s: string)
    requires ParseIPv4(s).Some?
    ensures FormatIPv4(ParseIPv4(s).value) == s
  {
    var parts := Split(s, '.');
    var octets := ParseIPv4(s).value;
    forall i | 0 <= i < 4 ensures OctetNumerals(octets)[i] == parts[i] {
      DecimalCanonical(parts[i]);
    }
    assert OctetNumerals(octets) == parts;
    JoinSplit(s, '.');
  }

  // ---------------------------------------------------------------------------
  // IPv6

  /** One to four hexadecimal digits. */
  predicate ValidGroup(p: string) {
    1 <= |p| <= 4 && forall i :: 0 <= i < |p| ==> IsHexDigit(p[i])
  }

  /** The values of colon-separated groups; no text means no groups. */
  function Groups(s: string): Option<seq<nat>> {
    if s == [] then Some([])
    else
      var parts := Split(s, ':');
      if forall i :: 0 <= i < |parts| ==> ValidGroup(parts[i]) then
        Some(seq(|parts|, i requires 0 <= i < |parts| => Value(parts[i], 16)))
      else None
  }

  predicate NoDoubleColon(s: string) {
    forall j :: 0 <= j < |s| - 1 ==> !(s[j] == ':' && s[j + 1] == ':')
  }

  /** The position of the first `::`, or -1. */
  function DoubleColon(s: string): (k: int)
    ensures -1 <= k
    ensures k >= 0 ==> k < |s| - 1 && s[k] == ':' && s[k + 1] == ':'
    ensures forall j :: 0 <= j < |s| - 1 && (k < 0 || j < k) ==> !(s[j] == ':' && s[j + 1] == ':')
    decreases |s|
  {
    if |s| < 2 then -1
    else if s[0] == ':' && s[1] == ':' then 0
    else
      var k := DoubleColon(s[1..]);
      assert forall j :: 1 <= j < |s| - 1 ==> s[j] == s[1..][j - 1] && s[j + 1] == s[1..][j];
      if k < 0 then -1 else k + 1
  }

  function Zeros(n: nat): (z: seq<nat>)
    ensures |z| == n && forall i :: 0 <= i < n ==> z[i] == 0
  {
    seq(n, i => 0)
  }

  function ParseIPv6(s: string): (r: Option<seq<nat>>)
    ensures r.Some? ==> |r.value| == 8
  {
    var k := DoubleColon(s);
    if k < 0 then
      match Groups(s)
      case Some(g) => if |g| == 8 then Some(g) else None
      case None => None
    else
      match (Groups(s[..k]), Groups(s[k + 2..]))
      case (Some(l), Some(r)) =>
        if |l| + |r| <= 7 then Some(l + Zeros(8 - |l| - |r|) + r) else None
      case _ => None
  }

  /** An IPv6 address written out in full, eight groups without leading zeros. */
  function FormatIPv6(groups: seq<nat>): string
    requires |groups| == 8
  {
    Join(GroupNumerals(groups), ':')
  }

  function GroupNumerals(groups: seq<nat>): seq<string>
    requires |groups| == 8
  {
    seq(8, i requires 0 <= i < 8 => Numeral(groups[i], 16))
  }

  lemma GroupNumeral(n: nat)
    requires n < 0x1_0000
    ensures ValidGroup(Numeral(n, 16)) && Value(Numeral(n, 16), 16) == n
  {
    assert Pow(16, 4) == 0x1_0000 by {
      assert Pow(16, 1) == 16 && Pow(16, 2) == 256 && Pow(16, 3) == 4096;
    }
    NumeralSpec(n, 16, 4);
  }

  /** A full form contains no `::`: every group between two colons has a digit. */
  lemma {:induction false} FullFormNoDoubleColon(parts: seq<string>)
    requires forall i :: 0 <= i < |parts| ==> parts[i] != [] && ':' !in parts[i]
    ensures NoDoubleColon(Join(parts, ':'))
    decreases |parts|
  {
    if |parts| >= 2 {
      var s := Join(parts, ':');
      var p, t := parts[0], Join(parts[1..], ':');
      FullFormNoDoubleColon(parts[1..]);
      assert s == p + [':'] + t;
      assert t != [] && t[0] != ':' by {
        if |parts[1..]| == 1 {
          assert t == parts[1];
        } else {
          assert t == parts[1] + [':'] + Join(parts[2..], ':');
        }
        assert parts[1][0] in parts[1];
      }
      forall j | 0 <= j < |s| - 1 ensures !(s[j] == ':' && s[j + 1] == ':') {
        assert NoDoubleColon(t);
        if j < |p| {
          assert s[j] == p[j];
          assert p[j] in p;
        } else if j == |p| {
          assert s[j + 1] == t[0];
        } else {
          var i := j - |p| - 1;
          assert 0 <= i < |t| - 1;
          assert s[j] == t[i] && s[j + 1] == t[i + 1];
          assert NoDoubleColon(t);
        }
      }
    }
  }

  /** Formatting in full then parsing gives back the address. */
  lemma ParseFormatIPv6(groups: seq<nat>)
    requires |groups| == 8 && forall i :: 0 <= i < 8 ==> groups[i] < 0x1_0000
    ensures ParseIPv6(FormatIPv6(groups)) == Some(groups)
  {
    var parts := GroupNumerals(groups);
    forall i | 0 <= i < 8 ensures ValidGroup(parts[i]) && Value(parts[i], 16) == groups[i] && ':' !in parts[i] {
      GroupNumeral(groups[i]);
      assert forall j :: 0 <= j < |parts[i]| ==> parts[i][j] != ':';
    }
    var s := FormatIPv6(groups);
    FullFormNoDoubleColon(parts);
    assert DoubleColon(s) == -1;
    SplitJoin(parts, ':');
    assert s != [] by {
      assert s == parts[0] + [':'] + Join(parts[1..], ':');
    }
    assert Split(s, ':') == parts;
    assert Groups(s) == Some(seq(8, i requires 0 <= i < 8 => Value(parts[i], 16)));
    assert seq(8, i requires 0 <= i < 8 => Value(parts[i], 16)) == groups;
  }

  // ---------------------------------------------------------------------------
  // Either family

  datatype IP = V4(octets: seq<nat>) | V6(groups: seq<nat>)

  /** Whether a character can decide the address family. */
  predicate IsMark(c: char) {
    c == '.' || c == ':' || c == '%'
  }

  /** The first of `.`, `:` and `%` in `s`. */
  function FirstMark(s: string): (r: Option<char>)
    ensures r.Some? ==> IsMark(r.value) && r.value in s
    ensures r.None? ==> forall i :: 0 <= i < |s| ==> !IsMark(s[i])
    decreases |s|
  {
    if s == [] then None
    else if IsMark(s[0]) then Some(s[0])
    else
      var r := FirstMark(s[1..]);
      assert forall i :: 1 <= i < |s| ==> s[i] == s[1..][i - 1];
      r
  }

  /** An address literal: IPv4 when a `.` comes first, IPv6 when a `:` does. */
  function ParseIP(s: string): Option<IP> {
    match FirstMark(s)
    case Some('.') =>
      (match ParseIPv4(s) case Some(o) => Some(V4(o)) case None => None)
    case Some(':') =>
      (match ParseIPv6(s) case Some(g) => Some(V6(g)) case None => None)
    case _ => None
  }

  const Loopback6: seq<nat> := [0, 0, 0, 0, 0, 0, 0, 1]

  /** 127.0.0.0/8, ::1, and the IPv4-mapped form ::ffff:127.x.y.z. */
  predicate IsLoopback(ip: IP) {
    match ip
    case V4(o) => |o| == 4 && o[0] == 127
    case V6(g) =>
      |g| == 8 &&
      (g == Loopback6 || ((forall i :: 0 <= i < 5 ==> g[i] == 0) && g[5] == 0xffff && g[6] / 256 == 127))
  }

  /** The mark found after a stretch without marks. */
  lemma {:induction false} FirstMarkAfter(p: string, c: char, rest: string)
    requires forall i :: 0 <= i < |p| ==> !IsMark(p[i])
    requires IsMark(c)
    ensures FirstMark(p + [c] + rest) == Some(c)
    decreases |p|
  {
    if p != [] {
      assert (p + [c] + rest)[1..] == p[1..] + [c] + rest;
      FirstMarkAfter(p[1..], c, rest);
    }
  }

  /** A dotted quad reads back as that IPv4 address. */
  lemma ParseIPOfIPv4(octets: seq<nat>)
    requires |octets| == 4 && forall i :: 0 <= i < 4 ==> octets[i] <= 255
    ensures ParseIP(FormatIPv4(octets)) == Some(V4(octets))
  {
    var parts := OctetNumerals(octets);
    OctetNumeral(octets[0]);
    assert forall i :: 0 <= i < |parts[0]| ==> parts[0][i] in parts[0];
    assert FormatIPv4(octets) == parts[0] + ['.'] + Join(parts[1..], '.');
    FirstMarkAfter(parts[0], '.', Join(parts[1..], '.'));
    ParseFormatIPv4(octets);
  }

  /** An IPv6 address written in full reads back as that address. */
  lemma ParseIPOfIPv6(groups: seq<nat>)
    requires |groups| == 8 && forall i :: 0 <= i < 8 ==> groups[i] < 0x1_0000
    ensures ParseIP(FormatIPv6(groups)) == Some(V6(groups))
  {
    var parts := GroupNumerals(groups);
    GroupNumeral(groups[0]);
    assert FormatIPv6(groups) == parts[0] + [':'] + Join(parts[1..], ':');
    FirstMarkAfter(parts[0], ':', Join(parts[1..], ':'));
    ParseFormatIPv6(groups);
  }

  /** A dotted quad is made of digits and dots, and starts with a digit. */
  lemma FormatIPv4Chars(octets: seq<nat>)
    requires |octets| == 4 && forall i :: 0 <= i < 4 ==> octets[i] <= 255
    ensures var s := FormatIPv4(octets);
            s != [] && IsDigit(s[0]) && forall c :: c != '.' && !IsDigit(c) ==> c !in s
  {
    var parts := OctetNumerals(octets);
    forall i | 0 <= i < 4 ensures forall c :: c in parts[i] ==> IsDigit(c) {
      OctetNumeral(octets[i]);
    }
    forall c | c != '.' && !IsDigit(c) ensures c !in FormatIPv4(octets) {
      JoinAbsent(parts, '.', c);
    }
    OctetNumeral(octets[0]);
    assert FormatIPv4(octets) == parts[0] + ['.'] + Join(parts[1..], '.');
    assert parts[0][0] in parts[0];
  }

  /** A full-form IPv6 address is made of hexadecimal digits and colons. */
  lemma FormatIPv6Chars(groups: seq<nat>)
    requires |groups| == 8 && forall i :: 0 <= i < 8 ==> groups[i] < 0x1_0000
    ensures forall c :: c != ':' && !IsHexDigit(c) ==> c !in FormatIPv6(groups)
  {
    var parts := GroupNumerals(groups);
    forall i | 0 <= i < 8 ensures forall c :: c in parts[i] ==> IsHexDigit(c) {
      GroupNumeral(groups[i]);
      assert forall j :: 0 <= j < |parts[i]| ==> IsHexDigit(parts[i][j]);
    }
    forall c | c != ':' && !IsHexDigit(c) ensures c !in FormatIPv6(groups) {
      JoinAbsent(parts, ':', c);
    }
  }

  // ---------------------------------------------------------------------------
  // The compressed IPv6 forms of the classifier's examples

  /** `::1` is the IPv6 loopback address. */
  lemma ParseIPv6Loopback(s: string)
    requires s == "::1"
    ensures ParseIP(s) == Some(V6(Loopback6))
  {
    assert FirstMark(s) == Some(':');
    assert DoubleColon(s) == 0;
    assert s[..0] == [] && s[2..] == "1";
    HexExamples();
    GroupsOfOne("1");
    assert [] + Zeros(7) + [1] == Loopback6;
  }

  /** `2001:db8::1` is the address 2001:0db8:0:0:0:0:0:1. */
  lemma ParseIPv6Documentation(s: string)
    requires s == "2001:db8::1"
    ensures ParseIP(s) == Some(V6([0x2001, 0xdb8, 0, 0, 0, 0, 0, 1]))
  {
    assert s == "2001" + [':'] + "db8::1";
    FirstMarkAfter("2001", ':', "db8::1");
    DocumentationGroups(s);
  }

  lemma DocumentationGroups(s: string)
    requires s == "2001:db8::1"
    ensures ParseIPv6(s) == Some([0x2001, 0xdb8, 0, 0, 0, 0, 0, 1])
  {
    DoubleColonExample(s);
    HexExamples();
    DocumentationHalves(s[..8], s[10..]);
    assert [0x2001, 0xdb8] + Zeros(5) + [1] == [0x2001, 0xdb8, 0, 0, 0, 0, 0, 1];
  }

  lemma DocumentationHalves(left: string, right: string)
    requires left == "2001:db8" && right == "1"
    ensures Groups(left) == Some([0x2001, 0xdb8]) && Groups(right) == Some([1])
  {
    HexExamples();
    assert left == "2001" + [':'] + "db8";
    GroupsOfTwo("2001", "db8");
    GroupsOfOne("1");
  }

  lemma GroupsOfOne(p: string)
    requires ValidGroup(p) && ':' !in p
    ensures Groups(p) == Some([Value(p, 16)])
  {
    SplitNoSep(p, ':');
    var parts := Split(p, ':');
    assert parts == [p];
    assert forall i :: 0 <= i < |parts| ==> ValidGroup(parts[i]);
    assert seq(|parts|, i requires 0 <= i < |parts| => Value(parts[i], 16)) == [Value(p, 16)];
  }

  lemma GroupsOfTwo(p: string, q: string)
    requires ValidGroup(p) && ':' !in p && ValidGroup(q) && ':' !in q
    ensures Groups(p + [':'] + q) == Some([Value(p, 16), Value(q, 16)])
  {
    var s := p + [':'] + q;
    SplitCons(p, ':', q);
    SplitNoSep(q, ':');
    var parts := Split(s, ':');
    assert parts == [p, q];
    assert s != [];
    assert forall i :: 0 <= i < |parts| ==> ValidGroup(parts[i]);
    assert seq(|parts|, i requires 0 <= i < |parts| => Value(parts[i], 16)) == [Value(p, 16), Value(q, 16)];
  }

  lemma DoubleColonExample(s: string)
    requires s == "2001:db8::1"
    ensures DoubleColon(s) == 8
  {
    assert s[8] == ':' && s[9] == ':';
    assert forall j :: 0 <= j < 8 ==> !(s[j] == ':' && s[j + 1] == ':');
  }

  lemma HexExamples()
    ensures Value("2001", 16) == 0x2001 && Value("db8", 16) == 0xdb8 && Value("1", 16) == 1
  {
    assert Value("2", 16) == 2 by { assert Value("2", 16) == Value([], 16) * 16 + DigitValue('2'); }
    assert Value("20", 16) == 0x20 by { assert "20"[..1] == "2"; }
    assert Value("200", 16) == 0x200 by { assert "200"[..2] == "20"; }
    assert Value("2001", 16) == 0x2001 by { assert "2001"[..3] == "200"; }
    assert Value("d", 16) == 0xd by { assert Value("d", 16) == Value([], 16) * 16 + DigitValue('d'); }
    assert Value("db", 16) == 0xdb by { assert "db"[..1] == "d"; }
    assert Value("db8", 16) == 0xdb8 by { assert "db8"[..2] == "db"; }
    assert Value("1", 16) == 1 by { assert Value("1", 16) == Value([], 16) * 16 + DigitValue('1'); }
  }

  /** A name that starts with neither a digit nor a mark, and has no colon, is
      not an address: its first dot-separated field is not a decimal number. */
  lemma NameNotAddress(s: string)
    requires s != [] && !IsDigit(s[0]) && !IsMark(s[0]) && ':' !in s
    ensures ParseIP(s) == None
  {
    var parts := Split(s, '.');
    assert parts[0] == [s[0]] + Split(s[1..], '.')[0];
    assert !ValidOctet(parts[0]);
  }

  // ---------------------------------------------------------------------------
  // The dotted quads of the classifier's examples

  lemma DottedQuad(a: nat, b: nat, c: nat, d: nat)
    ensures FormatIPv4([a, b, c, d]) ==
            Numeral(a, 10) + "." + (Numeral(b, 10) + "." + (Numeral(c, 10) + "." + Numeral(d, 10)))
  {
    var parts := OctetNumerals([a, b, c, d]);
    assert parts == [Numeral(a, 10), Numeral(b, 10), Numeral(c, 10), Numeral(d, 10)];
    JoinFour(parts, '.');
  }

  lemma SmallNumerals()
    ensures Numeral(0, 10) == "0" && Numeral(1, 10) == "1" && Numeral(2, 10) == "2"
  {
  }

  lemma LargeNumerals()
    ensures Numeral(127, 10) == "127" && Numeral(255, 10) == "255"
    ensures Numeral(192, 10) == "192" && Numeral(168, 10) == "168" && Numeral(100, 10) == "100"
  {
    assert Numeral(12, 10) == "12";
    assert Numeral(25, 10) == "25";
    assert Numeral(19, 10) == "19";
    assert Numeral(16, 10) == "16";
    assert Numeral(10, 10) == "10";
  }

  lemma LoopbackQuad(s: string, last: nat)
    requires (s == "127.0.0.1" && last == 1) || (s == "127.0.0.2" && last == 2)
    ensures s == FormatIPv4([127, 0, 0, last])
  {
    SmallNumerals();
    LargeNumerals();
    DottedQuad(127, 0, 0, last);
  }

  lemma TopLoopbackQuad(s: string)
    requires s == "127.255.255.255"
    ensures s == FormatIPv4([127, 255, 255, 255])
  {
    LargeNumerals();
    DottedQuad(127, 255, 255, 255);
  }

  lemma PrivateQuad(s: string)
    requires s == "192.168.1.100"
    ensures s == FormatIPv4([192, 168, 1, 100])
  {
    SmallNumerals();
    LargeNumerals();
    DottedQuad(192, 168, 1, 100);
  }
}
