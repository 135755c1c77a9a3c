/**
  Reading a proxy target as a URL, as far as its host: the scheme, the `//`
  authority (its user information dropped), the port check on the host, and
  the host name without port or IPv6 brackets.
 */
module ProxyUrl {
  import opened Wrappers
  import opened Text

  predicate IsLetter(c: char) {
    ('a' <= c <= 'z') || ('A' <= c <= 'Z')
  }

  /** Characters allowed in a URL scheme after its first letter. */
  predicate SchemeChar(c: char) {
    IsLetter(c) || IsDigit(c) || c == '+' || c == '-' || c == '.'
  }

  predicate ValidScheme(scheme: string) {
    scheme != [] && IsLetter(scheme[0]) && forall i :: 0 <= i < |scheme| ==> SchemeChar(scheme[i])
  }

  /** The part of `s` before the first `c` (all of `s` when there is none). */
  function Before(s: string, c: char): (r: string)
    ensures c !in r
    ensures r <= s
    ensures |r| < |s| ==> s[|r|] == c
  {
    var k := IndexOf(s, c);
    if k >= 0 then s[..k] else s
  }

  /** A parsed proxy target: its scheme and its host, port included. */
  datatype Url = Url(scheme: string, host: string)

  /** The length of the leading run of scheme characters. */
  function SchemeRun(s: string): (k: nat)
    ensures k <= |s|
    ensures forall i :: 0 <= i < k ==> SchemeChar(s[i])
    ensures k < |s| ==> !SchemeChar(s[k])
  {
    if s == [] || !SchemeChar(s[0]) then 0 else 1 + SchemeRun(s[1..])
  }

  /** Splits off the scheme: `Some((scheme, rest))`, the scheme empty when there is none;
      `None` when the text starts with a colon. */
  function GetScheme(s: string): Option<(string, string)> {
    var k := SchemeRun(s);
    if k < |s| && s[k] == ':' then
      if k == 0 then None
      else if IsLetter(s[0]) then Some((s[..k], s[k + 1..]))
      else Some(([], s))
    else Some(([], s))
  }

  /** A port suffix: empty, or a colon followed by decimal digits. */
  predicate ValidOptionalPort(p: string) {
    p == [] || (p[0] == ':' && AllDigits(p[1..]))
  }

  /** Checks the host of an authority; `None` when its port is malformed or a bracket is unclosed. */
  function ParseHost(host: string): Option<string> {
    if host != [] && host[0] == '[' then
      var i := LastIndexOf(host, ']');
      if i < 0 || !ValidOptionalPort(host[i + 1..]) then None else Some(host)
    else
      var i := LastIndexOf(host, ':');
      if i >= 0 && !ValidOptionalPort(host[i..]) then None else Some(host)
  }

  /** The host of an authority `[userinfo@]host[:port]`. */
  function AuthorityHost(authority: string): Option<string> {
    var i := LastIndexOf(authority, '@');
    ParseHost(authority[i + 1..])
  }

  /** Reads a proxy target as a URL; `None` where the URL is rejected. The
      fragment after `#` and the query after `?` play no part in the host. */
  function ParseUrl(raw: string): Option<Url> {
    match GetScheme(Before(raw, '#'))
    case None => None
    case Some((scheme, afterScheme)) => ParseRest(scheme, Before(afterScheme, '?'))
  }

  /** What follows the scheme: an opaque part, a path, or `//` with an authority. */
  function ParseRest(scheme: string, rest: string): Option<Url> {
    if scheme != [] && (rest == [] || rest[0] != '/') then
      Some(Url(scheme, []))
    else if scheme == [] && (rest == [] || rest[0] != '/') && ':' in Before(rest, '/') then
      None
    else if |rest| >= 2 && rest[..2] == "//" && (scheme != [] || !(|rest| >= 3 && rest[2] == '/')) then
      match AuthorityHost(Before(rest[2..], '/'))
      case None => None
      case Some(host) => Some(Url(scheme, host))
    else
      Some(Url(scheme, []))
  }

  /** The host name without port and without the brackets of an IPv6 literal. */
  function Hostname(u: Url): string {
    var colon := LastIndexOf(u.host, ':');
    var h := if colon >= 0 && ValidOptionalPort(u.host[colon..]) then u.host[..colon] else u.host;
    if |h| >= 2 && h[0] == '[' && h[|h| - 1] == ']' then h[1..|h| - 1] else h
  }

  // ---------------------------------------------------------------------------
  // Reading back the parts a target was put together from

  lemma BeforeAbsent(s: string, c: char)
    requires c !in s
    ensures Before(s, c) == s
  {
  }

  lemma BeforeAt(a: string, c: char, b: string)
    requires c !in a
    ensures Before(a + [c] + b, c) == a
  {
    IndexOfFirst(a, c, b);
  }

  lemma SchemeOf(scheme: string, rest: string)
    requires ValidScheme(scheme)
    ensures GetScheme(scheme + ":" + rest) == Some((scheme, rest))
  {
    var s := scheme + ":" + rest;
    SchemeRunOf(scheme, rest);
    assert s[|scheme|] == ':';
    assert s[..|scheme|] == scheme && s[|scheme| + 1..] == rest;
  }

  lemma {:induction false} SchemeRunOf(scheme: string, rest: string)
    requires forall i :: 0 <= i < |scheme| ==> SchemeChar(scheme[i])
    ensures SchemeRun(scheme + ":" + rest) == |scheme|
    decreases |scheme|
  {
    if scheme != [] {
      assert (scheme + ":" + rest)[1..] == scheme[1..] + ":" + rest;
      SchemeRunOf(scheme[1..], rest);
    }
  }

  /** The authority of `scheme://authority/path` is what the host is read from. */
  lemma ParseUrlOfAuthority(raw: string, scheme: string, authority: string, path: string)
    requires ValidScheme(scheme)
    requires '/' !in authority && '?' !in authority && '#' !in authority
    requires '?' !in path && '#' !in path && (path == [] || path[0] == '/')
    requires raw == scheme + "://" + authority + path
    ensures ParseUrl(raw) == match AuthorityHost(authority)
                             case None => None
                             case Some(host) => Some(Url(scheme, host))
  {
    var rest := "//" + authority + path;
    TargetChars(raw, scheme, authority, path);
    BeforeAbsent(raw, '#');
    SchemeOf(scheme, rest);
    BeforeAbsent(rest, '?');
    assert ParseUrl(raw) == ParseRest(scheme, rest);
    AuthorityOfRest(authority, path);
  }

  lemma TargetChars(raw: string, scheme: string, authority: string, path: string)
    requires ValidScheme(scheme)
    requires '?' !in authority && '#' !in authority && '?' !in path && '#' !in path
    requires raw == scheme + "://" + authority + path
    ensures raw == scheme + ":" + ("//" + authority + path)
    ensures '#' !in raw && '?' !in "//" + authority + path
  {
    assert forall i :: 0 <= i < |raw| ==> raw[i] in scheme || raw[i] in "://" || raw[i] in authority || raw[i] in path;
    var rest := "//" + authority + path;
    assert forall i :: 0 <= i < |rest| ==> rest[i] == '/' || rest[i] in authority || rest[i] in path;
  }

  lemma AuthorityOfRest(authority: string, path: string)
    requires '/' !in authority && (path == [] || path[0] == '/')
    ensures var rest := "//" + authority + path;
            |rest| >= 2 && rest[..2] == "//" && Before(rest[2..], '/') == authority
            && (|rest| >= 3 && rest[2] == '/' ==> authority == [])
  {
    var rest := "//" + authority + path;
    assert rest[..2] == "//" && rest[2..] == authority + path;
    if path == [] {
      assert authority + path == authority;
      BeforeAbsent(authority, '/');
    } else {
      assert authority + path == authority + ['/'] + path[1..];
      BeforeAt(authority, '/', path[1..]);
    }
  }

  /** A port suffix holds none of the characters that end or split a host. */
  lemma PortChars(port: string)
    requires ValidOptionalPort(port)
    ensures '@' !in port && ']' !in port && '/' !in port && '?' !in port && '#' !in port
    ensures port != [] ==> port == [':'] + port[1..] && ':' !in port[1..]
  {
    if port != [] {
      assert forall i :: 0 <= i < |port[1..]| ==> IsDigit(port[1..][i]);
      assert forall i :: 1 <= i < |port| ==> port[i] == port[1..][i - 1];
    }
  }

  /** The last colon of `prefix + port` is the port's, when `prefix` ends the host. */
  lemma LastColon(prefix: string, port: string)
    requires ValidOptionalPort(port) && port != []
    ensures LastIndexOf(prefix + port, ':') == |prefix|
    ensures (prefix + port)[..|prefix|] == prefix && (prefix + port)[|prefix|..] == port
  {
    PortChars(port);
    assert prefix + port == prefix + [':'] + port[1..];
    LastIndexOfLast(prefix, ':', port[1..]);
  }

  lemma NoAt(host: string)
    requires '@' !in host
    ensures AuthorityHost(host) == ParseHost(host)
  {
    assert host[0..] == host;
  }

  /** A host name with no colon, with or without a port, reads back as itself. */
  lemma HostnameOfName(scheme: string, name: string, port: string)
    requires ':' !in name && '@' !in name && (name == [] || name[0] != '[')
    requires ValidOptionalPort(port)
    ensures AuthorityHost(name + port) == Some(name + port)
    ensures Hostname(Url(scheme, name + port)) == name
  {
    NameChars(name, port);
    NoAt(name + port);
    if port == [] {
      NameAlone(scheme, name);
    } else {
      LastColon(name, port);
    }
  }

  lemma NameAlone(scheme: string, name: string)
    requires ':' !in name && (name == [] || name[0] != '[')
    ensures ParseHost(name + []) == Some(name + [])
    ensures Hostname(Url(scheme, name + [])) == name
  {
    assert name + [] == name;
    assert LastIndexOf(name, ':') == -1;
  }

  lemma NameChars(name: string, port: string)
    requires '@' !in name && (name == [] || name[0] != '[')
    requires ValidOptionalPort(port)
    ensures '@' !in name + port
    ensures name + port == [] || (name + port)[0] != '['
  {
    PortChars(port);
    var host := name + port;
    assert forall i :: 0 <= i < |host| ==> host[i] in name || host[i] in port;
  }

  /** A bracketed IPv6 literal, with or without a port, reads back without its brackets. */
  lemma HostnameOfBracketed(scheme: string, ip: string, port: string)
    requires ']' !in ip && '@' !in ip
    requires ValidOptionalPort(port)
    ensures AuthorityHost("[" + ip + "]" + port) == Some("[" + ip + "]" + port)
    ensures Hostname(Url(scheme, "[" + ip + "]" + port)) == ip
  {
    var host := "[" + ip + "]" + port;
    PortChars(port);
    BracketedChars(ip, port);
    NoAt(host);
    BracketedPort(ip, port);
    BracketedHostname(scheme, ip, port);
  }

  /** The closing bracket is the last one, and what follows it is the port. */
  lemma BracketedPort(ip: string, port: string)
    requires ']' !in ip && ValidOptionalPort(port)
    ensures var host := "[" + ip + "]" + port;
            host[0] == '[' && LastIndexOf(host, ']') == |ip| + 1 && host[|ip| + 2..] == port
  {
    var host := "[" + ip + "]" + port;
    PortChars(port);
    assert host == "[" + ip + [']'] + port;
    LastIndexOfLast("[" + ip, ']', port);
  }

  lemma BracketedHostname(scheme: string, ip: string, port: string)
    requires ValidOptionalPort(port)
    ensures Hostname(Url(scheme, "[" + ip + "]" + port)) == ip
  {
    var bracketed := "[" + ip + "]";
    if port == [] {
      assert bracketed + port == bracketed;
      BracketedNoPort(ip);
    } else {
      LastColon(bracketed, port);
    }
    assert bracketed[1..|bracketed| - 1] == ip;
  }

  lemma BracketedChars(ip: string, port: string)
    requires '@' !in ip && '@' !in port
    ensures '@' !in "[" + ip + "]" + port
  {
    var host := "[" + ip + "]" + port;
    assert forall i :: 0 <= i < |host| ==> host[i] == '[' || host[i] == ']' || host[i] in ip || host[i] in port;
  }

  /** In a bracketed literal without a port, a colon is never followed by a port. */
  lemma BracketedNoPort(ip: string)
    ensures var host := "[" + ip + "]";
            var colon := LastIndexOf(host, ':');
            colon < 0 || !ValidOptionalPort(host[colon..])
  {
    var host := "[" + ip + "]";
    var colon := LastIndexOf(host, ':');
    if colon >= 0 {
      var tail := host[colon..];
      assert tail[|tail| - 1] == ']';
      assert |tail| >= 2 ==> tail[1..][|tail| - 2] == ']';
    }
  }

  /** Without a colon and not starting with a slash, a target has no host. */
  lemma ParseUrlNoHost(raw: string)
    requires ':' !in raw && (raw == [] || raw[0] != '/')
    ensures ParseUrl(raw).Some? && Hostname(ParseUrl(raw).value) == []
  {
    var u := Before(raw, '#');
    PrefixKeeps(raw, u);
    NoColonNoScheme(u);
    var rest := Before(u, '?');
    PrefixKeeps(u, rest);
    RelativeRest(rest);
    assert ParseUrl(raw) == ParseRest([], rest);
    assert Hostname(Url([], [])) == [];
  }

  lemma RelativeRest(rest: string)
    requires ':' !in rest && (rest == [] || rest[0] != '/')
    ensures ParseRest([], rest) == Some(Url([], []))
  {
    PrefixKeeps(rest, Before(rest, '/'));
    assert ':' !in Before(rest, '/');
    assert !(|rest| >= 2 && rest[..2] == "//") by {
      if |rest| >= 2 {
        assert rest[..2][0] == rest[0];
      }
    }
  }

  lemma PrefixKeeps(s: string, p: string)
    requires p <= s
    requires ':' !in s && (s == [] || s[0] != '/')
    ensures ':' !in p && (p == [] || p[0] != '/')
  {
    assert forall i :: 0 <= i < |p| ==> p[i] == s[i] && s[i] in s;
  }

  lemma NoColonNoScheme(u: string)
    requires ':' !in u
    ensures GetScheme(u) == Some(([], u))
  {
    var k := SchemeRun(u);
    if k < |u| {
      assert u[k] in u;
    }
  }
}
