/**
  The remote classifier. A model with a launch command is local: the proxy
  spawns and owns its process. A model without one is remote unless the host
  of its proxy target is the local machine: the name `localhost`, an IPv4
  address in 127.0.0.0/8 or the IPv6 loopback address. A proxy target that
  does not read as a URL is not loopback, so such a model is remote.
 */
module Remote {
  import opened Wrappers
  import opened Text
  import opened Config
  import opened Address
  import opened ProxyUrl

  /** The host names the local machine. */
  predicate IsLoopbackHost(host: string) {
    host == "localhost" ||
    match ParseIP(host)
    case Some(ip) => IsLoopback(ip)
    case None => false
  }

  /** Whether the model's backend runs on another machine. */
  function IsRemoteModel(m: ModelConfig): (r: bool)
    ensures m.cmd != [] ==> !r
  {
    m.cmd == [] &&
    match ParseUrl(m.proxy)
    case None => true
    case Some(u) => !IsLoopbackHost(Hostname(u))
  }

  // ---------------------------------------------------------------------------
  // The classification of each shape of proxy target

  /** A target naming its host directly: the model is remote exactly when the
      host is not loopback, whatever the scheme, the port and the path. */
  lemma RemoteOfHostName(m: ModelConfig, scheme: string, name: string, port: string, path: string)
    requires m.cmd == [] && ValidScheme(scheme)
    requires ':' !in name && '@' !in name && '/' !in name && '?' !in name && '#' !in name
    requires name == [] || name[0] != '['
    requires ValidOptionalPort(port)
    requires '?' !in path && '#' !in path && (path == [] || path[0] == '/')
    requires m.proxy == scheme + "://" + name + port + path
    ensures IsRemoteModel(m) == !IsLoopbackHost(name)
  {
    PortChars(port);
    AuthorityChars(name, port);
    assert m.proxy == scheme + "://" + (name + port) + path;
    ParseUrlOfAuthority(m.proxy, scheme, name + port, path);
    HostnameOfName(scheme, name, port);
  }

  lemma AuthorityChars(name: string, port: string)
    requires '/' !in name && '?' !in name && '#' !in name
    requires '/' !in port && '?' !in port && '#' !in port
    ensures '/' !in name + port && '?' !in name + port && '#' !in name + port
  {
    var host := name + port;
    assert forall i :: 0 <= i < |host| ==> host[i] in name || host[i] in port;
  }

  /** A target whose host is a bracketed IPv6 literal: the model is remote
      exactly when the text between the brackets is not loopback. */
  lemma RemoteOfBracketed(m: ModelConfig, scheme: string, ip: string, port: string, path: string)
    requires m.cmd == [] && ValidScheme(scheme)
    requires ']' !in ip && '@' !in ip && '/' !in ip && '?' !in ip && '#' !in ip
    requires ValidOptionalPort(port)
    requires '?' !in path && '#' !in path && (path == [] || path[0] == '/')
    requires m.proxy == scheme + "://" + ("[" + ip + "]") + port + path
    ensures IsRemoteModel(m) == !IsLoopbackHost(ip)
  {
    var authority := "[" + ip + "]" + port;
    PortChars(port);
    AuthorityChars("[" + ip + "]", port);
    assert m.proxy == scheme + "://" + authority + path;
    ParseUrlOfAuthority(m.proxy, scheme, authority, path);
    HostnameOfBracketed(scheme, ip, port);
  }

  /** A dotted-quad host: remote exactly when the first octet is not 127. */
  lemma RemoteOfIPv4(m: ModelConfig, scheme: string, octets: seq<nat>, port: string, path: string)
    requires |octets| == 4 && forall i :: 0 <= i < 4 ==> octets[i] <= 255
    requires m.cmd == [] && ValidScheme(scheme)
    requires ValidOptionalPort(port)
    requires '?' !in path && '#' !in path && (path == [] || path[0] == '/')
    requires m.proxy == scheme + "://" + FormatIPv4(octets) + port + path
    ensures IsRemoteModel(m) <==> octets[0] != 127
  {
    var name := FormatIPv4(octets);
    FormatIPv4Chars(octets);
    assert name != "localhost";
    RemoteOfHostName(m, scheme, name, port, path);
    ParseIPOfIPv4(octets);
  }

  /** A bracketed IPv6 host written in full: remote exactly when the address is
      neither `::1` nor an IPv4-mapped address in 127.0.0.0/8. */
  lemma RemoteOfIPv6(m: ModelConfig, scheme: string, groups: seq<nat>, port: string, path: string)
    requires |groups| == 8 && forall i :: 0 <= i < 8 ==> groups[i] < 0x1_0000
    requires m.cmd == [] && ValidScheme(scheme)
    requires ValidOptionalPort(port)
    requires '?' !in path && '#' !in path && (path == [] || path[0] == '/')
    requires m.proxy == scheme + "://" + ("[" + FormatIPv6(groups) + "]") + port + path
    ensures IsRemoteModel(m) <==> !IsLoopback(V6(groups))
  {
    var ip := FormatIPv6(groups);
    FormatIPv6Chars(groups);
    assert 'l' !in ip;
    assert ip != "localhost" by {
      assert "localhost"[0] == 'l';
    }
    RemoteOfBracketed(m, scheme, ip, port, path);
    ParseIPOfIPv6(groups);
  }

  /** A target with no colon and no leading slash has no host, so it is remote. */
  lemma NoHostIsRemote(m: ModelConfig)
    requires m.cmd == []
    requires ':' !in m.proxy && (m.proxy == [] || m.proxy[0] != '/')
    ensures IsRemoteModel(m)
  {
    ParseUrlNoHost(m.proxy);
    assert FirstMark([]) == None;
  }

  // ---------------------------------------------------------------------------
  // The classifier's examples

  lemma RemoteNamedHost(m: ModelConfig, host: string)
    requires host == "example.com"
    requires m.cmd == [] && m.proxy == "http://" + host + ":8080"
    ensures IsRemoteModel(m)
  {
    RemoteOfHostName(m, "http", host, ":8080", "");
    NameNotAddress(host);
  }

  lemma RemoteHttpsWithPath(m: ModelConfig, host: string)
    requires host == "api.openai.com"
    requires m.cmd == [] && m.proxy == "https://" + host + "/v1"
    ensures IsRemoteModel(m)
  {
    RemoteOfHostName(m, "https", host, "", "/v1");
    NameNotAddress(host);
  }

  lemma RemotePrivateIPv4(m: ModelConfig, host: string)
    requires host == "192.168.1.100"
    requires m.cmd == [] && m.proxy == "http://" + host + ":8080"
    ensures IsRemoteModel(m)
  {
    PrivateQuad(host);
    RemoteOfIPv4(m, "http", [192, 168, 1, 100], ":8080", "");
  }

  lemma RemoteIPv6(m: ModelConfig, ip: string)
    requires ip == "2001:db8::1"
    requires m.cmd == [] && m.proxy == "http://[" + ip + "]:8080"
    ensures IsRemoteModel(m)
  {
    ExampleLiteral(ip);
    assert m.proxy == "http" + "://" + ("[" + ip + "]") + ":8080" + "";
    RemoteOfBracketed(m, "http", ip, ":8080", "");
    ParseIPv6Documentation(ip);
  }

  /** The IPv6 literals of the examples hold none of the characters that end a host. */
  lemma ExampleLiteral(ip: string)
    requires ip == "2001:db8::1" || ip == "::1"
    ensures ']' !in ip && '@' !in ip && '/' !in ip && '?' !in ip && '#' !in ip
  {
    assert forall i :: 0 <= i < |ip| ==> ip[i] == ':' || IsHexDigit(ip[i]);
  }

  lemma LocalhostIsLocal(m: ModelConfig, host: string, port: string)
    requires host == "localhost" && (port == ":8080" || port == "")
    requires m.cmd == [] && m.proxy == "http://" + host + port
    ensures !IsRemoteModel(m)
  {
    RemoteOfHostName(m, "http", host, port, "");
  }

  lemma LoopbackIPv4IsLocal(m: ModelConfig, host: string, last: nat)
    requires (host == "127.0.0.1" && last == 1) || (host == "127.0.0.2" && last == 2)
    requires m.cmd == [] && m.proxy == "http://" + host + ":8080"
    ensures !IsRemoteModel(m)
  {
    LoopbackQuad(host, last);
    RemoteOfIPv4(m, "http", [127, 0, 0, last], ":8080", "");
  }

  lemma TopLoopbackIPv4IsLocal(m: ModelConfig, host: string)
    requires host == "127.255.255.255"
    requires m.cmd == [] && m.proxy == "http://" + host + ":8080"
    ensures !IsRemoteModel(m)
  {
    TopLoopbackQuad(host);
    RemoteOfIPv4(m, "http", [127, 255, 255, 255], ":8080", "");
  }

  lemma LoopbackIPv6IsLocal(m: ModelConfig, ip: string)
    requires ip == "::1"
    requires m.cmd == [] && m.proxy == "http://[" + ip + "]:8080"
    ensures !IsRemoteModel(m)
  {
    ExampleLiteral(ip);
    assert m.proxy == "http" + "://" + ("[" + ip + "]") + ":8080" + "";
    RemoteOfBracketed(m, "http", ip, ":8080", "");
    ParseIPv6Loopback(ip);
  }

  lemma NotAUrlIsRemote(m: ModelConfig)
    requires m.cmd == [] && (m.proxy == "not-a-url" || m.proxy == "")
    ensures IsRemoteModel(m)
  {
    NoHostIsRemote(m);
  }
}
