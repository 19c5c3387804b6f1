/**
 * `resolve_address`: split an address at its last `:`, resolve the host part,
 * bracket an IPv6 result and put the port text back unchanged.
 */
module Address {
  import opened Wrappers
  import PyStr
  import opened Resolver

  /** The host part of an address and its port suffix (`:` then the port), or empty. */
  datatype HostPorts = HostPorts(hostname: string, ports: string)

  /**
   * An address cut at its last `:`: the host part before it, and the port
   * suffix from it on; with no `:` at all, the whole address and no suffix.
   */
  function SplitAddress(address: string): (h: HostPorts)
    ensures h.hostname + h.ports == address
    ensures h.ports == "" <==> ':' !in address
    ensures h.ports != "" ==> h.ports[0] == ':' && ':' !in h.ports[1..]
  {
    var parts := PyStr.RSplitOnce(address, ':');
    var h := HostPorts(parts[0], PyStr.JoinPrefixed(":", parts[1..]));
    assert |parts| == 2 ==> parts[1..] == [parts[1]];
    h
  }

  /**
   * The resolved IP literal as it appears in an address: an IPv4 literal as it
   * is, an IPv6 literal between `[` and `]`, recoverable by stripping them.
   */
  function HostLiteral(r: Resolved): (s: string)
    ensures r.family == Inet ==> s == r.ip
    ensures r.family == Inet6 ==> |s| == |r.ip| + 2 && s[0] == '[' && s[|s| - 1] == ']' && s[1..|s| - 1] == r.ip
  {
    if r.family == Inet6 then "[" + r.ip + "]" else r.ip
  }

  /** What `resolve_address(address)` returns or raises. */
  function ResolveAddress(address: string, lookup: Lookup): (r: Result<string, LookupError>)
    ensures var resolved := Resolution(SplitAddress(address).hostname, lookup);
            (r.Err? <==> resolved.Err?) && (r.Err? ==> r.error == resolved.error)
    ensures r.Ok? ==> |SplitAddress(address).ports| <= |r.value| &&
                      r.value[|r.value| - |SplitAddress(address).ports|..] == SplitAddress(address).ports
  {
    var split := SplitAddress(address);
    match Resolution(split.hostname, lookup)
    case Err(e) => Err(e)
    case Ok(resolved) =>
      var out := HostLiteral(resolved) + split.ports;
      assert out[|out| - |split.ports|..] == split.ports;
      Ok(out)
  }

  /** `host:port` splits into `host` and `:port` whenever the port has no colon, whatever the host holds. */
  lemma SplitWithPort(host: string, port: string)
    requires ':' !in port
    ensures SplitAddress(host + ":" + port) == HostPorts(host, ":" + port)
  {
    assert host + ":" + port == host + [':'] + port;
    PyStr.RSplitOnceAtLast(host, ':', port);
    var parts := PyStr.RSplitOnce(host + ":" + port, ':');
    assert parts[1..] == [port];
    assert PyStr.JoinPrefixed(":", parts[1..]) == ":" + port;
  }

  /** A bare IPv6 literal is split at its last colon: `::1` gives host `:` and port `1`. */
  lemma BareIpv6Quirk()
    ensures SplitAddress("::1") == HostPorts(":", ":1")
  {
    assert "::1" == ":" + ":" + "1";
    SplitWithPort(":", "1");
  }

  /** A bracketed IPv6 literal with a port splits as intended. */
  lemma BracketedIpv6WithPort()
    ensures SplitAddress("[::1]:80") == HostPorts("[::1]", ":80")
  {
    assert "[::1]:80" == "[::1]" + ":" + "80";
    SplitWithPort("[::1]", "80");
  }

  /** A bracketed IPv6 literal without a port is split inside the brackets: `[::1]` gives `[:` and `:1]`. */
  lemma BracketedIpv6WithoutPortQuirk()
    ensures SplitAddress("[::1]") == HostPorts("[:", ":1]")
  {
    assert "[::1]" == "[:" + ":" + "1]";
    SplitWithPort("[:", "1]");
  }

  /** `host:port`: only `host` is resolved, and the port is put back after the (bracketed) literal. */
  lemma ResolveHostWithPort(host: string, port: string, lookup: Lookup)
    requires ':' !in port
    ensures var resolved := Resolution(host, lookup);
            ResolveAddress(host + ":" + port, lookup) ==
              if resolved.Err? then Err(resolved.error)
              else if resolved.value.family == Inet6 then Ok("[" + resolved.value.ip + "]:" + port)
              else Ok(resolved.value.ip + ":" + port)
  {
    SplitWithPort(host, port);
    var resolved := Resolution(host, lookup);
    if resolved.Err? {
      assert ResolveAddress(host + ":" + port, lookup) == Err(resolved.error);
    } else {
      ResolvedLiteralWithPort(host, port, lookup);
      var ip := resolved.value.ip;
      if resolved.value.family == Inet6 {
        assert HostLiteral(resolved.value) + ":" + port == "[" + ip + "]:" + port;
      } else {
        assert HostLiteral(resolved.value) == ip;
      }
    }
  }

  /** A host with no colon is resolved whole, and the result has no trailing colon. */
  lemma ResolveHostWithoutPort(host: string, lookup: Lookup)
    requires ':' !in host
    ensures var resolved := Resolution(host, lookup);
            ResolveAddress(host, lookup) ==
              if resolved.Err? then Err(resolved.error)
              else if resolved.value.family == Inet6 then Ok("[" + resolved.value.ip + "]")
              else Ok(resolved.value.ip)
  {
    var split := SplitAddress(host);
    assert split.ports == "";
    assert split.hostname == host;
    var resolved := Resolution(host, lookup);
    if resolved.Ok? {
      assert HostLiteral(resolved.value) + "" == HostLiteral(resolved.value);
    }
  }

  /** The port of the input can be read back from the output by the same split. */
  lemma PortSurvives(address: string, lookup: Lookup)
    requires ':' in address && Resolution(SplitAddress(address).hostname, lookup).Ok?
    ensures ResolveAddress(address, lookup).Ok?
    ensures SplitAddress(ResolveAddress(address, lookup).value).ports == SplitAddress(address).ports
  {
    var split := SplitAddress(address);
    var port := split.ports[1..];
    assert split.ports == ":" + port;
    var resolved := Resolution(split.hostname, lookup);
    SplitWithPort(HostLiteral(resolved.value), port);
  }

  /** `one.one.one.one:80` with the host answering `1.1.1.1` resolves to `1.1.1.1:80`. */
  lemma OneOneOneOneExample(lookup: Lookup)
    requires Resolution("one.one.one.one", lookup) == Ok(Resolved("1.1.1.1", Inet))
    ensures ResolveAddress("one.one.one.one:80", lookup) == Ok("1.1.1.1:80")
  {
    var host, port := "one.one.one.one", "80";
    assert host + ":" + port == "one.one.one.one:80";
    SplitWithPort(host, port);
    assert HostLiteral(Resolved("1.1.1.1", Inet)) + ":80" == "1.1.1.1:80";
  }

  /** Only the answers the resolver gives for the host part decide the result. */
  lemma ResolverSeesOnlyHost(address: string, lookup1: Lookup, lookup2: Lookup)
    requires var host := SplitAddress(address).hostname;
             forall n :: 1 <= n <= MaxAttempts ==> lookup1(host, n) == lookup2(host, n)
    ensures ResolveAddress(address, lookup1) == ResolveAddress(address, lookup2)
  {
    ResolutionDependsOnlyOnName(SplitAddress(address).hostname, lookup1, lookup2);
  }

  /** `host:port` resolves to the host's literal followed by `:port`. */
  lemma ResolvedLiteralWithPort(host: string, port: string, lookup: Lookup)
    requires ':' !in port && Resolution(host, lookup).Ok?
    ensures ResolveAddress(host + ":" + port, lookup) == Ok(HostLiteral(Resolution(host, lookup).value) + ":" + port)
  {
    SplitWithPort(host, port);
    var literal := HostLiteral(Resolution(host, lookup).value);
    assert literal + (":" + port) == literal + ":" + port;
  }

  /** Two addresses that differ only in their port resolve the same host the same way. */
  lemma PortIsNotResolved(host: string, port1: string, port2: string, lookup: Lookup)
    requires ':' !in port1 && ':' !in port2
    requires Resolution(host, lookup).Ok?
    ensures ResolveAddress(host + ":" + port1, lookup).Ok? && ResolveAddress(host + ":" + port2, lookup).Ok?
    ensures var r1 := ResolveAddress(host + ":" + port1, lookup).value;
            var r2 := ResolveAddress(host + ":" + port2, lookup).value;
            r1[..|r1| - |port1|] == r2[..|r2| - |port2|]
  {
    ResolvedLiteralWithPort(host, port1, lookup);
    ResolvedLiteralWithPort(host, port2, lookup);
    var literal := HostLiteral(Resolution(host, lookup).value);
    assert (literal + ":" + port1)[..|literal| + 1] == literal + ":";
    assert (literal + ":" + port2)[..|literal| + 1] == literal + ":";
  }
}
