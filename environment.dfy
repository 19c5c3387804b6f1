/**
 * `get_host_address_from_environment(name, default)`: an explicit
 * `{name}_ADDRESS` setting wins verbatim; otherwise `HOST_{name}`, or the
 * default, is resolved with `resolve_address`. The process environment is an
 * immutable map.
 */
module Environment {
  import opened Wrappers
  import opened Resolver
  import opened Address

  type Env = map<string, string>

  /** The variable holding an explicit address for `name`: `name` followed by `_ADDRESS`. */
  function AddressVariable(name: string): string { name + "_ADDRESS" }

  /** The variable holding the host to resolve for `name`: `HOST_` followed by `name`. */
  function HostVariable(name: string): string { "HOST_" + name }

  /** The host setting for `name`: the value of its host variable when set, otherwise the default. */
  function HostSetting(env: Env, name: string, default: string): string
  {
    if HostVariable(name) in env then env[HostVariable(name)] else default
  }

  /** What `get_host_address_from_environment(name, default)` returns or raises. */
  function HostAddressFromEnvironment(env: Env, name: string, default: string, lookup: Lookup): Result<string, LookupError>
  {
    if AddressVariable(name) in env then Ok(env[AddressVariable(name)])
    else ResolveAddress(HostSetting(env, name, default), lookup)
  }

  /**
   * With `{name}_ADDRESS` set, its value is returned verbatim and no answer of
   * the resolver matters: nothing is looked up.
   */
  lemma OverrideNeedsNoLookup(env: Env, name: string, default: string, lookup1: Lookup, lookup2: Lookup)
    requires AddressVariable(name) in env
    ensures HostAddressFromEnvironment(env, name, default, lookup1) == Ok(env[AddressVariable(name)])
    ensures HostAddressFromEnvironment(env, name, default, lookup1) ==
            HostAddressFromEnvironment(env, name, default, lookup2)
  {
  }

  /** Without the override, a set `HOST_{name}` is what gets resolved, whatever the default. */
  lemma HostVariableWins(env: Env, name: string, default: string, lookup: Lookup)
    requires AddressVariable(name) !in env && HostVariable(name) in env
    ensures HostAddressFromEnvironment(env, name, default, lookup) ==
            ResolveAddress(env[HostVariable(name)], lookup)
  {
  }

  /** With neither variable set, the default is what gets resolved. */
  lemma DefaultWhenUnset(env: Env, name: string, default: string, lookup: Lookup)
    requires AddressVariable(name) !in env && HostVariable(name) !in env
    ensures HostAddressFromEnvironment(env, name, default, lookup) == ResolveAddress(default, lookup)
  {
  }

  /**
   * Without the override, `HOST_{name}` (or the default) given as `host:port` has
   * its host resolved and its port kept, brackets added for IPv6.
   */
  lemma FallbackResolvesHostOfSetting(env: Env, name: string, default: string, host: string, port: string, lookup: Lookup)
    requires AddressVariable(name) !in env
    requires HostSetting(env, name, default) == host + ":" + port && ':' !in port
    ensures var resolved := Resolution(host, lookup);
            HostAddressFromEnvironment(env, name, default, lookup) ==
              if resolved.Err? then Err(resolved.error)
              else if resolved.value.family == Inet6 then Ok("[" + resolved.value.ip + "]:" + port)
              else Ok(resolved.value.ip + ":" + port)
  {
    ResolveHostWithPort(host, port, lookup);
  }

  /** Without the override, only the answers for the host part of the setting matter. */
  lemma FallbackSeesOnlyHost(env: Env, name: string, default: string, lookup1: Lookup, lookup2: Lookup)
    requires AddressVariable(name) !in env
    requires var host := SplitAddress(HostSetting(env, name, default)).hostname;
             forall n :: 1 <= n <= MaxAttempts ==> lookup1(host, n) == lookup2(host, n)
    ensures HostAddressFromEnvironment(env, name, default, lookup1) ==
            HostAddressFromEnvironment(env, name, default, lookup2)
  {
    ResolverSeesOnlyHost(HostSetting(env, name, default), lookup1, lookup2);
  }

  /** `FOO` with neither variable set: `default:1` is resolved, host `default`, port `1`. */
  lemma DefaultFallbackExample(lookup: Lookup)
    requires Resolution("default", lookup) == Ok(Resolved("10.0.0.1", Inet))
    ensures HostAddressFromEnvironment(map[], "FOO", "default:1", lookup) == Ok("10.0.0.1:1")
  {
    var env: Env := map[];
    assert AddressVariable("FOO") !in env && HostSetting(env, "FOO", "default:1") == "default:1";
    assert "default:1" == "default" + ":" + "1";
    FallbackResolvesHostOfSetting(env, "FOO", "default:1", "default", "1", lookup);
    assert "10.0.0.1" + ":" + "1" == "10.0.0.1:1";
  }
}
