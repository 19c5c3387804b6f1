# socrate address resolution, modelled in Dafny

This project models the address logic of `socrate/system.py` from Mailu's
bootstrap helper library socrate. It covers three operations:

- `resolve_hostname`: looks a name up with `getaddrinfo` and returns the first
  entry's IP literal and address family. Tenacity tries it up to 100 times
  (99 retries), with a random 2–5 second wait between attempts.
- `resolve_address`: splits `host` or `host:port` at the last `:` and resolves
  only the host part. It puts an IPv6 literal in brackets and puts the port
  text back unchanged.
- `get_host_address_from_environment`: returns `{name}_ADDRESS` verbatim if it
  is set. Otherwise it passes `HOST_{name}`, or the default, through
  `resolve_address`.

The operating system resolver is an oracle, `Lookup = (string, nat) -> Answer`.
`lookup(h, n)` is what `getaddrinfo(h, None)` answers on the n-th attempt: a
list of entries, or an exception. Attempts are numbered from 1.

Files:

- `wrappers.dfy`: `Option` and `Result`.
- `pystr.dfy`: the Python built-ins the split uses, `str.rsplit(":", 1)` and
  `"".join(...)`.
- `resolver.dfy`: `resolve_hostname`. The method `ResolveHostname` has an
  explicit retry loop. It is proved equal to the function `Resolution`, and the
  other modules use that function.
- `address.dfy`: `resolve_address`, as the function `ResolveAddress`.
- `environment.dfy`: `get_host_address_from_environment`, with the environment
  as a `map<string, string>`.

Behaviour of the code that the model keeps:

- The environment keys are `name + "_ADDRESS"` and `"HOST_" + name`, with no
  case change.
- Every string splits at its last `:`, and no input is rejected. A bare IPv6
  literal is split inside itself: `::1` gives host `:` and port `1`
  (`Address.BareIpv6Quirk`). A bracketed literal without a port is split inside
  its brackets too: `[::1]` gives `[:` and `:1]`
  (`Address.BracketedIpv6WithoutPortQuirk`).

## Model

| member | source | states |
|---|---|---|
| `PyStr.LastIndexOf` | socrate/system.py:26 | the result is the position of the last `:` (a colon there, none after it), or None exactly when there is no colon |
| `PyStr.RSplitOnce` | socrate/system.py:26 | `rsplit(sep, 1)` gives one part (the whole string) exactly when `sep` does not occur; otherwise two parts that rebuild the input around `sep`, the second with no `sep` |
| `PyStr.RSplitOnceAtLast` | socrate/system.py:26 | `a + sep + b` with no `sep` in `b` splits into exactly `a` and `b`, whatever `a` holds |
| `PyStr.JoinPrefixed` | socrate/system.py:27 | joining the empty rest list gives `""`; joining the one-element rest list gives `":" + port` |
| `Address.SplitAddress` | socrate/system.py:26-27 | round trip: `hostname + ports == address`; `ports` is empty exactly when the address has no `:`; otherwise `ports` is `:` followed by text with no colon |
| `Address.HostLiteral` | socrate/system.py:31-34 | an IPv4 literal is kept as it is; an IPv6 literal is wrapped in `[` and `]`, and stripping them gives it back |
| `Address.SplitWithPort` | socrate/system.py:26-27 | `host:port` with a colon-free port splits into `host` and `:port`, even when `host` has colons |
| `Address.BareIpv6Quirk` | socrate/system.py:26 | `::1` splits into host `:` and port `1` |
| `Address.BracketedIpv6WithPort` | socrate/system.py:26-27 | `[::1]:80` splits into host `[::1]` and port `80` |
| `Address.BracketedIpv6WithoutPortQuirk` | socrate/system.py:26 | `[::1]` splits into `[:` and `:1]` |
| `Address.ResolveAddress` | socrate/system.py:21-34 | fails exactly when resolving the host part fails, with the same error; on success the output ends with the input's port suffix |
| `Address.ResolveHostWithPort` | socrate/system.py:26-34 | `host:port` gives `[ip]:port` for an IPv6 answer and `ip:port` otherwise; the host alone is resolved; errors propagate |
| `Address.ResolveHostWithoutPort` | socrate/system.py:26-34 | a colon-free address is resolved whole and gives `[ip]` or `ip` with no trailing colon |
| `Address.PortSurvives` | socrate/system.py:27-34 | when the input has a port and its host resolves, the call succeeds and splitting the output the same way gives back the same port suffix |
| `Address.ResolverSeesOnlyHost` | socrate/system.py:29 | two oracles that agree on the host part give the same result: only the host is looked up |
| `Address.ResolvedLiteralWithPort` | socrate/system.py:26-34 | when the host resolves, `host:port` gives the host's (bracketed) literal followed by `:port` |
| `Address.PortIsNotResolved` | socrate/system.py:26-29 | when the host resolves, two addresses that differ only in the port both succeed and give the same output apart from the port |
| `Address.OneOneOneOneExample` | test.py:76-80 | `one.one.one.one:80` with the host answering `1.1.1.1` gives `1.1.1.1:80` |
| `Resolver.Attempt` | socrate/system.py:13-18 | one attempt succeeds exactly when the answer is a non-empty list, and then returns the first entry's IP and family; a raised error, or `IndexError` on an empty list, makes the attempt fail |
| `Resolver.AttemptsFrom` | socrate/system.py:6-7 | the loop entered at attempt n stops at an attempt between n and 100; every attempt before it failed, and it is a success or the 100th |
| `Resolver.RetryFrom` | socrate/system.py:6-18 | the loop entered at attempt n returns the outcome of the attempt it stops at; it fails only when every attempt from n to 100 failed |
| `Resolver.AttemptsMade` | socrate/system.py:6-7 | `resolve_hostname` makes 1 to 100 lookups; all before the last failed, and the last succeeded or is the 100th |
| `Resolver.Resolution` | socrate/system.py:6-18 | `resolve_hostname` returns the outcome of its last attempt, and fails only after 100 failed attempts; pinned down by `FirstSuccessWins`, `AllAttemptsFail` and `ResolutionSucceedsIff` |
| `Resolver.StopsAt` | socrate/system.py:6-7 | an attempt that is the first success, or the 100th after 99 failures, is the number of attempts made |
| `Resolver.ResolveHostname` | socrate/system.py:6-18 | the loop makes 1 to 100 attempts, and every attempt before the last one failed; it returns the last attempt's outcome and fails only after the 100th; one warning (hostname, error) per failed attempt; one wait between consecutive attempts; equals `Resolution` |
| `Resolver.FirstSuccessWins` | socrate/system.py:6-7 | if attempt k is the first to succeed, exactly k attempts are made and attempt k's result is returned |
| `Resolver.AllAttemptsFail` | socrate/system.py:6-7 | if all 100 attempts fail, 100 are made and the call fails with the 100th attempt's error |
| `Resolver.ResolutionSucceedsIff` | socrate/system.py:6-18 | the call succeeds if and only if one of the first 100 attempts succeeds |
| `Resolver.ResolutionDependsOnlyOnName` | socrate/system.py:14 | only the oracle's answers for the given name decide the result and the number of attempts |
| `Environment.AddressVariable` | socrate/system.py:43-44 | the override variable is `name` followed by `_ADDRESS` (definition; used by `HostAddressFromEnvironment` and `OverrideNeedsNoLookup`) |
| `Environment.HostVariable` | socrate/system.py:45 | the host variable is `HOST_` followed by `name` (definition; used through `HostSetting`) |
| `Environment.HostSetting` | socrate/system.py:45 | the value of `HOST_{name}` when set, otherwise the default (definition; pinned down by `HostVariableWins` and `DefaultWhenUnset`) |
| `Environment.HostAddressFromEnvironment` | socrate/system.py:37-45 | the precedence: `{name}_ADDRESS` verbatim when set, otherwise `resolve_address` of `HOST_{name}`, or of the default (definition; pinned down by `OverrideNeedsNoLookup`, `HostVariableWins` and `DefaultWhenUnset`) |
| `Environment.OverrideNeedsNoLookup` | socrate/system.py:43-44 | with `{name}_ADDRESS` set, the result is that value verbatim, and it is the same for every oracle: nothing is looked up |
| `Environment.HostVariableWins` | socrate/system.py:45 | without the override and with `HOST_{name}` set, the result is `resolve_address` of that value, whatever the default |
| `Environment.DefaultWhenUnset` | socrate/system.py:45 | with neither `{name}_ADDRESS` nor `HOST_{name}` set, the result is `resolve_address` of the default |
| `Environment.FallbackResolvesHostOfSetting` | socrate/system.py:45 | without the override, a `host:port` setting gives the resolved (bracketed for IPv6) host with its port kept |
| `Environment.FallbackSeesOnlyHost` | socrate/system.py:45 | without the override, only the answers for the host part of the setting matter |
| `Environment.DefaultFallbackExample` | socrate/system.py:45 | with neither variable set, the default `default:1` is resolved as host `default` with port `1` |

## Left out

- `socket.getaddrinfo` is replaced by the oracle `lookup(name, attempt)`. The real resolver's behaviour, including how it treats bracketed input, is not modelled.
- The random 2–5 second wait (`wait_random(min=2, max=5)`) is only counted: `waits` is a ghost count, one wait between consecutive attempts. No durations are modelled.
- `log.warn` is recorded as a ghost list of `(hostname, error)` warnings. The log text is not modelled.
- `Resolver.ResolveHostname`: after 100 failures the model returns the last attempt's error directly. Tenacity raises `RetryError`, which wraps that last attempt; the wrapper class is not modelled.
- Address families other than AF_INET and AF_INET6 are not modelled. Of an answer entry, only the family and the socket address's IP literal are kept.
- `os.environ` is an immutable map argument.
- `socrate/conf.py` (`merge`, `jinja`, `resolve_function`) is not part of this model.
- Determinism of `resolve_address` with a stable resolver needs no lemma: every operation here is a function of its inputs and the oracle.
