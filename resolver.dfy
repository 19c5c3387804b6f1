/**
 * `resolve_hostname`: one name lookup, retried up to 100 times.
 *
 * The operating system's `getaddrinfo` is replaced by an oracle: `lookup(h, n)`
 * is what the lookup of name `h` answers on the n-th attempt (attempts are
 * numbered from 1, as tenacity numbers them).
 */
module Resolver {
  import opened Wrappers

  /** `stop_after_attempt(100)`. */
  const MaxAttempts: nat := 100

  /** The address family of a lookup entry: AF_INET or AF_INET6. */
  datatype Family = Inet | Inet6

  /** One entry of a `getaddrinfo` answer: its family and the IP literal of its socket address. */
  datatype AddrInfo = AddrInfo(family: Family, ip: string)

  /** What a single attempt can raise. */
  datatype LookupError =
    | ResolutionFailed(reason: string)  // getaddrinfo raised (unknown host, resolver timeout, ...)
    | NoEntries                         // the answer list was empty, so `[0]` raised IndexError

  /** What one call of `getaddrinfo` does: return a list of entries, or raise. */
  datatype Answer = Entries(entries: seq<AddrInfo>) | Raised(error: LookupError)

  type Lookup = (string, nat) -> Answer

  /** The `(address, family)` pair `resolve_hostname` returns. */
  datatype Resolved = Resolved(ip: string, family: Family)

  /** A warning logged by a failed attempt: the hostname and the error. */
  datatype Warning = Warning(hostname: string, error: LookupError)

  /** The body of the try block: the first entry's address and family, or the exception. */
  function Attempt(answer: Answer): (r: Result<Resolved, LookupError>)
    ensures r.Ok? <==> answer.Entries? && |answer.entries| > 0
    ensures r.Ok? ==> AddrInfo(r.value.family, r.value.ip) == answer.entries[0]
    ensures answer.Raised? ==> r == Err(answer.error)
    ensures answer == Entries([]) ==> r == Err(NoEntries)
  {
    match answer
    case Raised(e) => Err(e)
    case Entries(es) =>
      if es == [] then Err(NoEntries) else Ok(Resolved(es[0].ip, es[0].family))
  }

  predicate Fails(hostname: string, lookup: Lookup, n: nat)
  {
    Attempt(lookup(hostname, n)).Err?
  }

  /**
   * The number of lookups the retry loop entered at attempt `n` makes in all:
   * it stops at the first attempt that succeeds, or at the last one allowed,
   * and every attempt before that one failed.
   */
  ghost function AttemptsFrom(hostname: string, lookup: Lookup, n: nat): (a: nat)
    requires 1 <= n <= MaxAttempts
    ensures n <= a <= MaxAttempts
    ensures !Fails(hostname, lookup, a) || a == MaxAttempts
    ensures forall j :: n <= j < a ==> Fails(hostname, lookup, j)
    decreases MaxAttempts - n
  {
    if !Fails(hostname, lookup, n) || n == MaxAttempts then n else AttemptsFrom(hostname, lookup, n + 1)
  }

  /**
   * The outcome of the retry loop entered at attempt `n`: the outcome of the
   * attempt it stops at, so a failure carries the error of the last attempt,
   * and the loop fails only when every attempt from `n` to the last failed.
   */
  function RetryFrom(hostname: string, lookup: Lookup, n: nat): (r: Result<Resolved, LookupError>)
    requires 1 <= n <= MaxAttempts
    ensures r == Attempt(lookup(hostname, AttemptsFrom(hostname, lookup, n)))
    ensures r.Err? ==> forall j :: n <= j <= MaxAttempts ==> Fails(hostname, lookup, j)
    decreases MaxAttempts - n
  {
    var r := Attempt(lookup(hostname, n));
    if r.Ok? || n == MaxAttempts then r else RetryFrom(hostname, lookup, n + 1)
  }

  /**
   * What `resolve_hostname(hostname)` returns or raises: the outcome of the
   * attempt the retry loop stops at, and a failure only after 100 failed attempts.
   */
  function Resolution(hostname: string, lookup: Lookup): (r: Result<Resolved, LookupError>)
    ensures r == Attempt(lookup(hostname, AttemptsMade(hostname, lookup)))
    ensures r.Err? ==> forall j :: 1 <= j <= MaxAttempts ==> Fails(hostname, lookup, j)
  {
    RetryFrom(hostname, lookup, 1)
  }

  /** How many lookups `resolve_hostname(hostname)` makes: 1 to 100, stopping at the first success. */
  ghost function AttemptsMade(hostname: string, lookup: Lookup): (a: nat)
    ensures 1 <= a <= MaxAttempts
    ensures !Fails(hostname, lookup, a) || a == MaxAttempts
    ensures forall j :: 1 <= j < a ==> Fails(hostname, lookup, j)
  {
    AttemptsFrom(hostname, lookup, 1)
  }

  /** If attempt k is the first to succeed, exactly k attempts are made and the k-th answer is returned. */
  lemma FirstSuccessWins(hostname: string, lookup: Lookup, k: nat)
    requires 1 <= k <= MaxAttempts
    requires !Fails(hostname, lookup, k)
    requires forall j :: 1 <= j < k ==> Fails(hostname, lookup, j)
    ensures Resolution(hostname, lookup) == Attempt(lookup(hostname, k))
    ensures Resolution(hostname, lookup).Ok?
    ensures AttemptsMade(hostname, lookup) == k
  {
  }

  /** If all 100 attempts fail, 100 are made and the error of the last one is raised. */
  lemma AllAttemptsFail(hostname: string, lookup: Lookup)
    requires forall j :: 1 <= j <= MaxAttempts ==> Fails(hostname, lookup, j)
    ensures Resolution(hostname, lookup) == Attempt(lookup(hostname, MaxAttempts))
    ensures Resolution(hostname, lookup).Err?
    ensures AttemptsMade(hostname, lookup) == MaxAttempts
  {
  }

  /** The lookup succeeds exactly when one of the first 100 attempts does. */
  lemma ResolutionSucceedsIff(hostname: string, lookup: Lookup)
    ensures Resolution(hostname, lookup).Ok? <==>
            exists k :: 1 <= k <= MaxAttempts && !Fails(hostname, lookup, k)
  {
  }

  /** Only the answers for `hostname` itself decide the outcome. */
  lemma {:induction false} ResolutionDependsOnlyOnName(hostname: string, lookup1: Lookup, lookup2: Lookup)
    requires forall n :: 1 <= n <= MaxAttempts ==> lookup1(hostname, n) == lookup2(hostname, n)
    ensures Resolution(hostname, lookup1) == Resolution(hostname, lookup2)
    ensures AttemptsMade(hostname, lookup1) == AttemptsMade(hostname, lookup2)
  {
    RetryFromDependsOnlyOnName(hostname, lookup1, lookup2, 1);
  }

  lemma {:induction false} RetryFromDependsOnlyOnName(hostname: string, lookup1: Lookup, lookup2: Lookup, n: nat)
    requires 1 <= n <= MaxAttempts
    requires forall m :: n <= m <= MaxAttempts ==> lookup1(hostname, m) == lookup2(hostname, m)
    ensures RetryFrom(hostname, lookup1, n) == RetryFrom(hostname, lookup2, n)
    ensures AttemptsFrom(hostname, lookup1, n) == AttemptsFrom(hostname, lookup2, n)
    decreases MaxAttempts - n
  {
    assert lookup1(hostname, n) == lookup2(hostname, n);
    if n < MaxAttempts {
      RetryFromDependsOnlyOnName(hostname, lookup1, lookup2, n + 1);
    }
  }

  /** The attempt the retry loop stops at is the first success, or the last attempt. */
  lemma StopsAt(hostname: string, lookup: Lookup, a: nat)
    requires 1 <= a <= MaxAttempts
    requires !Fails(hostname, lookup, a) || a == MaxAttempts
    requires forall j :: 1 <= j < a ==> Fails(hostname, lookup, j)
    ensures AttemptsMade(hostname, lookup) == a
  {
    if !Fails(hostname, lookup, a) {
      FirstSuccessWins(hostname, lookup, a);
    } else {
      AllAttemptsFail(hostname, lookup);
    }
  }

  /**
   * `resolve_hostname(hostname)`: look up, and on failure log a warning, wait
   * and try again, until a lookup succeeds or 100 attempts have failed.
   * The ghost outputs count the attempts, record the warnings and count the waits.
   */
  method ResolveHostname(hostname: string, lookup: Lookup)
    returns (r: Result<Resolved, LookupError>, ghost attempts: nat, ghost warnings: seq<Warning>, ghost waits: nat)
    ensures r == Resolution(hostname, lookup) && attempts == AttemptsMade(hostname, lookup)
    ensures 1 <= attempts <= MaxAttempts
    ensures r == Attempt(lookup(hostname, attempts))
    ensures forall k :: 1 <= k < attempts ==> Fails(hostname, lookup, k)
    ensures r.Err? ==> attempts == MaxAttempts
    ensures |warnings| == (if r.Ok? then attempts - 1 else attempts)
    ensures forall i :: 0 <= i < |warnings| ==>
              Fails(hostname, lookup, i + 1) &&
              warnings[i] == Warning(hostname, Attempt(lookup(hostname, i + 1)).error)
    ensures waits == attempts - 1
  {
    var attempt: nat := 1;
    r := Attempt(lookup(hostname, attempt));
    warnings := if r.Err? then [Warning(hostname, r.error)] else [];
    assert r.Err? ==> Fails(hostname, lookup, 1) && warnings[0] == Warning(hostname, r.error);
    waits := 0;
    while r.Err? && attempt < MaxAttempts
      invariant 1 <= attempt <= MaxAttempts
      invariant r == Attempt(lookup(hostname, attempt))
      invariant forall k :: 1 <= k < attempt ==> Fails(hostname, lookup, k)
      invariant |warnings| == (if r.Ok? then attempt - 1 else attempt)
      invariant forall i :: 0 <= i < |warnings| ==>
                  Fails(hostname, lookup, i + 1) &&
                  warnings[i] == Warning(hostname, Attempt(lookup(hostname, i + 1)).error)
      invariant waits == attempt - 1
      decreases MaxAttempts - attempt
    {
      waits := waits + 1;  // wait_random(min=2, max=5)
      attempt := attempt + 1;
      r := Attempt(lookup(hostname, attempt));
      if r.Err? {
        assert Fails(hostname, lookup, attempt);
        warnings := warnings + [Warning(hostname, r.error)];
      }
    }
    attempts := attempt;
    StopsAt(hostname, lookup, attempts);
  }
}
