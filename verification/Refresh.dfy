/** Refreshing one signed URL: eligibility, retries and backoff. */
module Refresh {
  import opened Common

  // -------------------------------------------------------------- eligibility

  predicate SeparatorAt(url: string, i: nat) { i + 3 <= |url| && url[i..i + 3] == "://" }

  /** `url.find("://")`, searching from `i`. */
  function FindSeparator(url: string, i: nat): (r: Option<nat>)
    requires i <= |url|
    ensures r.Some? ==> SeparatorAt(url, r.value)
    decreases |url| - i
  {
    if SeparatorAt(url, i) then Some(i)
    else if i < |url| then FindSeparator(url, i + 1)
    else None
  }

  /** `url_skip_reason`. */
  function SkipReason(url: string): Option<string> {
    match FindSeparator(url, 0)
    case None => Some("missing-scheme")
    case Some(end) =>
      if url[..end] != "http" && url[..end] != "https" then Some("unsupported-scheme")
      else if |url| <= end + 3 then Some("missing-host")
      else None
  }

  /** An address a fetch is attempted for. */
  ghost predicate Eligible(url: string) {
    exists host :: host != [] && (url == "http://" + host || url == "https://" + host)
  }

  lemma {:induction false} FindSeparatorIsFirst(url: string, i: nat, first: nat)
    requires i <= first <= |url| && SeparatorAt(url, first)
    requires forall j :: i <= j < first ==> !SeparatorAt(url, j)
    ensures FindSeparator(url, i) == Some(first)
    decreases first - i
  {
    if i < first {
      FindSeparatorIsFirst(url, i + 1, first);
    }
  }

  lemma SchemeIsFound(scheme: string, host: string)
    requires scheme == "http" || scheme == "https"
    ensures FindSeparator(scheme + "://" + host, 0) == Some(|scheme|)
  {
    var url := scheme + "://" + host;
    assert SeparatorAt(url, |scheme|);
    forall j | 0 <= j < |scheme|
      ensures !SeparatorAt(url, j)
    {
      assert url[j] != ':';
      assert url[j..j + 3][0] == url[j];
    }
    FindSeparatorIsFirst(url, 0, |scheme|);
  }

  lemma EligibleIsFetched(url: string, scheme: string, host: string)
    requires (scheme == "http" || scheme == "https") && host != []
    requires url == scheme + "://" + host
    ensures SkipReason(url) == None
  {
    SchemeIsFound(scheme, host);
    assert url[..|scheme|] == scheme;
    assert |url| > |scheme| + 3;
  }

  lemma FetchedIsEligible(url: string)
    requires SkipReason(url) == None
    ensures Eligible(url)
  {
    var end := FindSeparator(url, 0).value;
    var host := url[end + 3..];
    CutTwice(url, end, end + 3);
    assert url == url[..end] + "://" + host;
    assert "http" + "://" == "http://" && "https" + "://" == "https://";
  }

  lemma CutTwice(s: string, i: nat, j: nat)
    requires i <= j <= |s|
    ensures s == s[..i] + s[i..j] + s[j..]
  {
  }

  /** A URL is fetched exactly when it is `http` or `https` with something after `://`. */
  lemma SkippedIffIneligible(url: string)
    ensures SkipReason(url) == None <==> Eligible(url)
  {
    if SkipReason(url) == None {
      FetchedIsEligible(url);
    }
    forall host | host != [] && url == "http://" + host
      ensures SkipReason(url) == None
    {
      assert url == "http" + "://" + host;
      EligibleIsFetched(url, "http", host);
    }
    forall host | host != [] && url == "https://" + host
      ensures SkipReason(url) == None
    {
      assert url == "https" + "://" + host;
      EligibleIsFetched(url, "https", host);
    }
  }

  ghost predicate NoSeparator(url: string) {
    forall i: nat :: !SeparatorAt(url, i)
  }

  /** The text before the first `://` is something else than `http` and `https`. */
  ghost predicate OtherScheme(url: string) {
    exists end: nat :: FirstSeparator(url, end) && url[..end] != "http" && url[..end] != "https"
  }

  ghost predicate FirstSeparator(url: string, end: nat) {
    end <= |url| && SeparatorAt(url, end) && forall j: nat :: j < end ==> !SeparatorAt(url, j)
  }

  lemma {:induction false} FindSeparatorFails(url: string, i: nat)
    requires i <= |url|
    ensures FindSeparator(url, i).None? <==> forall j: nat :: i <= j ==> !SeparatorAt(url, j)
    ensures FindSeparator(url, i).Some? ==>
      FindSeparator(url, i).value >= i && forall j: nat :: i <= j < FindSeparator(url, i).value ==> !SeparatorAt(url, j)
    decreases |url| - i
  {
    if !SeparatorAt(url, i) && i < |url| {
      FindSeparatorFails(url, i + 1);
    }
  }

  lemma SchemeReasonIff(url: string)
    ensures SkipReason(url) == Some("missing-scheme") <==> NoSeparator(url)
    ensures SkipReason(url) == Some("unsupported-scheme") <==> OtherScheme(url)
  {
    FindSeparatorFails(url, 0);
    if FindSeparator(url, 0).Some? {
      var end := FindSeparator(url, 0).value;
      assert FirstSeparator(url, end);
      forall other: nat | FirstSeparator(url, other)
        ensures other == end
      {
        assert !(other < end) && !(end < other);
      }
    }
  }

  lemma MissingHostIsBare(url: string)
    requires SkipReason(url) == Some("missing-host")
    ensures url == "http://" || url == "https://"
  {
    var end := FindSeparator(url, 0).value;
    CutTwice(url, end, end + 3);
    assert url == url[..end] + "://";
    assert "http" + "://" == "http://" && "https" + "://" == "https://";
  }

  /**
   * Which URLs are skipped for which reason, and that there are no others:
   * those without `://`, those with another scheme, and the bare schemes.
   */
  lemma SkipReasonIff(url: string)
    ensures SkipReason(url) == Some("missing-scheme") <==> NoSeparator(url)
    ensures SkipReason(url) == Some("unsupported-scheme") <==> OtherScheme(url)
    ensures SkipReason(url) == Some("missing-host") <==> url == "http://" || url == "https://"
    ensures SkipReason(url) == None <==> Eligible(url)
    ensures SkipReason(url).Some? ==> SkipReason(url).value in {"missing-scheme", "unsupported-scheme", "missing-host"}
  {
    SkippedIffIneligible(url);
    SchemeReasonIff(url);
    BareSchemes();
    if SkipReason(url) == Some("missing-host") {
      MissingHostIsBare(url);
    }
  }

  lemma BareSchemes()
    ensures SkipReason("http://") == Some("missing-host") && SkipReason("https://") == Some("missing-host")
  {
    SchemeIsFound("http", "");
    SchemeIsFound("https", "");
    assert "http" + "://" + "" == "http://" && "https" + "://" + "" == "https://";
    assert "http://"[..4] == "http" && "https://"[..5] == "https";
  }

  // ------------------------------------------------------------------ retries

  datatype FetchResult = Fetched(expiresAt: nat) | FetchError(reason: string)

  /** What the fetcher answers task `index` on its attempt `attempt` (from 1). */
  type Fetcher = (nat, nat) -> FetchResult

  /** Backoffs are in milliseconds. */
  datatype RetryPolicy = RetryPolicy(maxAttempts: nat, backoffs: seq<nat>)

  const DEFAULT_POLICY := RetryPolicy(3, [100, 500, 2000])

  datatype Status = Refreshed(expiresAt: nat) | Skipped(reason: string) | Failed(attempts: nat, reason: string)

  datatype Outcome = Outcome(url: string, status: Status)

  /** How long `backoff_between` sleeps after attempt `attempt`. */
  function Backoff(policy: RetryPolicy, attempt: nat): nat
    requires attempt >= 1
  {
    if attempt >= policy.maxAttempts || attempt - 1 >= |policy.backoffs| then 0 else policy.backoffs[attempt - 1]
  }

  /** The total of the available backoffs after attempts `1..n`. */
  function SumBackoffs(backoffs: seq<nat>, n: nat): nat {
    if n == 0 then 0
    else SumBackoffs(backoffs, n - 1) + if n <= |backoffs| then backoffs[n - 1] else 0
  }

  ghost predicate FirstSuccess(fetch: Fetcher, index: nat, k: nat, max: nat) {
    1 <= k <= max && fetch(index, k).Fetched? && forall j :: 1 <= j < k ==> fetch(index, j).FetchError?
  }

  ghost predicate NeverSucceeds(fetch: Fetcher, index: nat, max: nat) {
    forall j :: 1 <= j <= max ==> fetch(index, j).FetchError?
  }

  /** The rest of the retry loop from attempt `k` on, after `lastErr`. */
  function Retry(url: string, index: nat, policy: RetryPolicy, fetch: Fetcher, k: nat, lastErr: string): Outcome
    requires 1 <= k <= policy.maxAttempts + 1
    decreases policy.maxAttempts + 1 - k
  {
    if k > policy.maxAttempts then Outcome(url, Failed(policy.maxAttempts, lastErr))
    else
      match fetch(index, k)
      case Fetched(expiry) => Outcome(url, Refreshed(expiry))
      case FetchError(reason) => Retry(url, index, policy, fetch, k + 1, reason)
  }

  /** What refreshing `url` alone reports. */
  function RefreshedAlone(url: string, index: nat, policy: RetryPolicy, fetch: Fetcher): Outcome {
    match SkipReason(url)
    case Some(reason) => Outcome(url, Skipped(reason))
    case None => Retry(url, index, policy, fetch, 1, "")
  }

  /** How many fetcher calls there have been when the loop ends, from attempt `k` on. */
  function RetryCalls(index: nat, policy: RetryPolicy, fetch: Fetcher, k: nat): nat
    requires 1 <= k <= policy.maxAttempts + 1
    decreases policy.maxAttempts + 1 - k
  {
    if k > policy.maxAttempts then policy.maxAttempts
    else if fetch(index, k).Fetched? then k
    else RetryCalls(index, policy, fetch, k + 1)
  }

  function CallsAlone(url: string, index: nat, policy: RetryPolicy, fetch: Fetcher): nat {
    if SkipReason(url).Some? then 0 else RetryCalls(index, policy, fetch, 1)
  }

  /** `refresh_one`, with its fetcher calls and its sleeping time counted. */
  method RefreshOne(url: string, index: nat, policy: RetryPolicy, fetch: Fetcher)
    returns (outcome: Outcome, calls: nat, slept: nat)
    ensures outcome == RefreshedAlone(url, index, policy, fetch) && calls == CallsAlone(url, index, policy, fetch)
    ensures outcome.url == url
    ensures !Eligible(url) ==> outcome.status.Skipped? && calls == 0 && slept == 0
    ensures NoSeparator(url) ==> outcome.status == Skipped("missing-scheme")
    ensures OtherScheme(url) ==> outcome.status == Skipped("unsupported-scheme")
    ensures url == "http://" || url == "https://" ==> outcome.status == Skipped("missing-host")
    ensures forall k: nat :: Eligible(url) && FirstSuccess(fetch, index, k, policy.maxAttempts) ==>
      && outcome.status == Refreshed(fetch(index, k).expiresAt)
      && calls == k && slept == SumBackoffs(policy.backoffs, k - 1)
    ensures Eligible(url) && NeverSucceeds(fetch, index, policy.maxAttempts) ==>
      && outcome.status == Failed(policy.maxAttempts,
                                  if policy.maxAttempts == 0 then "" else fetch(index, policy.maxAttempts).reason)
      && calls == policy.maxAttempts
      && slept == SumBackoffs(policy.backoffs, if calls == 0 then 0 else calls - 1)
  {
    SkipReasonIff(url);
    var skip := SkipReason(url);
    if skip.Some? {
      return Outcome(url, Skipped(skip.value)), 0, 0;
    }
    outcome, calls, slept := RetryFetching(url, index, policy, fetch);
  }

  /** The retry loop of `refresh_one`. */
  method RetryFetching(url: string, index: nat, policy: RetryPolicy, fetch: Fetcher)
    returns (outcome: Outcome, calls: nat, slept: nat)
    ensures outcome == Retry(url, index, policy, fetch, 1, "") && calls == RetryCalls(index, policy, fetch, 1)
    ensures outcome.url == url
    ensures forall k: nat :: FirstSuccess(fetch, index, k, policy.maxAttempts) ==>
      && outcome.status == Refreshed(fetch(index, k).expiresAt)
      && calls == k && slept == SumBackoffs(policy.backoffs, k - 1)
    ensures NeverSucceeds(fetch, index, policy.maxAttempts) ==>
      && outcome.status == Failed(policy.maxAttempts,
                                  if policy.maxAttempts == 0 then "" else fetch(index, policy.maxAttempts).reason)
      && calls == policy.maxAttempts
      && slept == SumBackoffs(policy.backoffs, if calls == 0 then 0 else calls - 1)
  {
    calls, slept := 0, 0;
    var lastErr := "";
    for attempt := 1 to policy.maxAttempts + 1
      invariant calls == attempt - 1
      invariant forall j :: 1 <= j < attempt ==> fetch(index, j).FetchError?
      invariant lastErr == if attempt == 1 then "" else fetch(index, attempt - 1).reason
      invariant slept == SumBackoffs(policy.backoffs, if attempt <= policy.maxAttempts then attempt - 1
                                                      else if calls == 0 then 0 else calls - 1)
      invariant Retry(url, index, policy, fetch, 1, "") == Retry(url, index, policy, fetch, attempt, lastErr)
      invariant RetryCalls(index, policy, fetch, 1) == RetryCalls(index, policy, fetch, attempt)
    {
      calls := calls + 1;
      match fetch(index, attempt) {
        case Fetched(expiry) =>
          return Outcome(url, Refreshed(expiry)), calls, slept;
        case FetchError(reason) =>
          lastErr := reason;
          slept := slept + Backoff(policy, attempt);
      }
    }
    return Outcome(url, Failed(policy.maxAttempts, lastErr)), calls, slept;
  }

  /** With or without a first success, exactly one of the two cases applies. */
  lemma {:induction false} SucceedsOrNever(fetch: Fetcher, index: nat, max: nat)
    ensures NeverSucceeds(fetch, index, max) <==> !exists k: nat :: FirstSuccess(fetch, index, k, max)
  {
    if max > 0 {
      SucceedsOrNever(fetch, index, max - 1);
      if NeverSucceeds(fetch, index, max - 1) && fetch(index, max).Fetched? {
        assert FirstSuccess(fetch, index, max, max);
      }
      if !NeverSucceeds(fetch, index, max - 1) {
        var k: nat :| FirstSuccess(fetch, index, k, max - 1);
        assert FirstSuccess(fetch, index, k, max);
      }
    }
  }

  /** The default policy sleeps 600 ms at most: its 2 s entry is never reached. */
  lemma DefaultPolicySleeps(calls: nat)
    requires 1 <= calls <= DEFAULT_POLICY.maxAttempts
    ensures calls <= 3
    ensures SumBackoffs(DEFAULT_POLICY.backoffs, calls - 1) == if calls == 1 then 0 else if calls == 2 then 100 else 600
  {
    assert SumBackoffs(DEFAULT_POLICY.backoffs, 1) == 100;
    assert SumBackoffs(DEFAULT_POLICY.backoffs, 2) == 600;
  }
}
