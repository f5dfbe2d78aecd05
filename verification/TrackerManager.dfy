/** The tracker announce strategy: back-off after failures, the last successful tracker first. */
module Trackers {
  import opened Bytes

  const MAX_BACKOFF_SECONDS: int := 1800
  const BASE_BACKOFF_SECONDS: int := 30
  const DEFAULT_INTERVAL: int := 1800

  /** Times are seconds of a clock that never goes back. */
  type Time = real

  datatype TrackerState = TrackerState(
    url: string,
    consecutiveFailures: nat,
    interval: int,
    lastPeerCount: nat,
    everSucceeded: bool,
    nextAllowed: Time,
    lastAttempt: Time)

  /** A tracker's answer to an announce, and when the announce ended. */
  datatype Outcome = Outcome(ok: bool, interval: int, peers: nat, at: Time)

  datatype Manager = Manager(trackers: seq<TrackerState>, preferred: string)

  function Fresh(url: string): TrackerState {
    TrackerState(url, 0, DEFAULT_INTERVAL, 0, false, 0.0, 0.0)
  }

  function Shl(x: int, n: nat): int {
    if n == 0 then x else 2 * Shl(x, n - 1)
  }

  function BackoffSeconds(consecutiveFailures: nat): (seconds: int)
    ensures 0 < seconds <= MAX_BACKOFF_SECONDS
  {
    assert forall n: nat :: Shl(BASE_BACKOFF_SECONDS, n) > 0 by { ShlPositive(); }
    Min(Shl(BASE_BACKOFF_SECONDS, Min(consecutiveFailures, 12)), MAX_BACKOFF_SECONDS)
  }

  lemma ShlPositive()
    ensures forall n: nat :: Shl(BASE_BACKOFF_SECONDS, n) > 0
  {
    forall n: nat
      ensures Shl(BASE_BACKOFF_SECONDS, n) > 0
    {
      ShlPositiveAt(n);
    }
  }

  lemma ShlPositiveAt(n: nat)
    ensures Shl(BASE_BACKOFF_SECONDS, n) > 0
  {
  }

  function Failed(st: TrackerState, at: Time): TrackerState {
    st.(consecutiveFailures := st.consecutiveFailures + 1,
        nextAllowed := at + BackoffSeconds(st.consecutiveFailures + 1) as real)
  }

  function Succeeded(st: TrackerState, o: Outcome): TrackerState {
    st.(consecutiveFailures := 0, everSucceeded := true,
        interval := if o.interval > 0 then o.interval else DEFAULT_INTERVAL,
        lastPeerCount := o.peers, nextAllowed := o.at)
  }

  /** One attempt, stamped with the start of its contact. */
  function Tried(st: TrackerState, o: Outcome, now: Time): TrackerState {
    var stamped := st.(lastAttempt := now);
    if o.ok then Succeeded(stamped, o) else Failed(stamped, o.at)
  }

  ghost predicate Unique(urls: seq<string>) {
    forall i, j | 0 <= i < j < |urls| :: urls[i] != urls[j]
  }

  function Urls(trackers: seq<TrackerState>): (urls: seq<string>)
    ensures |urls| == |trackers|
  {
    seq(|trackers|, i requires 0 <= i < |trackers| => trackers[i].url)
  }

  /** The trackers whose back-off has passed. */
  function Due(trackers: seq<TrackerState>, now: Time): seq<string> {
    if trackers == [] then []
    else (if now >= trackers[0].nextAllowed then [trackers[0].url] else []) + Due(trackers[1..], now)
  }

  /** Some order of the due trackers in which the preferred one comes first. */
  ghost predicate PriorityOrder(order: seq<string>, trackers: seq<TrackerState>, preferred: string, now: Time) {
    && multiset(order) == multiset(Due(trackers, now))
    && (preferred in order ==> order[0] == preferred)
  }

  /** How many attempts a contact makes: up to the first success, at most `limit`. */
  function Attempts(outcomes: seq<Outcome>, limit: int): (n: nat)
    ensures n <= |outcomes| && n <= Max(limit, 0)
    ensures forall k | 0 <= k < n - 1 :: !outcomes[k].ok
    ensures n < |outcomes| && n < limit ==> n > 0 && outcomes[n - 1].ok
    decreases |outcomes|
  {
    if limit <= 0 || outcomes == [] then 0
    else if outcomes[0].ok then 1
    else
      var more := Attempts(outcomes[1..], limit - 1);
      assert forall k | 0 <= k < more :: outcomes[1..][k] == outcomes[k + 1];
      1 + more
  }

  function IndexOf(urls: seq<string>, url: string): (k: nat)
    ensures k <= |urls| && (k < |urls| ==> urls[k] == url)
    ensures url in urls <==> k < |urls|
  {
    if urls == [] || urls[0] == url then 0 else 1 + IndexOf(urls[1..], url)
  }

  /** A tracker after the attempts on `tried`. */
  function AfterAttempts(st: TrackerState, tried: seq<string>, outcomes: seq<Outcome>, now: Time): (st': TrackerState)
    requires |tried| <= |outcomes|
    ensures st'.url == st.url
  {
    var k := IndexOf(tried, st.url);
    if k < |tried| then Tried(st, outcomes[k], now) else st
  }

  /** All trackers after the attempts on `tried`. */
  function AllAfter(trackers: seq<TrackerState>, tried: seq<string>,
      outcomes: seq<Outcome>, now: Time): (r: seq<TrackerState>)
    requires |tried| <= |outcomes|
    ensures |r| == |trackers| && Urls(r) == Urls(trackers)
  {
    seq(|trackers|, i requires 0 <= i < |trackers| => AfterAttempts(trackers[i], tried, outcomes, now))
  }

  function AfterContact(m: Manager, order: seq<string>, outcomes: seq<Outcome>, limit: int, now: Time): Manager
    requires |order| == |outcomes|
  {
    var n := Attempts(outcomes, limit);
    Manager(AllAfter(m.trackers, order[..n], outcomes, now),
            if n > 0 && outcomes[n - 1].ok then order[n - 1] else m.preferred)
  }

  function Added(trackers: seq<TrackerState>, url: string): seq<TrackerState> {
    if url == "" || url in Urls(trackers) then trackers else trackers + [Fresh(url)]
  }

  // ----- One contact

  lemma UniqueOccursOnce(s: seq<string>)
    ensures Unique(s) <==> forall x :: multiset(s)[x] <= 1
    decreases |s|
  {
    if s != [] {
      var rest := s[1..];
      UniqueOccursOnce(rest);
      assert s == [s[0]] + rest;
      assert multiset(s)[s[0]] == 1 + multiset(rest)[s[0]];
      assert forall x | x != s[0] :: multiset(s)[x] == multiset(rest)[x];
      assert forall i | 0 <= i < |rest| :: rest[i] == s[i + 1];
      if Unique(rest) && s[0] !in rest {
        assert Unique(s);
      }
      if Unique(s) {
        assert s[0] !in rest;
      }
    }
  }

  lemma {:induction false} DueMembers(trackers: seq<TrackerState>, now: Time)
    requires Unique(Urls(trackers))
    ensures Unique(Due(trackers, now))
    ensures forall u :: u in Due(trackers, now) <==>
        exists i :: 0 <= i < |trackers| && trackers[i].url == u && now >= trackers[i].nextAllowed
    decreases |trackers|
  {
    if trackers != [] {
      var rest := trackers[1..];
      assert Urls(rest) == Urls(trackers)[1..];
      DueMembers(rest, now);
      assert forall i | 0 <= i < |rest| :: rest[i] == trackers[i + 1];
      assert forall i | 0 <= i < |rest| :: Urls(trackers)[i + 1] == rest[i].url;
      assert Urls(trackers)[0] == trackers[0].url;
      assert trackers[0].url !in Due(rest, now);
    }
  }

  lemma OrderIsUnique(order: seq<string>, trackers: seq<TrackerState>, preferred: string, now: Time)
    requires Unique(Urls(trackers)) && PriorityOrder(order, trackers, preferred, now)
    ensures Unique(order) && forall u :: u in order <==> u in Due(trackers, now)
  {
    DueMembers(trackers, now);
    UniqueOccursOnce(Due(trackers, now));
    UniqueOccursOnce(order);
    assert forall u :: u in order <==> u in multiset(order);
    assert forall u :: u in Due(trackers, now) <==> u in multiset(Due(trackers, now));
  }

  lemma {:induction false} IndexOfUnique(urls: seq<string>, k: nat)
    requires Unique(urls) && k < |urls|
    ensures IndexOf(urls, urls[k]) == k
  {
    var j := IndexOf(urls, urls[k]);
    assert urls[j] == urls[k];
  }

  /** Without a success so far and below the limit, there is one more attempt, and after a success no more. */
  lemma AttemptsReach(outcomes: seq<Outcome>, limit: int, k: nat)
    requires k < |outcomes| && k < limit && forall j | 0 <= j < k :: !outcomes[j].ok
    ensures Attempts(outcomes, limit) > k && (outcomes[k].ok ==> Attempts(outcomes, limit) == k + 1)
  {
  }

  lemma PrefixIsUnique(order: seq<string>, n: nat)
    requires Unique(order) && n <= |order|
    ensures Unique(order[..n]) && forall u | u in order[..n] :: u in order
  {
  }

  lemma OneMoreAttempt(trackers: seq<TrackerState>, order: seq<string>, outcomes: seq<Outcome>, k: nat, now: Time,
                       trackers': seq<TrackerState>)
    requires Unique(order) && k < |order| == |outcomes| && |trackers'| == |trackers|
    requires var r := AllAfter(trackers, order[..k], outcomes, now);
             forall i | 0 <= i < |trackers| ::
               trackers'[i] == if r[i].url == order[k] then Tried(r[i], outcomes[k], now) else r[i]
    ensures trackers' == AllAfter(trackers, order[..k + 1], outcomes, now)
  {
    forall i | 0 <= i < |trackers|
      ensures trackers'[i] == AfterAttempts(trackers[i], order[..k + 1], outcomes, now)
    {
      AttemptOnOne(trackers[i], order, outcomes, k, now);
    }
  }

  lemma AttemptOnOne(st: TrackerState, order: seq<string>, outcomes: seq<Outcome>, k: nat, now: Time)
    requires Unique(order) && k < |order| == |outcomes|
    ensures var r := AfterAttempts(st, order[..k], outcomes, now);
            && AfterAttempts(st, order[..k + 1], outcomes, now)
               == (if st.url == order[k] then Tried(r, outcomes[k], now) else r)
            && (st.url == order[k] ==> r == st)
  {
    var j := IndexOf(order[..k + 1], st.url);
    if j < k {
      assert order[..k][j] == st.url;
      IndexOfUnique(order[..k], j);
    }
  }

  class TrackerManager {
    var trackers: seq<TrackerState>
    var preferred: string

    ghost predicate Valid()
      reads this
    {
      Unique(Urls(trackers))
    }

    function State(): Manager
      reads this
    {
      Manager(trackers, preferred)
    }

    constructor ()
      ensures Valid() && State() == Manager([], "")
    {
      trackers, preferred := [], "";
    }

    method AddTracker(url: string)
      requires Valid()
      modifies this`trackers
      ensures Valid() && trackers == Added(old(trackers), url)
      ensures Urls(trackers) == old(Urls(trackers)) + if url == "" || url in old(Urls(trackers)) then [] else [url]
    {
      if url == "" {
        return;
      }
      var i := Locate(url);
      if i < |trackers| {
        return;
      }
      trackers := trackers + [Fresh(url)];
      assert Urls(trackers) == old(Urls(trackers)) + [url];
    }

    /** The position of a tracker, or the number of trackers. */
    method Locate(url: string) returns (i: nat)
      requires Valid()
      ensures i <= |trackers| && (i < |trackers| <==> url in Urls(trackers))
      ensures forall j | 0 <= j < |trackers| :: trackers[j].url == url <==> j == i
    {
      i := 0;
      while i < |trackers| && trackers[i].url != url
        invariant i <= |trackers|
        invariant forall j | 0 <= j < i :: trackers[j].url != url
      {
        i := i + 1;
      }
      assert forall j | 0 <= j < |trackers| :: Urls(trackers)[j] == trackers[j].url;
    }

    method DueTrackers(now: Time) returns (due: seq<string>)
      ensures due == Due(trackers, now)
    {
      due := [];
      for i := 0 to |trackers|
        invariant due + Due(trackers[i..], now) == Due(trackers, now)
      {
        assert trackers[i..][1..] == trackers[i + 1..];
        if now >= trackers[i].nextAllowed {
          assert due + ([trackers[i].url] + Due(trackers[i + 1..], now))
               == due + [trackers[i].url] + Due(trackers[i + 1..], now);
          due := due + [trackers[i].url];
        }
      }
      assert trackers[|trackers|..] == [];
    }

    method Stamp(url: string, now: Time)
      requires Valid()
      modifies this`trackers
      ensures Valid() && Urls(trackers) == old(Urls(trackers))
      ensures forall i | 0 <= i < |trackers| ::
                trackers[i] == if old(trackers)[i].url == url then old(trackers)[i].(lastAttempt := now)
                               else old(trackers)[i]
    {
      var i := Locate(url);
      if i < |trackers| {
        trackers := trackers[i := trackers[i].(lastAttempt := now)];
      }
      assert Urls(trackers) == old(Urls(trackers));
    }

    method ReportFailure(url: string, at: Time)
      requires Valid()
      modifies this`trackers
      ensures Valid() && Urls(trackers) == old(Urls(trackers))
      ensures forall i | 0 <= i < |trackers| ::
                trackers[i] == if old(trackers)[i].url == url then Failed(old(trackers)[i], at) else old(trackers)[i]
    {
      var i := Locate(url);
      if i < |trackers| {
        var failures := trackers[i].consecutiveFailures + 1;
        trackers := trackers[i := trackers[i].(consecutiveFailures := failures,
                                               nextAllowed := at + BackoffSeconds(failures) as real)];
      }
      assert Urls(trackers) == old(Urls(trackers));
    }

    method ReportSuccess(url: string, o: Outcome)
      requires Valid()
      modifies this
      ensures Valid() && Urls(trackers) == old(Urls(trackers)) && preferred == url
      ensures forall i | 0 <= i < |trackers| ::
                trackers[i] == if old(trackers)[i].url == url then Succeeded(old(trackers)[i], o) else old(trackers)[i]
    {
      preferred := url;
      var i := Locate(url);
      if i < |trackers| {
        var interval := if o.interval > 0 then o.interval else DEFAULT_INTERVAL;
        trackers := trackers[i := trackers[i].(consecutiveFailures := 0, everSucceeded := true, interval := interval,
                                               lastPeerCount := o.peers, nextAllowed := o.at)];
      }
      assert Urls(trackers) == old(Urls(trackers));
    }

    /** One announce: `o` is what the tracker answers. */
    method Attempt(url: string, o: Outcome, now: Time)
      requires Valid()
      modifies this
      ensures Valid() && Urls(trackers) == old(Urls(trackers))
      ensures preferred == if o.ok then url else old(preferred)
      ensures forall i | 0 <= i < |trackers| ::
                trackers[i] == if old(trackers)[i].url == url then Tried(old(trackers)[i], o, now) else old(trackers)[i]
    {
      Stamp(url, now);
      assert forall i | 0 <= i < |trackers| :: Urls(trackers)[i] == trackers[i].url;
      if o.ok {
        ReportSuccess(url, o);
      } else {
        ReportFailure(url, o.at);
      }
    }

    /** `order` is the order in which the due trackers are tried, and `outcomes[k]` what the `k`-th of them answers. */
    method Contact(order: seq<string>, outcomes: seq<Outcome>, maxAttempts: int, now: Time, ghost due: Time)
      returns (ok: bool, tried: seq<string>)
      requires Valid() && |order| == |outcomes|
      requires PriorityOrder(order, trackers, preferred, due)
      modifies this
      ensures Valid() && Urls(trackers) == old(Urls(trackers))
      ensures State() == old(AfterContact(State(), order, outcomes, maxAttempts, now))
      ensures tried == order[..Attempts(outcomes, maxAttempts)] && |tried| <= Max(maxAttempts, 0)
      ensures Unique(tried) && forall u | u in tried :: u in old(Due(trackers, due))
      ensures ok <==> tried != [] && outcomes[|tried| - 1].ok
    {
      OrderIsUnique(order, trackers, preferred, due);
      PrefixIsUnique(order, Attempts(outcomes, maxAttempts));
      ok, tried := TryInOrder(order, outcomes, maxAttempts, now);
    }

    /** Tries the trackers in order, up to the first success. */
    method TryInOrder(order: seq<string>, outcomes: seq<Outcome>, maxAttempts: int, now: Time)
      returns (ok: bool, tried: seq<string>)
      requires Valid() && |order| == |outcomes| && Unique(order)
      modifies this
      ensures Valid() && State() == old(AfterContact(State(), order, outcomes, maxAttempts, now))
      ensures tried == order[..Attempts(outcomes, maxAttempts)]
      ensures ok <==> tried != [] && outcomes[|tried| - 1].ok
    {
      ghost var before := State();
      ok, tried := false, [];
      for k := 0 to |order|
        invariant tried == order[..k] && k <= Attempts(outcomes, maxAttempts)
        invariant forall j | 0 <= j < k :: !outcomes[j].ok
        invariant Valid() && preferred == before.preferred
        invariant trackers == AllAfter(before.trackers, order[..k], outcomes, now)
      {
        if k >= maxAttempts {
          break;
        }
        tried := tried + [order[k]];
        Attempt(order[k], outcomes[k], now);
        OneMoreAttempt(before.trackers, order, outcomes, k, now, trackers);
        AttemptsReach(outcomes, maxAttempts, k);
        if outcomes[k].ok {
          return true, tried;
        }
      }
    }
  }
}
