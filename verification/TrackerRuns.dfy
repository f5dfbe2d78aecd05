/** Whole runs of the tracker manager: how often a tracker that always fails is tried. */
module TrackerRuns {
  import opened Bytes
  import opened Trackers

  /** A tracker is added, or a contact starts at `now`, finds the due trackers at `due` and tries them in `order`. */
  datatype Event =
    | AddUrl(url: string)
    | Contacting(now: Time, due: Time, order: seq<string>, outcomes: seq<Outcome>, limit: int)

  /** `tries` are the times at which the attempts on one tracker of interest started. */
  datatype World = World(m: Manager, clock: Time, tries: seq<Time>)

  const START := World(Manager([], ""), 0.0, [])

  /** An attempt starts when the one before it has ended. */
  function StartOf(due: Time, outcomes: seq<Outcome>, k: nat): Time
    requires k <= |outcomes|
  {
    if k == 0 then due else outcomes[k - 1].at
  }

  ghost predicate Possible(w: World, e: Event) {
    match e
    case AddUrl(_) => true
    case Contacting(now, due, order, outcomes, _) =>
      && w.clock <= now <= due && |order| == |outcomes|
      && PriorityOrder(order, w.m.trackers, w.m.preferred, due)
      && forall j, k | 0 <= j <= k <= |outcomes| :: StartOf(due, outcomes, j) <= StartOf(due, outcomes, k)
  }

  function Do(w: World, e: Event, u: string): World {
    match e
    case AddUrl(url) => w.(m := w.m.(trackers := Added(w.m.trackers, url)))
    case Contacting(now, due, order, outcomes, limit) =>
      if |order| != |outcomes| then w else
      var n := Attempts(outcomes, limit);
      var k := IndexOf(order[..n], u);
      World(AfterContact(w.m, order, outcomes, limit, now), StartOf(due, outcomes, n),
            if k < n then w.tries + [StartOf(due, outcomes, k)] else w.tries)
  }

  function Run(events: seq<Event>, u: string): World {
    if events == [] then START else Do(Run(events[..|events| - 1], u), events[|events| - 1], u)
  }

  ghost predicate PossibleRun(events: seq<Event>, u: string)
    decreases |events|
  {
    events == [] ||
    (PossibleRun(events[..|events| - 1], u) && Possible(Run(events[..|events| - 1], u), events[|events| - 1]))
  }

  /** No attempt on `u` succeeds. */
  ghost predicate Fails(e: Event, u: string) {
    e.Contacting? && |e.order| == |e.outcomes| ==>
      forall k | 0 <= k < |e.order| && e.order[k] == u :: !e.outcomes[k].ok
  }

  ghost predicate AlwaysFails(events: seq<Event>, u: string)
    decreases |events|
  {
    events == [] || (AlwaysFails(events[..|events| - 1], u) && Fails(events[|events| - 1], u))
  }

  // ----- The schedule of a failing tracker

  /** Least time between the first attempt and the one after `n` failures. */
  function Delay(n: nat): int {
    if n == 0 then 0 else Delay(n - 1) + BackoffSeconds(n)
  }

  /** What is known of the tracker of interest while it always fails. */
  ghost predicate Spaced(w: World, u: string) {
    && Unique(Urls(w.m.trackers))
    && (u !in Urls(w.m.trackers) ==> w.tries == [])
    && (forall i | 0 <= i < |w.m.trackers| && w.m.trackers[i].url == u :: Paced(w.m.trackers[i], w.tries))
    && (forall k | 0 < k < |w.tries| :: w.tries[k] >= w.tries[k - 1] + BackoffSeconds(k) as real)
  }

  ghost predicate Paced(st: TrackerState, tries: seq<Time>) {
    && st.consecutiveFailures == |tries|
    && (tries != [] ==> st.nextAllowed >= tries[|tries| - 1] + BackoffSeconds(|tries|) as real)
  }

  lemma AddKeepsSpacing(w: World, url: string, u: string)
    requires Spaced(w, u)
    ensures Spaced(Do(w, AddUrl(url), u), u)
  {
    var trackers := w.m.trackers;
    if url != "" && url !in Urls(trackers) {
      assert Urls(trackers + [Fresh(url)]) == Urls(trackers) + [url];
      assert forall i | 0 <= i < |trackers| :: Urls(trackers)[i] == trackers[i].url;
    }
  }

  lemma ContactKeepsSpacing(w: World, e: Event, u: string)
    requires e.Contacting? && Spaced(w, u) && Possible(w, e) && Fails(e, u)
    ensures Spaced(Do(w, e, u), u)
  {
    var n := Attempts(e.outcomes, e.limit);
    var tried := e.order[..n];
    var k := IndexOf(tried, u);
    var trackers := w.m.trackers;
    assert forall i | 0 <= i < |trackers| :: Urls(trackers)[i] == trackers[i].url;
    if k < n {
      assert e.order[k] == u;
      var i := TriedWasDue(w, e, k);
      AttemptKeepsPace(trackers[i], w.tries, e.outcomes, k, e.now, e.due);
    }
  }

  /** A contact tries only trackers whose back-off has passed. */
  lemma TriedWasDue(w: World, e: Event, k: nat) returns (i: nat)
    requires e.Contacting? && Possible(w, e) && Unique(Urls(w.m.trackers)) && k < |e.order|
    ensures i < |w.m.trackers| && w.m.trackers[i].url == e.order[k] && e.due >= w.m.trackers[i].nextAllowed
  {
    OrderIsUnique(e.order, w.m.trackers, w.m.preferred, e.due);
    DueMembers(w.m.trackers, e.due);
    assert e.order[k] in e.order;
    i :| 0 <= i < |w.m.trackers| && w.m.trackers[i].url == e.order[k] && e.due >= w.m.trackers[i].nextAllowed;
  }

  /** A failed attempt that was allowed keeps the pace. */
  lemma AttemptKeepsPace(st: TrackerState, tries: seq<Time>, outcomes: seq<Outcome>, k: nat, now: Time, due: Time)
    requires Paced(st, tries) && st.nextAllowed <= due && k < |outcomes| && !outcomes[k].ok
    requires forall i, j | 0 <= i <= j <= |outcomes| :: StartOf(due, outcomes, i) <= StartOf(due, outcomes, j)
    ensures var start := StartOf(due, outcomes, k);
            && Paced(Tried(st, outcomes[k], now), tries + [start])
            && (tries != [] ==> start >= tries[|tries| - 1] + BackoffSeconds(|tries|) as real)
  {
    assert StartOf(due, outcomes, 0) <= StartOf(due, outcomes, k) <= StartOf(due, outcomes, k + 1);
  }

  lemma {:induction false} RunKeepsSpacing(events: seq<Event>, u: string)
    requires PossibleRun(events, u) && AlwaysFails(events, u)
    ensures Spaced(Run(events, u), u)
    decreases |events|
  {
    if events != [] {
      var front, last := events[..|events| - 1], events[|events| - 1];
      RunKeepsSpacing(front, u);
      StepKeepsSpacing(Run(front, u), last, u);
    }
  }

  lemma StepKeepsSpacing(w: World, e: Event, u: string)
    requires Spaced(w, u) && Possible(w, e) && Fails(e, u)
    ensures Spaced(Do(w, e, u), u)
  {
    match e
    case AddUrl(url) => AddKeepsSpacing(w, url, u);
    case Contacting(_, _, _, _, _) => ContactKeepsSpacing(w, e, u);
  }

  lemma {:induction false} TriesAreDelayed(tries: seq<Time>, k: nat)
    requires forall i | 0 < i < |tries| :: tries[i] >= tries[i - 1] + BackoffSeconds(i) as real
    requires k < |tries|
    ensures tries[k] >= tries[0] + Delay(k) as real
    decreases k
  {
    if k > 0 {
      TriesAreDelayed(tries, k - 1);
    }
  }

  /** The delays in seconds: 60 after the first failure, doubling up to 960, then half an hour. */
  lemma BackoffTable(n: nat)
    ensures BackoffSeconds(0) == 30 && BackoffSeconds(1) == 60 && BackoffSeconds(2) == 120
    ensures BackoffSeconds(3) == 240 && BackoffSeconds(4) == 480 && BackoffSeconds(5) == 960
    ensures n >= 6 ==> BackoffSeconds(n) == 1800
  {
    assert Shl(30, 2) == 120 && Shl(30, 4) == 480;
    if n >= 6 {
      ShlGrows(6, Min(n, 12));
      assert Shl(30, 6) == 4 * Shl(30, 4);
    }
  }

  lemma {:induction false} ShlGrows(a: nat, b: nat)
    requires a <= b
    ensures Shl(30, a) <= Shl(30, b)
    decreases b
  {
    if a < b {
      ShlGrows(a, b - 1);
      ShlPositiveAt(b - 1);
    }
  }

  lemma {:induction false} DelayTable(k: nat)
    ensures Delay(0) == 0 && Delay(1) == 60 && Delay(2) == 180 && Delay(3) == 420 && Delay(4) == 900
    ensures k >= 5 ==> Delay(k) == 1860 + 1800 * (k - 5)
    decreases k
  {
    BackoffTable(k);
    assert Delay(2) == 180 && Delay(4) == 900;
    if k > 5 {
      DelayTable(k - 1);
    }
  }

  /** How many of the tries were made no later than `until`. */
  function CountUntil(tries: seq<Time>, until: Time): nat {
    if tries == [] then 0
    else CountUntil(tries[..|tries| - 1], until) + if tries[|tries| - 1] <= until then 1 else 0
  }

  lemma {:induction false} CountAtMost(tries: seq<Time>, until: Time, bound: nat)
    requires forall k | bound <= k < |tries| :: tries[k] > until
    ensures CountUntil(tries, until) <= bound
    decreases |tries|
  {
    if tries != [] {
      var front := tries[..|tries| - 1];
      CountAtMost(front, until, if bound < |tries| then bound else |tries| - 1);
    }
  }

  /** A tracker that always fails is tried at most 5 times, and once more per half hour from its first try. */
  lemma FailingTrackerIsSpared(events: seq<Event>, u: string, t: Time)
    requires PossibleRun(events, u) && AlwaysFails(events, u) && t >= 0.0
    ensures var tries := Run(events, u).tries;
            tries != [] ==> CountUntil(tries, tries[0] + t) <= 5 + (t / 1800.0).Floor
  {
    RunKeepsSpacing(events, u);
    SpacedTriesAreFew(Run(events, u), u, t);
  }

  lemma SpacedTriesAreFew(w: World, u: string, t: Time)
    requires Spaced(w, u) && t >= 0.0
    ensures w.tries != [] ==> CountUntil(w.tries, w.tries[0] + t) <= 5 + (t / 1800.0).Floor
  {
    var bound := 5 + (t / 1800.0).Floor;
    if w.tries != [] {
      forall k: nat | bound <= k < |w.tries|
        ensures w.tries[k] > w.tries[0] + t
      {
        TriesAreDelayed(w.tries, k);
        LateTry(k, t);
      }
      CountAtMost(w.tries, w.tries[0] + t, bound);
    }
  }

  lemma LateTry(k: nat, t: Time)
    requires t >= 0.0 && k >= 5 + (t / 1800.0).Floor
    ensures Delay(k) as real > t
  {
    DelayTable(k);
    var halfHours := (t / 1800.0).Floor;
    assert t / 1800.0 < halfHours as real + 1.0;
    assert t < (halfHours as real + 1.0) * 1800.0;
  }

  // ----- The bound is attained

  function Attempt(n: nat): Event {
    var at := Delay(n) as real;
    Contacting(at, at, ["u"], [Outcome(false, 0, 0, at)], 3)
  }

  /** A single tracker that is contacted whenever it is due and fails at once, `n` times. */
  function FailRun(n: nat): (events: seq<Event>)
    ensures |events| == n + 1
  {
    if n == 0 then [AddUrl("u")] else FailRun(n - 1) + [Attempt(n - 1)]
  }

  ghost predicate Waiting(w: World, n: nat) {
    && |w.m.trackers| == 1
    && w.m.trackers[0].url == "u" && w.m.trackers[0].consecutiveFailures == n
    && w.m.trackers[0].nextAllowed == Delay(n) as real
    && w.clock <= Delay(n) as real
    && |w.tries| == n && forall k: nat | k < n :: w.tries[k] == Delay(k) as real
  }

  lemma WaitingMoves(w: World, n: nat)
    requires Waiting(w, n)
    ensures Possible(w, Attempt(n)) && Waiting(Do(w, Attempt(n), "u"), n + 1)
  {
    var e := Attempt(n);
    var trackers := w.m.trackers;
    assert trackers[1..] == [] && Due(trackers, e.due) == ["u"] + Due([], e.due);
    assert e.order[..1] == e.order;
    assert IndexOf(["u"], "u") == 0;
    assert Attempts(e.outcomes, 3) == 1 + Attempts(e.outcomes[1..], 2);
  }

  lemma {:induction false} FailRunWaits(n: nat)
    ensures PossibleRun(FailRun(n), "u") && AlwaysFails(FailRun(n), "u") && Waiting(Run(FailRun(n), "u"), n)
    decreases n
  {
    if n == 0 {
      FirstWaits();
    } else {
      FailRunWaits(n - 1);
      FailsOnceMore(FailRun(n - 1), n - 1);
    }
  }

  lemma FailsOnceMore(front: seq<Event>, n: nat)
    requires PossibleRun(front, "u") && AlwaysFails(front, "u") && Waiting(Run(front, "u"), n)
    ensures var events := front + [Attempt(n)];
            PossibleRun(events, "u") && AlwaysFails(events, "u") && Waiting(Run(events, "u"), n + 1)
  {
    WaitingMoves(Run(front, "u"), n);
    OneMoreEvent(front, Attempt(n));
  }

  lemma FirstWaits()
    ensures PossibleRun([AddUrl("u")], "u") && AlwaysFails([AddUrl("u")], "u")
    ensures Waiting(Run([AddUrl("u")], "u"), 0)
  {
    assert [AddUrl("u")][..0] == [];
    assert Added([], "u") == [Fresh("u")];
  }

  lemma OneMoreEvent(front: seq<Event>, e: Event)
    requires PossibleRun(front, "u") && AlwaysFails(front, "u") && Possible(Run(front, "u"), e) && Fails(e, "u")
    ensures PossibleRun(front + [e], "u") && AlwaysFails(front + [e], "u")
    ensures Run(front + [e], "u") == Do(Run(front, "u"), e, "u")
  {
    var events := front + [e];
    assert events[..|front|] == front;
    assert forall i | 0 <= i < |front| :: events[..i] == front[..i] && events[i] == front[i];
  }

  lemma {:induction false} CountAll(tries: seq<Time>, until: Time)
    requires forall k | 0 <= k < |tries| :: tries[k] <= until
    ensures CountUntil(tries, until) == |tries|
    decreases |tries|
  {
    if tries != [] {
      CountAll(tries[..|tries| - 1], until);
    }
  }

  lemma {:induction false} DelayGrows(a: nat, b: nat)
    requires a <= b
    ensures Delay(a) <= Delay(b)
    decreases b
  {
    if a < b {
      DelayGrows(a, b - 1);
    }
  }

  /** In the run `u` always fails, and is tried within `t` seconds as often as the bound allows, `count` times. */
  ghost predicate Attains(events: seq<Event>, u: string, t: Time, count: int) {
    && PossibleRun(events, u) && AlwaysFails(events, u) && count == 5 + (t / 1800.0).Floor
    && var tries := Run(events, u).tries;
       tries != [] && CountUntil(tries, tries[0] + t) == count
  }

  /** For every number of half hours there is a run that makes as many attempts as the bound allows. */
  lemma BoundIsAttained(halfHours: nat)
    ensures Attains(FailRun(5 + halfHours), "u", Delay(4 + halfHours) as real, 5 + halfHours)
  {
    FailRunWaits(5 + halfHours);
    AttainedBy(FailRun(5 + halfHours), halfHours);
  }

  lemma AttainedBy(events: seq<Event>, halfHours: nat)
    requires PossibleRun(events, "u") && AlwaysFails(events, "u") && Waiting(Run(events, "u"), 5 + halfHours)
    ensures Attains(events, "u", Delay(4 + halfHours) as real, 5 + halfHours)
  {
    CountsAttained(Run(events, "u"), halfHours);
  }

  lemma CountsAttained(w: World, halfHours: nat)
    requires Waiting(w, 5 + halfHours)
    ensures (Delay(4 + halfHours) as real / 1800.0).Floor == halfHours
    ensures w.tries != [] && CountUntil(w.tries, w.tries[0] + Delay(4 + halfHours) as real) == 5 + halfHours
  {
    HalfHoursOf(halfHours);
    AllCounted(w, 5 + halfHours);
  }

  lemma HalfHoursOf(halfHours: nat)
    ensures (Delay(4 + halfHours) as real / 1800.0).Floor == halfHours
  {
    DelayTable(4 + halfHours);
    var t := Delay(4 + halfHours) as real;
    if halfHours == 0 {
      assert t == 900.0;
    } else {
      assert t == 60.0 + 1800.0 * halfHours as real;
      assert t / 1800.0 == halfHours as real + 60.0 / 1800.0;
    }
  }

  lemma AllCounted(w: World, n: nat)
    requires Waiting(w, n) && n > 0
    ensures w.tries != [] && CountUntil(w.tries, w.tries[0] + Delay(n - 1) as real) == n
  {
    forall k: nat | k < n
      ensures w.tries[k] <= w.tries[0] + Delay(n - 1) as real
    {
      DelayGrows(k, n - 1);
    }
    CountAll(w.tries, w.tries[0] + Delay(n - 1) as real);
  }

  // ----- Every tracker comes back

  /** No back-off lasts longer than half an hour. */
  ghost predicate Returning(w: World) {
    w.clock >= 0.0 && forall st | st in w.m.trackers :: st.nextAllowed <= w.clock + MAX_BACKOFF_SECONDS as real
  }

  lemma {:induction false} EveryTrackerReturns(events: seq<Event>, u: string)
    requires PossibleRun(events, u)
    ensures Returning(Run(events, u))
    decreases |events|
  {
    if events != [] {
      var front, last := events[..|events| - 1], events[|events| - 1];
      EveryTrackerReturns(front, u);
      StepKeepsReturning(Run(front, u), last, u);
    }
  }

  lemma StepKeepsReturning(w: World, e: Event, u: string)
    requires Returning(w) && Possible(w, e)
    ensures Returning(Do(w, e, u))
  {
    if e.Contacting? {
      ContactKeepsReturning(w, e, u);
    }
  }

  lemma ContactKeepsReturning(w: World, e: Event, u: string)
    requires e.Contacting? && Returning(w) && Possible(w, e)
    ensures Returning(Do(w, e, u))
  {
    var n := Attempts(e.outcomes, e.limit);
    assert StartOf(e.due, e.outcomes, 0) <= StartOf(e.due, e.outcomes, n);
    forall st | st in w.m.trackers
      ensures AfterAttempts(st, e.order[..n], e.outcomes, e.now).nextAllowed
           <= StartOf(e.due, e.outcomes, n) + MAX_BACKOFF_SECONDS as real
    {
      var k := IndexOf(e.order[..n], st.url);
      if k < n {
        assert StartOf(e.due, e.outcomes, k + 1) <= StartOf(e.due, e.outcomes, n);
      }
    }
  }

  /** The tracker is the preferred one and is due at any time from `at` on. */
  ghost predicate Favoured(m: Manager, u: string, at: Time) {
    && m.preferred == u && Unique(Urls(m.trackers))
    && exists i :: 0 <= i < |m.trackers| && m.trackers[i].url == u && m.trackers[i].nextAllowed <= at
  }

  /** A contact that ends with a success leaves that tracker favoured. */
  lemma SuccessFavours(w: World, e: Event, u: string)
    requires e.Contacting? && Possible(w, e) && Unique(Urls(w.m.trackers))
    requires var n := Attempts(e.outcomes, e.limit); n > 0 && e.outcomes[n - 1].ok && e.order[n - 1] == u
    ensures Favoured(Do(w, e, u).m, u, Do(w, e, u).clock)
  {
    var w' := Do(w, e, u);
    var n := Attempts(e.outcomes, e.limit);
    var tried := e.order[..n];
    var i := TriedWasDue(w, e, n - 1);
    OrderIsUnique(e.order, w.m.trackers, w.m.preferred, e.due);
    assert tried[n - 1] == u;
    IndexOfUnique(tried, n - 1);
    assert w'.m.trackers[i].url == u && w'.m.trackers[i].nextAllowed == e.outcomes[n - 1].at;
  }

  lemma AddKeepsFavour(m: Manager, url: string, u: string, at: Time)
    requires Favoured(m, u, at)
    ensures Favoured(m.(trackers := Added(m.trackers, url)), u, at)
  {
    var i :| 0 <= i < |m.trackers| && m.trackers[i].url == u && m.trackers[i].nextAllowed <= at;
    var trackers := Added(m.trackers, url);
    assert trackers[i] == m.trackers[i];
    if trackers != m.trackers {
      assert Urls(trackers) == Urls(m.trackers) + [url];
    }
  }

  function AddedAll(m: Manager, urls: seq<string>): Manager {
    if urls == [] then m
    else var before := AddedAll(m, urls[..|urls| - 1]); before.(trackers := Added(before.trackers, urls[|urls| - 1]))
  }

  lemma {:induction false} AddsKeepFavour(m: Manager, urls: seq<string>, u: string, at: Time)
    requires Favoured(m, u, at)
    ensures Favoured(AddedAll(m, urls), u, at)
    decreases |urls|
  {
    if urls != [] {
      AddsKeepFavour(m, urls[..|urls| - 1], u, at);
      AddKeepsFavour(AddedAll(m, urls[..|urls| - 1]), urls[|urls| - 1], u, at);
    }
  }

  lemma FavouredIsFirst(m: Manager, u: string, at: Time, later: Time, order: seq<string>)
    requires Favoured(m, u, at) && later >= at && PriorityOrder(order, m.trackers, m.preferred, later)
    ensures order != [] && order[0] == u
  {
    DueMembers(m.trackers, later);
    OrderIsUnique(order, m.trackers, m.preferred, later);
  }

  /**
    After a success and any trackers added since, whenever trackers are contacted next, the one that succeeded is
    due and comes first.
   */
  lemma SuccessIsTriedFirst(w: World, e: Event, u: string, urls: seq<string>, later: Time, order: seq<string>)
    requires e.Contacting? && Possible(w, e) && Unique(Urls(w.m.trackers))
    requires var n := Attempts(e.outcomes, e.limit); n > 0 && e.outcomes[n - 1].ok && e.order[n - 1] == u
    requires later >= Do(w, e, u).clock
    requires var m := AddedAll(Do(w, e, u).m, urls); PriorityOrder(order, m.trackers, m.preferred, later)
    ensures order != [] && order[0] == u
  {
    SuccessFavours(w, e, u);
    AddsKeepFavour(Do(w, e, u).m, urls, u, Do(w, e, u).clock);
    FavouredIsFirst(AddedAll(Do(w, e, u).m, urls), u, Do(w, e, u).clock, later, order);
  }
}
