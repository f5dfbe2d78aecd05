/** What the tracker manager knows of a tracker, in terms of the answers the tracker has given. */
module TrackerHistory {
  import opened Bytes
  import opened Trackers
  import opened TrackerRuns

  /** The answer of `u` to an attempt of this event, if there is one. */
  function Answer(e: Event, u: string): seq<Outcome> {
    if !e.Contacting? || |e.order| != |e.outcomes| then [] else
    var n := Attempts(e.outcomes, e.limit);
    var k := IndexOf(e.order[..n], u);
    if k < n then [e.outcomes[k]] else []
  }

  /** All answers of `u` in a run, in order. */
  function Answers(events: seq<Event>, u: string): seq<Outcome> {
    if events == [] then [] else Answers(events[..|events| - 1], u) + Answer(events[|events| - 1], u)
  }

  /** The last `f` answers are failures, and the one before them, if there is one, is a success. */
  ghost predicate EndsInFailures(answers: seq<Outcome>, f: nat) {
    && f <= |answers| && (forall j | |answers| - f <= j < |answers| :: !answers[j].ok)
    && (f < |answers| ==> answers[|answers| - f - 1].ok)
  }

  /** The state of a tracker after its answers. */
  ghost predicate Recorded(st: TrackerState, answers: seq<Outcome>) {
    var f, n := st.consecutiveFailures, |answers|;
    && EndsInFailures(answers, f)
    && (st.everSucceeded <==> f < n)
    && (if f == n then st.interval == 1800 && st.lastPeerCount == 0
        else
          && st.lastPeerCount == answers[n - f - 1].peers
          && st.interval == (if answers[n - f - 1].interval > 0 then answers[n - f - 1].interval else 1800))
    && st.nextAllowed == (if n == 0 then 0.0
                          else if f == 0 then answers[n - 1].at
                          else answers[n - 1].at + BackoffSeconds(f) as real)
  }

  lemma TriedIsRecorded(st: TrackerState, answers: seq<Outcome>, o: Outcome, now: Time)
    requires Recorded(st, answers)
    ensures Recorded(Tried(st, o, now), answers + [o])
  {
  }

  /** All trackers with this URL are recorded; there are no answers before the tracker is added. */
  ghost predicate InStep(trackers: seq<TrackerState>, u: string, answers: seq<Outcome>) {
    && Unique(Urls(trackers))
    && (u !in Urls(trackers) ==> answers == [])
    && forall i | 0 <= i < |trackers| && trackers[i].url == u :: Recorded(trackers[i], answers)
  }

  lemma AddStaysInStep(w: World, url: string, u: string, answers: seq<Outcome>)
    requires InStep(w.m.trackers, u, answers)
    ensures InStep(Do(w, AddUrl(url), u).m.trackers, u, answers)
  {
    var trackers := w.m.trackers;
    if url != "" && url !in Urls(trackers) {
      assert Urls(trackers + [Fresh(url)]) == Urls(trackers) + [url];
      assert forall i | 0 <= i < |trackers| :: Urls(trackers)[i] == trackers[i].url;
    }
  }

  lemma AttemptIsRecorded(st: TrackerState, tried: seq<string>, outcomes: seq<Outcome>, now: Time,
                          answers: seq<Outcome>)
    requires Recorded(st, answers) && |tried| <= |outcomes|
    ensures var k := IndexOf(tried, st.url);
            Recorded(AfterAttempts(st, tried, outcomes, now), answers + if k < |tried| then [outcomes[k]] else [])
  {
    var k := IndexOf(tried, st.url);
    if k < |tried| {
      TriedIsRecorded(st, answers, outcomes[k], now);
    } else {
      assert answers + [] == answers;
    }
  }

  /** Only a tracker that has been added answers. */
  lemma NoAnswerBefore(w: World, e: Event, u: string)
    requires e.Contacting? && Possible(w, e) && Unique(Urls(w.m.trackers))
    ensures Answer(e, u) != [] ==> u in Urls(w.m.trackers)
  {
    var tried := e.order[..Attempts(e.outcomes, e.limit)];
    var k := IndexOf(tried, u);
    if k < |tried| {
      var i := TriedWasDue(w, e, k);
      assert Urls(w.m.trackers)[i] == w.m.trackers[i].url == tried[k] == u;
    }
  }

  lemma ContactStaysInStep(w: World, e: Event, u: string, answers: seq<Outcome>)
    requires e.Contacting? && Possible(w, e) && InStep(w.m.trackers, u, answers)
    ensures InStep(Do(w, e, u).m.trackers, u, answers + Answer(e, u))
  {
    var tried := e.order[..Attempts(e.outcomes, e.limit)];
    var trackers := w.m.trackers;
    NoAnswerBefore(w, e, u);
    assert answers + [] == answers;
    forall i | 0 <= i < |trackers| && trackers[i].url == u
      ensures Recorded(AfterAttempts(trackers[i], tried, e.outcomes, e.now), answers + Answer(e, u))
    {
      AttemptIsRecorded(trackers[i], tried, e.outcomes, e.now, answers);
    }
  }

  /**
    In every run, what is stored of a tracker follows from its answers: how many failures it ended in, whether it
    ever succeeded, what its last success said, and when it may be tried again.
   */
  lemma {:induction false} EveryTrackerIsRecorded(events: seq<Event>, u: string)
    requires PossibleRun(events, u)
    ensures InStep(Run(events, u).m.trackers, u, Answers(events, u))
    decreases |events|
  {
    if events != [] {
      var front, last := events[..|events| - 1], events[|events| - 1];
      EveryTrackerIsRecorded(front, u);
      var w, answers := Run(front, u), Answers(front, u);
      match last
      case AddUrl(url) =>
        AddStaysInStep(w, url, u, answers);
        assert answers + [] == answers;
      case Contacting(_, _, _, _, _) => ContactStaysInStep(w, last, u, answers);
    }
  }
}
