/** Over runs: a peer is asked twice for a block exactly when a round repeats a request. */
module RepeatedRuns {
  import opened Bytes
  import opened Torrents
  import opened DownloadState
  import opened RequestCounts
  import opened DownloadInvariant
  import opened DownloadRuns
  import opened RepeatedRequests

  /** No peer has two requests for the same block. */
  ghost predicate NoneTwice(s: State) {
    forall p, offset, x :: Count(s.pending, Copy(p, offset, x)) <= 1
  }

  /** The event is a round that reaches a missing block whose flag is clear and which its peer has been asked for. */
  ghost predicate Repeats(cfg: Config, s: State, e: Event)
    requires Inv(cfg, s)
  {
    e.Requested? && exists b: nat :: RepeatsBlock(cfg, s, e, b)
  }

  ghost predicate RepeatsBlock(cfg: Config, s: State, e: Event, b: nat)
    requires Inv(cfg, s) && e.Requested?
  {
    && IsBlock(cfg.torrent, e.piece, b) && Reaches(cfg, s, e.peer, e.piece, b, e.sends)
    && !s.pieces[e.piece].received[b] && !s.pieces[e.piece].requested[b]
    && Count(s.pending, Copy(e.piece, b * BLOCK_SIZE, e.peer)) > 0
  }

  /** Only rounds of requests add requests. */
  lemma OthersAddNone(cfg: Config, s: State, e: Event, sel: Selector)
    requires Inv(cfg, s) && !e.Requested?
    ensures Count(Step(cfg, s, e).pending, sel) <= Count(s.pending, sel)
  {
    match e
    case Choked(peer) => CountWithout(s.pending, OfPeer(peer), sel);
    case CleanedUp(now) => CountWithout(s.pending, Expired(now), sel);
    case BlockArrived(peer, payload, written, readable, broken) =>
      BlockAddsNone(cfg, s, peer, payload, written, readable, broken, sel);
    case _ =>
  }

  lemma BlockAddsNone(cfg: Config, s: State, peer: PeerId, payload: bytes, written: nat, readable: nat,
                      broken: set<PeerId>, sel: Selector)
    requires Inv(cfg, s)
    ensures Count(OnBlock(cfg, s, peer, payload, written, readable, broken).pending, sel) <= Count(s.pending, sel)
  {
    if Listening(s, peer) && |payload| >= 8 {
      var p, offset, data := BytesToInt(payload), BytesToInt(payload[4..]), payload[8..];
      var k := FindFirst(s.pending, Copy(p, offset, peer));
      if k < |s.pending| {
        var s1, b := s.(pending := RemoveAt(s.pending, k)), offset / BLOCK_SIZE;
        assert s.pending[k] in s.pending;
        CountRemoveAt(s.pending, k, sel);
        if |data| == s.pending[k].length && b < s.pieces[p].totalBlocks && !s.pieces[p].received[b] {
          BlockBounds(cfg.torrent, p, b);
          PieceBounds(cfg.torrent, p);
          var s2 := Receive(cfg, s1, p, b, data, written);
          FinishAddsNone(cfg, s2, p, readable, sel);
          CountWithout(Finish(cfg, s2, p, readable).pending, Duplicate(p, offset, peer), sel);
        }
      }
    }
  }

  lemma FinishAddsNone(cfg: Config, s: State, p: nat, readable: nat, sel: Selector)
    requires p < |s.pieces| == |s.completed| && 0 <= PieceStart(cfg.torrent, p)
    ensures Count(Finish(cfg, s, p, readable).pending, sel) <= Count(s.pending, sel)
  {
    CountWithout(s.pending, OfPiece(p), sel);
  }

  /** From a state without repeated requests, an event leads to one exactly when it repeats a request. */
  lemma TwiceExactlyWhenRepeated(cfg: Config, s: State, e: Event)
    requires Inv(cfg, s) && NoneTwice(s)
    ensures NoneTwice(Step(cfg, s, e)) <==> !Repeats(cfg, s, e)
  {
    StepKeeps(cfg, s, e);
    var s' := Step(cfg, s, e);
    if e.Requested? {
      forall b: nat | RepeatsBlock(cfg, s, e, b)
        ensures !NoneTwice(s')
      {
        RepeatsExactlyWhenFlagClear(cfg, s, e.peer, e.piece, e.sends, e.now, b);
      }
      forall p, offset, x | Count(s'.pending, Copy(p, offset, x)) > 1
        ensures Repeats(cfg, s, e)
      {
        var b := WholeBlock(cfg, s', p, offset, x);
        RoundAsksExactly(cfg, s, e.peer, e.piece, e.sends, e.now, p, b, x);
        RepeatsExactlyWhenFlagClear(cfg, s, e.peer, e.piece, e.sends, e.now, b);
        assert RepeatsBlock(cfg, s, e, b);
      }
    } else {
      forall p, offset, x
        ensures Count(s'.pending, Copy(p, offset, x)) <= 1
      {
        OthersAddNone(cfg, s, e, Copy(p, offset, x));
      }
    }
  }

  /** A pending request is for a whole block. */
  lemma WholeBlock(cfg: Config, s: State, p: nat, offset: nat, x: PeerId) returns (b: nat)
    requires Inv(cfg, s) && Count(s.pending, Copy(p, offset, x)) > 0
    ensures IsBlock(cfg.torrent, p, b) && offset == b * BLOCK_SIZE
  {
    CountPositive(s.pending, Copy(p, offset, x));
    var i :| 0 <= i < |s.pending| && Copy(p, offset, x).Hits(s.pending[i]);
    assert s.pending[i] in s.pending && SoundRequest(cfg.torrent, s.pending[i]);
    b := s.pending[i].Block();
  }

  /** At some point of the run a peer has two requests for a block. */
  ghost predicate EverTwice(cfg: Config, s: State, es: seq<Event>)
    requires Inv(cfg, s)
    decreases |es|
  {
    !NoneTwice(s) || (es != [] && (StepKeeps(cfg, s, es[0]); EverTwice(cfg, Step(cfg, s, es[0]), es[1..])))
  }

  /** Some event of the run repeats a request. */
  ghost predicate EverRepeats(cfg: Config, s: State, es: seq<Event>)
    requires Inv(cfg, s)
    decreases |es|
  {
    es != [] &&
    (Repeats(cfg, s, es[0]) || (StepKeeps(cfg, s, es[0]); EverRepeats(cfg, Step(cfg, s, es[0]), es[1..])))
  }

  lemma {:induction false} RunTwiceExactlyWhenRepeated(cfg: Config, s: State, es: seq<Event>)
    requires Inv(cfg, s) && NoneTwice(s)
    ensures EverTwice(cfg, s, es) <==> EverRepeats(cfg, s, es)
    decreases |es|
  {
    if es != [] {
      StepKeeps(cfg, s, es[0]);
      TwiceExactlyWhenRepeated(cfg, s, es[0]);
      if NoneTwice(Step(cfg, s, es[0])) {
        RunTwiceExactlyWhenRepeated(cfg, Step(cfg, s, es[0]), es[1..]);
      }
    }
  }

  /**
    In every run from the start of a download, some peer at some point has two requests for a block exactly when
    some round reaches a missing block whose flag is clear and which its peer has already been asked for.
   */
  lemma AskedTwiceExactlyWhenRepeated(
    cfg: Config, disk: bytes, readable: seq<nat>, scanned: nat, es: seq<Event>)
    requires CanStart(cfg, disk, readable)
    ensures var s := Start(cfg, disk, readable, scanned); EverTwice(cfg, s, es) <==> EverRepeats(cfg, s, es)
  {
    RunTwiceExactlyWhenRepeated(cfg, Start(cfg, disk, readable, scanned), es);
  }
}
