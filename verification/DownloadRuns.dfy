/** Whole runs of a download: from the resume scan through any sequence of events. */
module DownloadRuns {
  import opened Bytes
  import opened Torrents
  import opened DownloadState
  import opened RequestCounts
  import opened DownloadInvariant
  import opened BlockInvariant

  // ----- The resume scan

  /** Piece `p` is found good by a scan that stops after `scanned` pieces. */
  ghost predicate FoundGood(cfg: Config, disk: bytes, readable: seq<nat>, scanned: nat, p: nat)
    requires Valid(cfg.torrent) && p < cfg.torrent.NumPieces() <= |readable|
  {
    PieceBounds(cfg.torrent, p);
    p < scanned && Verifies(cfg, disk, p, readable[p])
  }

  ghost function RestoredPiece(t: TorrentInfo, p: nat, good: bool): PieceState
    requires Valid(t) && p < t.NumPieces()
  {
    PieceBounds(t, p);
    var n := Blocks(t, p);
    PieceState(seq(n, _ => false), seq(n, _ => good), n, if good then n else 0)
  }

  ghost function GoodBytes(t: TorrentInfo, good: seq<bool>, n: nat): int
    requires n <= |good|
  {
    if n == 0 then 0 else GoodBytes(t, good, n - 1) + if good[n - 1] then PieceSize(t, n - 1) else 0
  }

  /** The state in which a run starts: the scan has set every piece's flags from the disk. */
  ghost function Restored(cfg: Config, disk: bytes, readable: seq<nat>, scanned: nat): State
    requires Valid(cfg.torrent) && |readable| == cfg.torrent.NumPieces()
  {
    var n := cfg.torrent.NumPieces();
    var good := seq(n, p requires 0 <= p < n => FoundGood(cfg, disk, readable, scanned, p));
    State(map[], seq(n, p requires 0 <= p < n => RestoredPiece(cfg.torrent, p, good[p])), good,
          CountTrue(good), [], GoodBytes(cfg.torrent, good, n), false, disk)
  }

  lemma {:induction false} RestoredBytes(t: TorrentInfo, pieces: seq<PieceState>, good: seq<bool>, n: nat)
    requires Valid(t) && n <= |pieces| == |good| == t.NumPieces()
    requires forall p | 0 <= p < |pieces| :: pieces[p] == RestoredPiece(t, p, good[p])
    ensures ReceivedBytes(t, pieces, n) == GoodBytes(t, good, n)
  {
    if n > 0 {
      RestoredBytes(t, pieces, good, n - 1);
      CountTrueBounds(pieces[n - 1].received);
      PieceBounds(t, n - 1);
      ReceivedPiece(t, n - 1, pieces[n - 1]);
    }
  }

  lemma RestoredInv(cfg: Config, disk: bytes, readable: seq<nat>, scanned: nat)
    requires Valid(cfg.torrent) && |readable| == cfg.torrent.NumPieces() && |disk| == cfg.torrent.Total()
    ensures Inv(cfg, Restored(cfg, disk, readable, scanned))
  {
    var s := Restored(cfg, disk, readable, scanned);
    RestoredBytes(cfg.torrent, s.pieces, s.completed, |s.pieces|);
    forall p | 0 <= p < |s.pieces|
      ensures s.pieces[p].receivedBlocks == CountTrue(s.pieces[p].received)
      ensures s.completed[p] <==> s.pieces[p].receivedBlocks == s.pieces[p].totalBlocks
    {
      PieceBounds(cfg.torrent, p);
      CountTrueBounds(s.pieces[p].received);
    }
    forall p | 0 <= p < |s.completed| && s.completed[p] ensures PieceVerifies(cfg, s.disk, p) {
      assert FoundGood(cfg, disk, readable, scanned, p);
    }
  }

  // ----- Runs

  lemma StepKeeps(cfg: Config, s: State, e: Event)
    requires Inv(cfg, s)
    ensures Inv(cfg, Step(cfg, s, e))
  {
    match e
    case Choked(peer) => ChokedKeeps(cfg, s, peer);
    case BlockArrived(peer, payload, written, readable, broken) =>
      BlockKeeps(cfg, s, peer, payload, written, readable, broken);
    case Requested(peer, p, sends, now) => RequestedKeeps(cfg, s, peer, p, sends, now);
    case CleanedUp(now) => CleanedUpKeeps(cfg, s, Expired(now));
    case EndgameUpdated => EndgameKeeps(cfg, s);
    case _ => PeersKeep(cfg, s, Step(cfg, s, e));
  }

  lemma EndgameKeeps(cfg: Config, s: State)
    requires Inv(cfg, s)
    ensures Inv(cfg, OnEndgameUpdated(cfg, s))
  {
    SameCounters(cfg.torrent, s, OnEndgameUpdated(cfg, s), -1);
  }

  /** The state after the events. */
  ghost function Run(cfg: Config, s: State, es: seq<Event>): (r: State)
    requires Inv(cfg, s)
    ensures Inv(cfg, r)
    decreases |es|
  {
    if es == [] then s
    else
      StepKeeps(cfg, s, es[0]);
      Run(cfg, Step(cfg, s, es[0]), es[1..])
  }

  lemma {:induction false} RunAppend(cfg: Config, s: State, es: seq<Event>, e: Event)
    requires Inv(cfg, s)
    ensures Run(cfg, s, es + [e]) == Step(cfg, Run(cfg, s, es), e)
    decreases |es|
  {
    if es == [] {
      assert (es + [e])[1..] == [];
      StepKeeps(cfg, s, e);
      assert Run(cfg, Step(cfg, s, e), []) == Step(cfg, s, e);
    } else {
      assert (es + [e])[1..] == es[1..] + [e];
      StepKeeps(cfg, s, es[0]);
      RunAppend(cfg, Step(cfg, s, es[0]), es[1..], e);
    }
  }

  lemma {:induction false} RunConcat(cfg: Config, s: State, es: seq<Event>, more: seq<Event>)
    requires Inv(cfg, s)
    ensures Run(cfg, s, es + more) == Run(cfg, Run(cfg, s, es), more)
    decreases |es|
  {
    if es == [] {
      assert es + more == more;
    } else {
      assert (es + more)[1..] == es[1..] + more;
      StepKeeps(cfg, s, es[0]);
      RunConcat(cfg, Step(cfg, s, es[0]), es[1..], more);
    }
  }

  /** A valid torrent whose output files have been laid out, with a read limit for every piece. */
  ghost predicate CanStart(cfg: Config, disk: bytes, readable: seq<nat>) {
    Valid(cfg.torrent) && |readable| == cfg.torrent.NumPieces() && |disk| == cfg.torrent.Total()
  }

  /** The state in which the protocol loop starts. */
  ghost function Start(cfg: Config, disk: bytes, readable: seq<nat>, scanned: nat): (s: State)
    requires CanStart(cfg, disk, readable)
    ensures Inv(cfg, s)
  {
    RestoredInv(cfg, disk, readable, scanned);
    Restored(cfg, disk, readable, scanned)
  }

  /** The state a download reaches from what was on disk, after the events. */
  ghost function Reached(cfg: Config, disk: bytes, readable: seq<nat>, scanned: nat, es: seq<Event>): (s: State)
    requires CanStart(cfg, disk, readable)
    ensures Inv(cfg, s)
  {
    Run(cfg, Start(cfg, disk, readable, scanned), es)
  }

  // ----- What holds in every reachable state

  /** A piece is complete exactly when all its blocks have been received. */
  lemma CompletedIffReceived(cfg: Config, s: State, p: nat)
    requires Inv(cfg, s) && p < cfg.torrent.NumPieces()
    ensures s.completed[p] <==> forall b | 0 <= b < Blocks(cfg.torrent, p) :: s.pieces[p].received[b]
  {
    CountTrueBounds(s.pieces[p].received);
  }

  /** The byte counter stays within the content, and is full exactly when the download is complete. */
  lemma BytesCounted(cfg: Config, s: State)
    requires Inv(cfg, s)
    ensures 0 <= s.downloaded <= cfg.torrent.Total()
    ensures s.completedCount <= cfg.torrent.NumPieces()
    ensures IsComplete(cfg, s) <==> s.downloaded == cfg.torrent.Total()
    ensures IsComplete(cfg, s) <==> forall p | 0 <= p < cfg.torrent.NumPieces() :: s.completed[p]
  {
    ReceivedBytesBounds(cfg.torrent, s, |s.pieces|);
    PiecesSumToTotal(cfg.torrent);
    CountTrueBounds(s.completed);
  }

  /**
    Whatever the peers send, in whatever order, and whatever disk writes and reads fail: a piece
    that is reported complete is on disk and hashes to what the torrent says.
   */
  lemma CompletedPiecesVerify(cfg: Config, disk: bytes, readable: seq<nat>, scanned: nat, es: seq<Event>)
    requires CanStart(cfg, disk, readable)
    ensures var s := Reached(cfg, disk, readable, scanned, es);
            && (forall p: nat | p < cfg.torrent.NumPieces() && s.completed[p] :: HashesAsListed(cfg, s.disk, p))
            && (IsComplete(cfg, s) ==> forall p: nat | p < cfg.torrent.NumPieces() :: HashesAsListed(cfg, s.disk, p))
            && (IsComplete(cfg, s) <==> s.downloaded == cfg.torrent.Total())
            && 0 <= s.downloaded <= cfg.torrent.Total()
  {
    var s := Reached(cfg, disk, readable, scanned, es);
    BytesCounted(cfg, s);
    forall p: nat | p < cfg.torrent.NumPieces() && s.completed[p]
      ensures HashesAsListed(cfg, s.disk, p)
    {
      VerifiesAsListed(cfg, s.disk, p);
    }
  }

  /**
    In every reachable state at most two requests for a block are in flight, no peer has more
    than its share, and a peer that chokes us has none.
   */
  lemma RequestsBounded(cfg: Config, disk: bytes, readable: seq<nat>, scanned: nat, es: seq<Event>)
    requires CanStart(cfg, disk, readable)
    ensures var s := Reached(cfg, disk, readable, scanned, es);
            && (forall p, offset :: Count(s.pending, OfBlock(p, offset)) <= 2)
            && (forall peer :: Count(s.pending, OfPeer(peer)) <= Max(0, cfg.maxRequestsPerPeer))
            && (forall peer | peer in s.peers && s.peers[peer].choking :: Count(s.pending, OfPeer(peer)) == 0)
  {
    var s := Reached(cfg, disk, readable, scanned, es);
    forall p, offset ensures Count(s.pending, OfBlock(p, offset)) <= 2 {
      CopiesBounded(cfg, s, p, offset);
    }
    forall peer | peer in s.peers && s.peers[peer].choking ensures Count(s.pending, OfPeer(peer)) == 0 {
      CountPositive(s.pending, OfPeer(peer));
    }
  }

  lemma CopiesBounded(cfg: Config, s: State, p: nat, offset: nat)
    requires RequestInv(cfg, s)
    ensures Count(s.pending, OfBlock(p, offset)) <= 2
  {
    CountPositive(s.pending, OfBlock(p, offset));
    if Count(s.pending, OfBlock(p, offset)) > 0 {
      var i :| 0 <= i < |s.pending| && OfBlock(p, offset).Hits(s.pending[i]);
      var r := s.pending[i];
      assert r in s.pending && SoundRequest(cfg.torrent, r);
      assert CopiesMatch(s.pending, s.pieces, p, r.Block());
    }
  }

  // ----- No block is stranded

  /** A block that is marked as requested and has not arrived has a request in flight. */
  lemma MarkedIsPending(cfg: Config, s: State, p: nat, b: nat)
    requires RequestInv(cfg, s) && IsBlock(cfg.torrent, p, b)
    requires s.pieces[p].requested[b] && !s.pieces[p].received[b]
    ensures exists r :: r in s.pending && r.piece == p && r.offset == b * BLOCK_SIZE
  {
    assert CopiesMatch(s.pending, s.pieces, p, b);
    CountPositive(s.pending, OfBlock(p, b * BLOCK_SIZE));
    var i :| 0 <= i < |s.pending| && OfBlock(p, b * BLOCK_SIZE).Hits(s.pending[i]);
    assert s.pending[i] in s.pending;
  }

  /** Once every request has timed out, one cleanup frees every missing block to be requested again. */
  lemma CleanupFrees(cfg: Config, s: State, now: int)
    requires Inv(cfg, s) && forall r | r in s.pending :: TimedOut(r, now)
    ensures Inv(cfg, Step(cfg, s, CleanedUp(now)))
    ensures var s' := Step(cfg, s, CleanedUp(now));
            && s'.pending == []
            && forall p: nat, b: nat | IsBlock(cfg.torrent, p, b) && s'.pieces[p].requested[b] ::
                 s'.pieces[p].received[b]
  {
    var s' := Step(cfg, s, CleanedUp(now));
    StepKeeps(cfg, s, CleanedUp(now));
    WithoutAll(s.pending, Expired(now));
    forall p: nat, b: nat | IsBlock(cfg.torrent, p, b) && s'.pieces[p].requested[b] ensures s'.pieces[p].received[b] {
      if !s'.pieces[p].received[b] {
        MarkedIsPending(cfg, s', p, b);
      }
    }
  }

  /** The first block a round wants is asked for, unless the request cannot be sent. */
  lemma {:induction false} FirstWantedIsRequested(
    cfg: Config, s: State, peer: PeerId, p: nat, i: nat, b: nat, current: int, sends: nat, now: int)
    requires Typed(cfg, s) && IsBlock(cfg.torrent, p, b) && i <= b
    requires Wants(s, peer, p, b) && forall c | i <= c < b :: !Wants(s, peer, p, c)
    requires current < cfg.maxRequestsPerPeer && sends > 0
    ensures exists r :: r in RequestFrom(cfg, s, peer, p, i, current, sends, now).pending
                        && r.piece == p && r.offset == b * BLOCK_SIZE && r.peer == peer && r.time == now
    decreases b - i
  {
    if i < b {
      FirstWantedIsRequested(cfg, s, peer, p, i + 1, b, current, sends, now);
    } else {
      var s' := RequestOne(cfg, s, peer, p, b, now);
      RequestFromExtends(cfg, s', peer, p, b + 1, current + 1, sends - 1, now);
      BlockBounds(cfg.torrent, p, b);
      var r := BlockRequest(p, b * BLOCK_SIZE, BlockLength(cfg.torrent, p, b), peer, now);
      assert r == s'.pending[|s.pending|] && r in s'.pending;
    }
  }

  lemma {:induction false} RequestFromExtends(
    cfg: Config, s: State, peer: PeerId, p: nat, b: nat, current: int, sends: nat, now: int)
    requires Typed(cfg, s) && p < cfg.torrent.NumPieces()
    ensures s.pending <= RequestFrom(cfg, s, peer, p, b, current, sends, now).pending
    decreases Blocks(cfg.torrent, p) - b
  {
    if b >= Blocks(cfg.torrent, p) || current >= cfg.maxRequestsPerPeer {
    } else if !Wants(s, peer, p, b) {
      RequestFromExtends(cfg, s, peer, p, b + 1, current, sends, now);
    } else if sends > 0 {
      RequestFromExtends(cfg, RequestOne(cfg, s, peer, p, b, now), peer, p, b + 1, current + 1, sends - 1, now);
    }
  }

  /**
    After a cleanup in which everything timed out, any unchoking peer that has an incomplete
    piece is asked for a block of it in its next round.
   */
  lemma MissingBlockIsRequestedAgain(
    cfg: Config, s: State, now: int, peer: PeerId, p: nat, sends: nat, later: int) returns (b: nat)
    requires Inv(cfg, s) && forall r | r in s.pending :: TimedOut(r, now)
    requires Listening(s, peer) && !s.peers[peer].choking && Needed(s, peer, p)
    requires cfg.maxRequestsPerPeer > 0 && sends > 0
    ensures IsBlock(cfg.torrent, p, b) && !s.pieces[p].received[b]
    ensures Inv(cfg, Step(cfg, s, CleanedUp(now)))
    ensures var s' := Step(cfg, s, CleanedUp(now));
            exists r :: r in Step(cfg, s', Requested(peer, p, sends, later)).pending
                        && r.piece == p && r.offset == b * BLOCK_SIZE && r.peer == peer && r.time == later
  {
    CleanupFrees(cfg, s, now);
    var s' := Step(cfg, s, CleanedUp(now));
    CompletedIffReceived(cfg, s, p);
    b := FirstMissing(s.pieces[p].received);
    FirstWantedIsRequested(cfg, s', peer, p, 0, b, 0, sends, later);
  }

  lemma FirstMissing(received: seq<bool>) returns (b: nat)
    requires exists c :: 0 <= c < |received| && !received[c]
    ensures b < |received| && !received[b] && forall c | 0 <= c < b :: received[c]
  {
    b := 0;
    while received[b]
      invariant b < |received| && forall c | 0 <= c < b :: received[c]
      invariant exists c :: b <= c < |received| && !received[c]
      decreases |received| - b
    {
      b := b + 1;
    }
  }
}
