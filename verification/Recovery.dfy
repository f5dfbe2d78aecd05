/** Whatever has happened to a download, one honest peer and a working disk can complete it. */
module Recovery {
  import opened Bytes
  import opened Torrents
  import opened DownloadState
  import opened RequestCounts
  import opened DownloadInvariant
  import opened DownloadRuns
  import opened DownloadProgress
  import RepeatedRuns

  /** Piece numbers and offsets fit the 32 bits that a message has for them. */
  ghost predicate Addressable(t: TorrentInfo) {
    forall p: nat, b: nat | IsBlock(t, p, b) :: p < 0x1_0000_0000 && b * BLOCK_SIZE < 0x1_0000_0000
  }

  /** Messages can name every block, and requests may be made if there is anything to ask for. */
  ghost predicate Completable(cfg: Config) {
    Addressable(cfg.torrent) && (cfg.torrent.NumPieces() == 0 || cfg.maxRequestsPerPeer > 0)
  }

  /** The message with the true bytes of a block. */
  ghost function Payload(t: TorrentInfo, truth: bytes, p: nat, b: nat): bytes
    requires Valid(t) && Addressable(t) && IsBlock(t, p, b)
  {
    IntToBytes(p) + IntToBytes(b * BLOCK_SIZE) + BlockBytes(t, truth, p, b)
  }

  /** What the honest peer, the clock and a working disk bring about. */
  ghost predicate Helps(cfg: Config, truth: bytes, x: PeerId, e: Event)
    requires Valid(cfg.torrent) && Addressable(cfg.torrent)
  {
    match e
    case Connected(peer) => peer == x
    case Unchoked(peer) => peer == x
    case Announced(peer, has) => peer == x && has == seq(cfg.torrent.NumPieces(), _ => true)
    case Requested(peer, _, _, _) => peer == x
    case CleanedUp(_) => true
    case BlockArrived(peer, payload, written, readable, broken) =>
      && peer == x && written >= |payload| && readable >= cfg.torrent.Total() && broken == {}
      && exists p: nat, b: nat :: IsBlock(cfg.torrent, p, b) && payload == Payload(cfg.torrent, truth, p, b)
    case _ => false
  }

  /** The peer has everything and does not choke us, and all requests in flight are its own. */
  ghost predicate Served(cfg: Config, s: State, x: PeerId) {
    && Inv(cfg, s)
    && Listening(s, x) && !s.peers[x].choking
    && (forall p | 0 <= p < cfg.torrent.NumPieces() :: s.peers[x].HasPiece(p))
    && forall r | r in s.pending :: r.peer == x
  }

  // ----- What is left to do

  /** An incomplete piece with a received block that is not the true one. */
  ghost predicate Tainted(cfg: Config, truth: bytes, s: State, p: nat)
    requires Typed(cfg, s)
  {
    && p < |s.completed| && !s.completed[p]
    && exists b: nat :: IsBlock(cfg.torrent, p, b) && s.pieces[p].received[b]
                        && !SameBlock(cfg.torrent, truth, s.disk, p, b)
  }

  ghost function CountTainted(cfg: Config, truth: bytes, s: State, n: nat): nat
    requires Typed(cfg, s)
  {
    if n == 0 then 0 else CountTainted(cfg, truth, s, n - 1) + if Tainted(cfg, truth, s, n - 1) then 1 else 0
  }

  ghost function TaintedPieces(cfg: Config, truth: bytes, s: State): nat
    requires Typed(cfg, s)
  {
    CountTainted(cfg, truth, s, cfg.torrent.NumPieces())
  }

  lemma {:induction false} TaintedFewer(cfg: Config, truth: bytes, s: State, s': State, p: nat, n: nat)
    requires Typed(cfg, s) && Typed(cfg, s')
    requires forall q: nat | q != p :: Tainted(cfg, truth, s', q) ==> Tainted(cfg, truth, s, q)
    requires Tainted(cfg, truth, s', p) ==> Tainted(cfg, truth, s, p)
    ensures CountTainted(cfg, truth, s', n) <= CountTainted(cfg, truth, s, n)
    ensures p < n && Tainted(cfg, truth, s, p) && !Tainted(cfg, truth, s', p) ==>
              CountTainted(cfg, truth, s', n) < CountTainted(cfg, truth, s, n)
  {
    if n > 0 {
      TaintedFewer(cfg, truth, s, s', p, n - 1);
    }
  }

  ghost function ToCome(cfg: Config, s: State): nat
    requires Inv(cfg, s)
  {
    MissingBounds(cfg, s, |s.pieces|);
    Missing(s)
  }

  // ----- A true block arrives

  ghost function Answer(cfg: Config, truth: bytes, r: BlockRequest): Event
    requires Valid(cfg.torrent) && Addressable(cfg.torrent) && SoundRequest(cfg.torrent, r)
  {
    var payload := Payload(cfg.torrent, truth, r.piece, r.Block());
    BlockArrived(r.peer, payload, |payload|, NatTotal(cfg.torrent), {})
  }

  ghost function NatTotal(t: TorrentInfo): (total: nat)
    requires Valid(t)
    ensures total == t.Total()
  {
    TotalNonNegative(t);
    t.Total()
  }

  lemma PayloadParts(t: TorrentInfo, truth: bytes, p: nat, b: nat)
    requires Valid(t) && Addressable(t) && IsBlock(t, p, b) && |truth| == t.Total()
    ensures var payload := Payload(t, truth, p, b);
            && |payload| >= 8 && BytesToInt(payload) == p && BytesToInt(payload[4..]) == b * BLOCK_SIZE
            && payload[8..] == BlockBytes(t, truth, p, b) && |payload[8..]| == BlockLength(t, p, b)
  {
    var payload := Payload(t, truth, p, b);
    IntRoundTrip(p);
    IntRoundTrip(b * BLOCK_SIZE);
    BlockBounds(t, p, b);
    PieceBounds(t, p);
    assert payload[..4] == IntToBytes(p) && payload[4..][..4] == IntToBytes(b * BLOCK_SIZE);
    assert payload[8..] == BlockBytes(t, truth, p, b);
  }

  /** The answer to the first request in flight is accepted, or the block was there before. */
  lemma AnswerArrives(cfg: Config, truth: bytes, s: State, x: PeerId)
    requires Served(cfg, s, x) && Addressable(cfg.torrent) && |truth| == cfg.torrent.Total()
    requires s.pending != [] && s.pending[0] in s.pending
    ensures SoundRequest(cfg.torrent, s.pending[0])
    ensures var r, e := s.pending[0], Answer(cfg, truth, s.pending[0]);
            && FindFirst(s.pending, Copy(r.piece, r.offset, r.peer)) == 0
            && Accepted(cfg, s, e) == if s.pieces[r.piece].received[r.Block()] then None
                 else Some(Arrival(r.piece, r.Block(), BlockBytes(cfg.torrent, truth, r.piece, r.Block())))
  {
    var r := s.pending[0];
    assert SoundRequest(cfg.torrent, r);
    PayloadParts(cfg.torrent, truth, r.piece, r.Block());
    assert r.peer == x && Copy(r.piece, r.offset, r.peer).Hits(s.pending[0]);
  }

  /** The event delivers the true bytes of a new block, and the disk takes them and can be read. */
  ghost predicate DeliversTruth(cfg: Config, truth: bytes, s: State, e: Event)
    requires Inv(cfg, s)
  {
    && Accepted(cfg, s, e).Some?
    && var Arrival(p, b, data) := Accepted(cfg, s, e).value;
       && IsBlock(cfg.torrent, p, b) && data == BlockBytes(cfg.torrent, truth, p, b)
       && e.written >= |data| && e.readable >= PieceSize(cfg.torrent, p)
  }

  /** Receiving a true block taints no piece. */
  lemma ReceiveTaintsNone(cfg: Config, truth: bytes, s: State, s2: State, e: Event)
    requires Inv(cfg, s) && DeliversTruth(cfg, truth, s, e) && s2 == AfterReceive(cfg, s, e) && Typed(cfg, s2)
    requires |truth| == cfg.torrent.Total()
    ensures forall q: nat :: Tainted(cfg, truth, s2, q) ==> Tainted(cfg, truth, s, q)
  {
    var Arrival(p, b, data) := Accepted(cfg, s, e).value;
    var _ := AcceptedStep(cfg, s, e);
    ReceiveShows(cfg, s, s2, e);
    forall q: nat, c: nat | IsBlock(cfg.torrent, q, c) && s2.pieces[q].received[c]
                            && !SameBlock(cfg.torrent, truth, s2.disk, q, c)
      ensures s.pieces[q].received[c] && !SameBlock(cfg.torrent, truth, s.disk, q, c)
    {
      WrittenBlock(cfg.torrent, s.disk, p, b, data, e.written, q, c);
    }
  }

  /** A piece received in full and not tainted hashes right. */
  lemma UntaintedVerifies(cfg: Config, truth: bytes, s: State, p: nat, readable: nat)
    requires Typed(cfg, s) && TrueContent(cfg, truth) && p < |s.pieces| && !s.completed[p]
    requires s.pieces[p].receivedBlocks == CountTrue(s.pieces[p].received) >= s.pieces[p].totalBlocks
    requires readable >= PieceSize(cfg.torrent, p) && 0 <= PieceStart(cfg.torrent, p)
    requires !Tainted(cfg, truth, s, p)
    ensures Verifies(cfg, s.disk, p, readable)
  {
    CountTrueBounds(s.pieces[p].received);
    forall b: nat | b < Blocks(cfg.torrent, p)
      ensures SameBlock(cfg.torrent, truth, s.disk, p, b)
    {
      assert IsBlock(cfg.torrent, p, b) && s.pieces[p].received[b];
    }
    BlocksMakePiece(cfg.torrent, truth, s.disk, p);
    assert PieceVerifies(cfg, truth, p);
  }

  lemma SameTaint(cfg: Config, truth: bytes, s: State, s': State, q: nat)
    requires Typed(cfg, s) && Typed(cfg, s') && s'.disk == s.disk && q < |s.completed| == |s'.completed|
    requires s'.completed[q] == s.completed[q] && s'.pieces[q].received == s.pieces[q].received
    ensures Tainted(cfg, truth, s', q) <==> Tainted(cfg, truth, s, q)
  {
  }

  /** What the hash check makes of the pieces: nothing else than completing piece `p` or starting it again. */
  lemma FinishTaintsNone(cfg: Config, truth: bytes, s: State, s': State, p: nat, readable: nat)
    requires InvOpen(cfg, s, p) && Inv(cfg, s') && TrueContent(cfg, truth) && p < |s.pieces| && !s.completed[p]
    requires readable >= PieceSize(cfg.torrent, p) && 0 <= PieceStart(cfg.torrent, p)
    requires SameContent(Finish(cfg, s, p, readable), s')
    ensures forall q: nat :: Tainted(cfg, truth, s', q) ==> Tainted(cfg, truth, s, q)
    ensures (Tainted(cfg, truth, s, p) && !Tainted(cfg, truth, s', p))
            || MissingIn(s', p) == s.pieces[p].totalBlocks - s.pieces[p].receivedBlocks
    ensures forall q | 0 <= q < |s.pieces| && q != p ::
              s'.completed[q] == s.completed[q] && s'.pieces[q].totalBlocks == s.pieces[q].totalBlocks
              && s'.pieces[q].receivedBlocks == s.pieces[q].receivedBlocks
  {
    ReceivedPiece(cfg.torrent, p, s.pieces[p]);
    forall q: nat | q != p && q < |s.pieces|
      ensures Tainted(cfg, truth, s', q) <==> Tainted(cfg, truth, s, q)
    {
      SameTaint(cfg, truth, s, s', q);
    }
    if s.pieces[p].receivedBlocks < s.pieces[p].totalBlocks {
      SameTaint(cfg, truth, s, s', p);
    } else if !Verifies(cfg, s.disk, p, readable) && !Tainted(cfg, truth, s, p) {
      UntaintedVerifies(cfg, truth, s, p, readable);
    }
  }

  /** A true block leaves fewer tainted pieces, or no more of them and one block less to come. */
  lemma TruthHelps(cfg: Config, truth: bytes, s: State, e: Event)
    requires Inv(cfg, s) && TrueContent(cfg, truth) && DeliversTruth(cfg, truth, s, e)
    ensures Inv(cfg, Step(cfg, s, e))
    ensures var s' := Step(cfg, s, e);
            var before, after := TaintedPieces(cfg, truth, s), TaintedPieces(cfg, truth, s');
            after < before || (after <= before && ToCome(cfg, s') == ToCome(cfg, s) - 1)
  {
    StepKeeps(cfg, s, e);
    var s', p := Step(cfg, s, e), Accepted(cfg, s, e).value.piece;
    var s2 := AcceptedStep(cfg, s, e);
    ReceiveTaintsNone(cfg, truth, s, s2, e);
    FinishTaintsNone(cfg, truth, s2, s', p, e.readable);
    TaintedFewer(cfg, truth, s, s', p, cfg.torrent.NumPieces());
    RemainingUpdate(s, s', p, |s.pieces|);
  }

  // ----- Steps of the honest peer

  /** A block message leaves no request of another peer, and no peer disconnected, when all requests are `x`'s. */
  lemma AnswerServes(cfg: Config, s: State, x: PeerId, e: Event)
    requires Served(cfg, s, x) && e.BlockArrived? && e.broken == {}
    ensures Served(cfg, Step(cfg, s, e), x)
  {
    StepKeeps(cfg, s, e);
    var s' := Step(cfg, s, e);
    forall r | r in s'.pending
      ensures r.peer == x
    {
      CountPositive(s'.pending, OfPeer(r.peer));
      CountPositive(s.pending, OfPeer(r.peer));
      RepeatedRuns.OthersAddNone(cfg, s, e, OfPeer(r.peer));
    }
    PeerStays(cfg, s, x, e);
  }

  lemma PeerStays(cfg: Config, s: State, x: PeerId, e: Event)
    requires Inv(cfg, s) && Listening(s, x) && e.BlockArrived? && e.broken == {}
    ensures x in Step(cfg, s, e).peers && Step(cfg, s, e).peers[x] == s.peers[x]
  {
  }

  /** The first request in flight is for a block that has not been received. */
  ghost predicate FirstIsMissing(cfg: Config, s: State)
    requires Typed(cfg, s)
  {
    && s.pending != [] && SoundRequest(cfg.torrent, s.pending[0])
    && !s.pieces[s.pending[0].piece].received[s.pending[0].Block()]
  }

  /** The answer to the first request in flight brings the download nearer to its end. */
  lemma AnswerHelps(cfg: Config, truth: bytes, s: State, x: PeerId) returns (e: Event)
    requires Served(cfg, s, x) && TrueContent(cfg, truth) && Addressable(cfg.torrent) && s.pending != []
    ensures Helps(cfg, truth, x, e) && Served(cfg, Step(cfg, s, e), x)
    ensures var s' := Step(cfg, s, e);
            var before, after := TaintedPieces(cfg, truth, s), TaintedPieces(cfg, truth, s');
            || after < before
            || (after <= before && ToCome(cfg, s') < ToCome(cfg, s))
            || (after == before && ToCome(cfg, s') == ToCome(cfg, s) && |s'.pending| < |s.pending|)
    ensures FirstIsMissing(cfg, s) ==>
              var s' := Step(cfg, s, e);
              var before, after := TaintedPieces(cfg, truth, s), TaintedPieces(cfg, truth, s');
              after < before || (after <= before && ToCome(cfg, s') < ToCome(cfg, s))
  {
    assert s.pending[0] in s.pending;
    var r := s.pending[0];
    AnswerArrives(cfg, truth, s, x);
    e := Answer(cfg, truth, r);
    AnswerIsHelp(cfg, truth, x, r);
    AnswerServes(cfg, s, x, e);
    if s.pieces[r.piece].received[r.Block()] {
      SameToDo(cfg, truth, s, e);
      DuplicateDropped(cfg, truth, s, x);
    } else {
      AnswerIsTrue(cfg, truth, s, r);
      TruthHelps(cfg, truth, s, e);
    }
  }

  lemma AnswerIsHelp(cfg: Config, truth: bytes, x: PeerId, r: BlockRequest)
    requires Valid(cfg.torrent) && Addressable(cfg.torrent) && SoundRequest(cfg.torrent, r) && r.peer == x
    ensures Helps(cfg, truth, x, Answer(cfg, truth, r))
  {
    var payload := Payload(cfg.torrent, truth, r.piece, r.Block());
    assert IsBlock(cfg.torrent, r.piece, r.Block()) && payload == Payload(cfg.torrent, truth, r.piece, r.Block());
  }

  lemma AnswerIsTrue(cfg: Config, truth: bytes, s: State, r: BlockRequest)
    requires Inv(cfg, s) && Addressable(cfg.torrent) && |truth| == cfg.torrent.Total() && SoundRequest(cfg.torrent, r)
    requires Accepted(cfg, s, Answer(cfg, truth, r))
          == Some(Arrival(r.piece, r.Block(), BlockBytes(cfg.torrent, truth, r.piece, r.Block())))
    ensures DeliversTruth(cfg, truth, s, Answer(cfg, truth, r))
  {
    PayloadParts(cfg.torrent, truth, r.piece, r.Block());
    PieceBounds(cfg.torrent, r.piece);
  }

  /** An event that delivers no new block leaves what is left to do. */
  lemma SameToDo(cfg: Config, truth: bytes, s: State, e: Event)
    requires Inv(cfg, s) && Accepted(cfg, s, e).None?
    ensures Inv(cfg, Step(cfg, s, e))
    ensures TaintedPieces(cfg, truth, Step(cfg, s, e)) == TaintedPieces(cfg, truth, s)
    ensures ToCome(cfg, Step(cfg, s, e)) == ToCome(cfg, s)
  {
    StepKeeps(cfg, s, e);
    var s' := Step(cfg, s, e);
    NothingAccepted(cfg, s, e);
    SameRemaining(s, s', |s.pieces|);
    SameTainted(cfg, truth, s, s', cfg.torrent.NumPieces());
  }

  lemma {:induction false} SameTainted(cfg: Config, truth: bytes, s: State, s': State, n: nat)
    requires Typed(cfg, s) && Typed(cfg, s') && SameContent(s, s') && n <= |s.completed|
    ensures CountTainted(cfg, truth, s', n) == CountTainted(cfg, truth, s, n)
  {
    if n > 0 {
      SameTainted(cfg, truth, s, s', n - 1);
      SameTaint(cfg, truth, s, s', n - 1);
    }
  }

  /** The answer to a request whose block was there before only takes the request away. */
  lemma DuplicateDropped(cfg: Config, truth: bytes, s: State, x: PeerId)
    requires Served(cfg, s, x) && Addressable(cfg.torrent) && |truth| == cfg.torrent.Total() && s.pending != []
    requires s.pending[0] in s.pending && SoundRequest(cfg.torrent, s.pending[0])
    requires s.pieces[s.pending[0].piece].received[s.pending[0].Block()]
    ensures |Step(cfg, s, Answer(cfg, truth, s.pending[0])).pending| < |s.pending|
  {
    var r := s.pending[0];
    AnswerArrives(cfg, truth, s, x);
    PayloadParts(cfg.torrent, truth, r.piece, r.Block());
  }

  // ----- Rounds of requests

  /** A round with enough sends ends with the peer connected, and has asked only it, and only for missing blocks. */
  lemma {:induction false} RoundAsksMissing(
    cfg: Config, s: State, x: PeerId, p: nat, b: nat, current: int, sends: nat, now: int)
    requires Typed(cfg, s) && p < cfg.torrent.NumPieces() && sends >= Blocks(cfg.torrent, p) - b
    ensures var s' := RequestFrom(cfg, s, x, p, b, current, sends, now);
            && s'.peers == s.peers
            && forall r | r in s'.pending :: r in s.pending || AsksMissing(cfg, s, x, p, r)
    decreases Blocks(cfg.torrent, p) - b
  {
    if b >= Blocks(cfg.torrent, p) || current >= cfg.maxRequestsPerPeer {
    } else if !Wants(s, x, p, b) {
      RoundAsksMissing(cfg, s, x, p, b + 1, current, sends, now);
    } else {
      var s1 := RequestOne(cfg, s, x, p, b, now);
      BlockBounds(cfg.torrent, p, b);
      assert AsksMissing(cfg, s, x, p, s1.pending[|s.pending|]);
      RoundAsksMissing(cfg, s1, x, p, b + 1, current + 1, sends - 1, now);
    }
  }

  ghost predicate AsksMissing(cfg: Config, s: State, x: PeerId, p: nat, r: BlockRequest)
    requires Typed(cfg, s)
  {
    r.peer == x && r.piece == p && IsBlock(cfg.torrent, p, r.Block()) && !s.pieces[p].received[r.Block()]
  }

  /** With nothing in flight, a round for an incomplete piece asks for a missing block of it. */
  lemma RoundHelps(cfg: Config, truth: bytes, s: State, x: PeerId, p: nat, now: int) returns (e: Event)
    requires Served(cfg, s, x) && Addressable(cfg.torrent) && s.pending == [] && cfg.maxRequestsPerPeer > 0
    requires p < cfg.torrent.NumPieces() && !s.completed[p]
    ensures Helps(cfg, truth, x, e) && Served(cfg, Step(cfg, s, e), x)
    ensures TaintedPieces(cfg, truth, Step(cfg, s, e)) == TaintedPieces(cfg, truth, s)
    ensures ToCome(cfg, Step(cfg, s, e)) == ToCome(cfg, s)
    ensures FirstIsMissing(cfg, Step(cfg, s, e))
  {
    PieceBounds(cfg.torrent, p);
    var sends: nat := Blocks(cfg.torrent, p);
    e := Requested(x, p, sends, now);
    SameToDo(cfg, truth, s, e);
    NothingAccepted(cfg, s, e);
    RoundAsksMissing(cfg, s, x, p, 0, 0, sends, now);
    RoundAsks(cfg, s, x, p, sends, now);
    var s' := Step(cfg, s, e);
    assert s' == RequestFrom(cfg, s, x, p, 0, 0, sends, now);
    assert s'.pending[0] in s'.pending;
  }

  lemma RoundAsks(cfg: Config, s: State, x: PeerId, p: nat, sends: nat, now: int)
    requires Served(cfg, s, x) && s.pending == [] && cfg.maxRequestsPerPeer > 0
    requires p < cfg.torrent.NumPieces() && !s.completed[p] && sends >= Blocks(cfg.torrent, p)
    ensures RequestFrom(cfg, s, x, p, 0, 0, sends, now).pending != []
  {
    CompletedIffReceived(cfg, s, p);
    var b := FirstMissing(s.pieces[p].received);
    if s.pieces[p].requested[b] {
      MarkedIsPending(cfg, s, p, b);
    }
    FirstWantedIsRequested(cfg, s, x, p, 0, b, 0, sends, now);
  }

  // ----- The way to the end

  /** From a state in which the honest peer serves us, rounds of requests and its answers complete the download. */
  lemma {:induction false} ServedCompletes(cfg: Config, truth: bytes, s: State, x: PeerId, now: int)
    returns (es: seq<Event>)
    requires Served(cfg, s, x) && TrueContent(cfg, truth) && Completable(cfg)
    ensures IsComplete(cfg, Run(cfg, s, es)) && forall e | e in es :: Helps(cfg, truth, x, e)
    decreases TaintedPieces(cfg, truth, s), ToCome(cfg, s), |s.pending|
  {
    if IsComplete(cfg, s) {
      es := [];
    } else if s.pending != [] {
      var e := AnswerHelps(cfg, truth, s, x);
      var more := ServedCompletes(cfg, truth, Step(cfg, s, e), x, now);
      es := OneBefore(cfg, truth, s, x, e, more);
    } else {
      BytesCounted(cfg, s);
      var p: nat :| p < cfg.torrent.NumPieces() && !s.completed[p];
      var round := RoundHelps(cfg, truth, s, x, p, now);
      var s1 := Step(cfg, s, round);
      var e := AnswerHelps(cfg, truth, s1, x);
      var more := ServedCompletes(cfg, truth, Step(cfg, s1, e), x, now);
      es := OneBefore(cfg, truth, s1, x, e, more);
      es := OneBefore(cfg, truth, s, x, round, es);
    }
  }

  lemma OneBefore(cfg: Config, truth: bytes, s: State, x: PeerId, e: Event, more: seq<Event>) returns (es: seq<Event>)
    requires Inv(cfg, s) && Addressable(cfg.torrent) && Helps(cfg, truth, x, e) && Inv(cfg, Step(cfg, s, e))
    requires forall f | f in more :: Helps(cfg, truth, x, f)
    ensures Run(cfg, s, es) == Run(cfg, Step(cfg, s, e), more) && forall f | f in es :: Helps(cfg, truth, x, f)
  {
    es := [e] + more;
    assert es[1..] == more;
  }

  // ----- The main results

  /** A time at which every request has timed out. */
  ghost function Late(q: seq<BlockRequest>): (now: int)
    ensures forall r | r in q :: TimedOut(r, now)
  {
    if q == [] then 0
    else
      var last := q[|q| - 1];
      assert forall r | r in q :: r in q[..|q| - 1] || r == last;
      Later(q[..|q| - 1], Late(q[..|q| - 1]), last)
  }

  ghost function Later(q: seq<BlockRequest>, late: int, last: BlockRequest): (now: int)
    requires forall r | r in q :: TimedOut(r, late)
    ensures TimedOut(last, now)
    ensures forall r | r in q :: TimedOut(r, now)
  {
    var mine := last.time + (REQUEST_TIMEOUT_MS + 1) * NANOS_PER_MS;
    assert mine > late ==> forall r | r in q :: TimedOut(r, late) ==> TimedOut(r, mine);
    Max(mine, late)
  }

  /** A peer that has everything and does not choke us, with requests in flight to whomever. */
  ghost predicate Ready(cfg: Config, s: State, x: PeerId) {
    && Inv(cfg, s)
    && Listening(s, x) && !s.peers[x].choking
    && forall p | 0 <= p < cfg.torrent.NumPieces() :: s.peers[x].HasPiece(p)
  }

  lemma OpeningSteps(cfg: Config, s: State, x: PeerId, all: seq<bool>) returns (s1: State, s2: State, s3: State)
    requires Inv(cfg, s) && all == seq(cfg.torrent.NumPieces(), _ => true)
    ensures s1 == Step(cfg, s, Connected(x)) && Inv(cfg, s1)
    ensures s2 == Step(cfg, s1, Announced(x, all)) && Inv(cfg, s2)
    ensures s3 == Step(cfg, s2, Unchoked(x)) && Ready(cfg, s3, x) && s3.pending == s.pending
  {
    StepKeeps(cfg, s, Connected(x));
    s1 := Step(cfg, s, Connected(x));
    StepKeeps(cfg, s1, Announced(x, all));
    s2 := Step(cfg, s1, Announced(x, all));
    StepKeeps(cfg, s2, Unchoked(x));
    s3 := Step(cfg, s2, Unchoked(x));
  }

  /** The honest peer connects, announces everything and unchokes us. */
  lemma GetsReady(cfg: Config, truth: bytes, s: State, x: PeerId, more: seq<Event>) returns (s': State, es: seq<Event>)
    requires Inv(cfg, s) && Addressable(cfg.torrent) && forall e | e in more :: Helps(cfg, truth, x, e)
    ensures Ready(cfg, s', x) && s'.pending == s.pending
    ensures Run(cfg, s, es) == Run(cfg, s', more) && forall e | e in es :: Helps(cfg, truth, x, e)
  {
    var all := seq(cfg.torrent.NumPieces(), _ => true);
    var s1, s2;
    s1, s2, s' := OpeningSteps(cfg, s, x, all);
    es := OneBefore(cfg, truth, s2, x, Unchoked(x), more);
    es := OneBefore(cfg, truth, s1, x, Announced(x, all), es);
    es := OneBefore(cfg, truth, s, x, Connected(x), es);
  }

  /** Then a cleanup, once they have all timed out, gives up the requests. */
  lemma Rescued(cfg: Config, truth: bytes, s: State, x: PeerId) returns (es: seq<Event>)
    requires Inv(cfg, s) && Addressable(cfg.torrent)
    ensures Served(cfg, Run(cfg, s, es), x) && forall e | e in es :: Helps(cfg, truth, x, e)
  {
    var cleanup := CleanedUp(Late(s.pending));
    var s1;
    s1, es := GetsReady(cfg, truth, s, x, [cleanup]);
    CleanupFrees(cfg, s1, Late(s1.pending));
    assert [cleanup][1..] == [];
    assert Run(cfg, s1, [cleanup]) == Step(cfg, s1, cleanup);
  }

  /**
    Whatever has happened, false blocks and failed writes included: one peer that has everything and sends true
    blocks, together with a disk that works, can complete the download.
   */
  lemma EveryDownloadCanBeCompleted(
    cfg: Config, truth: bytes, disk: bytes, readable: seq<nat>, scanned: nat, es: seq<Event>, x: PeerId, now: int)
    returns (more: seq<Event>)
    requires CanStart(cfg, disk, readable) && TrueContent(cfg, truth) && Completable(cfg)
    ensures IsComplete(cfg, Reached(cfg, disk, readable, scanned, es + more))
    ensures forall e | e in more :: Helps(cfg, truth, x, e)
  {
    var s0, s := Start(cfg, disk, readable, scanned), Reached(cfg, disk, readable, scanned, es);
    var opening := Rescued(cfg, truth, s, x);
    var rest := ServedCompletes(cfg, truth, Run(cfg, s, opening), x, now);
    more := opening + rest;
    RunConcat(cfg, s, opening, rest);
    RunConcat(cfg, s0, es, more);
  }

  // ----- Both conditions are needed

  /** Not received, and never to be: no block message has its numbers, or no request may be made. */
  ghost predicate OutOfReach(cfg: Config, s: State, p: nat, b: nat)
    requires Typed(cfg, s)
  {
    && IsBlock(cfg.torrent, p, b) && !s.pieces[p].received[b]
    && (p >= 0x1_0000_0000 || b * BLOCK_SIZE >= 0x1_0000_0000 || cfg.maxRequestsPerPeer <= 0)
  }

  lemma NothingInFlight(cfg: Config, s: State)
    requires Inv(cfg, s) && cfg.maxRequestsPerPeer <= 0
    ensures s.pending == []
  {
    if s.pending != [] {
      CountPositive(s.pending, OfPeer(s.pending[0].peer));
    }
  }

  lemma NotAccepted(cfg: Config, s: State, e: Event, p: nat, b: nat)
    requires Inv(cfg, s) && OutOfReach(cfg, s, p, b) && Accepted(cfg, s, e).Some?
    ensures !AfterReceive(cfg, s, e).pieces[p].received[b]
  {
    if cfg.maxRequestsPerPeer <= 0 {
      NothingInFlight(cfg, s);
    }
  }

  lemma FinishKeepsMissing(cfg: Config, s: State, p: nat, b: nat, q: nat, readable: nat)
    requires Typed(cfg, s) && IsBlock(cfg.torrent, p, b) && !s.pieces[p].received[b]
    requires q < |s.pieces| && 0 <= PieceStart(cfg.torrent, q)
    ensures !Finish(cfg, s, q, readable).pieces[p].received[b]
  {
  }

  lemma StaysOutOfReach(cfg: Config, s: State, e: Event, p: nat, b: nat)
    requires Inv(cfg, s) && OutOfReach(cfg, s, p, b)
    ensures Inv(cfg, Step(cfg, s, e)) && OutOfReach(cfg, Step(cfg, s, e), p, b)
  {
    StepKeeps(cfg, s, e);
    if Accepted(cfg, s, e).None? {
      NothingAccepted(cfg, s, e);
    } else {
      NotAccepted(cfg, s, e, p, b);
      var s2 := AcceptedStep(cfg, s, e);
      FinishKeepsMissing(cfg, s2, p, b, Accepted(cfg, s, e).value.piece, e.readable);
    }
  }

  lemma {:induction false} NeverComplete(cfg: Config, s: State, es: seq<Event>, p: nat, b: nat)
    requires Inv(cfg, s) && OutOfReach(cfg, s, p, b)
    ensures !IsComplete(cfg, Run(cfg, s, es))
    decreases |es|
  {
    if es == [] {
      BytesCounted(cfg, s);
      CompletedIffReceived(cfg, s, p);
    } else {
      StaysOutOfReach(cfg, s, es[0], p, b);
      NeverComplete(cfg, Step(cfg, s, es[0]), es[1..], p, b);
    }
  }

  ghost predicate CanBeCompleted(cfg: Config, disk: bytes, readable: seq<nat>, es: seq<Event>)
    requires CanStart(cfg, disk, readable)
  {
    exists more :: IsComplete(cfg, Reached(cfg, disk, readable, 0, es + more))
  }

  /** A download of which nothing was there before can always still be completed exactly on these two conditions. */
  lemma CompletableExactlyWhen(cfg: Config, truth: bytes, disk: bytes, readable: seq<nat>)
    requires CanStart(cfg, disk, readable) && TrueContent(cfg, truth)
    ensures (forall es :: CanBeCompleted(cfg, disk, readable, es))
            <==> Completable(cfg)
  {
    var s := Start(cfg, disk, readable, 0);
    if Completable(cfg) {
      forall es
        ensures CanBeCompleted(cfg, disk, readable, es)
      {
        var _ := EveryDownloadCanBeCompleted(cfg, truth, disk, readable, 0, es, 0, 0);
      }
    } else {
      var p, b := SomeOutOfReach(cfg, disk, readable);
      forall more
        ensures !IsComplete(cfg, Reached(cfg, disk, readable, 0, [] + more))
      {
        NeverComplete(cfg, s, [] + more, p, b);
      }
      assert !CanBeCompleted(cfg, disk, readable, []);
    }
  }

  lemma SomeOutOfReach(cfg: Config, disk: bytes, readable: seq<nat>) returns (p: nat, b: nat)
    requires CanStart(cfg, disk, readable) && !Completable(cfg)
    ensures OutOfReach(cfg, Start(cfg, disk, readable, 0), p, b)
  {
    if Addressable(cfg.torrent) {
      p, b := 0, 0;
      PieceBounds(cfg.torrent, 0);
    } else {
      p, b :| IsBlock(cfg.torrent, p, b) && (p >= 0x1_0000_0000 || b * BLOCK_SIZE >= 0x1_0000_0000);
    }
    var s := Start(cfg, disk, readable, 0);
    assert !s.completed[p];
    assert s.pieces[p] == RestoredPiece(cfg.torrent, p, false);
  }
}
