/** What the accepted blocks do to the disk, and how a download comes to an end. */
module DownloadProgress {
  import opened Bytes
  import opened Torrents
  import opened OutputStore
  import opened DownloadState
  import opened RequestCounts
  import opened DownloadInvariant
  import opened BlockInvariant
  import opened DownloadRuns

  datatype Arrival = Arrival(piece: nat, block: nat, data: bytes)

  /** The block that the event delivers, when it answers a pending request and is new. */
  ghost function Accepted(cfg: Config, s: State, e: Event): Option<Arrival>
    requires Typed(cfg, s)
  {
    if !e.BlockArrived? || !Listening(s, e.peer) || |e.payload| < 8 then None else
    var p, offset, data := BytesToInt(e.payload), BytesToInt(e.payload[4..]), e.payload[8..];
    var k := FindFirst(s.pending, Copy(p, offset, e.peer));
    if k == |s.pending| || |data| != s.pending[k].length then None else
    var b := offset / BLOCK_SIZE;
    assert s.pending[k] in s.pending;
    if b >= s.pieces[p].totalBlocks || s.pieces[p].received[b] then None else Some(Arrival(p, b, data))
  }

  /** The bytes of block `b` of piece `p` in the content. */
  ghost function BlockBytes(t: TorrentInfo, content: bytes, p: nat, b: nat): bytes
    requires Valid(t) && IsBlock(t, p, b)
  {
    BlockBounds(t, p, b);
    PieceBounds(t, p);
    Visible(content, BlockStart(t, p, b), BlockLength(t, p, b))
  }

  ghost predicate SameContent(s: State, s': State) {
    SameProgress(s.pieces, s'.pieces) && s'.completed == s.completed && s'.disk == s.disk
  }

  /** An event that delivers no new block changes neither the disk nor what counts as received. */
  lemma NothingAccepted(cfg: Config, s: State, e: Event)
    requires Inv(cfg, s) && Accepted(cfg, s, e).None?
    ensures SameContent(s, Step(cfg, s, e))
  {
    match e
    case Requested(peer, p, sends, now) =>
      if Listening(s, peer) && !s.peers[peer].choking && Needed(s, peer, p) {
        RequestFromProgress(cfg, s, peer, p, 0, Count(s.pending, OfPeer(peer)), sends, now);
      }
    case BlockArrived(peer, payload, written, readable, broken) =>
      NoBlockAccepted(cfg, s, peer, payload, written, readable, broken);
    case _ =>
  }

  lemma NoBlockAccepted(
    cfg: Config, s: State, peer: PeerId, payload: bytes, written: nat, readable: nat, broken: set<PeerId>)
    requires Inv(cfg, s) && Accepted(cfg, s, BlockArrived(peer, payload, written, readable, broken)).None?
    ensures SameContent(s, OnBlock(cfg, s, peer, payload, written, readable, broken))
  {
  }

  /** The state after an accepted block has been written and counted, before its hash check. */
  ghost function AfterReceive(cfg: Config, s: State, e: Event): State
    requires Inv(cfg, s) && Accepted(cfg, s, e).Some?
  {
    var Arrival(p, b, data) := Accepted(cfg, s, e).value;
    var k := FindFirst(s.pending, Copy(p, BytesToInt(e.payload[4..]), e.peer));
    assert s.pending[k] in s.pending;
    BlockBounds(cfg.torrent, p, b);
    PieceBounds(cfg.torrent, p);
    Receive(cfg, s.(pending := RemoveAt(s.pending, k)), p, b, data, e.written)
  }

  /** An accepted block is a whole block of an incomplete piece; its event receives it and checks the piece. */
  lemma AcceptedStep(cfg: Config, s: State, e: Event) returns (s2: State)
    requires Inv(cfg, s) && Accepted(cfg, s, e).Some?
    ensures s2 == AfterReceive(cfg, s, e)
    ensures var Arrival(p, b, data) := Accepted(cfg, s, e).value;
            && IsBlock(cfg.torrent, p, b) && |data| == BlockLength(cfg.torrent, p, b)
            && !s.pieces[p].received[b] && !s.completed[p]
            && InvOpen(cfg, s2, p)
            && 0 <= PieceStart(cfg.torrent, p)
            && SameContent(Finish(cfg, s2, p, e.readable), Step(cfg, s, e))
  {
    var Arrival(p, b, data) := Accepted(cfg, s, e).value;
    var k := FindFirst(s.pending, Copy(p, BytesToInt(e.payload[4..]), e.peer));
    assert s.pending[k] in s.pending && SoundRequest(cfg.torrent, s.pending[k]) && s.pending[k].Block() == b;
    AcceptKeeps(cfg, s, k, data, e.written);
    BlockBounds(cfg.torrent, p, b);
    PieceBounds(cfg.torrent, p);
    s2 := AfterReceive(cfg, s, e);
  }

  // ----- The disk holds what was accepted

  type Ledger = map<(nat, nat), bytes>

  /** The accepted blocks whose write went through, less those whose piece was reset. */
  ghost function Recorded(cfg: Config, l: Ledger, s: State, e: Event): Ledger
    requires Inv(cfg, s)
  {
    match Accepted(cfg, s, e)
    case None => l
    case Some(Arrival(p, b, data)) =>
      StepKeeps(cfg, s, e);
      if p < |s.pieces| && Step(cfg, s, e).pieces[p].receivedBlocks == 0 then
        map key | key in l && key.0 != p :: l[key]
      else if e.written >= |data| then l[(p, b) := data]
      else l
  }

  ghost predicate OnDisk(cfg: Config, s: State, key: (nat, nat), data: bytes)
    requires Typed(cfg, s)
  {
    && IsBlock(cfg.torrent, key.0, key.1)
    && s.pieces[key.0].received[key.1]
    && BlockBytes(cfg.torrent, s.disk, key.0, key.1) == data
  }

  ghost predicate LedgerMatches(cfg: Config, s: State, l: Ledger)
    requires Typed(cfg, s)
  {
    forall key | key in l :: OnDisk(cfg, s, key, l[key])
  }

  lemma WrittenBlock(t: TorrentInfo, disk: bytes, p: nat, b: nat, data: bytes, written: nat, q: nat, c: nat)
    requires Valid(t) && |disk| == t.Total() && IsBlock(t, p, b) && IsBlock(t, q, c)
    requires |data| == BlockLength(t, p, b) && 0 <= BlockStart(t, p, b)
    ensures var disk' := Written(disk, BlockStart(t, p, b), data, written);
            if q == p && c == b then written >= |data| ==> BlockBytes(t, disk', q, c) == data
            else BlockBytes(t, disk', q, c) == BlockBytes(t, disk, q, c)
  {
    BlockBounds(t, p, b);
    BlockBounds(t, q, c);
    PieceBounds(t, q);
    PieceBounds(t, p);
    BlocksDisjoint(t, p, b, q, c);
    var at := BlockStart(t, p, b);
    var n := Min(Min(written, |data|), |disk| - at);
    SpliceSlice(disk, at, data[..n], BlockStart(t, q, c), BlockStart(t, q, c) + BlockLength(t, q, c));
    assert written >= |data| ==> data[..n] == data;
  }

  lemma LedgerKept(cfg: Config, s: State, l: Ledger, e: Event)
    requires Inv(cfg, s) && LedgerMatches(cfg, s, l)
    ensures Inv(cfg, Step(cfg, s, e)) && LedgerMatches(cfg, Step(cfg, s, e), Recorded(cfg, l, s, e))
  {
    StepKeeps(cfg, s, e);
    var s', l' := Step(cfg, s, e), Recorded(cfg, l, s, e);
    if Accepted(cfg, s, e).None? {
      NothingAccepted(cfg, s, e);
      forall key | key in l' ensures OnDisk(cfg, s', key, l'[key]) {
        assert OnDisk(cfg, s, key, l[key]);
      }
    } else {
      LedgerExtended(cfg, s, l, e);
    }
  }

  lemma LedgerExtended(cfg: Config, s: State, l: Ledger, e: Event)
    requires Inv(cfg, s) && LedgerMatches(cfg, s, l) && Accepted(cfg, s, e).Some?
    requires Inv(cfg, Step(cfg, s, e))
    ensures LedgerMatches(cfg, Step(cfg, s, e), Recorded(cfg, l, s, e))
  {
    var s', l' := Step(cfg, s, e), Recorded(cfg, l, s, e);
    var Arrival(p, b, data) := Accepted(cfg, s, e).value;
    var s2 := AcceptedStep(cfg, s, e);
    FinishContent(cfg, s2, p, e.readable);
    LedgerReceived(cfg, s, s2, l, e);
    forall key | key in l' ensures OnDisk(cfg, s', key, l'[key]) {
      KeptByFinish(cfg, s2, s', p, e.readable, key, l'[key]);
    }
  }

  /** The ledger with the accepted block matches the disk before the hash check. */
  lemma LedgerReceived(cfg: Config, s: State, s2: State, l: Ledger, e: Event)
    requires Inv(cfg, s) && LedgerMatches(cfg, s, l) && Accepted(cfg, s, e).Some? && s2 == AfterReceive(cfg, s, e)
    requires Typed(cfg, s2) && Inv(cfg, Step(cfg, s, e))
    ensures var l' := Recorded(cfg, l, s, e); forall key | key in l' :: OnDisk(cfg, s2, key, l'[key])
  {
    var l' := Recorded(cfg, l, s, e);
    var Arrival(p, b, data) := Accepted(cfg, s, e).value;
    var _ := AcceptedStep(cfg, s, e);
    ReceiveShows(cfg, s, s2, e);
    forall key | key in l' ensures OnDisk(cfg, s2, key, l'[key]) {
      ReceivedOnDisk(cfg, s, s2, p, b, data, e.written, key, l'[key]);
    }
  }

  lemma ReceiveShows(cfg: Config, s: State, s2: State, e: Event)
    requires Inv(cfg, s) && Accepted(cfg, s, e).Some? && s2 == AfterReceive(cfg, s, e)
    ensures var Arrival(p, b, data) := Accepted(cfg, s, e).value;
            && 0 <= BlockStart(cfg.torrent, p, b) && p < |s.pieces| && b < |s.pieces[p].received|
            && s2.disk == Written(s.disk, BlockStart(cfg.torrent, p, b), data, e.written)
            && |s2.pieces| == |s.pieces| && (forall q | 0 <= q < |s.pieces| && q != p :: s2.pieces[q] == s.pieces[q])
            && s2.pieces[p].received == s.pieces[p].received[b := true]
  {
    var Arrival(p, b, data) := Accepted(cfg, s, e).value;
    var _ := AcceptedStep(cfg, s, e);
    BlockBounds(cfg.torrent, p, b);
    PieceBounds(cfg.torrent, p);
  }

  lemma ReceivedOnDisk(cfg: Config, s: State, s2: State, p: nat, b: nat, data: bytes,
      written: nat, key: (nat, nat), d: bytes)
    requires Typed(cfg, s) && Typed(cfg, s2) && IsBlock(cfg.torrent, p, b)
    requires 0 <= BlockStart(cfg.torrent, p, b) && |data| == BlockLength(cfg.torrent, p, b)
    requires s2.disk == Written(s.disk, BlockStart(cfg.torrent, p, b), data, written)
    requires |s2.pieces| == |s.pieces| && (forall q | 0 <= q < |s.pieces| && q != p :: s2.pieces[q] == s.pieces[q])
    requires p < |s.pieces| && b < |s.pieces[p].received| && s2.pieces[p].received == s.pieces[p].received[b := true]
    requires if key == (p, b) then written >= |data| && d == data else OnDisk(cfg, s, key, d)
    ensures OnDisk(cfg, s2, key, d)
  {
    WrittenBlock(cfg.torrent, s.disk, p, b, data, written, key.0, key.1);
  }

  /** The hash check of a piece leaves the disk and the other pieces alone; a reset shows in the piece's counter. */
  lemma FinishContent(cfg: Config, s: State, p: nat, readable: nat)
    requires InvOpen(cfg, s, p) && p < |s.pieces| && 0 <= PieceStart(cfg.torrent, p) && s.pieces[p].receivedBlocks > 0
    ensures var f := Finish(cfg, s, p, readable);
            && f.disk == s.disk && |f.pieces| == |s.pieces|
            && (forall q | 0 <= q < |s.pieces| && q != p :: f.pieces[q] == s.pieces[q])
            && (f.pieces[p] == s.pieces[p] || f.pieces[p].receivedBlocks == 0)
  {
  }

  lemma KeptByFinish(cfg: Config, s: State, s': State, p: nat, readable: nat, key: (nat, nat), data: bytes)
    requires Typed(cfg, s) && Typed(cfg, s') && p < |s.pieces| && 0 <= PieceStart(cfg.torrent, p)
    requires OnDisk(cfg, s, key, data) && SameContent(Finish(cfg, s, p, readable), s')
    requires var f := Finish(cfg, s, p, readable);
             && f.disk == s.disk && |f.pieces| == |s.pieces|
             && (forall q | 0 <= q < |s.pieces| && q != p :: f.pieces[q] == s.pieces[q])
             && (f.pieces[p] == s.pieces[p] || f.pieces[p].receivedBlocks == 0)
    requires key.0 == p ==> s'.pieces[p].receivedBlocks != 0
    ensures OnDisk(cfg, s', key, data)
  {
  }

  /** The ledger after a run. */
  ghost function RunLedger(cfg: Config, l: Ledger, s: State, es: seq<Event>): Ledger
    requires Inv(cfg, s)
    decreases |es|
  {
    if es == [] then l
    else
      StepKeeps(cfg, s, es[0]);
      RunLedger(cfg, Recorded(cfg, l, s, es[0]), Step(cfg, s, es[0]), es[1..])
  }

  lemma {:induction false} RunLedgerMatches(cfg: Config, l: Ledger, s: State, es: seq<Event>)
    requires Inv(cfg, s) && LedgerMatches(cfg, s, l)
    ensures LedgerMatches(cfg, Run(cfg, s, es), RunLedger(cfg, l, s, es))
    decreases |es|
  {
    if es != [] {
      LedgerKept(cfg, s, l, es[0]);
      RunLedgerMatches(cfg, Recorded(cfg, l, s, es[0]), Step(cfg, s, es[0]), es[1..]);
    }
  }

  /**
    Through any run, with other writes failing or not: every block that was accepted and written
    in full, and whose piece has not been reset since, is on disk byte for byte as it was accepted.
   */
  lemma AcceptedBlocksAreOnDisk(cfg: Config, disk: bytes, readable: seq<nat>, scanned: nat, es: seq<Event>)
    requires CanStart(cfg, disk, readable)
    ensures LedgerMatches(cfg, Reached(cfg, disk, readable, scanned, es), LedgerOf(cfg, disk, readable, scanned, es))
  {
    RunLedgerMatches(cfg, map[], Start(cfg, disk, readable, scanned), es);
  }

  ghost function LedgerOf(cfg: Config, disk: bytes, readable: seq<nat>, scanned: nat, es: seq<Event>): Ledger
    requires CanStart(cfg, disk, readable)
  {
    RunLedger(cfg, map[], Start(cfg, disk, readable, scanned), es)
  }

  // ----- Honest runs

  /** `truth` is content that matches the torrent's hashes. */
  ghost predicate TrueContent(cfg: Config, truth: bytes) {
    && Valid(cfg.torrent) && |truth| == cfg.torrent.Total()
    && forall p | 0 <= p < cfg.torrent.NumPieces() :: PieceVerifies(cfg, truth, p)
  }

  /** If the event delivers a block, it is the true one and the disk does its part. */
  ghost predicate Honest(cfg: Config, truth: bytes, s: State, e: Event)
    requires Inv(cfg, s)
  {
    Accepted(cfg, s, e).Some? ==>
      var Arrival(p, b, data) := Accepted(cfg, s, e).value;
      && IsBlock(cfg.torrent, p, b) && data == BlockBytes(cfg.torrent, truth, p, b)
      && e.written >= |data| && e.readable >= PieceSize(cfg.torrent, p)
  }

  /** The received blocks of incomplete pieces are the true ones. */
  ghost predicate TrueBlocks(cfg: Config, truth: bytes, s: State)
    requires Typed(cfg, s)
  {
    forall p: nat, b: nat | IsBlock(cfg.torrent, p, b) ::
      !s.completed[p] && s.pieces[p].received[b] ==> SameBlock(cfg.torrent, truth, s.disk, p, b)
  }

  ghost predicate SameBlock(t: TorrentInfo, truth: bytes, disk: bytes, p: nat, b: nat)
    requires Valid(t) && IsBlock(t, p, b)
  {
    BlockBytes(t, disk, p, b) == BlockBytes(t, truth, p, b)
  }

  /** A piece all of whose blocks are the true ones is the true piece. */
  lemma BlocksMakePiece(t: TorrentInfo, truth: bytes, disk: bytes, p: nat)
    requires Valid(t) && |truth| == |disk| == t.Total() && p < t.NumPieces() && 0 <= PieceStart(t, p)
    requires forall b: nat | b < Blocks(t, p) :: SameBlock(t, truth, disk, p, b)
    ensures PieceBytes(t, disk, p) == PieceBytes(t, truth, p)
  {
    PieceBounds(t, p);
    var left, right := PieceBytes(t, disk, p), PieceBytes(t, truth, p);
    forall x | 0 <= x < |left| ensures left[x] == right[x] {
      assert SameBlock(t, truth, disk, p, x / BLOCK_SIZE);
      SameByte(t, truth, disk, p, x);
    }
  }

  lemma SameByte(t: TorrentInfo, truth: bytes, disk: bytes, p: nat, x: nat)
    requires Valid(t) && |truth| == |disk| == t.Total() && p < t.NumPieces() && 0 <= PieceStart(t, p)
    requires x < PieceSize(t, p) && IsBlock(t, p, x / BLOCK_SIZE) && SameBlock(t, truth, disk, p, x / BLOCK_SIZE)
    ensures PieceStart(t, p) + x < t.Total() && disk[PieceStart(t, p) + x] == truth[PieceStart(t, p) + x]
  {
    var b := x / BLOCK_SIZE;
    PieceBounds(t, p);
    BlockBounds(t, p, b);
    var i := x - b * BLOCK_SIZE;
    assert 0 <= i < BlockLength(t, p, b);
    assert BlockBytes(t, disk, p, b)[i] == disk[PieceStart(t, p) + x];
    assert BlockBytes(t, truth, p, b)[i] == truth[PieceStart(t, p) + x];
  }

  lemma {:induction false} RemainingUpdate(s: State, s': State, p: nat, n: nat)
    requires |s.pieces| == |s.completed| == |s'.pieces| == |s'.completed| && p < |s.pieces| && n <= |s.pieces|
    requires forall q | 0 <= q < |s.pieces| && q != p ::
               s'.completed[q] == s.completed[q] && s'.pieces[q].totalBlocks == s.pieces[q].totalBlocks
               && s'.pieces[q].receivedBlocks == s.pieces[q].receivedBlocks
    ensures Remaining(s', n) - Remaining(s, n) == if p < n then MissingIn(s', p) - MissingIn(s, p) else 0
  {
    if n > 0 {
      RemainingUpdate(s, s', p, n - 1);
    }
  }

  ghost function MissingIn(s: State, p: nat): int
    requires p < |s.pieces| && p < |s.completed|
  {
    if s.completed[p] then 0 else s.pieces[p].totalBlocks - s.pieces[p].receivedBlocks
  }

  ghost function Missing(s: State): int
    requires |s.pieces| == |s.completed|
  {
    Remaining(s, |s.pieces|)
  }

  /** Endgame is on exactly when at most 64 blocks are missing. */
  lemma EndgameExactly(cfg: Config, s: State)
    requires Inv(cfg, s)
    ensures Step(cfg, s, EndgameUpdated) == s.(endgame := Missing(s) <= 64)
  {
  }

  /** Nothing is missing exactly when every piece is complete. */
  lemma {:induction false} MissingBounds(cfg: Config, s: State, n: nat)
    requires Inv(cfg, s) && n <= |s.pieces|
    ensures 0 <= Remaining(s, n)
    ensures Remaining(s, n) == 0 <==> forall p | 0 <= p < n :: s.completed[p]
  {
    if n > 0 {
      MissingBounds(cfg, s, n - 1);
      ReceivedPiece(cfg.torrent, n - 1, s.pieces[n - 1]);
    }
  }

  /** Receiving a true block keeps the blocks of incomplete pieces true. */
  lemma ReceiveTrueBlock(cfg: Config, truth: bytes, s: State, s2: State, e: Event)
    requires Inv(cfg, s) && TrueContent(cfg, truth) && TrueBlocks(cfg, truth, s)
    requires Accepted(cfg, s, e).Some? && Honest(cfg, truth, s, e) && s2 == AfterReceive(cfg, s, e) && Typed(cfg, s2)
    ensures TrueBlocks(cfg, truth, s2)
  {
    var Arrival(p, b, data) := Accepted(cfg, s, e).value;
    BlockBounds(cfg.torrent, p, b);
    PieceBounds(cfg.torrent, p);
    forall q: nat, c: nat | IsBlock(cfg.torrent, q, c) && !s2.completed[q] && s2.pieces[q].received[c]
      ensures SameBlock(cfg.torrent, truth, s2.disk, q, c)
    {
      WrittenBlock(cfg.torrent, s.disk, p, b, data, e.written, q, c);
      if q != p || c != b {
        assert s.pieces[q].received[c] && SameBlock(cfg.torrent, truth, s.disk, q, c);
      }
    }
  }

  /** A piece received in true blocks passes its hash check. */
  lemma TruePieceVerifies(cfg: Config, truth: bytes, s: State, p: nat, readable: nat)
    requires Typed(cfg, s) && TrueContent(cfg, truth) && TrueBlocks(cfg, truth, s)
    requires p < |s.pieces| && !s.completed[p] && s.pieces[p].receivedBlocks == CountTrue(s.pieces[p].received)
    requires s.pieces[p].receivedBlocks >= s.pieces[p].totalBlocks && readable >= PieceSize(cfg.torrent, p)
    requires 0 <= PieceStart(cfg.torrent, p)
    ensures Verifies(cfg, s.disk, p, readable)
  {
    CountTrueBounds(s.pieces[p].received);
    BlocksMakePiece(cfg.torrent, truth, s.disk, p);
    assert PieceVerifies(cfg, truth, p);
  }

  /** An honest event: no hash check fails, and each accepted block is one block less to come. */
  lemma HonestStep(cfg: Config, truth: bytes, s: State, e: Event)
    requires Inv(cfg, s) && TrueContent(cfg, truth) && TrueBlocks(cfg, truth, s) && Honest(cfg, truth, s, e)
    ensures Inv(cfg, Step(cfg, s, e)) && TrueBlocks(cfg, truth, Step(cfg, s, e))
    ensures Missing(Step(cfg, s, e)) == Missing(s) - if Accepted(cfg, s, e).Some? then 1 else 0
  {
    StepKeeps(cfg, s, e);
    if Accepted(cfg, s, e).None? {
      NothingAccepted(cfg, s, e);
      SameRemaining(s, Step(cfg, s, e), |s.pieces|);
      SameTrueBlocks(cfg, truth, s, Step(cfg, s, e));
    } else {
      HonestAccept(cfg, truth, s, e);
    }
  }

  lemma SameTrueBlocks(cfg: Config, truth: bytes, s: State, s': State)
    requires Typed(cfg, s) && Typed(cfg, s') && SameContent(s, s') && TrueBlocks(cfg, truth, s)
    ensures TrueBlocks(cfg, truth, s')
  {
    forall p: nat, b: nat | IsBlock(cfg.torrent, p, b) && !s'.completed[p] && s'.pieces[p].received[b]
      ensures SameBlock(cfg.torrent, truth, s'.disk, p, b)
    {
      assert s.pieces[p].received[b] && SameBlock(cfg.torrent, truth, s.disk, p, b);
    }
  }

  lemma HonestAccept(cfg: Config, truth: bytes, s: State, e: Event)
    requires Inv(cfg, s) && TrueContent(cfg, truth) && TrueBlocks(cfg, truth, s) && Honest(cfg, truth, s, e)
    requires Accepted(cfg, s, e).Some? && Inv(cfg, Step(cfg, s, e))
    ensures TrueBlocks(cfg, truth, Step(cfg, s, e))
    ensures Missing(Step(cfg, s, e)) == Missing(s) - 1
  {
    var s', p := Step(cfg, s, e), Accepted(cfg, s, e).value.piece;
    var s2 := AcceptedStep(cfg, s, e);
    ReceiveTrueBlock(cfg, truth, s, s2, e);
    HonestFinish(cfg, truth, s2, s', p, e.readable);
    RemainingUpdate(s, s', p, |s.pieces|);
  }

  lemma HonestFinish(cfg: Config, truth: bytes, s2: State, s': State, p: nat, readable: nat)
    requires InvOpen(cfg, s2, p) && Inv(cfg, s') && p < |s2.pieces| && !s2.completed[p]
    requires TrueContent(cfg, truth) && TrueBlocks(cfg, truth, s2)
    requires readable >= PieceSize(cfg.torrent, p) && 0 <= PieceStart(cfg.torrent, p)
    requires SameContent(Finish(cfg, s2, p, readable), s')
    ensures SameProgress(s2.pieces, s'.pieces) && s'.disk == s2.disk
    ensures s'.completed == s2.completed[p := s2.pieces[p].receivedBlocks == s2.pieces[p].totalBlocks]
    ensures TrueBlocks(cfg, truth, s')
    ensures MissingIn(s', p) == s2.pieces[p].totalBlocks - s2.pieces[p].receivedBlocks
  {
    ReceivedPiece(cfg.torrent, p, s2.pieces[p]);
    if s2.pieces[p].receivedBlocks >= s2.pieces[p].totalBlocks {
      TruePieceVerifies(cfg, truth, s2, p, readable);
    }
    forall q: nat, c: nat | IsBlock(cfg.torrent, q, c) && !s'.completed[q] && s'.pieces[q].received[c]
      ensures SameBlock(cfg.torrent, truth, s'.disk, q, c)
    {
      assert s2.pieces[q].received[c] && !s2.completed[q];
    }
  }

  lemma {:induction false} SameRemaining(s: State, s': State, n: nat)
    requires |s.pieces| == |s.completed| && SameContent(s, s') && n <= |s.pieces|
    ensures Remaining(s', n) == Remaining(s, n)
  {
    if n > 0 {
      SameRemaining(s, s', n - 1);
    }
  }

  ghost predicate HonestRun(cfg: Config, truth: bytes, s: State, es: seq<Event>)
    requires Inv(cfg, s)
    decreases |es|
  {
    es != [] ==>
      Honest(cfg, truth, s, es[0]) && (StepKeeps(cfg, s, es[0]); HonestRun(cfg, truth, Step(cfg, s, es[0]), es[1..]))
  }

  ghost function AcceptedCount(cfg: Config, s: State, es: seq<Event>): nat
    requires Inv(cfg, s)
    decreases |es|
  {
    if es == [] then 0
    else
      StepKeeps(cfg, s, es[0]);
      AcceptedCount(cfg, Step(cfg, s, es[0]), es[1..]) + if Accepted(cfg, s, es[0]).Some? then 1 else 0
  }

  lemma {:induction false} HonestProgress(cfg: Config, truth: bytes, s: State, es: seq<Event>)
    requires Inv(cfg, s) && TrueContent(cfg, truth) && TrueBlocks(cfg, truth, s) && HonestRun(cfg, truth, s, es)
    ensures Missing(Run(cfg, s, es)) == Missing(s) - AcceptedCount(cfg, s, es)
    decreases |es|
  {
    if es != [] {
      HonestStep(cfg, truth, s, es[0]);
      HonestProgress(cfg, truth, Step(cfg, s, es[0]), es[1..]);
    }
  }

  /**
    When only true blocks are accepted and the disk works, the download is complete after exactly
    as many accepted blocks as were missing at the start, however the events are interleaved.
   */
  lemma HonestRunCompletes(
    cfg: Config, truth: bytes, disk: bytes, readable: seq<nat>, scanned: nat, es: seq<Event>)
    requires CanStart(cfg, disk, readable) && TrueContent(cfg, truth)
    requires HonestRun(cfg, truth, Start(cfg, disk, readable, scanned), es)
    ensures var s := Start(cfg, disk, readable, scanned);
            && AcceptedCount(cfg, s, es) <= Missing(s)
            && (IsComplete(cfg, Run(cfg, s, es)) <==> AcceptedCount(cfg, s, es) == Missing(s))
  {
    var s := Start(cfg, disk, readable, scanned);
    HonestProgress(cfg, truth, s, es);
    var r := Run(cfg, s, es);
    MissingBounds(cfg, r, |r.pieces|);
    BytesCounted(cfg, r);
  }
}
