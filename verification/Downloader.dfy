/** The downloader object: each method does one event's work in place, as `DownloadState` describes it. */
module Downloading {
  import opened Bytes
  import opened Torrents
  import opened OutputStore
  import opened DownloadState
  import opened RequestCounts
  import opened DownloadInvariant
  import opened BlockInvariant
  import opened DownloadRuns
  import opened PieceSelection

  /** One more request looked at by a loop that gives up requests. */
  lemma ClearedStep(t: TorrentInfo, pieces: seq<PieceState>, q: seq<BlockRequest>, r: BlockRequest, sel: Selector)
    requires ShapedPieces(t, pieces) && r.piece < |pieces|
    ensures ShapedPieces(t, Cleared(pieces, q, sel))
    ensures Cleared(pieces, q + [r], sel) ==
              if sel.Hits(r) then SetRequested(Cleared(pieces, q, sel), r.piece, r.Block(), false)
              else Cleared(pieces, q, sel)
  {
    var before, after := Cleared(pieces, q, sel), Cleared(pieces, q + [r], sel);
    forall p: nat, b: nat
      ensures Dropped(q + [r], sel, p, b) <==> Dropped(q, sel, p, b) || (sel.Hits(r) && r.piece == p && r.Block() == b)
    {
      DroppedAppend(q, r, sel, p, b);
    }
    var expected := if sel.Hits(r) then SetRequested(before, r.piece, r.Block(), false) else before;
    forall p | 0 <= p < |pieces| ensures after[p] == expected[p] {
      assert after[p].requested == expected[p].requested;
    }
  }

  lemma DroppedAppend(q: seq<BlockRequest>, r: BlockRequest, sel: Selector, p: nat, b: nat)
    ensures Dropped(q + [r], sel, p, b) <==> Dropped(q, sel, p, b) || (sel.Hits(r) && r.piece == p && r.Block() == b)
  {
    if Dropped(q, sel, p, b) {
      var i :| 0 <= i < |q| && sel.Hits(q[i]) && q[i].piece == p && q[i].Block() == b;
      assert (q + [r])[i] == q[i];
    }
    if sel.Hits(r) && r.piece == p && r.Block() == b {
      assert (q + [r])[|q|] == r;
    }
  }

  /** The lengths of the output files of a torrent. */
  function Lengths(t: TorrentInfo): seq<nat> {
    if t.IsMultiFile() then seq(|t.files|, i requires 0 <= i < |t.files| => NatLength(t.files[i].length))
    else [NatLength(t.fileLength)]
  }

  function NatLength(length: int): nat {
    if length < 0 then 0 else length
  }

  lemma {:induction false} SumOfLengths(files: seq<FileEntry>, lengths: seq<nat>)
    requires |lengths| == |files| && forall i | 0 <= i < |files| :: lengths[i] == files[i].length
    ensures Sum(lengths) == SumLengths(files)
  {
    if files != [] {
      SumOfLengths(files[..|files| - 1], lengths[..|files| - 1]);
    }
  }

  lemma LengthsSumToTotal(t: TorrentInfo)
    requires Torrents.Valid(t)
    ensures Sum(Lengths(t)) == t.Total()
    ensures if t.files == [] then Lengths(t) == [t.fileLength]
            else |Lengths(t)| == |t.files| && forall i | 0 <= i < |t.files| :: Lengths(t)[i] == t.files[i].length
  {
    if t.IsMultiFile() {
      assert forall i | 0 <= i < |t.files| :: t.files[i] in t.files;
      SumOfLengths(t.files, Lengths(t));
    } else {
      assert [t.fileLength][..0] == [];
    }
  }

  lemma NothingRequested(cfg: Config, s: State, peer: PeerId, sends: nat, now: int)
    requires Inv(cfg, s)
    ensures Step(cfg, s, Requested(peer, cfg.torrent.NumPieces(), sends, now)) == s
  {
  }

  /** The peer may be sent requests at all. */
  ghost predicate CanAsk(cfg: Config, s: State, peer: PeerId) {
    Listening(s, peer) && !s.peers[peer].choking && Count(s.pending, OfPeer(peer)) < cfg.maxRequestsPerPeer
  }

  /** Piece `p` is the selected piece, or the first one needed from a peer that lacks the selected piece. */
  ghost predicate Chosen(s: State, peer: PeerId, p: nat)
    requires peer in s.peers && |s.pieces| == |s.completed|
    requires forall q | 0 <= q < |s.pieces| :: s.pieces[q].totalBlocks > 0
  {
    && Needed(s, peer, p)
    && exists best :: Selected(s.peers, s.pieces, s.completed, best) && best.Some? &&
         if Needed(s, peer, best.value) then p == best.value
         else forall q: nat | Needed(s, peer, q) :: p <= q
  }

  lemma AllPiecesHaveBlocks(cfg: Config, s: State)
    requires Inv(cfg, s)
    ensures forall p | 0 <= p < |s.pieces| :: s.pieces[p].totalBlocks > 0
    ensures forall p | 0 <= p < |s.pieces| && !s.completed[p] :: s.pieces[p].receivedBlocks < s.pieces[p].totalBlocks
  {
    forall p | 0 <= p < |s.pieces|
      ensures s.pieces[p].totalBlocks > 0
      ensures !s.completed[p] ==> s.pieces[p].receivedBlocks < s.pieces[p].totalBlocks
    {
      ReceivedPiece(cfg.torrent, p, s.pieces[p]);
    }
  }

  /** While some piece is incomplete, the selection names an incomplete piece. */
  lemma SelectionFindsIncomplete(s: State, peer: PeerId, p: nat, best: Option<nat>)
    requires peer in s.peers && Needed(s, peer, p) && |s.pieces| == |s.completed|
    requires forall q | 0 <= q < |s.pieces| :: s.pieces[q].totalBlocks > 0
    requires Selected(s.peers, s.pieces, s.completed, best)
    ensures best.Some? && best.value < |s.completed| && !s.completed[best.value]
    ensures s.peers[peer].HasPiece(best.value) <==> Needed(s, peer, best.value)
  {
  }

  /**
    The event is what becomes of the action: the action itself, or a round of requests to the same peer. The round
    is for the piece that the downloader chooses, if there is something to ask the peer for.
   */
  ghost predicate Handles(cfg: Config, s: State, action: Event, event: Event)
    requires Inv(cfg, s)
  {
    AllPiecesHaveBlocks(cfg, s);
    if action.Requested? then
      && event.Requested? && event.peer == action.peer && event.sends == action.sends && event.now == action.now
      && (CanAsk(cfg, s, action.peer) && (exists p: nat :: Needed(s, action.peer, p)) ==>
            Chosen(s, action.peer, event.piece))
    else
      event == action
  }

  /** Every action is handled, in order, by the event of the same number. */
  ghost predicate HandlesAll(cfg: Config, s: State, actions: seq<Event>, events: seq<Event>)
    requires Inv(cfg, s)
    decreases |actions|
  {
    && |events| == |actions|
    && (actions != [] ==>
          var n := |actions| - 1;
          && HandlesAll(cfg, s, actions[..n], events[..n])
          && Handles(cfg, Run(cfg, s, events[..n]), actions[n], events[n]))
  }

  lemma HandlesOneMore(cfg: Config, s: State, actions: seq<Event>, events: seq<Event>, i: nat, event: Event)
    requires Inv(cfg, s) && i < |actions| && HandlesAll(cfg, s, actions[..i], events)
    requires Handles(cfg, Run(cfg, s, events), actions[i], event)
    ensures HandlesAll(cfg, s, actions[..i + 1], events + [event])
  {
    assert actions[..i + 1][..i] == actions[..i] && (events + [event])[..i] == events;
  }

  /** What an accepted block leads to. */
  ghost function AfterAccept(
    cfg: Config, s: State, k: nat, data: bytes, written: nat, readable: nat, broken: set<PeerId>): State
    requires Inv(cfg, s) && k < |s.pending| && s.pending[k] in s.pending
  {
    var p, b := s.pending[k].piece, s.pending[k].Block();
    BlockBounds(cfg.torrent, p, b);
    PieceBounds(cfg.torrent, p);
    var s2 := Receive(cfg, s.(pending := RemoveAt(s.pending, k)), p, b, data, written);
    CancelDuplicates(Finish(cfg, s2, p, readable), p, s.pending[k].offset, s.pending[k].peer, broken)
  }

  /** The walk over the pending requests has looked at the first `seen` of `before`. */
  ghost predicate Erasing(
    before: seq<BlockRequest>, states: seq<PieceState>, sel: Selector,
    seen: nat, it: nat, pending: seq<BlockRequest>, pieces: seq<PieceState>)
  {
    && seen <= |before|
    && pending == Without(before[..seen], sel) + before[seen..]
    && it == |Without(before[..seen], sel)|
    && pieces == Cleared(states, before[..seen], sel)
  }

  lemma ErasingStep(
    t: TorrentInfo, before: seq<BlockRequest>, states: seq<PieceState>, sel: Selector,
    seen: nat, it: nat, pending: seq<BlockRequest>, pieces: seq<PieceState>)
    requires ShapedPieces(t, states) && forall r | r in before :: r.piece < |states|
    requires Erasing(before, states, sel, seen, it, pending, pieces) && it < |pending|
    ensures ShapedPieces(t, pieces) && pending[it].piece < |pieces|
    ensures var r := pending[it];
            if sel.Hits(r) then
              Erasing(before, states, sel, seen + 1, it, RemoveAt(pending, it),
                      SetRequested(pieces, r.piece, r.Block(), false))
            else
              Erasing(before, states, sel, seen + 1, it + 1, pending, pieces)
  {
    var request := pending[it];
    assert request == before[seen] && request in before;
    DropStep(before, sel, seen);
    ClearedNext(t, states, before, seen, sel);
  }

  lemma ClearedNext(t: TorrentInfo, states: seq<PieceState>, before: seq<BlockRequest>, seen: nat, sel: Selector)
    requires ShapedPieces(t, states) && seen < |before| && before[seen].piece < |states|
    ensures var pieces, r := Cleared(states, before[..seen], sel), before[seen];
            && ShapedPieces(t, pieces)
            && Cleared(states, before[..seen + 1], sel) ==
                 if sel.Hits(r) then SetRequested(pieces, r.piece, r.Block(), false) else pieces
  {
    assert before[..seen + 1] == before[..seen] + [before[seen]];
    ClearedStep(t, states, before[..seen], before[seen], sel);
  }

  lemma DropStep(before: seq<BlockRequest>, sel: Selector, seen: nat)
    requires seen < |before|
    ensures var kept, kept' := Without(before[..seen], sel), Without(before[..seen + 1], sel);
            var pending, rest := kept + before[seen..], before[seen + 1..];
            && pending[|kept|] == before[seen]
            && if sel.Hits(before[seen]) then kept' == kept && RemoveAt(pending, |kept|) == kept' + rest
               else |kept'| == |kept| + 1 && pending == kept' + rest
  {
    WalkStep(before, Without(before[..seen], sel), seen);
    assert before[..seen + 1] == before[..seen] + [before[seen]];
    WithoutAppend(before[..seen], before[seen], sel);
  }

  /** One request further in a walk that has kept `kept`: it is taken out, or kept as well. */
  lemma WalkStep(before: seq<BlockRequest>, kept: seq<BlockRequest>, seen: nat)
    requires seen < |before|
    ensures var pending := kept + before[seen..];
            && pending[|kept|] == before[seen]
            && RemoveAt(pending, |kept|) == kept + before[seen + 1..]
            && pending == kept + [before[seen]] + before[seen + 1..]
  {
    assert before[seen..] == [before[seen]] + before[seen + 1..];
  }

  lemma ErasingDone(
    before: seq<BlockRequest>, states: seq<PieceState>, sel: Selector,
    seen: nat, it: nat, pending: seq<BlockRequest>, pieces: seq<PieceState>)
    requires Erasing(before, states, sel, seen, it, pending, pieces) && it >= |pending|
    ensures pending == Without(before, sel) && pieces == Cleared(states, before, sel)
  {
    assert before[..seen] == before;
  }

  lemma WithoutAppend(q: seq<BlockRequest>, r: BlockRequest, sel: Selector)
    ensures Without(q + [r], sel) == Without(q, sel) + if sel.Hits(r) then [] else [r]
  {
    assert (q + [r])[..|q|] == q;
  }

  lemma NothingCleared(pieces: seq<PieceState>, sel: Selector)
    ensures Cleared(pieces, [], sel) == pieces
  {
    forall p | 0 <= p < |pieces| ensures Cleared(pieces, [], sel)[p] == pieces[p] {
      assert Cleared(pieces, [], sel)[p].requested == pieces[p].requested;
    }
  }

  lemma NothingScanned(
    cfg: Config, disk: bytes, readable: seq<nat>, pieces: seq<PieceState>, completed: seq<bool>)
    requires Valid(cfg.torrent) && |readable| == cfg.torrent.NumPieces()
    requires |pieces| == cfg.torrent.NumPieces() && completed == seq(cfg.torrent.NumPieces(), _ => false)
    requires forall p | 0 <= p < |pieces| :: pieces[p] == RestoredPiece(cfg.torrent, p, false)
    ensures State(map[], pieces, completed, 0, [], 0, false, disk) == Restored(cfg, disk, readable, 0)
  {
    var s := Restored(cfg, disk, readable, 0);
    assert pieces == s.pieces && completed == s.completed;
    CountTrueBounds(completed);
    NoGoodBytes(cfg.torrent, completed, |completed|);
  }

  lemma {:induction false} NoGoodBytes(t: TorrentInfo, flags: seq<bool>, n: nat)
    requires n <= |flags| && forall p | 0 <= p < |flags| :: !flags[p]
    ensures GoodBytes(t, flags, n) == 0
  {
    if n > 0 {
      NoGoodBytes(t, flags, n - 1);
    }
  }

  lemma {:induction false} OneMoreGood(t: TorrentInfo, flags: seq<bool>, i: nat, n: nat)
    requires i < |flags| && !flags[i] && n <= |flags|
    ensures GoodBytes(t, flags[i := true], n) == GoodBytes(t, flags, n) + if i < n then PieceSize(t, i) else 0
  {
    if n > 0 {
      OneMoreGood(t, flags, i, n - 1);
    }
  }

  /** A scan of one piece more. */
  lemma ScanOne(cfg: Config, disk: bytes, readable: seq<nat>, i: nat)
    requires CanStart(cfg, disk, readable) && i < cfg.torrent.NumPieces() && 0 <= PieceStart(cfg.torrent, i)
    ensures var s, good := Restored(cfg, disk, readable, i), Verifies(cfg, disk, i, readable[i]);
            && !s.completed[i]
            && Restored(cfg, disk, readable, i + 1) == s.(
                 pieces := s.pieces[i := RestoredPiece(cfg.torrent, i, good)],
                 completed := s.completed[i := good],
                 completedCount := s.completedCount + if good then 1 else 0,
                 downloaded := s.downloaded + if good then PieceSize(cfg.torrent, i) else 0)
  {
    var s, s' := Restored(cfg, disk, readable, i), Restored(cfg, disk, readable, i + 1);
    var good := Verifies(cfg, disk, i, readable[i]);
    assert s'.completed == s.completed[i := good];
    assert s'.pieces == s.pieces[i := RestoredPiece(cfg.torrent, i, good)];
    if good {
      CountTrueSet(s.completed, i);
      OneMoreGood(cfg.torrent, s.completed, i, |s.completed|);
    } else {
      assert s'.completed == s.completed;
    }
  }

  lemma ScanEnded(cfg: Config, disk: bytes, readable: seq<nat>, i: nat, scanned: nat)
    requires CanStart(cfg, disk, readable) && (i == scanned || i == cfg.torrent.NumPieces() <= scanned)
    ensures Restored(cfg, disk, readable, i) == Restored(cfg, disk, readable, scanned)
  {
    var s, s' := Restored(cfg, disk, readable, i), Restored(cfg, disk, readable, scanned);
    assert s.completed == s'.completed;
    assert s.pieces == s'.pieces;
  }

  lemma CompleteIsRight(cfg: Config, s: State)
    requires Inv(cfg, s)
    ensures IsComplete(cfg, s) <==> forall p | 0 <= p < cfg.torrent.NumPieces() :: s.completed[p]
    ensures IsComplete(cfg, s) ==> forall p: nat | p < cfg.torrent.NumPieces() :: HashesAsListed(cfg, s.disk, p)
  {
    BytesCounted(cfg, s);
    forall p: nat | p < cfg.torrent.NumPieces() && s.completed[p]
      ensures HashesAsListed(cfg, s.disk, p)
    {
      VerifiesAsListed(cfg, s.disk, p);
    }
  }

  class Downloader {
    const cfg: Config
    const output: OutputFiles
    var peers: map<PeerId, PeerView>
    var pieceStates: seq<PieceState>
    var piecesCompleted: seq<bool>
    var piecesCompletedCount: nat
    var pendingRequests: seq<BlockRequest>
    var downloadedBytes: int
    var endgame: bool

    ghost function Abs(): State
      reads this, output
    {
      State(peers, pieceStates, piecesCompleted, piecesCompletedCount, pendingRequests, downloadedBytes, endgame,
            output.Contents())
    }

    ghost predicate Valid()
      reads this, output
    {
      output.Valid() && Inv(cfg, Abs())
    }

    constructor (cfg: Config, output: OutputFiles)
      requires Torrents.Valid(cfg.torrent)
      ensures this.cfg == cfg && this.output == output
      ensures forall readable: seq<nat> | |readable| == cfg.torrent.NumPieces() ::
                Abs() == Restored(cfg, output.Contents(), readable, 0)
    {
      this.cfg, this.output := cfg, output;
      peers, pendingRequests, downloadedBytes, endgame := map[], [], 0, false;
      piecesCompletedCount := 0;
      piecesCompleted := seq(cfg.torrent.NumPieces(), _ => false);
      pieceStates := [];
      new;
      for i := 0 to cfg.torrent.NumPieces()
        invariant this.cfg == cfg && this.output == output
        invariant peers == map[] && pendingRequests == [] && !endgame
        invariant downloadedBytes == 0 && piecesCompletedCount == 0
        invariant piecesCompleted == seq(cfg.torrent.NumPieces(), _ => false)
        invariant |pieceStates| == i
        invariant forall p | 0 <= p < i :: pieceStates[p] == RestoredPiece(cfg.torrent, p, false)
      {
        PieceBounds(cfg.torrent, i);
        var n := Blocks(cfg.torrent, i);
        pieceStates := pieceStates + [PieceState(seq(n, _ => false), seq(n, _ => false), n, 0)];
      }
      forall readable: seq<nat> | |readable| == cfg.torrent.NumPieces()
        ensures Abs() == Restored(cfg, output.Contents(), readable, 0)
      {
        NothingScanned(cfg, output.Contents(), readable, pieceStates, piecesCompleted);
      }
    }

    // ----- The disk

    method WritePiece(index: nat, offset: nat, data: bytes, written: nat)
      requires output.Valid() && Torrents.Valid(cfg.torrent)
      modifies output
      ensures output.Valid()
      ensures 0 <= PieceStart(cfg.torrent, index) + offset
      ensures output.Contents()
           == Written(old(output.Contents()), PieceStart(cfg.torrent, index) + offset, data, written)
      ensures Sizes(output.files) == old(Sizes(output.files))
    {
      MulMonotone(0, index, cfg.torrent.pieceLength);
      output.Write(index * cfg.torrent.pieceLength + offset, data, written);
    }

    method ReadPieceFromDisk(index: nat, readable: nat) returns (ok: bool, data: bytes)
      requires output.Valid() && Torrents.Valid(cfg.torrent) && index < cfg.torrent.NumPieces()
      requires |output.Contents()| == cfg.torrent.Total()
      ensures 0 <= PieceStart(cfg.torrent, index)
      ensures ok <==> PieceSize(cfg.torrent, index) <= readable
      ensures ok ==> data == PieceBytes(cfg.torrent, output.Contents(), index)
    {
      PieceBounds(cfg.torrent, index);
      var pieceBytes := PieceSize(cfg.torrent, index);
      ok, data := output.Read(index * cfg.torrent.pieceLength, pieceBytes, readable);
    }

    /** The piece is read back and hashed; a read error counts as a mismatch. */
    method VerifyPiece(index: nat, readable: nat) returns (ok: bool)
      requires output.Valid() && Torrents.Valid(cfg.torrent) && index < cfg.torrent.NumPieces()
      requires |output.Contents()| == cfg.torrent.Total()
      ensures 0 <= PieceStart(cfg.torrent, index)
      ensures ok <==> Verifies(cfg, output.Contents(), index, readable)
      ensures ok <==> PieceSize(cfg.torrent, index) <= readable && HashesAsListed(cfg, output.Contents(), index)
    {
      VerifiesAsListed(cfg, output.Contents(), index);
      var read, data := ReadPieceFromDisk(index, readable);
      if !read {
        return false;
      }
      ok := cfg.sha1(data) == ExpectedHash(cfg.torrent, index);
    }

    // ----- Resume

    /** Every piece is verified in turn, until the scan is stopped after `scanned` pieces. */
    method RestoreCompletedPieces(readable: seq<nat>, scanned: nat)
      requires output.Valid() && CanStart(cfg, output.Contents(), readable)
      requires Abs() == Restored(cfg, output.Contents(), readable, 0)
      modifies this
      ensures Valid() && Abs() == Start(cfg, output.Contents(), readable, scanned)
    {
      var n := cfg.torrent.NumPieces();
      NothingScanned(cfg, output.Contents(), readable, pieceStates, piecesCompleted);
      piecesCompletedCount, downloadedBytes := 0, 0;
      var i := 0;
      while i < n && i < scanned
        invariant 0 <= i <= n && (i > 0 ==> i <= scanned)
        invariant Abs() == Restored(cfg, output.Contents(), readable, i)
      {
        ScanPiece(i, readable);
        i := i + 1;
      }
      ScanEnded(cfg, output.Contents(), readable, i, scanned);
      RestoredInv(cfg, output.Contents(), readable, scanned);
    }

    method ScanPiece(i: nat, readable: seq<nat>)
      requires output.Valid() && CanStart(cfg, output.Contents(), readable) && i < cfg.torrent.NumPieces()
      requires Abs() == Restored(cfg, output.Contents(), readable, i)
      modifies this
      ensures Abs() == Restored(cfg, output.Contents(), readable, i + 1)
    {
      var valid := VerifyPiece(i, readable[i]);
      ScanOne(cfg, output.Contents(), readable, i);
      var total := pieceStates[i].totalBlocks;
      piecesCompleted := piecesCompleted[i := valid];
      pieceStates := pieceStates[i := PieceState(seq(total, _ => false), seq(total, _ => valid), total,
                                                 if valid then total else 0)];
      if valid {
        piecesCompletedCount := piecesCompletedCount + 1;
        downloadedBytes := downloadedBytes + PieceSize(cfg.torrent, i);
      }
    }

    // ----- Requests

    method SelectNextPiece() returns (best: Option<nat>)
      requires |pieceStates| == |piecesCompleted|
      requires forall p | 0 <= p < |pieceStates| :: pieceStates[p].totalBlocks > 0
      ensures Selected(peers, pieceStates, piecesCompleted, best)
    {
      best := MostCompletePiece();
      if best.None? {
        best := RarestPiece();
      }
    }

    /** The best-scored piece that is under way. */
    method MostCompletePiece() returns (best: Option<nat>)
      requires |pieceStates| == |piecesCompleted|
      requires forall p | 0 <= p < |pieceStates| :: pieceStates[p].totalBlocks > 0
      ensures BestOf(peers, pieceStates, piecesCompleted, best, |pieceStates|)
    {
      best := None;
      var bestScore := -1;
      for i := 0 to |pieceStates|
        invariant BestOf(peers, pieceStates, piecesCompleted, best, i)
        invariant bestScore == if best.None? then -1 else Score(pieceStates[best.value], PeerCount(peers, best.value))
      {
        BestAfter(peers, pieceStates, piecesCompleted, best, i);
        if piecesCompleted[i] || pieceStates[i].receivedBlocks == 0 {
          continue;
        }
        var score := Score(pieceStates[i], PeerCount(peers, i));
        if score > bestScore {
          bestScore, best := score, Some(i);
        }
      }
    }

    /** The incomplete piece that the fewest peers have. */
    method RarestPiece() returns (best: Option<nat>)
      ensures best.None? ==> forall q | 0 <= q < |piecesCompleted| :: piecesCompleted[q]
      ensures best.Some? ==> Rarest(peers, piecesCompleted, best.value, |piecesCompleted|)
    {
      best := None;
      var minPeers := 0;
      for i := 0 to |piecesCompleted|
        invariant best.None? ==> forall q | 0 <= q < i :: piecesCompleted[q]
        invariant best.Some? ==>
            Rarest(peers, piecesCompleted, best.value, i) && minPeers == PeerCount(peers, best.value)
      {
        if piecesCompleted[i] {
          continue;
        }
        if best.None? || PeerCount(peers, i) < minPeers {
          minPeers, best := PeerCount(peers, i), Some(i);
        }
      }
    }

    /** Whether a round may ask for a block that is in flight already: only in endgame, and not too often. */
    method MayDuplicate(peer: PeerId, piece: nat, offset: nat) returns (may: bool)
      ensures may <==> endgame && Count(pendingRequests, Copy(piece, offset, peer)) == 0
                       && Count(pendingRequests, OfBlock(piece, offset)) < MAX_COPIES
    {
      var requestedFromPeer, dupCount := false, 0;
      ghost var own, all := Copy(piece, offset, peer), OfBlock(piece, offset);
      var j := 0;
      while j < |pendingRequests| && !requestedFromPeer
        invariant 0 <= j <= |pendingRequests|
        invariant requestedFromPeer <==> Count(pendingRequests[..j], own) > 0
        invariant !requestedFromPeer ==> dupCount == Count(pendingRequests[..j], all)
      {
        var req := pendingRequests[j];
        assert pendingRequests[..j + 1] == pendingRequests[..j] + [req];
        CountAppend(pendingRequests[..j], req, own);
        CountAppend(pendingRequests[..j], req, all);
        if req.piece == piece && req.offset == offset {
          if req.peer == peer {
            requestedFromPeer := true;
          } else {
            dupCount := dupCount + 1;
          }
        }
        j := j + 1;
      }
      assert pendingRequests == pendingRequests[..j] + pendingRequests[j..];
      CountConcat(pendingRequests[..j], pendingRequests[j..], own);
      if !requestedFromPeer {
        assert pendingRequests[..j] == pendingRequests;
      }
      may := endgame && !requestedFromPeer && dupCount < MAX_COPIES;
    }

    /** The pieces this peer has that are still to be completed, in order. */
    method NeededPieces(peer: PeerId) returns (needed: seq<nat>)
      requires peer in peers && |pieceStates| == |piecesCompleted|
      requires forall p | 0 <= p < |piecesCompleted| && !piecesCompleted[p] ::
                 pieceStates[p].receivedBlocks < pieceStates[p].totalBlocks
      ensures forall p: nat :: p in needed <==> Needed(Abs(), peer, p)
      ensures needed != [] ==> forall p | p in needed :: needed[0] <= p
    {
      needed := [];
      for i := 0 to |piecesCompleted|
        invariant forall p: nat :: p in needed <==> p < i && Needed(Abs(), peer, p)
        invariant forall k | 0 <= k < |needed| :: needed[0] <= needed[k] < i
      {
        if !piecesCompleted[i] && peers[peer].HasPiece(i) {
          if pieceStates[i].receivedBlocks < pieceStates[i].totalBlocks {
            needed := needed + [i];
          }
        }
      }
    }

    /** The selected piece, or the first one the peer has when it lacks the selected one. */
    method ChoosePiece(peer: PeerId) returns (piece: Option<nat>)
      requires Inv(cfg, Abs()) && peer in peers
      requires forall q | 0 <= q < |pieceStates| :: pieceStates[q].totalBlocks > 0
      requires forall q | 0 <= q < |pieceStates| && !piecesCompleted[q] ::
                 pieceStates[q].receivedBlocks < pieceStates[q].totalBlocks
      ensures piece.Some? <==> exists p: nat :: Needed(Abs(), peer, p)
      ensures piece.Some? ==> Chosen(Abs(), peer, piece.value)
    {
      var needed := NeededPieces(peer);
      if needed == [] {
        assert forall p: nat :: Needed(Abs(), peer, p) ==> p in needed;
        return None;
      }
      var selected := SelectNextPiece();
      SelectionFindsIncomplete(Abs(), peer, needed[0], selected);
      piece := if peers[peer].HasPiece(selected.value) then selected else Some(needed[0]);
    }

    /**
      A round of requests to one peer. The piece asked for is the globally selected one when the
      peer has it, and otherwise the peer's first needed piece.
     */
    method RequestBlocksFromPeer(peer: PeerId, sends: nat, now: int) returns (piece: Option<nat>)
      requires Valid()
      modifies this
      ensures Valid()
      ensures piece.Some? <==> old(CanAsk(cfg, Abs(), peer) && exists p: nat :: Needed(Abs(), peer, p))
      ensures piece.Some? ==> old(forall q | 0 <= q < |pieceStates| :: pieceStates[q].totalBlocks > 0)
      ensures piece.Some? ==> old(Chosen(Abs(), peer, piece.value))
      ensures piece.Some? ==> Abs() == OnRequested(cfg, old(Abs()), peer, piece.value, sends, now)
      ensures piece.None? ==> Abs() == old(Abs())
    {
      piece := None;
      if peer !in peers || !peers[peer].connected || peers[peer].choking {
        return;
      }
      var currentRequests := CountRequests(peer);
      if currentRequests >= cfg.maxRequestsPerPeer {
        return;
      }
      AllPiecesHaveBlocks(cfg, Abs());
      piece := ChoosePiece(peer);
      if piece.None? {
        return;
      }
      RequestedKeeps(cfg, Abs(), peer, piece.value, sends, now);
      RequestBlocks(peer, piece.value, currentRequests, sends, now);
    }

    method CountRequests(peer: PeerId) returns (n: nat)
      ensures n == Count(pendingRequests, OfPeer(peer))
    {
      n := 0;
      for i := 0 to |pendingRequests|
        invariant n == Count(pendingRequests[..i], OfPeer(peer))
      {
        assert pendingRequests[..i + 1] == pendingRequests[..i] + [pendingRequests[i]];
        CountAppend(pendingRequests[..i], pendingRequests[i], OfPeer(peer));
        if pendingRequests[i].peer == peer {
          n := n + 1;
        }
      }
      assert pendingRequests[..|pendingRequests|] == pendingRequests;
    }

    /** Whether the block is still to be asked for: missing, and free or open to a second request. */
    method WantsBlock(peer: PeerId, p: nat, b: nat) returns (wanted: bool)
      requires Typed(cfg, Abs()) && IsBlock(cfg.torrent, p, b)
      ensures wanted == Wants(Abs(), peer, p, b)
    {
      wanted := !pieceStates[p].received[b];
      if wanted && pieceStates[p].requested[b] {
        wanted := MayDuplicate(peer, p, b * BLOCK_SIZE);
      }
    }

    method RequestBlocks(peer: PeerId, p: nat, current: int, sends: nat, now: int)
      requires Typed(cfg, Abs()) && p < cfg.torrent.NumPieces()
      modifies this
      ensures Abs() == RequestFrom(cfg, old(Abs()), peer, p, 0, current, sends, now)
    {
      ghost var target := RequestFrom(cfg, Abs(), peer, p, 0, current, sends, now);
      var i, currentRequests, left := 0, current, sends;
      var totalBlocks := pieceStates[p].totalBlocks;
      while i < totalBlocks && currentRequests < cfg.maxRequestsPerPeer
        invariant 0 <= i <= totalBlocks == Blocks(cfg.torrent, p) && left >= 0
        invariant Typed(cfg, Abs())
        invariant RequestFrom(cfg, Abs(), peer, p, i, currentRequests, left, now) == target
        decreases totalBlocks - i
      {
        var wanted := WantsBlock(peer, p, i);
        if wanted && left == 0 {
          peers := SetConnected(peers, peer, false);
          return;
        }
        if wanted {
          SendOne(peer, p, i, now);
          currentRequests, left := currentRequests + 1, left - 1;
        }
        i := i + 1;
      }
    }

    method SendOne(peer: PeerId, p: nat, i: nat, now: int)
      requires Typed(cfg, Abs()) && IsBlock(cfg.torrent, p, i)
      modifies this`pieceStates, this`pendingRequests
      ensures Typed(cfg, Abs()) && Abs() == RequestOne(cfg, old(Abs()), peer, p, i, now)
    {
      BlockBounds(cfg.torrent, p, i);
      var offset, blockLen := i * BLOCK_SIZE, BlockLength(cfg.torrent, p, i);
      pieceStates := SetRequested(pieceStates, p, i, true);
      pendingRequests := pendingRequests + [BlockRequest(p, offset, blockLen, peer, now)];
    }

    method CountRemaining() returns (remainingBlocks: int)
      requires |pieceStates| == |piecesCompleted|
      ensures remainingBlocks == Remaining(Abs(), |pieceStates|)
    {
      remainingBlocks := 0;
      for i := 0 to |pieceStates|
        invariant remainingBlocks == Remaining(Abs(), i)
      {
        if !piecesCompleted[i] {
          remainingBlocks := remainingBlocks + (pieceStates[i].totalBlocks - pieceStates[i].receivedBlocks);
        }
      }
    }

    method UpdateEndgame()
      requires Valid()
      modifies this
      ensures Valid() && Abs() == OnEndgameUpdated(cfg, old(Abs()))
    {
      EndgameKeeps(cfg, Abs());
      var remainingBlocks := CountRemaining();
      endgame := remainingBlocks <= ENDGAME_BLOCK_THRESHOLD;
    }

    // ----- Giving up requests

    /**
      Erases the pending requests the selector hits while walking over them, and frees each one's
      block to be requested again.
     */
    method EraseRequests(sel: Selector)
      requires ShapedPieces(cfg.torrent, pieceStates)
      requires forall r | r in pendingRequests :: r.piece < |pieceStates|
      modifies this`pendingRequests, this`pieceStates
      ensures pendingRequests == Without(old(pendingRequests), sel)
      ensures pieceStates == Cleared(old(pieceStates), old(pendingRequests), sel)
    {
      ghost var before, states := pendingRequests, pieceStates;
      ghost var seen: nat := 0;
      var it := 0;
      NothingCleared(states, sel);
      while it < |pendingRequests|
        invariant Erasing(before, states, sel, seen, it, pendingRequests, pieceStates)
        decreases |pendingRequests| - it
      {
        ErasingStep(cfg.torrent, before, states, sel, seen, it, pendingRequests, pieceStates);
        var request := pendingRequests[it];
        if sel.Hits(request) {
          pieceStates := SetRequested(pieceStates, request.piece, request.Block(), false);
          pendingRequests := RemoveAt(pendingRequests, it);
        } else {
          it := it + 1;
        }
        seen := seen + 1;
      }
      ErasingDone(before, states, sel, seen, it, pendingRequests, pieceStates);
    }

    /** A choke message: the peer's requests are given up. */
    method HandleChoke(peer: PeerId)
      requires Valid()
      modifies this
      ensures Valid() && Abs() == OnChoked(old(Abs()), peer)
    {
      ghost var s := Abs();
      ChokedKeeps(cfg, s, peer);
      if peer !in peers || !peers[peer].connected {
        return;
      }
      peers := peers[peer := peers[peer].(choking := true)];
      EraseRequests(OfPeer(peer));
    }

    method CleanupTimedOutRequests(now: int)
      requires Valid()
      modifies this
      ensures Valid() && Abs() == Drop(old(Abs()), Expired(now))
    {
      CleanedUpKeeps(cfg, Abs(), Expired(now));
      EraseRequests(Expired(now));
    }

    /** Tells the other peers that were asked for the block to stop; a failed send ends the connection. */
    method CancelDuplicateRequests(piece: nat, offset: nat, keep: PeerId, broken: set<PeerId>)
      requires Valid()
      modifies this
      ensures Valid() && Abs() == CancelDuplicates(old(Abs()), piece, offset, keep, broken)
    {
      var sel := Duplicate(piece, offset, keep);
      CancelDuplicatesKeeps(cfg, Abs(), piece, offset, keep, broken);
      var lost := set r | r in pendingRequests && sel.Hits(r) && r.peer in broken :: r.peer;
      EraseRequests(sel);
      peers := map peer | peer in peers ::
        if peer in lost then peers[peer].(connected := false) else peers[peer];
    }

    // ----- Blocks

    method HandleBlock(peer: PeerId, payload: bytes, written: nat, readable: nat, broken: set<PeerId>)
      requires Valid()
      modifies this, output
      ensures Valid() && Abs() == OnBlock(cfg, old(Abs()), peer, payload, written, readable, broken)
      ensures Sizes(output.files) == old(Sizes(output.files))
    {
      ghost var s := Abs();
      if peer !in peers || !peers[peer].connected || |payload| < 8 {
        return;
      }
      var pieceIndex, offset := BytesToInt(payload), BytesToInt(payload[4..]);
      var it := FindFirst(pendingRequests, Copy(pieceIndex, offset, peer));
      if it == |pendingRequests| {
        return;
      }
      var request := pendingRequests[it];
      assert request in pendingRequests && SoundRequest(cfg.torrent, request);
      var blockData, blockIndex := payload[8..], offset / BLOCK_SIZE;
      if |blockData| != request.length {
        RejectBlock(it);
      } else if blockIndex >= pieceStates[pieceIndex].totalBlocks || pieceStates[pieceIndex].received[blockIndex] {
        DropDuplicate(it);
      } else {
        AcceptBlock(it, blockData, written, readable, broken);
      }
    }

    /** A block of another length than requested: its request is dropped and the block freed. */
    method RejectBlock(it: nat)
      requires Valid() && it < |pendingRequests| && pendingRequests[it] in pendingRequests
      modifies this
      ensures Valid()
      ensures Abs() == old(var r := pendingRequests[it];
                           Abs().(pending := RemoveAt(pendingRequests, it),
                                  pieces := SetRequested(pieceStates, r.piece, r.Block(), false)))
    {
      RejectKeeps(cfg, Abs(), it);
      var request := pendingRequests[it];
      pieceStates := SetRequested(pieceStates, request.piece, request.Block(), false);
      pendingRequests := RemoveAt(pendingRequests, it);
    }

    /** A block that has arrived before: only its request is dropped. */
    method DropDuplicate(it: nat)
      requires Valid() && it < |pendingRequests| && pendingRequests[it] in pendingRequests
      requires pieceStates[pendingRequests[it].piece].received[pendingRequests[it].Block()]
      modifies this
      ensures Valid() && Abs() == old(Abs().(pending := RemoveAt(pendingRequests, it)))
    {
      DuplicateKeeps(cfg, Abs(), it);
      pendingRequests := RemoveAt(pendingRequests, it);
    }

    /** A new block of the requested length: written, counted, and its piece checked if it was the last. */
    method AcceptBlock(it: nat, blockData: bytes, written: nat, readable: nat, broken: set<PeerId>)
      requires Valid() && it < |pendingRequests| && pendingRequests[it] in pendingRequests
      requires !pieceStates[pendingRequests[it].piece].received[pendingRequests[it].Block()]
      requires |blockData| == pendingRequests[it].length
      modifies this, output
      ensures Valid()
      ensures old(IsBlock(cfg.torrent, pendingRequests[it].piece, pendingRequests[it].Block()))
      ensures old(0 <= BlockStart(cfg.torrent, pendingRequests[it].piece, pendingRequests[it].Block()))
      ensures old(0 <= PieceStart(cfg.torrent, pendingRequests[it].piece))
      ensures Abs() == old(AfterAccept(cfg, Abs(), it, blockData, written, readable, broken))
      ensures Sizes(output.files) == old(Sizes(output.files))
    {
      ghost var s := Abs();
      var request := pendingRequests[it];
      var pieceIndex, offset, blockIndex := request.piece, request.offset, request.Block();
      AcceptKeeps(cfg, s, it, blockData, written);
      BlockBounds(cfg.torrent, pieceIndex, blockIndex);
      PieceBounds(cfg.torrent, pieceIndex);
      ghost var s2 := Receive(cfg, s.(pending := RemoveAt(s.pending, it)), pieceIndex, blockIndex, blockData, written);
      FinishKeeps(cfg, s2, pieceIndex, readable);
      pendingRequests := RemoveAt(pendingRequests, it);
      StoreBlock(pieceIndex, blockIndex, blockData, written);
      assert Abs() == s2;
      FinishPiece(pieceIndex, readable);
      CancelDuplicateRequests(pieceIndex, offset, request.peer, broken);
    }

    method StoreBlock(pieceIndex: nat, blockIndex: nat, blockData: bytes, written: nat)
      requires output.Valid() && Torrents.Valid(cfg.torrent)
      requires pieceIndex < |pieceStates| && blockIndex < |pieceStates[pieceIndex].received|
      requires 0 <= BlockStart(cfg.torrent, pieceIndex, blockIndex)
      modifies this, output
      ensures output.Valid() && Abs() == Receive(cfg, old(Abs()), pieceIndex, blockIndex, blockData, written)
      ensures Sizes(output.files) == old(Sizes(output.files))
    {
      WritePiece(pieceIndex, blockIndex * BLOCK_SIZE, blockData, written);
      downloadedBytes := downloadedBytes + |blockData|;
      var state := pieceStates[pieceIndex];
      pieceStates := pieceStates[pieceIndex := state.(received := state.received[blockIndex := true],
                                                      receivedBlocks := state.receivedBlocks + 1)];
    }

    /** The hash check when a piece's last block has arrived, and the reset when it fails. */
    method FinishPiece(pieceIndex: nat, readable: nat)
      requires output.Valid() && Typed(cfg, Abs())
      requires pieceIndex < |pieceStates| && 0 <= PieceStart(cfg.torrent, pieceIndex)
      modifies this
      ensures Abs() == Finish(cfg, old(Abs()), pieceIndex, readable)
    {
      var state := pieceStates[pieceIndex];
      if state.receivedBlocks < state.totalBlocks {
        return;
      }
      var ok := VerifyPiece(pieceIndex, readable);
      if ok {
        piecesCompleted := piecesCompleted[pieceIndex := true];
        piecesCompletedCount := piecesCompletedCount + 1;
        return;
      }
      var none := seq(state.totalBlocks, _ => false);
      pieceStates := pieceStates[pieceIndex := PieceState(none, none, state.totalBlocks, 0)];
      DropPieceRequests(pieceIndex);
      downloadedBytes := Max(0, downloadedBytes - PieceSize(cfg.torrent, pieceIndex));
    }

    method DropPieceRequests(pieceIndex: nat)
      modifies this`pendingRequests
      ensures pendingRequests == Without(old(pendingRequests), OfPiece(pieceIndex))
    {
      ghost var before := pendingRequests;
      ghost var seen: nat := 0;
      var pr := 0;
      while pr < |pendingRequests|
        invariant 0 <= pr <= |pendingRequests| && seen <= |before|
        invariant pendingRequests == Without(before[..seen], OfPiece(pieceIndex)) + before[seen..]
        invariant pr == |Without(before[..seen], OfPiece(pieceIndex))|
        decreases |pendingRequests| - pr
      {
        var request := pendingRequests[pr];
        DropStep(before, OfPiece(pieceIndex), seen);
        if request.piece == pieceIndex {
          pendingRequests := RemoveAt(pendingRequests, pr);
        } else {
          pr := pr + 1;
        }
        seen := seen + 1;
      }
      assert before[..seen] == before;
    }

    // ----- The protocol loop

    method HandleConnected(peer: PeerId)
      requires Valid()
      modifies this
      ensures Valid() && Abs() == OnConnected(cfg, old(Abs()), peer)
    {
      PeersKeep(cfg, Abs(), OnConnected(cfg, Abs(), peer));
      var choking := if peer in peers then peers[peer].choking else true;
      peers := peers[peer := PeerView(true, choking, seq(cfg.torrent.NumPieces(), _ => false))];
    }

    method HandleDisconnected(peer: PeerId)
      requires Valid()
      modifies this
      ensures Valid() && Abs() == Step(cfg, old(Abs()), Disconnected(peer))
    {
      StepKeeps(cfg, Abs(), Disconnected(peer));
      peers := SetConnected(peers, peer, false);
    }

    method HandleUnchoke(peer: PeerId)
      requires Valid()
      modifies this
      ensures Valid() && Abs() == OnUnchoked(old(Abs()), peer)
    {
      PeersKeep(cfg, Abs(), OnUnchoked(Abs(), peer));
      if peer in peers && peers[peer].connected {
        peers := peers[peer := peers[peer].(choking := false)];
      }
    }

    method HandleAnnounced(peer: PeerId, has: seq<bool>)
      requires Valid()
      modifies this
      ensures Valid() && Abs() == OnAnnounced(old(Abs()), peer, has)
    {
      PeersKeep(cfg, Abs(), OnAnnounced(Abs(), peer, has));
      if peer in peers && peers[peer].connected {
        peers := peers[peer := peers[peer].(has := has)];
      }
    }

    /**
      One action of the loop. In a round of requests the downloader chooses the piece itself, whatever
      the action says, and the resulting event names its choice.
     */
    method Perform(action: Event) returns (ghost event: Event)
      requires Valid()
      modifies this, output
      ensures Valid() && Abs() == Step(cfg, old(Abs()), event)
      ensures Handles(cfg, old(Abs()), action, event)
      ensures Sizes(output.files) == old(Sizes(output.files))
    {
      event := action;
      match action {
        case Connected(peer) => HandleConnected(peer);
        case Disconnected(peer) => HandleDisconnected(peer);
        case Choked(peer) => HandleChoke(peer);
        case Unchoked(peer) => HandleUnchoke(peer);
        case Announced(peer, has) => HandleAnnounced(peer, has);
        case BlockArrived(peer, payload, written, readable, broken) =>
          HandleBlock(peer, payload, written, readable, broken);
        case CleanedUp(now) => CleanupTimedOutRequests(now);
        case EndgameUpdated => UpdateEndgame();
        case Requested(peer, _, sends, now) => event := PerformRequests(peer, sends, now);
      }
    }

    method PerformRequests(peer: PeerId, sends: nat, now: int) returns (ghost event: Event)
      requires Valid()
      modifies this
      ensures Valid() && Abs() == Step(cfg, old(Abs()), event)
      ensures forall p :: Handles(cfg, old(Abs()), Requested(peer, p, sends, now), event)
    {
      ghost var s := Abs();
      var piece := RequestBlocksFromPeer(peer, sends, now);
      if piece.Some? {
        event := Requested(peer, piece.value, sends, now);
        assert Step(cfg, s, event) == OnRequested(cfg, s, peer, piece.value, sends, now);
      } else {
        event := Requested(peer, cfg.torrent.NumPieces(), sends, now);
        NothingRequested(cfg, s, peer, sends, now);
      }
    }

    /** The loop over any actions is a run, so what holds of every run holds of the object. */
    method DownloadLoop(actions: seq<Event>) returns (ghost events: seq<Event>, complete: bool)
      requires Valid()
      modifies this, output
      ensures Valid() && Abs() == Run(cfg, old(Abs()), events) && HandlesAll(cfg, old(Abs()), actions, events)
      ensures complete <==> forall p | 0 <= p < cfg.torrent.NumPieces() :: piecesCompleted[p]
      ensures complete <==> downloadedBytes == cfg.torrent.Total()
      ensures complete ==> forall p: nat | p < cfg.torrent.NumPieces() :: HashesAsListed(cfg, output.Contents(), p)
      ensures Sizes(output.files) == old(Sizes(output.files))
    {
      events := [];
      for i := 0 to |actions|
        invariant Valid() && Abs() == Run(cfg, old(Abs()), events)
        invariant HandlesAll(cfg, old(Abs()), actions[..i], events)
        invariant Sizes(output.files) == old(Sizes(output.files))
      {
        ghost var event := Perform(actions[i]);
        HandlesOneMore(cfg, old(Abs()), actions, events, i, event);
        RunAppend(cfg, old(Abs()), events, event);
        events := events + [event];
      }
      assert actions[..|actions|] == actions;
      complete := piecesCompletedCount >= cfg.torrent.NumPieces();
      BytesCounted(cfg, Abs());
      CompleteIsRight(cfg, Abs());
    }
  }

  /**
    A whole download: the output files are opened, what they hold is scanned, and unless the scan was stopped or
    found everything the loop handles the actions. `disk` is what the files hold after opening.
   */
  method StartDownload(
    cfg: Config, targets: seq<Target>, overwrite: bool, readable: seq<nat>, scanned: nat, actions: seq<Event>)
    returns (started: bool, complete: bool, downloader: Downloader, ghost disk: bytes, ghost events: seq<Event>)
    requires Torrents.Valid(cfg.torrent) && |targets| == |Lengths(cfg.torrent)|
    requires |readable| == cfg.torrent.NumPieces()
    ensures started <==> forall i | 0 <= i < |targets| :: FitsIn(targets[i], Lengths(cfg.torrent)[i], overwrite)
    ensures fresh(downloader) && fresh(downloader.output) && downloader.cfg == cfg
    ensures started ==>
              && CanStart(cfg, disk, readable) && OpensTo(disk, Lengths(cfg.torrent), targets, overwrite)
              && Sizes(downloader.output.files) == Lengths(cfg.torrent)
              && downloader.Valid() && downloader.Abs() == Reached(cfg, disk, readable, scanned, events)
              && (complete <==> IsComplete(cfg, downloader.Abs()))
              && var s := Start(cfg, disk, readable, scanned);
                 if scanned >= cfg.torrent.NumPieces() && !IsComplete(cfg, s) then HandlesAll(cfg, s, actions, events)
                 else events == []
    ensures started && complete ==>
              forall p: nat | p < cfg.torrent.NumPieces() :: HashesAsListed(cfg, downloader.output.Contents(), p)
  {
    started, downloader := OpenDownload(cfg, targets, overwrite);
    complete, disk, events := false, downloader.output.Contents(), [];
    if !started {
      return;
    }
    downloader.RestoreCompletedPieces(readable, scanned);
    complete := downloader.piecesCompletedCount >= cfg.torrent.NumPieces();
    if scanned >= cfg.torrent.NumPieces() && !complete {
      events, complete := downloader.DownloadLoop(actions);
    }
    CompleteIsRight(cfg, downloader.Abs());
  }

  /** Opens the output files; the content is as long as the torrent's. */
  method OpenDownload(cfg: Config, targets: seq<Target>, overwrite: bool)
    returns (started: bool, downloader: Downloader)
    requires Torrents.Valid(cfg.torrent) && |targets| == |Lengths(cfg.torrent)|
    ensures started <==> forall i | 0 <= i < |targets| :: FitsIn(targets[i], Lengths(cfg.torrent)[i], overwrite)
    ensures fresh(downloader) && fresh(downloader.output) && downloader.cfg == cfg && downloader.output.Valid()
    ensures started ==>
              && |downloader.output.Contents()| == cfg.torrent.Total()
              && OpensTo(downloader.output.Contents(), Lengths(cfg.torrent), targets, overwrite)
              && Sizes(downloader.output.files) == Lengths(cfg.torrent)
    ensures forall readable: seq<nat> | |readable| == cfg.torrent.NumPieces() ::
              downloader.Abs() == Restored(cfg, downloader.output.Contents(), readable, 0)
  {
    var output := new OutputFiles();
    started := output.Open(Lengths(cfg.torrent), targets, overwrite);
    downloader := new Downloader(cfg, output);
    LengthsSumToTotal(cfg.torrent);
  }
}
