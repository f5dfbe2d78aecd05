/** What the arrival of a block keeps. */
module BlockInvariant {
  import opened Bytes
  import opened Torrents
  import opened OutputStore
  import opened DownloadState
  import opened RequestCounts
  import opened DownloadInvariant

  // ----- The request that the block answers

  /** Apart from block `b` of piece `p`, the flags are as before; that block is free or has arrived. */
  ghost predicate Answered(t: TorrentInfo, pieces: seq<PieceState>, pieces': seq<PieceState>, p: nat, b: nat)
    requires ShapedPieces(t, pieces) && ShapedPieces(t, pieces')
  {
    forall q: nat, c: nat | IsBlock(t, q, c) :: AnsweredAt(pieces, pieces', q, c, q == p && c == b)
  }

  ghost predicate AnsweredAt(pieces: seq<PieceState>, pieces': seq<PieceState>, q: nat, c: nat, hit: bool)
    requires q < |pieces| == |pieces'|
    requires c < |pieces[q].requested| && c < |pieces[q].received|
    requires c < |pieces'[q].requested| && c < |pieces'[q].received|
  {
    if hit then
      pieces'[q].requested[c] ==> pieces[q].requested[c] && pieces'[q].received[c]
    else
      pieces'[q].requested[c] == pieces[q].requested[c] && pieces'[q].received[c] == pieces[q].received[c]
  }

  lemma AnsweredByFreeing(t: TorrentInfo, pieces: seq<PieceState>, p: nat, b: nat)
    requires ShapedPieces(t, pieces) && IsBlock(t, p, b)
    ensures ShapedPieces(t, SetRequested(pieces, p, b, false))
    ensures Answered(t, pieces, SetRequested(pieces, p, b, false), p, b)
  {
  }

  lemma AnsweredByReceiving(t: TorrentInfo, pieces: seq<PieceState>, pieces': seq<PieceState>, p: nat, b: nat)
    requires ShapedPieces(t, pieces) && IsBlock(t, p, b)
    requires pieces' == pieces[p := pieces[p].(received := pieces[p].received[b := true],
                                               receivedBlocks := pieces[p].receivedBlocks + 1)]
    ensures ShapedPieces(t, pieces') && Answered(t, pieces, pieces', p, b)
  {
  }

  lemma AnsweredCopies(
    t: TorrentInfo, q: seq<BlockRequest>, k: nat, pieces: seq<PieceState>, pieces': seq<PieceState>, p: nat, b: nat)
    requires ShapedPieces(t, pieces) && ShapedPieces(t, pieces') && k < |q| && SoundRequest(t, q[k])
    requires Answered(t, pieces, pieces', q[k].piece, q[k].Block())
    requires IsBlock(t, p, b) && CopiesMatch(q, pieces, p, b)
    ensures CopiesMatch(RemoveAt(q, k), pieces', p, b)
  {
    CountRemoveAt(q, k, OfBlock(p, b * BLOCK_SIZE));
  }

  lemma AnsweredKeeps(cfg: Config, s: State, k: nat, s': State)
    requires RequestInv(cfg, s) && Typed(cfg, s')
    requires k < |s.pending| && s'.pending == RemoveAt(s.pending, k) && s'.peers == s.peers
    requires s.pending[k] in s.pending
    requires Answered(cfg.torrent, s.pieces, s'.pieces, s.pending[k].piece, s.pending[k].Block())
    ensures RequestInv(cfg, s')
  {
    forall r | r in s'.pending ensures r in s.pending {
    }
    forall peer ensures Count(s'.pending, OfPeer(peer)) <= Max(0, cfg.maxRequestsPerPeer) {
      CountRemoveAt(s.pending, k, OfPeer(peer));
    }
    forall p, b | IsBlock(cfg.torrent, p, b) ensures CopiesMatch(s'.pending, s'.pieces, p, b) {
      assert CopiesMatch(s.pending, s.pieces, p, b);
      AnsweredCopies(cfg.torrent, s.pending, k, s.pieces, s'.pieces, p, b);
    }
  }

  // ----- A new block

  lemma ReceiveCounters(t: TorrentInfo, s: State, s': State, p: nat, b: nat)
    requires ShapedPieces(t, s.pieces) && |s.completed| == |s.pieces| && CountersMatch(t, s, -1)
    requires IsBlock(t, p, b) && !s.pieces[p].received[b]
    requires s'.pieces == s.pieces[p := s.pieces[p].(received := s.pieces[p].received[b := true],
                                                      receivedBlocks := s.pieces[p].receivedBlocks + 1)]
    requires s'.completed == s.completed && s'.completedCount == s.completedCount
    requires s'.downloaded == s.downloaded + BlockLength(t, p, b)
    ensures ShapedPieces(t, s'.pieces) && CountersMatch(t, s', p) && !s.completed[p]
  {
    var received := s.pieces[p].received;
    CountTrueSet(received, b);
    CountTrueBounds(received);
    ReceivedBytesUpdate(t, s.pieces, p, s'.pieces[p], |s.pieces|);
    ReceivedInSet(t, p, received, b, |received|);
  }

  /** A block written to a piece that is not complete leaves the completed pieces' bytes alone. */
  lemma ReceiveVerifies(cfg: Config, s: State, disk': bytes, p: nat, b: nat, data: bytes, written: nat)
    requires Typed(cfg, s) && CompletedVerify(cfg, s)
    requires IsBlock(cfg.torrent, p, b) && !s.completed[p] && |data| == BlockLength(cfg.torrent, p, b)
    requires 0 <= BlockStart(cfg.torrent, p, b)
    requires disk' == Written(s.disk, BlockStart(cfg.torrent, p, b), data, written)
    ensures CompletedVerify(cfg, s.(disk := disk'))
  {
    forall q | 0 <= q < |s.completed| && s.completed[q] ensures PieceVerifies(cfg, disk', q) {
      StillVerifies(cfg, s.disk, disk', p, b, data, written, q);
    }
  }

  lemma StillVerifies(cfg: Config, disk: bytes, disk': bytes, p: nat, b: nat, data: bytes, written: nat, q: nat)
    requires Valid(cfg.torrent) && |disk| == cfg.torrent.Total() && IsBlock(cfg.torrent, p, b)
    requires |data| == BlockLength(cfg.torrent, p, b) && 0 <= BlockStart(cfg.torrent, p, b)
    requires disk' == Written(disk, BlockStart(cfg.torrent, p, b), data, written)
    requires q < cfg.torrent.NumPieces() && q != p && PieceVerifies(cfg, disk, q)
    ensures PieceVerifies(cfg, disk', q)
  {
    PieceBounds(cfg.torrent, q);
    WrittenElsewhere(cfg.torrent, disk, p, b, data, written, q);
  }

  lemma WrittenElsewhere(t: TorrentInfo, disk: bytes, p: nat, b: nat, data: bytes, written: nat, q: nat)
    requires Valid(t) && |disk| == t.Total() && IsBlock(t, p, b) && |data| == BlockLength(t, p, b)
    requires q < t.NumPieces() && q != p
    requires 0 <= PieceStart(t, q) && 0 <= BlockStart(t, p, b)
    ensures PieceBytes(t, Written(disk, BlockStart(t, p, b), data, written), q) == PieceBytes(t, disk, q)
  {
    PieceBounds(t, q);
    BlockBounds(t, p, b);
    if p < q {
      PiecesDisjoint(t, p, q);
    } else {
      PiecesDisjoint(t, q, p);
    }
    var n := Min(Min(written, |data|), |disk| - BlockStart(t, p, b));
    SpliceSlice(disk, BlockStart(t, p, b), data[..n], PieceStart(t, q), PieceStart(t, q) + PieceSize(t, q));
  }

  // ----- The hash check

  lemma ResetCopies(t: TorrentInfo, q: seq<BlockRequest>,
      pieces: seq<PieceState>, pieces': seq<PieceState>, p: nat, p': nat, b: nat)
    requires ShapedPieces(t, pieces) && ShapedPieces(t, pieces') && p < |pieces| && pieces' == pieces[p := pieces'[p]]
    requires forall c | 0 <= c < |pieces'[p].requested| :: !pieces'[p].requested[c]
    requires IsBlock(t, p', b) && CopiesMatch(q, pieces, p', b)
    ensures CopiesMatch(Without(q, OfPiece(p)), pieces', p', b)
  {
    var key := OfBlock(p', b * BLOCK_SIZE);
    CountWithout(q, OfPiece(p), key);
    if p' == p {
      var q' := Without(q, OfPiece(p));
      CountPositive(q', key);
      forall i | 0 <= i < |q'| ensures !key.Hits(q'[i]) {
        WithoutMembers(q, OfPiece(p), q'[i]);
      }
    }
  }

  lemma ResetRequests(cfg: Config, s: State, p: nat)
    requires RequestInv(cfg, s) && p < |s.pieces|
    ensures RequestInv(cfg, ResetPiece(cfg, s, p))
  {
    var s' := ResetPiece(cfg, s, p);
    forall r | r in s'.pending ensures r in s.pending {
      WithoutMembers(s.pending, OfPiece(p), r);
    }
    forall peer ensures Count(s'.pending, OfPeer(peer)) <= Max(0, cfg.maxRequestsPerPeer) {
      CountWithout(s.pending, OfPiece(p), OfPeer(peer));
    }
    forall p', b | IsBlock(cfg.torrent, p', b) ensures CopiesMatch(s'.pending, s'.pieces, p', b) {
      assert CopiesMatch(s.pending, s.pieces, p', b);
      ResetCopies(cfg.torrent, s.pending, s.pieces, s'.pieces, p, p', b);
    }
  }

  /** The byte counter holds the whole piece that is reset: it never has to be clamped at zero. */
  lemma ResetCounters(cfg: Config, s: State, p: nat)
    requires Typed(cfg, s) && p < |s.pieces| && CountersMatch(cfg.torrent, s, p) && !s.completed[p]
    requires s.pieces[p].receivedBlocks >= s.pieces[p].totalBlocks
    ensures s.downloaded >= PieceSize(cfg.torrent, p)
    ensures CountersMatch(cfg.torrent, ResetPiece(cfg, s, p), -1)
  {
    var t, s' := cfg.torrent, ResetPiece(cfg, s, p);
    ReceivedPiece(t, p, s.pieces[p]);
    CountTrueBounds(s'.pieces[p].received);
    ReceivedPiece(t, p, s'.pieces[p]);
    ReceivedBytesUpdate(t, s.pieces, p, s'.pieces[p], |s.pieces|);
    ReceivedBytesNonNegative(t, s', |s'.pieces|);
  }

  lemma {:induction false} ReceivedBytesNonNegative(t: TorrentInfo, s: State, n: nat)
    requires Valid(t) && ShapedPieces(t, s.pieces) && n <= |s.pieces|
    requires forall p | 0 <= p < |s.pieces| :: s.pieces[p].receivedBlocks == CountTrue(s.pieces[p].received)
    ensures 0 <= ReceivedBytes(t, s.pieces, n)
  {
    if n > 0 {
      ReceivedBytesNonNegative(t, s, n - 1);
      ReceivedPiece(t, n - 1, s.pieces[n - 1]);
    }
  }

  lemma FinishKeeps(cfg: Config, s: State, p: nat, readable: nat)
    requires InvOpen(cfg, s, p) && p < |s.pieces| && !s.completed[p] && 0 <= PieceStart(cfg.torrent, p)
    ensures Inv(cfg, Finish(cfg, s, p, readable))
  {
    ReceivedPiece(cfg.torrent, p, s.pieces[p]);
    if s.pieces[p].receivedBlocks < s.pieces[p].totalBlocks {
    } else if Verifies(cfg, s.disk, p, readable) {
      CountTrueSet(s.completed, p);
    } else {
      ResetRequests(cfg, s, p);
      ResetCounters(cfg, s, p);
    }
  }

  lemma CancelDuplicatesKeeps(cfg: Config, s: State, p: nat, offset: nat, keep: PeerId, broken: set<PeerId>)
    requires Inv(cfg, s)
    ensures Inv(cfg, CancelDuplicates(s, p, offset, keep, broken))
  {
    CleanedUpKeeps(cfg, s, Duplicate(p, offset, keep));
    PeersKeep(cfg, Drop(s, Duplicate(p, offset, keep)), CancelDuplicates(s, p, offset, keep, broken));
  }

  // ----- The whole event

  lemma AfterBlockKeeps(cfg: Config, s: State, p: nat, offset: nat, keep: PeerId, readable: nat, broken: set<PeerId>)
    requires InvOpen(cfg, s, p) && p < |s.pieces| && !s.completed[p] && 0 <= PieceStart(cfg.torrent, p)
    ensures Inv(cfg, CancelDuplicates(Finish(cfg, s, p, readable), p, offset, keep, broken))
  {
    FinishKeeps(cfg, s, p, readable);
    CancelDuplicatesKeeps(cfg, Finish(cfg, s, p, readable), p, offset, keep, broken);
  }

  lemma BlockKeeps(
    cfg: Config, s: State, peer: PeerId, payload: bytes, written: nat, readable: nat, broken: set<PeerId>)
    requires Inv(cfg, s)
    ensures Inv(cfg, OnBlock(cfg, s, peer, payload, written, readable, broken))
  {
    if Listening(s, peer) && |payload| >= 8 {
      var p, offset, data := BytesToInt(payload), BytesToInt(payload[4..]), payload[8..];
      var k := FindFirst(s.pending, Copy(p, offset, peer));
      if k < |s.pending| {
        var r, b := s.pending[k], offset / BLOCK_SIZE;
        assert r in s.pending && SoundRequest(cfg.torrent, r) && r.Block() == b;
        if |data| != r.length {
          RejectKeeps(cfg, s, k);
        } else if s.pieces[p].received[b] {
          DuplicateKeeps(cfg, s, k);
        } else {
          AcceptKeeps(cfg, s, k, data, written);
          BlockBounds(cfg.torrent, p, b);
          PieceBounds(cfg.torrent, p);
          var s2 := Receive(cfg, s.(pending := RemoveAt(s.pending, k)), p, b, data, written);
          AfterBlockKeeps(cfg, s2, p, offset, peer, readable, broken);
        }
      }
    }
  }

  lemma RejectKeeps(cfg: Config, s: State, k: nat)
    requires Inv(cfg, s) && k < |s.pending| && s.pending[k] in s.pending
    ensures var r := s.pending[k];
            Inv(cfg, s.(pending := RemoveAt(s.pending, k), pieces := SetRequested(s.pieces, r.piece, r.Block(), false)))
  {
    var r := s.pending[k];
    var s' := s.(pending := RemoveAt(s.pending, k), pieces := SetRequested(s.pieces, r.piece, r.Block(), false));
    AnsweredByFreeing(cfg.torrent, s.pieces, r.piece, r.Block());
    AnsweredKeeps(cfg, s, k, s');
    SameCounters(cfg.torrent, s, s', -1);
  }

  lemma DuplicateKeeps(cfg: Config, s: State, k: nat)
    requires Inv(cfg, s) && k < |s.pending| && s.pending[k] in s.pending
    requires s.pieces[s.pending[k].piece].received[s.pending[k].Block()]
    ensures Inv(cfg, s.(pending := RemoveAt(s.pending, k)))
  {
    AnsweredKeeps(cfg, s, k, s.(pending := RemoveAt(s.pending, k)));
  }

  lemma AcceptKeeps(cfg: Config, s: State, k: nat, data: bytes, written: nat)
    requires Inv(cfg, s) && k < |s.pending| && s.pending[k] in s.pending
    requires !s.pieces[s.pending[k].piece].received[s.pending[k].Block()] && |data| == s.pending[k].length
    ensures var p, b := s.pending[k].piece, s.pending[k].Block();
            && 0 <= BlockStart(cfg.torrent, p, b)
            && var s' := Receive(cfg, s.(pending := RemoveAt(s.pending, k)), p, b, data, written);
               InvOpen(cfg, s', p) && !s'.completed[p]
  {
    var p, b := s.pending[k].piece, s.pending[k].Block();
    BlockBounds(cfg.torrent, p, b);
    PieceBounds(cfg.torrent, p);
    var s' := Receive(cfg, s.(pending := RemoveAt(s.pending, k)), p, b, data, written);
    ReceiveCounters(cfg.torrent, s, s', p, b);
    AnsweredByReceiving(cfg.torrent, s.pieces, s'.pieces, p, b);
    AnsweredKeeps(cfg, s, k, s');
    ReceiveVerifies(cfg, s, s'.disk, p, b, data, written);
  }
}
