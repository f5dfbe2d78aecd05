/** Runs in which no peer is ever asked twice for a block. */
module SoloRequests {
  import opened Bytes
  import opened Torrents
  import opened DownloadState
  import opened RequestCounts
  import opened DownloadInvariant
  import opened BlockInvariant
  import opened DownloadRuns

  // ----- Giving up all copies together

  /** No request that is hit has a copy that is not. */
  ghost predicate Together(q: seq<BlockRequest>, sel: Selector) {
    forall i, j | 0 <= i < |q| && 0 <= j < |q| && sel.Hits(q[i]) && SameBlock(q[i], q[j]) :: sel.Hits(q[j])
  }

  predicate SameBlock(a: BlockRequest, b: BlockRequest) {
    a.piece == b.piece && a.offset == b.offset
  }

  /** A Block message that matches a request, but not its length. */
  ghost predicate WrongLength(s: State, peer: PeerId, payload: bytes) {
    && Listening(s, peer) && |payload| >= 8
    && var k := FindFirst(s.pending, Copy(BytesToInt(payload), BytesToInt(payload[4..]), peer));
       k < |s.pending| && |payload[8..]| != s.pending[k].length
  }

  /** The event gives up no request for a block while another request for the block stays in flight. */
  ghost predicate GivesUpTogether(s: State, e: Event) {
    match e
    case Choked(peer) => Listening(s, peer) ==> Together(s.pending, OfPeer(peer))
    case CleanedUp(now) => Together(s.pending, Expired(now))
    case BlockArrived(peer, payload, _, _, _) =>
      WrongLength(s, peer, payload) ==>
        Count(s.pending, OfBlock(BytesToInt(payload), BytesToInt(payload[4..]))) == 1
    case _ => true
  }

  ghost predicate RunGivesUpTogether(cfg: Config, s: State, es: seq<Event>)
    requires Inv(cfg, s)
    decreases |es|
  {
    es == [] ||
    (GivesUpTogether(s, es[0]) &&
     (StepKeeps(cfg, s, es[0]); RunGivesUpTogether(cfg, Step(cfg, s, es[0]), es[1..])))
  }

  /** A clear flag means that nothing is in flight, and no peer has two requests for the block. */
  ghost predicate SoloBlock(q: seq<BlockRequest>, pieces: seq<PieceState>, p: nat, b: nat)
    requires p < |pieces| && b < |pieces[p].requested|
  {
    && (!pieces[p].requested[b] ==> Count(q, OfBlock(p, b * BLOCK_SIZE)) == 0)
    && forall x :: Count(q, Copy(p, b * BLOCK_SIZE, x)) <= 1
  }

  ghost predicate Solo(cfg: Config, s: State) {
    Typed(cfg, s) &&
    forall p: nat, b: nat | IsBlock(cfg.torrent, p, b) :: SoloBlock(s.pending, s.pieces, p, b)
  }

  lemma CopyWithinBlock(q: seq<BlockRequest>, p: nat, offset: nat, x: PeerId)
    ensures Count(q, Copy(p, offset, x)) <= Count(q, OfBlock(p, offset))
  {
    if q != [] {
      CopyWithinBlock(q[..|q| - 1], p, offset, x);
    }
  }

  lemma SoloRequestOne(cfg: Config, s: State, peer: PeerId, p: nat, b: nat, now: int)
    requires Solo(cfg, s) && IsBlock(cfg.torrent, p, b) && Wants(s, peer, p, b)
    ensures Solo(cfg, RequestOne(cfg, s, peer, p, b, now))
  {
    var s' := RequestOne(cfg, s, peer, p, b, now);
    var r := s'.pending[|s.pending|];
    forall q: nat, c: nat | IsBlock(cfg.torrent, q, c)
      ensures SoloBlock(s'.pending, s'.pieces, q, c)
    {
      assert SoloBlock(s.pending, s.pieces, q, c);
      CountAppend(s.pending, r, OfBlock(q, c * BLOCK_SIZE));
      forall x
        ensures Count(s'.pending, Copy(q, c * BLOCK_SIZE, x)) <= 1
      {
        CountAppend(s.pending, r, Copy(q, c * BLOCK_SIZE, x));
        CopyWithinBlock(s.pending, q, c * BLOCK_SIZE, x);
      }
    }
  }

  lemma {:induction false} SoloRound(
    cfg: Config, s: State, peer: PeerId, p: nat, b: nat, current: int, sends: nat, now: int)
    requires Solo(cfg, s) && p < cfg.torrent.NumPieces()
    ensures Solo(cfg, RequestFrom(cfg, s, peer, p, b, current, sends, now))
    decreases Blocks(cfg.torrent, p) - b
  {
    if b >= Blocks(cfg.torrent, p) || current >= cfg.maxRequestsPerPeer {
    } else if !Wants(s, peer, p, b) {
      SoloRound(cfg, s, peer, p, b + 1, current, sends, now);
    } else if sends > 0 {
      SoloRequestOne(cfg, s, peer, p, b, now);
      SoloRound(cfg, RequestOne(cfg, s, peer, p, b, now), peer, p, b + 1, current + 1, sends - 1, now);
    }
  }

  /** Requests that are answered or given up leave fewer behind. */
  lemma SoloFewer(q: seq<BlockRequest>, q': seq<BlockRequest>,
      pieces: seq<PieceState>, pieces': seq<PieceState>, p: nat, b: nat)
    requires p < |pieces| && b < |pieces[p].requested| && p < |pieces'| && b < |pieces'[p].requested|
    requires SoloBlock(q, pieces, p, b)
    requires forall sel :: Count(q', sel) <= Count(q, sel)
    requires pieces'[p].requested[b] == pieces[p].requested[b] || Count(q', OfBlock(p, b * BLOCK_SIZE)) == 0
    ensures SoloBlock(q', pieces', p, b)
  {
  }

  lemma SoloDropBlock(t: TorrentInfo, q: seq<BlockRequest>, pieces: seq<PieceState>, sel: Selector, p: nat, b: nat)
    requires ShapedPieces(t, pieces) && SoundRequests(t, q) && IsBlock(t, p, b)
    requires SoloBlock(q, pieces, p, b) && Together(q, sel)
    ensures SoloBlock(Without(q, sel), Cleared(pieces, q, sel), p, b)
  {
    var q', key := Without(q, sel), OfBlock(p, b * BLOCK_SIZE);
    forall k
      ensures Count(q', k) <= Count(q, k)
    {
      CountWithout(q, sel, k);
    }
    if Dropped(q, sel, p, b) {
      var i :| 0 <= i < |q| && sel.Hits(q[i]) && q[i].piece == p && q[i].Block() == b;
      assert q[i] in q && key.Hits(q[i]);
      NoneLeft(q, sel, key, i);
    }
  }

  lemma NoneLeft(q: seq<BlockRequest>, sel: Selector, key: Selector, i: nat)
    requires Together(q, sel) && i < |q| && sel.Hits(q[i]) && key == OfBlock(q[i].piece, q[i].offset)
    ensures Count(Without(q, sel), key) == 0
  {
    var q' := Without(q, sel);
    CountPositive(q', key);
    if Count(q', key) > 0 {
      var j :| 0 <= j < |q'| && key.Hits(q'[j]);
      WithoutMembers(q, sel, q'[j]);
    }
  }

  lemma SoloDrop(cfg: Config, s: State, sel: Selector)
    requires RequestInv(cfg, s) && Solo(cfg, s) && Together(s.pending, sel)
    ensures Solo(cfg, Drop(s, sel))
  {
    DropKeeps(cfg, s, sel);
    forall p: nat, b: nat | IsBlock(cfg.torrent, p, b)
      ensures SoloBlock(Drop(s, sel).pending, Drop(s, sel).pieces, p, b)
    {
      assert SoloBlock(s.pending, s.pieces, p, b);
      SoloDropBlock(cfg.torrent, s.pending, s.pieces, sel, p, b);
    }
  }

  // ----- Block messages

  /** Answering a request, with its block's flag kept, or cleared when no copy is left. */
  lemma SoloAnswered(cfg: Config, s: State, k: nat, s': State)
    requires Solo(cfg, s) && k < |s.pending| && Typed(cfg, s') && s'.pending == RemoveAt(s.pending, k)
    requires forall p: nat, b: nat | IsBlock(cfg.torrent, p, b) ::
               || s'.pieces[p].requested[b] == s.pieces[p].requested[b]
               || Count(s'.pending, OfBlock(p, b * BLOCK_SIZE)) == 0
    ensures Solo(cfg, s')
  {
    forall sel
      ensures Count(s'.pending, sel) <= Count(s.pending, sel)
    {
      CountRemoveAt(s.pending, k, sel);
    }
    forall p: nat, b: nat | IsBlock(cfg.torrent, p, b)
      ensures SoloBlock(s'.pending, s'.pieces, p, b)
    {
      assert SoloBlock(s.pending, s.pieces, p, b);
      SoloFewer(s.pending, s'.pending, s.pieces, s'.pieces, p, b);
    }
  }

  lemma SoloReject(cfg: Config, s: State, k: nat)
    requires Inv(cfg, s) && Solo(cfg, s) && k < |s.pending| && s.pending[k] in s.pending
    requires Count(s.pending, OfBlock(s.pending[k].piece, s.pending[k].offset)) == 1
    ensures var r := s.pending[k];
            Solo(cfg, s.(pending := RemoveAt(s.pending, k),
                         pieces := SetRequested(s.pieces, r.piece, r.Block(), false)))
  {
    var r := s.pending[k];
    var s' := s.(pending := RemoveAt(s.pending, k), pieces := SetRequested(s.pieces, r.piece, r.Block(), false));
    RejectKeeps(cfg, s, k);
    assert SoundRequest(cfg.torrent, r);
    CountRemoveAt(s.pending, k, OfBlock(r.piece, r.offset));
    SoloAnswered(cfg, s, k, s');
  }

  /** The hash check, passed or failed. */
  lemma SoloFinish(cfg: Config, s: State, p: nat, readable: nat)
    requires Solo(cfg, s) && p < cfg.torrent.NumPieces() && 0 <= PieceStart(cfg.torrent, p)
    requires Typed(cfg, Finish(cfg, s, p, readable))
    ensures Solo(cfg, Finish(cfg, s, p, readable))
  {
    var f := Finish(cfg, s, p, readable);
    forall sel
      ensures Count(Without(s.pending, OfPiece(p)), sel) <= Count(s.pending, sel)
    {
      CountWithout(s.pending, OfPiece(p), sel);
    }
    forall q: nat, b: nat | IsBlock(cfg.torrent, q, b)
      ensures SoloBlock(f.pending, f.pieces, q, b)
    {
      assert SoloBlock(s.pending, s.pieces, q, b);
      if f.pending != s.pending || f.pieces != s.pieces {
        if q == p {
          NoneOfPiece(s.pending, p, b * BLOCK_SIZE);
        }
        SoloFewer(s.pending, f.pending, s.pieces, f.pieces, q, b);
      }
    }
  }

  lemma NoneOfPiece(q: seq<BlockRequest>, p: nat, offset: nat)
    ensures Count(Without(q, OfPiece(p)), OfBlock(p, offset)) == 0
  {
    var q' := Without(q, OfPiece(p));
    CountPositive(q', OfBlock(p, offset));
    if Count(q', OfBlock(p, offset)) > 0 {
      var j :| 0 <= j < |q'| && OfBlock(p, offset).Hits(q'[j]);
      WithoutMembers(q, OfPiece(p), q'[j]);
    }
  }

  /** When a request has been answered that had no copy at its peer, the others for the block go together. */
  lemma DuplicatesTogether(q: seq<BlockRequest>, p: nat, offset: nat, keep: PeerId)
    requires Count(q, Copy(p, offset, keep)) == 0
    ensures Together(q, Duplicate(p, offset, keep))
  {
    CountPositive(q, Copy(p, offset, keep));
    forall i, j | 0 <= i < |q| && 0 <= j < |q| && Duplicate(p, offset, keep).Hits(q[i]) && SameBlock(q[i], q[j])
      ensures Duplicate(p, offset, keep).Hits(q[j])
    {
      assert !Copy(p, offset, keep).Hits(q[j]);
    }
  }

  /** A new block: received, its piece checked, and its duplicates given up. */
  lemma SoloAccept(
    cfg: Config, s: State, k: nat, data: bytes, written: nat, readable: nat, broken: set<PeerId>)
    requires Inv(cfg, s) && Solo(cfg, s) && k < |s.pending| && s.pending[k] in s.pending
    requires !s.pieces[s.pending[k].piece].received[s.pending[k].Block()] && |data| == s.pending[k].length
    ensures 0 <= BlockStart(cfg.torrent, s.pending[k].piece, s.pending[k].Block())
    ensures 0 <= PieceStart(cfg.torrent, s.pending[k].piece)
    ensures var r := s.pending[k];
            var s2 := Receive(cfg, s.(pending := RemoveAt(s.pending, k)), r.piece, r.Block(), data, written);
            Solo(cfg, CancelDuplicates(Finish(cfg, s2, r.piece, readable), r.piece, r.offset, r.peer, broken))
  {
    var r := s.pending[k];
    assert SoundRequest(cfg.torrent, r);
    BlockBounds(cfg.torrent, r.piece, r.Block());
    PieceBounds(cfg.torrent, r.piece);
    var s2 := Receive(cfg, s.(pending := RemoveAt(s.pending, k)), r.piece, r.Block(), data, written);
    AcceptKeeps(cfg, s, k, data, written);
    SoloAnswered(cfg, s, k, s2);
    var f := Finish(cfg, s2, r.piece, readable);
    FinishKeeps(cfg, s2, r.piece, readable);
    SoloFinish(cfg, s2, r.piece, readable);
    NoCopyLeft(cfg, s, k);
    FewerOnFinish(s2, f, r.piece, Copy(r.piece, r.offset, r.peer));
    DuplicatesTogether(f.pending, r.piece, r.offset, r.peer);
    SoloDrop(cfg, f, Duplicate(r.piece, r.offset, r.peer));
    SoloPeers(cfg, Drop(f, Duplicate(r.piece, r.offset, r.peer)),
              CancelDuplicates(f, r.piece, r.offset, r.peer, broken));
  }

  lemma FewerOnFinish(s: State, f: State, p: nat, sel: Selector)
    requires f.pending == s.pending || f.pending == Without(s.pending, OfPiece(p))
    requires Count(s.pending, sel) == 0
    ensures Count(f.pending, sel) == 0
  {
    CountWithout(s.pending, OfPiece(p), sel);
  }

  lemma NoCopyLeft(cfg: Config, s: State, k: nat)
    requires Inv(cfg, s) && Solo(cfg, s) && k < |s.pending| && s.pending[k] in s.pending
    ensures var r := s.pending[k]; Count(RemoveAt(s.pending, k), Copy(r.piece, r.offset, r.peer)) == 0
  {
    var r := s.pending[k];
    assert SoundRequest(cfg.torrent, r);
    assert SoloBlock(s.pending, s.pieces, r.piece, r.Block());
    CountRemoveAt(s.pending, k, Copy(r.piece, r.offset, r.peer));
  }

  /** Neither peers nor the endgame flag matter. */
  lemma SoloPeers(cfg: Config, s: State, s': State)
    requires Solo(cfg, s) && s'.pending == s.pending && s'.pieces == s.pieces && Typed(cfg, s')
    ensures Solo(cfg, s')
  {
    forall p: nat, b: nat | IsBlock(cfg.torrent, p, b)
      ensures SoloBlock(s'.pending, s'.pieces, p, b)
    {
      assert SoloBlock(s.pending, s.pieces, p, b);
    }
  }

  lemma SoloOnBlock(
    cfg: Config, s: State, peer: PeerId, payload: bytes, written: nat, readable: nat, broken: set<PeerId>)
    requires Inv(cfg, s) && Solo(cfg, s)
    requires GivesUpTogether(s, BlockArrived(peer, payload, written, readable, broken))
    ensures Solo(cfg, OnBlock(cfg, s, peer, payload, written, readable, broken))
  {
    if Listening(s, peer) && |payload| >= 8 {
      var p, offset, data := BytesToInt(payload), BytesToInt(payload[4..]), payload[8..];
      var k := FindFirst(s.pending, Copy(p, offset, peer));
      if k < |s.pending| {
        var r, b := s.pending[k], offset / BLOCK_SIZE;
        assert r in s.pending && SoundRequest(cfg.torrent, r) && r.Block() == b;
        if |data| != r.length {
          SoloReject(cfg, s, k);
        } else if s.pieces[p].received[b] {
          SoloAnswered(cfg, s, k, s.(pending := RemoveAt(s.pending, k)));
        } else {
          SoloAccept(cfg, s, k, data, written, readable, broken);
        }
      }
    }
  }

  // ----- Runs

  lemma SoloStep(cfg: Config, s: State, e: Event)
    requires Inv(cfg, s) && Solo(cfg, s) && GivesUpTogether(s, e)
    ensures Solo(cfg, Step(cfg, s, e))
  {
    StepKeeps(cfg, s, e);
    match e
    case Choked(peer) =>
      if Listening(s, peer) {
        SoloDrop(cfg, s, OfPeer(peer));
        SoloPeers(cfg, Drop(s, OfPeer(peer)), Step(cfg, s, e));
      }
    case BlockArrived(peer, payload, written, readable, broken) =>
      SoloOnBlock(cfg, s, peer, payload, written, readable, broken);
    case Requested(peer, p, sends, now) =>
      if Listening(s, peer) && !s.peers[peer].choking && Needed(s, peer, p) {
        SoloRound(cfg, s, peer, p, 0, Count(s.pending, OfPeer(peer)), sends, now);
      }
    case CleanedUp(now) => SoloDrop(cfg, s, Expired(now));
    case _ => SoloPeers(cfg, s, Step(cfg, s, e));
  }

  lemma {:induction false} SoloRun(cfg: Config, s: State, es: seq<Event>)
    requires Inv(cfg, s) && Solo(cfg, s) && RunGivesUpTogether(cfg, s, es)
    ensures Solo(cfg, Run(cfg, s, es))
    decreases |es|
  {
    if es != [] {
      SoloStep(cfg, s, es[0]);
      StepKeeps(cfg, s, es[0]);
      SoloRun(cfg, Step(cfg, s, es[0]), es[1..]);
    }
  }

  /**
    In every run in which no request is given up while a copy of it stays in flight, no peer ever has two requests
    for the same block.
   */
  lemma NeverTwiceWhenGivenUpTogether(
    cfg: Config, disk: bytes, readable: seq<nat>, scanned: nat, es: seq<Event>, p: nat, offset: nat, peer: PeerId)
    requires CanStart(cfg, disk, readable)
    requires RunGivesUpTogether(cfg, Start(cfg, disk, readable, scanned), es)
    ensures Count(Reached(cfg, disk, readable, scanned, es).pending, Copy(p, offset, peer)) <= 1
  {
    var s0, s := Start(cfg, disk, readable, scanned), Reached(cfg, disk, readable, scanned, es);
    assert Solo(cfg, s0);
    SoloRun(cfg, s0, es);
    SoloCopies(cfg, s, p, offset, peer);
  }

  lemma SoloCopies(cfg: Config, s: State, p: nat, offset: nat, peer: PeerId)
    requires Inv(cfg, s) && Solo(cfg, s)
    ensures Count(s.pending, Copy(p, offset, peer)) <= 1
  {
    CountPositive(s.pending, Copy(p, offset, peer));
    if Count(s.pending, Copy(p, offset, peer)) > 0 {
      var i :| 0 <= i < |s.pending| && Copy(p, offset, peer).Hits(s.pending[i]);
      assert s.pending[i] in s.pending && SoundRequest(cfg.torrent, s.pending[i]);
      assert SoloBlock(s.pending, s.pieces, p, s.pending[i].Block());
    }
  }
}
