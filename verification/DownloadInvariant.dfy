/** What every event keeps. */
module DownloadInvariant {
  import opened Bytes
  import opened Torrents
  import opened DownloadState
  import opened RequestCounts

  /** The bytes of the received blocks among the first `n` blocks of a piece. */
  ghost function ReceivedIn(t: TorrentInfo, p: nat, received: seq<bool>, n: nat): int
    requires n <= |received|
  {
    if n == 0 then 0
    else ReceivedIn(t, p, received, n - 1) + if received[n - 1] then BlockLength(t, p, n - 1) else 0
  }

  /** The bytes of the received blocks of the first `n` pieces. */
  ghost function ReceivedBytes(t: TorrentInfo, pieces: seq<PieceState>, n: nat): int
    requires n <= |pieces|
  {
    if n == 0 then 0
    else ReceivedBytes(t, pieces, n - 1) + ReceivedIn(t, n - 1, pieces[n - 1].received, |pieces[n - 1].received|)
  }

  /** Every request in flight is for a whole block of the torrent. */
  ghost predicate SoundRequests(t: TorrentInfo, q: seq<BlockRequest>) {
    forall r | r in q :: SoundRequest(t, r)
  }

  ghost predicate SoundRequest(t: TorrentInfo, r: BlockRequest) {
    && IsBlock(t, r.piece, r.Block())
    && r.offset == r.Block() * BLOCK_SIZE
    && r.length == BlockLength(t, r.piece, r.Block())
  }

  /** Only peers that do not choke us have requests in flight. */
  ghost predicate NoneChoked(s: State) {
    forall r | r in s.pending :: r.peer in s.peers && !s.peers[r.peer].choking
  }

  ghost predicate WithinPipeline(cfg: Config, q: seq<BlockRequest>) {
    forall peer :: Count(q, OfPeer(peer)) <= Max(0, cfg.maxRequestsPerPeer)
  }

  /**
    At most two copies of a block are in flight; at most one when its flag is clear; and at least
    one when its flag is set and it has not arrived.
   */
  ghost predicate CopiesMatch(q: seq<BlockRequest>, pieces: seq<PieceState>, p: nat, b: nat)
    requires p < |pieces| && b < |pieces[p].requested| && b < |pieces[p].received|
  {
    var copies := Count(q, OfBlock(p, b * BLOCK_SIZE));
    && copies <= MAX_COPIES
    && (!pieces[p].requested[b] ==> copies <= 1)
    && (pieces[p].requested[b] && !pieces[p].received[b] ==> copies >= 1)
  }

  ghost predicate FlagsMatch(t: TorrentInfo, q: seq<BlockRequest>, pieces: seq<PieceState>)
    requires ShapedPieces(t, pieces)
  {
    forall p, b {:trigger CopiesMatch(q, pieces, p, b)} | IsBlock(t, p, b) :: CopiesMatch(q, pieces, p, b)
  }

  /** The counters agree with the flags; `open` is a piece whose hash check is still to come. */
  ghost predicate CountersMatch(t: TorrentInfo, s: State, open: int)
    requires ShapedPieces(t, s.pieces) && |s.completed| == |s.pieces|
  {
    && (forall p | 0 <= p < |s.pieces| :: s.pieces[p].receivedBlocks == CountTrue(s.pieces[p].received))
    && (forall p | 0 <= p < |s.pieces| && p != open ::
          s.completed[p] <==> s.pieces[p].receivedBlocks == s.pieces[p].totalBlocks)
    && s.completedCount == CountTrue(s.completed)
    && s.downloaded == ReceivedBytes(t, s.pieces, |s.pieces|)
  }

  /** Every completed piece hashes right on disk. */
  ghost predicate CompletedVerify(cfg: Config, s: State)
    requires Valid(cfg.torrent) && |s.completed| == cfg.torrent.NumPieces()
  {
    forall p | 0 <= p < |s.completed| && s.completed[p] :: PieceVerifies(cfg, s.disk, p)
  }

  ghost predicate PieceVerifies(cfg: Config, disk: bytes, p: nat)
    requires Valid(cfg.torrent) && p < cfg.torrent.NumPieces()
  {
    PieceBounds(cfg.torrent, p);
    HashOk(cfg, disk, p)
  }

  /**
    The bytes from `p` times the piece length on, up to the next piece or the end of the content, hash to the
    twenty bytes from `20 * p` on of the torrent's hashes.
   */
  ghost predicate HashesAsListed(cfg: Config, disk: bytes, p: nat) {
    var t := cfg.torrent;
    var at := p * t.pieceLength;
    var end := Min(at + t.pieceLength, t.Total());
    && 0 <= at <= end <= |disk| && 20 * p + 20 <= |t.pieces|
    && cfg.sha1(disk[at..end]) == t.pieces[20 * p..20 * p + 20]
  }

  lemma VerifiesAsListed(cfg: Config, disk: bytes, p: nat)
    requires Valid(cfg.torrent) && p < cfg.torrent.NumPieces() && |disk| == cfg.torrent.Total()
    ensures PieceVerifies(cfg, disk, p) <==> HashesAsListed(cfg, disk, p)
  {
    PieceBounds(cfg.torrent, p);
  }

  /** The expected hashes of the first `n` pieces, one after the other. */
  ghost function ExpectedHashes(t: TorrentInfo, n: nat): bytes {
    if n == 0 then [] else ExpectedHashes(t, n - 1) + ExpectedHash(t, n - 1)
  }

  /** The expected hashes of all pieces are the torrent's hashes, cut into twenties. */
  lemma {:induction false} HashesAreThePieces(t: TorrentInfo, n: nat)
    requires n <= t.NumPieces()
    ensures ExpectedHashes(t, n) == t.pieces[..20 * n]
    ensures n == t.NumPieces() && |t.pieces| % 20 == 0 ==> ExpectedHashes(t, n) == t.pieces
  {
    if n > 0 {
      HashesAreThePieces(t, n - 1);
      assert t.pieces[..20 * (n - 1)] + t.pieces[20 * (n - 1)..20 * n] == t.pieces[..20 * n];
    }
    assert 20 * n == |t.pieces| ==> t.pieces[..20 * n] == t.pieces;
  }

  /** The requests in flight are in order. */
  ghost predicate RequestInv(cfg: Config, s: State) {
    && Typed(cfg, s)
    && SoundRequests(cfg.torrent, s.pending)
    && NoneChoked(s)
    && WithinPipeline(cfg, s.pending)
    && FlagsMatch(cfg.torrent, s.pending, s.pieces)
  }

  ghost predicate InvOpen(cfg: Config, s: State, open: int) {
    && RequestInv(cfg, s)
    && CountersMatch(cfg.torrent, s, open)
    && CompletedVerify(cfg, s)
  }

  ghost predicate Inv(cfg: Config, s: State) {
    InvOpen(cfg, s, -1)
  }

  // ----- Giving up requests

  /** Pieces that differ only in their request flags. */
  ghost predicate SameProgress(a: seq<PieceState>, b: seq<PieceState>) {
    |a| == |b| &&
    forall p | 0 <= p < |a| ::
      && a[p].received == b[p].received && a[p].totalBlocks == b[p].totalBlocks
      && a[p].receivedBlocks == b[p].receivedBlocks && |a[p].requested| == |b[p].requested|
  }

  lemma {:induction false} SameReceivedBytes(t: TorrentInfo, a: seq<PieceState>, b: seq<PieceState>, n: nat)
    requires SameProgress(a, b) && n <= |a|
    ensures ReceivedBytes(t, a, n) == ReceivedBytes(t, b, n)
  {
    if n > 0 {
      SameReceivedBytes(t, a, b, n - 1);
    }
  }

  lemma SameCounters(t: TorrentInfo, s: State, s': State, open: int)
    requires ShapedPieces(t, s.pieces) && |s.completed| == |s.pieces| && CountersMatch(t, s, open)
    requires SameProgress(s.pieces, s'.pieces)
    requires s'.completed == s.completed && s'.completedCount == s.completedCount && s'.downloaded == s.downloaded
    ensures ShapedPieces(t, s'.pieces) && CountersMatch(t, s', open)
  {
    SameReceivedBytes(t, s.pieces, s'.pieces, |s.pieces|);
  }

  lemma DropCopies(t: TorrentInfo, q: seq<BlockRequest>, pieces: seq<PieceState>, sel: Selector, p: nat, b: nat)
    requires ShapedPieces(t, pieces) && SoundRequests(t, q) && IsBlock(t, p, b)
    requires CopiesMatch(q, pieces, p, b)
    ensures CopiesMatch(Without(q, sel), Cleared(pieces, q, sel), p, b)
  {
    var key := OfBlock(p, b * BLOCK_SIZE);
    CountWithout(q, sel, key);
    if Dropped(q, sel, p, b) {
      var i :| 0 <= i < |q| && sel.Hits(q[i]) && q[i].piece == p && q[i].Block() == b;
      assert q[i] in q && key.Hits(q[i]);
    } else {
      forall i | 0 <= i < |q| && key.Hits(q[i]) ensures !sel.Hits(q[i]) {
        assert q[i].Block() == b;
      }
    }
  }

  lemma DropKeeps(cfg: Config, s: State, sel: Selector)
    requires Typed(cfg, s)
    requires SoundRequests(cfg.torrent, s.pending) && WithinPipeline(cfg, s.pending)
    requires FlagsMatch(cfg.torrent, s.pending, s.pieces)
    ensures var s' := Drop(s, sel);
            && Typed(cfg, s')
            && SameProgress(s.pieces, s'.pieces)
            && SoundRequests(cfg.torrent, s'.pending)
            && WithinPipeline(cfg, s'.pending)
            && FlagsMatch(cfg.torrent, s'.pending, s'.pieces)
  {
    var s' := Drop(s, sel);
    forall r | r in s'.pending ensures r in s.pending {
      WithoutMembers(s.pending, sel, r);
    }
    forall peer ensures Count(s'.pending, OfPeer(peer)) <= Max(0, cfg.maxRequestsPerPeer) {
      CountWithout(s.pending, sel, OfPeer(peer));
    }
    forall p, b | IsBlock(cfg.torrent, p, b) ensures CopiesMatch(s'.pending, s'.pieces, p, b) {
      DropCopies(cfg.torrent, s.pending, s.pieces, sel, p, b);
    }
  }

  /** Some request that the selector hits is for the block. */
  ghost predicate HitFor(q: seq<BlockRequest>, sel: Selector, p: nat, b: nat) {
    exists r :: r in q && sel.Hits(r) && r.piece == p && r.offset == b * 16384
  }

  /** The requests hit are gone, and exactly their blocks are free. */
  lemma DropExactly(cfg: Config, s: State, sel: Selector)
    requires RequestInv(cfg, s)
    ensures forall r: BlockRequest ::
              multiset(Drop(s, sel).pending)[r] == if sel.Hits(r) then 0 else multiset(s.pending)[r]
    ensures forall p: nat, b: nat | IsBlock(cfg.torrent, p, b) ::
              Drop(s, sel).pieces[p].requested[b] == (s.pieces[p].requested[b] && !HitFor(s.pending, sel, p, b))
  {
    forall r: BlockRequest
      ensures multiset(Drop(s, sel).pending)[r] == if sel.Hits(r) then 0 else multiset(s.pending)[r]
    {
      WithoutMultiset(s.pending, sel, r);
    }
    forall p: nat, b: nat
      ensures Dropped(s.pending, sel, p, b) <==> HitFor(s.pending, sel, p, b)
    {
      DroppedIsHit(cfg.torrent, s.pending, sel, p, b);
    }
  }

  lemma DroppedIsHit(t: TorrentInfo, q: seq<BlockRequest>, sel: Selector, p: nat, b: nat)
    requires SoundRequests(t, q)
    ensures Dropped(q, sel, p, b) <==> HitFor(q, sel, p, b)
  {
    if Dropped(q, sel, p, b) {
      var i :| 0 <= i < |q| && sel.Hits(q[i]) && q[i].piece == p && q[i].Block() == b;
      assert q[i] in q && SoundRequest(t, q[i]);
    }
    if HitFor(q, sel, p, b) {
      var r :| r in q && sel.Hits(r) && r.piece == p && r.offset == b * 16384;
      var i :| 0 <= i < |q| && q[i] == r;
      assert q[i].Block() == b;
    }
  }

  /** A cleanup gives up exactly the requests whose age in whole milliseconds is over 15000. */
  lemma CleanupGivesUp(cfg: Config, s: State, now: int)
    requires Inv(cfg, s)
    ensures var s' := Step(cfg, s, CleanedUp(now));
            && (forall r: BlockRequest :: multiset(s'.pending)[r] ==
                  if (now - r.time) / 1_000_000 > 15000 then 0 else multiset(s.pending)[r])
            && (forall p: nat, b: nat | IsBlock(cfg.torrent, p, b) :: s'.pieces[p].requested[b] ==
                  (s.pieces[p].requested[b] && !HitFor(s.pending, Expired(now), p, b)))
  {
    DropExactly(cfg, s, Expired(now));
  }

  /** A choke of a connected peer gives up exactly its requests; that of another changes nothing. */
  lemma ChokeGivesUp(cfg: Config, s: State, x: PeerId)
    requires Inv(cfg, s)
    ensures !Listening(s, x) ==> Step(cfg, s, Choked(x)) == s
    ensures var s' := Step(cfg, s, Choked(x));
            Listening(s, x) ==>
            && (forall r: BlockRequest :: multiset(s'.pending)[r] == if r.peer == x then 0 else multiset(s.pending)[r])
            && (forall p: nat, b: nat | IsBlock(cfg.torrent, p, b) :: s'.pieces[p].requested[b] ==
                  (s.pieces[p].requested[b] && !HitFor(s.pending, OfPeer(x), p, b)))
  {
    DropExactly(cfg, s, OfPeer(x));
  }

  // ----- Counting received bytes

  lemma {:induction false} ReceivedBytesUpdate(t: TorrentInfo, pieces: seq<PieceState>, p: nat,
      piece: PieceState, n: nat)
    requires p < |pieces| && n <= |pieces|
    ensures ReceivedBytes(t, pieces[p := piece], n) == ReceivedBytes(t, pieces, n) +
              if p < n then ReceivedIn(t, p, piece.received, |piece.received|)
                            - ReceivedIn(t, p, pieces[p].received, |pieces[p].received|)
              else 0
  {
    if n > 0 {
      ReceivedBytesUpdate(t, pieces, p, piece, n - 1);
    }
  }

  lemma {:induction false} ReceivedInSet(t: TorrentInfo, p: nat, received: seq<bool>, b: nat, n: nat)
    requires b < |received| && !received[b] && n <= |received|
    ensures ReceivedIn(t, p, received[b := true], n)
         == ReceivedIn(t, p, received, n) + if b < n then BlockLength(t, p, b) else 0
  {
    if n > 0 {
      ReceivedInSet(t, p, received, b, n - 1);
    }
  }

  /** The received bytes are between nothing and the blocks' sum, which they reach only together. */
  lemma {:induction false} ReceivedInBounds(t: TorrentInfo, p: nat, received: seq<bool>, n: nat)
    requires Valid(t) && p < t.NumPieces() && n <= |received| <= Blocks(t, p)
    ensures 0 <= ReceivedIn(t, p, received, n) <= SumBlocks(t, p, n)
    ensures ReceivedIn(t, p, received, n) == SumBlocks(t, p, n) <==> forall b | 0 <= b < n :: received[b]
    ensures (forall b | 0 <= b < n :: !received[b]) ==> ReceivedIn(t, p, received, n) == 0
  {
    if n > 0 {
      ReceivedInBounds(t, p, received, n - 1);
      BlockBounds(t, p, n - 1);
    }
  }

  lemma ReceivedPiece(t: TorrentInfo, p: nat, piece: PieceState)
    requires Valid(t) && p < t.NumPieces()
    requires piece.totalBlocks == Blocks(t, p) == |piece.received|
    requires piece.receivedBlocks == CountTrue(piece.received)
    ensures 0 <= piece.receivedBlocks <= piece.totalBlocks && 0 < piece.totalBlocks
    ensures 0 <= ReceivedIn(t, p, piece.received, |piece.received|) <= PieceSize(t, p)
    ensures ReceivedIn(t, p, piece.received, |piece.received|) == PieceSize(t, p)
            <==> piece.receivedBlocks == piece.totalBlocks
    ensures piece.receivedBlocks == 0 ==> ReceivedIn(t, p, piece.received, |piece.received|) == 0
  {
    WholePieceSum(t, p);
    ReceivedInBounds(t, p, piece.received, |piece.received|);
    CountTrueBounds(piece.received);
  }

  /** The counted bytes are between nothing and the pieces' sum, which they reach only together. */
  lemma {:induction false} ReceivedBytesBounds(t: TorrentInfo, s: State, n: nat)
    requires Valid(t) && ShapedPieces(t, s.pieces) && |s.completed| == |s.pieces| && CountersMatch(t, s, -1)
    requires n <= |s.pieces|
    ensures 0 <= ReceivedBytes(t, s.pieces, n) <= SumPieces(t, n)
    ensures ReceivedBytes(t, s.pieces, n) == SumPieces(t, n) <==> forall p | 0 <= p < n :: s.completed[p]
  {
    if n > 0 {
      ReceivedBytesBounds(t, s, n - 1);
      ReceivedPiece(t, n - 1, s.pieces[n - 1]);
      PieceBounds(t, n - 1);
    }
  }

  // ----- Peers come, go, choke and unchoke

  lemma PeersKeep(cfg: Config, s: State, s': State)
    requires Inv(cfg, s) && s' == s.(peers := s'.peers)
    requires forall peer | peer in s.peers :: peer in s'.peers && (s'.peers[peer].choking ==> s.peers[peer].choking)
    ensures Inv(cfg, s')
  {
  }

  lemma ChokedKeeps(cfg: Config, s: State, peer: PeerId)
    requires Inv(cfg, s)
    ensures Inv(cfg, OnChoked(s, peer))
  {
    if Listening(s, peer) {
      var s1 := s.(peers := s.peers[peer := s.peers[peer].(choking := true)]);
      DropKeeps(cfg, s1, OfPeer(peer));
      var s' := OnChoked(s, peer);
      SameCounters(cfg.torrent, s, s', -1);
      forall r | r in s'.pending ensures r in s.pending && r.peer != peer {
        WithoutMembers(s.pending, OfPeer(peer), r);
      }
    }
  }

  lemma CleanedUpKeeps(cfg: Config, s: State, sel: Selector)
    requires Inv(cfg, s)
    ensures Inv(cfg, Drop(s, sel))
  {
    DropKeeps(cfg, s, sel);
    SameCounters(cfg.torrent, s, Drop(s, sel), -1);
    forall r | r in Drop(s, sel).pending ensures r in s.pending {
      WithoutMembers(s.pending, sel, r);
    }
  }

  // ----- Requests

  lemma RequestCopies(t: TorrentInfo, s: State, peer: PeerId, p: nat, b: nat, r: BlockRequest, p': nat, b': nat)
    requires ShapedPieces(t, s.pieces) && IsBlock(t, p, b) && IsBlock(t, p', b')
    requires r.piece == p && r.offset == b * BLOCK_SIZE
    requires Wants(s, peer, p, b) && CopiesMatch(s.pending, s.pieces, p', b')
    ensures CopiesMatch(s.pending + [r], SetRequested(s.pieces, p, b, true), p', b')
  {
    CountAppend(s.pending, r, OfBlock(p', b' * BLOCK_SIZE));
  }

  lemma RequestOneKeeps(cfg: Config, s: State, peer: PeerId, p: nat, b: nat, now: int)
    requires RequestInv(cfg, s) && IsBlock(cfg.torrent, p, b)
    requires peer in s.peers && !s.peers[peer].choking
    requires Count(s.pending, OfPeer(peer)) < cfg.maxRequestsPerPeer && Wants(s, peer, p, b)
    ensures RequestInv(cfg, RequestOne(cfg, s, peer, p, b, now))
    ensures Count(RequestOne(cfg, s, peer, p, b, now).pending, OfPeer(peer)) == Count(s.pending, OfPeer(peer)) + 1
  {
    var s' := RequestOne(cfg, s, peer, p, b, now);
    BlockBounds(cfg.torrent, p, b);
    var r := s'.pending[|s.pending|];
    assert r.Block() == b;
    forall x ensures Count(s'.pending, OfPeer(x)) == Count(s.pending, OfPeer(x)) + if x == peer then 1 else 0 {
      CountAppend(s.pending, r, OfPeer(x));
    }
    forall p', b' | IsBlock(cfg.torrent, p', b') ensures CopiesMatch(s'.pending, s'.pieces, p', b') {
      RequestCopies(cfg.torrent, s, peer, p, b, r, p', b');
    }
  }

  lemma {:induction false} RequestFromKeeps(
    cfg: Config, s: State, peer: PeerId, p: nat, b: nat, current: int, sends: nat, now: int)
    requires RequestInv(cfg, s) && p < cfg.torrent.NumPieces()
    requires peer in s.peers && !s.peers[peer].choking && current == Count(s.pending, OfPeer(peer))
    ensures RequestInv(cfg, RequestFrom(cfg, s, peer, p, b, current, sends, now))
    decreases Blocks(cfg.torrent, p) - b
  {
    if b >= Blocks(cfg.torrent, p) || current >= cfg.maxRequestsPerPeer {
    } else if !Wants(s, peer, p, b) {
      RequestFromKeeps(cfg, s, peer, p, b + 1, current, sends, now);
    } else if sends > 0 {
      RequestOneKeeps(cfg, s, peer, p, b, now);
      RequestFromKeeps(cfg, RequestOne(cfg, s, peer, p, b, now), peer, p, b + 1, current + 1, sends - 1, now);
    }
  }

  /** A round of requests touches nothing but the request flags and the requests in flight. */
  lemma {:induction false} RequestFromProgress(
    cfg: Config, s: State, peer: PeerId, p: nat, b: nat, current: int, sends: nat, now: int)
    requires Typed(cfg, s) && p < cfg.torrent.NumPieces()
    ensures var r := RequestFrom(cfg, s, peer, p, b, current, sends, now);
            && SameProgress(s.pieces, r.pieces)
            && r == s.(pieces := r.pieces, pending := r.pending, peers := r.peers)
    decreases Blocks(cfg.torrent, p) - b
  {
    if b >= Blocks(cfg.torrent, p) || current >= cfg.maxRequestsPerPeer {
    } else if !Wants(s, peer, p, b) {
      RequestFromProgress(cfg, s, peer, p, b + 1, current, sends, now);
    } else if sends > 0 {
      RequestFromProgress(cfg, RequestOne(cfg, s, peer, p, b, now), peer, p, b + 1, current + 1, sends - 1, now);
    }
  }

  lemma RequestedKeeps(cfg: Config, s: State, peer: PeerId, p: nat, sends: nat, now: int)
    requires Inv(cfg, s)
    ensures Inv(cfg, OnRequested(cfg, s, peer, p, sends, now))
  {
    if Listening(s, peer) && !s.peers[peer].choking && Needed(s, peer, p) {
      var current := Count(s.pending, OfPeer(peer));
      RequestFromKeeps(cfg, s, peer, p, 0, current, sends, now);
      RequestFromProgress(cfg, s, peer, p, 0, current, sends, now);
      SameCounters(cfg.torrent, s, RequestFrom(cfg, s, peer, p, 0, current, sends, now), -1);
    }
  }
}
