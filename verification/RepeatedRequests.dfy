/**
  When one peer is asked for a block that it has already been asked for. The endgame guard prevents it only while
  the block's request flag is set; once another peer's copy has been given up the flag is clear.
 */
module RepeatedRequests {
  import opened Torrents
  import opened DownloadState
  import opened RequestCounts
  import opened DownloadInvariant

  // ----- What a round asks for

  /** The blocks that a round wants among those from `i` up to `b`. */
  ghost function WantedIn(s: State, peer: PeerId, p: nat, i: nat, b: nat): nat
    requires p < |s.pieces| && b <= |s.pieces[p].requested| && b <= |s.pieces[p].received|
    decreases b
  {
    if b <= i then 0 else WantedIn(s, peer, p, i, b - 1) + if Wants(s, peer, p, b - 1) then 1 else 0
  }

  /** Going on from block `i`, a round that can send `sends` requests still has room when it comes to block `b`. */
  ghost predicate RoomAt(cfg: Config, s: State, peer: PeerId, p: nat, i: nat, b: nat, current: int, sends: nat)
    requires Typed(cfg, s) && p < cfg.torrent.NumPieces()
  {
    && i <= b < Blocks(cfg.torrent, p)
    && WantedIn(s, peer, p, i, b) < sends && current + WantedIn(s, peer, p, i, b) < cfg.maxRequestsPerPeer
  }

  ghost predicate Asks(cfg: Config, s: State, peer: PeerId, p: nat, i: nat, b: nat, current: int, sends: nat)
    requires Typed(cfg, s) && p < cfg.torrent.NumPieces()
  {
    RoomAt(cfg, s, peer, p, i, b, current, sends) && Wants(s, peer, p, b)
  }

  /** A request for one block changes what a round wants of no other block. */
  lemma WantsElsewhere(cfg: Config, s: State, peer: PeerId, p: nat, i: nat, now: int, c: nat)
    requires Typed(cfg, s) && IsBlock(cfg.torrent, p, i) && IsBlock(cfg.torrent, p, c) && c != i
    ensures Wants(RequestOne(cfg, s, peer, p, i, now), peer, p, c) <==> Wants(s, peer, p, c)
  {
    var s' := RequestOne(cfg, s, peer, p, i, now);
    CountAppend(s.pending, s'.pending[|s.pending|], Copy(p, c * BLOCK_SIZE, peer));
    CountAppend(s.pending, s'.pending[|s.pending|], OfBlock(p, c * BLOCK_SIZE));
  }

  lemma {:induction false} WantedElsewhere(cfg: Config, s: State, peer: PeerId, p: nat, i: nat, now: int, b: nat)
    requires Typed(cfg, s) && IsBlock(cfg.torrent, p, i) && b <= Blocks(cfg.torrent, p)
    ensures WantedIn(RequestOne(cfg, s, peer, p, i, now), peer, p, i + 1, b) == WantedIn(s, peer, p, i + 1, b)
    decreases b
  {
    if b > i + 1 {
      WantedElsewhere(cfg, s, peer, p, i, now, b - 1);
      WantsElsewhere(cfg, s, peer, p, i, now, b - 1);
    }
  }

  lemma {:induction false} WantedFirst(s: State, peer: PeerId, p: nat, i: nat, b: nat)
    requires p < |s.pieces| && i < b <= |s.pieces[p].requested| && b <= |s.pieces[p].received|
    ensures WantedIn(s, peer, p, i, b) == WantedIn(s, peer, p, i + 1, b) + if Wants(s, peer, p, i) then 1 else 0
    decreases b
  {
    if b > i + 1 {
      WantedFirst(s, peer, p, i, b - 1);
    }
  }

  /** What is asked from block `i` on is what is asked from the next block on. */
  lemma AsksLater(cfg: Config, s: State, peer: PeerId, p: nat, i: nat, b: nat, current: int, sends: nat)
    requires Typed(cfg, s) && IsBlock(cfg.torrent, p, i) && !Wants(s, peer, p, i)
    ensures Asks(cfg, s, peer, p, i, b, current, sends) <==> Asks(cfg, s, peer, p, i + 1, b, current, sends)
  {
    if i < b < Blocks(cfg.torrent, p) {
      WantedFirst(s, peer, p, i, b);
    }
  }

  lemma AsksAfterOne(cfg: Config, s: State, peer: PeerId, p: nat, i: nat, now: int, b: nat, current: int, sends: nat)
    requires Typed(cfg, s) && IsBlock(cfg.torrent, p, i) && Wants(s, peer, p, i)
    requires sends > 0 && current < cfg.maxRequestsPerPeer
    ensures Asks(cfg, s, peer, p, i, b, current, sends)
            <==> b == i || Asks(cfg, RequestOne(cfg, s, peer, p, i, now), peer, p, i + 1, b, current + 1, sends - 1)
  {
    if i < b < Blocks(cfg.torrent, p) {
      WantedFirst(s, peer, p, i, b);
      WantedElsewhere(cfg, s, peer, p, i, now, b);
      WantsElsewhere(cfg, s, peer, p, i, now, b);
    }
  }

  lemma NoRoom(cfg: Config, s: State, peer: PeerId, p: nat, i: nat, b: nat, current: int, sends: nat)
    requires Typed(cfg, s) && p < cfg.torrent.NumPieces()
    requires i >= Blocks(cfg.torrent, p) || current >= cfg.maxRequestsPerPeer
             || (Wants(s, peer, p, i) && sends == 0)
    ensures !Asks(cfg, s, peer, p, i, b, current, sends)
  {
  }

  /** The requests for the block at `x` become one more if the round asks for it, and stay as many otherwise. */
  ghost predicate Adds(s: State, s': State, q: nat, b: nat, x: PeerId, asks: bool) {
    var key := Copy(q, b * BLOCK_SIZE, x);
    Count(s'.pending, key) == Count(s.pending, key) + if asks then 1 else 0
  }

  lemma OneAdded(cfg: Config, s: State, peer: PeerId, p: nat, i: nat, now: int, q: nat, b: nat, x: PeerId)
    requires Typed(cfg, s) && IsBlock(cfg.torrent, p, i)
    ensures Adds(s, RequestOne(cfg, s, peer, p, i, now), q, b, x, q == p && x == peer && b == i)
  {
    CountAppend(s.pending, RequestOne(cfg, s, peer, p, i, now).pending[|s.pending|], Copy(q, b * BLOCK_SIZE, x));
  }

  /** The requests that a round adds, counted for every block and every peer. */
  lemma {:induction false} RoundAdds(
    cfg: Config, s: State, peer: PeerId, p: nat, i: nat, current: int, sends: nat, now: int, q: nat, b: nat, x: PeerId)
    requires Typed(cfg, s) && p < cfg.torrent.NumPieces()
    ensures Adds(s, RequestFrom(cfg, s, peer, p, i, current, sends, now), q, b, x,
                 q == p && x == peer && Asks(cfg, s, peer, p, i, b, current, sends))
    decreases Blocks(cfg.torrent, p) - i
  {
    if i >= Blocks(cfg.torrent, p) || current >= cfg.maxRequestsPerPeer {
      NoRoom(cfg, s, peer, p, i, b, current, sends);
    } else if !Wants(s, peer, p, i) {
      AsksLater(cfg, s, peer, p, i, b, current, sends);
      RoundAdds(cfg, s, peer, p, i + 1, current, sends, now, q, b, x);
    } else if sends == 0 {
      NoRoom(cfg, s, peer, p, i, b, current, sends);
    } else {
      var s1 := RequestOne(cfg, s, peer, p, i, now);
      AsksAfterOne(cfg, s, peer, p, i, now, b, current, sends);
      OneAdded(cfg, s, peer, p, i, now, q, b, x);
      RoundAdds(cfg, s1, peer, p, i + 1, current + 1, sends - 1, now, q, b, x);
      AddsBoth(s, s1, RequestFrom(cfg, s1, peer, p, i + 1, current + 1, sends - 1, now), q, b, x,
               q == p && x == peer && b == i,
               q == p && x == peer && Asks(cfg, s1, peer, p, i + 1, b, current + 1, sends - 1));
    }
  }

  lemma AddsBoth(s: State, s1: State, s2: State, q: nat, b: nat, x: PeerId, first: bool, second: bool)
    requires Adds(s, s1, q, b, x, first) && Adds(s1, s2, q, b, x, second) && !(first && second)
    ensures Adds(s, s2, q, b, x, first || second)
  {
  }

  /** A round of requests to `peer` goes ahead and comes to block `b` with room left. */
  ghost predicate Reaches(cfg: Config, s: State, peer: PeerId, p: nat, b: nat, sends: nat)
    requires Inv(cfg, s)
  {
    && Listening(s, peer) && !s.peers[peer].choking && Needed(s, peer, p)
    && RoomAt(cfg, s, peer, p, 0, b, Count(s.pending, OfPeer(peer)), sends)
  }

  /** A round asks for exactly the wanted blocks it reaches, each once, and for nothing of any other peer. */
  lemma RoundAsksExactly(cfg: Config, s: State, peer: PeerId, p: nat, sends: nat, now: int, q: nat, b: nat, x: PeerId)
    requires Inv(cfg, s)
    ensures var s' := Step(cfg, s, Requested(peer, p, sends, now));
            Count(s'.pending, Copy(q, b * BLOCK_SIZE, x)) == Count(s.pending, Copy(q, b * BLOCK_SIZE, x))
              + if q == p && x == peer && Reaches(cfg, s, peer, p, b, sends) && Wants(s, peer, p, b) then 1 else 0
  {
    if Listening(s, peer) && !s.peers[peer].choking && Needed(s, peer, p) {
      RoundAdds(cfg, s, peer, p, 0, Count(s.pending, OfPeer(peer)), sends, now, q, b, x);
    }
  }

  /**
    A round asks a peer again for a block that it has been asked for exactly when it reaches the block, the block
    is missing, its flag is clear, and the earlier request is still in flight.
   */
  lemma RepeatsExactlyWhenFlagClear(cfg: Config, s: State, peer: PeerId, p: nat, sends: nat, now: int, b: nat)
    requires Inv(cfg, s) && IsBlock(cfg.torrent, p, b)
    ensures var key := Copy(p, b * BLOCK_SIZE, peer);
            Count(Step(cfg, s, Requested(peer, p, sends, now)).pending, key) > Count(s.pending, key) > 0
            <==> Reaches(cfg, s, peer, p, b, sends)
                 && !s.pieces[p].received[b] && !s.pieces[p].requested[b] && Count(s.pending, key) > 0
  {
    RoundAsksExactly(cfg, s, peer, p, sends, now, p, b, peer);
  }
}
