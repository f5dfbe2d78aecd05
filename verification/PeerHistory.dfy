/** What a download believes of a peer, in terms of the events of its run. */
module PeerHistory {
  import opened Bytes
  import opened Torrents
  import opened DownloadState
  import opened DownloadInvariant
  import opened DownloadRuns

  /** The peers are the same, and so is whether they choke us and what they have. */
  ghost predicate SameViews(a: map<PeerId, PeerView>, b: map<PeerId, PeerView>) {
    && a.Keys == b.Keys
    && forall x | x in a :: a[x].choking == b[x].choking && a[x].has == b[x].has
  }

  lemma {:induction false} RoundKeepsViews(
    cfg: Config, s: State, peer: PeerId, p: nat, b: nat, current: int, sends: nat, now: int)
    requires Typed(cfg, s) && p < cfg.torrent.NumPieces()
    ensures SameViews(s.peers, RequestFrom(cfg, s, peer, p, b, current, sends, now).peers)
    decreases Blocks(cfg.torrent, p) - b
  {
    if b >= Blocks(cfg.torrent, p) || current >= cfg.maxRequestsPerPeer {
    } else if !Wants(s, peer, p, b) {
      RoundKeepsViews(cfg, s, peer, p, b + 1, current, sends, now);
    } else if sends > 0 {
      RoundKeepsViews(cfg, RequestOne(cfg, s, peer, p, b, now), peer, p, b + 1, current + 1, sends - 1, now);
    }
  }

  lemma BlockKeepsViews(cfg: Config, s: State, peer: PeerId, payload: bytes, written: nat, readable: nat,
                        broken: set<PeerId>)
    requires Inv(cfg, s)
    ensures SameViews(s.peers, OnBlock(cfg, s, peer, payload, written, readable, broken).peers)
  {
    if Listening(s, peer) && |payload| >= 8 {
      var p, offset, data := BytesToInt(payload), BytesToInt(payload[4..]), payload[8..];
      var k := FindFirst(s.pending, Copy(p, offset, peer));
      if k < |s.pending| {
        var b := offset / BLOCK_SIZE;
        assert s.pending[k] in s.pending;
        if |data| == s.pending[k].length && b < s.pieces[p].totalBlocks && !s.pieces[p].received[b] {
          BlockBounds(cfg.torrent, p, b);
          PieceBounds(cfg.torrent, p);
          var s2 := Receive(cfg, s.(pending := RemoveAt(s.pending, k)), p, b, data, written);
          FinishKeepsViews(cfg, s2, p, readable);
          CancelKeepsViews(Finish(cfg, s2, p, readable), p, offset, peer, broken);
        }
      }
    }
  }

  lemma FinishKeepsViews(cfg: Config, s: State, p: nat, readable: nat)
    requires p < |s.pieces| == |s.completed| && 0 <= PieceStart(cfg.torrent, p)
    ensures Finish(cfg, s, p, readable).peers == s.peers
  {
  }

  lemma CancelKeepsViews(s: State, p: nat, offset: nat, keep: PeerId, broken: set<PeerId>)
    ensures SameViews(s.peers, CancelDuplicates(s, p, offset, keep, broken).peers)
  {
  }

  lemma OthersKeepViews(cfg: Config, s: State, e: Event)
    requires Inv(cfg, s)
    requires e.Disconnected? || e.BlockArrived? || e.Requested? || e.CleanedUp? || e.EndgameUpdated?
    ensures SameViews(s.peers, Step(cfg, s, e).peers)
  {
    match e
    case Requested(peer, p, sends, now) =>
      if Listening(s, peer) && !s.peers[peer].choking && Needed(s, peer, p) {
        RoundKeepsViews(cfg, s, peer, p, 0, Count(s.pending, OfPeer(peer)), sends, now);
      }
    case BlockArrived(peer, payload, written, readable, broken) =>
      BlockKeepsViews(cfg, s, peer, payload, written, readable, broken);
    case _ =>
  }

  /** The event replaces what `x` has. */
  ghost predicate SetsPieces(s: State, e: Event, x: PeerId) {
    e == Connected(x) || (e.Announced? && e.peer == x && Listening(s, x))
  }

  /** The event says whether `x` chokes us. */
  ghost predicate SetsChoking(s: State, e: Event, x: PeerId) {
    (e == Choked(x) || e == Unchoked(x)) && Listening(s, x)
  }

  /** What one event does to what is believed of `x`. */
  ghost predicate Believes(cfg: Config, s: State, e: Event, s': State, x: PeerId) {
    && (x in s'.peers <==> x in s.peers || e == Connected(x))
    && (x in s'.peers ==>
          && s'.peers[x].has == (if !SetsPieces(s, e, x) then s.peers[x].has
                                 else if e.Announced? then e.has
                                 else seq(cfg.torrent.NumPieces(), _ => false))
          && s'.peers[x].choking == (if SetsChoking(s, e, x) then e.Choked? else x in s.peers ==> s.peers[x].choking))
  }

  lemma ViewAfter(cfg: Config, s: State, e: Event, x: PeerId)
    requires Inv(cfg, s)
    ensures Believes(cfg, s, e, Step(cfg, s, e), x)
  {
    match e
    case Connected(peer) =>
    case Announced(peer, has) =>
    case Unchoked(peer) =>
    case Choked(peer) => ViewAfterChoke(cfg, s, peer, x);
    case _ =>
      OthersKeepViews(cfg, s, e);
      SameBelief(cfg, s, e, Step(cfg, s, e), x);
  }

  lemma SameBelief(cfg: Config, s: State, e: Event, s': State, x: PeerId)
    requires SameViews(s.peers, s'.peers) && !e.Connected? && !e.Announced? && !e.Unchoked? && !e.Choked?
    ensures Believes(cfg, s, e, s', x)
  {
  }

  lemma ViewAfterChoke(cfg: Config, s: State, peer: PeerId, x: PeerId)
    ensures Believes(cfg, s, Choked(peer), OnChoked(s, peer), x)
  {
  }

  // ----- Whole runs

  /** Event `k` of the run replaces what `x` has. */
  ghost predicate PiecesAt(cfg: Config, s: State, es: seq<Event>, x: PeerId, k: nat)
    requires Inv(cfg, s)
  {
    k < |es| && SetsPieces(Run(cfg, s, es[..k]), es[k], x)
  }

  /** Event `k` of the run says whether `x` chokes us. */
  ghost predicate ChokingAt(cfg: Config, s: State, es: seq<Event>, x: PeerId, k: nat)
    requires Inv(cfg, s)
  {
    k < |es| && SetsChoking(Run(cfg, s, es[..k]), es[k], x)
  }

  /** Of the events picked out by `at`, the last one is good. */
  ghost predicate LastIs(at: nat -> bool, good: nat -> bool) {
    exists k: nat :: at(k) && good(k) && forall j: nat | j > k :: !at(j)
  }

  lemma LastOneMore(at: nat -> bool, good: nat -> bool, at': nat -> bool, good': nat -> bool, n: nat)
    requires forall k: nat :: at(k) ==> k < n
    requires forall k: nat :: at'(k) <==> at(k) || (k == n && at'(n))
    requires forall k: nat | k < n :: good'(k) == good(k)
    ensures LastIs(at', good') <==> if at'(n) then good'(n) else LastIs(at, good)
  {
    if LastIs(at, good) && !at'(n) {
      var k: nat :| at(k) && good(k) && forall j: nat | j > k :: !at(j);
      assert at'(k) && good'(k);
    }
  }

  /** The last event that replaces what `x` has announces piece `p`. */
  ghost predicate LastAnnounces(cfg: Config, s: State, es: seq<Event>, x: PeerId, p: nat)
    requires Inv(cfg, s)
  {
    LastIs((k: nat) => PiecesAt(cfg, s, es, x, k), (k: nat) => AnnouncesAt(es, k, p))
  }

  predicate AnnouncesAt(es: seq<Event>, k: nat, p: nat) {
    k < |es| && es[k].Announced? && p < |es[k].has| && es[k].has[p]
  }

  /** The last event that says whether `x` chokes us is an unchoke. */
  ghost predicate LastUnchokes(cfg: Config, s: State, es: seq<Event>, x: PeerId)
    requires Inv(cfg, s)
  {
    LastIs((k: nat) => ChokingAt(cfg, s, es, x, k), (k: nat) => k < |es| && es[k].Unchoked?)
  }

  lemma EarlierEvents(cfg: Config, s: State, front: seq<Event>, last: Event, x: PeerId)
    requires Inv(cfg, s)
    ensures forall k: nat :: PiecesAt(cfg, s, front + [last], x, k) <==>
              PiecesAt(cfg, s, front, x, k) || (k == |front| && SetsPieces(Run(cfg, s, front), last, x))
    ensures forall k: nat :: ChokingAt(cfg, s, front + [last], x, k) <==>
              ChokingAt(cfg, s, front, x, k) || (k == |front| && SetsChoking(Run(cfg, s, front), last, x))
  {
    var es := front + [last];
    assert forall k: nat | k <= |front| :: es[..k] == front[..k];
    assert front[..|front|] == front;
  }

  lemma AnnouncesOneMore(cfg: Config, s: State, front: seq<Event>, last: Event, x: PeerId, p: nat)
    requires Inv(cfg, s)
    ensures LastAnnounces(cfg, s, front + [last], x, p) <==>
              if SetsPieces(Run(cfg, s, front), last, x) then last.Announced? && p < |last.has| && last.has[p]
              else LastAnnounces(cfg, s, front, x, p)
  {
    var es := front + [last];
    EarlierEvents(cfg, s, front, last, x);
    assert forall k: nat | k < |front| :: es[k] == front[k];
    LastOneMore((k: nat) => PiecesAt(cfg, s, front, x, k), (k: nat) => AnnouncesAt(front, k, p),
                (k: nat) => PiecesAt(cfg, s, es, x, k), (k: nat) => AnnouncesAt(es, k, p), |front|);
  }

  lemma UnchokesOneMore(cfg: Config, s: State, front: seq<Event>, last: Event, x: PeerId)
    requires Inv(cfg, s)
    ensures LastUnchokes(cfg, s, front + [last], x) <==>
              if SetsChoking(Run(cfg, s, front), last, x) then last.Unchoked? else LastUnchokes(cfg, s, front, x)
  {
    var es := front + [last];
    EarlierEvents(cfg, s, front, last, x);
    assert forall k: nat | k < |front| :: es[k] == front[k];
    LastOneMore((k: nat) => ChokingAt(cfg, s, front, x, k), (k: nat) => k < |front| && front[k].Unchoked?,
                (k: nat) => ChokingAt(cfg, s, es, x, k), (k: nat) => k < |es| && es[k].Unchoked?, |front|);
  }

  /**
    In every run a peer is known exactly when it has connected. It has a piece exactly when the last thing heard of
    its pieces while it was connected, since it last connected, announced that piece; and it chokes us exactly when
    the last thing heard of that while it was connected was not an unchoke.
   */
  lemma {:induction false} BelievedExactlyWhen(cfg: Config, s: State, es: seq<Event>, x: PeerId, p: nat)
    requires Inv(cfg, s) && s.peers == map[]
    ensures var peers := Run(cfg, s, es).peers;
            && (x in peers <==> Connected(x) in es)
            && (x in peers ==>
                  && (peers[x].HasPiece(p) <==> LastAnnounces(cfg, s, es, x, p))
                  && (peers[x].choking <==> !LastUnchokes(cfg, s, es, x)))
            && (x !in peers ==> !LastAnnounces(cfg, s, es, x, p) && !LastUnchokes(cfg, s, es, x))
    decreases |es|
  {
    if es != [] {
      var front, last := es[..|es| - 1], es[|es| - 1];
      assert es == front + [last];
      BelievedExactlyWhen(cfg, s, front, x, p);
      RunAppend(cfg, s, front, last);
      ViewAfter(cfg, Run(cfg, s, front), last, x);
      AnnouncesOneMore(cfg, s, front, last, x, p);
      UnchokesOneMore(cfg, s, front, last, x);
    }
  }
}
