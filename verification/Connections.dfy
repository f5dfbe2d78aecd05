/** When a peer's connection ends. */
module Connections {
  import opened Torrents
  import opened DownloadState
  import opened DownloadInvariant
  import opened DownloadProgress
  import opened RepeatedRequests
  import opened BlockEffects

  /** A round that goes on from block `i` comes to block `b`, which it wants, when its sends are used up. */
  ghost predicate FailsAt(cfg: Config, s: State, peer: PeerId, p: nat, i: nat, b: nat, current: int, sends: nat)
    requires Typed(cfg, s) && p < cfg.torrent.NumPieces()
  {
    && i <= b < Blocks(cfg.torrent, p) && Wants(s, peer, p, b)
    && WantedIn(s, peer, p, i, b) == sends && current + sends < cfg.maxRequestsPerPeer
  }

  ghost predicate SendFails(cfg: Config, s: State, peer: PeerId, p: nat, i: nat, current: int, sends: nat)
    requires Typed(cfg, s) && p < cfg.torrent.NumPieces()
  {
    exists b: nat :: FailsAt(cfg, s, peer, p, i, b, current, sends)
  }

  lemma FailsAtLater(cfg: Config, s: State, peer: PeerId, p: nat, i: nat, b: nat, current: int, sends: nat)
    requires Typed(cfg, s) && IsBlock(cfg.torrent, p, i) && !Wants(s, peer, p, i)
    ensures FailsAt(cfg, s, peer, p, i, b, current, sends) <==> FailsAt(cfg, s, peer, p, i + 1, b, current, sends)
  {
    if i < b < Blocks(cfg.torrent, p) {
      WantedFirst(s, peer, p, i, b);
    }
  }

  lemma FailsLater(cfg: Config, s: State, peer: PeerId, p: nat, i: nat, current: int, sends: nat)
    requires Typed(cfg, s) && IsBlock(cfg.torrent, p, i) && !Wants(s, peer, p, i)
    ensures SendFails(cfg, s, peer, p, i, current, sends) <==> SendFails(cfg, s, peer, p, i + 1, current, sends)
  {
    if SendFails(cfg, s, peer, p, i, current, sends) {
      var b: nat :| FailsAt(cfg, s, peer, p, i, b, current, sends);
      FailsAtLater(cfg, s, peer, p, i, b, current, sends);
    }
    if SendFails(cfg, s, peer, p, i + 1, current, sends) {
      var b: nat :| FailsAt(cfg, s, peer, p, i + 1, b, current, sends);
      FailsAtLater(cfg, s, peer, p, i, b, current, sends);
    }
  }

  lemma FailsAtAfterOne(cfg: Config, s: State, peer: PeerId, p: nat, i: nat, now: int, b: nat, current: int, sends: nat)
    requires Typed(cfg, s) && IsBlock(cfg.torrent, p, i) && Wants(s, peer, p, i) && sends > 0
    ensures FailsAt(cfg, s, peer, p, i, b, current, sends)
            <==> FailsAt(cfg, RequestOne(cfg, s, peer, p, i, now), peer, p, i + 1, b, current + 1, sends - 1)
  {
    if i < b < Blocks(cfg.torrent, p) {
      WantedFirst(s, peer, p, i, b);
      WantedElsewhere(cfg, s, peer, p, i, now, b);
      WantsElsewhere(cfg, s, peer, p, i, now, b);
    }
  }

  lemma FailsAfterOne(cfg: Config, s: State, peer: PeerId, p: nat, i: nat, now: int, current: int, sends: nat)
    requires Typed(cfg, s) && IsBlock(cfg.torrent, p, i) && Wants(s, peer, p, i) && sends > 0
    ensures var s' := RequestOne(cfg, s, peer, p, i, now);
            SendFails(cfg, s, peer, p, i, current, sends)
            <==> SendFails(cfg, s', peer, p, i + 1, current + 1, sends - 1)
  {
    var s' := RequestOne(cfg, s, peer, p, i, now);
    if SendFails(cfg, s, peer, p, i, current, sends) {
      var b: nat :| FailsAt(cfg, s, peer, p, i, b, current, sends);
      FailsAtAfterOne(cfg, s, peer, p, i, now, b, current, sends);
    }
    if SendFails(cfg, s', peer, p, i + 1, current + 1, sends - 1) {
      var b: nat :| FailsAt(cfg, s', peer, p, i + 1, b, current + 1, sends - 1);
      FailsAtAfterOne(cfg, s, peer, p, i, now, b, current, sends);
    }
  }

  /** A peer as it is when its connection has ended if `lost`. */
  ghost predicate ConnectedUnless(peers: map<PeerId, PeerView>, peers': map<PeerId, PeerView>, x: PeerId, lost: bool) {
    && (x in peers' <==> x in peers)
    && (x in peers ==> peers'[x].connected == (peers[x].connected && !lost))
  }

  lemma {:induction false} RoundConnections(
    cfg: Config, s: State, peer: PeerId, p: nat, i: nat, current: int, sends: nat, now: int, x: PeerId)
    requires Typed(cfg, s) && p < cfg.torrent.NumPieces()
    ensures ConnectedUnless(s.peers, RequestFrom(cfg, s, peer, p, i, current, sends, now).peers, x,
                            x == peer && SendFails(cfg, s, peer, p, i, current, sends))
    decreases Blocks(cfg.torrent, p) - i
  {
    if i >= Blocks(cfg.torrent, p) || current >= cfg.maxRequestsPerPeer {
    } else if !Wants(s, peer, p, i) {
      FailsLater(cfg, s, peer, p, i, current, sends);
      RoundConnections(cfg, s, peer, p, i + 1, current, sends, now, x);
    } else if sends == 0 {
      assert FailsAt(cfg, s, peer, p, i, i, current, sends);
    } else {
      FailsAfterOne(cfg, s, peer, p, i, now, current, sends);
      RoundConnections(cfg, RequestOne(cfg, s, peer, p, i, now), peer, p, i + 1, current + 1, sends - 1, now, x);
    }
  }

  /**
    The event ends the connection of `x`: it is lost; or a request to it cannot be sent; or the block that arrives
    is wanted from it too, the cancel cannot be sent, and the piece has not been reset.
   */
  ghost predicate Loses(cfg: Config, s: State, e: Event, x: PeerId)
    requires Inv(cfg, s)
  {
    match e
    case Disconnected(peer) => peer == x
    case Requested(peer, p, sends, _) =>
      && peer == x && Listening(s, x) && !s.peers[x].choking && Needed(s, x, p) && p < cfg.torrent.NumPieces()
      && SendFails(cfg, s, x, p, 0, Count(s.pending, OfPeer(x)), sends)
    case BlockArrived(sender, _, _, _, broken) =>
      && Accepted(cfg, s, e).Some? && x != sender && x in broken
      && var Arrival(p, b, _) := Accepted(cfg, s, e).value;
         && AskedFor(s.pending, p, b, x)
         && p < cfg.torrent.NumPieces() && !CheckFails(cfg, s, Step(cfg, s, e), e)
    case _ => false
  }

  lemma SamePeers(cfg: Config, s: State, e: Event)
    requires Inv(cfg, s) && e.BlockArrived? && Accepted(cfg, s, e).None?
    ensures Step(cfg, s, e).peers == s.peers
  {
  }

  /** A connection starts when the peer connects, and ends exactly as described. */
  lemma ConnectedExactlyWhen(cfg: Config, s: State, e: Event, x: PeerId)
    requires Inv(cfg, s)
    ensures Listening(Step(cfg, s, e), x) <==> e == Connected(x) || (Listening(s, x) && !Loses(cfg, s, e, x))
  {
    match e
    case Requested(peer, p, sends, now) =>
      if Listening(s, peer) && !s.peers[peer].choking && Needed(s, peer, p) {
        RoundConnections(cfg, s, peer, p, 0, Count(s.pending, OfPeer(peer)), sends, now, x);
      }
    case BlockArrived(sender, payload, written, readable, broken) =>
      if Accepted(cfg, s, e).Some? {
        PeersAfterBlock(cfg, s, e);
      } else {
        SamePeers(cfg, s, e);
      }
    case _ =>
  }
}
