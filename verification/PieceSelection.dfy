/** Which piece is worked on next. */
module PieceSelection {
  import opened Bytes
  import opened DownloadState

  /** The connected peers that have piece `p`. */
  function PeerCount(peers: map<PeerId, PeerView>, p: nat): nat {
    |set peer | peer in peers && peers[peer].connected && peers[peer].HasPiece(p)|
  }

  function CompletionPermille(piece: PieceState): (permille: int)
    requires piece.totalBlocks > 0
    ensures permille >= 0
  {
    piece.receivedBlocks * 1000 / piece.totalBlocks
  }

  function Rarity(peerCount: nat): nat {
    if peerCount > 0 then 1000 / peerCount else 10000
  }

  function Score(piece: PieceState, peerCount: nat): (score: int)
    requires piece.totalBlocks > 0
    ensures score >= 0
  {
    CompletionPermille(piece) * 100 + Rarity(peerCount)
  }

  predicate Partial(pieces: seq<PieceState>, completed: seq<bool>, p: nat) {
    p < |pieces| && p < |completed| && !completed[p] && pieces[p].receivedBlocks > 0
  }

  /** Among the first `n` pieces, `p` is the first partial one of the highest score. */
  ghost predicate BestPartial(
    peers: map<PeerId, PeerView>, pieces: seq<PieceState>, completed: seq<bool>, p: nat, n: nat)
    requires forall q | 0 <= q < |pieces| :: pieces[q].totalBlocks > 0
  {
    && p < n && Partial(pieces, completed, p)
    && forall q: nat | q < n && Partial(pieces, completed, q) ::
         var better, other := Score(pieces[p], PeerCount(peers, p)), Score(pieces[q], PeerCount(peers, q));
         other < better || (other == better && p <= q)
  }

  /** The best partial piece of the first `n`, if there is one. */
  ghost predicate BestOf(
    peers: map<PeerId, PeerView>, pieces: seq<PieceState>, completed: seq<bool>, best: Option<nat>, n: nat)
    requires forall q | 0 <= q < |pieces| :: pieces[q].totalBlocks > 0
  {
    match best
    case None => forall q: nat | q < n :: !Partial(pieces, completed, q)
    case Some(p) => BestPartial(peers, pieces, completed, p, n)
  }

  /** A later piece takes the lead only with a higher score. */
  lemma BestAfter(peers: map<PeerId, PeerView>, pieces: seq<PieceState>, completed: seq<bool>,
      best: Option<nat>, n: nat)
    requires forall q | 0 <= q < |pieces| :: pieces[q].totalBlocks > 0
    requires n < |pieces| && BestOf(peers, pieces, completed, best, n)
    ensures var leads := Partial(pieces, completed, n) && (best.Some? ==>
              Score(pieces[n], PeerCount(peers, n)) > Score(pieces[best.value], PeerCount(peers, best.value)));
            BestOf(peers, pieces, completed, if leads then Some(n) else best, n + 1)
  {
  }

  /** Among the first `n` pieces, `p` is the first incomplete one that the fewest peers have. */
  ghost predicate Rarest(peers: map<PeerId, PeerView>, completed: seq<bool>, p: nat, n: nat)
    requires n <= |completed|
  {
    && p < n && !completed[p]
    && forall q: nat | q < n && !completed[q] ::
         PeerCount(peers, p) < PeerCount(peers, q) || (PeerCount(peers, p) == PeerCount(peers, q) && p <= q)
  }

  /** The outcome of the selection: a partial piece if there is one, else a rarest one. */
  ghost predicate Selected(
    peers: map<PeerId, PeerView>, pieces: seq<PieceState>, completed: seq<bool>, best: Option<nat>)
    requires |pieces| == |completed|
    requires forall q | 0 <= q < |pieces| :: pieces[q].totalBlocks > 0
  {
    match best
    case None => forall q | 0 <= q < |completed| :: completed[q]
    case Some(p) =>
      if exists q: nat :: Partial(pieces, completed, q) then BestPartial(peers, pieces, completed, p, |pieces|)
      else Rarest(peers, completed, p, |pieces|)
  }

  /** More peers never make a piece rarer. */
  lemma RarityFalls(few: nat, many: nat)
    requires few <= many
    ensures Rarity(many) <= Rarity(few) <= 10000
  {
    if few > 0 {
      var x, y := 1000 / few, 1000 / many;
      assert many * y <= 1000 < few * (x + 1);
      if y > x {
        Scaled(few, many, x + 1, y);
      }
    } else if many > 0 {
      assert many * (1000 / many) <= 1000;
      Scaled(1, many, 1000 / many, 1000 / many);
    }
  }

  lemma Scaled(a: nat, b: nat, x: nat, y: nat)
    requires a <= b && x <= y
    ensures a * x <= b * y
  {
  }

  /**
    With at most `maxPeers` peers, completion outranks rarity, whoever has the pieces, exactly when its lead in
    thousandths, times 100, and the rarity of a piece that all of them have exceed 10000. With a smaller lead the
    piece further along can lose to one that no peer has.
   */
  lemma CompletionOutranksRarity(a: PieceState, b: PieceState, maxPeers: nat)
    requires a.totalBlocks > 0 && b.totalBlocks > 0
    ensures (forall peersOfA: nat, peersOfB: nat | peersOfA <= maxPeers && peersOfB <= maxPeers ::
               Score(a, peersOfA) > Score(b, peersOfB))
            <==> (CompletionPermille(a) - CompletionPermille(b)) * 100 + Rarity(maxPeers) > 10000
  {
    forall peersOfA: nat, peersOfB: nat | peersOfA <= maxPeers && peersOfB <= maxPeers
      ensures Rarity(peersOfA) >= Rarity(maxPeers) && Rarity(peersOfB) <= 10000
    {
      RarityFalls(peersOfA, maxPeers);
      RarityFalls(peersOfB, maxPeers);
    }
    assert Score(a, maxPeers) == CompletionPermille(a) * 100 + Rarity(maxPeers);
    assert Score(b, 0) == CompletionPermille(b) * 100 + 10000;
  }

  /** The lead that decides for one peer, for 500, and for more than a thousand. */
  lemma LeadThatDecides(lead: int)
    ensures lead * 100 + Rarity(1) > 10000 <==> lead >= 91
    ensures lead * 100 + Rarity(500) > 10000 <==> lead >= 100
    ensures lead * 100 + Rarity(1001) > 10000 <==> lead >= 101
  {
  }

  /** A piece of 16 blocks of which the first `n` have been received. */
  function Sixteenths(n: nat): PieceState
    requires n <= 16
  {
    PieceState(seq(16, _ => false), seq(16, b => b < n), 16, n)
  }

  /**
    Two pieces of 16 blocks are under way, with two and one of them received, and the only peer has the first. The
    piece that is less complete, and that nobody has, is selected.
   */
  lemma LessCompleteIsSelected(peer: PeerId, choking: bool, best: Option<nat>)
    ensures CompletionPermille(Sixteenths(1)) < CompletionPermille(Sixteenths(2))
    ensures Selected(map[peer := PeerView(true, choking, [true, false])], [Sixteenths(2), Sixteenths(1)],
                     [false, false], best)
            <==> best == Some(1)
  {
    var peers, pieces := map[peer := PeerView(true, choking, [true, false])], [Sixteenths(2), Sixteenths(1)];
    assert (set x | x in peers && peers[x].connected && peers[x].HasPiece(0)) == {peer};
    assert (set x | x in peers && peers[x].connected && peers[x].HasPiece(1)) == {};
    assert Score(pieces[0], PeerCount(peers, 0)) == 13500 && Score(pieces[1], PeerCount(peers, 1)) == 16200;
    assert Partial(pieces, [false, false], 0) && Partial(pieces, [false, false], 1);
  }
}
