/** Everything that an accepted block changes, and what it leaves. */
module BlockEffects {
  import opened Bytes
  import opened Torrents
  import opened DownloadState
  import opened RequestCounts
  import opened DownloadInvariant
  import opened DownloadRuns
  import opened DownloadProgress
  import DiskWrites

  /** All blocks of the piece but `b` have arrived before. */
  ghost predicate IsLast(cfg: Config, s: State, p: nat, b: nat)
    requires Typed(cfg, s) && p < cfg.torrent.NumPieces()
  {
    forall c: nat | c < Blocks(cfg.torrent, p) && c != b :: s.pieces[p].received[c]
  }

  /** The block was the last of its piece, and the piece then cannot be read or does not hash right. */
  ghost predicate CheckFails(cfg: Config, s: State, s': State, e: Event)
    requires Typed(cfg, s) && e.BlockArrived? && Accepted(cfg, s, e).Some?
    requires Accepted(cfg, s, e).value.piece < cfg.torrent.NumPieces()
  {
    var Arrival(p, b, _) := Accepted(cfg, s, e).value;
    IsLast(cfg, s, p, b) && (e.readable < PieceSize(cfg.torrent, p) || !HashesAsListed(cfg, s'.disk, p))
  }

  // ----- The parts of the event

  /** The whole state after the event: the copies are given up after the check, and that after the block. */
  lemma StepParts(cfg: Config, s: State, e: Event) returns (s2: State, f: State)
    requires Inv(cfg, s) && Accepted(cfg, s, e).Some?
    ensures var Arrival(p, b, data) := Accepted(cfg, s, e).value;
            && IsBlock(cfg.torrent, p, b) && 0 <= PieceStart(cfg.torrent, p)
            && s2 == AfterReceive(cfg, s, e) && InvOpen(cfg, s2, p)
            && f == Finish(cfg, s2, p, e.readable)
            && Step(cfg, s, e) == CancelDuplicates(f, p, b * 16384, e.peer, e.broken)
  {
    var _ := WholeBlock(cfg, s, e);
    s2 := AcceptedStep(cfg, s, e);
    f := Finish(cfg, s2, Accepted(cfg, s, e).value.piece, e.readable);
    StepUnfolds(cfg, s, e);
  }

  lemma StepUnfolds(cfg: Config, s: State, e: Event)
    requires Inv(cfg, s) && Accepted(cfg, s, e).Some?
    ensures var p, s2 := Accepted(cfg, s, e).value.piece, AfterReceive(cfg, s, e);
            && p < |s2.pieces| == |s2.completed| && 0 <= PieceStart(cfg.torrent, p)
            && Step(cfg, s, e) == CancelDuplicates(Finish(cfg, s2, p, e.readable), p, BytesToInt(e.payload[4..]),
                                                   e.peer, e.broken)
  {
    var k := FindFirst(s.pending, Copy(BytesToInt(e.payload), BytesToInt(e.payload[4..]), e.peer));
    assert s.pending[k] in s.pending;
    PieceBounds(cfg.torrent, Accepted(cfg, s, e).value.piece);
  }

  /** The block that a message names starts where the message says. */
  lemma WholeBlock(cfg: Config, s: State, e: Event) returns (k: nat)
    requires Inv(cfg, s) && Accepted(cfg, s, e).Some?
    ensures var Arrival(p, b, data) := Accepted(cfg, s, e).value;
            && p == BytesToInt(e.payload) && b * 16384 == BytesToInt(e.payload[4..])
            && k == FindFirst(s.pending, Copy(p, b * 16384, e.peer)) && IsFirst(s.pending, k, p, b, e.peer)
  {
    k := FindFirst(s.pending, Copy(BytesToInt(e.payload), BytesToInt(e.payload[4..]), e.peer));
    assert s.pending[k] in s.pending && SoundRequest(cfg.torrent, s.pending[k]);
  }

  /** The requests, flags and peers before the check. */
  lemma ReceivedParts(cfg: Config, s: State, e: Event, s2: State, k: nat)
    requires Inv(cfg, s) && Accepted(cfg, s, e).Some? && s2 == AfterReceive(cfg, s, e)
    requires var Arrival(p, b, data) := Accepted(cfg, s, e).value;
             k == FindFirst(s.pending, Copy(p, b * 16384, e.peer)) && b * 16384 == BytesToInt(e.payload[4..])
    ensures var Arrival(p, b, data) := Accepted(cfg, s, e).value;
            && k < |s.pending| && s2.pending == RemoveAt(s.pending, k) && s2.peers == s.peers
            && p < |s2.pieces| == |s.pieces| && b < |s.pieces[p].received|
            && s2.pieces == s.pieces[p := s.pieces[p].(received := s.pieces[p].received[b := true],
                                                       receivedBlocks := s.pieces[p].receivedBlocks + 1)]
            && s2.completed == s.completed && s2.completedCount == s.completedCount
            && s2.downloaded == s.downloaded + |data| && s2.endgame == s.endgame
  {
  }

  /** The outcome of the check of a piece. */
  lemma FinishParts(cfg: Config, s: State, p: nat, readable: nat)
    requires InvOpen(cfg, s, p) && p < cfg.torrent.NumPieces() && 0 <= PieceStart(cfg.torrent, p)
    ensures Finish(cfg, s, p, readable) ==
              if exists c: nat :: c < Blocks(cfg.torrent, p) && !s.pieces[p].received[c] then s
              else if readable < PieceSize(cfg.torrent, p) || !HashesAsListed(cfg, s.disk, p) then
                ResetPiece(cfg, s, p)
              else s.(completed := s.completed[p := true], completedCount := s.completedCount + 1)
  {
    CountTrueBounds(s.pieces[p].received);
    VerifiesAsListed(cfg, s.disk, p);
  }

  /** The first request for the block at the peer. */
  ghost predicate IsFirst(q: seq<BlockRequest>, k: nat, p: nat, b: nat, peer: PeerId) {
    && k < |q| && q[k].piece == p && q[k].offset == b * 16384 && q[k].peer == peer
    && forall j | 0 <= j < k :: !(q[j].piece == p && q[j].offset == b * 16384 && q[j].peer == peer)
  }

  /** Before the check: the request is taken out, and the block marked and counted. */
  ghost predicate Stored(cfg: Config, s: State, e: Event, s2: State, k: nat)
    requires Inv(cfg, s) && Accepted(cfg, s, e).Some?
  {
    var Arrival(p, b, data) := Accepted(cfg, s, e).value;
    && IsBlock(cfg.torrent, p, b) && p < |s.pieces| && b < |s.pieces[p].received|
    && IsFirst(s.pending, k, p, b, e.peer)
    && s2.pending == RemoveAt(s.pending, k) && s2.peers == s.peers && BlockMarked(s, s2, p, b)
  }

  ghost predicate BlockMarked(s: State, s2: State, p: nat, b: nat)
    requires p < |s.pieces| && b < |s.pieces[p].received|
  {
    && s2.pieces == s.pieces[p := s.pieces[p].(received := s.pieces[p].received[b := true],
                                               receivedBlocks := s.pieces[p].receivedBlocks + 1)]
    && s2.completed == s.completed && s2.endgame == s.endgame
  }

  /** After the check: the piece is reset, complete, or still to be completed. */
  ghost predicate Checked(cfg: Config, s: State, e: Event, s2: State, f: State)
    requires Inv(cfg, s) && Accepted(cfg, s, e).Some?
  {
    var Arrival(p, b, _) := Accepted(cfg, s, e).value;
    && p < cfg.torrent.NumPieces() && p < |s2.pieces| && p < |s2.completed|
    && Outcome(cfg, s2, f, p, IsLast(cfg, s, p, b), CheckFails(cfg, s, Step(cfg, s, e), e))
  }

  ghost predicate Outcome(cfg: Config, s2: State, f: State, p: nat, last: bool, fails: bool)
    requires p < |s2.pieces| && p < |s2.completed|
  {
    f == if fails then ResetPiece(cfg, s2, p)
         else if last then s2.(completed := s2.completed[p := true], completedCount := s2.completedCount + 1)
         else s2
  }

  lemma AllParts(cfg: Config, s: State, e: Event) returns (k: nat, s2: State, f: State)
    requires Inv(cfg, s) && Accepted(cfg, s, e).Some?
    ensures Stored(cfg, s, e, s2, k) && Checked(cfg, s, e, s2, f)
    ensures var Arrival(p, b, _) := Accepted(cfg, s, e).value;
            Step(cfg, s, e) == CancelDuplicates(f, p, b * 16384, e.peer, e.broken)
  {
    s2, f := StepParts(cfg, s, e);
    k := WholeBlock(cfg, s, e);
    ReceivedParts(cfg, s, e, s2, k);
    LastOne(cfg, s, e, s2);
    CheckOutcome(cfg, s, e, s2, f);
  }

  lemma CheckOutcome(cfg: Config, s: State, e: Event, s2: State, f: State)
    requires Inv(cfg, s) && Accepted(cfg, s, e).Some?
    requires var Arrival(p, b, _) := Accepted(cfg, s, e).value;
             && p < cfg.torrent.NumPieces() && 0 <= PieceStart(cfg.torrent, p) && InvOpen(cfg, s2, p)
             && f == Finish(cfg, s2, p, e.readable) && Step(cfg, s, e).disk == f.disk
             && (IsLast(cfg, s, p, b) <==>
                   !exists c: nat :: c < Blocks(cfg.torrent, p) && !s2.pieces[p].received[c])
    ensures Checked(cfg, s, e, s2, f)
  {
    FinishParts(cfg, s2, Accepted(cfg, s, e).value.piece, e.readable);
    assert f.disk == s2.disk;
  }

  lemma LastOne(cfg: Config, s: State, e: Event, s2: State)
    requires Typed(cfg, s) && Typed(cfg, s2) && Accepted(cfg, s, e).Some?
    requires var Arrival(p, b, _) := Accepted(cfg, s, e).value;
             && p < |s2.pieces| == |s.pieces| && b < |s.pieces[p].received|
             && s2.pieces[p].received == s.pieces[p].received[b := true]
    ensures var Arrival(p, b, _) := Accepted(cfg, s, e).value;
            IsLast(cfg, s, p, b) <==> !exists c: nat :: c < Blocks(cfg.torrent, p) && !s2.pieces[p].received[c]
  {
    var Arrival(p, b, _) := Accepted(cfg, s, e).value;
    assert forall c: nat | c < Blocks(cfg.torrent, p) && c != b :: s2.pieces[p].received[c] == s.pieces[p].received[c];
  }

  // ----- What the event does

  /** How often every request is there afterwards. */
  ghost predicate RequestsAfter(q: seq<BlockRequest>, q': seq<BlockRequest>, k: nat, p: nat, b: nat, sender: PeerId,
                                fails: bool)
    requires k < |q|
  {
    forall r: BlockRequest :: multiset(q')[r] ==
      if r.piece == p && (fails || (r.offset == b * 16384 && r.peer != sender)) then 0
      else multiset(q)[r] - if r == q[k] then 1 else 0
  }

  lemma GivenUp(q: seq<BlockRequest>, k: nat, p: nat, b: nat, sender: PeerId, fails: bool)
    requires k < |q|
    ensures var rest := RemoveAt(q, k);
            RequestsAfter(q, Without(if fails then Without(rest, OfPiece(p)) else rest,
                                     Duplicate(p, b * 16384, sender)), k, p, b, sender, fails)
  {
    var rest := RemoveAt(q, k);
    RemoveAtMultiset(q, k);
    var checked := if fails then Without(rest, OfPiece(p)) else rest;
    forall r: BlockRequest
      ensures multiset(Without(checked, Duplicate(p, b * 16384, sender)))[r] ==
                if r.piece == p && (fails || (r.offset == b * 16384 && r.peer != sender)) then 0
                else multiset(q)[r] - if r == q[k] then 1 else 0
    {
      WithoutMultiset(checked, Duplicate(p, b * 16384, sender), r);
      WithoutMultiset(rest, OfPiece(p), r);
    }
  }

  /**
    The request that the block answers is gone, and so are all other peers' requests for the block. If the check
    fails all requests for the piece are gone. Every other request is still there, as often as it was.
   */
  lemma RequestsAfterBlock(cfg: Config, s: State, e: Event) returns (k: nat)
    requires Inv(cfg, s) && Accepted(cfg, s, e).Some?
    ensures Accepted(cfg, s, e).value.piece < cfg.torrent.NumPieces()
    ensures var s' := Step(cfg, s, e);
            var Arrival(p, b, _) := Accepted(cfg, s, e).value;
            && IsFirst(s.pending, k, p, b, e.peer)
            && RequestsAfter(s.pending, s'.pending, k, p, b, e.peer, CheckFails(cfg, s, s', e))
  {
    var s2, f;
    k, s2, f := AllParts(cfg, s, e);
    var Arrival(p, b, _) := Accepted(cfg, s, e).value;
    GivenUp(s.pending, k, p, b, e.peer, CheckFails(cfg, s, Step(cfg, s, e), e));
  }

  /** The peer has been asked for the block. */
  ghost predicate AskedFor(q: seq<BlockRequest>, p: nat, b: nat, x: PeerId) {
    exists r :: r in q && r.piece == p && r.offset == b * 16384 && r.peer == x
  }

  /** A peer loses its connection exactly when its copy of the request is given up and the cancel cannot be sent. */
  ghost predicate PeersAfter(s: State, s': State, p: nat, b: nat, sender: PeerId, broken: set<PeerId>, fails: bool) {
    && s'.peers.Keys == s.peers.Keys
    && forall x | x in s.peers ::
         && s'.peers[x].choking == s.peers[x].choking && s'.peers[x].has == s.peers[x].has
         && s'.peers[x].connected ==
              (s.peers[x].connected && (x == sender || x !in broken || fails || !AskedFor(s.pending, p, b, x)))
  }

  lemma Disconnects(s: State, f: State, k: nat, p: nat, b: nat, sender: PeerId, broken: set<PeerId>, fails: bool)
    requires k < |s.pending| && s.pending[k].peer == sender && f.peers == s.peers
    requires f.pending == if fails then Without(RemoveAt(s.pending, k), OfPiece(p)) else RemoveAt(s.pending, k)
    ensures PeersAfter(s, CancelDuplicates(f, p, b * 16384, sender, broken), p, b, sender, broken, fails)
  {
    forall x | x != sender
      ensures AskedFor(f.pending, p, b, x) <==> !fails && AskedFor(s.pending, p, b, x)
    {
      OthersStay(s.pending, k, x);
      NoneLeft(RemoveAt(s.pending, k), p);
    }
    CancelledPeers(f, p, b, sender, broken);
  }

  lemma CancelledPeers(f: State, p: nat, b: nat, sender: PeerId, broken: set<PeerId>)
    ensures var s' := CancelDuplicates(f, p, b * 16384, sender, broken);
            && s'.peers.Keys == f.peers.Keys
            && forall x | x in f.peers :: s'.peers[x] ==
                 if x != sender && x in broken && AskedFor(f.pending, p, b, x) then f.peers[x].(connected := false)
                 else f.peers[x]
  {
    var sel := Duplicate(p, b * 16384, sender);
    var lost := set r | r in f.pending && sel.Hits(r) && r.peer in broken :: r.peer;
    forall x
      ensures x in lost <==> x != sender && x in broken && AskedFor(f.pending, p, b, x)
    {
      if x != sender && x in broken && AskedFor(f.pending, p, b, x) {
        var r :| r in f.pending && r.piece == p && r.offset == b * 16384 && r.peer == x;
        assert sel.Hits(r);
      }
    }
  }

  lemma OthersStay(q: seq<BlockRequest>, k: nat, x: PeerId)
    requires k < |q| && q[k].peer != x
    ensures forall r: BlockRequest | r.peer == x :: r in RemoveAt(q, k) <==> r in q
  {
    assert q == q[..k] + [q[k]] + q[k + 1..];
  }

  lemma NoneLeft(q: seq<BlockRequest>, p: nat)
    ensures forall r | r in Without(q, OfPiece(p)) :: r.piece != p
  {
    forall r | r in Without(q, OfPiece(p))
      ensures r.piece != p
    {
      WithoutMembers(q, OfPiece(p), r);
    }
  }

  lemma PeersAfterBlock(cfg: Config, s: State, e: Event)
    requires Inv(cfg, s) && Accepted(cfg, s, e).Some?
    ensures Accepted(cfg, s, e).value.piece < cfg.torrent.NumPieces()
    ensures var s' := Step(cfg, s, e);
            var Arrival(p, b, _) := Accepted(cfg, s, e).value;
            PeersAfter(s, s', p, b, e.peer, e.broken, CheckFails(cfg, s, s', e))
  {
    var k, s2, f := AllParts(cfg, s, e);
    var Arrival(p, b, _) := Accepted(cfg, s, e).value;
    Disconnects(s, f, k, p, b, e.peer, e.broken, CheckFails(cfg, s, Step(cfg, s, e), e));
  }

  /** A block's flag is set as before, but for the pieces that are reset and the block whose copies are given up. */
  ghost predicate FlagsAfter(cfg: Config, s: State, s': State, p: nat, b: nat, sender: PeerId, fails: bool)
    requires Typed(cfg, s) && Typed(cfg, s')
  {
    forall q: nat, c: nat | IsBlock(cfg.torrent, q, c) ::
      s'.pieces[q].requested[c] == (
        && s.pieces[q].requested[c] && !(q == p && fails)
        && !(q == p && c == b && exists x :: x != sender && AskedFor(s.pending, p, b, x)))
  }

  /** Received are the blocks received before and this one, but nothing of a piece that is reset. */
  ghost predicate PieceAfter(cfg: Config, s: State, s': State, p: nat, b: nat, data: bytes, last: bool, fails: bool)
    requires Typed(cfg, s) && Typed(cfg, s')
  {
    && (forall q: nat, c: nat | IsBlock(cfg.torrent, q, c) ::
          s'.pieces[q].received[c] == if q == p then !fails && (c == b || s.pieces[q].received[c])
                                      else s.pieces[q].received[c])
    && (forall q: nat | q < |s.completed| :: s'.completed[q] == (s.completed[q] || (q == p && last && !fails)))
    && s'.endgame == s.endgame
  }

  /** The disk has the bytes that it has taken at the block's place, and elsewhere what it had. */
  ghost predicate DiskAfter(cfg: Config, s: State, s': State, p: nat, b: nat, data: bytes, written: nat) {
    var at, n := p * cfg.torrent.pieceLength + b * 16384, Min(written, |data|);
    0 <= at && at + n <= |s.disk| && s'.disk == s.disk[..at] + data[..n] + s.disk[at + n..]
  }

  lemma FlagsAfterBlock(cfg: Config, s: State, e: Event)
    requires Inv(cfg, s) && Accepted(cfg, s, e).Some?
    ensures Accepted(cfg, s, e).value.piece < cfg.torrent.NumPieces() && Typed(cfg, Step(cfg, s, e))
    ensures var s' := Step(cfg, s, e);
            var Arrival(p, b, _) := Accepted(cfg, s, e).value;
            FlagsAfter(cfg, s, s', p, b, e.peer, CheckFails(cfg, s, s', e))
  {
    StaysTyped(cfg, s, e);
    var k, s2, f := AllParts(cfg, s, e);
    var Arrival(p, b, _) := Accepted(cfg, s, e).value;
    var fails := CheckFails(cfg, s, Step(cfg, s, e), e);
    CopiesCleared(cfg, s, f.pending, k, p, b, e.peer, fails);
    FlagsChecked(cfg, s, s2, f, p, b, IsLast(cfg, s, p, b), fails);
    FlagParts(cfg, s, f, Step(cfg, s, e), p, b, e.peer, e.broken, fails);
  }

  /** The flags of the piece are clear if its check fails; all others are as before. */
  ghost predicate FlagsReset(cfg: Config, s: State, f: State, p: nat, fails: bool)
    requires Typed(cfg, s)
  {
    && |f.pieces| == |s.pieces|
    && forall q: nat, c: nat | IsBlock(cfg.torrent, q, c) ::
         && |f.pieces[q].requested| == |s.pieces[q].requested|
         && f.pieces[q].requested[c] == (s.pieces[q].requested[c] && !(q == p && fails))
  }

  lemma FlagsChecked(cfg: Config, s: State, s2: State, f: State, p: nat, b: nat, last: bool, fails: bool)
    requires Typed(cfg, s) && IsBlock(cfg.torrent, p, b) && p < |s2.pieces| && p < |s2.completed|
    requires BlockMarked(s, s2, p, b) && Outcome(cfg, s2, f, p, last, fails)
    ensures FlagsReset(cfg, s, f, p, fails)
  {
  }

  lemma FlagParts(cfg: Config, s: State, f: State, s': State, p: nat, b: nat, sender: PeerId, broken: set<PeerId>,
                  fails: bool)
    requires Typed(cfg, s) && Typed(cfg, s') && p < |s.pieces|
    requires s' == CancelDuplicates(f, p, b * 16384, sender, broken)
    requires FlagsReset(cfg, s, f, p, fails)
    requires forall q: nat, c: nat :: Dropped(f.pending, Duplicate(p, b * 16384, sender), q, c) <==>
               q == p && c == b && !fails && exists x :: x != sender && AskedFor(s.pending, p, b, x)
    ensures FlagsAfter(cfg, s, s', p, b, sender, fails)
  {
  }

  /** Among the requests that are left, exactly those for the block at other peers free its flag. */
  lemma CopiesCleared(cfg: Config, s: State, q: seq<BlockRequest>, k: nat, p: nat, b: nat, sender: PeerId, fails: bool)
    requires RequestInv(cfg, s) && k < |s.pending| && s.pending[k].peer == sender
    requires q == if fails then Without(RemoveAt(s.pending, k), OfPiece(p)) else RemoveAt(s.pending, k)
    ensures forall p': nat, c: nat :: Dropped(q, Duplicate(p, b * 16384, sender), p', c) <==>
              p' == p && c == b && !fails && exists x :: x != sender && AskedFor(s.pending, p, b, x)
  {
    var sel := Duplicate(p, b * 16384, sender);
    forall x | x != sender
      ensures AskedFor(q, p, b, x) <==> !fails && AskedFor(s.pending, p, b, x)
    {
      OthersStay(s.pending, k, x);
      NoneLeft(RemoveAt(s.pending, k), p);
    }
    forall p': nat, c: nat | Dropped(q, sel, p', c)
      ensures p' == p && c == b && exists x :: x != sender && AskedFor(q, p, b, x)
    {
      var i :| 0 <= i < |q| && sel.Hits(q[i]) && q[i].piece == p' && q[i].Block() == c;
      assert q[i] in q && AskedFor(q, p, b, q[i].peer);
    }
    forall x | x != sender && AskedFor(q, p, b, x)
      ensures Dropped(q, sel, p, b)
    {
      var r :| r in q && r.piece == p && r.offset == b * 16384 && r.peer == x;
      var i :| 0 <= i < |q| && q[i] == r;
      assert sel.Hits(q[i]) && q[i].Block() == b;
    }
  }

  /**
    Received are the blocks received before and this one, unless the check fails. The piece is then complete exactly
    when the block was its last.
   */
  lemma PieceAfterBlock(cfg: Config, s: State, e: Event)
    requires Inv(cfg, s) && Accepted(cfg, s, e).Some?
    ensures Accepted(cfg, s, e).value.piece < cfg.torrent.NumPieces() && Typed(cfg, Step(cfg, s, e))
    ensures var s' := Step(cfg, s, e);
            var Arrival(p, b, data) := Accepted(cfg, s, e).value;
            PieceAfter(cfg, s, s', p, b, data, IsLast(cfg, s, p, b), CheckFails(cfg, s, s', e))
  {
    StaysTyped(cfg, s, e);
    var k, s2, f := AllParts(cfg, s, e);
    var Arrival(p, b, data) := Accepted(cfg, s, e).value;
    var fails := CheckFails(cfg, s, Step(cfg, s, e), e);
    CopiesKeepProgress(f, p, b, e.peer, e.broken);
    NotComplete(cfg, s, e);
    PieceParts(cfg, s, s2, f, Step(cfg, s, e), p, b, data, IsLast(cfg, s, p, b), fails);
  }

  lemma StaysTyped(cfg: Config, s: State, e: Event)
    requires Inv(cfg, s)
    ensures Typed(cfg, Step(cfg, s, e))
  {
    StepKeeps(cfg, s, e);
  }

  lemma NotComplete(cfg: Config, s: State, e: Event)
    requires Inv(cfg, s) && Accepted(cfg, s, e).Some?
    ensures var p := Accepted(cfg, s, e).value.piece; p < |s.completed| && !s.completed[p]
  {
    var _ := AcceptedStep(cfg, s, e);
  }

  lemma CopiesKeepProgress(f: State, p: nat, b: nat, sender: PeerId, broken: set<PeerId>)
    ensures var s' := CancelDuplicates(f, p, b * 16384, sender, broken);
            SameProgress(f.pieces, s'.pieces) && s'.completed == f.completed && s'.endgame == f.endgame
  {
  }

  lemma DiskAfterBlock(cfg: Config, s: State, e: Event)
    requires Inv(cfg, s) && Accepted(cfg, s, e).Some?
    ensures var Arrival(p, b, data) := Accepted(cfg, s, e).value;
            DiskAfter(cfg, s, Step(cfg, s, e), p, b, data, e.written)
  {
    var Arrival(p, b, data) := Accepted(cfg, s, e).value;
    DiskWrites.DiskAfter(cfg, s, e);
    BlockBounds(cfg.torrent, p, b);
    PieceBounds(cfg.torrent, p);
  }

  lemma PieceParts(cfg: Config, s: State, s2: State, f: State, s': State, p: nat, b: nat, data: bytes, last: bool,
                   fails: bool)
    requires Typed(cfg, s) && Typed(cfg, s') && IsBlock(cfg.torrent, p, b) && p < |s2.pieces| && p < |s2.completed|
    requires BlockMarked(s, s2, p, b)
    requires Outcome(cfg, s2, f, p, last, fails)
    requires SameProgress(f.pieces, s'.pieces) && s'.completed == f.completed && s'.endgame == f.endgame
    requires fails ==> !s.completed[p]
    ensures PieceAfter(cfg, s, s', p, b, data, last, fails)
  {
  }

  // ----- Blocks that are not accepted

  /** The numbers in the message, and the first request of the sender that has them. */
  ghost predicate Answers(s: State, e: Event, k: nat)
    requires e.BlockArrived?
  {
    && Listening(s, e.peer) && |e.payload| >= 8 && k < |s.pending|
    && Names(s.pending[k], e) && forall j | 0 <= j < k :: !Names(s.pending[j], e)
  }

  ghost predicate Names(r: BlockRequest, e: Event)
    requires e.BlockArrived? && |e.payload| >= 8
  {
    r.piece == BytesToInt(e.payload) && r.offset == BytesToInt(e.payload[4..]) && r.peer == e.peer
  }

  /** The first request that a message names, if there is one. */
  lemma FirstNamed(s: State, e: Event, k: nat)
    requires e.BlockArrived? && Answers(s, e, k)
    ensures FindFirst(s.pending, Copy(BytesToInt(e.payload), BytesToInt(e.payload[4..]), e.peer)) == k
  {
    var found := FindFirst(s.pending, Copy(BytesToInt(e.payload), BytesToInt(e.payload[4..]), e.peer));
    assert found < |s.pending| ==> Names(s.pending[found], e);
  }

  /** A message that answers no request changes nothing. */
  lemma StrayBlock(cfg: Config, s: State, e: Event)
    requires Inv(cfg, s) && e.BlockArrived? && forall k: nat :: !Answers(s, e, k)
    ensures Step(cfg, s, e) == s && Accepted(cfg, s, e).None?
  {
    if Listening(s, e.peer) && |e.payload| >= 8 {
      var k := FindFirst(s.pending, Copy(BytesToInt(e.payload), BytesToInt(e.payload[4..]), e.peer));
      assert k < |s.pending| ==> Answers(s, e, k);
    }
  }

  /**
    A block is accepted exactly when it answers a request, has the length asked for, and has not been received. If it
    answers a request and is not accepted, that one request is gone; a wrong length also frees the block to be asked
    for again; nothing else changes.
   */
  lemma AcceptedExactlyWhen(cfg: Config, s: State, e: Event, k: nat)
    requires Inv(cfg, s) && e.BlockArrived? && Answers(s, e, k)
    ensures var r := s.pending[k];
            && IsBlock(cfg.torrent, r.piece, r.Block()) && r.offset == r.Block() * 16384
            && (Accepted(cfg, s, e) == if |e.payload| - 8 != r.length || s.pieces[r.piece].received[r.Block()] then None
                                       else Some(Arrival(r.piece, r.Block(), e.payload[8..])))
            && (Accepted(cfg, s, e).None? ==>
                  NotTaken(cfg, s, Step(cfg, s, e), k, r.piece, r.Block(), |e.payload| - 8 != r.length))
  {
    FirstNamed(s, e, k);
    assert s.pending[k] in s.pending && SoundRequest(cfg.torrent, s.pending[k]);
  }

  /** The request is gone, and the block's flag clear if the block is freed. */
  ghost predicate NotTaken(cfg: Config, s: State, s': State, k: nat, p: nat, b: nat, freed: bool)
    requires Typed(cfg, s) && k < |s.pending| && IsBlock(cfg.torrent, p, b)
  {
    && s'.pending == s.pending[..k] + s.pending[k + 1..]
    && s' == s.(pending := s'.pending, pieces := s'.pieces)
    && s'.pieces == if freed then s.pieces[p := s.pieces[p].(requested := s.pieces[p].requested[b := false])]
                    else s.pieces
  }
}
