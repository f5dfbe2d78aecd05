/** A download of one block: how it starts, and what two peers are asked first. */
module SmallDownload {
  import opened Bytes
  import opened Torrents
  import opened DownloadState
  import opened RequestCounts
  import opened DownloadInvariant
  import opened DownloadRuns

  const A: PeerId := 1
  const B: PeerId := 2

  const HASH: bytes := [0, 0, 0, 0, 0, 0, 0, 0, 0, 0, 0, 0, 0, 0, 0, 0, 0, 0, 0, 0]
  const TORRENT := TorrentInfo("n", 1, HASH, 1, [])
  const DISK: bytes := [0]

  /** The content of the disk does not have the torrent's hash, whatever the hash function is. */
  predicate Setting(cfg: Config) {
    cfg.torrent == TORRENT && cfg.sha1(DISK) != HASH && cfg.maxRequestsPerPeer >= 2
  }

  lemma SettingIsValid(cfg: Config)
    requires Setting(cfg)
    ensures TORRENT.NumPieces() == 1 && Blocks(TORRENT, 0) == 1 && Valid(TORRENT) && TORRENT.Total() == 1
    ensures CanStart(cfg, DISK, [1])
  {
  }

  function Ready(): map<PeerId, PeerView> {
    map[A := PeerView(true, false, [true]), B := PeerView(true, false, [true])]
  }

  /** Both peers have the piece and do not choke us. */
  function Opening(): seq<Event> {
    [Connected(A), Connected(B), Announced(A, [true]), Announced(B, [true]), Unchoked(A), Unchoked(B), EndgameUpdated]
  }

  lemma RunStep(cfg: Config, s: State, e: Event, es: seq<Event>)
    requires Inv(cfg, s)
    ensures Inv(cfg, Step(cfg, s, e)) && Run(cfg, s, [e] + es) == Run(cfg, Step(cfg, s, e), es)
  {
    StepKeeps(cfg, s, e);
    assert ([e] + es)[1..] == es;
  }

  ghost function StateWith(pieces: seq<PieceState>, peers: map<PeerId, PeerView>,
      pending: seq<BlockRequest>, endgame: bool): State {
    State(peers, pieces, [false], 0, pending, 0, endgame, DISK)
  }

  function Piece(requested: bool): seq<PieceState> {
    [PieceState([requested], [false], 1, 0)]
  }

  lemma OnlyPiece(disk: bytes)
    requires |disk| == 1
    ensures PieceBytes(TORRENT, disk, 0) == disk && ExpectedHash(TORRENT, 0) == HASH
  {
    assert disk[0..1] == disk;
    assert HASH[0..HASH_SIZE] == HASH;
  }

  lemma HashNeverMatches(cfg: Config)
    requires Setting(cfg)
    ensures CanStart(cfg, DISK, [1]) && !FoundGood(cfg, DISK, [1], 1, 0)
  {
    SettingIsValid(cfg);
    OnlyPiece(DISK);
  }

  /** A scan that finds the one piece bad leaves nothing received. */
  lemma StartsEmpty(cfg: Config, disk: bytes, readable: seq<nat>, scanned: nat)
    requires CanStart(cfg, disk, readable) && cfg.torrent.NumPieces() == 1 && Blocks(cfg.torrent, 0) == 1
    requires !FoundGood(cfg, disk, readable, scanned, 0)
    ensures Start(cfg, disk, readable, scanned) == State(map[], Piece(false), [false], 0, [], 0, false, disk)
  {
    var s := Start(cfg, disk, readable, scanned);
    var good := s.completed;
    assert good == [false];
    assert good[..0] == [] && CountTrue(good) == 0
        && GoodBytes(cfg.torrent, good, 1) == GoodBytes(cfg.torrent, good, 0);
    assert RestoredPiece(cfg.torrent, 0, false) == Piece(false)[0] by {
      assert seq(1, _ => false) == [false];
    }
    assert s.pieces == Piece(false);
  }

  lemma Starts(cfg: Config)
    requires Setting(cfg)
    ensures Start(cfg, DISK, [1], 1) == StateWith(Piece(false), map[], [], false)
  {
    SettingIsValid(cfg);
    HashNeverMatches(cfg);
    StartsEmpty(cfg, DISK, [1], 1);
  }

  function Asked(peer: PeerId, now: int): BlockRequest {
    BlockRequest(0, 0, 1, peer, now)
  }

  /** A round for the one block. */
  lemma Asks(cfg: Config, s: State, peer: PeerId, now: int)
    requires Setting(cfg)
    requires Typed(cfg, s) && s.completed == [false] && s.disk == DISK && s.pieces in {Piece(false), Piece(true)}
    requires Listening(s, peer) && !s.peers[peer].choking && s.peers[peer].HasPiece(0)
    requires Count(s.pending, OfPeer(peer)) < cfg.maxRequestsPerPeer && Wants(s, peer, 0, 0)
    ensures Step(cfg, s, Requested(peer, 0, 1, now))
         == s.(pieces := Piece(true), pending := s.pending + [Asked(peer, now)])
  {
    SettingIsValid(cfg);
    var current := Count(s.pending, OfPeer(peer));
    var s' := RequestOne(cfg, s, peer, 0, 0, now);
    assert RequestFrom(cfg, s', peer, 0, 1, current + 1, 0, now) == s';
    assert RequestFrom(cfg, s, peer, 0, 0, current, 1, now) == s';
    assert [false][0 := true] == [true] && [true][0 := true] == [true];
    assert s'.pieces == Piece(true);
  }

  /** The views of the two peers after `n` of the opening events. */
  function Views(n: nat): map<PeerId, PeerView> {
    var silent := PeerView(true, true, [false]);
    if n == 0 then map[]
    else if n == 1 then map[A := silent]
    else if n == 2 then map[A := silent, B := silent]
    else if n == 3 then map[A := silent.(has := [true]), B := silent]
    else if n == 4 then map[A := silent.(has := [true]), B := silent.(has := [true])]
    else if n == 5 then map[A := PeerView(true, false, [true]), B := silent.(has := [true])]
    else Ready()
  }

  ghost function Opened(n: nat): State {
    StateWith(Piece(false), Views(n), [], n >= 7)
  }

  lemma PeerSteps(cfg: Config)
    requires Setting(cfg)
    ensures forall n: nat | n < 6 ::
        Typed(cfg, Opened(n)) && Step(cfg, Opened(n), Opening()[n]) == Opened(n + 1)
  {
    SettingIsValid(cfg);
    assert seq(1, _ => false) == [false];
  }

  lemma EndgameStep(cfg: Config)
    requires Setting(cfg)
    ensures Typed(cfg, Opened(6)) && Step(cfg, Opened(6), Opening()[6]) == Opened(7)
  {
    SettingIsValid(cfg);
    var s := Opened(6);
    assert Remaining(s, 0) == 0 && Remaining(s, 1) == 1;
  }

  lemma OpeningReaches(cfg: Config)
    requires Setting(cfg)
    ensures var s, s' := Start(cfg, DISK, [1], 1), StateWith(Piece(false), Ready(), [], true);
            Run(cfg, s, Opening()) == s' && Inv(cfg, s')
  {
    Starts(cfg);
    PeerSteps(cfg);
    EndgameStep(cfg);
    SevenSteps(cfg, Opened(0), Opened(1), Opened(2), Opened(3), Opened(4), Opened(5), Opened(6),
                 Opened(7), Opening());
  }

  lemma SevenSteps(cfg: Config, s0: State, s1: State, s2: State, s3: State, s4: State, s5: State, s6: State, s7: State,
                   es: seq<Event>)
    requires Inv(cfg, s0) && |es| == 7
    requires Step(cfg, s0, es[0]) == s1
    requires Typed(cfg, s1) && Step(cfg, s1, es[1]) == s2
    requires Typed(cfg, s2) && Step(cfg, s2, es[2]) == s3
    requires Typed(cfg, s3) && Step(cfg, s3, es[3]) == s4
    requires Typed(cfg, s4) && Step(cfg, s4, es[4]) == s5
    requires Typed(cfg, s5) && Step(cfg, s5, es[5]) == s6
    requires Typed(cfg, s6) && Step(cfg, s6, es[6]) == s7
    ensures Inv(cfg, s7) && Run(cfg, s0, es) == s7
  {
    RunOn(cfg, s0, es, 0);
    RunOn(cfg, s1, es, 1);
    RunOn(cfg, s2, es, 2);
    RunOn(cfg, s3, es, 3);
    RunOn(cfg, s4, es, 4);
    RunOn(cfg, s5, es, 5);
    RunOn(cfg, s6, es, 6);
    assert es[7..] == [] && es[0..] == es;
  }

  lemma RunOn(cfg: Config, s: State, es: seq<Event>, i: nat)
    requires Inv(cfg, s) && i < |es|
    ensures Inv(cfg, Step(cfg, s, es[i])) && Run(cfg, s, es[i..]) == Run(cfg, Step(cfg, s, es[i]), es[i + 1..])
  {
    RunStep(cfg, s, es[i], es[i + 1..]);
    assert es[i..] == [es[i]] + es[i + 1..];
  }

  lemma CountsOfOne(peer: PeerId, now: int)
    ensures Count([Asked(peer, now)], OfBlock(0, 0)) == 1
    ensures forall x :: Count([Asked(peer, now)], OfPeer(x)) == Count([Asked(peer, now)], Copy(0, 0, x))
                        == if x == peer then 1 else 0
  {
    forall x
      ensures Count([Asked(peer, now)], OfPeer(x)) == Count([Asked(peer, now)], Copy(0, 0, x))
           == if x == peer then 1 else 0
    {
      assert [Asked(peer, now)][..0] == [];
    }
  }

  /** A round for the one block, as a step of a run. */
  lemma AsksOn(cfg: Config, s: State, es: seq<Event>, i: nat, peer: PeerId, now: int, s': State)
    requires Setting(cfg)
    requires Inv(cfg, s) && i < |es| && es[i] == Requested(peer, 0, 1, now)
    requires s.completed == [false] && s.disk == DISK && s.pieces in {Piece(false), Piece(true)}
    requires Listening(s, peer) && !s.peers[peer].choking && s.peers[peer].HasPiece(0)
    requires Count(s.pending, OfPeer(peer)) < cfg.maxRequestsPerPeer && Wants(s, peer, 0, 0)
    requires s' == s.(pieces := Piece(true), pending := s.pending + [Asked(peer, now)])
    ensures Inv(cfg, s') && Run(cfg, s, es[i..]) == Run(cfg, s', es[i + 1..])
  {
    RunOn(cfg, s, es, i);
    Asks(cfg, s, peer, now);
  }

  ghost function BothReady(requested: bool, pending: seq<BlockRequest>): State {
    StateWith(Piece(requested), Ready(), pending, true)
  }
}
