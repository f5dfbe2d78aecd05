/**
  The download protocol as a state machine: what one event does to the piece bookkeeping, the
  requests in flight, the byte counter and the bytes on disk.
 */
module DownloadState {
  import opened Bytes
  import opened Torrents
  import opened OutputStore

  type PeerId = nat

  const REQUEST_TIMEOUT_MS := 15000
  const NANOS_PER_MS := 1000000
  const ENDGAME_BLOCK_THRESHOLD := 64
  const MAX_COPIES := 2

  /** What stays fixed during a download. The hash function is a parameter: nothing is assumed of it. */
  datatype Config = Config(torrent: TorrentInfo, sha1: bytes -> bytes, maxRequestsPerPeer: int)

  datatype PeerView = PeerView(connected: bool, choking: bool, has: seq<bool>)
  {
    predicate HasPiece(p: nat) {
      p < |has| && has[p]
    }
  }

  datatype BlockRequest = BlockRequest(piece: nat, offset: nat, length: nat, peer: PeerId, time: int)
  {
    function Block(): nat {
      offset / BLOCK_SIZE
    }
  }

  datatype PieceState = PieceState(
    requested: seq<bool>, received: seq<bool>, totalBlocks: nat, receivedBlocks: nat)

  datatype State = State(
    peers: map<PeerId, PeerView>,
    pieces: seq<PieceState>,
    completed: seq<bool>,
    completedCount: nat,
    pending: seq<BlockRequest>,
    downloaded: int,
    endgame: bool,
    disk: bytes)

  // ----- Requests in flight

  /** The ways the downloader picks out pending requests. */
  datatype Selector =
    | OfPeer(peer: PeerId)
    | OfPiece(piece: nat)
    | OfBlock(piece: nat, offset: nat)
    | Copy(piece: nat, offset: nat, peer: PeerId)
    | Duplicate(piece: nat, offset: nat, keep: PeerId)
    | Expired(now: int)
  {
    predicate Hits(r: BlockRequest) {
      match this
      case OfPeer(peer) => r.peer == peer
      case OfPiece(piece) => r.piece == piece
      case OfBlock(piece, offset) => r.piece == piece && r.offset == offset
      case Copy(piece, offset, peer) => r.piece == piece && r.offset == offset && r.peer == peer
      case Duplicate(piece, offset, keep) => r.piece == piece && r.offset == offset && r.peer != keep
      case Expired(now) => TimedOut(r, now)
    }
  }

  /** The age of a request in whole milliseconds exceeds the timeout. */
  predicate TimedOut(r: BlockRequest, now: int) {
    (now - r.time) / NANOS_PER_MS > REQUEST_TIMEOUT_MS
  }

  ghost function Count(q: seq<BlockRequest>, sel: Selector): nat {
    if q == [] then 0
    else Count(q[..|q| - 1], sel) + if sel.Hits(q[|q| - 1]) then 1 else 0
  }

  /** The requests of `q` that the selector does not hit, in order. */
  ghost function Without(q: seq<BlockRequest>, sel: Selector): seq<BlockRequest> {
    if q == [] then []
    else Without(q[..|q| - 1], sel) + if sel.Hits(q[|q| - 1]) then [] else [q[|q| - 1]]
  }

  function RemoveAt<T>(q: seq<T>, k: nat): seq<T>
    requires k < |q|
  {
    q[..k] + q[k + 1..]
  }

  /** The first request the selector hits, or the length of `q`. */
  function FindFirst(q: seq<BlockRequest>, sel: Selector): (k: nat)
    ensures k <= |q|
    ensures k < |q| ==> sel.Hits(q[k])
    ensures forall j | 0 <= j < k :: !sel.Hits(q[j])
  {
    if q == [] then 0 else if sel.Hits(q[0]) then 0 else 1 + FindFirst(q[1..], sel)
  }

  // ----- Block flags

  predicate ShapedPieces(t: TorrentInfo, pieces: seq<PieceState>) {
    |pieces| == t.NumPieces() &&
    forall p | 0 <= p < |pieces| ::
      pieces[p].totalBlocks == Blocks(t, p) == |pieces[p].requested| == |pieces[p].received|
  }

  function SetRequested(pieces: seq<PieceState>, p: nat, b: nat, flag: bool): seq<PieceState>
    requires p < |pieces| && |pieces[p].requested| == pieces[p].totalBlocks
  {
    if b < pieces[p].totalBlocks then pieces[p := pieces[p].(requested := pieces[p].requested[b := flag])]
    else pieces
  }

  /** Some request for block `b` of piece `p` is hit. */
  ghost predicate Dropped(q: seq<BlockRequest>, sel: Selector, p: nat, b: nat) {
    exists i | 0 <= i < |q| :: sel.Hits(q[i]) && q[i].piece == p && q[i].Block() == b
  }

  /** The request flags after the requests that the selector hits have been given up. */
  ghost function Cleared(pieces: seq<PieceState>, q: seq<BlockRequest>, sel: Selector): (r: seq<PieceState>)
    ensures |r| == |pieces|
    ensures forall p | 0 <= p < |pieces| ::
              && r[p].received == pieces[p].received && r[p].totalBlocks == pieces[p].totalBlocks
              && r[p].receivedBlocks == pieces[p].receivedBlocks
              && |r[p].requested| == |pieces[p].requested|
              && forall b | 0 <= b < |r[p].requested| ::
                   r[p].requested[b] <==> pieces[p].requested[b] && !Dropped(q, sel, p, b)
  {
    seq(|pieces|, p requires 0 <= p < |pieces| =>
      pieces[p].(requested := seq(|pieces[p].requested|, b requires 0 <= b < |pieces[p].requested| =>
        pieces[p].requested[b] && !Dropped(q, sel, p, b))))
  }

  /** Gives up every request the selector hits and frees its block to be requested again. */
  ghost function Drop(s: State, sel: Selector): State {
    s.(pending := Without(s.pending, sel), pieces := Cleared(s.pieces, s.pending, sel))
  }

  // ----- Verification against the torrent's hashes

  /** The bytes of piece `p` on disk. */
  ghost function PieceBytes(t: TorrentInfo, disk: bytes, p: nat): bytes
    requires 0 <= PieceStart(t, p)
  {
    Visible(disk, PieceStart(t, p), Max(0, PieceSize(t, p)))
  }

  function ExpectedHash(t: TorrentInfo, p: nat): bytes {
    if |t.pieces| < (p + 1) * HASH_SIZE then [] else t.pieces[p * HASH_SIZE..(p + 1) * HASH_SIZE]
  }

  /** Piece `p` on disk hashes to what the torrent says. */
  ghost predicate HashOk(cfg: Config, disk: bytes, p: nat)
    requires 0 <= PieceStart(cfg.torrent, p)
  {
    cfg.sha1(PieceBytes(cfg.torrent, disk, p)) == ExpectedHash(cfg.torrent, p)
  }

  /** The disk yields the whole piece before its first read error, and the piece hashes right. */
  ghost predicate Verifies(cfg: Config, disk: bytes, p: nat, readable: nat)
    requires 0 <= PieceStart(cfg.torrent, p)
  {
    PieceSize(cfg.torrent, p) <= readable && HashOk(cfg, disk, p)
  }

  // ----- Events

  datatype Event =
    | Connected(peer: PeerId)
    | Disconnected(peer: PeerId)
    | Choked(peer: PeerId)
    | Unchoked(peer: PeerId)
    | Announced(peer: PeerId, has: seq<bool>)
      // A Block message; `written` and `readable` are the bytes the disk takes and yields before
      // its first error, `broken` the peers to which sending a cancel fails.
    | BlockArrived(peer: PeerId, payload: bytes, written: nat, readable: nat, broken: set<PeerId>)
      // A round of requests to `peer` for blocks of `piece`, the first `sends` of which go out.
    | Requested(peer: PeerId, piece: nat, sends: nat, now: int)
    | CleanedUp(now: int)
    | EndgameUpdated

  function SetConnected(peers: map<PeerId, PeerView>, peer: PeerId, connected: bool): map<PeerId, PeerView> {
    if peer in peers then peers[peer := peers[peer].(connected := connected)] else peers
  }

  predicate Listening(s: State, peer: PeerId) {
    peer in s.peers && s.peers[peer].connected
  }

  /** A connection starts with an empty bitfield; a reconnecting peer keeps its choke state. */
  function OnConnected(cfg: Config, s: State, peer: PeerId): State {
    var choking := if peer in s.peers then s.peers[peer].choking else true;
    s.(peers := s.peers[peer := PeerView(true, choking, seq(cfg.torrent.NumPieces(), _ => false))])
  }

  ghost function OnChoked(s: State, peer: PeerId): State {
    if !Listening(s, peer) then s
    else Drop(s.(peers := s.peers[peer := s.peers[peer].(choking := true)]), OfPeer(peer))
  }

  function OnUnchoked(s: State, peer: PeerId): State {
    if !Listening(s, peer) then s else s.(peers := s.peers[peer := s.peers[peer].(choking := false)])
  }

  function OnAnnounced(s: State, peer: PeerId, has: seq<bool>): State {
    if !Listening(s, peer) then s else s.(peers := s.peers[peer := s.peers[peer].(has := has)])
  }

  /** The peers to which a cancel was sent in vain are disconnected. */
  ghost function CancelDuplicates(s: State, piece: nat, offset: nat, keep: PeerId, broken: set<PeerId>): State {
    var sel := Duplicate(piece, offset, keep);
    var lost := set r | r in s.pending && sel.Hits(r) && r.peer in broken :: r.peer;
    Drop(s, sel).(peers := map peer | peer in s.peers ::
      if peer in lost then s.peers[peer].(connected := false) else s.peers[peer])
  }

  /** A block whose hash check has failed with it: the whole piece starts again. */
  ghost function ResetPiece(cfg: Config, s: State, p: nat): State
    requires p < |s.pieces|
  {
    var n := s.pieces[p].totalBlocks;
    var none := seq(n, _ => false);
    s.(pieces := s.pieces[p := PieceState(none, none, n, 0)],
       pending := Without(s.pending, OfPiece(p)),
       downloaded := Max(0, s.downloaded - PieceSize(cfg.torrent, p)))
  }

  /** Block `b` of piece `p` is on disk and counted. */
  ghost function Receive(cfg: Config, s: State, p: nat, b: nat, data: bytes, written: nat): State
    requires p < |s.pieces| && b < |s.pieces[p].received| && 0 <= BlockStart(cfg.torrent, p, b)
  {
    var piece := s.pieces[p];
    s.(disk := Written(s.disk, BlockStart(cfg.torrent, p, b), data, written),
       downloaded := s.downloaded + |data|,
       pieces := s.pieces[p := piece.(received := piece.received[b := true],
                                      receivedBlocks := piece.receivedBlocks + 1)])
  }

  /** The hash check of a piece whose last block has arrived. */
  ghost function Finish(cfg: Config, s: State, p: nat, readable: nat): State
    requires p < |s.pieces| == |s.completed| && 0 <= PieceStart(cfg.torrent, p)
  {
    if s.pieces[p].receivedBlocks < s.pieces[p].totalBlocks then s
    else if Verifies(cfg, s.disk, p, readable) then
      s.(completed := s.completed[p := true], completedCount := s.completedCount + 1)
    else ResetPiece(cfg, s, p)
  }

  ghost predicate Typed(cfg: Config, s: State) {
    && Valid(cfg.torrent)
    && ShapedPieces(cfg.torrent, s.pieces)
    && |s.completed| == cfg.torrent.NumPieces()
    && |s.disk| == cfg.torrent.Total()
    && forall r | r in s.pending :: r.piece < cfg.torrent.NumPieces()
  }

  ghost function OnBlock(
    cfg: Config, s: State, peer: PeerId, payload: bytes, written: nat, readable: nat, broken: set<PeerId>): State
    requires Typed(cfg, s)
  {
    if !Listening(s, peer) || |payload| < 8 then s else
    var p, offset, data := BytesToInt(payload), BytesToInt(payload[4..]), payload[8..];
    var k := FindFirst(s.pending, Copy(p, offset, peer));
    if k == |s.pending| then s else
    var b := offset / BLOCK_SIZE;
    var s1 := s.(pending := RemoveAt(s.pending, k));
    assert s.pending[k] in s.pending;
    if |data| != s.pending[k].length then
      s1.(pieces := SetRequested(s.pieces, p, b, false))
    else if b >= s.pieces[p].totalBlocks || s.pieces[p].received[b] then
      s1
    else
      BlockBounds(cfg.torrent, p, b);
      PieceBounds(cfg.torrent, p);
      var s2 := Receive(cfg, s1, p, b, data, written);
      CancelDuplicates(Finish(cfg, s2, p, readable), p, offset, peer, broken)
  }

  /** Whether a round of requests to `peer` asks for block `b` of piece `p`. */
  ghost predicate Wants(s: State, peer: PeerId, p: nat, b: nat)
    requires p < |s.pieces| && b < |s.pieces[p].requested| && b < |s.pieces[p].received|
  {
    && !s.pieces[p].received[b]
    && (s.pieces[p].requested[b] ==>
          && s.endgame
          && Count(s.pending, Copy(p, b * BLOCK_SIZE, peer)) == 0
          && Count(s.pending, OfBlock(p, b * BLOCK_SIZE)) < MAX_COPIES)
  }

  ghost function RequestOne(cfg: Config, s: State, peer: PeerId, p: nat, b: nat, now: int): State
    requires Typed(cfg, s) && IsBlock(cfg.torrent, p, b)
  {
    BlockBounds(cfg.torrent, p, b);
    s.(pieces := SetRequested(s.pieces, p, b, true),
       pending := s.pending + [BlockRequest(p, b * BLOCK_SIZE, BlockLength(cfg.torrent, p, b), peer, now)])
  }

  /** The rest of a round, from block `b` on, with `current` requests to the peer in flight. */
  ghost function RequestFrom(
    cfg: Config, s: State, peer: PeerId, p: nat, b: nat, current: int, sends: nat, now: int): State
    requires Typed(cfg, s) && p < cfg.torrent.NumPieces()
    decreases Blocks(cfg.torrent, p) - b
  {
    if b >= Blocks(cfg.torrent, p) || current >= cfg.maxRequestsPerPeer then s
    else if !Wants(s, peer, p, b) then RequestFrom(cfg, s, peer, p, b + 1, current, sends, now)
    else if sends == 0 then s.(peers := SetConnected(s.peers, peer, false))
    else RequestFrom(cfg, RequestOne(cfg, s, peer, p, b, now), peer, p, b + 1, current + 1, sends - 1, now)
  }

  /** A piece worth asking `peer` for. */
  ghost predicate Needed(s: State, peer: PeerId, p: nat)
    requires peer in s.peers
  {
    p < |s.completed| && !s.completed[p] && s.peers[peer].HasPiece(p)
  }

  ghost function OnRequested(cfg: Config, s: State, peer: PeerId, p: nat, sends: nat, now: int): State
    requires Typed(cfg, s)
  {
    if !Listening(s, peer) || s.peers[peer].choking || !Needed(s, peer, p) then s
    else RequestFrom(cfg, s, peer, p, 0, Count(s.pending, OfPeer(peer)), sends, now)
  }

  /** The blocks still to be received of the first `n` pieces, completed pieces left out. */
  ghost function Remaining(s: State, n: nat): int
    requires n <= |s.pieces| && n <= |s.completed|
  {
    if n == 0 then 0
    else Remaining(s, n - 1) +
         if s.completed[n - 1] then 0 else s.pieces[n - 1].totalBlocks - s.pieces[n - 1].receivedBlocks
  }

  ghost function OnEndgameUpdated(cfg: Config, s: State): State
    requires Typed(cfg, s)
  {
    s.(endgame := Remaining(s, |s.pieces|) <= ENDGAME_BLOCK_THRESHOLD)
  }

  ghost function Step(cfg: Config, s: State, e: Event): State
    requires Typed(cfg, s)
  {
    match e
    case Connected(peer) => OnConnected(cfg, s, peer)
    case Disconnected(peer) => s.(peers := SetConnected(s.peers, peer, false))
    case Choked(peer) => OnChoked(s, peer)
    case Unchoked(peer) => OnUnchoked(s, peer)
    case Announced(peer, has) => OnAnnounced(s, peer, has)
    case BlockArrived(peer, payload, written, readable, broken) =>
      OnBlock(cfg, s, peer, payload, written, readable, broken)
    case Requested(peer, p, sends, now) => OnRequested(cfg, s, peer, p, sends, now)
    case CleanedUp(now) => Drop(s, Expired(now))
    case EndgameUpdated => OnEndgameUpdated(cfg, s)
  }

  predicate IsComplete(cfg: Config, s: State) {
    s.completedCount >= cfg.torrent.NumPieces()
  }
}
