/** Fetching a torrent's metadata from peers in 16 KiB pieces (BEP 9), over the extension protocol (BEP 10). */
module Metadata {
  import opened Bytes
  import opened Bencode
  import opened BencodeLaws
  import opened PeerWire
  import opened ExtendedMessages

  const PIECE_SIZE := 16384
  const INT_MAX := 0x7FFF_FFFF
  const MSG_DATA := 1
  const HANDSHAKE_ID: byte := 0

  /** A conversion to a 32-bit `int`. */
  function ToInt32(n: int): (r: int)
    ensures -0x8000_0000 <= r < 0x8000_0000 && (n - r) % 0x1_0000_0000 == 0
  {
    (n + 0x8000_0000) % 0x1_0000_0000 - 0x8000_0000
  }

  /** Division that truncates toward zero. */
  function TruncDiv(a: int, b: int): int
    requires b > 0
  {
    if a >= 0 then a / b else -(-a / b)
  }

  function PieceCount(size: int): int {
    TruncDiv(ToInt32(size + PIECE_SIZE - 1), PIECE_SIZE)
  }

  function Concat(pieces: seq<string>): string {
    if pieces == [] then "" else Concat(pieces[..|pieces| - 1]) + pieces[|pieces| - 1]
  }

  /** A list brought to `n` elements; new ones are empty. */
  function Resize(pieces: seq<string>, n: nat): (r: seq<string>)
    ensures |r| == n && forall i | 0 <= i < n :: r[i] == if i < |pieces| then pieces[i] else ""
  {
    if n <= |pieces| then pieces[..n] else pieces + seq(n - |pieces|, _ => "")
  }

  /** The message type of a reply: a dictionary, with the piece's bytes after it. */
  function MessageType(reply: string): Option<int> {
    var r := Parse(reply);
    if r.Err? || !r.value.Dict? then None else
    match GetInt(r.value.entries, "msg_type")
    case Some(n) => Some(ToInt32(n))
    case None => Some(-1)
  }

  function Payload(reply: string): string
    requires Parse(reply).Ok?
  {
    reply[Parse(reply).used..]
  }

  predicate IsData(reply: string) {
    MessageType(reply) == Some(MSG_DATA)
  }

  /** A reply is data exactly when it starts with a dictionary whose `msg_type` is 1 in 32-bit arithmetic. */
  lemma DataExactlyWhen(reply: string)
    ensures IsData(reply) <==>
              && Parse(reply).Ok? && Parse(reply).value.Dict?
              && GetInt(Parse(reply).value.entries, "msg_type").Some?
              && (GetInt(Parse(reply).value.entries, "msg_type").value - 1) % 0x1_0000_0000 == 0
  {
  }

  /** The texts that `n` reads of extension `id` find in a stream, up to the first that fails. */
  function Replies(stream: bytes, id: byte, n: nat): (replies: seq<string>)
    ensures |replies| <= n
    decreases n
  {
    if n == 0 then [] else
    match NextExtended(stream, id, MAX_FRAMES)
    case None => []
    case Some(Message(text, rest)) => [text] + Replies(rest, id, n - 1)
  }

  /** The pieces after the first `n` replies have been stored; an empty payload leaves a piece as it was. */
  function Collected(pieces: seq<string>, replies: seq<string>, n: nat): (r: seq<string>)
    requires n <= |pieces| && n <= |replies| && forall i | 0 <= i < n :: IsData(replies[i])
    ensures |r| == |pieces|
  {
    if n == 0 then pieces else
    assert IsData(replies[n - 1]);
    var before := Collected(pieces, replies, n - 1);
    var payload := Payload(replies[n - 1]);
    if payload == "" then before else before[n - 1 := payload]
  }

  /** The first `n` requests were answered with data. */
  ghost predicate AllData(replies: seq<string>, n: nat) {
    n <= |replies| && forall i | 0 <= i < n :: IsData(replies[i])
  }

  /** All pieces joined, if every request was answered with data. */
  ghost function Joined(pieces: seq<string>, replies: seq<string>, n: nat): Option<string>
    requires n <= |pieces|
  {
    if AllData(replies, n) then Some(Concat(Collected(pieces, replies, n)))
    else None
  }

  // ----- An honest peer

  function Chunk(m: string, i: nat): string {
    if i * 16384 <= |m| then m[i * 16384..Min((i + 1) * 16384, |m|)] else ""
  }

  /** Any dictionary with message type 1, encoded, and the chunk after it; the chunk's bytes are arbitrary. */
  ghost predicate IsChunkReply(m: string, i: nat, reply: string) {
    exists v: Value :: Valid(v) && v.Dict? && GetInt(v.entries, "msg_type") == Some(1)
                       && reply == Encode(v) + Chunk(m, i)
  }

  /** The entries of a handshake that is a dictionary. */
  function Entries(handshake: string): seq<Entry> {
    match Parse(handshake)
    case Ok(Dict(entries), _) => entries
    case _ => []
  }

  function AnnouncedSize(handshake: string): Option<int> {
    match GetInt(Entries(handshake), "metadata_size")
    case Some(n) => Some(ToInt32(n))
    case None => None
  }

  /** The id under which the peer takes `ut_metadata` messages, or -1. */
  function ExtensionId(handshake: string): int {
    match Lookup(Entries(handshake), "m")
    case Some(Dict(m)) => if GetInt(m, "ut_metadata").Some? then ToInt32(GetInt(m, "ut_metadata").value) else -1
    case _ => -1
  }

  /** The handshake announces the size of `m` and an extension id. */
  predicate AnnouncesSize(handshake: string, size: int) {
    var r := Parse(handshake);
    && r.Ok? && r.value.Dict?
    && GetInt(r.value.entries, "metadata_size") == Some(size)
    && match Lookup(r.value.entries, "m")
       case Some(Dict(m)) => GetInt(m, "ut_metadata").Some? && ToInt32(GetInt(m, "ut_metadata").value) > 0
       case _ => false
  }

  /** The size that a handshake announces. */
  function SizeIn(handshake: string): int {
    match GetInt(Entries(handshake), "metadata_size")
    case Some(n) => n
    case None => 0
  }

  /** The exchange succeeds with this size. */
  ghost predicate Agreeable(handshake: string, size: int) {
    0 < size <= INT_MAX - PIECE_SIZE + 1 && PieceCount(size) >= 0 && AnnouncesSize(handshake, size)
  }

  /** What a handshake leads to: success, the size, the number of pieces and the list of pieces. */
  datatype Exchange = Exchange(ok: bool, metadataSize: int, numPieces: int, pieces: seq<string>)

  /** The exchange with what earlier peers have left behind; a negative piece count aborts it. */
  function Exchanged(metadataSize: int, numPieces: int, pieces: seq<string>, handshake: string): Exchange {
    var announced := AnnouncedSize(handshake);
    var size := if announced.Some? then announced.value else metadataSize;
    var count := if announced.Some? then PieceCount(size) else numPieces;
    var fits := announced.Some? ==> count >= 0;
    Exchange(Parse(handshake).Ok? && fits && ExtensionId(handshake) > 0 && size > 0, size, count,
             if announced.Some? && fits then Resize(pieces, count) else pieces)
  }

  lemma AgreedExchange(metadataSize: int, numPieces: int, pieces: seq<string>, handshake: string)
    ensures var size := SizeIn(handshake);
            Agreeable(handshake, size) ==>
              Exchanged(metadataSize, numPieces, pieces, handshake)
              == Exchange(true, size, PieceCount(size), Resize(pieces, PieceCount(size)))
  {
    var size := SizeIn(handshake);
    if Agreeable(handshake, size) {
      PieceCountBounds(size);
    }
  }

  /** The id under which the reader looks for a peer's replies: the peer's own, as a byte. */
  function AskedId(handshake: string): byte {
    ExtensionId(handshake) % 0x100
  }

  /**
    A peer as seen from here: whether it can be reached and shakes hands, the bytes it sends afterwards, and how
    many of our messages it takes.
   */
  datatype PeerScript = PeerScript(reached: bool, stream: bytes, sends: nat)

  /** Among the messages, those of extension `id` have these texts, and the reader reaches each of them. */
  ghost predicate Answers(ms: seq<PeerMessage>, id: byte, texts: seq<string>)
    decreases |texts|
  {
    texts != [] ==> exists g: nat :: Answer(ms, id, g, texts[0]) && Answers(ms[g + 1..], id, texts[1..])
  }

  /** A message with this text comes after `g` unrelated messages, fewer than the reader passes over. */
  ghost predicate Answer(ms: seq<PeerMessage>, id: byte, g: nat, text: string) {
    && g < |ms| && g < 4096 && Carries(ms[g], id, text)
    && forall j | 0 <= j < g :: Unrelated(ms[j], id)
  }

  /** The texts carry all chunks of the metadata in order. */
  ghost predicate AllChunks(m: string, texts: seq<string>) {
    |texts| == PieceCount(|m|) && forall i | 0 <= i < |texts| :: IsChunkReply(m, i, texts[i])
  }

  /**
    The peer has the metadata `m` and gives it: its messages are, among others, a handshake that announces the
    size, and then an answer to every request, under the extension id `id`. Under the id that the reader looks
    for it sends nothing else.
   */
  ghost predicate Gives(m: string, id: byte, peer: PeerScript, ms: seq<PeerMessage>, g: nat, handshake: string,
                        texts: seq<string>)
  {
    && peer.reached && peer.stream == Wires(ms) && 0 < |m| <= INT_MAX - PIECE_SIZE + 1
    && peer.sends >= 1 + PieceCount(|m|)
    && Answer(ms, 0, g, handshake) && AnnouncesSize(handshake, |m|)
    && AllChunks(m, texts) && Answers(ms[g + 1..], id, texts)
    && (id != AskedId(handshake) ==> forall j | g < j < |ms| :: Unrelated(ms[j], AskedId(handshake)))
  }

  /** An honest peer that answers under `id` while the reader looks for `asked`. */
  ghost predicate HonestPeer(m: string, id: byte, asked: byte, peer: PeerScript) {
    exists ms: seq<PeerMessage>, g: nat, handshake: string, texts: seq<string> ::
      Gives(m, id, peer, ms, g, handshake, texts) && asked == AskedId(handshake)
  }

  lemma PieceCountBounds(size: int)
    requires 0 < size <= INT_MAX - PIECE_SIZE + 1
    ensures 0 < PieceCount(size) && (PieceCount(size) - 1) * PIECE_SIZE < size <= PieceCount(size) * PIECE_SIZE
    ensures ToInt32(size) == size
  {
  }

  /** The reply is data, and what follows its dictionary is exactly the chunk, which is not empty. */
  ghost predicate CarriesChunk(m: string, i: nat, reply: string) {
    IsData(reply) && Payload(reply) == Chunk(m, i) != ""
  }

  lemma ChunkReply(m: string, i: nat, reply: string)
    requires i * PIECE_SIZE < |m| && IsChunkReply(m, i, reply)
    ensures CarriesChunk(m, i, reply)
  {
    var v: Value :| Valid(v) && v.Dict? && GetInt(v.entries, "msg_type") == Some(MSG_DATA)
                    && reply == Encode(v) + Chunk(m, i);
    ParseEncoded(v, Chunk(m, i));
    assert |Chunk(m, i)| > 0;
  }

  /** Whatever the pieces held before, the replies put every chunk in its place. */
  lemma {:induction false} ChunksCollected(m: string, pieces: seq<string>, replies: seq<string>, n: nat)
    requires n <= |pieces| && n <= |replies|
    requires forall i | 0 <= i < n :: CarriesChunk(m, i, replies[i])
    ensures forall i | 0 <= i < n :: IsData(replies[i])
    ensures forall i | 0 <= i < n :: Collected(pieces, replies, n)[i] == Chunk(m, i)
  {
    if n > 0 {
      ChunksCollected(m, pieces, replies, n - 1);
      assert CarriesChunk(m, n - 1, replies[n - 1]);
      assert Collected(pieces, replies, n) == Collected(pieces, replies, n - 1)[n - 1 := Chunk(m, n - 1)];
    }
  }

  lemma {:induction false} ChunksConcat(m: string, pieces: seq<string>)
    requires forall i | 0 <= i < |pieces| :: pieces[i] == Chunk(m, i)
    requires |pieces| > 0 ==> (|pieces| - 1) * PIECE_SIZE < |m|
    ensures Concat(pieces) == m[..Min(|pieces| * PIECE_SIZE, |m|)]
  {
    if pieces != [] {
      var n := |pieces| - 1;
      ChunksConcat(m, pieces[..n]);
      assert m[..n * PIECE_SIZE] + Chunk(m, n) == m[..Min((n + 1) * PIECE_SIZE, |m|)];
    }
  }

  /** A peer that has the metadata and answers under another id than the reader looks for. */
  ghost predicate PassedOver(infoHash: string, sha1: string -> string, peer: PeerScript) {
    exists m, id, asked :: HonestPeer(m, id, asked, peer) && sha1(m) == infoHash && id != asked
  }

  /** The peer is reached and its handshake announces metadata of `size` bytes. */
  ghost predicate Meets(peer: PeerScript, size: int) {
    && peer.reached && peer.sends > 0
    && var r := NextExtended(peer.stream, HANDSHAKE_ID, MAX_FRAMES);
       r.Some? && Agreeable(r.value.text, size)
  }

  /** The size that the peer's handshake announces. */
  function OfferedSize(peer: PeerScript): int {
    match NextExtended(peer.stream, HANDSHAKE_ID, MAX_FRAMES)
    case Some(r) => SizeIn(r.text)
    case None => 0
  }

  /** What the pieces join to after the reads, if every one of them finds data. */
  ghost function Obtained(stale: seq<string>, peer: PeerScript, size: int): Option<string>
    requires Meets(peer, size)
  {
    var r, n := NextExtended(peer.stream, HANDSHAKE_ID, MAX_FRAMES).value, PieceCount(size);
    Joined(Resize(stale, n), Replies(r.rest, AskedId(r.text), Min(peer.sends - 1, n)), n)
  }

  /** The replies from the `i`-th on are still to be read. */
  ghost predicate Ahead(replies: seq<string>, rest: bytes, id: byte, i: nat, limit: nat) {
    i <= |replies| && i <= limit && replies[i..] == Replies(rest, id, limit - i)
  }

  /** One more reply: it carries data and is stored, or not every reply does. */
  lemma NextReply(pieces: seq<string>, replies: seq<string>, rest: bytes, id: byte, i: nat, limit: nat, n: nat)
    requires Ahead(replies, rest, id, i, limit) && i < limit <= n <= |pieces| && AllData(replies, i)
    ensures var r := NextExtended(rest, id, MAX_FRAMES);
            if r.Some? && IsData(r.value.text) then
              && Ahead(replies, r.value.rest, id, i + 1, limit) && AllData(replies, i + 1)
              && Collected(pieces, replies, i + 1) == Stored(Collected(pieces, replies, i), i, r.value.text)
            else !AllData(replies, n)
  {
    var r := NextExtended(rest, id, MAX_FRAMES);
    ReplyAhead(replies, rest, id, i, limit);
    if r.Some? && IsData(r.value.text) {
      assert forall j | 0 <= j < i :: IsData(replies[j]);
      CollectedNext(pieces, replies, i);
    }
  }

  lemma ReplyAhead(replies: seq<string>, rest: bytes, id: byte, i: nat, limit: nat)
    requires Ahead(replies, rest, id, i, limit) && i < limit
    ensures var r := NextExtended(rest, id, MAX_FRAMES);
            if r.None? then |replies| == i
            else i < |replies| && replies[i] == r.value.text && Ahead(replies, r.value.rest, id, i + 1, limit)
  {
    var r := NextExtended(rest, id, MAX_FRAMES);
    if r.Some? {
      assert replies[i] == replies[i..][0] && replies[i + 1..] == replies[i..][1..];
    }
  }

  /** A reply that carries nothing leaves its piece as it was. */
  function Stored(pieces: seq<string>, i: nat, reply: string): seq<string>
    requires i < |pieces| && Parse(reply).Ok?
  {
    if Parse(reply).used < |reply| then pieces[i := Payload(reply)] else pieces
  }

  lemma CollectedNext(pieces: seq<string>, replies: seq<string>, i: nat)
    requires i < |pieces| && i < |replies| && forall j | 0 <= j <= i :: IsData(replies[j])
    ensures Collected(pieces, replies, i + 1) == Stored(Collected(pieces, replies, i), i, replies[i])
  {
  }

  /** What comes of an honest peer's answers. */
  lemma HonestAttempt(m: string, id: byte, asked: byte, peer: PeerScript, stale: seq<string>)
    requires HonestPeer(m, id, asked, peer)
    ensures Meets(peer, |m|) && Obtained(stale, peer, |m|) == (if id == asked then Some(m) else None)
    ensures OfferedSize(peer) == |m| == ToInt32(|m|)
  {
    var ms: seq<PeerMessage>, g: nat, handshake: string, texts: seq<string> :|
      Gives(m, id, peer, ms, g, handshake, texts) && asked == AskedId(handshake);
    PieceCountBounds(|m|);
    Announced(handshake, |m|);
    GivenHandshake(m, id, peer, ms, g, handshake, texts);
    GivenAnswers(m, id, peer, ms, g, handshake, texts, Resize(stale, PieceCount(|m|)));
  }

  lemma Announced(handshake: string, size: int)
    requires AnnouncesSize(handshake, size)
    ensures SizeIn(handshake) == size
  {
  }

  lemma GivenHandshake(m: string, id: byte, peer: PeerScript, ms: seq<PeerMessage>, g: nat, handshake: string,
                       texts: seq<string>)
    requires Gives(m, id, peer, ms, g, handshake, texts)
    ensures NextExtended(peer.stream, HANDSHAKE_ID, MAX_FRAMES) == Some(Message(handshake, Wires(ms[g + 1..])))
  {
    NextAfter(ms, g, HANDSHAKE_ID, handshake, MAX_FRAMES);
  }

  lemma GivenAnswers(m: string, id: byte, peer: PeerScript, ms: seq<PeerMessage>, g: nat, handshake: string,
                     texts: seq<string>, pieces: seq<string>)
    requires Gives(m, id, peer, ms, g, handshake, texts) && |pieces| == PieceCount(|m|)
    ensures var replies := Replies(Wires(ms[g + 1..]), AskedId(handshake), |pieces|);
            Joined(pieces, replies, |pieces|) == if id == AskedId(handshake) then Some(m) else None
  {
    PieceCountBounds(|m|);
    var rest, asked := ms[g + 1..], AskedId(handshake);
    if id == asked {
      AnswersRead(rest, id, texts);
      FoundReplies(Wires(rest), id, texts);
      HonestReplies(m, pieces, texts);
    } else {
      assert forall j | 0 <= j < |rest| :: rest[j] == ms[g + 1 + j];
      NothingRead(rest, asked, |pieces|);
      assert !AllData([], |pieces|);
    }
  }

  lemma NothingRead(ms: seq<PeerMessage>, id: byte, n: nat)
    requires forall j | 0 <= j < |ms| :: Unrelated(ms[j], id)
    ensures Replies(Wires(ms), id, n) == []
  {
    NothingFound(ms, id, MAX_FRAMES);
  }

  /** One read after the other finds these texts. */
  ghost predicate Finds(stream: bytes, id: byte, texts: seq<string>)
    decreases |texts|
  {
    texts != [] ==>
      var r := NextExtended(stream, id, MAX_FRAMES);
      r.Some? && r.value.text == texts[0] && Finds(r.value.rest, id, texts[1..])
  }

  lemma {:induction false} FoundReplies(stream: bytes, id: byte, texts: seq<string>)
    requires Finds(stream, id, texts)
    ensures Replies(stream, id, |texts|) == texts
    decreases |texts|
  {
    if texts != [] {
      var rest := NextExtended(stream, id, MAX_FRAMES).value.rest;
      FoundReplies(rest, id, texts[1..]);
      assert texts == [texts[0]] + texts[1..];
    }
  }

  /** The reader finds every answer. */
  lemma {:induction false} AnswersRead(ms: seq<PeerMessage>, id: byte, texts: seq<string>)
    requires Answers(ms, id, texts)
    ensures Finds(Wires(ms), id, texts)
    decreases |texts|
  {
    if texts != [] {
      var g: nat :| Answer(ms, id, g, texts[0]) && Answers(ms[g + 1..], id, texts[1..]);
      AnswersRead(ms[g + 1..], id, texts[1..]);
      NextAfter(ms, g, id, texts[0], MAX_FRAMES);
    }
  }

  /** All of an honest peer's replies together: the pieces join to the metadata itself. */
  lemma HonestReplies(m: string, pieces: seq<string>, replies: seq<string>)
    requires (|pieces| - 1) * PIECE_SIZE < |m| <= |pieces| * PIECE_SIZE && |pieces| <= |replies|
    requires forall i | 0 <= i < |pieces| :: IsChunkReply(m, i, replies[i])
    ensures Joined(pieces, replies, |pieces|) == Some(m)
  {
    forall i | 0 <= i < |pieces| ensures CarriesChunk(m, i, replies[i]) {
      ChunkReply(m, i, replies[i]);
    }
    ChunksCollected(m, pieces, replies, |pieces|);
    ChunksConcat(m, Collected(pieces, replies, |pieces|));
    assert m[..|m|] == m;
  }

  class MetadataDownloader {
    const infoHash: string
    const sha1: string -> string
    var metadataSize: int
    var numPieces: int
    var pieces: seq<string>
    var metadata: string
    var complete: bool

    /** Once complete, the stored metadata hashes to the magnet link's info hash. */
    ghost predicate Valid()
      reads this
    {
      && numPieces <= |pieces|
      && (complete ==> sha1(metadata) == infoHash)
    }

    constructor (infoHash: string, sha1: string -> string)
      ensures Valid() && !complete && this.infoHash == infoHash && this.sha1 == sha1
    {
      this.infoHash, this.sha1 := infoHash, sha1;
      metadataSize, numPieces, pieces, metadata, complete := 0, 0, [], "", false;
    }

    /** Reads the peer's handshake; a size whose piece count comes out negative aborts the exchange. */
    method ReadHandshake(handshake: string) returns (ok: bool, extensionId: int)
      requires Valid()
      modifies this`metadataSize, this`numPieces, this`pieces
      ensures Valid() && (ok ==> extensionId == ExtensionId(handshake))
      ensures Exchange(ok, metadataSize, numPieces, pieces)
           == old(Exchanged(metadataSize, numPieces, pieces, handshake))
      ensures ok <==>
                && Parse(handshake).Ok? && ExtensionId(handshake) > 0 && metadataSize > 0
                && (AnnouncedSize(handshake).Some? ==> numPieces >= 0)
    {
      ok, extensionId := false, -1;
      var value := Parse(handshake);
      if value.Err? {
        return;
      }
      if value.value.Dict? {
        var dict := value.value.entries;
        var size := GetInt(dict, "metadata_size");
        if size.Some? {
          metadataSize := ToInt32(size.value);
          numPieces := PieceCount(metadataSize);
          if numPieces < 0 {
            return;
          }
          pieces := Resize(pieces, numPieces);
        }
        var m := Lookup(dict, "m");
        if m.Some? && m.value.Dict? {
          var id := GetInt(m.value.entries, "ut_metadata");
          if id.Some? {
            extensionId := ToInt32(id.value);
          }
        }
      }
      ok := extensionId > 0 && metadataSize > 0;
    }

    /** Sends our handshake and waits for the peer's. */
    method ExchangeExtensions(peer: PeerScript) returns (ok: bool, extensionId: int, rest: bytes)
      requires Valid()
      modifies this`metadataSize, this`numPieces, this`pieces
      ensures Valid() && (ok ==> extensionId > 0)
      ensures var r := NextExtended(peer.stream, HANDSHAKE_ID, MAX_FRAMES);
              if peer.sends == 0 || r.None? then
                !ok && metadataSize == old(metadataSize) && numPieces == old(numPieces) && pieces == old(pieces)
              else
                && rest == r.value.rest
                && (ok ==> extensionId == ExtensionId(r.value.text))
                && Exchange(ok, metadataSize, numPieces, pieces)
                == old(Exchanged(metadataSize, numPieces, pieces, r.value.text))
    {
      ok, extensionId, rest := false, -1, peer.stream;
      if peer.sends == 0 {
        return;
      }
      var message := ReadExtendedMessage(peer.stream, HANDSHAKE_ID);
      if message.None? {
        return;
      }
      rest := message.value.rest;
      ok, extensionId := ReadHandshake(message.value.text);
    }

    /** Requests the pieces one after the other, at most `sends` of them, and stores what the replies carry. */
    method RequestPieces(stream: bytes, id: byte, sends: nat) returns (ok: bool)
      requires Valid()
      modifies this`pieces
      ensures |pieces| == |old(pieces)|
      ensures var replies := Replies(stream, id, Min(sends, Max(0, numPieces)));
              && (ok <==> AllData(replies, Max(0, numPieces)))
              && (ok ==> pieces == Collected(old(pieces), replies, Max(0, numPieces)))
    {
      ghost var limit, was := Min(sends, Max(0, numPieces)), pieces;
      ghost var replies := Replies(stream, id, limit);
      var i, rest := 0, stream;
      assert replies[0..] == replies;
      while i < numPieces
        invariant 0 <= i <= Max(0, numPieces) && i <= sends && |pieces| == |was|
        invariant Ahead(replies, rest, id, i, limit)
        invariant AllData(replies, i) && pieces == Collected(was, replies, i)
      {
        if i >= sends {
          return false;
        }
        NextReply(was, replies, rest, id, i, limit, Max(0, numPieces));
        var stored;
        stored, rest := ReadPiece(i, rest, id);
        if !stored {
          return false;
        }
        i := i + 1;
      }
      ok := true;
    }

    /** Reads the reply to the `i`-th request and stores what it carries. */
    method ReadPiece(i: nat, stream: bytes, id: byte) returns (ok: bool, rest: bytes)
      requires i < |pieces|
      modifies this`pieces
      ensures var r := NextExtended(stream, id, MAX_FRAMES);
              && (ok <==> r.Some? && IsData(r.value.text))
              && (ok ==> rest == r.value.rest)
              && pieces == if ok then Stored(old(pieces), i, r.value.text) else old(pieces)
    {
      var message := ReadExtendedMessage(stream, id);
      if message.None? {
        return false, stream;
      }
      var reply := message.value.text;
      if MessageType(reply) != Some(MSG_DATA) {
        return false, stream;
      }
      if Parse(reply).used < |reply| {
        pieces := pieces[i := Payload(reply)];
      }
      return true, message.value.rest;
    }

    /** Requests every piece, joins them, and accepts the result if its size and hash are right. */
    method RequestMetadata(stream: bytes, id: byte, sends: nat) returns (ok: bool)
      requires Valid() && !complete
      modifies this`pieces, this`metadata, this`complete
      ensures Valid() && (ok <==> complete)
      ensures var n := Max(0, numPieces);
              var all := Joined(old(pieces), Replies(stream, id, Min(sends, n)), n);
              && (ok <==> all.Some? && ToInt32(|all.value|) == metadataSize && sha1(all.value) == infoHash)
              && metadata == (if all.None? then old(metadata) else if ok then all.value else "")
              && (all.Some? ==> Concat(pieces) == all.value)
    {
      var answered := RequestPieces(stream, id, sends);
      if !answered {
        return false;
      }
      metadata := Join();
      if ToInt32(|metadata|) != metadataSize {
        metadata := "";
        return false;
      }
      if sha1(metadata) != infoHash {
        metadata := "";
        return false;
      }
      complete := true;
      ok := true;
    }

    method Join() returns (all: string)
      ensures all == Concat(pieces)
    {
      all := "";
      for i := 0 to |pieces|
        invariant all == Concat(pieces[..i])
      {
        assert pieces[..i + 1][..i] == pieces[..i];
        all := all + pieces[i];
      }
      assert pieces[..|pieces|] == pieces;
    }

    /** One peer's attempt, from its handshake to the check of the hash. */
    method Attempt(peer: PeerScript) returns (ok: bool)
      requires Valid() && !complete
      modifies this
      ensures Valid() && (ok <==> complete)
      ensures ok ==> peer.reached && peer.sends > 0 && NextExtended(peer.stream, HANDSHAKE_ID, MAX_FRAMES).Some?
      ensures var size := OfferedSize(peer);
              Meets(peer, size) ==>
                var all := Obtained(old(pieces), peer, size);
                && (ok <==> all.Some? && ToInt32(|all.value|) == size && sha1(all.value) == infoHash)
                && (ok ==> metadata == all.value)
    {
      if !peer.reached {
        return false;
      }
      ghost var r := NextExtended(peer.stream, HANDSHAKE_ID, MAX_FRAMES);
      if r.Some? {
        AgreedExchange(metadataSize, numPieces, pieces, r.value.text);
      }
      var exchanged, extensionId, rest := ExchangeExtensions(peer);
      if !exchanged {
        return false;
      }
      ok := RequestMetadata(rest, extensionId % 0x100, peer.sends - 1);
    }

    /**
      Whatever other peers have left behind, an honest peer's metadata is recovered exactly when the peer answers
      under the id that the reader looks for.
     */
    method DownloadFromPeer(peer: PeerScript) returns (ok: bool)
      requires Valid() && !complete
      modifies this
      ensures Valid() && (ok <==> complete)
      ensures forall m, id, asked | HonestPeer(m, id, asked, peer) && sha1(m) == infoHash ::
                (complete <==> id == asked) && (complete ==> metadata == m)
    {
      ghost var stale := pieces;
      ok := Attempt(peer);
      forall m, id, asked | HonestPeer(m, id, asked, peer) && sha1(m) == infoHash
        ensures (complete <==> id == asked) && (complete ==> metadata == m)
      {
        HonestAttempt(m, id, asked, peer, stale);
      }
    }

    /** The peers are tried in turn until one completes the download. */
    method Start(peers: seq<PeerScript>) returns (ok: bool)
      requires Valid() && !complete
      modifies this
      ensures Valid() && (ok <==> complete) && (ok ==> sha1(metadata) == infoHash)
      ensures (exists i, m, id :: 0 <= i < |peers| && HonestPeer(m, id, id, peers[i]) && sha1(m) == infoHash) ==> ok
      ensures (forall i | 0 <= i < |peers| :: PassedOver(infoHash, sha1, peers[i])) ==> !ok
    {
      ok := false;
      for i := 0 to |peers|
        invariant Valid() && !complete && !ok
        invariant forall j, m, id | 0 <= j < i && HonestPeer(m, id, id, peers[j]) :: sha1(m) != infoHash
      {
        ok := DownloadFromPeer(peers[i]);
        if ok {
          return;
        }
      }
    }
  }
}
