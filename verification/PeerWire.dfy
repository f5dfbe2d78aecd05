/** The peer wire protocol: messages, their frames on the wire, and the polling receiver. */
module PeerWire {
  import opened Bytes

  const MAX_PEER_MESSAGE_SIZE: int := 4 * 1024 * 1024

  const CHOKE: byte := 0
  const UNCHOKE: byte := 1
  const INTERESTED: byte := 2
  const NOT_INTERESTED: byte := 3
  const HAVE: byte := 4
  const BITFIELD: byte := 5
  const REQUEST: byte := 6
  const BLOCK: byte := 7
  const CANCEL: byte := 8
  const EXTENDED: byte := 20
  const KEEP_ALIVE: byte := 255

  datatype PeerMessage = PeerMessage(length: uint32, id: byte, payload: bytes)

  function CreateKeepAlive(): PeerMessage { PeerMessage(0, KEEP_ALIVE, []) }
  function CreateChoke(): PeerMessage { PeerMessage(1, CHOKE, []) }
  function CreateUnchoke(): PeerMessage { PeerMessage(1, UNCHOKE, []) }
  function CreateInterested(): PeerMessage { PeerMessage(1, INTERESTED, []) }

  function CreateHave(piece: uint32): PeerMessage { PeerMessage(5, HAVE, IntToBytes(piece)) }

  function CreateRequest(piece: uint32, offset: uint32, length: uint32): PeerMessage {
    PeerMessage(13, REQUEST, IntToBytes(piece) + IntToBytes(offset) + IntToBytes(length))
  }

  function CreateCancel(piece: uint32, offset: uint32, length: uint32): PeerMessage {
    PeerMessage(13, CANCEL, IntToBytes(piece) + IntToBytes(offset) + IntToBytes(length))
  }

  /** A message as it goes on the wire. */
  function Wire(m: PeerMessage): bytes {
    IntToBytes(m.length) + if m.length > 0 then [m.id] + m.payload else []
  }

  function Wires(ms: seq<PeerMessage>): bytes {
    if ms == [] then [] else Wire(ms[0]) + Wires(ms[1..])
  }

  /** The length field tells the truth and is not over the receiver's limit. */
  predicate WellFormed(m: PeerMessage) {
    if m.length == 0 then m == CreateKeepAlive()
    else m.length == 1 + |m.payload| && m.length <= 4_194_304
  }

  datatype Head =
    | Partial
    | Absurd
    | Frame(msg: PeerMessage, rest: bytes)

  /** What a byte stream starts with. */
  function FirstFrame(s: bytes): (h: Head)
    ensures h.Frame? ==> |h.rest| < |s|
  {
    if |s| < 4 then Partial else
    var n := BytesToInt(s[..4]);
    if n > MAX_PEER_MESSAGE_SIZE then Absurd
    else if |s| < 4 + n then Partial
    else if n == 0 then Frame(CreateKeepAlive(), s[4..])
    else Frame(PeerMessage(n, s[4], s[5..4 + n]), s[4 + n..])
  }

  /** All whole frames of a stream, up to the first partial or absurd one. */
  function Frames(s: bytes): seq<PeerMessage>
    decreases |s|
  {
    match FirstFrame(s)
    case Frame(m, rest) => [m] + Frames(rest)
    case _ => []
  }

  /** What follows the whole frames of a stream. */
  function Leftover(s: bytes): bytes
    decreases |s|
  {
    match FirstFrame(s)
    case Frame(_, rest) => Leftover(rest)
    case _ => s
  }

  // ----- The receiver

  datatype Conn = Conn(connected: bool, choking: bool, interested: bool, bitfield: seq<bool>)

  function Mask(j: nat): (m: nat)
    requires j < 8
    ensures m > 0
  {
    [128, 64, 32, 16, 8, 4, 2, 1][j]
  }

  /** Bit `p` of a bitfield, the most significant bit of each byte first. */
  predicate Bit(data: bytes, p: nat) {
    p / 8 < |data| && data[p / 8] / Mask(p % 8) % 2 == 1
  }

  function FromBits(data: bytes, count: nat): seq<bool> {
    seq(count, p requires 0 <= p => Bit(data, p))
  }

  /** The ids whose payload is read, here or by the code that receives the message. */
  predicate ReadsPayload(id: byte) {
    id == 4 || id == 5 || id == 7 || id == 20
  }

  /** The effect of one received message on the connection. */
  function Heard(c: Conn, m: PeerMessage): (c': Conn)
    ensures |c'.bitfield| == |c.bitfield| && c'.connected == c.connected
  {
    if m.id == CHOKE then c.(choking := true)
    else if m.id == UNCHOKE then c.(choking := false)
    else if m.id == INTERESTED then c.(interested := true)
    else if m.id == NOT_INTERESTED then c.(interested := false)
    else if m.id == HAVE && |m.payload| >= 4 && BytesToInt(m.payload) < |c.bitfield| then
      c.(bitfield := c.bitfield[BytesToInt(m.payload) := true])
    else if m.id == BITFIELD then c.(bitfield := FromBits(m.payload, |c.bitfield|))
    else c
  }

  function HeardAll(c: Conn, ms: seq<PeerMessage>): (c': Conn)
    ensures |c'.bitfield| == |c.bitfield| && c'.connected == c.connected
  {
    if ms == [] then c else Heard(HeardAll(c, ms[..|ms| - 1]), ms[|ms| - 1])
  }

  /** The caller's message after a frame was read into it: a frame without payload leaves the old one. */
  function ReadInto(msg: PeerMessage, frame: PeerMessage): PeerMessage {
    frame.(payload := if frame.length > 1 then frame.payload else msg.payload)
  }

  datatype Received = Received(conn: Conn, inbox: bytes, got: bool, msg: PeerMessage)

  /** One poll of a connection whose socket holds `inbox`, into the caller's message `msg`. */
  function Poll(c: Conn, inbox: bytes, msg: PeerMessage): Received {
    if !c.connected || |inbox| < 4 then Received(c, inbox, false, msg) else
    var touched := msg.(length := BytesToInt(inbox[..4]));
    match FirstFrame(inbox)
    case Partial => Received(c, inbox, false, touched)
    case Absurd => Received(c.(connected := false), inbox, false, touched)
    case Frame(frame, rest) =>
      var m := ReadInto(msg, frame);
      Received(if frame.length == 0 then c else Heard(c, m), rest, true, m)
  }

  /** Reading four bytes, one and the rest of the frame is reading the frame. */
  lemma FrameParts(s: bytes, n: nat)
    requires 0 < n && 4 + n <= |s|
    ensures s[4..][..1] == [s[4]]
    ensures s[4..][1..][..n - 1] == s[5..4 + n]
    ensures s[4..][1..][n - 1..] == s[4 + n..]
    ensures n == 1 ==> s[4..][1..] == s[4 + n..]
  {
  }

  lemma HearOneMore(c: Conn, ms: seq<PeerMessage>, m: PeerMessage)
    ensures HeardAll(c, ms + [m]) == Heard(HeardAll(c, ms), m)
  {
    assert (ms + [m])[..|ms|] == ms;
  }

  // ----- What a bitfield means

  /** Bit `7 - p % 8`, counted from the least significant, of byte `p / 8` is set. */
  predicate IsSet(data: bytes, p: nat) {
    p / 8 < |data| && data[p / 8] / Pow2(7 - p % 8) % 2 == 1
  }

  lemma BitIsSet(data: bytes, p: nat)
    ensures Bit(data, p) <==> IsSet(data, p)
  {
    var j := p % 8;
    assert Pow2(0) == 1 && Pow2(1) == 2 && Pow2(2) == 4 && Pow2(3) == 8;
    assert Pow2(4) == 16 && Pow2(5) == 32 && Pow2(6) == 64 && Pow2(7) == 128;
    assert Mask(j) == Pow2(7 - j);
  }

  /** The message says that the sender has piece `p`: a have message (4) for it, or a bitfield (5) with its bit set. */
  predicate Announces(m: PeerMessage, p: nat) {
    || (m.id == 4 && |m.payload| >= 4 && BytesToInt(m.payload) == p)
    || (m.id == 5 && IsSet(m.payload, p))
  }

  /** No bitfield message comes after the first `k`. */
  ghost predicate NoBitfieldFrom(ms: seq<PeerMessage>, k: nat) {
    forall j | k <= j < |ms| :: ms[j].id != 5
  }

  /** A piece is had exactly when it was announced and no later bitfield replaced the announcement. */
  lemma {:induction false} HadExactlyWhenAnnounced(c: Conn, ms: seq<PeerMessage>, p: nat)
    requires p < |c.bitfield|
    ensures HeardAll(c, ms).bitfield[p] <==>
              || (c.bitfield[p] && NoBitfieldFrom(ms, 0))
              || exists k | 0 <= k < |ms| :: Announces(ms[k], p) && NoBitfieldFrom(ms, k + 1)
    decreases |ms|
  {
    if ms != [] {
      var front, last := ms[..|ms| - 1], ms[|ms| - 1];
      HadExactlyWhenAnnounced(c, front, p);
      HadAfter(HeardAll(c, front), last, p);
      forall k: nat | k <= |front|
        ensures NoBitfieldFrom(ms, k) <==> NoBitfieldFrom(front, k) && last.id != BITFIELD
      {
        assert NoBitfieldFrom(ms, k) ==> forall j | k <= j < |front| :: front[j] == ms[j];
      }
      assert NoBitfieldFrom(ms, |ms|);
      assert forall k | 0 <= k < |front| :: front[k] == ms[k];
    }
  }

  lemma HadAfter(c: Conn, m: PeerMessage, p: nat)
    requires p < |c.bitfield|
    ensures Heard(c, m).bitfield[p] <==> Announces(m, p) || (c.bitfield[p] && m.id != BITFIELD)
  {
    BitIsSet(m.payload, p);
  }

  // ----- What chokes and interest mean

  /** A message with id `yes` has come, and after it none with id `yes` or `no`. */
  ghost predicate LastSays(ms: seq<PeerMessage>, yes: byte, no: byte) {
    exists k :: 0 <= k < |ms| && ms[k].id == yes && forall j | k < j < |ms| :: ms[j].id != yes && ms[j].id != no
  }

  /** No message with either id has come. */
  ghost predicate NoneSays(ms: seq<PeerMessage>, yes: byte, no: byte) {
    forall j | 0 <= j < |ms| :: ms[j].id != yes && ms[j].id != no
  }

  lemma SaysOneMore(ms: seq<PeerMessage>, m: PeerMessage, yes: byte, no: byte)
    requires yes != no
    ensures LastSays(ms + [m], yes, no) <==> m.id == yes || (m.id != no && LastSays(ms, yes, no))
    ensures NoneSays(ms + [m], yes, no) <==> m.id != yes && m.id != no && NoneSays(ms, yes, no)
  {
    var all := ms + [m];
    assert forall j | 0 <= j < |ms| :: all[j] == ms[j];
    assert all[|ms|] == m;
    if m.id != yes && m.id != no && LastSays(ms, yes, no) {
      var k :| 0 <= k < |ms| && ms[k].id == yes && forall j | k < j < |ms| :: ms[j].id != yes && ms[j].id != no;
      assert all[k].id == yes;
    }
  }

  /**
    A peer chokes us exactly when the last choke (0) or unchoke (1) message was a choke, or there was none and it
    did before; it is interested exactly when the last interested (2) or not interested (3) message was the former,
    or there was none and it was before.
   */
  lemma {:induction false} ChokesExactlyWhen(c: Conn, ms: seq<PeerMessage>)
    ensures HeardAll(c, ms).choking <==> LastSays(ms, 0, 1) || (c.choking && NoneSays(ms, 0, 1))
    ensures HeardAll(c, ms).interested <==> LastSays(ms, 2, 3) || (c.interested && NoneSays(ms, 2, 3))
    decreases |ms|
  {
    if ms != [] {
      var front, last := ms[..|ms| - 1], ms[|ms| - 1];
      ChokesExactlyWhen(c, front);
      assert ms == front + [last];
      SaysOneMore(front, last, 0, 1);
      SaysOneMore(front, last, 2, 3);
    }
  }

  /** A connection on which nothing has been heard. */
  function Opened(count: nat): Conn {
    Conn(true, true, false, seq(count, _ => false))
  }

  /** Apart from being connected, the state comes from the messages alone. */
  ghost predicate HasHeard(c: Conn, ms: seq<PeerMessage>) {
    c.(connected := true) == HeardAll(Opened(|c.bitfield|), ms)
  }

  /**
    The peer chokes us unless the last choke (0) or unchoke (1) message was an unchoke; it is interested exactly
    when the last interested (2) or not interested (3) message was the former.
   */
  ghost predicate Stances(choking: bool, interested: bool, ms: seq<PeerMessage>) {
    && (choking <==> LastSays(ms, 0, 1) || NoneSays(ms, 0, 1))
    && (interested <==> LastSays(ms, 2, 3))
  }

  lemma HeardStances(c: Conn, ms: seq<PeerMessage>)
    requires HasHeard(c, ms)
    ensures Stances(c.choking, c.interested, ms)
  {
    ChokesExactlyWhen(Opened(|c.bitfield|), ms);
  }

  lemma HasHeardOneMore(c: Conn, ms: seq<PeerMessage>, m: PeerMessage)
    requires HasHeard(c, ms)
    ensures HasHeard(Heard(c, m), ms + [m])
    ensures Stances(Heard(c, m).choking, Heard(c, m).interested, ms + [m])
  {
    HearOneMore(Opened(|c.bitfield|), ms, m);
    HeardStances(Heard(c, m), ms + [m]);
  }

  /** A poll that takes a whole frame. */
  lemma PollTakes(c: Conn, inbox: bytes, msg: PeerMessage)
    requires c.connected && 4 <= |inbox| && msg.length == BytesToInt(inbox[..4])
    requires 4 + msg.length <= |inbox| && msg.length <= MAX_PEER_MESSAGE_SIZE
    ensures msg.length == 0 ==>
              Poll(c, inbox, msg) == Received(c, inbox[4..], true, msg.(id := KEEP_ALIVE))
    ensures msg.length > 0 ==>
              var n := 4 + msg.length;
              var m := msg.(id := inbox[4], payload := if msg.length > 1 then inbox[5..n] else msg.payload);
              Poll(c, inbox, msg) == Received(Heard(c, m), inbox[n..], true, m)
  {
  }

  /** A connection; `inbox` is what its socket has received and not yet handed over, `sent` what was sent on it. */
  class PeerConnection {
    var connected: bool
    var peerChoking: bool
    var peerInterested: bool
    var bitfield: seq<bool>
    var inbox: bytes
    var sent: bytes
    ghost var heard: seq<PeerMessage>

    function State(): Conn
      reads this
    {
      Conn(connected, peerChoking, peerInterested, bitfield)
    }

    /** The state is what the messages received so far make of it. */
    ghost predicate Valid()
      reads this
    {
      HasHeard(State(), heard) && Stances(peerChoking, peerInterested, heard)
    }

    constructor (numPieces: nat)
      ensures Valid() && State() == Opened(numPieces)
      ensures inbox == [] && sent == [] && heard == []
    {
      connected, peerChoking, peerInterested := true, true, false;
      bitfield := seq(numPieces, _ => false);
      inbox, sent, heard := [], [], [];
    }

    /** Sends a message; the socket takes `accepts` bytes before its first error, which ends the connection. */
    method SendMessage(msg: PeerMessage, accepts: nat) returns (ok: bool)
      modifies this`sent, this`connected
      ensures ok <==> old(connected) && |Wire(msg)| <= accepts
      ensures connected <==> ok
      ensures old(connected) ==> sent == old(sent) + Wire(msg)[..Min(accepts, |Wire(msg)|)]
      ensures !old(connected) ==> sent == old(sent)
    {
      if !connected {
        return false;
      }
      var buffer := IntToBytes(msg.length);
      if msg.length > 0 {
        buffer := buffer + [msg.id];
        buffer := buffer + msg.payload;
        assert buffer == Wire(msg);
      }
      ok := SendAll(buffer, accepts);
      if !ok {
        connected := false;
      }
    }

    /** Hands bytes to the socket until all are taken or it fails. */
    method SendAll(data: bytes, accepts: nat) returns (ok: bool)
      modifies this`sent
      ensures ok <==> |data| <= accepts
      ensures sent == old(sent) + data[..Min(accepts, |data|)]
    {
      var totalSent := 0;
      assert sent + data[..0] == sent;
      while totalSent < |data|
        invariant totalSent <= |data| && totalSent <= accepts && sent == old(sent) + data[..totalSent]
      {
        if totalSent == accepts {
          return false;
        }
        assert data[..totalSent] + [data[totalSent]] == data[..totalSent + 1];
        sent := sent + [data[totalSent]];
        totalSent := totalSent + 1;
      }
      ok := true;
    }

    /** Takes the next `count` bytes out of the socket. */
    method RecvAll(count: nat) returns (data: bytes)
      requires count <= |inbox|
      modifies this`inbox
      ensures data == old(inbox)[..count] && inbox == old(inbox)[count..]
    {
      data := inbox[..count];
      inbox := inbox[count..];
    }

    method ReceiveMessageNonBlocking(msg: PeerMessage) returns (got: bool, m: PeerMessage)
      requires Valid()
      modifies this
      ensures Received(State(), inbox, got, m) == old(Poll(State(), inbox, msg))
      ensures sent == old(sent)
      ensures Valid() && heard == old(heard) + if got then [m] else []
      ensures Stances(peerChoking, peerInterested, heard)
    {
      m := msg;
      if !connected || |inbox| < 4 {
        return false, m;
      }
      var length := BytesToInt(inbox[..4]);
      m := m.(length := length);
      if length > MAX_PEER_MESSAGE_SIZE {
        connected := false;
        return false, m;
      }
      if |inbox| < 4 + length {
        return false, m;
      }
      m := TakeFrame(m, length);
      got := true;
    }

    /** Takes the whole frame that has arrived out of the socket, into the caller's message, and acts on it. */
    method TakeFrame(msg: PeerMessage, length: uint32) returns (m: PeerMessage)
      requires Valid() && connected && 4 + length <= |inbox| && length <= MAX_PEER_MESSAGE_SIZE
      requires length == BytesToInt(inbox[..4]) == msg.length
      modifies this`inbox, this`peerChoking, this`peerInterested, this`bitfield, this`heard
      ensures Received(State(), inbox, true, m) == old(Poll(State(), inbox, msg))
      ensures Valid() && heard == old(heard) + [m]
    {
      m := msg;
      ghost var stream := inbox;
      PollTakes(State(), inbox, msg);
      var _ := RecvAll(4);
      if length == 0 {
        m := m.(id := KEEP_ALIVE);
        HasHeardOneMore(State(), heard, m);
        heard := heard + [m];
        return;
      }
      var id := RecvAll(1);
      m := m.(id := id[0]);
      if length > 1 {
        var payload := RecvAll(length - 1);
        m := m.(payload := payload);
      }
      FrameParts(stream, length);
      UpdateState(m);
    }

    method UpdateState(m: PeerMessage)
      requires Valid()
      modifies this`peerChoking, this`peerInterested, this`bitfield, this`heard
      ensures State() == Heard(old(State()), m)
      ensures Valid() && heard == old(heard) + [m]
    {
      HasHeardOneMore(State(), heard, m);
      heard := heard + [m];
      if m.id == CHOKE {
        peerChoking := true;
      } else if m.id == UNCHOKE {
        peerChoking := false;
      } else if m.id == INTERESTED {
        peerInterested := true;
      } else if m.id == NOT_INTERESTED {
        peerInterested := false;
      } else if m.id == HAVE {
        if |m.payload| >= 4 {
          var piece := BytesToInt(m.payload);
          if piece < |bitfield| {
            bitfield := bitfield[piece := true];
          }
        }
      } else if m.id == BITFIELD {
        UpdateBitfield(m.payload);
      }
    }

    method UpdateBitfield(data: bytes)
      modifies this`bitfield
      ensures bitfield == FromBits(data, |old(bitfield)|)
    {
      var n := |bitfield|;
      bitfield := seq(n, _ => false);
      var i := 0;
      while i < |data| && i * 8 < n
        invariant 0 <= i <= |data| && |bitfield| == n
        invariant forall p: nat | p < n :: bitfield[p] == (p < i * 8 && Bit(data, p))
      {
        var j := 0;
        while j < 8 && i * 8 + j < n
          invariant 0 <= j <= 8 && |bitfield| == n && i * 8 + j <= n
          invariant forall p: nat | p < n :: bitfield[p] == (p < i * 8 + j && Bit(data, p))
        {
          assert (i * 8 + j) / 8 == i && (i * 8 + j) % 8 == j;
          if data[i] / Mask(j) % 2 == 1 {
            bitfield := bitfield[i * 8 + j := true];
          }
          j := j + 1;
        }
        i := i + 1;
      }
    }

    /** Whether a message received so far has announced the piece and no later bitfield has replaced it. */
    method HasPiece(index: uint32) returns (has: bool)
      requires Valid()
      ensures has <==> index < |bitfield| &&
                       exists k :: 0 <= k < |heard| && Announces(heard[k], index) && NoBitfieldFrom(heard, k + 1)
    {
      if index >= |bitfield| {
        return false;
      }
      has := bitfield[index];
      HadExactlyWhenAnnounced(Opened(|bitfield|), heard, index);
    }
  }

  // ----- Frames

  /** Receiving inverts sending, whatever follows on the stream. */
  lemma WireDecodes(m: PeerMessage, rest: bytes)
    requires WellFormed(m)
    ensures FirstFrame(Wire(m) + rest) == Frame(m, rest)
  {
    var s := Wire(m) + rest;
    IntRoundTrip(m.length);
    assert s[..4] == IntToBytes(m.length);
    if m.length > 0 {
      assert s[4] == m.id && s[5..4 + m.length] == m.payload && s[4 + m.length..] == rest;
    } else {
      assert s[4..] == rest;
    }
  }

  /** A frame that is read off a stream is one that sending would have put there. */
  lemma FrameEncodes(s: bytes)
    requires FirstFrame(s).Frame?
    ensures WellFormed(FirstFrame(s).msg) && s == Wire(FirstFrame(s).msg) + FirstFrame(s).rest
  {
    BytesRoundTrip(s[..4]);
    var n := BytesToInt(s[..4]);
    if n > 0 {
      assert s == s[..4] + ([s[4]] + s[5..4 + n]) + s[4 + n..];
    } else {
      assert s == s[..4] + [] + s[4..];
    }
  }

  /** Every message this client creates is read back as it was created. */
  lemma CreatedMessagesDecode(piece: uint32, offset: uint32, length: uint32, rest: bytes)
    ensures forall m | m in {CreateKeepAlive(), CreateChoke(), CreateUnchoke(), CreateInterested(), CreateHave(piece),
                             CreateRequest(piece, offset, length), CreateCancel(piece, offset, length)} ::
              FirstFrame(Wire(m) + rest) == Frame(m, rest)
  {
    forall m | m in {CreateKeepAlive(), CreateChoke(), CreateUnchoke(), CreateInterested(), CreateHave(piece),
                     CreateRequest(piece, offset, length), CreateCancel(piece, offset, length)}
      ensures FirstFrame(Wire(m) + rest) == Frame(m, rest)
    {
      WireDecodes(m, rest);
    }
  }

  /** The bytes of every message that the client creates. */
  lemma CreatedBytes(piece: uint32, offset: uint32, length: uint32)
    ensures Wire(CreateKeepAlive()) == [0, 0, 0, 0]
    ensures Wire(CreateChoke()) == [0, 0, 0, 1, 0] && Wire(CreateUnchoke()) == [0, 0, 0, 1, 1]
    ensures Wire(CreateInterested()) == [0, 0, 0, 1, 2]
    ensures Wire(CreateHave(piece)) == [0, 0, 0, 5, 4] + IntToBytes(piece)
    ensures Wire(CreateRequest(piece, offset, length))
         == [0, 0, 0, 13, 6] + IntToBytes(piece) + IntToBytes(offset) + IntToBytes(length)
    ensures Wire(CreateCancel(piece, offset, length))
         == [0, 0, 0, 13, 8] + IntToBytes(piece) + IntToBytes(offset) + IntToBytes(length)
  {
    assert IntToBytes(0) == [0, 0, 0, 0] && IntToBytes(1) == [0, 0, 0, 1];
    assert IntToBytes(5) == [0, 0, 0, 5] && IntToBytes(13) == [0, 0, 0, 13];
  }

  /** The numbers of a request are read back from its payload. */
  lemma RequestReadsBack(piece: uint32, offset: uint32, length: uint32)
    ensures var p := CreateRequest(piece, offset, length).payload;
            BytesToInt(p[..4]) == piece && BytesToInt(p[4..8]) == offset && BytesToInt(p[8..]) == length
    ensures CreateCancel(piece, offset, length).payload == CreateRequest(piece, offset, length).payload
  {
    IntRoundTrip(piece);
    IntRoundTrip(offset);
    IntRoundTrip(length);
    var p := CreateRequest(piece, offset, length).payload;
    assert p[..4] == IntToBytes(piece) && p[4..8] == IntToBytes(offset) && p[8..] == IntToBytes(length);
  }

  lemma FrameFirst(m: PeerMessage, rest: bytes)
    requires WellFormed(m)
    ensures Frames(Wire(m) + rest) == [m] + Frames(rest) && Leftover(Wire(m) + rest) == Leftover(rest)
  {
    WireDecodes(m, rest);
  }

  lemma OneMoreFrame(ms: seq<PeerMessage>, rest: bytes)
    requires ms != [] && WellFormed(ms[0])
    requires Frames(Wires(ms[1..]) + rest) == ms[1..] + Frames(rest)
    ensures Frames(Wires(ms) + rest) == ms + Frames(rest)
    ensures Leftover(Wires(ms) + rest) == Leftover(Wires(ms[1..]) + rest)
  {
    Associative(Wire(ms[0]), Wires(ms[1..]), rest);
    FrameFirst(ms[0], Wires(ms[1..]) + rest);
    HeadAndTail(ms, Frames(rest));
  }

  lemma HeadAndTail(ms: seq<PeerMessage>, more: seq<PeerMessage>)
    requires ms != []
    ensures [ms[0]] + (ms[1..] + more) == ms + more
  {
  }

  /** A stream has one reading: the frames that were sent, then what follows them. */
  lemma {:induction false} FramesOfWires(ms: seq<PeerMessage>, rest: bytes)
    requires forall m | m in ms :: WellFormed(m)
    ensures Frames(Wires(ms) + rest) == ms + Frames(rest)
    ensures Leftover(Wires(ms) + rest) == Leftover(rest)
    decreases |ms|
  {
    if ms == [] {
      assert Wires(ms) + rest == rest;
    } else {
      FramesOfWires(ms[1..], rest);
      OneMoreFrame(ms, rest);
    }
  }

  lemma {:induction false} WiresAppend(ms: seq<PeerMessage>, m: PeerMessage)
    ensures Wires(ms + [m]) == Wires(ms) + Wire(m)
    decreases |ms|
  {
    if ms == [] {
      assert Wires([m]) == Wire(m) + Wires([]);
    } else {
      WiresAppend(ms[1..], m);
      assert (ms + [m])[1..] == ms[1..] + [m];
    }
  }

  // ----- Polling schedules

  /** Bytes reach the socket, or the caller polls with some message of its own. */
  datatype Action = Arrive(chunk: bytes) | PollInto(msg: PeerMessage)

  /** A connection, all that ever arrived on it, and the messages its polls returned. */
  datatype Net = Net(conn: Conn, inbox: bytes, stream: bytes, seen: seq<PeerMessage>)

  function Do(n: Net, a: Action): Net {
    match a
    case Arrive(chunk) => n.(inbox := n.inbox + chunk, stream := n.stream + chunk)
    case PollInto(msg) =>
      var r := Poll(n.conn, n.inbox, msg);
      n.(conn := r.conn, inbox := r.inbox, seen := if r.got then n.seen + [r.msg] else n.seen)
  }

  function Run(c: Conn, schedule: seq<Action>): Net {
    if schedule == [] then Net(c, [], [], [])
    else Do(Run(c, schedule[..|schedule| - 1]), schedule[|schedule| - 1])
  }

  /** A message without the payload that its frame did not bring. */
  function Brought(m: PeerMessage): PeerMessage {
    if m.length > 1 then m else m.(payload := [])
  }

  function AllBrought(ms: seq<PeerMessage>): (r: seq<PeerMessage>)
    ensures |r| == |ms| && forall k | 0 <= k < |ms| :: r[k] == Brought(ms[k])
  {
    seq(|ms|, k requires 0 <= k < |ms| => Brought(ms[k]))
  }

  /** The framing part of what holds after every schedule. */
  ghost predicate Framed(n: Net) {
    && n.stream == Wires(AllBrought(n.seen)) + n.inbox
    && (forall m | m in AllBrought(n.seen) :: WellFormed(m))
    && (!n.conn.connected ==> FirstFrame(n.inbox).Absurd?)
  }

  /** A poll takes nothing from the socket, or exactly one whole frame. */
  lemma PollTakesOneFrame(c: Conn, inbox: bytes, msg: PeerMessage)
    ensures var r := Poll(c, inbox, msg);
            if r.got then WellFormed(Brought(r.msg)) && inbox == Wire(Brought(r.msg)) + r.inbox else r.inbox == inbox
  {
    if Poll(c, inbox, msg).got {
      FrameEncodes(inbox);
      assert Brought(ReadInto(msg, FirstFrame(inbox).msg)) == FirstFrame(inbox).msg;
    }
  }

  lemma ArriveKeepsFraming(n: Net, chunk: bytes)
    requires Framed(n)
    ensures Framed(Do(n, Arrive(chunk)))
  {
    assert Wires(AllBrought(n.seen)) + n.inbox + chunk == Wires(AllBrought(n.seen)) + (n.inbox + chunk);
    AbsurdStays(n.inbox, chunk);
  }

  lemma AbsurdStays(s: bytes, chunk: bytes)
    ensures FirstFrame(s).Absurd? ==> FirstFrame(s + chunk).Absurd?
  {
    assert |s| >= 4 ==> (s + chunk)[..4] == s[..4];
  }

  lemma PollKeepsFraming(n: Net, msg: PeerMessage)
    requires Framed(n)
    ensures Framed(Do(n, PollInto(msg)))
  {
    PollTakesOneFrame(n.conn, n.inbox, msg);
    var r := Poll(n.conn, n.inbox, msg);
    if r.got {
      AppendFrame(n.seen, r.msg, r.inbox);
    }
  }

  lemma AppendFrame(seen: seq<PeerMessage>, m: PeerMessage, rest: bytes)
    ensures AllBrought(seen + [m]) == AllBrought(seen) + [Brought(m)]
    ensures Wires(AllBrought(seen + [m])) + rest == Wires(AllBrought(seen)) + (Wire(Brought(m)) + rest)
  {
    var before, wire := Wires(AllBrought(seen)), Wire(Brought(m));
    assert AllBrought(seen + [m]) == AllBrought(seen) + [Brought(m)];
    WiresAppend(AllBrought(seen), Brought(m));
    Associative(before, wire, rest);
  }

  lemma Associative(a: bytes, b: bytes, c: bytes)
    ensures a + b + c == a + (b + c)
  {
  }

  lemma DoKeepsFraming(n: Net, a: Action)
    requires Framed(n)
    ensures Framed(Do(n, a))
  {
    match a
    case Arrive(chunk) => ArriveKeepsFraming(n, chunk);
    case PollInto(msg) => PollKeepsFraming(n, msg);
  }

  lemma {:induction false} RunKeepsFraming(c: Conn, schedule: seq<Action>)
    requires c.connected
    ensures Framed(Run(c, schedule))
    decreases |schedule|
  {
    if schedule == [] {
      assert AllBrought(Run(c, schedule).seen) == [];
    } else {
      RunKeepsFraming(c, schedule[..|schedule| - 1]);
      DoKeepsFraming(Run(c, schedule[..|schedule| - 1]), schedule[|schedule| - 1]);
    }
  }

  /** Nothing is lost, split or merged: what was returned, then what is still to come, are the frames of the stream. */
  lemma FramesInOrder(c: Conn, schedule: seq<Action>)
    requires c.connected
    ensures var n := Run(c, schedule);
            Frames(n.stream) == AllBrought(n.seen) + Frames(n.inbox) && Leftover(n.stream) == Leftover(n.inbox)
  {
    RunKeepsFraming(c, schedule);
    var n := Run(c, schedule);
    FramesOfWires(AllBrought(n.seen), n.inbox);
  }

  // ----- The state of the connection

  /** No frame whose payload is read comes without one. */
  ghost predicate Clean(ms: seq<PeerMessage>) {
    forall m | m in ms :: ReadsPayload(m.id) ==> m.length > 1
  }

  lemma {:induction false} RunHears(c: Conn, schedule: seq<Action>)
    requires c.connected
    ensures var n := Run(c, schedule); n.conn.(connected := true) == HeardAll(c, n.seen)
    decreases |schedule|
  {
    if schedule != [] {
      var n := Run(c, schedule[..|schedule| - 1]);
      var a := schedule[|schedule| - 1];
      RunHears(c, schedule[..|schedule| - 1]);
      assert Run(c, schedule) == Do(n, a);
      if a.PollInto? && Poll(n.conn, n.inbox, a.msg).got {
        PollHears(n.conn, n.inbox, a.msg);
        HearOneMore(c, n.seen, Poll(n.conn, n.inbox, a.msg).msg);
      }
    }
  }

  lemma PollHears(c: Conn, inbox: bytes, msg: PeerMessage)
    requires Poll(c, inbox, msg).got
    ensures c.connected && Poll(c, inbox, msg).conn == Heard(c, Poll(c, inbox, msg).msg)
  {
  }

  /** With clean frames the connection ends as if it had heard the frames themselves. */
  lemma {:induction false} CleanHears(c: Conn, ms: seq<PeerMessage>)
    ensures var c1, c2 := HeardAll(c, ms), HeardAll(c, AllBrought(ms));
            c1.choking == c2.choking && c1.interested == c2.interested && (Clean(ms) ==> c1 == c2)
    decreases |ms|
  {
    if ms != [] {
      var front, last := ms[..|ms| - 1], ms[|ms| - 1];
      CleanHears(c, front);
      assert AllBrought(ms)[..|ms| - 1] == AllBrought(front);
      BroughtHears(HeardAll(c, front), HeardAll(c, AllBrought(front)), last);
      assert Clean(ms) ==> Clean(front) && last in ms;
    }
  }

  lemma BroughtHears(c1: Conn, c2: Conn, m: PeerMessage)
    requires c1.choking == c2.choking && c1.interested == c2.interested
    ensures var d1, d2 := Heard(c1, m), Heard(c2, Brought(m));
            && d1.choking == d2.choking && d1.interested == d2.interested
            && (c1 == c2 && (ReadsPayload(m.id) ==> m.length > 1) ==> d1 == d2)
  {
  }

  /** The schedule ends with a poll that finds nothing more. */
  predicate Drained(c: Conn, schedule: seq<Action>) {
    && schedule != []
    && schedule[|schedule| - 1].PollInto?
    && var n := Run(c, schedule[..|schedule| - 1]);
       !Poll(n.conn, n.inbox, schedule[|schedule| - 1].msg).got
  }

  /** A drained schedule returned every frame; only an absurd length has cut the connection. */
  lemma DrainedSawEverything(c: Conn, schedule: seq<Action>)
    requires c.connected && Drained(c, schedule)
    ensures var n := Run(c, schedule);
            && AllBrought(n.seen) == Frames(n.stream)
            && n.conn.connected == !FirstFrame(Leftover(n.stream)).Absurd?
  {
    FramesInOrder(c, schedule);
    RunKeepsFraming(c, schedule[..|schedule| - 1]);
    var n := Run(c, schedule);
    assert !FirstFrame(n.inbox).Frame?;
    assert AllBrought(n.seen) + [] == AllBrought(n.seen);
  }

  /**
   * However a stream is cut into chunks and whenever it is polled, the frames and the state are those of the
   * stream: choking and interest always, and the bitfield when no frame that is read comes without its payload.
   */
  lemma ScheduleIndependent(c: Conn, schedule: seq<Action>)
    requires c.connected && Drained(c, schedule)
    ensures var n := Run(c, schedule);
            var whole := HeardAll(c, Frames(n.stream)).(connected := !FirstFrame(Leftover(n.stream)).Absurd?);
            && AllBrought(n.seen) == Frames(n.stream)
            && n.conn.(bitfield := whole.bitfield) == whole
            && (Clean(Frames(n.stream)) ==> n.conn == whole)
    ensures var n := Run(c, schedule);
            Clean(Frames(n.stream)) ==>
              forall k | 0 <= k < |n.seen| :: ReadsPayload(n.seen[k].id) ==> n.seen[k] == Frames(n.stream)[k]
  {
    DrainedSawEverything(c, schedule);
    RunHears(c, schedule);
    var n := Run(c, schedule);
    CleanHears(c, n.seen);
    if Clean(Frames(n.stream)) {
      forall m | m in n.seen && ReadsPayload(m.id)
        ensures m.length > 1
      {
        var k :| 0 <= k < |n.seen| && n.seen[k] == m;
        assert Frames(n.stream)[k] == Brought(m);
      }
    }
  }

  /** Two complete readings of one stream agree. */
  lemma SchedulesAgree(c: Conn, s1: seq<Action>, s2: seq<Action>)
    requires c.connected && Drained(c, s1) && Drained(c, s2)
    requires Run(c, s1).stream == Run(c, s2).stream
    ensures AllBrought(Run(c, s1).seen) == AllBrought(Run(c, s2).seen)
    ensures Run(c, s1).conn.choking == Run(c, s2).conn.choking
    ensures Clean(Frames(Run(c, s1).stream)) ==> Run(c, s1).conn == Run(c, s2).conn
  {
    ScheduleIndependent(c, s1);
    ScheduleIndependent(c, s2);
  }

  /** What the caller reads of a returned message. */
  function Readable(m: PeerMessage): bytes {
    if ReadsPayload(m.id) then m.payload else []
  }

  /** What is read depends on the caller's old message exactly when the frame has length 1 and its payload is read. */
  lemma StaleExactlyWithoutPayload(c: Conn, inbox: bytes)
    requires c.connected && FirstFrame(inbox).Frame?
    ensures var frame := FirstFrame(inbox).msg;
            (forall m1, m2 :: Readable(Poll(c, inbox, m1).msg) == Readable(Poll(c, inbox, m2).msg))
            <==> !(frame.length == 1 && ReadsPayload(frame.id))
  {
    var frame := FirstFrame(inbox).msg;
    FrameEncodes(inbox);
    if frame.length == 1 && ReadsPayload(frame.id) {
      var m1, m2 := PeerMessage(0, 0, []), PeerMessage(0, 0, [0]);
      assert Readable(Poll(c, inbox, m1).msg) == [] && Readable(Poll(c, inbox, m2).msg) == [0];
    } else {
      forall m1, m2
        ensures Readable(Poll(c, inbox, m1).msg) == Readable(Poll(c, inbox, m2).msg)
      {
        assert !ReadsPayload(KEEP_ALIVE);
      }
    }
  }

  /** A bitfield frame of length 1 read after one with all bits set announces pieces again. */
  lemma StaleBitfield(c: Conn)
    requires c.connected && |c.bitfield| > 0
    ensures var inbox := Wire(PeerMessage(1, BITFIELD, []));
            && Poll(c, inbox, PeerMessage(2, BITFIELD, [128])).conn.bitfield[0]
            && !Poll(c, inbox, CreateKeepAlive()).conn.bitfield[0]
  {
    var frame := PeerMessage(1, BITFIELD, []);
    WireDecodes(frame, []);
    assert Wire(frame) + [] == Wire(frame);
  }
}
