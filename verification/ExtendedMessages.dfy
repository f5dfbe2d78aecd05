/** Reading the next message of an extension (BEP 10) from a peer's stream, past everything else. */
module ExtendedMessages {
  import opened Bytes
  import opened PeerWire

  const MAX_FRAMES: nat := 4096

  /** What a read yields: the message's text, and the rest of the stream. */
  datatype Message = Message(text: string, rest: bytes)

  /**
    The next message of extension `id` within `tries` frames. The read fails when the stream ends or falls
    silent within a frame, and at a frame that is too long or has no extension id.
   */
  function NextExtended(stream: bytes, id: byte, tries: nat): (r: Option<Message>)
    ensures r.Some? ==> |r.value.rest| < |stream|
  {
    if tries == 0 then None else
    match FirstFrame(stream)
    case Frame(m, rest) =>
      if m.length == 0 || m.id != EXTENDED then NextExtended(rest, id, tries - 1)
      else if m.payload == [] then None
      else if m.payload[0] == id then Some(Message(Chars(m.payload[1..]), rest))
      else NextExtended(rest, id, tries - 1)
    case _ => None
  }

  /** Takes `count` bytes off a stream, if they arrive. */
  method RecvFull(stream: bytes, count: nat) returns (data: Option<bytes>, rest: bytes)
    ensures data.Some? <==> count <= |stream|
    ensures data.Some? ==> data.value == stream[..count] && rest == stream[count..]
  {
    if |stream| < count {
      return None, stream;
    }
    return Some(stream[..count]), stream[count..];
  }

  method ReadExtendedMessage(stream: bytes, id: byte) returns (r: Option<Message>)
    ensures r == NextExtended(stream, id, 4096)
  {
    var rest := stream;
    for i := 0 to MAX_FRAMES
      invariant NextExtended(rest, id, MAX_FRAMES - i) == NextExtended(stream, id, MAX_FRAMES)
    {
      var kind, text, next := ReadFrame(rest, id);
      match kind {
        case Broken =>
          return None;
        case Wanted =>
          return Some(Message(text, next));
        case Skipped =>
          rest := next;
      }
    }
    r := None;
  }

  datatype Kind = Broken | Wanted | Skipped

  /** What the first frame of a stream is to a reader of extension `id`. */
  function KindOf(stream: bytes, id: byte): Kind {
    match FirstFrame(stream)
    case Frame(m, _) =>
      if m.length == 0 || m.id != EXTENDED then Skipped
      else if m.payload == [] then Broken
      else if m.payload[0] == id then Wanted
      else Skipped
    case _ => Broken
  }

  method ReadFrame(stream: bytes, id: byte) returns (kind: Kind, text: string, rest: bytes)
    ensures kind == KindOf(stream, id)
    ensures !kind.Broken? ==> FirstFrame(stream).Frame? && rest == FirstFrame(stream).rest
    ensures kind.Wanted? ==> FirstFrame(stream).msg.payload != [] && text == Chars(FirstFrame(stream).msg.payload[1..])
  {
    kind, text, rest := Broken, "", stream;
    var head, s := RecvFull(stream, 4);
    if head.None? {
      return;
    }
    var length := BytesToInt(head.value);
    if length == 0 {
      return Skipped, "", s;
    }
    if length > MAX_PEER_MESSAGE_SIZE {
      return;
    }
    var body: Option<bytes>;
    body, s := RecvFull(s, length);
    if body.None? {
      return;
    }
    BodyParts(stream, length);
    if body.value[0] != EXTENDED {
      return Skipped, "", s;
    }
    if length == 1 {
      return;
    }
    return if body.value[1] == id then Wanted else Skipped, Chars(body.value[2..]), s;
  }

  lemma BodyParts(s: bytes, n: nat)
    requires 0 < n && 4 + n <= |s|
    ensures s[4..][..n] == [s[4]] + s[5..4 + n] && s[4..][n..] == s[4 + n..]
    ensures n > 1 ==> s[4..][..n][2..] == s[5..4 + n][1..]
  {
  }

  // ----- Streams of messages

  /** A message that a reader of extension `id` passes over. */
  predicate Unrelated(m: PeerMessage, id: byte) {
    WellFormed(m) && (m.length > 0 && m.id == 20 ==> m.payload != [] && m.payload[0] != id)
  }

  /** A message of extension `id` with this text. */
  predicate Carries(m: PeerMessage, id: byte, text: string) {
    && WellFormed(m) && m.length > 0 && m.id == 20
    && m.payload != [] && m.payload[0] == id && Chars(m.payload[1..]) == text
  }

  lemma FirstOf(ms: seq<PeerMessage>)
    requires ms != [] && WellFormed(ms[0])
    ensures FirstFrame(Wires(ms)) == Frame(ms[0], Wires(ms[1..]))
  {
    WireDecodes(ms[0], Wires(ms[1..]));
  }

  lemma NextNow(ms: seq<PeerMessage>, id: byte, text: string, tries: nat)
    requires ms != [] && tries > 0 && Carries(ms[0], id, text)
    ensures NextExtended(Wires(ms), id, tries) == Some(Message(text, Wires(ms[1..])))
  {
    FirstOf(ms);
  }

  lemma SkipOne(ms: seq<PeerMessage>, id: byte, tries: nat)
    requires ms != [] && Unrelated(ms[0], id) && tries > 0
    ensures NextExtended(Wires(ms), id, tries) == NextExtended(Wires(ms[1..]), id, tries - 1)
  {
    FirstOf(ms);
  }

  /** The search for extension `id`. */
  ghost function Search(id: byte): (seq<PeerMessage>, nat) -> Option<Message> {
    (rest: seq<PeerMessage>, tries: nat) => NextExtended(Wires(rest), id, tries)
  }

  /** A search that passes over an unrelated first message. */
  ghost predicate PassesOver(find: (seq<PeerMessage>, nat) -> Option<Message>,
      ms: seq<PeerMessage>, id: byte, tries: nat) {
    ms != [] && tries > 0 && Unrelated(ms[0], id) ==> find(ms, tries) == find(ms[1..], tries - 1)
  }

  lemma SearchPasses(id: byte)
    ensures forall rest: seq<PeerMessage>, t: nat :: PassesOver(Search(id), rest, id, t)
  {
    forall rest: seq<PeerMessage>, t: nat
      ensures PassesOver(Search(id), rest, id, t)
    {
      if rest != [] && t > 0 && Unrelated(rest[0], id) {
        SkipOne(rest, id, t);
      }
    }
  }

  lemma {:induction false} SkipMany(
    find: (seq<PeerMessage>, nat) -> Option<Message>, ms: seq<PeerMessage>, g: nat, id: byte, tries: nat)
    requires forall rest: seq<PeerMessage>, t: nat :: PassesOver(find, rest, id, t)
    requires g <= |ms| && g < tries && forall j | 0 <= j < g :: Unrelated(ms[j], id)
    ensures find(ms, tries) == find(ms[g..], tries - g)
    decreases g
  {
    if g == 0 {
      assert ms[0..] == ms;
    } else {
      SkipMany(find, ms, g - 1, id, tries);
      assert PassesOver(find, ms[g - 1..], id, tries - (g - 1));
      assert ms[g - 1..][0] == ms[g - 1] && ms[g - 1..][1..] == ms[g..];
    }
  }

  /** The reader goes on behind any number of unrelated messages, as long as it has tries. */
  lemma SkipTo(ms: seq<PeerMessage>, g: nat, id: byte, tries: nat)
    requires g <= |ms| && g < tries && forall j | 0 <= j < g :: Unrelated(ms[j], id)
    ensures NextExtended(Wires(ms), id, tries) == NextExtended(Wires(ms[g..]), id, tries - g)
  {
    SearchPasses(id);
    SkipMany(Search(id), ms, g, id, tries);
    Found(ms, id, tries);
    Found(ms[g..], id, tries - g);
  }

  lemma Found(ms: seq<PeerMessage>, id: byte, tries: nat)
    ensures Search(id)(ms, tries) == NextExtended(Wires(ms), id, tries)
  {
  }

  /** The reader finds a message of its extension behind fewer unrelated ones than it has tries. */
  lemma NextAfter(ms: seq<PeerMessage>, g: nat, id: byte, text: string, tries: nat)
    requires g < |ms| && g < tries && Carries(ms[g], id, text)
    requires forall j | 0 <= j < g :: Unrelated(ms[j], id)
    ensures NextExtended(Wires(ms), id, tries) == Some(Message(text, Wires(ms[g + 1..])))
  {
    SkipTo(ms, g, id, tries);
    NextNow(ms[g..], id, text, tries - g);
    assert ms[g..][1..] == ms[g + 1..];
  }

  /** A message that has no extension id ends the search. */
  lemma SearchEnds(ms: seq<PeerMessage>, g: nat, id: byte, tries: nat)
    requires g < |ms| && forall j | 0 <= j < g :: Unrelated(ms[j], id)
    requires WellFormed(ms[g]) && ms[g].length == 1 && ms[g].id == 20 && ms[g].payload == []
    ensures NextExtended(Wires(ms), id, tries) == None
  {
    if g < tries {
      SkipTo(ms, g, id, tries);
      FirstOf(ms[g..]);
    } else {
      NothingWithin(ms, id, tries);
    }
  }

  /** With nothing but unrelated messages within its tries the reader gives up. */
  lemma {:induction false} NothingWithin(ms: seq<PeerMessage>, id: byte, tries: nat)
    requires tries <= |ms| && forall j | 0 <= j < tries :: Unrelated(ms[j], id)
    ensures NextExtended(Wires(ms), id, tries) == None
    decreases tries
  {
    if tries > 0 {
      SkipOne(ms, id, tries);
      NothingWithin(ms[1..], id, tries - 1);
    }
  }

  /** With nothing but unrelated messages the reader gives up. */
  lemma {:induction false} NothingFound(ms: seq<PeerMessage>, id: byte, tries: nat)
    requires forall j | 0 <= j < |ms| :: Unrelated(ms[j], id)
    ensures NextExtended(Wires(ms), id, tries) == None
    decreases tries
  {
    if ms == [] || tries == 0 {
      assert FirstFrame([]).Partial? && (ms == [] ==> Wires(ms) == []);
    } else {
      SkipOne(ms, id, tries);
      NothingFound(ms[1..], id, tries - 1);
    }
  }
}
