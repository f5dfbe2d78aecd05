/** What goes wrong in fetching metadata: our handshake, and a conforming peer that is passed over. */
module MetadataExamples {
  import opened Bytes
  import opened Bencode
  import opened BencodeLaws
  import opened PeerWire
  import opened ExtendedMessages
  import opened Metadata

  /** The extension handshake that is sent. */
  const OUR_HANDSHAKE := "d1:md2:ut_metadatai1ee"

  /** The length before `ut_metadata` is wrong, so the handshake does not parse. */
  lemma OurHandshakeIsMalformed()
    ensures Parse(OUR_HANDSHAKE).Err?
  {
    assert Parse("_metadatai1ee").Err?;
    EntryFails("ut", "_metadatai1ee");
    DictFails(EncodeString("ut") + "_metadatai1ee");
    EntryFails("m", "d" + (EncodeString("ut") + "_metadatai1ee"));
    DictFails(EncodeString("m") + ("d" + (EncodeString("ut") + "_metadatai1ee")));
    OurText();
  }

  lemma EntryFails(key: string, bad: string)
    requires |key| <= UINT64_MAX && Parse(bad).Err?
    ensures ParseEntries(EncodeString(key) + bad, []).Err?
  {
    ParseEncodedString(key, bad);
    assert (EncodeString(key) + bad)[|EncodeString(key)|..] == bad;
    assert Dec(|key|)[0] in Dec(|key|);
  }

  lemma DictFails(s: string)
    requires ParseEntries(s, []).Err?
    ensures Parse("d" + s).Err?
  {
    assert ("d" + s)[1..] == s;
  }

  lemma OurText()
    ensures "d" + (EncodeString("m") + ("d" + (EncodeString("ut") + "_metadatai1ee"))) == OUR_HANDSHAKE
  {
    ShortKeys();
    assert "d" + ("1:m" + "d") == "d1:md";
    FourParts("d", "1:m", "d", "2:ut_metadatai1ee");
  }

  lemma ShortKeys()
    ensures EncodeString("m") == "1:m" && EncodeString("ut") + "_metadatai1ee" == "2:ut_metadatai1ee"
  {
    assert Dec(1) == "1" && Dec(2) == "2";
    assert EncodeString("ut") == "2:ut";
  }

  lemma FourParts(a: string, b: string, c: string, d: string)
    ensures a + (b + (c + d)) == a + (b + c) + d
  {
  }

  // ----- A peer that follows BEP 10

  /** The id that we announce, under which a conforming peer sends its `ut_metadata` messages. */
  const OUR_ID: byte := 1

  /** The peer takes `ut_metadata` messages under `id`. */
  function Handshake(id: byte, size: nat): Value {
    Dict([Entry("m", Dict([Entry("ut_metadata", Int(id))])), Entry("metadata_size", Int(size))])
  }

  const REPLY: Value := Dict([Entry("msg_type", Int(MSG_DATA))])

  function ExtendedMessage(id: byte, text: string): PeerMessage
    requires |text| < 0x1_0000
  {
    PeerMessage(|text| + 2, EXTENDED, [id] + Octets(text))
  }

  lemma ExtendedCarries(id: byte, text: string)
    requires |text| < 0x1_0000 && AllOctets(text)
    ensures Carries(ExtendedMessage(id, text), id, text)
    ensures forall other: byte :: other != id ==> Unrelated(ExtendedMessage(id, text), other)
  {
    CharsOctets(text);
    assert ExtendedMessage(id, text).payload[1..] == Octets(text);
  }

  lemma EntryOctets(key: string, text: string, rest: string)
    requires AllOctets(key) && AllOctets(text) && AllOctets(rest)
    ensures AllOctets(EncodeString(key) + text + rest)
  {
    assert forall c | c in Dec(|key|) :: IsDigit(c);
  }

  lemma NumberOctets(n: int)
    ensures AllOctets(Encode(Int(n)))
  {
    assert forall c | c in DecInt(n) :: IsDigit(c) || c == '-';
  }

  lemma DictOctets(entries: seq<Entry>)
    requires AllOctets(EncodeEntries(entries))
    ensures AllOctets(Encode(Dict(entries)))
  {
  }

  lemma OneEntryOctets(key: string, val: Value, rest: seq<Entry>)
    requires AllOctets(key) && AllOctets(Encode(val)) && AllOctets(EncodeEntries(rest))
    ensures AllOctets(EncodeEntries([Entry(key, val)] + rest))
  {
    EntryOctets(key, Encode(val), EncodeEntries(rest));
    assert ([Entry(key, val)] + rest)[1..] == rest;
  }

  lemma TextsAreOctets(id: byte, size: nat)
    ensures AllOctets(Encode(Handshake(id, size))) && AllOctets(Encode(REPLY))
  {
    ReplyOctets();
    HandshakeOctets(id, size);
  }

  lemma HandshakeOctets(id: byte, size: nat)
    ensures AllOctets(Encode(Handshake(id, size)))
  {
    var inner, tail := [Entry("ut_metadata", Int(id))], [Entry("metadata_size", Int(size))];
    NumberEntryOctets("ut_metadata", id);
    NumberEntryOctets("metadata_size", size);
    DictOctets(inner);
    OneEntryOctets("m", Dict(inner), tail);
    DictOctets([Entry("m", Dict(inner))] + tail);
    assert Handshake(id, size).entries == [Entry("m", Dict(inner))] + tail;
  }

  lemma ReplyOctets()
    ensures AllOctets(Encode(REPLY))
  {
    NumberEntryOctets("msg_type", MSG_DATA);
    DictOctets(REPLY.entries);
  }

  lemma NumberEntryOctets(key: string, n: int)
    requires AllOctets(key)
    ensures AllOctets(EncodeEntries([Entry(key, Int(n))]))
  {
    NumberOctets(n);
    OneEntryOctets(key, Int(n), []);
    assert [Entry(key, Int(n))] + [] == [Entry(key, Int(n))];
  }

  lemma {:induction false} DecLength(n: nat)
    ensures |Dec(n)| <= n + 1
  {
    if n >= 10 {
      DecLength(n / 10);
    }
  }

  lemma TextsAreShort(id: byte, size: nat)
    requires size <= PIECE_SIZE
    ensures |Encode(Handshake(id, size))| < 0x1_0000 && |Encode(REPLY)| + size < 0x1_0000
  {
    DecLength(size);
    DecLength(id);
    DecLength(MSG_DATA);
    DecLength(|"m"|);
    DecLength(|"ut_metadata"|);
    DecLength(|"metadata_size"|);
    DecLength(|"msg_type"|);
    var e := Handshake(id, size).entries;
    assert |EncodeEntries([Entry("ut_metadata", Int(id))])| < 400;
    assert |EncodeEntries(e[1..])| < 100 + size;
    assert |EncodeEntries(e)| < 700 + size;
    assert |EncodeEntries(REPLY.entries)| < 100;
  }

  /** Everything the peer sends, for metadata `m` of one piece: its handshake, and its answer to the one request. */
  function Messages(m: string, id: byte): seq<PeerMessage>
    requires 0 < |m| <= PIECE_SIZE
  {
    TextsAreShort(id, |m|);
    [ExtendedMessage(HANDSHAKE_ID, Encode(Handshake(id, |m|))), ExtendedMessage(OUR_ID, Encode(REPLY) + m)]
  }

  /** A peer that follows BEP 10 and takes `ut_metadata` messages under `id`. */
  function Conforming(m: string, id: byte): PeerScript
    requires 0 < |m| <= PIECE_SIZE
  {
    PeerScript(true, Wires(Messages(m, id)), 2)
  }

  lemma HandshakeAnnounces(id: byte, size: nat)
    requires 0 < size <= PIECE_SIZE && id != HANDSHAKE_ID
    ensures Valid(Handshake(id, size)) && Valid(REPLY)
    ensures AnnouncesSize(Encode(Handshake(id, size)), size) && AskedId(Encode(Handshake(id, size))) == id
  {
    var e := Handshake(id, size).entries;
    assert Less("m", "metadata_size") by {
      assert "metadata_size"[1..] != "" && "m"[1..] == "";
    }
    assert e[0].val.entries[1..] == [] && e[1..][1..] == [] && REPLY.entries[1..] == [];
    assert Valid(e[0].val) && Valid(e[1].val) && ValidEntries(e[1..]);
    ParseEncoded(Handshake(id, size), "");
    assert Encode(Handshake(id, size)) + "" == Encode(Handshake(id, size));
    assert Lookup(e, "m") == Some(e[0].val) && Lookup(e[1..], "metadata_size") == Some(Int(size));
  }

  /** The answer is the one that the request calls for. */
  lemma AnswerCarriesChunk(m: string)
    requires 0 < |m| <= PIECE_SIZE
    ensures IsChunkReply(m, 0, Encode(REPLY) + m)
  {
    HandshakeAnnounces(OUR_ID, |m|);
    assert Chunk(m, 0) == m;
    assert GetInt(REPLY.entries, "msg_type") == Some(MSG_DATA);
  }

  /**
    For any metadata of one piece: the peer is honest and answers under the id that we announce, as BEP 10 asks;
    the reader looks for the id that the peer announced, and passes the answer over if that is another one.
   */
  lemma ConformingPeerIsPassedOver(m: string, id: byte, sha1: string -> string)
    requires 0 < |m| <= PIECE_SIZE && AllOctets(m) && id != HANDSHAKE_ID
    ensures HonestPeer(m, OUR_ID, id, Conforming(m, id))
    ensures PassedOver(sha1(m), sha1, Conforming(m, id)) <==> id != OUR_ID
  {
    ConformingIsHonest(m, id);
    forall m', answered, asked | HonestPeer(m', answered, asked, Conforming(m, id)) && sha1(m') == sha1(m)
      ensures answered != asked ==> id != OUR_ID
    {
      HonestAttempt(m, OUR_ID, id, Conforming(m, id), []);
      HonestAttempt(m', answered, asked, Conforming(m, id), []);
    }
  }

  lemma ConformingIsHonest(m: string, id: byte)
    requires 0 < |m| <= PIECE_SIZE && AllOctets(m) && id != HANDSHAKE_ID
    ensures HonestPeer(m, OUR_ID, id, Conforming(m, id))
  {
    var handshake, reply := Encode(Handshake(id, |m|)), Encode(REPLY) + m;
    TextsAreShort(id, |m|);
    TextsAreOctets(id, |m|);
    ExtendedCarries(HANDSHAKE_ID, handshake);
    ExtendedCarries(OUR_ID, reply);
    HandshakeAnnounces(id, |m|);
    AnswerCarriesChunk(m);
    TwoMessagesGive(m, id, Conforming(m, id), Messages(m, id), handshake, reply);
  }

  /** A handshake and one answer are all it takes for metadata of one piece. */
  lemma TwoMessagesGive(m: string, id: byte, peer: PeerScript, ms: seq<PeerMessage>, handshake: string, reply: string)
    requires 0 < |m| <= PIECE_SIZE && |ms| == 2 && peer == PeerScript(true, Wires(ms), 2)
    requires Carries(ms[0], HANDSHAKE_ID, handshake) && Carries(ms[1], OUR_ID, reply)
    requires id == OUR_ID || Unrelated(ms[1], id)
    requires AnnouncesSize(handshake, |m|) && AskedId(handshake) == id && IsChunkReply(m, 0, reply)
    ensures HonestPeer(m, OUR_ID, id, peer)
  {
    OneChunk(m, reply);
    OneAnswer(ms[1..], OUR_ID, reply);
    assert Answer(ms, HANDSHAKE_ID, 0, handshake) && ms[0 + 1..] == ms[1..];
    assert Gives(m, OUR_ID, peer, ms, 0, handshake, [reply]);
  }

  lemma OneChunk(m: string, reply: string)
    requires 0 < |m| <= PIECE_SIZE && IsChunkReply(m, 0, reply)
    ensures PieceCount(|m|) == 1 && AllChunks(m, [reply])
  {
  }

  lemma OneAnswer(ms: seq<PeerMessage>, id: byte, text: string)
    requires ms != [] && Carries(ms[0], id, text)
    ensures Answers(ms, id, [text])
  {
    assert [text][1..] == [] && [text][0] == text;
    assert Answer(ms, id, 0, text) && Answers(ms[0 + 1..], id, [text][1..]);
  }
}
