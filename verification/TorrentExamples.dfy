/** Two torrent files that load, and whose info dictionaries are not hashed as the files have them. */
module TorrentExamples {
  import opened Bytes
  import opened Bencode
  import opened BencodeLaws
  import opened InfoDict
  import opened TorrentFiles

  /** The info dictionary of both files: no content, in no pieces. */
  function InfoEntries(): seq<Entry> {
    [Entry("length", Int(0)), Entry("name", Str("n")), Entry("piece length", Int(1)), Entry("pieces", Str(""))]
  }

  const INFO: Value := Dict(InfoEntries())
  const TORRENT := Torrents.TorrentInfo("n", 1, [], 0, [])

  lemma {:induction false} LessAfterCommon(common: string, a: string, b: string)
    requires Less(a, b)
    ensures Less(common + a, common + b)
  {
    if common == "" {
      assert common + a == a && common + b == b;
    } else {
      assert (common + a)[1..] == common[1..] + a && (common + b)[1..] == common[1..] + b;
      LessAfterCommon(common[1..], a, b);
    }
  }

  lemma PieceKeysInOrder()
    ensures Less("piece length", "pieces")
  {
    LessAfterCommon("piece", " length", "s");
    assert "piece" + " length" == "piece length" && "piece" + "s" == "pieces";
  }

  lemma InfoIsValid()
    ensures Valid(INFO) && Valid(Int(0)) && ValidEntries(InfoEntries()[1..])
    ensures [InfoEntries()[0]] + InfoEntries()[1..] == InfoEntries()
  {
    InfoIsSorted();
    var e := InfoEntries();
    OneMoreValid(e[3], []);
    OneMoreValid(e[2], [e[3]]);
    OneMoreValid(e[1], [e[2]] + [e[3]]);
    OneMoreValid(e[0], [e[1]] + ([e[2]] + [e[3]]));
    assert e[1..] == [e[1]] + ([e[2]] + [e[3]]);
  }

  lemma InfoIsSorted()
    ensures Sorted(InfoEntries())
  {
    PieceKeysInOrder();
    FirstLess("length", "name");
    FirstLess("name", "piece length");
    var e := InfoEntries();
    SortedFour(e[0], e[1], e[2], e[3]);
  }

  lemma SortedFour(a: Entry, b: Entry, c: Entry, d: Entry)
    requires Less(a.key, b.key) && Less(b.key, c.key) && Less(c.key, d.key)
    ensures Sorted([a, b, c, d])
  {
    LessTransitive(a.key, b.key, c.key);
    LessTransitive(b.key, c.key, d.key);
    LessTransitive(a.key, b.key, d.key);
  }

  lemma FirstLess(a: string, b: string)
    requires a != "" && b != "" && a[0] < b[0]
    ensures Less(a, b)
  {
  }

  lemma OneMoreValid(entry: Entry, rest: seq<Entry>)
    requires |entry.key| <= UINT64_MAX && Valid(entry.val) && ValidEntries(rest)
    ensures ValidEntries([entry] + rest) && [entry] + [] == [entry]
  {
    assert ([entry] + rest)[1..] == rest;
  }

  lemma InfoIsTorrent()
    ensures Describes(InfoEntries(), TORRENT) && Torrents.Valid(TORRENT) && HasMandatoryKeys(INFO)
  {
    var e := InfoEntries();
    LookupNext(e, "name");
    LookupNext(e, "piece length");
    LookupNext(e[1..], "piece length");
    LookupNext(e, "pieces");
    LookupNext(e[1..], "pieces");
    LookupNext(e[2..], "pieces");
    LookupNext(e, "files");
    LookupNext(e[1..], "files");
    LookupNext(e[2..], "files");
    LookupNext(e[3..], "files");
    assert e[4..] == [];
  }

  lemma LookupNext(entries: seq<Entry>, key: string)
    requires entries != []
    ensures Lookup(entries, key)
         == if entries[0].key == key then Some(entries[0].val) else Lookup(entries[1..], key)
    ensures forall i | 0 <= i < |entries| :: entries[i..][1..] == entries[i + 1..]
  {
  }

  // ----- Files with one entry before the info dictionary

  function File(key: string, text: string, infoText: string): string {
    "d" + (EncodeString(key) + text) + (KEY + infoText) + "e"
  }

  function Then(text: string, rest: string): string {
    text + rest
  }

  /** The text stands for the value wherever it occurs. */
  ghost predicate Writes(text: string, val: Value) {
    forall rest: string {:trigger Then(text, rest)} :: Parse(Then(text, rest)) == Ok(val, |text|)
  }

  lemma Join3(a: string, b: string, c: string)
    ensures a + b + c == a + (b + c)
  {
  }

  /** One entry at a position of the file. */
  lemma EntryAt(content: string, at: nat, key: string, text: string, val: Value, rest: string)
    requires |key| <= UINT64_MAX && Writes(text, val)
    requires at <= |content| && content[at..] == EncodeString(key) + text + rest
    ensures at < |content| && content[at] != 'e'
    ensures var n := |EncodeString(key) + text|;
            && ParseEntry(content[at..]) == Ok(Entry(key, val), n)
            && at + n <= |content| && content[at + n..] == rest
            && Parse(content[at..]).Ok? && Parse(content[at..]).used == |EncodeString(key)|
  {
    assert Then(text, rest) == text + rest;
    ParseKeyAndText(key, text, val, rest);
    ParseEncodedString(key, text + rest);
    Join3(EncodeString(key), text, rest);
    assert content[at..][|EncodeString(key) + text|..] == rest;
  }

  /** What a walk yields, read off the walk after one more entry. */
  lemma NextBack(content: string, key: string, w: Walk, entries: seq<Entry>, m: nat)
    requires Going(content, w)
    requires var w' := Next(content, key, w); ParseEntries(content[w'.at..], w'.acc) == Ok(entries, m)
    ensures var w' := Next(content, key, w);
            && ParseEntries(content[w.at..], w.acc) == Ok(entries, m + (w'.at - w.at))
            && ValuePlace(content, key, w.at, w.found) == ValuePlace(content, key, w'.at, w'.found)
  {
    NextParsed(content, key, w, entries, m);
    NextPlace(content, key, w);
  }

  lemma NextPlace(content: string, key: string, w: Walk)
    requires Going(content, w)
    ensures var w' := Next(content, key, w);
            ValuePlace(content, key, w.at, w.found) == ValuePlace(content, key, w'.at, w'.found)
  {
  }

  lemma NextParsed(content: string, key: string, w: Walk, entries: seq<Entry>, m: nat)
    requires Going(content, w)
    requires var w' := Next(content, key, w); ParseEntries(content[w'.at..], w'.acc) == Ok(entries, m)
    ensures var w' := Next(content, key, w); ParseEntries(content[w.at..], w.acc) == Ok(entries, m + (w'.at - w.at))
  {
    var Ok(_, n) := ParseEntry(content[w.at..]);
    assert content[w.at..][n..] == content[w.at + n..];
  }

  lemma WalkOver(content: string, key: string, w: Walk)
    requires w.at < |content| && content[w.at] == 'e'
    ensures ParseEntries(content[w.at..], w.acc) == Ok(w.acc, 1) && ValuePlace(content, key, w.at, w.found) == w.found
  {
  }

  /** One more entry of a walk, under a key beyond those before it. */
  lemma EntryStep(content: string, w: Walk, key: string, text: string, val: Value, rest: string)
    requires |key| <= UINT64_MAX && Writes(text, val)
    requires w.at <= |content| && content[w.at..] == EncodeString(key) + text + rest
    requires forall i | 0 <= i < |w.acc| :: Less(w.acc[i].key, key)
    ensures Going(content, w) && w.at + |EncodeString(key) + text| <= |content|
    ensures Next(content, "info", w) == Walk(w.at + |EncodeString(key) + text|, w.acc + [Entry(key, val)],
                                             if key == "info" then Some(w.at + |EncodeString(key)|) else w.found)
    ensures content[w.at + |EncodeString(key) + text|..] == rest
  {
    EntryAt(content, w.at, key, text, val, rest);
    InsertLast(w.acc, key, val);
  }

  /** The walk over the two entries of a file. */
  lemma TwoEntries(content: string, key: string, text: string, val: Value, infoText: string,
      info: Value, w1: Walk, w2: Walk)
    requires |key| <= UINT64_MAX && Less(key, "info") && Writes(text, val) && Writes(infoText, info)
    requires 1 <= |content| && content[1..] == EncodeString(key) + text + (KEY + infoText + "e")
    requires w1 == Walk(1 + |EncodeString(key) + text|, [Entry(key, val)], None)
    requires w2 == Walk(w1.at + |KEY + infoText|, [Entry(key, val), Entry("info", info)], Some(w1.at + |KEY|))
    ensures ParseEntries(content[1..], []) == Ok(w2.acc, |content| - 1)
    ensures ValuePlace(content, "info", 1, None) == w2.found
    ensures w1.at + |KEY| <= |content| && content[w1.at + |KEY|..] == infoText + "e"
  {
    TwoSteps(content, key, text, val, infoText, info, w1, w2);
    TwoBack(content, w1, w2);
    BehindKey(content, w1.at, infoText);
  }

  lemma TwoSteps(content: string, key: string, text: string, val: Value, infoText: string,
      info: Value, w1: Walk, w2: Walk)
    requires |key| <= UINT64_MAX && Less(key, "info") && Writes(text, val) && Writes(infoText, info)
    requires 1 <= |content| && content[1..] == EncodeString(key) + text + (KEY + infoText + "e")
    requires w1 == Walk(1 + |EncodeString(key) + text|, [Entry(key, val)], None)
    requires w2 == Walk(w1.at + |KEY + infoText|, [Entry(key, val), Entry("info", info)], Some(w1.at + |KEY|))
    ensures Going(content, Walk(1, [], None)) && Next(content, "info", Walk(1, [], None)) == w1
    ensures Going(content, w1) && Next(content, "info", w1) == w2
    ensures content[w1.at..] == KEY + infoText + "e" && content[w2.at..] == "e"
  {
    LessTotal(key, "info");
    EntryStep(content, Walk(1, [], None), key, text, val, KEY + infoText + "e");
    assert [] + [Entry(key, val)] == [Entry(key, val)];
    SecondStep(content, key, val, infoText, info, w1);
  }

  lemma SecondStep(content: string, key: string, val: Value, infoText: string, info: Value, w1: Walk)
    requires Less(key, "info") && Writes(infoText, info) && w1.acc == [Entry(key, val)]
    requires w1.at <= |content| && content[w1.at..] == KEY + infoText + "e"
    ensures Going(content, w1) && w1.at + |KEY + infoText| <= |content|
    ensures Next(content, "info", w1) == Walk(w1.at + |KEY + infoText|, [Entry(key, val), Entry("info", info)],
                                              Some(w1.at + |KEY|))
    ensures content[w1.at + |KEY + infoText|..] == "e"
  {
    InfoKey();
    EntryStep(content, w1, "info", infoText, info, "e");
  }

  lemma TwoBack(content: string, w1: Walk, w2: Walk)
    requires Going(content, Walk(1, [], None)) && Next(content, "info", Walk(1, [], None)) == w1
    requires Going(content, w1) && Next(content, "info", w1) == w2
    requires content[w2.at..] == "e"
    ensures ParseEntries(content[1..], []) == Ok(w2.acc, |content| - 1)
    ensures ValuePlace(content, "info", 1, None) == w2.found
  {
    WalkOver(content, "info", w2);
    NextBack(content, "info", w1, w2.acc, 1);
    NextBack(content, "info", Walk(1, [], None), w2.acc, 1 + (w2.at - w1.at));
    assert |content| == w2.at + |content[w2.at..]|;
  }

  lemma BehindKey(content: string, at: nat, infoText: string)
    requires at <= |content| && content[at..] == KEY + infoText + "e"
    ensures at + |KEY| <= |content| && content[at + |KEY|..] == infoText + "e"
    ensures |content| == at + |KEY + infoText| + 1
  {
    assert content[at..][|KEY|..] == infoText + "e";
  }

  lemma FileParts(key: string, text: string, infoText: string)
    ensures var content := File(key, text, infoText);
            content[0] == 'd' && content[1..] == EncodeString(key) + text + (KEY + infoText + "e")
  {
    Join3(EncodeString(key) + text, KEY + infoText, "e");
  }

  lemma FileParses(key: string, text: string, val: Value, infoText: string, info: Value)
    requires |key| <= UINT64_MAX && Less(key, "info") && Writes(text, val) && Writes(infoText, info)
    ensures var content, v := File(key, text, infoText), 1 + |EncodeString(key) + text| + |KEY|;
            && Parse(content) == Ok(Dict([Entry(key, val), Entry("info", info)]), |content|)
            && InfoPlace(content) == Some(v) && v <= |content| && content[v..] == infoText + "e"
  {
    var content := File(key, text, infoText);
    FileParts(key, text, infoText);
    var w1 := Walk(1 + |EncodeString(key) + text|, [Entry(key, val)], None);
    var w2 := Walk(w1.at + |KEY + infoText|, [Entry(key, val), Entry("info", info)], Some(w1.at + |KEY|));
    TwoEntries(content, key, text, val, infoText, info, w1, w2);
    RootOf(content, w2.acc);
  }

  lemma RootOf(content: string, entries: seq<Entry>)
    requires content != "" && content[0] == 'd' && ParseEntries(content[1..], []) == Ok(entries, |content| - 1)
    ensures Parse(content) == Ok(Dict(entries), |content|) && InfoPlace(content) == ValuePlace(content, "info", 1, None)
  {
  }

  lemma SecondEntry(key: string, val: Value, info: Value)
    requires Less(key, "info")
    ensures Lookup([Entry(key, val), Entry("info", info)], "info") == Some(info)
  {
    LessTotal("info", "info");
    assert Lookup([Entry("info", info)], "info") == Some(info);
  }

  /** A file of this kind loads, and shows `infoText` as its info dictionary. */
  lemma FileLoads(key: string, text: string, val: Value, infoText: string)
    requires |key| <= UINT64_MAX && Less(key, "info") && Writes(text, val) && Writes(infoText, INFO)
    ensures Accepts(File(key, text, infoText), TORRENT)
    ensures InfoOf(File(key, text, infoText)) == Good(INFO) && OriginalInfo(File(key, text, infoText)) == infoText
  {
    FileParses(key, text, val, infoText, INFO);
    SecondEntry(key, val, INFO);
    InfoLoads(File(key, text, infoText), [Entry(key, val), Entry("info", INFO)]);
    ShownInfo(File(key, text, infoText), infoText);
  }

  lemma InfoLoads(content: string, entries: seq<Entry>)
    requires Parse(content) == Ok(Dict(entries), |content|) && Lookup(entries, "info") == Some(INFO)
    ensures InfoOf(content) == Good(INFO) && Accepts(content, TORRENT)
  {
    InfoIsTorrent();
    assert InfoOf(content) == Good(INFO);
  }

  lemma ShownInfo(content: string, infoText: string)
    requires InfoOf(content).Good? && Writes(infoText, INFO)
    requires InfoPlace(content).Some? && InfoPlace(content).value <= |content|
    requires content[InfoPlace(content).value..] == infoText + "e"
    ensures OriginalInfo(content) == infoText
  {
    assert Then(infoText, "e") == infoText + "e";
    assert (infoText + "e")[..|infoText|] == infoText;
  }

  // ----- The key after a string is missed

  /** The info dictionary with the length 0 written as 00. */
  function LooseInfo(): string {
    "d" + (EncodeString("length") + "i00e") + (EncodeEntries(InfoEntries()[1..]) + "e")
  }

  lemma LooseNumber()
    ensures Writes("i00e", Int(0))
  {
    forall rest: string
      ensures Parse(Then("i00e", rest)) == Ok(Int(0), 4)
    {
      FindAfter("i00", 'e', rest, 1);
      assert "i00" + ['e'] + rest == "i00e" + rest && ("i00e" + rest)[1..3] == "00";
      assert ReadNat("00", 0) == 0 by {
        assert "00"[1..] == "0" && "0"[1..] == "";
      }
    }
  }

  lemma LooseWrites()
    ensures Writes(LooseInfo(), INFO)
  {
    forall rest: string
      ensures Parse(Then(LooseInfo(), rest)) == Ok(INFO, |LooseInfo()|)
    {
      LooseParses(rest);
    }
  }

  lemma LooseParses(t: string)
    ensures Parse(LooseInfo() + t) == Ok(INFO, |LooseInfo()|)
  {
    var e := InfoEntries();
    LooseHead(EncodeEntries(e[1..]) + "e" + t);
    InfoIsValid();
    HeadThenEncoded(EncodeString("length") + "i00e", e[0], e[1..], t);
  }

  /** A dictionary whose first entry is written as `head`, and the others as they should be. */
  lemma HeadThenEncoded(head: string, first: Entry, others: seq<Entry>, t: string)
    requires ValidEntries(others) && Sorted([first] + others)
    requires ParseEntries(head + (EncodeEntries(others) + "e" + t), [])
          == Shift(ParseEntries(EncodeEntries(others) + "e" + t, [first]), |head|)
    ensures var text := "d" + head + (EncodeEntries(others) + "e");
            Parse(text + t) == Ok(Dict([first] + others), |text|)
  {
    ParseEncodedEntries(others, [first], t);
    LooseOpens(head, EncodeEntries(others), t);
  }

  lemma LooseHead(tail: string)
    ensures var head := EncodeString("length") + "i00e";
            ParseEntries(head + tail, []) == Shift(ParseEntries(tail, [InfoEntries()[0]]), |head|)
  {
    LooseNumber();
    assert Then("i00e", tail) == "i00e" + tail;
    ParseKeyAndText("length", "i00e", Int(0), tail);
    EntriesCons(EncodeString("length") + "i00e", tail, [], InfoEntries()[0]);
    assert Insert([], "length", Int(0)) == [InfoEntries()[0]];
  }

  lemma LooseOpens(head: string, tail: string, t: string)
    ensures var s := "d" + head + (tail + "e") + t;
            s[0] == 'd' && s[1..] == head + (tail + "e" + t) && |s| == 1 + |head| + |tail| + 1 + |t|
  {
  }

  /** Where the key stands there is an `f`. */
  lemma OccursAtF(content: string, j: nat)
    requires Occurs(content, j)
    ensures content[j + 4] == 'f'
  {
    assert content[j + 4] == content[j..j + |KEY|][4];
  }

  lemma NoF(key: string)
    requires 'f' !in key
    ensures 'f' !in EncodeString(key)
  {
    assert !IsDigit('f');
  }

  lemma NoFInLoose()
    ensures 'f' !in LooseInfo()
  {
    var e := InfoEntries();
    NoF("length");
    NoF("name");
    NoF("n");
    NoF("piece length");
    NoF("pieces");
    NoF("");
    assert Dec(1) == "1";
    assert 'f' !in EncodeEntries(e[3..]);
    assert 'f' !in EncodeEntries(e[2..]);
    assert 'f' !in EncodeEntries(e[1..]);
  }

  /** A file in which the info key follows the string `x`. */
  function MissedFile(): string {
    File("a", EncodeString("x"), LooseInfo())
  }

  lemma StringWrites(s: string)
    requires |s| <= UINT64_MAX
    ensures Writes(EncodeString(s), Str(s))
  {
    forall rest: string
      ensures Parse(Then(EncodeString(s), rest)) == Ok(Str(s), |EncodeString(s)|)
    {
      ParseEncodedString(s, rest);
    }
  }

  lemma MissedText()
    ensures MissedFile() == "d1:a1:x4:in" + "f" + ("o" + LooseInfo() + "e")
  {
    assert Dec(1) == "1";
    assert EncodeString("a") == "1:a" && EncodeString("x") == "1:x";
    MissedParts("1:a", "1:x", LooseInfo());
  }

  lemma MissedParts(a: string, x: string, info: string)
    ensures "d" + (a + x) + (KEY + info) + "e" == ("d" + a + x + "4:in") + "f" + ("o" + info + "e")
  {
    assert KEY == "4:in" + "f" + "o";
  }

  lemma NothingAccepted()
    ensures forall j: nat :: !Candidate(MissedFile(), j)
  {
    var content, before, after := MissedFile(), "d1:a1:x4:in", "o" + LooseInfo() + "e";
    MissedText();
    NoFInLoose();
    forall j: nat | Occurs(content, j)
      ensures !AtKeyPosition(content, j)
    {
      OccursAtF(content, j);
      OnlyF(before, after, j + 4);
      assert content[6] == before[6] == 'x';
    }
  }

  lemma OnlyF(before: string, after: string, i: nat)
    requires 'f' !in before && 'f' !in after && i < |before + "f" + after| && (before + "f" + after)[i] == 'f'
    ensures i == |before|
  {
    assert forall k | 0 <= k < |before| :: before[k] != 'f';
  }

  /**
    The file loads, and its info key follows the string `x`, so the key is passed over and the dictionary is
    re-encoded, with the number 00 written as 0: the bytes are not the original ones.
   */
  lemma MissedInfoDict(r: string)
    requires IsExtract(MissedFile(), INFO, r)
    ensures Accepts(MissedFile(), TORRENT) && InfoOf(MissedFile()) == Good(INFO)
    ensures r == Encode(INFO) != OriginalInfo(MissedFile())
  {
    assert Less("a", "info");
    StringWrites("x");
    LooseWrites();
    FileLoads("a", EncodeString("x"), Str("x"), LooseInfo());
    NothingAccepted();
    assert forall j: nat :: !FirstCandidate(MissedFile(), j);
    LooseIsLonger();
  }

  lemma LooseIsLonger()
    ensures |Encode(INFO)| < |LooseInfo()|
  {
    assert DecInt(0) == "0";
    assert InfoEntries()[0].val == Int(0);
  }

  // ----- Text that looks like the key

  /** A comment that shows the key and the dictionary `d`. */
  function Comment(d: Value): string {
    "e" + (KEY + Encode(d))
  }

  /** A canonical file with such a comment before its info dictionary. */
  function DecoyFile(d: Value): string {
    File("comment", EncodeString(Comment(d)), Encode(INFO))
  }

  lemma EncodingWrites(v: Value)
    requires Valid(v)
    ensures Writes(Encode(v), v)
  {
    forall rest: string
      ensures Parse(Then(Encode(v), rest)) == Ok(v, |Encode(v)|)
    {
      ParseEncoded(v, rest);
    }
  }

  lemma DecoyText(d: Value) returns (before: string, rest: string)
    ensures DecoyFile(d) == before + "e" + (KEY + (Encode(d) + rest)) && 'f' !in before
  {
    var c := Comment(d);
    before := "d" + EncodeString("comment") + (Dec(|c|) + ":");
    rest := KEY + Encode(INFO) + "e";
    NoF("comment");
    assert !IsDigit('f');
    DecoyParts(EncodeString("comment"), Dec(|c|) + ":", Encode(d), KEY + Encode(INFO));
  }

  lemma DecoyParts(name: string, length: string, d: string, info: string)
    ensures "d" + (name + (length + ("e" + (KEY + d)))) + info + "e"
         == "d" + name + length + "e" + (KEY + (d + (info + "e")))
  {
  }

  /** The key in the comment is the first acceptable one. */
  lemma DecoyFirst(content: string, before: string, d: Value, rest: string, info: Value, r: string)
    requires IsExtract(content, info, r)
    requires content == before + "e" + (KEY + (Encode(d) + rest)) && 'f' !in before
    requires Valid(d) && HasMandatoryKeys(d)
    ensures r == Encode(d)
  {
    DecoyAccepted(content, before, d, rest);
    NothingBefore(content, before, Encode(d) + rest);
    FirstDecides(content, info, |before| + 1, r);
  }

  lemma DecoyAccepted(content: string, before: string, d: Value, rest: string)
    requires content == before + "e" + (KEY + (Encode(d) + rest))
    requires Valid(d) && HasMandatoryKeys(d)
    ensures Candidate(content, |before| + 1) && Span(content, |before| + 1) == Encode(d)
  {
    KeyBetween(before + "e", Encode(d) + rest);
    ParseEncoded(d, rest);
    assert (Encode(d) + rest)[..|Encode(d)|] == Encode(d);
    assert content[|before|] == 'e';
  }

  lemma NothingBefore(content: string, before: string, rest: string)
    requires content == before + "e" + (KEY + rest) && 'f' !in before
    ensures forall j: nat | j <= |before| :: !Candidate(content, j)
  {
    KeyBetween(before + "e", rest);
    var k := |before| + 1;
    assert forall i | k <= i < k + 4 :: content[i] == content[k..k + |KEY|][i - k] == KEY[i - k];
    assert forall i | 0 <= i < |before| :: content[i] == before[i];
    forall j: nat | j <= |before|
      ensures !Candidate(content, j)
    {
      if Occurs(content, j) {
        OccursAtF(content, j);
      }
    }
  }

  /**
    The file is canonical and loads, but the dictionary in the comment is returned in place of its info
    dictionary, whatever dictionary with the mandatory keys the comment shows.
   */
  lemma CommentTakenForInfo(d: Value, r: string)
    requires Valid(d) && HasMandatoryKeys(d) && |Comment(d)| <= UINT64_MAX
    requires IsExtract(DecoyFile(d), INFO, r)
    ensures Accepts(DecoyFile(d), TORRENT) && InfoOf(DecoyFile(d)) == Good(INFO)
    ensures OriginalInfo(DecoyFile(d)) == Encode(INFO)
    ensures r == Encode(d) && (r == Encode(INFO) <==> d == INFO)
  {
    DecoyLoads(d);
    var before, rest := DecoyText(d);
    DecoyFirst(DecoyFile(d), before, d, rest, INFO, r);
    EncodingsDiffer(d);
  }

  lemma EncodingsDiffer(d: Value)
    requires Valid(d)
    ensures Encode(d) == Encode(INFO) <==> d == INFO
  {
    InfoIsEncodable();
    if Encode(d) == Encode(INFO) {
      EncodePrefixFree(d, INFO);
    }
  }

  lemma DecoyLoads(d: Value)
    requires |Comment(d)| <= UINT64_MAX
    ensures Accepts(DecoyFile(d), TORRENT) && InfoOf(DecoyFile(d)) == Good(INFO)
    ensures OriginalInfo(DecoyFile(d)) == Encode(INFO)
  {
    FirstLess("comment", "info");
    StringWrites(Comment(d));
    InfoIsEncodable();
    EncodingWrites(INFO);
    FileLoads("comment", EncodeString(Comment(d)), Str(Comment(d)), Encode(INFO));
  }

  lemma InfoIsEncodable()
    ensures Valid(INFO)
  {
    InfoIsValid();
  }
}
