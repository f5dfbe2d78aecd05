/**
  Cutting the info dictionary out of a torrent file: its exact bytes are hashed to identify the
  torrent, so re-encoding a parsed dictionary is only a fallback.
 */
module InfoDict {
  import opened Bytes
  import opened Bencode
  import opened BencodeLaws

  const KEY := "4:info"

  predicate Occurs(content: string, k: nat) {
    k + |KEY| <= |content| && content[k..k + |KEY|] == KEY
  }

  /** The first occurrence of the key from `from` on. */
  method FindKey(content: string, from: nat) returns (k: Option<nat>)
    requires from <= |content|
    ensures k.None? ==> forall j: nat | from <= j :: !Occurs(content, j)
    ensures k.Some? ==>
        from <= k.value && Occurs(content, k.value) && forall j: nat | from <= j < k.value :: !Occurs(content, j)
  {
    var i := from;
    while i + |KEY| <= |content|
      invariant from <= i <= |content|
      invariant forall j: nat | from <= j < i :: !Occurs(content, j)
      decreases |content| - i
    {
      if content[i..i + |KEY|] == KEY {
        return Some(i);
      }
      i := i + 1;
    }
    k := None;
  }

  /** The key sits at the start, or right after a `d` or an `e`. */
  predicate AtKeyPosition(content: string, k: nat)
    requires k <= |content|
  {
    k == 0 || content[k - 1] == 'd' || content[k - 1] == 'e'
  }

  predicate HasMandatoryKeys(v: Value) {
    v.Dict? && Lookup(v.entries, "pieces").Some? && Lookup(v.entries, "piece length").Some?
  }

  /** What follows the key at `k` is accepted as the info dictionary. */
  predicate Candidate(content: string, k: nat) {
    && Occurs(content, k) && AtKeyPosition(content, k)
    && var r := Parse(content[k + |KEY|..]);
       r.Ok? && HasMandatoryKeys(r.value)
  }

  ghost predicate FirstCandidate(content: string, k: nat) {
    Candidate(content, k) && forall j: nat | j < k :: !Candidate(content, j)
  }

  function Span(content: string, k: nat): string
    requires Candidate(content, k)
  {
    content[k + |KEY|..][..Parse(content[k + |KEY|..]).used]
  }

  /** The result is the span after the first acceptable key, or the re-encoded dictionary when there is none. */
  ghost predicate IsExtract(content: string, parsedInfo: Value, r: string) {
    if exists k: nat :: FirstCandidate(content, k) then
      exists k: nat :: FirstCandidate(content, k) && r == Span(content, k)
    else
      r == Encode(parsedInfo)
  }

  /** Right behind an encoded value the key is passed over exactly when the value is a string that ends otherwise. */
  lemma KeyPositionAfter(before: string, v: Value, rest: string)
    ensures AtKeyPosition(before + Encode(v) + rest, |before + Encode(v)|)
            <==> (v.Str? ==> v.s != "" && v.s[|v.s| - 1] in {'d', 'e'})
  {
    var text := Encode(v);
    assert text != "" && (before + text + rest)[|before + text| - 1] == text[|text| - 1];
    if v.Str? && v.s != "" {
      assert text[|text| - 1] == v.s[|v.s| - 1];
    }
  }

  /** At the start of a dictionary the key is not passed over. */
  lemma KeyPositionFirst(before: string, rest: string)
    ensures AtKeyPosition(before + "d" + rest, |before| + 1) && AtKeyPosition(rest, 0)
  {
    assert (before + "d" + rest)[|before|] == 'd';
  }

  /** Occurrences of the key do not overlap. */
  lemma KeysDisjoint(content: string, k: nat, j: nat)
    requires Occurs(content, k) && k < j < k + |KEY|
    ensures !Occurs(content, j)
  {
    assert content[j] == content[k..k + |KEY|][j - k] == KEY[j - k] != '4';
    OccursStart(content, j);
  }

  lemma OccursStart(content: string, j: nat)
    ensures Occurs(content, j) ==> content[j] == '4'
  {
    assert j + |KEY| <= |content| ==> content[j] == content[j..j + |KEY|][0];
  }

  /** The check of one occurrence: a value that does not parse is passed over. */
  method SpanAt(content: string, k: nat) returns (span: Option<string>)
    requires Occurs(content, k)
    ensures span.Some? <==> Candidate(content, k)
    ensures span.Some? <==>
              && (k == 0 || content[k - 1] in {'d', 'e'})
              && var r := Parse(content[k + 6..]);
                 r.Ok? && r.value.Dict? && Lookup(r.value.entries, "pieces").Some?
                 && Lookup(r.value.entries, "piece length").Some?
    ensures span.Some? ==> span.value == Span(content, k)
  {
    if AtKeyPosition(content, k) {
      var v := ParseImpl(content, k + |KEY|);
      if v.Ok? && HasMandatoryKeys(v.value) {
        assert content[k + |KEY|..v.used] == content[k + |KEY|..][..v.used - (k + |KEY|)];
        return Some(content[k + |KEY|..v.used]);
      }
    }
    span := None;
  }

  method ExtractInfoDictBytes(content: string, parsedInfo: Value) returns (r: string)
    ensures IsExtract(content, parsedInfo, r)
  {
    var pos := 0;
    while true
      invariant pos <= |content|
      invariant forall j: nat | j < pos :: !Candidate(content, j)
      decreases |content| - pos
    {
      var found := FindKey(content, pos);
      if found.None? {
        break;
      }
      var k := found.value;
      var span := SpanAt(content, k);
      if span.Some? {
        assert FirstCandidate(content, k);
        return span.value;
      }
      forall j: nat | j < k + |KEY| ensures !Candidate(content, j) {
        if k < j {
          KeysDisjoint(content, k, j);
        }
      }
      pos := k + |KEY|;
    }
    r := Encode(parsedInfo);
  }

  /** The result is determined: there is only one first candidate. */
  lemma ExtractIsUnique(content: string, parsedInfo: Value, r: string, r': string)
    requires IsExtract(content, parsedInfo, r) && IsExtract(content, parsedInfo, r')
    ensures r == r'
  {
    if exists k: nat :: FirstCandidate(content, k) {
      var k: nat :| FirstCandidate(content, k) && r == Span(content, k);
      var k': nat :| FirstCandidate(content, k') && r' == Span(content, k');
      assert k == k';
    }
  }

  /** A span that is cut out is consumed exactly by the parser and is a dictionary with the mandatory keys. */
  lemma SpanIsExact(content: string, k: nat)
    requires Candidate(content, k)
    ensures var r := Parse(Span(content, k));
            r.Ok? && r.used == |Span(content, k)| && HasMandatoryKeys(r.value)
  {
    ParseLocal(content[k + |KEY|..], "");
    assert Span(content, k) + "" == Span(content, k);
  }

  /** The key right before `v` is accepted, so what is at `v` is taken for the info dictionary. */
  predicate KeyAccepted(content: string, v: nat) {
    |KEY| <= v && Candidate(content, v - |KEY|)
  }

  /** Where there is an acceptable key there is a first one. */
  lemma {:induction false} FirstExists(content: string, j: nat)
    requires Candidate(content, j)
    ensures exists k: nat :: k <= j && FirstCandidate(content, k)
    decreases j
  {
    if exists i: nat :: i < j && Candidate(content, i) {
      var i: nat :| i < j && Candidate(content, i);
      FirstExists(content, i);
    } else {
      assert FirstCandidate(content, j);
    }
  }

  /** The first acceptable key decides the result. */
  lemma FirstDecides(content: string, info: Value, k: nat, r: string)
    requires IsExtract(content, info, r) && FirstCandidate(content, k)
    ensures r == Span(content, k)
  {
    var j: nat :| FirstCandidate(content, j) && r == Span(content, j);
    assert j == k;
  }

  /**
    The value `info` stands at `v` in the content. The result is its original bytes exactly when one of three
    things holds: its own key is the first acceptable one; an acceptable key elsewhere comes first and happens
    to be followed by the same bytes; or no key is acceptable and the bytes are the canonical encoding. The
    original bytes are lost when text that looks like the key and a dictionary comes before the key, and when
    the key follows a string that ends in neither `d` nor `e`.
   */
  lemma OriginalBytesExactlyWhen(content: string, v: nat, info: Value, n: nat, r: string)
    requires v <= |content| && Parse(content[v..]) == Ok(info, n) && IsExtract(content, info, r)
    ensures r == content[v..][..n] <==>
              || (KeyAccepted(content, v) && forall j: nat | j + |KEY| < v :: !Candidate(content, j))
              || (exists j: nat ::
                    j + |KEY| != v && FirstCandidate(content, j) && Span(content, j) == content[v..][..n])
              || ((forall j: nat :: !Candidate(content, j)) && Encode(info) == content[v..][..n])
  {
    if exists j: nat :: Candidate(content, j) {
      var j: nat :| Candidate(content, j);
      FirstExists(content, j);
      var k: nat :| FirstCandidate(content, k);
      FirstDecides(content, info, k, r);
      FirstAgainst(content, v, n, k);
    } else {
      assert forall k: nat :: !FirstCandidate(content, k);
    }
  }

  /** The span after the first acceptable key is what stands at `v` when the key is the one before `v`, or by chance. */
  lemma FirstAgainst(content: string, v: nat, n: nat, k: nat)
    requires v <= |content| && Parse(content[v..]).Ok? && Parse(content[v..]).used == n && FirstCandidate(content, k)
    ensures Span(content, k) == content[v..][..n] <==>
              || (KeyAccepted(content, v) && forall j: nat | j + |KEY| < v :: !Candidate(content, j))
              || (exists j: nat ::
                    j + |KEY| != v && FirstCandidate(content, j) && Span(content, j) == content[v..][..n])
  {
    if KeyAccepted(content, v) && forall j: nat | j + |KEY| < v :: !Candidate(content, j) {
      assert FirstCandidate(content, v - |KEY|);
      assert k == v - |KEY|;
    }
    if k + |KEY| == v {
      assert KeyAccepted(content, v);
    }
  }

  // ----- Canonical files

  /** A dictionary's encoding shows the key and the encoding of its value next to each other. */
  lemma {:induction false} EntryInEncoding(entries: seq<Entry>, key: string) returns (before: string, after: string)
    requires Lookup(entries, key).Some?
    ensures EncodeEntries(entries) == before + (EncodeString(key) + Encode(Lookup(entries, key).value) + after)
  {
    if entries[0].key == key {
      before, after := "", EncodeEntries(entries[1..]);
    } else {
      before, after := EntryInEncoding(entries[1..], key);
      before := EncodeString(entries[0].key) + Encode(entries[0].val) + before;
    }
  }

  lemma {:induction false} LookupValid(entries: seq<Entry>, key: string)
    requires ValidEntries(entries) && Lookup(entries, key).Some?
    ensures Valid(Lookup(entries, key).value)
  {
    if entries[0].key != key {
      LookupValid(entries[1..], key);
    }
  }

  lemma KeyBetween(before: string, rest: string)
    ensures Occurs(before + (KEY + rest), |before|)
    ensures (before + (KEY + rest))[|before| + |KEY|..] == rest
  {
  }

  /** Where the info dictionary stands in a canonical file. */
  lemma KeyInCanonicalFile(root: Value) returns (k: nat, after: string)
    requires root.Dict? && Lookup(root.entries, "info").Some?
    ensures Occurs(Encode(root), k)
    ensures Encode(root)[k + |KEY|..] == Encode(Lookup(root.entries, "info").value) + after
  {
    var info := Encode(Lookup(root.entries, "info").value);
    var before, tail := EntryInEncoding(root.entries, "info");
    InfoKey();
    k, after := |"d" + before|, tail + "e";
    KeyBetween("d" + before, info + after);
    Regroup(before, EncodeString("info"), info, tail);
  }

  lemma InfoKey()
    ensures EncodeString("info") == KEY
  {
    assert Dec(4) == "4";
  }

  lemma Regroup(before: string, key: string, info: string, tail: string)
    ensures "d" + (before + (key + info + tail)) + "e" == ("d" + before) + (key + (info + (tail + "e")))
  {
  }

  /** From any canonical file, however often the key occurs in it: when the info dictionary comes back as it was. */
  lemma CanonicalFileExactlyWhen(root: Value, r: string) returns (k: nat)
    requires Valid(root) && root.Dict? && Lookup(root.entries, "info").Some?
    requires IsExtract(Encode(root), Lookup(root.entries, "info").value, r)
    ensures var content, info := Encode(root), Encode(Lookup(root.entries, "info").value);
            && Occurs(content, k) && info <= content[k + |KEY|..]
            && (r == info <==>
                  || (Candidate(content, k) && forall j: nat | j < k :: !Candidate(content, j))
                  || (exists j: nat :: j != k && FirstCandidate(content, j) && Span(content, j) == info)
                  || (forall j: nat :: !Candidate(content, j)))
  {
    var content, info := Encode(root), Lookup(root.entries, "info").value;
    var after: string;
    k, after := KeyInCanonicalFile(root);
    LookupValid(root.entries, "info");
    ParseEncoded(info, after);
    assert (Encode(info) + after)[..|Encode(info)|] == Encode(info);
    OriginalBytesExactlyWhen(content, k + |KEY|, info, |Encode(info)|, r);
  }

  /** From a canonical file in which the key occurs once, the dictionary's own encoding is returned, by either way. */
  lemma CanonicalFile(root: Value, r: string)
    requires Valid(root) && root.Dict? && Lookup(root.entries, "info").Some?
    requires forall i: nat, j: nat | Occurs(Encode(root), i) && Occurs(Encode(root), j) :: i == j
    requires IsExtract(Encode(root), Lookup(root.entries, "info").value, r)
    ensures r == Encode(Lookup(root.entries, "info").value)
  {
    var k := CanonicalFileExactlyWhen(root, r);
    assert forall j: nat | Candidate(Encode(root), j) :: Occurs(Encode(root), j);
  }
}
