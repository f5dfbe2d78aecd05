/** Magnet links: the printer and the parameter-scanning parser. */
module Magnet {
  import opened Bytes
  import opened Base32
  import opened Escapes
  import Bencode

  datatype MagnetLink = MagnetLink(
    infoHash: string,
    infoHashRaw: string,
    displayName: string,
    size: int,
    exactTopic: string,
    exactSource: string,
    trackers: seq<string>)

  const EMPTY := MagnetLink("", "", "", 0, "", "", [])
  const PREFIX: string := "magnet:?"
  const BTIH: string := "urn:btih:"

  predicate StartsWith(s: string, prefix: string) {
    |prefix| <= |s| && s[..|prefix|] == prefix
  }

  predicate IsValidHex(s: string) {
    |s| == 40 && forall c | c in s :: HexValue(c).Some?
  }

  /** An info hash in hexadecimal or in base 32; anything else is ignored. */
  function ApplyHash(m: MagnetLink, hash: string): MagnetLink {
    if IsValidHex(hash) then m.(infoHash := hash, infoHashRaw := FromHexOf(hash))
    else if IsValidBase32(hash) then
      var raw := Chars(Decoded(Digits(hash)));
      m.(infoHash := HexOf(raw), infoHashRaw := raw)
    else m
  }

  function ApplyTopic(m: MagnetLink, value: string): MagnetLink {
    if StartsWith(value, BTIH) then ApplyHash(m, value[|BTIH|..]) else m.(exactTopic := value)
  }

  function ApplySize(m: MagnetLink, value: string): MagnetLink {
    match Bencode.ToInt64(value)
    case Some(n) => m.(size := n)
    case None => m
  }

  /** The effect of one decoded parameter. */
  function Apply(m: MagnetLink, name: string, value: string): MagnetLink {
    if name == "xt" then ApplyTopic(m, value)
    else if name == "dn" then m.(displayName := value)
    else if name == "xl" then ApplySize(m, value)
    else if name == "tr" then m.(trackers := m.trackers + [value])
    else if name == "xs" then m.(exactSource := value)
    else m
  }

  datatype Param = Param(name: string, text: string, rest: string)

  /** The parameter from `pos` on whose `=` is at `eq` and whose value ends at `next`. */
  function Cut(query: string, pos: nat, eq: nat, next: nat): Param
    requires pos <= eq < next <= |query|
  {
    Param(query[pos..eq], query[eq + 1..next], query[Skip(query, next)..])
  }

  /** The position behind the `&` at `next`, or the end. */
  function Skip(query: string, next: nat): (k: nat)
    requires next <= |query|
    ensures k <= |query|
  {
    if next < |query| then next + 1 else |query|
  }

  /** The next parameter: up to the first `=`, then up to the next `&` or the end. */
  function NextParam(query: string): (r: Option<Param>)
    ensures r.Some? ==> |r.value.rest| < |query|
  {
    var eq := Bencode.Find(query, '=', 0);
    if eq == |query| then None else Some(Cut(query, 0, eq, Bencode.Find(query, '&', eq + 1)))
  }

  /** The parameters of the rest of a query, applied to `m` in order. */
  function Scan(query: string, m: MagnetLink): MagnetLink
    decreases |query|
  {
    match NextParam(query)
    case None => m
    case Some(Param(name, text, rest)) => Scan(rest, Apply(m, name, Unescaped(text)))
  }

  function Parsed(url: string): MagnetLink {
    if StartsWith(url, PREFIX) then Scan(url[|PREFIX|..], EMPTY) else EMPTY
  }

  function TrackerParams(trackers: seq<octets>): string {
    if trackers == [] then "" else "&tr=" + Escaped(trackers[0]) + TrackerParams(trackers[1..])
  }

  function NameParam(name: octets): string {
    if name == "" then "" else "&dn=" + Escaped(name)
  }

  /** The query part of a printed link. */
  function Printed(raw: octets, name: octets, trackers: seq<octets>): string {
    "xt" + "=" + (BTIH + HexOf(raw)) + (NameParam(name) + TrackerParams(trackers))
  }

  method ParseMagnetLink(url: string) returns (magnet: MagnetLink)
    ensures magnet == Parsed(url)
  {
    magnet := EMPTY;
    if !StartsWith(url, PREFIX) {
      return;
    }
    magnet := ParseQuery(url[|PREFIX|..]);
  }

  method ParseQuery(query: string) returns (magnet: MagnetLink)
    ensures magnet == Scan(query, EMPTY)
  {
    magnet := EMPTY;
    ghost var target := Scan(query, EMPTY);
    var pos := 0;
    assert query[0..] == query;
    while pos < |query|
      invariant 0 <= pos <= |query| && Scan(query[pos..], magnet) == target
      decreases |query| - pos
    {
      var eq := Bencode.Find(query, '=', pos);
      if eq == |query| {
        ScanEnds(query, pos, magnet);
        return;
      }
      var name := query[pos..eq];
      var next := Bencode.Find(query, '&', eq + 1);
      ScanOn(query, pos, magnet, eq, next);
      var value := UrlDecode(query[eq + 1..next]);
      magnet := ProcessParameter(magnet, name, value);
      pos := Skip(query, next);
    }
  }

  lemma ScanEnds(query: string, pos: nat, m: MagnetLink)
    requires pos <= |query| && Bencode.Find(query, '=', pos) == |query|
    ensures Scan(query[pos..], m) == m
  {
    FindFrom(query, '=', pos, pos);
  }

  /** One turn of the loop, in positions of the whole query. */
  lemma ScanOn(query: string, pos: nat, m: MagnetLink, eq: nat, next: nat)
    requires pos <= |query| && eq == Bencode.Find(query, '=', pos)
    requires eq < |query| && next == Bencode.Find(query, '&', eq + 1)
    ensures Scan(query[pos..], m)
         == Scan(query[Skip(query, next)..], Apply(m, query[pos..eq], Unescaped(query[eq + 1..next])))
  {
    NextParamAt(query, pos, eq, next);
    var p := Cut(query, pos, eq, next);
    ScanCut(query[pos..], m, p);
    assert p == Param(query[pos..eq], query[eq + 1..next], query[Skip(query, next)..]);
  }

  lemma ScanCut(query: string, m: MagnetLink, p: Param)
    requires NextParam(query) == Some(p)
    ensures Scan(query, m) == Scan(p.rest, Apply(m, p.name, Unescaped(p.text)))
  {
  }

  lemma NextParamAt(query: string, pos: nat, eq: nat, next: nat)
    requires pos <= |query| && eq == Bencode.Find(query, '=', pos)
    requires eq < |query| && next == Bencode.Find(query, '&', eq + 1)
    ensures NextParam(query[pos..]) == Some(Cut(query, pos, eq, next))
  {
    PlacesInRest(query, pos, eq, next);
    NextParamIs(query[pos..], eq - pos, next - pos);
    CutShift(query, pos, eq, next);
  }

  /** The places of the `=` and the end, counted from `pos` on. */
  lemma PlacesInRest(query: string, pos: nat, eq: nat, next: nat)
    requires pos <= |query| && eq == Bencode.Find(query, '=', pos)
    requires eq < |query| && next == Bencode.Find(query, '&', eq + 1)
    ensures eq - pos == Bencode.Find(query[pos..], '=', 0) && eq - pos < |query[pos..]|
    ensures next - pos == Bencode.Find(query[pos..], '&', eq - pos + 1)
  {
    FindFrom(query, '=', pos, pos);
    FindFrom(query, '&', pos, eq + 1);
  }

  lemma FindFrom(s: string, c: char, pos: nat, from: nat)
    requires pos <= from <= |s|
    ensures Bencode.Find(s[pos..], c, from - pos) == Bencode.Find(s, c, from) - pos
  {
    Bencode.FindShift(s, c, pos, from - pos);
  }

  lemma NextParamIs(query: string, eq: nat, next: nat)
    requires eq < |query| && eq == Bencode.Find(query, '=', 0) && next == Bencode.Find(query, '&', eq + 1)
    ensures NextParam(query) == Some(Cut(query, 0, eq, next))
  {
  }

  lemma CutShift(query: string, pos: nat, eq: nat, next: nat)
    requires pos <= eq < next <= |query|
    ensures Cut(query[pos..], 0, eq - pos, next - pos) == Cut(query, pos, eq, next)
  {
    Bencode.SliceShift(query, pos, 0, eq - pos);
    Bencode.SliceShift(query, pos, eq + 1 - pos, next - pos);
    Bencode.SliceShift(query, pos, Skip(query, next) - pos, |query| - pos);
  }

  method ProcessParameter(m: MagnetLink, name: string, value: string) returns (r: MagnetLink)
    ensures r == Apply(m, name, value)
  {
    if name == "xt" && StartsWith(value, BTIH) {
      r := m;
      var hash := value[|BTIH|..];
      if IsValidHex(hash) {
        var raw := FromHex(hash);
        r := m.(infoHash := hash, infoHashRaw := raw);
      } else if IsValidBase32(hash) {
        var decoded := Base32ToRaw(hash);
        var hex := ToHex(Chars(decoded));
        r := m.(infoHash := hex, infoHashRaw := Chars(decoded));
      }
    } else {
      r := Apply(m, name, value);
    }
  }

  method GenerateMagnetLink(raw: octets, name: octets, trackers: seq<octets>) returns (url: string)
    ensures url == PREFIX + Printed(raw, name, trackers)
  {
    var hex := ToHex(raw);
    url := "magnet:?xt=urn:btih:" + hex;
    if name != "" {
      var escaped := UrlEncode(name);
      url := url + "&dn=" + escaped;
    }
    ghost var head := url;
    PrintedHead(hex, NameParam(name), TrackerParams(trackers));
    if name != "" {
      JoinName("magnet:?xt=urn:btih:" + hex, Escaped(name));
    }
    for i := 0 to |trackers|
      invariant url + TrackerParams(trackers[i..]) == head + TrackerParams(trackers)
    {
      var escaped := UrlEncode(trackers[i]);
      OneTracker(url, trackers, i);
      url := url + "&tr=" + escaped;
    }
    assert trackers[|trackers|..] == [] && url + "" == url;
  }

  lemma PrintedHead(hex: string, name: string, trackers: string)
    ensures "magnet:?xt=urn:btih:" + hex + name + trackers
         == PREFIX + ("xt" + "=" + (BTIH + hex) + (name + trackers))
  {
    assert "magnet:?xt=urn:btih:" == PREFIX + ("xt" + "=" + BTIH);
  }

  lemma JoinName(head: string, escaped: string)
    ensures head + "&dn=" + escaped == head + ("&dn=" + escaped)
  {
  }

  lemma OneTracker(url: string, trackers: seq<octets>, i: nat)
    requires i < |trackers|
    ensures url + TrackerParams(trackers[i..])
         == url + "&tr=" + Escaped(trackers[i]) + TrackerParams(trackers[i + 1..])
  {
    assert trackers[i..][1..] == trackers[i + 1..];
    var escaped, rest := Escaped(trackers[i]), TrackerParams(trackers[i + 1..]);
    assert url + ("&tr=" + escaped + rest) == url + "&tr=" + escaped + rest;
  }

  // ----- Round trip

  /** What remains of a query after a parameter: nothing, or `&` and more parameters. */
  function After(rest: string, m: MagnetLink): MagnetLink
    requires rest == "" || rest[0] == '&'
  {
    if rest == "" then m else Scan(rest[1..], m)
  }

  /** One printed parameter. */
  lemma ScanParam(name: string, text: string, rest: string, m: MagnetLink)
    requires '=' !in name && '&' !in text && (rest == "" || rest[0] == '&')
    ensures Scan(name + "=" + text + rest, m) == After(rest, Apply(m, name, Unescaped(text)))
  {
    var query := name + "=" + text + rest;
    assert query == name + ['='] + (text + rest);
    FirstAt(name, '=', text + rest);
    NextAt(name + "=", text, rest);
    assert query[..|name|] == name;
    assert query[|name| + 1..|name| + 1 + |text|] == text;
    assert rest != "" ==> query[|name| + 1 + |text| + 1..] == rest[1..];
  }

  lemma FirstAt(a: string, c: char, t: string)
    requires c !in a
    ensures Bencode.Find(a + [c] + t, c, 0) == |a|
  {
    assert forall j | 0 <= j < |a| :: (a + [c] + t)[j] == a[j];
    assert (a + [c] + t)[|a|] == c;
  }

  lemma NextAt(head: string, text: string, rest: string)
    requires '&' !in text && (rest == "" || rest[0] == '&')
    ensures Bencode.Find(head + text + rest, '&', |head|) == |head + text|
  {
    var query := head + text + rest;
    assert forall j | |head| <= j < |head + text| :: query[j] == text[j - |head|];
    assert rest != "" ==> query[|head + text|] == '&';
  }

  /** The tracker parameters add the trackers in order. */
  lemma {:induction false} TrackersAfter(trackers: seq<octets>, m: MagnetLink)
    ensures TrackerParams(trackers) == "" || TrackerParams(trackers)[0] == '&'
    ensures After(TrackerParams(trackers), m) == m.(trackers := m.trackers + trackers)
    decreases |trackers|
  {
    if trackers == [] {
      assert m.trackers + [] == m.trackers;
    } else {
      var m' := m.(trackers := m.trackers + [trackers[0]]);
      TrackersAfter(trackers[1..], m');
      InOrder(m.trackers, trackers);
      FirstTracker(trackers, m);
    }
  }

  lemma InOrder(before: seq<string>, trackers: seq<octets>)
    requires trackers != []
    ensures before + [trackers[0]] + trackers[1..] == before + trackers
  {
  }

  /** A printed parameter behind its `&`. */
  lemma AmpersandFirst(head: string, name: string, text: string, rest: string)
    requires head == "&" + name + "="
    ensures var param := head + text + rest;
            param != "" && param[0] == '&' && param[1..] == name + "=" + text + rest
  {
  }

  lemma TrackerApplied(tracker: octets, rest: string, m: MagnetLink)
    requires rest == "" || rest[0] == '&'
    ensures Scan("tr" + "=" + Escaped(tracker) + rest, m) == After(rest, m.(trackers := m.trackers + [tracker]))
  {
    UrlRoundTrip(tracker);
    ScanParam("tr", Escaped(tracker), rest, m);
  }

  lemma NameApplied(name: octets, rest: string, m: MagnetLink)
    requires rest == "" || rest[0] == '&'
    ensures Scan("dn" + "=" + Escaped(name) + rest, m) == After(rest, m.(displayName := name))
  {
    UrlRoundTrip(name);
    ScanParam("dn", Escaped(name), rest, m);
  }

  lemma FirstTracker(trackers: seq<octets>, m: MagnetLink)
    requires trackers != []
    requires TrackerParams(trackers[1..]) == "" || TrackerParams(trackers[1..])[0] == '&'
    ensures TrackerParams(trackers)[0] == '&'
    ensures After(TrackerParams(trackers), m)
         == After(TrackerParams(trackers[1..]), m.(trackers := m.trackers + [trackers[0]]))
  {
    var escaped, rest := Escaped(trackers[0]), TrackerParams(trackers[1..]);
    AmpersandFirst("&tr=", "tr", escaped, rest);
    TrackerApplied(trackers[0], rest, m);
  }

  /** A printed hash parameter is recognised and read back. */
  lemma HashParam(raw: octets, rest: string, m: MagnetLink)
    requires |raw| == 20 && (rest == "" || rest[0] == '&')
    ensures Scan("xt" + "=" + (BTIH + HexOf(raw)) + rest, m)
         == After(rest, m.(infoHash := HexOf(raw), infoHashRaw := raw))
  {
    var text := BTIH + HexOf(raw);
    HashText(raw);
    HashTopic(raw, m);
    ScanTopic(text, rest, m);
  }

  lemma ScanTopic(text: string, rest: string, m: MagnetLink)
    requires '&' !in text && Unescaped(text) == text && (rest == "" || rest[0] == '&')
    ensures Scan("xt" + "=" + text + rest, m) == After(rest, ApplyTopic(m, text))
  {
    ScanParam("xt", text, rest, m);
  }

  lemma HashText(raw: octets)
    ensures '&' !in BTIH + HexOf(raw) && Unescaped(BTIH + HexOf(raw)) == BTIH + HexOf(raw)
  {
    UnhexHex(raw);
    PlainDecodes(BTIH + HexOf(raw));
  }

  lemma HashTopic(raw: octets, m: MagnetLink)
    requires |raw| == 20
    ensures ApplyTopic(m, BTIH + HexOf(raw)) == m.(infoHash := HexOf(raw), infoHashRaw := raw)
  {
    var text := BTIH + HexOf(raw);
    UnhexHex(raw);
    HexRoundTrip(raw);
    assert text[..|BTIH|] == BTIH && text[|BTIH|..] == HexOf(raw);
  }

  lemma NameAfter(name: octets, rest: string, m: MagnetLink)
    requires m.displayName == "" && (rest == "" || rest[0] == '&')
    ensures NameParam(name) + rest == "" || (NameParam(name) + rest)[0] == '&'
    ensures After(NameParam(name) + rest, m) == After(rest, m.(displayName := name))
  {
    if name == "" {
      assert NameParam(name) + rest == rest && m == m.(displayName := name);
    } else {
      PrintedName(name, rest, m);
    }
  }

  lemma PrintedName(name: octets, rest: string, m: MagnetLink)
    requires name != "" && (rest == "" || rest[0] == '&')
    ensures (NameParam(name) + rest)[0] == '&'
    ensures After(NameParam(name) + rest, m) == After(rest, m.(displayName := name))
  {
    NameApplied(name, rest, m);
    AmpersandFirst("&dn=", "dn", Escaped(name), rest);
  }

  /** For every 20-byte hash, every name and every list of trackers, a printed link reads back as it was printed. */
  lemma MagnetRoundTrip(raw: octets, name: octets, trackers: seq<octets>)
    requires |raw| == 20
    ensures Parsed(PREFIX + Printed(raw, name, trackers))
         == MagnetLink(HexOf(raw), raw, name, 0, "", "", trackers)
  {
    var m1 := EMPTY.(infoHash := HexOf(raw), infoHashRaw := raw);
    var m2 := m1.(displayName := name);
    var rest := TrackerParams(trackers);
    TrackersAfter(trackers, m2);
    NameAfter(name, rest, m1);
    HashParam(raw, NameParam(name) + rest, EMPTY);
    assert (PREFIX + Printed(raw, name, trackers))[|PREFIX|..] == Printed(raw, name, trackers);
    assert [] + trackers == trackers;
  }

  // ----- Links written by others

  /** Parameters with the texts of their values, each behind an `&`. */
  function Chain(params: seq<(string, string)>): string {
    if params == [] then "" else "&" + params[0].0 + "=" + params[0].1 + Chain(params[1..])
  }

  function ApplyAll(m: MagnetLink, params: seq<(string, string)>): MagnetLink
    decreases |params|
  {
    if params == [] then m else ApplyAll(Apply(m, params[0].0, Unescaped(params[0].1)), params[1..])
  }

  predicate CanStand(params: seq<(string, string)>) {
    forall p | p in params :: '=' !in p.0 && '&' !in p.1
  }

  /** Any number of parameters are applied in order. */
  lemma {:induction false} ChainApplies(params: seq<(string, string)>, m: MagnetLink)
    requires CanStand(params)
    ensures Chain(params) == "" || Chain(params)[0] == '&'
    ensures After(Chain(params), m) == ApplyAll(m, params)
    decreases |params|
  {
    if params != [] {
      var name, text, rest := params[0].0, params[0].1, Chain(params[1..]);
      ChainApplies(params[1..], Apply(m, name, Unescaped(text)));
      ScanParam(name, text, rest, m);
      AmpersandFirst("&" + name + "=", name, text, rest);
    }
  }

  /** A hash parameter stands for itself, and its hash follows the prefix. */
  lemma TopicText(hash: string)
    requires forall c | c in hash :: HexValue(c).Some? || 'A' <= c <= 'Z' || '2' <= c <= '7'
    ensures var text := BTIH + hash;
            '&' !in text && Unescaped(text) == text && StartsWith(text, BTIH) && text[|BTIH|..] == hash
  {
    var text := BTIH + hash;
    forall c | c in text
      ensures c != '&' && c != '%' && c != '+'
    {
      assert c in BTIH || c in hash;
    }
    PlainDecodes(text);
  }

  /** What a link with a hash and any more parameters is read as. */
  lemma LinkIsRead(hash: string, params: seq<(string, string)>)
    requires forall c | c in hash :: HexValue(c).Some? || 'A' <= c <= 'Z' || '2' <= c <= '7'
    requires CanStand(params)
    ensures Parsed("magnet:?xt=urn:btih:" + hash + Chain(params)) == ApplyAll(ApplyHash(EMPTY, hash), params)
  {
    TopicText(hash);
    ChainApplies(params, ApplyHash(EMPTY, hash));
    ScanTopic(BTIH + hash, Chain(params), EMPTY);
    WholeLink(hash, Chain(params));
  }

  lemma WholeLink(hash: string, rest: string)
    ensures var url, query := "magnet:?xt=urn:btih:" + hash + rest, "xt" + "=" + (BTIH + hash) + rest;
            StartsWith(url, PREFIX) && url[|PREFIX|..] == query
  {
    PrintedHead(hash, "", rest);
    assert hash + "" == hash && "" + rest == rest;
    assert "magnet:?xt=urn:btih:" + hash + rest == PREFIX + ("xt" + "=" + (BTIH + hash) + rest);
  }

  /**
    Each kind of parameter is read into its own field: a name, a size, a tracker and a source after a hash in
    hexadecimal, for any texts of them.
   */
  lemma EveryParameterIsRead(hash: string, name: string, size: string, n: int, tracker: string, source: string)
    requires |hash| == 40 && forall c | c in hash :: HexValue(c).Some?
    requires '&' !in name && '&' !in size && '&' !in tracker && '&' !in source
    requires Bencode.ToInt64(Unescaped(size)) == Some(n)
    ensures Parsed("magnet:?xt=urn:btih:" + hash + Chain([("dn", name), ("xl", size), ("tr", tracker), ("xs", source)]))
         == MagnetLink(hash, FromHexOf(hash), Unescaped(name), n, "", Unescaped(source), [Unescaped(tracker)])
  {
    var params := [("dn", name), ("xl", size), ("tr", tracker), ("xs", source)];
    LinkIsRead(hash, params);
    FourParams(EMPTY.(infoHash := hash, infoHashRaw := FromHexOf(hash)), name, size, n, tracker, source);
  }

  lemma FourParams(m: MagnetLink, name: string, size: string, n: int, tracker: string, source: string)
    requires Bencode.ToInt64(Unescaped(size)) == Some(n)
    ensures ApplyAll(m, [("dn", name), ("xl", size), ("tr", tracker), ("xs", source)])
         == m.(displayName := Unescaped(name), size := n, trackers := m.trackers + [Unescaped(tracker)],
               exactSource := Unescaped(source))
  {
    var m1 := m.(displayName := Unescaped(name));
    var m2 := m1.(size := n);
    var m3 := m2.(trackers := m.trackers + [Unescaped(tracker)]);
    NameAndSize(m, Unescaped(name), Unescaped(size), n);
    TrackerAndSource(m2, Unescaped(tracker), Unescaped(source));
    InTurn(m, m1, m2, m3, m3.(exactSource := Unescaped(source)), ("dn", name), ("xl", size), ("tr", tracker),
           ("xs", source));
  }

  lemma NameAndSize(m: MagnetLink, name: string, size: string, n: int)
    requires Bencode.ToInt64(size) == Some(n)
    ensures Apply(m, "dn", name) == m.(displayName := name)
    ensures Apply(m.(displayName := name), "xl", size) == m.(displayName := name, size := n)
  {
  }

  lemma TrackerAndSource(m: MagnetLink, tracker: string, source: string)
    ensures Apply(m, "tr", tracker) == m.(trackers := m.trackers + [tracker])
    ensures var m' := m.(trackers := m.trackers + [tracker]);
            Apply(m', "xs", source) == m'.(exactSource := source)
  {
  }

  lemma InTurn(m0: MagnetLink, m1: MagnetLink, m2: MagnetLink, m3: MagnetLink, m4: MagnetLink, p1: (string, string),
               p2: (string, string), p3: (string, string), p4: (string, string))
    requires m1 == Apply(m0, p1.0, Unescaped(p1.1)) && m2 == Apply(m1, p2.0, Unescaped(p2.1))
    requires m3 == Apply(m2, p3.0, Unescaped(p3.1)) && m4 == Apply(m3, p4.0, Unescaped(p4.1))
    ensures ApplyAll(m0, [p1, p2, p3, p4]) == m4
  {
    ApplyFirst(m0, [p1, p2, p3, p4], [p2, p3, p4]);
    ApplyFirst(m1, [p2, p3, p4], [p3, p4]);
    ApplyFirst(m2, [p3, p4], [p4]);
    ApplyFirst(m3, [p4], []);
  }

  lemma ApplyFirst(m: MagnetLink, params: seq<(string, string)>, rest: seq<(string, string)>)
    requires params != [] && params[1..] == rest
    ensures ApplyAll(m, params) == ApplyAll(Apply(m, params[0].0, Unescaped(params[0].1)), rest)
  {
  }

  /** A base 32 hash is read as the 20 bytes of the number that its digits write. */
  lemma Base32LinkIsRead(hash: string) returns (raw: bytes)
    requires |hash| == 32 && forall c | c in hash :: 'A' <= c <= 'Z' || '2' <= c <= '7'
    ensures |raw| == 20 && Value256(raw) == Value32(Digits(hash))
    ensures Parsed("magnet:?xt=urn:btih:" + hash)
         == EMPTY.(infoHash := HexOf(Chars(raw)), infoHashRaw := Chars(raw))
  {
    raw := Decoded(Digits(hash));
    HashDecodes(hash);
    LinkIsRead(hash, []);
    assert "magnet:?xt=urn:btih:" + hash + "" == "magnet:?xt=urn:btih:" + hash;
  }

  /** A topic that is no hash is kept as it is; a bad hash, a bad size and unknown parameters are passed over. */
  lemma OtherParameters(m: MagnetLink, name: string, value: string)
    ensures !StartsWith(value, "urn:btih:") ==> Apply(m, "xt", value) == m.(exactTopic := value)
    ensures !IsHash(value) ==> Apply(m, "xt", "urn:btih:" + value) == m
    ensures Bencode.ToInt64(value).None? ==> Apply(m, "xl", value) == m
    ensures name !in {"xt", "dn", "xl", "tr", "xs"} ==> Apply(m, name, value) == m
  {
    var topic := "urn:btih:" + value;
    assert topic[..|BTIH|] == BTIH && topic[|BTIH|..] == value;
  }

  /** Forty hexadecimal digits, or 32 upper-case digits of base 32. */
  predicate IsHash(s: string) {
    || (|s| == 40 && forall c | c in s :: HexValue(c).Some?)
    || (|s| == 32 && forall c | c in s :: 'A' <= c <= 'Z' || '2' <= c <= '7')
  }
}
