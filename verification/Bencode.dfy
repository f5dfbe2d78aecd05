/**
  Bencoding as described in BEP 3: values, the canonical encoder, and a parser that says how many
  characters it used. A character stands for a byte.
 */
module Bencode {
  import opened Bytes

  const UINT64_MAX := 0xFFFF_FFFF_FFFF_FFFF

  /** A dictionary lists its entries in key order, as iterating over the source's map does. */
  datatype Value = Int(n: int) | Str(s: string) | List(items: seq<Value>) | Dict(entries: seq<Entry>)

  datatype Entry = Entry(key: string, val: Value)

  // ----- Dictionaries

  predicate Less(a: string, b: string) {
    if b == "" then false
    else if a == "" then true
    else a[0] < b[0] || (a[0] == b[0] && Less(a[1..], b[1..]))
  }

  ghost predicate Sorted(entries: seq<Entry>) {
    forall i, j | 0 <= i < j < |entries| :: Less(entries[i].key, entries[j].key)
  }

  function Lookup(entries: seq<Entry>, key: string): Option<Value> {
    if entries == [] then None
    else if entries[0].key == key then Some(entries[0].val)
    else Lookup(entries[1..], key)
  }

  /** Assignment to a key: replaces its value, or inserts it where it belongs. */
  function Insert(entries: seq<Entry>, key: string, val: Value): seq<Entry> {
    if entries == [] then [Entry(key, val)]
    else if entries[0].key == key then [Entry(key, val)] + entries[1..]
    else if Less(key, entries[0].key) then [Entry(key, val)] + entries
    else [entries[0]] + Insert(entries[1..], key, val)
  }

  function GetInt(entries: seq<Entry>, key: string): Option<int> {
    match Lookup(entries, key)
    case Some(Int(n)) => Some(n)
    case _ => None
  }

  function GetString(entries: seq<Entry>, key: string): Option<string> {
    match Lookup(entries, key)
    case Some(Str(s)) => Some(s)
    case _ => None
  }

  // ----- Numbers

  predicate IsDigit(c: char) {
    '0' <= c <= '9'
  }

  function Digit(d: nat): (c: char)
    requires d < 10
    ensures IsDigit(c) && c as int - '0' as int == d
  {
    (d + '0' as int) as char
  }

  function Dec(n: nat): (s: string)
    ensures s != "" && forall c | c in s :: IsDigit(c)
  {
    if n < 10 then [Digit(n)] else Dec(n / 10) + [Digit(n % 10)]
  }

  function DecInt(n: int): (s: string)
    ensures s != "" && forall c | c in s :: IsDigit(c) || c == '-'
  {
    if n < 0 then "-" + Dec(-n) else Dec(n)
  }

  /** The number that the leading digits continue; what follows them is ignored. */
  function ReadNat(s: string, acc: nat): nat {
    if s == "" || !IsDigit(s[0]) then acc else ReadNat(s[1..], acc * 10 + (s[0] as int - '0' as int))
  }

  function SkipSpace(s: string): string {
    if s != "" && IsSpace(s[0]) then SkipSpace(s[1..]) else s
  }

  /** `std::stoll`: leading space and a sign are allowed, trailing characters ignored. */
  function ToInt64(s: string): Option<int> {
    var t := SkipSpace(s);
    var negative, signed := t != "" && t[0] == '-', t != "" && (t[0] == '-' || t[0] == '+');
    var digits := if signed then t[1..] else t;
    if digits == "" || !IsDigit(digits[0]) then None else
    var n: int := ReadNat(digits, 0);
    var n := if negative then -n else n;
    if -INT64_MAX - 1 <= n <= INT64_MAX then Some(n) else None
  }

  /** `std::stoull` on a text that starts with a digit. */
  function ToUInt64(s: string): Option<nat>
    requires s != "" && IsDigit(s[0])
  {
    var n := ReadNat(s, 0);
    if n <= UINT64_MAX then Some(n) else None
  }

  /** The first position from `from` on that holds `c`, or the length of `s`. */
  function Find(s: string, c: char, from: nat): (k: nat)
    requires from <= |s|
    ensures from <= k <= |s|
    ensures k < |s| ==> s[k] == c
    ensures forall j | from <= j < k :: s[j] != c
    decreases |s| - from
  {
    if from == |s| || s[from] == c then from else Find(s, c, from + 1)
  }

  // ----- Encoding

  function Encode(v: Value): string
    decreases v, 1
  {
    match v
    case Int(n) => "i" + DecInt(n) + "e"
    case Str(s) => EncodeString(s)
    case List(items) => "l" + EncodeItems(items) + "e"
    case Dict(entries) => "d" + EncodeEntries(entries) + "e"
  }

  function EncodeString(s: string): string {
    Dec(|s|) + ":" + s
  }

  function EncodeItems(items: seq<Value>): string
    decreases items, 0
  {
    if items == [] then "" else Encode(items[0]) + EncodeItems(items[1..])
  }

  function EncodeEntries(entries: seq<Entry>): string
    decreases entries, 0
  {
    if entries == [] then ""
    else EncodeString(entries[0].key) + Encode(entries[0].val) + EncodeEntries(entries[1..])
  }

  // ----- Parsing

  datatype ParseError =
    | UnexpectedEnd | UnterminatedInteger | BadNumber | MissingColon | LengthExceedsData
    | UnterminatedList | KeyNotString | UnterminatedDict | InvalidCharacter

  datatype Parsed<+T> = Ok(value: T, used: nat) | Err(error: ParseError)

  /** The same result, with the position moved by `n`. */
  function Shift<T>(r: Parsed<T>, n: nat): Parsed<T> {
    match r
    case Ok(v, used) => Ok(v, used + n)
    case Err(e) => Err(e)
  }

  function AsList(r: Parsed<seq<Value>>): Parsed<Value> {
    match r
    case Ok(items, used) => Ok(List(items), used)
    case Err(e) => Err(e)
  }

  function AsDict(r: Parsed<seq<Entry>>): Parsed<Value> {
    match r
    case Ok(entries, used) => Ok(Dict(entries), used)
    case Err(e) => Err(e)
  }

  /** The value at the start of `s` and the characters it takes up. */
  function Parse(s: string): (r: Parsed<Value>)
    ensures r.Ok? ==> 0 < r.used <= |s|
    decreases |s|, 0
  {
    if s == "" then Err(UnexpectedEnd)
    else if s[0] == 'i' then ParseInt(s)
    else if IsDigit(s[0]) then ParseString(s)
    else if s[0] == 'l' then
      AsList(Shift(ParseItems(s[1..], []), 1))
    else if s[0] == 'd' then
      AsDict(Shift(ParseEntries(s[1..], []), 1))
    else Err(InvalidCharacter)
  }

  function ParseInt(s: string): (r: Parsed<Value>)
    requires s != ""
    ensures r.Ok? ==> 0 < r.used <= |s|
  {
    var end := Find(s, 'e', 1);
    if end == |s| then Err(UnterminatedInteger) else
    match ToInt64(s[1..end])
    case None => Err(BadNumber)
    case Some(n) => Ok(Int(n), end + 1)
  }

  function ParseString(s: string): (r: Parsed<Value>)
    requires s != "" && IsDigit(s[0])
    ensures r.Ok? ==> 0 < r.used <= |s|
  {
    var colon := Find(s, ':', 0);
    if colon == |s| then Err(MissingColon) else
    match ToUInt64(s[..colon])
    case None => Err(BadNumber)
    case Some(length) =>
      if length > |s| - colon - 1 then Err(LengthExceedsData)
      else Ok(Str(s[colon + 1..colon + 1 + length]), colon + 1 + length)
  }

  /** The items up to the closing `e`, after those in `acc`. */
  function ParseItems(s: string, acc: seq<Value>): (r: Parsed<seq<Value>>)
    ensures r.Ok? ==> 0 < r.used <= |s|
    decreases |s|, 1
  {
    if s == "" then Err(UnterminatedList)
    else if s[0] == 'e' then Ok(acc, 1)
    else
      match Parse(s)
      case Err(e) => Err(e)
      case Ok(v, n) =>
        match ParseItems(s[n..], acc + [v])
        case Err(e) => Err(e)
        case Ok(items, m) => Ok(items, n + m)
  }

  /** A key, which must be a string, and its value. */
  function ParseEntry(s: string): (r: Parsed<Entry>)
    ensures r.Ok? ==> 0 < r.used <= |s|
    decreases |s|, 1
  {
    match Parse(s)
    case Err(e) => Err(e)
    case Ok(key, n) =>
      if !key.Str? then Err(KeyNotString) else
      match Parse(s[n..])
      case Err(e) => Err(e)
      case Ok(val, m) => Ok(Entry(key.s, val), n + m)
  }

  /** The entries up to the closing `e`, assigned to the keys of `acc`. */
  function ParseEntries(s: string, acc: seq<Entry>): (r: Parsed<seq<Entry>>)
    ensures r.Ok? ==> 0 < r.used <= |s|
    decreases |s|, 2
  {
    if s == "" then Err(UnterminatedDict)
    else if s[0] == 'e' then Ok(acc, 1)
    else
      match ParseEntry(s)
      case Err(e) => Err(e)
      case Ok(entry, n) =>
        match ParseEntries(s[n..], Insert(acc, entry.key, entry.val))
        case Err(e) => Err(e)
        case Ok(entries, m) => Ok(entries, n + m)
  }

  /**
    The parser as a cursor over the whole input: it returns the position after the value. A string
    length that takes the 64-bit position past its end is reported like any length beyond the data.
   */
  method ParseImpl(data: string, pos: nat) returns (r: Parsed<Value>)
    ensures r == if pos > |data| then Err(UnexpectedEnd) else Shift(Parse(data[pos..]), pos)
    decreases |data| - pos, 0
  {
    if pos >= |data| {
      return Err(UnexpectedEnd);
    }
    var c := data[pos];
    assert data[pos..][1..] == data[pos + 1..];
    if c == 'i' {
      r := ParseIntAt(data, pos);
    } else if IsDigit(c) {
      r := ParseStringAt(data, pos);
    } else if c == 'l' {
      r := ParseListAt(data, pos + 1);
    } else if c == 'd' {
      r := ParseDictAt(data, pos + 1);
    } else {
      r := Err(InvalidCharacter);
    }
  }

  lemma SliceShift(s: string, pos: nat, i: nat, j: nat)
    requires i <= j && pos + j <= |s|
    ensures s[pos..][i..j] == s[pos + i..pos + j]
  {
  }

  lemma FindShift(data: string, c: char, pos: nat, from: nat)
    requires pos + from <= |data|
    ensures Find(data, c, pos + from) == pos + Find(data[pos..], c, from)
  {
    assert forall j | 0 <= j < |data| - pos :: data[pos..][j] == data[pos + j];
    var k, k' := Find(data, c, pos + from), Find(data[pos..], c, from);
    assert pos + k' < |data| ==> data[pos + k'] == c;
    assert k < |data| ==> data[pos..][k - pos] == c;
  }

  method ParseIntAt(data: string, pos: nat) returns (r: Parsed<Value>)
    requires pos < |data|
    ensures r == Shift(ParseInt(data[pos..]), pos)
  {
    var end := Find(data, 'e', pos + 1);
    FindShift(data, 'e', pos, 1);
    if end == |data| {
      return Err(UnterminatedInteger);
    }
    var n := ToInt64(data[pos + 1..end]);
    SliceShift(data, pos, 1, end - pos);
    r := if n.None? then Err(BadNumber) else Ok(Int(n.value), end + 1);
  }

  method ParseStringAt(data: string, pos: nat) returns (r: Parsed<Value>)
    requires pos < |data| && IsDigit(data[pos])
    ensures r == Shift(ParseString(data[pos..]), pos)
  {
    var colon := Find(data, ':', pos);
    FindShift(data, ':', pos, 0);
    if colon == |data| {
      return Err(MissingColon);
    }
    SliceShift(data, pos, 0, colon - pos);
    var length := ToUInt64(data[pos..colon]);
    if length.None? {
      return Err(BadNumber);
    }
    var start := colon + 1;
    if start + length.value > |data| {
      return Err(LengthExceedsData);
    }
    SliceShift(data, pos, start - pos, start - pos + length.value);
    r := Ok(Str(data[start..start + length.value]), start + length.value);
  }

  /** One item further along a list. */
  lemma NextItem(data: string, pos: nat, list: seq<Value>)
    requires pos < |data| && data[pos] != 'e'
    ensures var r, now := Parse(data[pos..]), Shift(ParseItems(data[pos..], list), pos);
            if r.Err? then now == Err(r.error)
            else now == Shift(ParseItems(data[pos + r.used..], list + [r.value]), pos + r.used)
  {
    var r := Parse(data[pos..]);
    assert r.Ok? ==> data[pos..][r.used..] == data[pos + r.used..];
  }

  /** One entry further along a dictionary. */
  lemma NextEntry(data: string, pos: nat, dict: seq<Entry>, entry: Parsed<Entry>, dict': seq<Entry>)
    requires pos < |data| && data[pos] != 'e' && entry == Shift(ParseEntry(data[pos..]), pos)
    requires entry.Ok? ==> dict' == Insert(dict, entry.value.key, entry.value.val)
    ensures var now := Shift(ParseEntries(data[pos..], dict), pos);
            if entry.Err? then now == Err(entry.error)
            else pos < entry.used <= |data| && now == Shift(ParseEntries(data[entry.used..], dict'), entry.used)
  {
    assert entry.Ok? ==> data[pos..][entry.used - pos..] == data[entry.used..];
  }

  method ParseListAt(data: string, start: nat) returns (r: Parsed<Value>)
    requires start <= |data|
    ensures r == AsList(Shift(ParseItems(data[start..], []), start))
    decreases |data| - start, 1
  {
    var pos := start;
    var list := [];
    ghost var target := Shift(ParseItems(data[start..], []), start);
    while pos < |data| && data[pos] != 'e'
      invariant start <= pos <= |data|
      invariant Shift(ParseItems(data[pos..], list), pos) == target
      decreases |data| - pos
    {
      var item := ParseImpl(data, pos);
      NextItem(data, pos, list);
      if item.Err? {
        return Err(item.error);
      }
      list := list + [item.value];
      pos := item.used;
    }
    ListEnd(data, pos, list);
    if pos >= |data| {
      return Err(UnterminatedList);
    }
    r := Ok(List(list), pos + 1);
  }

  lemma ListEnd(data: string, pos: nat, list: seq<Value>)
    requires pos <= |data| && (pos < |data| ==> data[pos] == 'e')
    ensures Shift(ParseItems(data[pos..], list), pos)
         == if pos < |data| then Ok(list, pos + 1) else Err(UnterminatedList)
  {
  }

  method ParseDictAt(data: string, start: nat) returns (r: Parsed<Value>)
    requires start <= |data|
    ensures r == AsDict(Shift(ParseEntries(data[start..], []), start))
    decreases |data| - start, 2
  {
    var pos := start;
    var dict := [];
    ghost var target := Shift(ParseEntries(data[start..], []), start);
    while pos < |data| && data[pos] != 'e'
      invariant start <= pos <= |data|
      invariant Shift(ParseEntries(data[pos..], dict), pos) == target
      decreases |data| - pos
    {
      var entry := ParseEntryAt(data, pos);
      if entry.Err? {
        NextEntry(data, pos, dict, entry, dict);
        return Err(entry.error);
      }
      var dict' := Insert(dict, entry.value.key, entry.value.val);
      NextEntry(data, pos, dict, entry, dict');
      dict := dict';
      pos := entry.used;
    }
    if pos >= |data| {
      return Err(UnterminatedDict);
    }
    r := Ok(Dict(dict), pos + 1);
  }

  method ParseEntryAt(data: string, pos: nat) returns (r: Parsed<Entry>)
    requires pos <= |data|
    ensures r == Shift(ParseEntry(data[pos..]), pos)
    decreases |data| - pos, 1
  {
    var key := ParseImpl(data, pos);
    if key.Err? {
      return Err(key.error);
    }
    if !key.value.Str? {
      return Err(KeyNotString);
    }
    assert data[pos..][key.used - pos..] == data[key.used..];
    var val := ParseImpl(data, key.used);
    if val.Err? {
      return Err(val.error);
    }
    r := Ok(Entry(key.value.s, val.value), val.used);
  }
}
