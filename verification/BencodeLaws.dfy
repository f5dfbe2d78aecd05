/** Round trips, locality and canonical form of bencoding. */
module BencodeLaws {
  import opened Bytes
  import opened Bencode

  /** A value that the source can hold: 64-bit integers and lengths, dictionary keys in order. */
  ghost predicate Valid(v: Value)
    decreases v, 1
  {
    match v
    case Int(n) => -INT64_MAX - 1 <= n <= INT64_MAX
    case Str(s) => |s| <= UINT64_MAX
    case List(items) => ValidItems(items)
    case Dict(entries) => Sorted(entries) && ValidEntries(entries)
  }

  ghost predicate ValidItems(items: seq<Value>)
    decreases items, 0
  {
    items == [] || (Valid(items[0]) && ValidItems(items[1..]))
  }

  ghost predicate ValidEntries(entries: seq<Entry>)
    decreases entries, 0
  {
    entries == [] ||
    (|entries[0].key| <= UINT64_MAX && Valid(entries[0].val) && ValidEntries(entries[1..]))
  }

  // ----- Numbers

  /** Reading continues from a printed number as if it had been read digit by digit. */
  lemma {:induction false} ReadDec(n: nat, t: string)
    ensures ReadNat(Dec(n) + t, 0) == ReadNat(t, n)
  {
    if n < 10 {
      assert (Dec(n) + t)[1..] == t;
    } else {
      var last := [Digit(n % 10)];
      assert Dec(n) + t == Dec(n / 10) + (last + t);
      ReadDec(n / 10, last + t);
      assert (last + t)[1..] == t;
    }
  }

  lemma ReadPrinted(n: int)
    requires -INT64_MAX - 1 <= n <= INT64_MAX
    ensures ToInt64(DecInt(n)) == Some(n)
  {
    var m := if n < 0 then -n else n;
    ReadDec(m, "");
    assert Dec(m) + "" == Dec(m);
    assert Dec(m)[0] in Dec(m);
    assert n < 0 ==> DecInt(n)[1..] == Dec(m);
  }

  lemma FindAfter(a: string, c: char, t: string, from: nat)
    requires from <= |a| && c !in a
    ensures Find(a + [c] + t, c, from) == |a|
  {
    assert forall j | 0 <= j < |a| :: (a + [c] + t)[j] == a[j];
    assert (a + [c] + t)[|a|] == c;
  }

  lemma ParseEncodedInt(n: int, t: string)
    requires -INT64_MAX - 1 <= n <= INT64_MAX
    ensures Parse(Encode(Int(n)) + t) == Ok(Int(n), |Encode(Int(n))|)
  {
    var head := "i" + DecInt(n);
    FindAfter(head, 'e', t, 1);
    assert Encode(Int(n)) + t == head + ['e'] + t;
    assert (head + ['e'] + t)[1..|head|] == DecInt(n);
    ReadPrinted(n);
  }

  lemma ParseEncodedString(s: string, t: string)
    requires |s| <= UINT64_MAX
    ensures Parse(EncodeString(s) + t) == Ok(Str(s), |EncodeString(s)|)
  {
    var head := Dec(|s|);
    var input := EncodeString(s) + t;
    assert input == head + [':'] + (s + t);
    FindAfter(head, ':', s + t, 0);
    ReadDec(|s|, "");
    assert head + "" == head && input[..|head|] == head;
    assert head[0] in head && input[0] == head[0];
    assert input[|head| + 1..|head| + 1 + |s|] == s;
  }

  // ----- Keys in order

  lemma {:induction false} LessTransitive(a: string, b: string, c: string)
    requires Less(a, b) && Less(b, c)
    ensures Less(a, c)
    decreases |a|
  {
    if a != "" && a[0] == b[0] == c[0] {
      LessTransitive(a[1..], b[1..], c[1..]);
    }
  }

  lemma {:induction false} LessTotal(a: string, b: string)
    ensures Less(a, b) || a == b || Less(b, a)
    ensures !(Less(a, b) && Less(b, a)) && !Less(a, a)
    decreases |a|
  {
    if a != "" {
      LessTotal(a[1..], a[1..]);
      if b != "" && a[0] == b[0] {
        LessTotal(a[1..], b[1..]);
        assert a == [a[0]] + a[1..] && b == [b[0]] + b[1..];
      }
    }
  }

  /** A key beyond all others goes to the end. */
  lemma {:induction false} InsertLast(entries: seq<Entry>, key: string, val: Value)
    requires forall i | 0 <= i < |entries| :: Less(entries[i].key, key)
    ensures Insert(entries, key, val) == entries + [Entry(key, val)]
  {
    if entries != [] {
      LessTotal(entries[0].key, key);
      InsertLast(entries[1..], key, val);
    }
  }

  // ----- Parsing what was encoded

  /** Encodings are never empty and never start with the closing `e`. */
  lemma EncodedStart(v: Value)
    ensures Encode(v) != "" && Encode(v)[0] != 'e'
  {
    if v.Str? {
      assert Dec(|v.s|)[0] in Dec(|v.s|);
    }
  }

  /** Parsing stops exactly after an encoded value, whatever follows it. */
  lemma {:induction false} ParseEncoded(v: Value, t: string)
    requires Valid(v)
    ensures Parse(Encode(v) + t) == Ok(v, |Encode(v)|)
    decreases v, 1
  {
    match v
    case Int(n) => ParseEncodedInt(n, t);
    case Str(s) => ParseEncodedString(s, t);
    case List(items) =>
      assert [] + items == items;
      ParseEncodedItems(items, [], t);
      ListOpens(items, t);
    case Dict(entries) =>
      assert [] + entries == entries;
      ParseEncodedEntries(entries, [], t);
      DictOpens(entries, t);
  }

  lemma ListOpens(items: seq<Value>, t: string)
    ensures Parse(Encode(List(items)) + t) == AsList(Shift(ParseItems(EncodeItems(items) + "e" + t, []), 1))
  {
    var s := Encode(List(items)) + t;
    assert s[0] == 'l' && s[1..] == EncodeItems(items) + "e" + t;
  }

  lemma DictOpens(entries: seq<Entry>, t: string)
    ensures Parse(Encode(Dict(entries)) + t) == AsDict(Shift(ParseEntries(EncodeEntries(entries) + "e" + t, []), 1))
  {
    var s := Encode(Dict(entries)) + t;
    assert s[0] == 'd' && s[1..] == EncodeEntries(entries) + "e" + t;
  }

  lemma {:induction false} ParseEncodedItems(items: seq<Value>, acc: seq<Value>, t: string)
    requires ValidItems(items)
    ensures ParseItems(EncodeItems(items) + "e" + t, acc) == Ok(acc + items, |EncodeItems(items)| + 1)
    decreases items, 0
  {
    if items == [] {
      assert acc + items == acc;
    } else {
      var v, rest := items[0], EncodeItems(items[1..]) + "e" + t;
      ParseEncoded(v, rest);
      ItemsCons(v, rest, acc);
      ParseEncodedItems(items[1..], acc + [v], t);
      ItemsText(items, t);
      OneItemFurther(acc, items);
    }
  }

  lemma OneItemFurther(acc: seq<Value>, items: seq<Value>)
    requires items != []
    ensures acc + [items[0]] + items[1..] == acc + items
  {
  }

  lemma ItemsText(items: seq<Value>, t: string)
    requires items != []
    ensures EncodeItems(items) + "e" + t == Encode(items[0]) + (EncodeItems(items[1..]) + "e" + t)
    ensures |EncodeItems(items)| == |Encode(items[0])| + |EncodeItems(items[1..])|
  {
  }

  lemma ItemsCons(v: Value, rest: string, acc: seq<Value>)
    requires Parse(Encode(v) + rest) == Ok(v, |Encode(v)|)
    ensures ParseItems(Encode(v) + rest, acc) == Shift(ParseItems(rest, acc + [v]), |Encode(v)|)
  {
    EncodedStart(v);
    assert (Encode(v) + rest)[|Encode(v)|..] == rest;
  }

  lemma {:induction false} ParseEncodedEntries(entries: seq<Entry>, acc: seq<Entry>, t: string)
    requires ValidEntries(entries) && Sorted(acc + entries)
    ensures ParseEntries(EncodeEntries(entries) + "e" + t, acc) == Ok(acc + entries, |EncodeEntries(entries)| + 1)
    decreases entries, 0
  {
    if entries == [] {
      NoEntries(acc, t);
    } else {
      ParseEncoded(entries[0].val, EncodeEntries(entries[1..]) + "e" + t);
      OneEntryFurther(acc, entries);
      ParseEncodedEntries(entries[1..], acc + [entries[0]], t);
      EntryParsed(entries, acc, t);
    }
  }

  lemma EntryParsed(entries: seq<Entry>, acc: seq<Entry>, t: string)
    requires entries != [] && |entries[0].key| <= UINT64_MAX && Sorted(acc + entries)
    requires Parse(Encode(entries[0].val) + (EncodeEntries(entries[1..]) + "e" + t))
          == Ok(entries[0].val, |Encode(entries[0].val)|)
    requires ParseEntries(EncodeEntries(entries[1..]) + "e" + t, acc + [entries[0]])
          == Ok(acc + entries, |EncodeEntries(entries[1..])| + 1)
    ensures ParseEntries(EncodeEntries(entries) + "e" + t, acc) == Ok(acc + entries, |EncodeEntries(entries)| + 1)
  {
    EntriesText(entries, t);
    NextKeyLast(acc, entries);
    EntryThenRest(entries[0], EncodeEntries(entries[1..]) + "e" + t, acc);
  }

  lemma NoEntries(acc: seq<Entry>, t: string)
    ensures ParseEntries(EncodeEntries([]) + "e" + t, acc) == Ok(acc + [], 1)
  {
    assert acc + [] == acc;
  }

  lemma OneEntryFurther(acc: seq<Entry>, entries: seq<Entry>)
    requires entries != []
    ensures acc + [entries[0]] + entries[1..] == acc + entries
  {
  }

  lemma EntriesText(entries: seq<Entry>, t: string)
    requires entries != []
    ensures EncodeEntries(entries) + "e" + t
         == EncodeString(entries[0].key) + Encode(entries[0].val) + (EncodeEntries(entries[1..]) + "e" + t)
    ensures |EncodeEntries(entries)| - |EncodeEntries(entries[1..])|
         == |EncodeString(entries[0].key) + Encode(entries[0].val)|
  {
  }

  lemma EntryThenRest(entry: Entry, rest: string, acc: seq<Entry>)
    requires |entry.key| <= UINT64_MAX && Parse(Encode(entry.val) + rest) == Ok(entry.val, |Encode(entry.val)|)
    ensures var head := EncodeString(entry.key) + Encode(entry.val);
            ParseEntries(head + rest, acc) == Shift(ParseEntries(rest, Insert(acc, entry.key, entry.val)), |head|)
  {
    ParseKeyAndText(entry.key, Encode(entry.val), entry.val, rest);
    EntriesCons(EncodeString(entry.key) + Encode(entry.val), rest, acc, entry);
  }

  lemma NextKeyLast(acc: seq<Entry>, entries: seq<Entry>)
    requires entries != [] && Sorted(acc + entries)
    ensures Insert(acc, entries[0].key, entries[0].val) == acc + [entries[0]]
  {
    var all := acc + entries;
    assert all[|acc|] == entries[0];
    assert forall i | 0 <= i < |acc| :: acc[i] == all[i];
    InsertLast(acc, entries[0].key, entries[0].val);
  }

  lemma EntriesCons(head: string, rest: string, acc: seq<Entry>, entry: Entry)
    requires ParseEntry(head + rest) == Ok(entry, |head|) && head != "" && head[0] != 'e'
    ensures ParseEntries(head + rest, acc) == Shift(ParseEntries(rest, Insert(acc, entry.key, entry.val)), |head|)
  {
    assert (head + rest)[|head|..] == rest;
  }

  /** A key and the text of a value make an entry. */
  lemma ParseKeyAndText(key: string, text: string, val: Value, rest: string)
    requires |key| <= UINT64_MAX && Parse(text + rest) == Ok(val, |text|)
    ensures var head := EncodeString(key) + text;
            ParseEntry(head + rest) == Ok(Entry(key, val), |head|) && head != "" && head[0] != 'e'
  {
    ParseEncodedString(key, text + rest);
    ThreeParts(EncodeString(key), text, rest);
    assert Dec(|key|)[0] in Dec(|key|);
  }

  lemma ThreeParts(a: string, b: string, c: string)
    ensures a + b + c == a + (b + c) && (a + b + c)[|a|..] == b + c
  {
  }

  /** No two values share an encoding, and no encoding begins another. */
  lemma EncodePrefixFree(v: Value, w: Value)
    requires Valid(v) && Valid(w) && Encode(v) <= Encode(w)
    ensures v == w
  {
    ParseEncoded(v, Encode(w)[|Encode(v)|..]);
    assert Encode(v) + Encode(w)[|Encode(v)|..] == Encode(w) + "";
    ParseEncoded(w, "");
  }

  // ----- Dictionaries behave as maps

  lemma {:induction false} InsertKeys(entries: seq<Entry>, key: string, val: Value, x: string)
    requires forall i | 0 <= i < |entries| :: Less(x, entries[i].key)
    requires Less(x, key)
    ensures forall i | 0 <= i < |Insert(entries, key, val)| :: Less(x, Insert(entries, key, val)[i].key)
  {
    if entries != [] && entries[0].key != key && !Less(key, entries[0].key) {
      InsertKeys(entries[1..], key, val, x);
    }
  }

  lemma {:induction false} InsertSorted(entries: seq<Entry>, key: string, val: Value)
    requires Sorted(entries)
    ensures Sorted(Insert(entries, key, val))
  {
    if entries == [] || entries[0].key == key {
    } else if Less(key, entries[0].key) {
      forall i | 0 <= i < |entries| ensures Less(key, entries[i].key) {
        if i > 0 {
          LessTransitive(key, entries[0].key, entries[i].key);
        }
      }
    } else {
      LessTotal(key, entries[0].key);
      InsertSorted(entries[1..], key, val);
      InsertKeys(entries[1..], key, val, entries[0].key);
    }
  }

  /** Assigning to a key changes what is found under that key and nothing else. */
  lemma {:induction false} InsertLookup(entries: seq<Entry>, key: string, val: Value, x: string)
    requires Sorted(entries)
    ensures Lookup(Insert(entries, key, val), x) == if x == key then Some(val) else Lookup(entries, x)
  {
    if entries == [] || entries[0].key == key || Less(key, entries[0].key) {
      LessTotal(key, key);
    } else {
      InsertLookup(entries[1..], key, val, x);
    }
  }

  lemma {:induction false} InsertValid(entries: seq<Entry>, key: string, val: Value)
    requires ValidEntries(entries) && |key| <= UINT64_MAX && Valid(val)
    ensures ValidEntries(Insert(entries, key, val))
  {
    if entries != [] && entries[0].key != key && !Less(key, entries[0].key) {
      InsertValid(entries[1..], key, val);
    }
  }

  lemma {:induction false} AppendValid(items: seq<Value>, v: Value)
    requires ValidItems(items) && Valid(v)
    ensures ValidItems(items + [v])
  {
    if items != [] {
      assert (items + [v])[1..] == items[1..] + [v];
      AppendValid(items[1..], v);
    }
  }

  // ----- What the parser yields

  /** Whatever the input, a parsed value is one the source can hold, with its keys in order. */
  lemma {:induction false} ParsedIsValid(s: string)
    requires Parse(s).Ok?
    ensures Valid(Parse(s).value)
    decreases |s|, 0
  {
    if s[0] == 'l' {
      ParsedItemsValid(s[1..], []);
    } else if s[0] == 'd' {
      ParsedEntriesValid(s[1..], []);
    }
  }

  lemma {:induction false} ParsedItemsValid(s: string, acc: seq<Value>)
    requires ParseItems(s, acc).Ok? && ValidItems(acc)
    ensures ValidItems(ParseItems(s, acc).value)
    decreases |s|, 1
  {
    if s[0] != 'e' {
      ParsedIsValid(s);
      AppendValid(acc, Parse(s).value);
      ParsedItemsValid(s[Parse(s).used..], acc + [Parse(s).value]);
    }
  }

  lemma {:induction false} ParsedEntriesValid(s: string, acc: seq<Entry>)
    requires ParseEntries(s, acc).Ok? && ValidEntries(acc) && Sorted(acc)
    ensures ValidEntries(ParseEntries(s, acc).value) && Sorted(ParseEntries(s, acc).value)
    decreases |s|, 2
  {
    if s[0] != 'e' {
      ParsedEntryValid(s);
      var Entry(key, val) := ParseEntry(s).value;
      InsertValid(acc, key, val);
      InsertSorted(acc, key, val);
      ParsedEntriesValid(s[ParseEntry(s).used..], Insert(acc, key, val));
    }
  }

  lemma {:induction false} ParsedEntryValid(s: string)
    requires ParseEntry(s).Ok?
    ensures |ParseEntry(s).value.key| <= UINT64_MAX && Valid(ParseEntry(s).value.val)
    decreases |s|, 1
  {
    ParsedIsValid(s);
    ParsedIsValid(s[Parse(s).used..]);
  }

  /** Encoding what was parsed and parsing it again gives the same value, for every accepted input. */
  lemma ReparseIsStable(s: string)
    requires Parse(s).Ok?
    ensures Parse(Encode(Parse(s).value)) == Ok(Parse(s).value, |Encode(Parse(s).value)|)
  {
    var v := Parse(s).value;
    ParsedIsValid(s);
    ParseEncoded(v, "");
    assert Encode(v) + "" == Encode(v);
  }

  // ----- Locality

  lemma FindLocal(s: string, s': string, c: char, from: nat, n: nat)
    requires from <= n <= |s| && n <= |s'| && s[..n] == s'[..n] && Find(s, c, from) < n
    ensures Find(s', c, from) == Find(s, c, from)
  {
    var k, k' := Find(s, c, from), Find(s', c, from);
    assert forall j | 0 <= j < n :: s[j] == s[..n][j] == s'[j];
  }

  /** The result depends only on the characters used: what follows them may be anything. */
  lemma {:induction false} ParseLocal(s: string, t: string)
    requires Parse(s).Ok?
    ensures Parse(s[..Parse(s).used] + t) == Parse(s)
    decreases |s|, 0
  {
    var n := Parse(s).used;
    var s' := s[..n] + t;
    assert s'[0] == s[0] && s'[..n] == s[..n];
    if s[0] == 'i' {
      IntLocal(s, s', n);
    } else if IsDigit(s[0]) {
      StringLocal(s, s', n);
    } else if s[0] == 'l' {
      ItemsLocal(s[1..], [], t);
      ListLocal(s, t, n);
    } else {
      EntriesLocal(s[1..], [], t);
      DictLocal(s, t, n);
    }
  }

  lemma ListLocal(s: string, t: string, n: nat)
    requires Parse(s).Ok? && s[0] == 'l' && n == Parse(s).used
    requires var r := ParseItems(s[1..], []); r.Ok? && ParseItems(s[1..][..r.used] + t, []) == r
    ensures Parse(s[..n] + t) == Parse(s)
  {
    PrefixTail(s, n, t);
  }

  lemma DictLocal(s: string, t: string, n: nat)
    requires Parse(s).Ok? && s[0] == 'd' && n == Parse(s).used
    requires var r := ParseEntries(s[1..], []); r.Ok? && ParseEntries(s[1..][..r.used] + t, []) == r
    ensures Parse(s[..n] + t) == Parse(s)
  {
    PrefixTail(s, n, t);
  }

  lemma PrefixTail(s: string, n: nat, t: string)
    requires 1 <= n <= |s|
    ensures (s[..n] + t)[1..] == s[1..][..n - 1] + t
  {
  }

  lemma IntLocal(s: string, s': string, n: nat)
    requires s != "" && ParseInt(s).Ok? && n == ParseInt(s).used <= |s'| && s'[..n] == s[..n]
    ensures ParseInt(s') == ParseInt(s)
  {
    var end := Find(s, 'e', 1);
    FindLocal(s, s', 'e', 1, n);
    assert s'[1..end] == s'[..n][1..end] == s[1..end];
  }

  lemma StringLocal(s: string, s': string, n: nat)
    requires s != "" && IsDigit(s[0]) && ParseString(s).Ok? && n == ParseString(s).used <= |s'| && s'[..n] == s[..n]
    ensures s'[0] == s[0] && ParseString(s') == ParseString(s)
  {
    var colon := Find(s, ':', 0);
    assert s'[0] == s'[..n][0] == s[0];
    FindLocal(s, s', ':', 0, n);
    assert s'[..colon] == s'[..n][..colon] == s[..colon];
    assert s'[colon + 1..n] == s'[..n][colon + 1..n] == s[colon + 1..n];
  }

  lemma {:induction false} ItemsLocal(s: string, acc: seq<Value>, t: string)
    requires ParseItems(s, acc).Ok?
    ensures ParseItems(s[..ParseItems(s, acc).used] + t, acc) == ParseItems(s, acc)
    decreases |s|, 1
  {
    var n := ParseItems(s, acc).used;
    var s' := s[..n] + t;
    assert s'[0] == s[0];
    if s[0] != 'e' {
      var m := Parse(s).used;
      var rest := s[m..][..n - m] + t;
      assert s' == s[..m] + rest && s'[m..] == rest;
      ParseLocal(s, rest);
      ItemsLocal(s[m..], acc + [Parse(s).value], t);
    }
  }

  lemma {:induction false} EntriesLocal(s: string, acc: seq<Entry>, t: string)
    requires ParseEntries(s, acc).Ok?
    ensures ParseEntries(s[..ParseEntries(s, acc).used] + t, acc) == ParseEntries(s, acc)
    decreases |s|, 2
  {
    var n := ParseEntries(s, acc).used;
    var s' := s[..n] + t;
    assert s'[0] == s[0];
    if s[0] != 'e' {
      var entry := ParseEntry(s);
      var m := entry.used;
      var rest := s[m..][..n - m] + t;
      assert s' == s[..m] + rest && s'[m..] == rest;
      EntryLocal(s, rest);
      EntriesLocal(s[m..], Insert(acc, entry.value.key, entry.value.val), t);
    }
  }

  lemma {:induction false} EntryLocal(s: string, t: string)
    requires ParseEntry(s).Ok?
    ensures ParseEntry(s[..ParseEntry(s).used] + t) == ParseEntry(s)
    decreases |s|, 1
  {
    var n, m := ParseEntry(s).used, Parse(s).used;
    var s' := s[..n] + t;
    var rest := s[m..][..n - m] + t;
    assert s' == s[..m] + rest && s'[m..] == rest;
    ParseLocal(s, rest);
    ParseLocal(s[m..], t);
  }

  // ----- Numbers that are not canonical

  /** A space, tab, line feed, vertical tab, form feed or carriage return. */
  predicate IsBlank(c: char) {
    c == ' ' || 9 <= c as int <= 13
  }

  lemma {:induction false} SpaceSkipped(space: string, t: string)
    requires (forall c | c in space :: IsBlank(c)) && (t == "" || !IsBlank(t[0]))
    ensures SkipSpace(space + t) == t
    decreases space
  {
    if space == "" {
      assert space + t == t;
    } else {
      assert (space + t)[1..] == space[1..] + t && space[0] in space;
      SpaceSkipped(space[1..], t);
    }
  }

  lemma {:induction false} ZerosSkipped(zeros: string, t: string)
    requires forall c | c in zeros :: c == '0'
    ensures ReadNat(zeros + t, 0) == ReadNat(t, 0)
    decreases zeros
  {
    if zeros == "" {
      assert zeros + t == t;
    } else {
      assert (zeros + t)[1..] == zeros[1..] + t && zeros[0] in zeros;
      assert forall c | c in zeros[1..] :: c in zeros;
      ZerosSkipped(zeros[1..], t);
    }
  }

  /** Text that goes on after a sign. */
  lemma SignSplit(sign: string, t: string)
    requires sign in {"", "-", "+"} && (sign == "" ==> t == "" || !(t[0] == '-' || t[0] == '+'))
    ensures var text := sign + t;
            && (text != "" && text[0] == '-' <==> sign == "-")
            && (if text != "" && (text[0] == '-' || text[0] == '+') then text[1..] else text) == t
  {
    if sign == "" {
      assert sign + t == t;
    } else {
      assert (sign + t)[1..] == t && (sign + t)[0] == sign[0];
    }
  }

  /** Text that goes on after spaces and a sign. */
  lemma SignedText(space: string, sign: string, t: string)
    requires (forall c | c in space :: IsBlank(c)) && sign in {"", "-", "+"}
    requires sign == "" ==> t == "" || !(IsBlank(t[0]) || t[0] == '-' || t[0] == '+')
    ensures ToInt64(space + (sign + t)) ==
              if t == "" || !IsDigit(t[0]) then None
              else var v: int := if sign == "-" then 0 - ReadNat(t, 0) else ReadNat(t, 0);
                   if -INT64_MAX - 1 <= v <= INT64_MAX then Some(v) else None
  {
    var text := sign + t;
    assert text == "" || !IsBlank(text[0]) by {
      assert sign != "" ==> text[0] == sign[0];
      assert sign == "" ==> text == t;
    }
    SpaceSkipped(space, text);
    SignSplit(sign, t);
  }

  /** Spaces, a sign and leading zeros may come before a number, and anything but a digit after it. */
  lemma NumberIsRead(space: string, sign: string, zeros: string, n: nat, rest: string)
    requires (forall c | c in space :: IsBlank(c)) && sign in {"", "-", "+"} && forall c | c in zeros :: c == '0'
    requires rest == "" || !IsDigit(rest[0])
    ensures var v: int := if sign == "-" then 0 - n else n;
            ToInt64(space + (sign + (zeros + (Dec(n) + rest)))) ==
              if -0x8000_0000_0000_0000 <= v < 0x8000_0000_0000_0000 then Some(v) else None
  {
    var t := zeros + (Dec(n) + rest);
    ZerosSkipped(zeros, Dec(n) + rest);
    ReadDec(n, rest);
    assert Dec(n)[0] in Dec(n) && IsDigit(Dec(n)[0]);
    assert t[0] == if zeros == "" then Dec(n)[0] else zeros[0];
    assert zeros != "" ==> zeros[0] in zeros;
    SignedText(space, sign, t);
  }

  /** Without a digit after spaces and a sign there is no number. */
  lemma NoNumberIsRead(space: string, sign: string, rest: string)
    requires (forall c | c in space :: IsBlank(c)) && sign in {"", "-", "+"}
    requires rest == "" || !IsDigit(rest[0])
    requires sign == "" ==> rest == "" || !(IsBlank(rest[0]) || rest[0] == '-' || rest[0] == '+')
    ensures ToInt64(space + (sign + rest)) == None
  {
    SignedText(space, sign, rest);
  }

  // ----- The forms of values

  /** What a value of each kind is encoded as. */
  lemma FormsOfValues()
    ensures Encode(Int(42)) == "i42e" && Encode(Int(-3)) == "i-3e"
    ensures Encode(Str("spam")) == "4:spam" && Encode(Str("")) == "0:"
    ensures Encode(List([Str("spam"), Int(42)])) == "l4:spami42ee"
    ensures Encode(Dict([Entry("bar", Int(20)), Entry("foo", Int(42))])) == "d3:bari20e3:fooi42ee"
  {
    assert Dec(4) == "4" && Dec(2) == "2" && Dec(42) == "42" && Dec(3) == "3" && Dec(20) == "20" && Dec(0) == "0";
    FormOfList();
    FormOfDict();
  }

  lemma FormOfList()
    ensures Encode(List([Str("spam"), Int(42)])) == "l4:spami42ee"
  {
    var items := [Str("spam"), Int(42)];
    assert Dec(4) == "4" && Dec(42) == "42";
    assert Encode(items[0]) == "4:spam" && Encode(items[1]) == "i42e";
    assert items[1..] == [Int(42)] && items[1..][1..] == [];
    assert EncodeItems(items[1..]) == "i42e";
  }

  lemma FormOfDict()
    ensures Encode(Dict([Entry("bar", Int(20)), Entry("foo", Int(42))])) == "d3:bari20e3:fooi42ee"
  {
    var entries := [Entry("bar", Int(20)), Entry("foo", Int(42))];
    assert Dec(3) == "3" && Dec(20) == "20" && Dec(42) == "42";
    assert EncodeString("bar") == "3:bar" && EncodeString("foo") == "3:foo";
    assert Encode(Int(20)) == "i20e" && Encode(Int(42)) == "i42e";
    assert entries[1..] == [Entry("foo", Int(42))] && entries[1..][1..] == [];
    assert EncodeEntries(entries[1..]) == "3:foo" + "i42e";
  }
}
