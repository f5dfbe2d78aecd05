/** Hexadecimal and percent escapes (sections 2.1 and 2.3 of RFC 3986). A character stands for a byte. */
module Escapes {
  import opened Bytes

  function HexDigit(d: nat, upper: bool): char
    requires d < 16
  {
    if d < 10 then (d + '0' as int) as char
    else if upper then (d - 10 + 'A' as int) as char
    else (d - 10 + 'a' as int) as char
  }

  /** The value of a hexadecimal digit of either case. */
  function HexValue(c: char): (v: Option<nat>)
    ensures v.Some? ==> v.value < 16
  {
    if '0' <= c <= '9' then Some(c as int - '0' as int)
    else if 'a' <= c <= 'f' then Some(c as int - 'a' as int + 10)
    else if 'A' <= c <= 'F' then Some(c as int - 'A' as int + 10)
    else None
  }

  const LOWER_DIGITS := "0123456789abcdef"
  const UPPER_DIGITS := "0123456789ABCDEF"

  lemma HexDigitIs(d: nat, upper: bool)
    requires d < 16
    ensures HexDigit(d, upper) == if upper then UPPER_DIGITS[d] else LOWER_DIGITS[d]
  {
  }

  lemma HexDigitValue(d: nat, upper: bool)
    requires d < 16
    ensures HexValue(HexDigit(d, upper)) == Some(d)
  {
  }

  // ----- Hexadecimal

  function HexOf(data: octets): string
  {
    if data == "" then "" else
      [HexDigit(data[0] as int / 16, false), HexDigit(data[0] as int % 16, false)] + HexOf(data[1..])
  }

  /** Pairs of digits as bytes; nothing when any character is not a digit. */
  function Unhex(hex: string): (r: Option<string>)
    requires |hex| % 2 == 0
  {
    if hex == "" then Some("") else
    match (HexValue(hex[0]), HexValue(hex[1]), Unhex(hex[2..]))
    case (Some(h), Some(l), Some(rest)) => Some([(h * 16 + l) as char] + rest)
    case _ => None
  }

  function FromHexOf(hex: string): string {
    if |hex| < 2 || |hex| % 2 != 0 || Unhex(hex).None? then "" else Unhex(hex).value
  }

  lemma NextPair(data: octets, i: nat, pair: string)
    requires i < |data| && pair == [HexDigit(data[i] as int / 16, false), HexDigit(data[i] as int % 16, false)]
    ensures HexOf(data[i..]) == pair + HexOf(data[i + 1..])
  {
    assert data[i..][1..] == data[i + 1..] && data[i..][0] == data[i];
  }

  lemma Associative(a: string, b: string, c: string)
    ensures a + (b + c) == a + b + c
  {
  }

  method ToHex(data: octets) returns (r: string)
    ensures r == HexOf(data)
  {
    r := "";
    for i := 0 to |data|
      invariant r + HexOf(data[i..]) == HexOf(data)
    {
      var c := data[i] as int;
      var pair := [HexDigit(c / 16, false), HexDigit(c % 16, false)];
      NextPair(data, i, pair);
      Associative(r, pair, HexOf(data[i + 1..]));
      r := r + pair;
    }
  }

  method FromHex(hex: string) returns (r: string)
    ensures r == FromHexOf(hex)
  {
    r := "";
    if |hex| < 2 || |hex| % 2 != 0 {
      return;
    }
    var i := 0;
    assert hex[0..] == hex && (Unhex(hex).Some? ==> r + Unhex(hex).value == Unhex(hex).value);
    while i < |hex|
      invariant 0 <= i <= |hex| && i % 2 == 0
      invariant Unhex(hex) == match Unhex(hex[i..]) case Some(rest) => Some(r + rest) case None => None
      decreases |hex| - i
    {
      var h, l := HexValue(hex[i]), HexValue(hex[i + 1]);
      assert hex[i..][2..] == hex[i + 2..];
      if h.None? || l.None? {
        return "";
      }
      var c := (h.value * 16 + l.value) as char;
      assert forall rest: string :: r + ([c] + rest) == r + [c] + rest;
      r := r + [c];
      i := i + 2;
    }
  }

  lemma {:induction false} UnhexHex(data: octets)
    ensures |HexOf(data)| == 2 * |data| && Unhex(HexOf(data)) == Some(data)
    ensures forall c | c in HexOf(data) :: HexValue(c).Some? && c != '%' && c != '+' && c != '&' && c != '='
  {
    if data != "" {
      UnhexHex(data[1..]);
      var v := data[0] as int;
      HexDigitValue(v / 16, false);
      HexDigitValue(v % 16, false);
      assert HexOf(data)[2..] == HexOf(data[1..]);
      assert data == [data[0]] + data[1..];
    }
  }

  /** Digits of either case are read in pairs, the more significant one first; anything else gives nothing. */
  lemma {:induction false} UnhexAt(hex: string, i: nat)
    requires |hex| % 2 == 0
    ensures Unhex(hex).Some? <==> forall c | c in hex :: HexValue(c).Some?
    ensures Unhex(hex).Some? ==> |Unhex(hex).value| == |hex| / 2
    ensures Unhex(hex).Some? && 2 * i + 1 < |hex| ==>
              Unhex(hex).value[i] as int == 16 * HexValue(hex[2 * i]).value + HexValue(hex[2 * i + 1]).value
    decreases |hex|
  {
    if hex != "" {
      UnhexAt(hex[2..], if i > 0 then i - 1 else 0);
      assert hex == [hex[0]] + [hex[1]] + hex[2..];
    }
  }

  /** Each byte is two lower-case digits, the more significant one first. */
  lemma {:induction false} HexAt(data: octets, i: nat)
    requires i < |data|
    ensures |HexOf(data)| == 2 * |data|
    ensures HexOf(data)[2 * i] == LOWER_DIGITS[data[i] as int / 16]
    ensures HexOf(data)[2 * i + 1] == LOWER_DIGITS[data[i] as int % 16]
    decreases data
  {
    UnhexHex(data);
    if i > 0 {
      HexAt(data[1..], i - 1);
      assert forall j | 2 <= j < |HexOf(data)| :: HexOf(data)[j] == HexOf(data[1..])[j - 2];
    } else {
      HexDigitIs(data[0] as int / 16, false);
      HexDigitIs(data[0] as int % 16, false);
    }
  }

  /** Hexadecimal gives back what was written in it. */
  lemma HexRoundTrip(data: octets)
    ensures FromHexOf(HexOf(data)) == data
  {
    UnhexHex(data);
    FromUnhexed(HexOf(data), data);
  }

  lemma FromUnhexed(hex: string, data: string)
    requires |hex| == 2 * |data| && Unhex(hex) == Some(data)
    ensures FromHexOf(hex) == data
  {
  }

  // ----- Percent escapes

  predicate IsUnreserved(c: char) {
    'a' <= c <= 'z' || 'A' <= c <= 'Z' || '0' <= c <= '9' || c == '-' || c == '_' || c == '.' || c == '~'
  }

  function EscapeOf(c: octet): string
  {
    if IsUnreserved(c) then [c] else ['%', HexDigit(c as int / 16, true), HexDigit(c as int % 16, true)]
  }

  function Escaped(s: octets): string
  {
    if s == "" then "" else
      EscapeOf(s[0]) + Escaped(s[1..])
  }

  /**
    Reading a hexadecimal number from the two characters of an escape: a space before the digit is
    skipped, a sign is taken, a second character that is no digit ends the number, and `0x` with no
    digit after it is no number. The value is kept as a byte.
   */
  function ScanHex(a: char, b: char): Option<char> {
    var x, y := HexValue(a), HexValue(b);
    if IsSpace(a) || a == '+' then (if y.Some? then Some(y.value as char) else None)
    else if a == '-' then (if y.Some? then Some(((256 - y.value) % 256) as char) else None)
    else if x.None? then None
    else if y.Some? then Some((x.value * 16 + y.value) as char)
    else if a == '0' && (b == 'x' || b == 'X') then None
    else Some(x.value as char)
  }

  /** Decoding; a percent sign whose two characters are no number is dropped. */
  function Unescaped(s: string): string {
    if s == "" then ""
    else if s[0] == '%' && |s| > 2 then
      match ScanHex(s[1], s[2])
      case Some(c) => [c] + Unescaped(s[3..])
      case None => Unescaped(s[1..])
    else if s[0] == '+' then " " + Unescaped(s[1..])
    else [s[0]] + Unescaped(s[1..])
  }

  method UrlEncode(str: octets) returns (r: string)
    ensures r == Escaped(str)
  {
    r := "";
    for i := 0 to |str|
      invariant r + Escaped(str[i..]) == Escaped(str)
    {
      assert str[i..][1..] == str[i + 1..];
      var e := EscapeOf(str[i]);
      assert r + (e + Escaped(str[i + 1..])) == r + e + Escaped(str[i + 1..]);
      r := r + e;
    }
  }

  method UrlDecode(str: string) returns (r: string)
    ensures r == Unescaped(str)
  {
    r := "";
    var i := 0;
    while i < |str|
      invariant 0 <= i <= |str| && r + Unescaped(str[i..]) == Unescaped(str)
      decreases |str| - i
    {
      assert str[i..][1..] == str[i + 1..];
      assert forall c: char, rest: string :: r + ([c] + rest) == r + [c] + rest;
      if str[i] == '%' && i + 2 < |str| {
        assert str[i..][3..] == str[i + 3..];
        var c := ScanHex(str[i + 1], str[i + 2]);
        if c.Some? {
          r := r + [c.value];
          i := i + 2;
        }
      } else if str[i] == '+' {
        r := r + " ";
      } else {
        r := r + [str[i]];
      }
      i := i + 1;
    }
  }

  /** Escaped text has neither `&` nor `=`, and decoding gives back the text. */
  lemma {:induction false} UrlRoundTrip(s: octets)
    ensures Unescaped(Escaped(s)) == s
    ensures '&' !in Escaped(s) && '=' !in Escaped(s)
  {
    if s != "" {
      UrlRoundTrip(s[1..]);
      var c, rest := s[0] as int, Escaped(s[1..]);
      HexDigitValue(c / 16, true);
      HexDigitValue(c % 16, true);
      assert IsUnreserved(s[0]) ==> ([s[0]] + rest)[1..] == rest;
      assert !IsUnreserved(s[0]) ==> Escaped(s)[3..] == rest;
      assert s == [s[0]] + s[1..];
    }
  }

  /** A letter, a digit and any of four marks stay; any other byte is a percent sign and two upper-case digits. */
  lemma EscapeIs(c: octet)
    ensures EscapeOf(c) ==
              if 'A' <= c <= 'Z' || 'a' <= c <= 'z' || '0' <= c <= '9' || c in "-_.~" then [c]
              else ['%', UPPER_DIGITS[c as int / 16], UPPER_DIGITS[c as int % 16]]
  {
    HexDigitIs(c as int / 16, true);
    HexDigitIs(c as int % 16, true);
  }

  /** Text is escaped character by character. */
  lemma {:induction false} EscapedJoins(a: octets, b: octets)
    ensures Escaped(a + b) == Escaped(a) + Escaped(b)
    decreases a
  {
    if a == "" {
      assert a + b == b;
    } else {
      EscapedJoins(a[1..], b);
      assert (a + b)[1..] == a[1..] + b && (a + b)[0] == a[0];
      Associative(EscapeOf(a[0]), Escaped(a[1..]), Escaped(b));
    }
  }

  /** What escapes are decoded to whose digits are of either case, too few, or behind a space or a sign. */
  lemma OddEscapes()
    ensures Unescaped("%4A") == "J" && Unescaped("%4a") == "J" && Unescaped("%4G") == [4 as char]
    ensures Unescaped("%+5") == Unescaped("% 5") == [5 as char] && Unescaped("%-5") == [251 as char]
  {
    Three('4', 'A');
    Three('4', 'a');
    Three('4', 'G');
    Three('+', '5');
    Three(' ', '5');
    Three('-', '5');
  }

  /** What is no escape: the percent sign is dropped when two characters follow it, and kept otherwise. */
  lemma NoEscapes()
    ensures Unescaped("%GA") == "GA" && Unescaped("%0x") == "0x" && Unescaped("%4") == "%4" && Unescaped("+") == " "
  {
    Three('G', 'A');
    Three('0', 'x');
    PlainDecodes("4");
    PlainDecodes("GA");
    PlainDecodes("0x");
    assert "%4"[1..] == "4";
  }

  /** One escape that ends the text. */
  lemma Three(a: char, b: char)
    ensures Unescaped(['%', a, b]) == match ScanHex(a, b)
                                      case Some(c) => [c]
                                      case None => Unescaped([a, b])
  {
    assert ['%', a, b][1..] == [a, b] && ['%', a, b][3..] == "";
  }

  /** Text without percent signs and plus signs is its own decoding. */
  lemma {:induction false} PlainDecodes(s: string)
    requires '%' !in s && '+' !in s
    ensures Unescaped(s) == s
  {
    if s != "" {
      assert s[0] in s && forall c | c in s[1..] :: c in s;
      PlainDecodes(s[1..]);
      PlainFirst(s);
    }
  }

  lemma PlainFirst(s: string)
    requires s != "" && s[0] != '%' && s[0] != '+'
    ensures Unescaped(s) == [s[0]] + Unescaped(s[1..]) && [s[0]] + s[1..] == s
  {
  }
}
