/** Base 32 decoding (section 6 of RFC 4648) through a 32-bit accumulator that wraps. */
module Base32 {
  import opened Bytes

  /** The value of a character, upper or lower case, or none. */
  function DigitOf(c: char): Option<nat> {
    if 'A' <= c <= 'Z' then Some(c as int - 'A' as int)
    else if 'a' <= c <= 'z' then Some(c as int - 'a' as int)
    else if '2' <= c <= '7' then Some(c as int - '2' as int + 26)
    else None
  }

  const ALPHABET := "ABCDEFGHIJKLMNOPQRSTUVWXYZ234567"

  /** The digits of the alphabet, in order, have the values from 0 on. */
  lemma DigitAt(k: nat)
    requires k < 32
    ensures DigitOf(ALPHABET[k]) == Some(k)
  {
  }

  /** The digits before the padding; other characters are passed over. */
  function Digits(s: string): (d: seq<nat>)
    ensures forall x | x in d :: x < 32
  {
    if s == "" || s[0] == '=' then []
    else if DigitOf(s[0]).Some? then [DigitOf(s[0]).value] + Digits(s[1..])
    else Digits(s[1..])
  }

  /** Lower-case letters have the values of upper-case ones; no other character has one. */
  lemma OtherDigits(c: char)
    ensures 'a' <= c <= 'z' ==> DigitOf(c) == DigitOf((c as int - 32) as char)
    ensures DigitOf(c).Some? <==> 'A' <= c <= 'Z' || 'a' <= c <= 'z' || '2' <= c <= '7'
  {
  }

  /** Digits are read character by character, up to the first padding character. */
  lemma {:induction false} DigitsJoin(s: string, c: char, t: string)
    requires '=' !in s
    ensures Digits(s + [c] + t) == Digits(s) +
              if c == '=' then [] else (if DigitOf(c).Some? then [DigitOf(c).value] else []) + Digits(t)
    decreases s
  {
    var all := s + [c] + t;
    if s == "" {
      assert all[0] == c && all[1..] == t;
    } else {
      assert all[1..] == s[1..] + [c] + t && s[0] in s;
      DigitsJoin(s[1..], c, t);
    }
  }

  /** `v >> n`. */
  function Shr(v: nat, n: nat): nat {
    if n == 0 then v else Shr(v / 2, n - 1)
  }

  /** The number the digits write in base 32. */
  function Value32(d: seq<nat>): nat {
    if d == [] then 0 else Value32(d[..|d| - 1]) * 32 + d[|d| - 1]
  }

  /** The number the bytes write in base 256. */
  function Value256(b: bytes): nat {
    if b == [] then 0 else Value256(b[..|b| - 1]) * 256 + b[|b| - 1]
  }

  /** The low `n` bytes of a number, most significant first. */
  function BytesOf(v: nat, n: nat): (b: bytes)
    ensures |b| == n
  {
    if n == 0 then [] else BytesOf(v / 256, n - 1) + [v % 256]
  }

  /** Decoding in unbounded arithmetic: k digits give 5k/8 bytes, and the last 5k mod 8 bits are cut off. */
  function Decoded(d: seq<nat>): bytes {
    BytesOf(Shr(Value32(d), 5 * |d| % 8), 5 * |d| / 8)
  }

  lemma {:induction false} ShrShr(v: nat, a: nat, b: nat)
    ensures Shr(Shr(v, a), b) == Shr(v, a + b)
  {
    if a > 0 {
      ShrShr(v / 2, a - 1, b);
    }
  }

  lemma ShrDigit(v: nat, digit: nat)
    requires digit < 32
    ensures Shr(v * 32 + digit, 5) == v
  {
    var x := v * 32 + digit;
    assert Shr(x, 5) == Shr(x / 2, 4) && Shr(x / 2, 4) == Shr(x / 2 / 2, 3);
    assert Shr(x / 2 / 2, 3) == Shr(x / 2 / 2 / 2, 2) && Shr(x / 2 / 2 / 2, 2) == Shr(x / 2 / 2 / 2 / 2, 1);
  }

  lemma ShrByte(v: nat)
    ensures Shr(v, 8) == v / 256
  {
    ShrShr(v, 4, 4);
    ShrFour(v);
    ShrFour(v / 16);
  }

  lemma ShrFour(v: nat)
    ensures Shr(v, 4) == v / 16
  {
    assert Shr(v, 4) == Shr(v / 2, 3) && Shr(v / 2, 3) == Shr(v / 2 / 2, 2);
    assert Shr(v / 2 / 2, 2) == Shr(v / 2 / 2 / 2, 1);
  }

  /** A digit shifts the completed bytes up by its five bits and leaves them as they are. */
  lemma PushDigit(v: nat, digit: nat, bits: nat)
    requires digit < 32
    ensures Shr(v * 32 + digit, bits + 5) == Shr(v, bits)
    ensures bits >= 3 ==> Shr(v * 32 + digit, bits - 3) / 256 == Shr(v, bits)
  {
    var v' := v * 32 + digit;
    ShrShr(v', 5, bits);
    ShrDigit(v, digit);
    if bits >= 3 {
      ShrShr(v', bits - 3, 8);
      ShrByte(Shr(v', bits - 3));
    }
  }

  /** Numbers that agree in their low bits agree in the byte those bits hold. */
  lemma {:induction false} ByteInLowBits(v: nat, low: nat, k: nat, shift: nat)
    requires v == low + k * 0x1_0000_0000 && shift < 5
    ensures Shr(v, shift) % 256 == Shr(low, shift) % 256
  {
    LowBits(v, low, k * 0x10_0000, shift);
  }

  lemma {:induction false} LowBits(v: nat, low: nat, k: nat, shift: nat)
    requires v == low + 4096 * k && shift < 5
    ensures Shr(v, shift) % 256 == Shr(low, shift) % 256
  {
    if shift == 0 {
      SameLowByte(v, low, 16 * k);
    } else {
      HalfLowBits(v / 2, low / 2, k, shift - 1, 2048);
    }
  }

  lemma SameLowByte(v: nat, low: nat, k: nat)
    requires v == low + 256 * k
    ensures v % 256 == low % 256
  {
  }

  lemma {:induction false} HalfLowBits(v: nat, low: nat, k: nat, shift: nat, step: nat)
    requires step in {256, 512, 1024, 2048} && v == low + step * k
    requires shift < 4 && (shift == 3 ==> step == 2048) && (shift == 2 ==> step >= 1024) && (shift == 1 ==> step >= 512)
    ensures Shr(v, shift) % 256 == Shr(low, shift) % 256
    decreases shift
  {
    if shift == 0 {
      if step == 256 {
        SameLowByte(v, low, k);
      } else if step == 512 {
        SameLowByte(v, low, 2 * k);
      } else if step == 1024 {
        SameLowByte(v, low, 4 * k);
      } else {
        SameLowByte(v, low, 8 * k);
      }
    } else if step == 2048 {
      HalfLowBits(v / 2, low / 2, k, shift - 1, 1024);
    } else if step == 1024 {
      HalfLowBits(v / 2, low / 2, k, shift - 1, 512);
    } else {
      HalfLowBits(v / 2, low / 2, k, shift - 1, 256);
    }
  }

  lemma MoreBytes(k: nat)
    requires 5 * k % 8 >= 3
    ensures 5 * (k + 1) / 8 == 5 * k / 8 + 1 && 5 * (k + 1) % 8 == 5 * k % 8 - 3
  {
  }

  lemma BytesOfPush(v: nat, n: nat)
    ensures BytesOf(v, n + 1) == BytesOf(v / 256, n) + [v % 256]
  {
  }

  lemma SameBytes(k: nat)
    requires 5 * k % 8 < 3
    ensures 5 * (k + 1) / 8 == 5 * k / 8 && 5 * (k + 1) % 8 == 5 * k % 8 + 5
  {
  }

  /** One more digit in unbounded arithmetic: the byte it completes, if any, is appended. */
  lemma DecodedPush(d: seq<nat>, digit: nat, bits: nat)
    requires digit < 32 && bits == 5 * |d| % 8
    ensures bits < 3 ==> Decoded(d + [digit]) == Decoded(d)
    ensures bits >= 3 ==> Decoded(d + [digit]) == Decoded(d) + [Shr(Value32(d + [digit]), bits - 3) % 256]
  {
    var k, d' := |d|, d + [digit];
    assert d'[..k] == d && |d'| == k + 1;
    var n, v, v' := 5 * k / 8, Value32(d), Value32(d');
    PushDigit(v, digit, bits);
    DecodedIs(d, v, bits, n);
    if bits < 3 {
      SameBytes(k);
      DecodedIs(d', v', bits + 5, n);
    } else {
      MoreBytes(k);
      DecodedIs(d', v', bits - 3, n + 1);
      BytesOfPush(Shr(v', bits - 3), n);
    }
  }

  lemma DecodedIs(d: seq<nat>, v: nat, bits: nat, n: nat)
    requires v == Value32(d) && bits == 5 * |d| % 8 && n == 5 * |d| / 8
    ensures Decoded(d) == BytesOf(Shr(v, bits), n)
  {
  }

  /** The wrapping accumulator computes what unbounded arithmetic does, for any number of characters. */
  method Base32ToRaw(base32: string) returns (result: bytes)
    ensures result == Decoded(Digits(base32))
  {
    result := [];
    var buffer: uint32 := 0;
    var bitsLeft := 0;
    ghost var d: seq<nat> := [];
    var i := 0;
    while i < |base32| && base32[i] != '='
      invariant 0 <= i <= |base32| && Digits(base32) == d + Digits(base32[i..])
      invariant bitsLeft == 5 * |d| % 8 && buffer == Value32(d) % 0x1_0000_0000
      invariant result == Decoded(d)
      decreases |base32| - i
    {
      var c := base32[i];
      i := i + 1;
      assert base32[i - 1..][1..] == base32[i..];
      if DigitOf(c).None? {
        continue;
      }
      var val := DigitOf(c).value;
      assert d + ([val] + Digits(base32[i..])) == d + [val] + Digits(base32[i..]);
      DecodedPush(d, val, bitsLeft);
      Accumulate(d, val);
      buffer := (buffer * 32 + val) % 0x1_0000_0000;
      bitsLeft := bitsLeft + 5;
      if bitsLeft >= 8 {
        bitsLeft := bitsLeft - 8;
        result := result + [Shr(buffer, bitsLeft) % 256];
      }
      d := d + [val];
    }
    assert Digits(base32[i..]) == [];
    assert d + [] == d;
  }

  /** The accumulator after a digit holds the low 32 bits, and in them any completed byte. */
  lemma Accumulate(d: seq<nat>, digit: nat)
    ensures var v' := Value32(d + [digit]);
            && (Value32(d) % 0x1_0000_0000 * 32 + digit) % 0x1_0000_0000 == v' % 0x1_0000_0000
            && forall shift: nat | shift < 5 :: Shr(v' % 0x1_0000_0000, shift) % 256 == Shr(v', shift) % 256
  {
    assert (d + [digit])[..|d|] == d;
    var v, v' := Value32(d), Value32(d + [digit]);
    var high := v / 0x1_0000_0000;
    assert v' == v % 0x1_0000_0000 * 32 + digit + high * 32 * 0x1_0000_0000;
    forall shift: nat | shift < 5 ensures Shr(v' % 0x1_0000_0000, shift) % 256 == Shr(v', shift) % 256 {
      ByteInLowBits(v', v' % 0x1_0000_0000, v' / 0x1_0000_0000, shift);
    }
  }

  // ----- Nothing is lost

  lemma {:induction false} BytesValue(v: nat, n: nat)
    requires v < Pow256(n)
    ensures Value256(BytesOf(v, n)) == v
  {
    if n > 0 {
      BytesValue(v / 256, n - 1);
      assert BytesOf(v, n)[..n - 1] == BytesOf(v / 256, n - 1);
    }
  }

  function Pow256(n: nat): nat {
    if n == 0 then 1 else 256 * Pow256(n - 1)
  }

  lemma {:induction false} Value32Bound(d: seq<nat>)
    requires forall x | x in d :: x < 32
    ensures Value32(d) < Pow2(5 * |d|)
  {
    if d != [] {
      var n := |d| - 1;
      assert d[n] in d && forall x | x in d[..n] :: x in d;
      Value32Bound(d[..n]);
      PowFive(5 * n);
    }
  }

  lemma PowFive(m: nat)
    ensures Pow2(m + 5) == 32 * Pow2(m)
  {
    assert Pow2(m + 5) == 2 * Pow2(m + 4) && Pow2(m + 4) == 2 * Pow2(m + 3);
    assert Pow2(m + 3) == 2 * Pow2(m + 2) && Pow2(m + 2) == 2 * Pow2(m + 1);
  }

  lemma {:induction false} BytePowers(n: nat)
    ensures Pow2(8 * n) == Pow256(n)
  {
    if n > 0 {
      BytePowers(n - 1);
      var m := 8 * (n - 1);
      PowFive(m);
      assert Pow2(m + 8) == 2 * Pow2(m + 7) && Pow2(m + 7) == 2 * Pow2(m + 6) && Pow2(m + 6) == 2 * Pow2(m + 5);
    }
  }

  lemma {:induction false} Value32Injective(d: seq<nat>, e: seq<nat>)
    requires |d| == |e| && (forall x | x in d :: x < 32) && (forall x | x in e :: x < 32)
    requires Value32(d) == Value32(e)
    ensures d == e
  {
    if d != [] {
      var n := |d| - 1;
      assert d[n] in d && e[n] in e;
      assert forall x | x in d[..n] :: x in d;
      assert forall x | x in e[..n] :: x in e;
      Value32Injective(d[..n], e[..n]);
      assert d == d[..n] + [d[n]] && e == e[..n] + [e[n]];
    }
  }

  /** An info hash in base 32: 32 characters of the upper-case alphabet. */
  predicate IsValidBase32(s: string) {
    |s| == 32 && forall c | c in s :: 'A' <= c <= 'Z' || '2' <= c <= '7'
  }

  lemma {:induction false} AllDigits(s: string)
    requires forall c | c in s :: 'A' <= c <= 'Z' || '2' <= c <= '7'
    ensures |Digits(s)| == |s|
    ensures forall i | 0 <= i < |s| :: DigitOf(s[i]) == Some(Digits(s)[i])
  {
    if s != "" {
      assert s[0] in s && forall c | c in s[1..] :: c in s;
      AllDigits(s[1..]);
    }
  }

  /** 32 characters decode to the 20 bytes of the number they write. */
  lemma HashDecodes(s: string)
    requires IsValidBase32(s)
    ensures |Decoded(Digits(s))| == 20 && Value256(Decoded(Digits(s))) == Value32(Digits(s))
  {
    AllDigits(s);
    Value32Bound(Digits(s));
    assert 5 * |Digits(s)| == 8 * 20;
    BytePowers(20);
    BytesValue(Value32(Digits(s)), 20);
  }

  /** Different base 32 info hashes are different hashes. */
  lemma HashInjective(s: string, t: string)
    requires IsValidBase32(s) && IsValidBase32(t) && Decoded(Digits(s)) == Decoded(Digits(t))
    ensures s == t
  {
    HashDecodes(s);
    HashDecodes(t);
    AllDigits(s);
    AllDigits(t);
    Value32Injective(Digits(s), Digits(t));
    forall i | 0 <= i < 32 ensures s[i] == t[i] {
      assert s[i] in s && t[i] in t && DigitOf(s[i]) == DigitOf(t[i]);
    }
  }
}
