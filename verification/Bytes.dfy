/** Byte strings and the big-endian 32-bit words of the peer wire protocol. */
module Bytes {

  type byte = x: int | 0 <= x < 0x100
  type bytes = seq<byte>
  type uint32 = x: int | 0 <= x < 0x1_0000_0000

  /** A character that is a byte. */
  type octet = c: char | c as int < 0x100 witness 'a'
  type octets = seq<octet>

  const INT64_MAX: int := 0x7FFF_FFFF_FFFF_FFFF
  type int64 = x: int | -INT64_MAX - 1 <= x <= INT64_MAX

  datatype Option<+T> = None | Some(value: T)

  function Min(a: int, b: int): int {
    if a < b then a else b
  }

  function Max(a: int, b: int): int {
    if a < b then b else a
  }

  function Pow2(n: nat): (p: nat)
    ensures p > 0
  {
    if n == 0 then 1 else 2 * Pow2(n - 1)
  }

  function IntToBytes(value: uint32): (b: bytes)
    ensures |b| == 4
  {
    [value / 0x100_0000, value / 0x1_0000 % 0x100, value / 0x100 % 0x100, value % 0x100]
  }

  function BytesToInt(b: bytes): (value: uint32)
    requires |b| >= 4
  {
    var b0: int, b1: int, b2: int, b3: int := b[0], b[1], b[2], b[3];
    b0 * 0x100_0000 + b1 * 0x1_0000 + b2 * 0x100 + b3
  }

  lemma IntRoundTrip(value: uint32)
    ensures BytesToInt(IntToBytes(value)) == value
  {
    var q1: int := value / 0x100;
    var q2 := q1 / 0x100;
    var q3 := q2 / 0x100;
    assert value / 0x1_0000 == q2 && value / 0x100_0000 == q3;
  }

  lemma BytesRoundTrip(b: bytes)
    requires |b| == 4
    ensures IntToBytes(BytesToInt(b)) == b
  {
    var b0: int, b1: int, b2: int, b3: int := b[0], b[1], b[2], b[3];
    var value: int := BytesToInt(b);
    assert value / 0x100 == b0 * 0x1_0000 + b1 * 0x100 + b2;
    assert value / 0x1_0000 == b0 * 0x100 + b1;
    assert value / 0x100_0000 == b0;
  }

  /** Words are ordered as their bytes are, the first byte being the most significant. */
  lemma WordOrder(a: bytes, b: bytes)
    requires |a| == |b| == 4
    ensures BytesToInt(a) < BytesToInt(b) <==> exists k :: 0 <= k < 4 && a[..k] == b[..k] && a[k] < b[k]
  {
    if a[0] != b[0] {
      assert a[..0] == b[..0];
    } else if a[1] != b[1] {
      assert a[..1] == b[..1];
    } else if a[2] != b[2] {
      assert a[..2] == b[..2];
    } else if a[3] != b[3] {
      assert a[..3] == b[..3];
    } else {
      assert a == b;
    }
    forall k | 0 <= k < 4 && a[..k] == b[..k] && a[k] < b[k]
      ensures forall j | 0 <= j < k :: a[j] == b[j]
    {
      assert forall j | 0 <= j < k :: a[..k][j] == b[..k][j];
    }
  }

  /** Bytes as characters. */
  function Chars(b: bytes): octets {
    seq(|b|, i requires 0 <= i < |b| => b[i] as char)
  }

  /** Characters as bytes. */
  function Octets(s: string): (b: bytes)
    ensures |b| == |s|
  {
    seq(|s|, i requires 0 <= i < |s| => s[i] as int % 0x100)
  }

  predicate IsSpace(c: char) {
    c in {' ', '\t', '\n', '\r', 11 as char, 12 as char}
  }

  predicate AllOctets(s: string) {
    forall c | c in s :: c as int < 0x100
  }

  lemma CharsOctets(s: string)
    requires AllOctets(s)
    ensures Chars(Octets(s)) == s
  {
    assert forall i | 0 <= i < |s| :: s[i] in s;
  }

  /** `s` with `data` written over it from `at` on. */
  function Splice<T>(s: seq<T>, at: nat, data: seq<T>): (r: seq<T>)
    requires at + |data| <= |s|
    ensures |r| == |s|
  {
    s[..at] + data + s[at + |data|..]
  }

  /** A splice shows the data where it was written and the old contents elsewhere. */
  lemma SpliceSlice<T>(s: seq<T>, at: nat, data: seq<T>, lo: nat, hi: nat)
    requires at + |data| <= |s|
    requires lo <= hi <= |s|
    ensures hi <= at || at + |data| <= lo ==> Splice(s, at, data)[lo..hi] == s[lo..hi]
    ensures Splice(s, at, data)[at..at + |data|] == data
  {
  }
}
