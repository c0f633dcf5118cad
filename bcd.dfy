/**
  Little-endian packed BCD ("lbcd" in the driver's memory layout): two decimal
  digits per byte, high nibble the tens, least significant byte first.
 */
module Bcd {
  import opened Wrappers

  /** One byte of the memory image or of the serial stream. */
  type byte = b: int | 0 <= b < 256

  function Hi(b: byte): nat { b / 16 }

  function Lo(b: byte): nat { b % 16 }

  predicate IsBcdByte(b: byte) { Hi(b) <= 9 && Lo(b) <= 9 }

  predicate IsBcd(s: seq<byte>) { forall i :: 0 <= i < |s| ==> IsBcdByte(s[i]) }

  /** The two-digit value of one byte, computed as the driver does: the nibbles
      are not checked, so 0xFF counts as 15 * 10 + 15 = 165. */
  function Pair(b: byte): nat { Hi(b) * 10 + Lo(b) }

  function Pow100(n: nat): (p: nat)
    ensures p >= 1
  {
    if n == 0 then 1 else 100 * Pow100(n - 1)
  }

  /** The integer an lbcd field holds: the first byte is the least significant pair. */
  function Value(s: seq<byte>): nat
  {
    if s == [] then 0 else Pair(s[0]) + 100 * Value(s[1..])
  }

  /** Checked decoding: a nibble above 9 is a decode error rather than a number. */
  function Decode(s: seq<byte>): (r: Option<nat>)
    ensures r.Some? <==> IsBcd(s)
    ensures r.Some? ==> r.value < Pow100(|s|)
  {
    if IsBcd(s) then ValueBound(s); Some(Value(s)) else None
  }

  /** One byte holding the two digits of d. */
  function Pack(d: nat): byte
    requires d < 100
  {
    (d / 10) * 16 + d % 10
  }

  lemma PackDigits(d: nat)
    requires d < 100
    ensures IsBcdByte(Pack(d)) && Pair(Pack(d)) == d
  {
  }

  /** Writes v into a field of `width` bytes: the low 2 * width decimal digits of
      v, taken modulo 100^width (so a negative v wraps, as Python's % does). */
  function Encode(v: int, width: nat): (r: seq<byte>)
    ensures |r| == width
    decreases width
  {
    if width == 0 then [] else [Pack(v % 100)] + Encode(v / 100, width - 1)
  }

  /** Every encoded byte is valid BCD. */
  lemma {:induction false} EncodeIsBcd(v: int, width: nat)
    ensures IsBcd(Encode(v, width))
    decreases width
  {
    if width > 0 {
      EncodeIsBcd(v / 100, width - 1);
      PackDigits(v % 100);
      var r := Encode(v, width);
      assert forall i :: 1 <= i < width ==> r[i] == Encode(v / 100, width - 1)[i - 1];
    }
  }

  lemma DivModUnique(v: int, d: int, q: int, r: int)
    requires d > 0 && v == d * q + r && 0 <= r < d
    ensures v / d == q && v % d == r
  {
    var q', r' := v / d, v % d;
    assert d * q + r == d * q' + r';
    assert d * (q - q') == r' - r;
    if q > q' {
      MulAtLeast(d, q - q');
      assert false;
    } else if q < q' {
      MulAtLeast(d, q' - q);
      assert false;
    }
  }

  lemma {:induction false} MulAtLeast(d: int, k: int)
    requires d > 0 && k >= 1
    ensures d * k >= d
    decreases k
  {
    if k > 1 {
      MulAtLeast(d, k - 1);
      assert d * k == d * (k - 1) + d;
    }
  }

  lemma ModSplit(v: int, p: nat)
    requires p >= 1
    ensures v % (100 * p) == v % 100 + 100 * ((v / 100) % p)
  {
    var q, r := v / 100, v % 100;
    var q2, r2 := q / p, q % p;
    assert v == 100 * (p * q2 + r2) + r;
    assert v == (100 * p) * q2 + (100 * r2 + r);
    assert 100 * r2 + r < 100 * p by {
      assert r2 <= p - 1;
      assert 100 * r2 <= 100 * (p - 1);
    }
    DivModUnique(v, 100 * p, q2, 100 * r2 + r);
  }

  /** A valid field of n bytes holds fewer than 2n digits. */
  lemma {:induction false} ValueBound(s: seq<byte>)
    requires IsBcd(s)
    ensures Value(s) < Pow100(|s|)
  {
    if s != [] {
      ValueBound(s[1..]);
      assert IsBcdByte(s[0]);
      assert Value(s[1..]) <= Pow100(|s| - 1) - 1;
      assert 100 * Value(s[1..]) <= 100 * Pow100(|s| - 1) - 100;
    }
  }

  /** Decoding what was encoded gives the value back, reduced to the field's width. */
  lemma {:induction false} ValueOfEncode(v: int, width: nat)
    ensures Value(Encode(v, width)) == v % Pow100(width)
    decreases width
  {
    if width > 0 {
      ValueOfEncode(v / 100, width - 1);
      PackDigits(v % 100);
      ModSplit(v, Pow100(width - 1));
    }
  }

  lemma PackOfPair(b: byte)
    requires IsBcdByte(b)
    ensures Pack(Pair(b)) == b
  {
    assert Pair(b) / 10 == Hi(b) && Pair(b) % 10 == Lo(b);
  }

  /** Encoding a valid field's value at the field's width gives the field back. */
  lemma {:induction false} EncodeOfValue(s: seq<byte>)
    requires IsBcd(s)
    ensures Encode(Value(s), |s|) == s
  {
    if s != [] {
      var b, t := s[0], s[1..];
      assert IsBcdByte(b);
      assert Value(s) == 100 * Value(t) + Pair(b);
      DivModUnique(Value(s), 100, Value(t), Pair(b));
      assert IsBcd(t) by {
        forall i | 0 <= i < |t| ensures IsBcdByte(t[i]) { assert t[i] == s[i + 1]; }
      }
      EncodeOfValue(t);
      PackOfPair(b);
      assert s == [b] + t;
    }
  }

  /** A value that fits the field's width is decoded exactly. */
  lemma ValueOfSmallEncode(v: int, width: nat)
    requires 0 <= v < Pow100(width)
    ensures Value(Encode(v, width)) == v
  {
    ValueOfEncode(v, width);
    DivModUnique(v, Pow100(width), 0, v);
  }

  lemma Pow100Values()
    ensures Pow100(2) == 10000 && Pow100(4) == 100000000
  {
    assert Pow100(2) == 100 * Pow100(1) == 100 * 100 * Pow100(0);
    assert Pow100(4) == 100 * Pow100(3) == 100 * 100 * Pow100(2);
  }

  /** The round trip the driver relies on for 4-byte frequency fields. */
  lemma FrequencyRoundTrip(n: int)
    requires 0 <= n < 100000000
    ensures Value(Encode(n, 4)) == n
    ensures Decode(Encode(n, 4)) == Some(n)
  {
    EncodeIsBcd(n, 4);
    Pow100Values();
    ValueOfSmallEncode(n, 4);
  }

  /** The all-ones sentinel is not valid BCD, its raw value is 166666665, and no
      encoded value ever equals it. */
  lemma SentinelIsNotBcd(v: int)
    ensures !IsBcd([0xFF, 0xFF, 0xFF, 0xFF])
    ensures Decode([0xFF, 0xFF, 0xFF, 0xFF]) == None
    ensures Value([0xFF, 0xFF, 0xFF, 0xFF]) == 166666665
    ensures Encode(v, 4) != [0xFF, 0xFF, 0xFF, 0xFF]
  {
    var s: seq<byte> := [0xFF, 0xFF, 0xFF, 0xFF];
    assert !IsBcdByte(s[0]);
    assert s[1..] == [0xFF, 0xFF, 0xFF];
    assert s[1..][1..] == [0xFF, 0xFF];
    assert s[1..][1..][1..] == [0xFF];
    PackDigits(v % 100);
    assert Encode(v, 4)[0] != 0xFF;
  }
}
