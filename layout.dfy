/**
  The memory image layout of the H-777: a 0x3E0-byte image holding a table of
  16 channel entries at 0x10 and two settings blocks at 0x2B0 and 0x3C0.
 */
module Layout {
  import opened Bcd

  /** Size of the whole image, and of the transfer unit of the clone protocol. */
  const MemSize: nat := 0x03E0
  const BlockSize: nat := 0x08

  const ChannelBase: nat := 0x0010
  const EntrySize: nat := 16
  const ChannelCount: nat := 16

  const SettingsBase: nat := 0x02B0
  const Settings2Base: nat := 0x03C0

  /** Offsets of the fields inside one 16-byte channel entry. */
  const RxFreqAt: nat := 0
  const TxFreqAt: nat := 4
  const RxToneAt: nat := 8
  const TxToneAt: nat := 10
  const FlagsAt: nat := 12
  const UnknownAt: nat := 13

  type Image = s: seq<byte> | |s| == MemSize witness seq(MemSize, _ => 0)

  /** Where channel `number` (1-based, as the host numbers them) starts. */
  function EntryOffset(number: int): (off: nat)
    requires 1 <= number <= ChannelCount
    ensures ChannelBase <= off && off + EntrySize <= ChannelBase + ChannelCount * EntrySize
    ensures off + EntrySize <= SettingsBase
    ensures (off - ChannelBase) % EntrySize == 0
  {
    ChannelBase + EntrySize * (number - 1)
  }

  /** Distinct channels occupy disjoint entries. */
  lemma EntriesDisjoint(m: int, n: int)
    requires 1 <= m <= ChannelCount && 1 <= n <= ChannelCount && m != n
    ensures EntryOffset(m) + EntrySize <= EntryOffset(n) || EntryOffset(n) + EntrySize <= EntryOffset(m)
  {
  }

  function Entry(image: Image, number: int): (e: seq<byte>)
    requires 1 <= number <= ChannelCount
    ensures |e| == EntrySize
  {
    image[EntryOffset(number)..EntryOffset(number) + EntrySize]
  }

  /** s with the bytes from `at` on replaced by bs; the length does not change. */
  function Splice(s: seq<byte>, at: nat, bs: seq<byte>): (r: seq<byte>)
    requires at + |bs| <= |s|
    ensures |r| == |s| && r[at..at + |bs|] == bs
    ensures forall i :: at <= i < at + |bs| ==> r[i] == bs[i - at]
    ensures forall i :: 0 <= i < |s| && !(at <= i < at + |bs|) ==> r[i] == s[i]
  {
    var r := s[..at] + bs + s[at + |bs|..];
    assert r[at..at + |bs|] == bs;
    r
  }

  /** Splicing nothing leaves a sequence as it was. */
  lemma SpliceNothing(s: seq<byte>, at: nat)
    requires at <= |s|
    ensures Splice(s, at, []) == s
  {
    assert s[..at] + [] + s[at..] == s;
  }

  /** Splicing one more byte is a single-byte update after the bytes already spliced. */
  lemma SpliceSnoc(s: seq<byte>, at: nat, bs: seq<byte>, b: byte)
    requires at + |bs| < |s|
    ensures Splice(s, at, bs + [b]) == Splice(s, at, bs)[at + |bs| := b]
  {
    var r, q := Splice(s, at, bs + [b]), Splice(s, at, bs)[at + |bs| := b];
    forall k | 0 <= k < |s| ensures r[k] == q[k] {
      if at <= k < at + |bs| {
        assert r[k] == r[at..at + |bs| + 1][k - at];
        assert q[k] == Splice(s, at, bs)[at..at + |bs|][k - at];
      } else if k == at + |bs| {
        assert r[k] == r[at..at + |bs| + 1][k - at];
      }
    }
  }

  /** Splicing a single byte is updating it. */
  lemma SpliceOne(s: seq<byte>, at: nat, b: byte)
    requires at < |s|
    ensures Splice(s, at, [b]) == s[at := b]
  {
    SpliceNothing(s, at);
    SpliceSnoc(s, at, [], b);
    assert [] + [b] == [b];
  }

  /** Writing a four-byte field at `at`, another at `at + 4` and one byte at
      `at + 12` is one splice of a sixteen-byte entry `e` that holds those bytes and
      keeps the others. */
  lemma EntryWrites(s: seq<byte>, at: nat, a: seq<byte>, b: seq<byte>, f: byte, e: seq<byte>)
    requires at + EntrySize <= |s| && |a| == 4 && |b| == 4 && |e| == EntrySize
    requires e[..4] == a && e[4..8] == b && e[8..12] == s[at + 8..at + 12]
    requires e[12] == f && e[13..] == s[at + 13..at + EntrySize]
    ensures Splice(Splice(Splice(s, at, a), at + 4, b), at + 12, [f]) == Splice(s, at, e)
  {
    var t := Splice(Splice(Splice(s, at, a), at + 4, b), at + 12, [f]);
    var u := Splice(s, at, e);
    forall k | 0 <= k < |s| ensures t[k] == u[k] {
      if at <= k < at + EntrySize {
        var j := k - at;
        assert u[k] == e[j];
        if j < 4 {
          assert e[j] == e[..4][j];
        } else if j < 8 {
          assert e[j] == e[4..8][j - 4];
        } else if j < 12 {
          assert e[j] == e[8..12][j - 8];
        } else if j > 12 {
          assert e[j] == e[13..][j - 13];
        }
      }
    }
  }

  /** The flag byte of an entry; the bit fields are listed most significant bit first. */
  datatype Flags = Flags(
    unknown3: bool, unknown2: bool, unknown1: bool, scanadd: bool,
    lowpower: bool, wide: bool, beatshift: bool, bcl: bool)

  function Pow2(n: nat): (p: nat)
    ensures p >= 1
  {
    if n == 0 then 1 else 2 * Pow2(n - 1)
  }

  /** The low n bits of v, least significant first. */
  function Bits(v: nat, n: nat): (bits: seq<bool>)
    ensures |bits| == n
  {
    if n == 0 then [] else [v % 2 == 1] + Bits(v / 2, n - 1)
  }

  /** The number whose bits, least significant first, are `bits`. */
  function FromBits(bits: seq<bool>): (v: nat)
    ensures v < Pow2(|bits|)
  {
    if bits == [] then 0 else (if bits[0] then 1 else 0) + 2 * FromBits(bits[1..])
  }

  lemma {:induction false} FromBitsOfBits(v: nat, n: nat)
    requires v < Pow2(n)
    ensures FromBits(Bits(v, n)) == v
  {
    if n > 0 {
      FromBitsOfBits(v / 2, n - 1);
      assert Bits(v, n)[1..] == Bits(v / 2, n - 1);
    }
  }

  lemma {:induction false} BitsOfFromBits(bits: seq<bool>)
    ensures Bits(FromBits(bits), |bits|) == bits
  {
    if bits != [] {
      var v := FromBits(bits);
      var b0 := if bits[0] then 1 else 0;
      assert v % 2 == b0 && v / 2 == FromBits(bits[1..]);
      BitsOfFromBits(bits[1..]);
      assert bits == [bits[0]] + bits[1..];
    }
  }

  /** The last of the n bits is the most significant one. */
  lemma {:induction false} TopBit(v: nat, n: nat)
    requires 0 < n && v < Pow2(n)
    ensures Bits(v, n)[n - 1] <==> v >= Pow2(n - 1)
  {
    if n > 1 {
      TopBit(v / 2, n - 1);
      assert Bits(v, n)[n - 1] == Bits(v / 2, n - 1)[n - 2];
    }
  }

  function DecodeFlags(b: byte): Flags
  {
    var x := Bits(b, 8);
    Flags(x[7], x[6], x[5], x[4], x[3], x[2], x[1], x[0])
  }

  function EncodeFlags(f: Flags): byte
  {
    assert Pow2(8) == 256;
    FromBits([f.bcl, f.beatshift, f.wide, f.lowpower, f.scanadd, f.unknown1, f.unknown2, f.unknown3])
  }

  lemma DecodeOfEncodeFlags(f: Flags)
    ensures DecodeFlags(EncodeFlags(f)) == f
  {
    BitsOfFromBits([f.bcl, f.beatshift, f.wide, f.lowpower, f.scanadd, f.unknown1, f.unknown2, f.unknown3]);
  }

  /** Setting `wide`, then `lowpower`, then `scanadd` in three writes of a flag byte
      is setting all three at once. */
  lemma FlagWrites(b: byte, wide: bool, lowpower: bool, scanadd: bool)
    ensures var b1 := EncodeFlags(DecodeFlags(b).(wide := wide));
      var b2 := EncodeFlags(DecodeFlags(b1).(lowpower := lowpower));
      EncodeFlags(DecodeFlags(b2).(scanadd := scanadd))
        == EncodeFlags(DecodeFlags(b).(wide := wide, lowpower := lowpower, scanadd := scanadd))
  {
    DecodeOfEncodeFlags(DecodeFlags(b).(wide := wide));
    DecodeOfEncodeFlags(DecodeFlags(b).(wide := wide, lowpower := lowpower));
  }

  lemma EncodeOfDecodeFlags(b: byte)
    ensures EncodeFlags(DecodeFlags(b)) == b
  {
    var x := Bits(b, 8);
    assert Pow2(8) == 256;
    FromBitsOfBits(b, 8);
    assert x == [x[0], x[1], x[2], x[3], x[4], x[5], x[6], x[7]];
  }
}
