/**
  Channel mapping: reading a channel entry of the image into a host memory
  record, and storing a host record back into its entry.
 */
module Channels {
  import opened Wrappers
  import opened Bcd
  import opened Layout
  import Settings

  /** The host's duplex strings "", "+", "-", "off" and "split". */
  datatype Duplex = Simplex | Plus | Minus | Off | Split

  datatype Mode = FM | NFM

  /** The two entries of the driver's power level list, High (5 W) then Low (1 W). */
  datatype Power = High | Low

  /** Tone squelch, with receive and transmit tones in tenths of a hertz. */
  datatype Tone = NoTone | Tsql(rtone: nat, ctone: nat)

  /** A host memory record; `skip` stands for the skip string "S". */
  datatype Memory = Memory(
    number: int, freq: int, empty: bool, duplex: Duplex, offset: int,
    mode: Mode, power: Power, skip: bool, tone: Tone)

  /** Digital-coded squelch is recognised but refused. */
  datatype ChannelError = DcsUnsupported

  const Blank4: seq<byte> := [0xFF, 0xFF, 0xFF, 0xFF]
  const Blank2: seq<byte> := [0xFF, 0xFF]

  function Abs(x: int): nat { if x < 0 then -x else x }

  /** Decodes the two tone fields of an entry. */
  function DecodeTone(rxtone: seq<byte>, txtone: seq<byte>): (r: Result<Tone, ChannelError>)
    requires |rxtone| == 2 && |txtone| == 2
    ensures r == Ok(NoTone) <==> rxtone == Blank2
    ensures r.Err? <==> rxtone != Blank2 && rxtone[1] >= 0x80
  {
    if rxtone == Blank2 then Ok(NoTone)
    else if rxtone[1] >= 0x80 then Err(DcsUnsupported)  // bit 0x80 of the second byte
    else Ok(Tsql(Value(rxtone), Value(txtone)))
  }

  /** Reads channel `number` from the image. */
  function GetMemory(image: Image, number: int): (r: Result<Memory, ChannelError>)
    requires 1 <= number <= ChannelCount
    ensures r.Ok? ==> r.value.number == number && r.value.offset >= 0
  {
    ReadEntry(number, Entry(image, number))
  }

  /** The record an entry describes. It is built in full even for an empty
      channel, so a digital-code tone field fails an empty channel too. */
  function ReadEntry(number: int, e: seq<byte>): (r: Result<Memory, ChannelError>)
    requires |e| == EntrySize
    ensures r.Ok? ==> r.value.number == number && r.value.offset >= 0
  {
    var rx, tx := Value(e[RxFreqAt..TxFreqAt]), Value(e[TxFreqAt..RxToneAt]);
    var blank := e[RxFreqAt..TxFreqAt] == Blank4;
    var flags := DecodeFlags(e[FlagsAt]);
    var tone := DecodeTone(e[RxToneAt..TxToneAt], e[TxToneAt..FlagsAt]);
    if tone.Err? then Err(tone.error)
    else Ok(Memory(
      number := number,
      freq := if blank then 0 else rx * 10,
      empty := rx * 10 == 0 || blank,
      duplex := if rx == tx then Simplex else if rx > tx then Minus else Plus,
      offset := if rx == tx then 0 else Abs(rx - tx) * 10,
      mode := if !flags.wide then FM else NFM,
      power := if flags.lowpower then High else Low,
      skip := !flags.scanadd,
      tone := tone.value))
  }

  /** The transmit frequency a record describes, for the duplex modes that have one:
      for "split" the offset field holds the transmit frequency itself. */
  function TxFreq(m: Memory): int
    requires m.duplex != Off
  {
    match m.duplex
    case Simplex => m.freq
    case Plus => m.freq + m.offset
    case Minus => m.freq - m.offset
    case Split => m.offset
  }

  /** The transmit frequency field a record is stored as. */
  function TxField(mem: Memory): (tx: seq<byte>)
    ensures |tx| == 4
  {
    if mem.duplex == Off then Blank4 else Encode(TxFreq(mem) / 10, 4)
  }

  /** The new 16 bytes of an entry: all 0xFF for an empty record; otherwise both
      frequencies, the wide flag (always set: a mode string never equals 0), the
      lowpower flag and scanadd, with the tone fields, the other flag bits and the
      last three bytes kept. The driver sets lowpower to `mem.power == 1`, which
      compares a host power-level object with 1; its truth value is decided by host
      code outside this model, so it is the parameter `lowpower`. */
  function StoreEntry(e: seq<byte>, mem: Memory, lowpower: bool): (e': seq<byte>)
    requires |e| == EntrySize
    ensures |e'| == EntrySize
  {
    if mem.empty then seq(EntrySize, _ => 0xFF)
    else
      var flags := DecodeFlags(e[FlagsAt]).(wide := true, lowpower := lowpower, scanadd := !mem.skip);
      Encode(mem.freq / 10, 4) + TxField(mem) + e[RxToneAt..FlagsAt]
      + [EncodeFlags(flags)] + e[UnknownAt..]
  }

  /** Stores a record into its channel's entry; nothing outside that entry changes. */
  function SetMemory(image: Image, mem: Memory, lowpower: bool): (r: Image)
    requires 1 <= mem.number <= ChannelCount
    ensures forall i :: 0 <= i < MemSize && !(EntryOffset(mem.number) <= i < EntryOffset(mem.number) + EntrySize)
                        ==> r[i] == image[i]
    ensures Entry(r, mem.number) == StoreEntry(Entry(image, mem.number), mem, lowpower)
  {
    Splice(image, EntryOffset(mem.number), StoreEntry(Entry(image, mem.number), mem, lowpower))
  }

  // ---------------------------------------------------------------- reading

  /** A channel is read from its own entry and nothing else. */
  lemma GetMemoryReadsEntry(a: Image, b: Image, number: int)
    requires 1 <= number <= ChannelCount
    requires Entry(a, number) == Entry(b, number)
    ensures GetMemory(a, number) == GetMemory(b, number)
  {
  }

  /** A raw all-ones receive frequency means an empty channel at 0 Hz, whatever the
      other bytes hold; so does a receive frequency decoding to 0. */
  lemma EmptyChannel(image: Image, number: int)
    requires 1 <= number <= ChannelCount
    requires GetMemory(image, number).Ok?
    ensures var e := Entry(image, number);
      GetMemory(image, number).value.empty <==> (e[..4] == Blank4 || Value(e[..4]) == 0)
    ensures Entry(image, number)[..4] == Blank4 ==> GetMemory(image, number).value.freq == 0
  {
  }

  /** Duplex and offset are derived from the two frequencies and give the transmit
      frequency back; the offset is zero exactly when there is no duplex. */
  lemma DuplexDerivation(image: Image, number: int)
    requires 1 <= number <= ChannelCount
    requires GetMemory(image, number).Ok?
    requires Entry(image, number)[..4] != Blank4
    ensures var e, m := Entry(image, number), GetMemory(image, number).value;
      var rx, tx := Value(e[..4]), Value(e[4..8]);
      && m.freq == rx * 10
      && m.duplex != Off && m.duplex != Split
      && TxFreq(m) == tx * 10
      && (m.duplex == Simplex <==> rx == tx)
      && (m.duplex == Minus <==> rx > tx)
      && (m.offset == 0 <==> m.duplex == Simplex)
  {
  }

  /** The flag bits as the host sees them: skip is the inverse of scanadd, the wide
      bit reads as "NFM", and a clear lowpower bit selects the second power level. */
  lemma FlagMapping(image: Image, number: int)
    requires 1 <= number <= ChannelCount
    requires GetMemory(image, number).Ok?
    ensures var f, m := DecodeFlags(Entry(image, number)[FlagsAt]), GetMemory(image, number).value;
      && (m.skip <==> !f.scanadd)
      && (m.mode == NFM <==> f.wide)
      && (m.power == Low <==> !f.lowpower)
  {
  }

  /** The tone fields fail exactly for a digital-code receive tone. */
  lemma DcsRefused(image: Image, number: int)
    requires 1 <= number <= ChannelCount
    ensures var e := Entry(image, number);
      GetMemory(image, number) == Err(DcsUnsupported) <==> e[8..10] != Blank2 && e[9] >= 0x80
  {
  }

  /** A tone in tenths of a hertz below 800 Hz is stored without the digital-code
      bit and decodes back to itself. */
  lemma ToneRoundTrip(rtone: nat, ctone: nat)
    requires rtone < 8000 && ctone < 10000
    ensures DecodeTone(Encode(rtone, 2), Encode(ctone, 2)) == Ok(Tsql(rtone, ctone))
  {
    var rx := Encode(rtone, 2);
    ToneFieldHigh(rtone);
    assert rx != Blank2 by { assert rx[1] != 0xFF; }
    Pow100Values();
    ValueOfSmallEncode(rtone, 2);
    ValueOfSmallEncode(ctone, 2);
  }

  /** The more significant byte of a 2-byte field holding a value below 8000 is below 0x80. */
  lemma ToneFieldHigh(v: nat)
    requires v < 8000
    ensures Encode(v, 2)[1] < 0x80
  {
    var hi := (v / 100) % 100;
    assert Encode(v, 2) == [Pack(v % 100)] + Encode(v / 100, 1);
    assert Encode(v / 100, 1) == [Pack(hi)] + Encode(v / 10000, 0);
    assert hi / 10 <= 7;
  }

  /** 88.5 Hz is stored as the bytes 0x85 0x08. */
  lemma ToneEncodeExample()
    ensures Encode(885, 2) == [0x85, 0x08]
  {
    assert Pack(85) == 0x85 && Pack(8) == 0x08;
    assert Encode(8, 1) == [Pack(8)] + Encode(0, 0);
    assert Encode(885, 2) == [Pack(85)] + Encode(8, 1);
  }

  /** The bytes 0x85 0x08 decode to 885 tenths of a hertz. */
  lemma ToneDecodeExample()
    ensures DecodeTone([0x85, 0x08], Blank2) == Ok(Tsql(885, 16665))
  {
    var s: seq<byte> := [0x85, 0x08];
    assert s[1..] == [0x08];
    assert Blank2[1..] == [0xFF];
  }

  // ---------------------------------------------------------------- storing

  /** The fields of a stored non-empty entry. */
  lemma StoreEntryFields(e: seq<byte>, mem: Memory, lowpower: bool)
    requires |e| == EntrySize && !mem.empty
    ensures var e' := StoreEntry(e, mem, lowpower);
      && e'[..4] == Encode(mem.freq / 10, 4)
      && e'[4..8] == TxField(mem)
      && e'[8..10] == e[8..10] && e'[10..12] == e[10..12] && e'[8..12] == e[8..12]
      && e'[FlagsAt] == EncodeFlags(DecodeFlags(e[FlagsAt]).(wide := true, lowpower := lowpower, scanadd := !mem.skip))
      && e'[UnknownAt..] == e[UnknownAt..]
  {
    var flags := DecodeFlags(e[FlagsAt]).(wide := true, lowpower := lowpower, scanadd := !mem.skip);
    var a, b, c := Encode(mem.freq / 10, 4), TxField(mem), e[RxToneAt..FlagsAt];
    EntryParts(a, b, c, EncodeFlags(flags), e[UnknownAt..]);
    assert c[..2] == e[8..10] && c[2..] == e[10..12];
  }

  /** The parts an entry is assembled from are found back at their offsets. */
  lemma EntryParts(a: seq<byte>, b: seq<byte>, c: seq<byte>, x: byte, d: seq<byte>)
    requires |a| == 4 && |b| == 4 && |c| == 4 && |d| == 3
    ensures var e := a + b + c + [x] + d;
      e[..4] == a && e[4..8] == b && e[8..12] == c && e[12] == x && e[13..] == d
  {
    var e := a + b + c + [x] + d;
    assert e[..4] == a;
    assert e[4..8] == b;
    assert e[8..12] == c;
    assert e[13..] == d;
  }

  /** A non-empty record is stored by three writes into its entry: the receive
      frequency, then the transmit frequency field, then the flag byte. */
  lemma SetMemoryBySteps(image: Image, mem: Memory, lowpower: bool, s1: seq<byte>, s2: seq<byte>, s3: seq<byte>)
    requires 1 <= mem.number <= ChannelCount && !mem.empty
    requires s1 == Splice(image, EntryOffset(mem.number) + RxFreqAt, Encode(mem.freq / 10, 4))
    requires s2 == Splice(s1, EntryOffset(mem.number) + TxFreqAt, TxField(mem))
    requires s3 == Splice(s2, EntryOffset(mem.number) + FlagsAt,
                          [EncodeFlags(DecodeFlags(image[EntryOffset(mem.number) + FlagsAt])
                                         .(wide := true, lowpower := lowpower, scanadd := !mem.skip))])
    ensures s3 == SetMemory(image, mem, lowpower)
  {
    var at := EntryOffset(mem.number);
    var e := Entry(image, mem.number);
    StoreEntryFields(e, mem, lowpower);
    assert e[8..12] == image[at + 8..at + 12];
    assert e[UnknownAt..] == image[at + 13..at + EntrySize];
    EntryWrites(image, at, Encode(mem.freq / 10, 4), TxField(mem), s3[at + FlagsAt], StoreEntry(e, mem, lowpower));
  }

  /** Storing an empty record fills its entry with the sentinel, and reading it
      back gives an empty channel at 0 Hz without tone. */
  lemma SetEmptyThenGet(image: Image, mem: Memory, lowpower: bool)
    requires 1 <= mem.number <= ChannelCount && mem.empty
    ensures Entry(SetMemory(image, mem, lowpower), mem.number) == seq(EntrySize, _ => 0xFF)
    ensures GetMemory(SetMemory(image, mem, lowpower), mem.number)
            == Ok(Memory(mem.number, 0, true, Simplex, 0, NFM, High, false, NoTone))
  {
    BlankEntry(mem.number);
  }

  /** An entry of all 0xFF bytes reads as an empty channel at 0 Hz without tone. */
  lemma BlankEntry(number: int)
    ensures ReadEntry(number, seq(EntrySize, _ => 0xFF))
            == Ok(Memory(number, 0, true, Simplex, 0, NFM, High, false, NoTone))
  {
    var e: seq<byte> := seq(EntrySize, _ => 0xFF);
    assert e[..4] == Blank4 && e[4..8] == Blank4 && e[8..10] == Blank2 && e[10..12] == Blank2;
    assert Pow2(8) == 256;
    BitsOfFromBits([true, true, true, true, true, true, true, true]);
    assert FromBits([true, true, true, true, true, true, true, true]) == 255;
  }

  /** Storing a record with transmit frequency and receive frequency both multiples
      of 10 below 10^9 reads back the same receive and transmit frequency, skip flag
      and "NFM" mode; the tone fields are those the entry had, and the power level
      reads as "High" exactly when the store set the lowpower bit. */
  lemma SetThenGet(image: Image, mem: Memory, lowpower: bool)
    requires 1 <= mem.number <= ChannelCount && !mem.empty
    requires mem.duplex != Off
    requires 0 < mem.freq < 1000000000 && mem.freq % 10 == 0
    requires 0 <= TxFreq(mem) < 1000000000 && TxFreq(mem) % 10 == 0
    ensures var old_e, r := Entry(image, mem.number), GetMemory(SetMemory(image, mem, lowpower), mem.number);
      && (r.Err? <==> DecodeTone(old_e[8..10], old_e[10..12]).Err?)
      && (r.Ok? ==>
            && r.value.freq == mem.freq && !r.value.empty
            && r.value.duplex != Off && r.value.duplex != Split
            && TxFreq(r.value) == TxFreq(mem)
            && r.value.skip == mem.skip && r.value.mode == NFM
            && r.value.tone == DecodeTone(old_e[8..10], old_e[10..12]).value
            && (r.value.power == High <==> lowpower))
  {
    var old_e := Entry(image, mem.number);
    var image' := SetMemory(image, mem, lowpower);
    var e := Entry(image', mem.number);
    var rx, tx := mem.freq / 10, TxFreq(mem) / 10;
    StoreEntryFields(old_e, mem, lowpower);
    FrequencyRoundTrip(rx);
    FrequencyRoundTrip(tx);
    SentinelIsNotBcd(rx);
    assert e[8..10] == old_e[8..10] && e[10..12] == old_e[10..12];
    var flags := DecodeFlags(old_e[FlagsAt]).(wide := true, lowpower := lowpower, scanadd := !mem.skip);
    DecodeOfEncodeFlags(flags);
    assert DecodeFlags(e[FlagsAt]) == flags;
    var r := GetMemory(image', mem.number);
    if r.Ok? {
      DuplexDerivation(image', mem.number);
      FlagMapping(image', mem.number);
      assert Value(e[..4]) == rx && Value(e[4..8]) == tx;
    }
  }

  /** Plus and minus duplex with a positive offset survive a store and a read. */
  lemma SetThenGetDuplex(image: Image, mem: Memory, lowpower: bool)
    requires 1 <= mem.number <= ChannelCount && !mem.empty
    requires mem.duplex == Plus || mem.duplex == Minus
    requires 0 < mem.freq < 1000000000 && mem.freq % 10 == 0
    requires 0 < mem.offset && mem.offset % 10 == 0
    requires 0 <= TxFreq(mem) < 1000000000
    requires GetMemory(SetMemory(image, mem, lowpower), mem.number).Ok?
    ensures var m := GetMemory(SetMemory(image, mem, lowpower), mem.number).value;
      m.freq == mem.freq && m.duplex == mem.duplex && m.offset == mem.offset
  {
    DivModUnique(TxFreq(mem), 10, mem.freq / 10 + (if mem.duplex == Plus then 1 else -1) * (mem.offset / 10), 0);
    SetThenGet(image, mem, lowpower);
    var image' := SetMemory(image, mem, lowpower);
    StoreEntryFields(Entry(image, mem.number), mem, lowpower);
    SentinelIsNotBcd(mem.freq / 10);
    DuplexDerivation(image', mem.number);
    SameTxSameDuplex(GetMemory(image', mem.number).value, mem);
  }

  /** A simplex record survives a store and a read as simplex; whatever offset it
      carried, it reads back with offset 0. */
  lemma SetThenGetSimplex(image: Image, mem: Memory, lowpower: bool)
    requires 1 <= mem.number <= ChannelCount && !mem.empty
    requires mem.duplex == Simplex
    requires 0 < mem.freq < 1000000000 && mem.freq % 10 == 0
    requires GetMemory(SetMemory(image, mem, lowpower), mem.number).Ok?
    ensures var m := GetMemory(SetMemory(image, mem, lowpower), mem.number).value;
      m.freq == mem.freq && m.duplex == Simplex && m.offset == 0
  {
    SetThenGet(image, mem, lowpower);
    var image' := SetMemory(image, mem, lowpower);
    StoreEntryFields(Entry(image, mem.number), mem, lowpower);
    SentinelIsNotBcd(mem.freq / 10);
    DuplexDerivation(image', mem.number);
  }

  /** Two records with the same receive and transmit frequency agree on duplex and
      offset when both use plus or minus duplex with a positive offset, or none. */
  lemma SameTxSameDuplex(m: Memory, mem: Memory)
    requires m.duplex in {Simplex, Plus, Minus} && mem.duplex in {Plus, Minus}
    requires m.offset >= 0 && mem.offset > 0 && (m.offset == 0 <==> m.duplex == Simplex)
    requires m.freq == mem.freq && TxFreq(m) == TxFreq(mem)
    ensures m.duplex == mem.duplex && m.offset == mem.offset
  {
  }

  /** A record with duplex "off" does not survive: the all-ones transmit field reads
      as the number 166666665, so any lower receive frequency reads back as "+". */
  lemma OffReadsAsPlus(image: Image, mem: Memory, lowpower: bool)
    requires 1 <= mem.number <= ChannelCount && !mem.empty && mem.duplex == Off
    requires 0 < mem.freq < 1000000000 && mem.freq % 10 == 0
    requires GetMemory(SetMemory(image, mem, lowpower), mem.number).Ok?
    ensures var m := GetMemory(SetMemory(image, mem, lowpower), mem.number).value;
      m.duplex == Plus && m.offset == 1666666650 - mem.freq
  {
    var e := Entry(SetMemory(image, mem, lowpower), mem.number);
    StoreEntryFields(Entry(image, mem.number), mem, lowpower);
    FrequencyRoundTrip(mem.freq / 10);
    SentinelIsNotBcd(mem.freq / 10);
    assert Value(e[..4]) == mem.freq / 10 && e[..4] != Blank4;
    assert Value(e[4..8]) == 166666665;
  }

  /** Storing one channel leaves every other channel reading as before. */
  lemma SetMemoryOtherChannels(image: Image, mem: Memory, lowpower: bool, number: int)
    requires 1 <= mem.number <= ChannelCount && 1 <= number <= ChannelCount
    requires number != mem.number
    ensures GetMemory(SetMemory(image, mem, lowpower), number) == GetMemory(image, number)
  {
    var r := SetMemory(image, mem, lowpower);
    EntriesDisjoint(number, mem.number);
    var off := EntryOffset(number);
    assert Entry(r, number) == Entry(image, number) by {
      forall k | 0 <= k < EntrySize ensures Entry(r, number)[k] == Entry(image, number)[k] {
        assert r[off + k] == image[off + k];
      }
    }
  }

  /** Storing a channel leaves the settings as they were. */
  lemma SetMemoryKeepsSettings(image: Image, mem: Memory, lowpower: bool)
    requires 1 <= mem.number <= ChannelCount
    ensures Settings.GetSettings(SetMemory(image, mem, lowpower)) == Settings.GetSettings(image)
  {
    Settings.SettingsFrame(SetMemory(image, mem, lowpower), image);
  }
}
