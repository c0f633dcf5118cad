/**
  The radio object: the serial port it talks through, the status callback it
  reports progress to, and the memory image (`mmap`) that channel edits change
  in place. Each method runs the same steps as the driver, one write or read at a
  time, and is proved to leave exactly the state the protocol and channel
  functions describe.
 */
module Radio {
  import opened Wrappers
  import opened Bcd
  import opened Layout
  import opened Protocol
  import Channels

  class H777Radio {
    /** Bytes the radio has yet to send. */
    var replies: seq<byte>
    /** Bytes written to the radio so far. */
    var sent: seq<byte>
    /** Every `cur` value passed to the status callback so far. */
    var progress: seq<nat>
    /** The memory image. */
    var mmap: array<byte>

    function WireState(): Wire
      reads this
    {
      Wire(replies, sent, progress)
    }

    predicate Valid()
      reads this
    {
      mmap.Length == MemSize
    }

    constructor(script: seq<byte>, image: Image)
      ensures Valid() && fresh(mmap)
      ensures WireState() == Wire(script, [], []) && mmap[..] == image
    {
      replies, sent, progress := script, [], [];
      mmap := new byte[MemSize](i requires 0 <= i < MemSize => image[i]);
    }

    // -------------------------------------------------------------- the port

    method Write(bs: seq<byte>)
      modifies this`sent
      ensures WireState() == Send(old(WireState()), bs)
    {
      sent := sent + bs;
    }

    method Read(n: nat) returns (r: seq<byte>)
      modifies this`replies
      ensures (r, WireState()) == Receive(old(WireState()), n)
    {
      var k := if n <= |replies| then n else |replies|;
      r := replies[..k];
      replies := replies[k..];
    }

    method ReportProgress(cur: nat)
      modifies this`progress
      ensures WireState() == Report(old(WireState()), cur)
    {
      progress := progress + [cur];
    }

    // -------------------------------------------------------------- exchanges

    method EnterProgrammingMode() returns (r: Result<(), ProtocolError>)
      modifies this`replies, this`sent
      ensures (r, WireState()) == Protocol.EnterProgrammingMode(old(WireState()))
    {
      Write([STX]);
      Write(Program);
      var ack := Read(1);
      if ack != [ACK] {
        return Err(NoResponse);
      }
      Write([STX]);
      var ident := Read(8);
      if !StartsWith(ident, Ident) {
        return Err(WrongModel);
      }
      Write([ACK]);
      ack := Read(1);
      if ack != [ACK] {
        return Err(HandshakeRefused);
      }
      return Ok(());
    }

    method ExitProgrammingMode()
      modifies this`sent
      ensures WireState() == Protocol.ExitProgrammingMode(old(WireState()))
    {
      Write([CmdExit]);
    }

    method ReadBlock(addr: nat) returns (r: Result<seq<byte>, ProtocolError>)
      requires addr < 0x10000
      modifies this`replies, this`sent
      ensures (r, WireState()) == Protocol.ReadBlock(old(WireState()), addr)
    {
      Write(Header(CmdRead, addr));
      var response := Read(4 + BlockSize);
      if !StartsWith(response, Header(CmdWrite, addr)) {
        return Err(BadBlock(addr));
      }
      var data := response[4..];
      Write([ACK]);
      var ack := Read(1);
      if ack != [ACK] {
        return Err(ReadNoAck(addr));
      }
      return Ok(data);
    }

    /** Sends the image bytes at `addr` from the radio's own memory image. */
    method WriteBlock(addr: nat) returns (r: Result<(), ProtocolError>)
      requires addr < 0x10000
      modifies this`replies, this`sent
      ensures (r, WireState()) == Protocol.WriteBlock(old(WireState()), mmap[..], addr)
    {
      var data := Slice(mmap[..], addr, addr + BlockSize);
      Write(Header(CmdWrite, addr) + data);
      var ack := Read(1);
      if ack != [ACK] {
        return Err(WriteNoAck);
      }
      return Ok(());
    }

    // -------------------------------------------------------------- transfers

    method DoDownload() returns (r: Result<seq<byte>, ProtocolError>)
      modifies this`replies, this`sent, this`progress
      ensures (r, WireState()) == Download(old(WireState()))
    {
      var entered := EnterProgrammingMode();
      if entered.Err? {
        return Err(entered.error);
      }
      ghost var w1 := WireState();
      ghost var goal := ReadAll(w1, DownloadAddrs(), []);
      assert Download(old(WireState())) == if goal.0.Err? then goal else (goal.0, Protocol.ExitProgrammingMode(goal.1));
      var data: seq<byte> := [];
      var addr: nat := 0;
      while addr < MemSize
        invariant ReadAll(WireState(), RangeAddrs(addr, MemSize), data) == goal
        decreases MemSize - addr
      {
        ghost var before := WireState();
        RangeAddrsCons(addr, MemSize);
        ReadAllCons(before, addr, RangeAddrs(addr + BlockSize, MemSize), data);
        ReportProgress(addr + BlockSize);
        var block := ReadBlock(addr);
        if block.Err? {
          return Err(block.error);
        }
        data := data + block.value;
        addr := addr + BlockSize;
      }
      ExitProgrammingMode();
      return Ok(data);
    }

    method DoUpload() returns (r: Result<(), ProtocolError>)
      modifies this`replies, this`sent, this`progress
      ensures (r, WireState()) == Upload(old(WireState()), mmap[..])
    {
      var entered := EnterProgrammingMode();
      if entered.Err? {
        return Err(entered.error);
      }
      ghost var w1 := WireState();
      UploadAddrsFacts();
      ghost var goal := WriteAll(w1, mmap[..], UploadAddrs());
      assert Upload(old(WireState()), mmap[..])
             == if goal.0.Err? then goal else (goal.0, Protocol.ExitProgrammingMode(goal.1));
      var i := 0;
      while i < |UploadRanges|
        invariant i <= |UploadRanges|
        invariant AddrsFit(RangesAddrs(UploadRanges[i..]))
        invariant WriteAll(WireState(), mmap[..], RangesAddrs(UploadRanges[i..])) == goal
      {
        var (startAddr, endAddr) := UploadRanges[i];
        RangesFit(UploadRanges[i + 1..]);
        assert UploadRanges[i..][1..] == UploadRanges[i + 1..];
        WriteAllAppend(WireState(), mmap[..], RangeAddrs(startAddr, endAddr), RangesAddrs(UploadRanges[i + 1..]));
        var written := WriteRange(startAddr, endAddr);
        if written.Err? {
          return written;
        }
        i := i + 1;
      }
      ExitProgrammingMode();
      return Ok(());
    }

    /** The inner upload loop: reports progress and writes each block of range(start, end, 8). */
    method WriteRange(start: nat, end: nat) returns (r: Result<(), ProtocolError>)
      requires end <= MemSize
      modifies this`replies, this`sent, this`progress
      ensures AddrsFit(RangeAddrs(start, end))
      ensures (r, WireState()) == WriteAll(old(WireState()), mmap[..], RangeAddrs(start, end))
    {
      ghost var goal := WriteAll(WireState(), mmap[..], RangeAddrs(start, end));
      var addr := start;
      while addr < end
        invariant WriteAll(WireState(), mmap[..], RangeAddrs(addr, end)) == goal
        decreases end - addr
      {
        ghost var before := WireState();
        RangeAddrsCons(addr, end);
        WriteAllCons(before, mmap[..], addr, RangeAddrs(addr + BlockSize, end));
        ReportProgress(addr + BlockSize);
        var written := WriteBlock(addr);
        if written.Err? {
          return written;
        }
        addr := addr + BlockSize;
      }
      return Ok(());
    }

    /** Downloads the image; on success the radio's memory image is replaced by it,
        otherwise the image is kept. */
    method SyncIn() returns (r: Result<(), ProtocolError>)
      requires Valid()
      modifies this
      ensures Valid()
      ensures var (d, w) := Download(old(WireState()));
        && WireState() == w
        && (d.Err? ==> r == Err(d.error) && mmap == old(mmap))
        && (d.Ok? ==> r == Ok(()) && fresh(mmap) && mmap[..] == d.value)
    {
      var data := DoDownload();
      if data.Err? {
        return Err(data.error);
      }
      DownloadLength(old(WireState()));
      var image := new byte[MemSize](i requires 0 <= i < MemSize => data.value[i]);
      assert image[..] == data.value;
      mmap := image;
      return Ok(());
    }

    // -------------------------------------------------------------- channels

    /** Writes `bs` into the image at `at`, one byte after another. */
    method Store(at: nat, bs: seq<byte>)
      requires at + |bs| <= mmap.Length
      modifies mmap
      ensures mmap[..] == Splice(old(mmap[..]), at, bs)
    {
      SpliceNothing(mmap[..], at);
      assert bs[..0] == [];
      for i := 0 to |bs|
        invariant mmap[..] == Splice(old(mmap[..]), at, bs[..i])
      {
        SpliceSnoc(old(mmap[..]), at, bs[..i], bs[i]);
        assert bs[..i + 1] == bs[..i] + [bs[i]];
        mmap[at + i] := bs[i];
      }
      assert bs[..|bs|] == bs;
    }

    /** Sets the `wide` bit of the flag byte at `i`, then its `lowpower` bit, then its
        `scanadd` bit. */
    method WriteFlags(i: nat, lowpower: bool, scanadd: bool)
      requires i < mmap.Length
      modifies mmap
      ensures mmap[..] == old(mmap[..])[i := EncodeFlags(DecodeFlags(old(mmap[i]))
                                                .(wide := true, lowpower := lowpower, scanadd := scanadd))]
    {
      var flags := DecodeFlags(mmap[i]);
      mmap[i] := EncodeFlags(flags.(wide := true));
      flags := DecodeFlags(mmap[i]);
      mmap[i] := EncodeFlags(flags.(lowpower := lowpower));
      flags := DecodeFlags(mmap[i]);
      mmap[i] := EncodeFlags(flags.(scanadd := scanadd));
      FlagWrites(old(mmap[i]), true, lowpower, scanadd);
    }

    /** Writes the receive frequency, then the transmit frequency field chosen by the
        record's duplex: 0xFF bytes for "off", the offset itself for "split", the
        frequency plus or minus the offset, or the frequency again. */
    method StoreFrequencies(at: nat, mem: Channels.Memory)
      requires at + 8 <= mmap.Length
      modifies mmap
      ensures mmap[..] == Splice(Splice(old(mmap[..]), at + RxFreqAt, Encode(mem.freq / 10, 4)),
                                 at + TxFreqAt, Channels.TxField(mem))
    {
      Store(at + RxFreqAt, Encode(mem.freq / 10, 4));
      if mem.duplex == Channels.Off {
        Store(at + TxFreqAt, Channels.Blank4);
      } else {
        var txfreq: int;
        if mem.duplex == Channels.Split {
          txfreq := mem.offset / 10;
        } else if mem.duplex == Channels.Plus {
          txfreq := (mem.freq + mem.offset) / 10;
        } else if mem.duplex == Channels.Minus {
          txfreq := (mem.freq - mem.offset) / 10;
        } else {
          txfreq := mem.freq / 10;
        }
        assert txfreq == Channels.TxFreq(mem) / 10;
        Store(at + TxFreqAt, Encode(txfreq, 4));
      }
    }

    /** Stores a channel record into its entry of the memory image; `lowpower` is the
        outcome of the driver's `mem.power == 1`. */
    method SetMemory(mem: Channels.Memory, lowpower: bool)
      requires Valid() && 1 <= mem.number <= ChannelCount
      modifies mmap
      ensures mmap[..] == Channels.SetMemory(old(mmap[..]), mem, lowpower)
    {
      var at := EntryOffset(mem.number);
      if mem.empty {
        Store(at, seq(EntrySize, _ => 0xFF));
        assert mmap[..] == Channels.SetMemory(old(mmap[..]), mem, lowpower);
        return;
      }
      ghost var image: Image := mmap[..];
      StoreFrequencies(at, mem);
      ghost var s2 := mmap[..];
      ghost var s1 := Splice(image, at + RxFreqAt, Encode(mem.freq / 10, 4));
      assert s2[at + FlagsAt] == image[at + FlagsAt] by {
        assert s2[at + FlagsAt] == s1[at + FlagsAt];
      }
      ghost var f := EncodeFlags(DecodeFlags(image[at + FlagsAt]).(wide := true, lowpower := lowpower, scanadd := !mem.skip));
      WriteFlags(at + FlagsAt, lowpower, !mem.skip);
      assert mmap[..] == s2[at + FlagsAt := f];
      SpliceOne(s2, at + FlagsAt, f);
      Channels.SetMemoryBySteps(image, mem, lowpower, s1, s2, mmap[..]);
    }
  }
}
