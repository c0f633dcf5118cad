/**
  The clone protocol: a handshake, then 8-byte blocks moved one at a time, each
  acknowledged with 0x06. The serial line is modelled as the bytes the radio will
  answer with (`replies`), the bytes the host has written (`sent`) and the
  progress values reported to the host's status callback (`progress`). A read of
  n bytes returns fewer only when the radio has nothing more to say, which is how
  a timeout shows here.
 */
module Protocol {
  import opened Wrappers
  import opened Bcd
  import opened Layout

  const STX: byte := 0x02
  const ACK: byte := 0x06
  const CmdRead: byte := 0x52   // 'R'
  const CmdWrite: byte := 0x57  // 'W'
  const CmdExit: byte := 0x45   // 'E'
  /** "PROGRAM" */
  const Program: seq<byte> := [0x50, 0x52, 0x4F, 0x47, 0x52, 0x41, 0x4D]
  /** "P3107", the start of the radio's 8-byte identity reply. */
  const Ident: seq<byte> := [0x50, 0x33, 0x31, 0x30, 0x37]

  /** Everything the host writes during a successful handshake. */
  const HandshakeBytes: seq<byte> := [STX] + Program + [STX] + [ACK]
  /** Bytes the radio sends during a successful handshake: ACK, 8 identity bytes, ACK. */
  const HandshakeReplyLength: nat := 10
  /** Bytes the radio sends for one block read: 4 header bytes, 8 data bytes, ACK. */
  const BlockReplyLength: nat := 13

  /** The driver's exceptions, by the step that raises them. */
  datatype ProtocolError =
    | NoResponse          // no ACK after "PROGRAM"
    | WrongModel          // identity reply does not start with "P3107"
    | HandshakeRefused    // no ACK after the host's ACK
    | BadBlock(addr: nat) // block reply header is not 'W', address, 8
    | ReadNoAck(addr: nat)
    | WriteNoAck

  datatype Wire = Wire(replies: seq<byte>, sent: seq<byte>, progress: seq<nat>)

  function Send(w: Wire, bs: seq<byte>): Wire
  {
    w.(sent := w.sent + bs)
  }

  /** read(n): the next n reply bytes, or all that are left. */
  function Receive(w: Wire, n: nat): (seq<byte>, Wire)
  {
    var k := if n <= |w.replies| then n else |w.replies|;
    (w.replies[..k], w.(replies := w.replies[k..]))
  }

  /** One call of the status callback with the current position. */
  function Report(w: Wire, cur: nat): Wire
  {
    w.(progress := w.progress + [cur])
  }

  function StartsWith(s: seq<byte>, prefix: seq<byte>): bool
  {
    |prefix| <= |s| && s[..|prefix|] == prefix
  }

  // ------------------------------------------------------------ the exchanges

  function EnterProgrammingMode(w: Wire): (Result<(), ProtocolError>, Wire)
  {
    var (ack, w1) := Receive(Send(Send(w, [STX]), Program), 1);
    if ack != [ACK] then (Err(NoResponse), w1)
    else
      var (ident, w2) := Receive(Send(w1, [STX]), 8);
      if !StartsWith(ident, Ident) then (Err(WrongModel), w2)
      else
        var (ack2, w3) := Receive(Send(w2, [ACK]), 1);
        if ack2 != [ACK] then (Err(HandshakeRefused), w3)
        else (Ok(()), w3)
  }

  /** No answer is awaited. */
  function ExitProgrammingMode(w: Wire): Wire
  {
    Send(w, [CmdExit])
  }

  /** A command, the address big-endian in two bytes, and the block size. */
  function Header(cmd: byte, addr: nat): (h: seq<byte>)
    requires addr < 0x10000
    ensures |h| == 4 && h[0] == cmd && (h[1] as int) * 256 + (h[2] as int) == addr && h[3] == BlockSize
  {
    [cmd, addr / 256, addr % 256, BlockSize]
  }

  function ReadBlock(w: Wire, addr: nat): (Result<seq<byte>, ProtocolError>, Wire)
    requires addr < 0x10000
  {
    var (response, w1) := Receive(Send(w, Header(CmdRead, addr)), 4 + BlockSize);
    if !StartsWith(response, Header(CmdWrite, addr)) then (Err(BadBlock(addr)), w1)
    else
      var (ack, w2) := Receive(Send(w1, [ACK]), 1);
      if ack != [ACK] then (Err(ReadNoAck(addr)), w2)
      else (Ok(response[4..]), w2)
  }

  /** image[a:b] as Python slices it: cut to the image's length. */
  function Slice(image: seq<byte>, a: nat, b: nat): seq<byte>
  {
    var hi := if b <= |image| then b else |image|;
    var lo := if a <= hi then a else hi;
    image[lo..hi]
  }

  /** A block write: the header, then the image bytes at the block's address. */
  function WriteFrame(image: seq<byte>, addr: nat): seq<byte>
    requires addr < 0x10000
  {
    Header(CmdWrite, addr) + Slice(image, addr, addr + BlockSize)
  }

  function WriteBlock(w: Wire, image: seq<byte>, addr: nat): (Result<(), ProtocolError>, Wire)
    requires addr < 0x10000
  {
    var (ack, w1) := Receive(Send(w, WriteFrame(image, addr)), 1);
    if ack != [ACK] then (Err(WriteNoAck), w1) else (Ok(()), w1)
  }

  // ------------------------------------------------------------ addresses

  /** range(start, end, 8). */
  function RangeAddrs(start: nat, end: nat): (r: seq<nat>)
    ensures forall i :: 0 <= i < |r| ==> r[i] == start + BlockSize * i && r[i] + BlockSize <= end + 7
    ensures start <= end ==> |r| == (end - start + 7) / BlockSize
    ensures start >= end ==> r == []
  {
    if start >= end then []
    else
      var n := (end - start + 7) / BlockSize;
      var r := seq(n, i => start + BlockSize * i);
      assert forall i :: 0 <= i < n ==> BlockSize * i + BlockSize <= end - start + 7 by {
        forall i | 0 <= i < n ensures BlockSize * i + BlockSize <= end - start + 7 {
          assert BlockSize * (i + 1) <= BlockSize * n;
        }
      }
      r
  }

  /** range(start, end, 8) is `start` followed by range(start + 8, end). */
  lemma RangeAddrsCons(start: nat, end: nat)
    requires start < end
    ensures RangeAddrs(start, end) == [start] + RangeAddrs(start + BlockSize, end)
  {
    var r, t := RangeAddrs(start, end), RangeAddrs(start + BlockSize, end);
    assert |r| == |t| + 1;
    forall i | 0 <= i < |r| ensures r[i] == ([start] + t)[i] {
      if i > 0 {
        assert t[i - 1] == start + BlockSize + BlockSize * (i - 1);
      }
    }
  }

  /** The address ranges an upload writes, in order. */
  const UploadRanges: seq<(nat, nat)> := [(0x0000, 0x0110), (0x02B0, 0x02C0), (0x0380, 0x03E0)]

  function RangesAddrs(ranges: seq<(nat, nat)>): seq<nat>
  {
    if ranges == [] then [] else RangeAddrs(ranges[0].0, ranges[0].1) + RangesAddrs(ranges[1..])
  }

  function DownloadAddrs(): seq<nat> { RangeAddrs(0, MemSize) }

  function UploadAddrs(): seq<nat> { RangesAddrs(UploadRanges) }

  predicate AddrsFit(addrs: seq<nat>)
  {
    forall i :: 0 <= i < |addrs| ==> addrs[i] < 0x10000
  }

  // ------------------------------------------------------------ whole transfers

  /** The download loop: report progress, read a block, append it. */
  function ReadAll(w: Wire, addrs: seq<nat>, acc: seq<byte>): (Result<seq<byte>, ProtocolError>, Wire)
    requires AddrsFit(addrs)
    decreases |addrs|
  {
    if addrs == [] then (Ok(acc), w)
    else
      var (block, w1) := ReadBlock(Report(w, addrs[0] + BlockSize), addrs[0]);
      if block.Err? then (Err(block.error), w1)
      else ReadAll(w1, addrs[1..], acc + block.value)
  }

  function Download(w: Wire): (Result<seq<byte>, ProtocolError>, Wire)
  {
    var (entered, w1) := EnterProgrammingMode(w);
    if entered.Err? then (Err(entered.error), w1)
    else
      var (image, w2) := ReadAll(w1, DownloadAddrs(), []);
      if image.Err? then (image, w2) else (image, ExitProgrammingMode(w2))
  }

  /** The upload loop: report progress, write a block. */
  function WriteAll(w: Wire, image: seq<byte>, addrs: seq<nat>): (Result<(), ProtocolError>, Wire)
    requires AddrsFit(addrs)
    decreases |addrs|
  {
    if addrs == [] then (Ok(()), w)
    else
      var (written, w1) := WriteBlock(Report(w, addrs[0] + BlockSize), image, addrs[0]);
      if written.Err? then (written, w1)
      else WriteAll(w1, image, addrs[1..])
  }

  function Upload(w: Wire, image: seq<byte>): (Result<(), ProtocolError>, Wire)
  {
    var (entered, w1) := EnterProgrammingMode(w);
    if entered.Err? then (entered, w1)
    else
      UploadAddrsFacts();
      var (written, w2) := WriteAll(w1, image, UploadAddrs());
      if written.Err? then (written, w2) else (written, ExitProgrammingMode(w2))
  }

  // ------------------------------------------------------------ addresses: facts

  /** An address is in range(start, end, 8) exactly when it lies in [start, end)
      at a multiple of 8 from start. */
  lemma RangeAddrsMembers(start: nat, end: nat, a: nat)
    ensures a in RangeAddrs(start, end) <==> start <= a < end && (a - start) % BlockSize == 0
  {
    var r := RangeAddrs(start, end);
    if start <= a < end && (a - start) % BlockSize == 0 {
      var i := (a - start) / BlockSize;
      assert r[i] == a;
    }
  }

  /** The download reads addresses 0, 8, ..., 0x3D8 in that order. */
  lemma DownloadAddrsFacts()
    ensures |DownloadAddrs()| == MemSize / BlockSize == 124
    ensures forall i :: 0 <= i < |DownloadAddrs()| ==> DownloadAddrs()[i] == BlockSize * i
    ensures AddrsFit(DownloadAddrs())
  {
  }

  /** The upload writes 48 blocks in increasing address order, every block
      address lies in one of the three ranges, and every block of those ranges
      is written. */
  lemma UploadAddrsFacts()
    ensures |UploadAddrs()| == 48
    ensures forall i, j :: 0 <= i < j < |UploadAddrs()| ==> UploadAddrs()[i] < UploadAddrs()[j]
    ensures forall a: nat :: a in UploadAddrs() <==>
              a % BlockSize == 0 && (a < 0x0110 || 0x02B0 <= a < 0x02C0 || 0x0380 <= a < 0x03E0)
    ensures AddrsFit(UploadAddrs())
  {
    var r1, r2, r3 := RangeAddrs(0x0000, 0x0110), RangeAddrs(0x02B0, 0x02C0), RangeAddrs(0x0380, 0x03E0);
    assert UploadRanges[1..][1..][1..] == [];
    assert UploadAddrs() == r1 + r2 + r3;
    forall a: nat ensures a in UploadAddrs() <==>
        a % BlockSize == 0 && (a < 0x0110 || 0x02B0 <= a < 0x02C0 || 0x0380 <= a < 0x03E0)
    {
      RangeAddrsMembers(0x0000, 0x0110, a);
      RangeAddrsMembers(0x02B0, 0x02C0, a);
      RangeAddrsMembers(0x0380, 0x03E0, a);
    }
  }

  /** Every progress value reported is an address plus 8, and none exceeds the
      image size. */
  lemma ProgressBounded()
    ensures forall a :: a in DownloadAddrs() ==> a + BlockSize <= MemSize
    ensures forall a :: a in UploadAddrs() ==> a + BlockSize <= MemSize
  {
    UploadAddrsFacts();
    forall a | a in DownloadAddrs() ensures a + BlockSize <= MemSize {
      RangeAddrsMembers(0, MemSize, a);
    }
  }

  /** Every byte of every channel entry lies in a block the upload writes, so a
      stored channel reaches the radio. */
  lemma EntryUploaded(number: int, k: nat)
    requires 1 <= number <= ChannelCount && k < EntrySize
    ensures (EntryOffset(number) + k) / BlockSize * BlockSize in UploadAddrs()
  {
    UploadAddrsFacts();
  }

  // ------------------------------------------------------------ transcripts

  /** The radio's replies to a successful handshake: ACK, an identity starting
      with "P3107", ACK. */
  predicate HandshakeAccepted(s: seq<byte>)
  {
    |s| >= HandshakeReplyLength && s[0] == ACK && s[1..6] == Ident && s[9] == ACK
  }

  /** A good reply to the read of one block: 'W', the address, 8, eight data
      bytes, then the ACK answering the host's ACK. */
  predicate BlockReply(s: seq<byte>, addr: nat)
    requires addr < 0x10000
  {
    |s| >= BlockReplyLength && s[..4] == Header(CmdWrite, addr) && s[12] == ACK
  }

  predicate BlockReplies(s: seq<byte>, addrs: seq<nat>)
    requires AddrsFit(addrs)
    ensures BlockReplies(s, addrs) ==> |s| >= BlockReplyLength * |addrs|
    decreases |addrs|
  {
    addrs == [] || (BlockReply(s, addrs[0]) && BlockReplies(s[BlockReplyLength..], addrs[1..]))
  }

  /** The data bytes of n consecutive block replies. */
  function Payloads(s: seq<byte>, n: nat): (r: seq<byte>)
    requires |s| >= BlockReplyLength * n
    ensures |r| == BlockSize * n
  {
    if n == 0 then [] else s[4..12] + Payloads(s[BlockReplyLength..], n - 1)
  }

  /** What the host writes to read the blocks at `addrs`. */
  function ReadRequests(addrs: seq<nat>): seq<byte>
    requires AddrsFit(addrs)
  {
    if addrs == [] then [] else Header(CmdRead, addrs[0]) + [ACK] + ReadRequests(addrs[1..])
  }

  /** What the host writes to write the blocks at `addrs`. */
  function WriteFrames(image: seq<byte>, addrs: seq<nat>): seq<byte>
    requires AddrsFit(addrs)
  {
    if addrs == [] then [] else WriteFrame(image, addrs[0]) + WriteFrames(image, addrs[1..])
  }

  /** The progress values reported while transferring the blocks at `addrs`. */
  function Progress(addrs: seq<nat>): (p: seq<nat>)
    ensures |p| == |addrs| && forall i :: 0 <= i < |p| ==> p[i] == addrs[i] + BlockSize
  {
    if addrs == [] then [] else [addrs[0] + BlockSize] + Progress(addrs[1..])
  }

  predicate AllAcks(s: seq<byte>, n: nat)
  {
    n <= |s| && forall j :: 0 <= j < n ==> s[j] == ACK
  }

  /** The handshake succeeds exactly on the expected replies, and then has written
      0x02 "PROGRAM" 0x02 0x06 and consumed ten reply bytes; each deviation gives
      its own error. */
  lemma HandshakeOutcome(w: Wire)
    ensures var (r, w') := EnterProgrammingMode(w);
      var s := w.replies;
      && (r.Ok? <==> HandshakeAccepted(s))
      && (r.Ok? ==> HandshakeAccepted(s)
                    && w' == Wire(s[HandshakeReplyLength..], w.sent + HandshakeBytes, w.progress))
      && (r == Err(NoResponse) <==> s == [] || s[0] != ACK)
      && (r == Err(WrongModel) <==> s != [] && s[0] == ACK && !(|s| >= 6 && s[1..6] == Ident))
      && w'.progress == w.progress
  {
    var s := w.replies;
    if |s| >= 6 && s[0] == ACK {
      var ident := s[1..][..if 8 <= |s| - 1 then 8 else |s| - 1];
      assert ident[..5] == s[1..6];
    }
  }

  /** A block read succeeds exactly on a good reply, and then returns its eight data
      bytes, having written the read request and an ACK. */
  lemma ReadBlockOutcome(w: Wire, addr: nat)
    requires addr < 0x10000
    ensures var (r, w') := ReadBlock(w, addr);
      var s := w.replies;
      && (r.Ok? <==> BlockReply(s, addr))
      && (r.Ok? ==> BlockReply(s, addr) && r.value == s[4..12]
                    && w' == Wire(s[BlockReplyLength..], w.sent + Header(CmdRead, addr) + [ACK], w.progress))
      && (r == Err(BadBlock(addr)) <==> !StartsWith(s, Header(CmdWrite, addr)))
      && w'.progress == w.progress
  {
    var s := w.replies;
    var k := if 12 <= |s| then 12 else |s|;
    if k >= 4 {
      assert s[..k][..4] == s[..4];
    }
  }

  /** A block write always sends the header and the image bytes of that block, and
      succeeds exactly when the one reply byte is an ACK. */
  lemma WriteBlockOutcome(w: Wire, image: seq<byte>, addr: nat)
    requires addr < 0x10000
    ensures var (r, w') := WriteBlock(w, image, addr);
      var s := w.replies;
      && w'.sent == w.sent + WriteFrame(image, addr)
      && (r.Ok? <==> s != [] && s[0] == ACK)
      && w'.replies == (if s == [] then [] else s[1..])
      && w'.progress == w.progress
      && (addr + BlockSize <= |image| ==>
            WriteFrame(image, addr) == Header(CmdWrite, addr) + image[addr..addr + BlockSize])
  {
  }

  /** The download loop succeeds exactly when every block gets a good reply. */
  lemma {:induction false} ReadAllSucceeds(w: Wire, addrs: seq<nat>, acc: seq<byte>)
    requires AddrsFit(addrs)
    ensures ReadAll(w, addrs, acc).0.Ok? <==> BlockReplies(w.replies, addrs)
    decreases |addrs|
  {
    if addrs != [] {
      var a := addrs[0];
      var w0 := Report(w, a + BlockSize);
      ReadBlockOutcome(w0, a);
      var rb := ReadBlock(w0, a);
      if rb.0.Ok? {
        ReadAllSucceeds(rb.1, addrs[1..], acc + rb.0.value);
      }
    }
  }

  /** On good replies, the download loop returns the blocks' data in order, having
      written one request and one ACK per block and reported each block's end. */
  lemma {:induction false} ReadAllResult(w: Wire, addrs: seq<nat>, acc: seq<byte>)
    requires AddrsFit(addrs) && BlockReplies(w.replies, addrs)
    ensures ReadAll(w, addrs, acc).0 == Ok(acc + Payloads(w.replies, |addrs|))
    ensures ReadAll(w, addrs, acc).1.replies == w.replies[BlockReplyLength * |addrs|..]
    ensures ReadAll(w, addrs, acc).1.sent == w.sent + ReadRequests(addrs)
    ensures ReadAll(w, addrs, acc).1.progress == w.progress + Progress(addrs)
    decreases |addrs|
  {
    var s := w.replies;
    if addrs == [] {
      assert s[BlockReplyLength * |addrs|..] == s;
      assert acc + Payloads(s, 0) == acc;
      assert w.sent + ReadRequests(addrs) == w.sent;
      assert w.progress + Progress(addrs) == w.progress;
    } else {
      var w1 := Wire(s[BlockReplyLength..], w.sent + Header(CmdRead, addrs[0]) + [ACK],
                     w.progress + [addrs[0] + BlockSize]);
      var x := ReadAll(w1, addrs[1..], acc + s[4..12]);
      assert ReadAll(w, addrs, acc) == x by {
        ReadAllStep(w, addrs, acc);
      }
      assert && x.0 == Ok(acc + Payloads(s, |addrs|))
             && x.1.replies == s[BlockReplyLength * |addrs|..]
             && x.1.sent == w.sent + ReadRequests(addrs)
             && x.1.progress == w.progress + Progress(addrs) by {
        ReadAllResult(w1, addrs[1..], acc + s[4..12]);
        DropStep(s, |addrs|);
        RequestsStep(w.sent, addrs);
        ProgressStep(w.progress, addrs);
        PayloadsStep(s, acc, |addrs|);
      }
    }
  }

  lemma DropStep(s: seq<byte>, n: nat)
    requires n > 0 && |s| >= BlockReplyLength * n
    ensures s[BlockReplyLength..][BlockReplyLength * (n - 1)..] == s[BlockReplyLength * n..]
  {
  }

  lemma RequestsStep(sent: seq<byte>, addrs: seq<nat>)
    requires AddrsFit(addrs) && addrs != []
    ensures sent + Header(CmdRead, addrs[0]) + [ACK] + ReadRequests(addrs[1..]) == sent + ReadRequests(addrs)
  {
    Assoc(sent, Header(CmdRead, addrs[0]) + [ACK], ReadRequests(addrs[1..]));
  }

  lemma ProgressStep(progress: seq<nat>, addrs: seq<nat>)
    requires addrs != []
    ensures progress + [addrs[0] + BlockSize] + Progress(addrs[1..]) == progress + Progress(addrs)
  {
    Assoc(progress, [addrs[0] + BlockSize], Progress(addrs[1..]));
  }

  lemma PayloadsStep(s: seq<byte>, acc: seq<byte>, n: nat)
    requires n > 0 && |s| >= BlockReplyLength * n
    ensures acc + s[4..12] + Payloads(s[BlockReplyLength..], n - 1) == acc + Payloads(s, n)
  {
    Assoc(acc, s[4..12], Payloads(s[BlockReplyLength..], n - 1));
  }

  lemma Assoc<T>(a: seq<T>, b: seq<T>, c: seq<T>)
    ensures a + b + c == a + (b + c)
  {
  }

  /** One good block reply: the download loop moves on with the block's data. */
  lemma ReadAllStep(w: Wire, addrs: seq<nat>, acc: seq<byte>)
    requires AddrsFit(addrs) && addrs != [] && BlockReply(w.replies, addrs[0])
    ensures var s := w.replies;
      ReadAll(w, addrs, acc)
        == ReadAll(Wire(s[BlockReplyLength..], w.sent + Header(CmdRead, addrs[0]) + [ACK],
                        w.progress + [addrs[0] + BlockSize]),
                   addrs[1..], acc + s[4..12])
  {
    ReadBlockOutcome(Report(w, addrs[0] + BlockSize), addrs[0]);
  }

  /** Byte k of n concatenated block payloads is data byte k % 8 of reply k / 8. */
  lemma {:induction false} PayloadAt(s: seq<byte>, n: nat, k: nat)
    requires |s| >= BlockReplyLength * n && k < BlockSize * n
    ensures BlockReplyLength * (k / BlockSize) + 4 + k % BlockSize < |s|
    ensures Payloads(s, n)[k] == s[BlockReplyLength * (k / BlockSize) + 4 + k % BlockSize]
    decreases n
  {
    if k >= BlockSize {
      PayloadAt(s[BlockReplyLength..], n - 1, k - BlockSize);
      assert (k - BlockSize) / BlockSize == k / BlockSize - 1;
      assert (k - BlockSize) % BlockSize == k % BlockSize;
    }
  }

  lemma DownloadedBytes(s: seq<byte>, image: seq<byte>)
    requires |s| >= HandshakeReplyLength + BlockReplyLength * 124
    requires image == Payloads(s[HandshakeReplyLength..], 124)
    ensures |image| == MemSize
    ensures forall k :: 0 <= k < MemSize ==>
              image[k] == s[HandshakeReplyLength + BlockReplyLength * (k / BlockSize) + 4 + k % BlockSize]
  {
    forall k | 0 <= k < MemSize
      ensures image[k] == s[HandshakeReplyLength + BlockReplyLength * (k / BlockSize) + 4 + k % BlockSize]
    {
      PayloadAt(s[HandshakeReplyLength..], 124, k);
    }
  }

  /** The whole download succeeds exactly when the handshake and all 124 block
      replies are good. */
  lemma DownloadSucceeds(w: Wire)
    ensures Download(w).0.Ok? <==>
      HandshakeAccepted(w.replies) && BlockReplies(w.replies[HandshakeReplyLength..], DownloadAddrs())
  {
    DownloadAddrsFacts();
    HandshakeOutcome(w);
    var h := EnterProgrammingMode(w);
    if h.0.Ok? {
      ReadAllSucceeds(h.1, DownloadAddrs(), []);
    }
  }

  /** After a successful download the image is the data bytes of the 124 block
      replies in order (`PayloadAt` and `DownloadedBytes` say where each byte comes
      from), and the host has written the handshake, the block requests in address
      order, and 'E'. */
  lemma DownloadResult(w: Wire)
    requires HandshakeAccepted(w.replies) && BlockReplies(w.replies[HandshakeReplyLength..], DownloadAddrs())
    ensures Download(w).0 == Ok(Payloads(w.replies[HandshakeReplyLength..], 124))
    ensures Download(w).1.sent == w.sent + HandshakeBytes + ReadRequests(DownloadAddrs()) + [CmdExit]
    ensures Download(w).1.progress == w.progress + Progress(DownloadAddrs())
  {
    var w1 := Wire(w.replies[HandshakeReplyLength..], w.sent + HandshakeBytes, w.progress);
    DownloadAfterHandshake(w);
    var x := ReadAll(w1, DownloadAddrs(), []);
    assert x.0 == Ok(Payloads(w.replies[HandshakeReplyLength..], 124))
        && x.1.sent == w1.sent + ReadRequests(DownloadAddrs())
        && x.1.progress == w1.progress + Progress(DownloadAddrs()) by {
      ReadAllResult(w1, DownloadAddrs(), []);
      assert [] + Payloads(w.replies[HandshakeReplyLength..], 124) == Payloads(w.replies[HandshakeReplyLength..], 124);
    }
    assert Download(w) == (x.0, ExitProgrammingMode(x.1));
  }

  /** The download loop over `[a] + rest`: read block `a`, then the rest. */
  lemma ReadAllCons(w: Wire, a: nat, rest: seq<nat>, acc: seq<byte>)
    requires a < 0x10000 && AddrsFit(rest)
    ensures AddrsFit([a] + rest)
    ensures var (b, w1) := ReadBlock(Report(w, a + BlockSize), a);
      ReadAll(w, [a] + rest, acc) == if b.Err? then (Err(b.error), w1) else ReadAll(w1, rest, acc + b.value)
  {
    assert ([a] + rest)[0] == a && ([a] + rest)[1..] == rest;
  }

  /** The upload loop over `[a] + rest`: write block `a`, then the rest. */
  lemma WriteAllCons(w: Wire, image: seq<byte>, a: nat, rest: seq<nat>)
    requires a < 0x10000 && AddrsFit(rest)
    ensures AddrsFit([a] + rest)
    ensures var (b, w1) := WriteBlock(Report(w, a + BlockSize), image, a);
      WriteAll(w, image, [a] + rest) == if b.Err? then (b, w1) else WriteAll(w1, image, rest)
  {
    assert ([a] + rest)[0] == a && ([a] + rest)[1..] == rest;
  }

  lemma FitConcat(a: seq<nat>, b: seq<nat>)
    requires AddrsFit(a) && AddrsFit(b)
    ensures AddrsFit(a + b)
  {
  }

  /** Writing the blocks at `a + b` is writing those at `a` and, if that succeeded,
      then those at `b`. */
  lemma {:induction false} WriteAllAppend(w: Wire, image: seq<byte>, a: seq<nat>, b: seq<nat>)
    requires AddrsFit(a) && AddrsFit(b)
    ensures AddrsFit(a + b)
    ensures WriteAll(w, image, a + b)
            == var x := WriteAll(w, image, a); if x.0.Err? then x else WriteAll(x.1, image, b)
    decreases |a|
  {
    FitConcat(a, b);
    if a == [] {
      assert a + b == b;
    } else {
      assert (a + b)[0] == a[0] && (a + b)[1..] == a[1..] + b;
      var x := WriteBlock(Report(w, a[0] + BlockSize), image, a[0]);
      if x.0.Ok? {
        WriteAllAppend(x.1, image, a[1..], b);
      }
    }
  }

  /** Every address of ranges ending within the image fits the two-byte address field. */
  lemma {:induction false} RangesFit(ranges: seq<(nat, nat)>)
    requires forall j :: 0 <= j < |ranges| ==> ranges[j].1 <= MemSize
    ensures AddrsFit(RangesAddrs(ranges))
    decreases |ranges|
  {
    if ranges != [] {
      RangesFit(ranges[1..]);
      FitConcat(RangeAddrs(ranges[0].0, ranges[0].1), RangesAddrs(ranges[1..]));
    }
  }

  /** Once the handshake is accepted, the download is the read loop followed by 'E'. */
  lemma DownloadAfterHandshake(w: Wire)
    requires HandshakeAccepted(w.replies)
    ensures AddrsFit(DownloadAddrs())
    ensures var x := ReadAll(Wire(w.replies[HandshakeReplyLength..], w.sent + HandshakeBytes, w.progress),
                             DownloadAddrs(), []);
      Download(w) == if x.0.Err? then x else (x.0, ExitProgrammingMode(x.1))
  {
    DownloadAddrsFacts();
    HandshakeOutcome(w);
  }

  /** A successful download yields exactly 0x3E0 bytes. */
  lemma DownloadLength(w: Wire)
    ensures Download(w).0.Ok? ==> |Download(w).0.value| == MemSize
  {
    DownloadSucceeds(w);
    if Download(w).0.Ok? {
      DownloadResult(w);
    }
  }

  /** The upload loop succeeds exactly when every block write is acknowledged. */
  lemma {:induction false} WriteAllSucceeds(w: Wire, image: seq<byte>, addrs: seq<nat>)
    requires AddrsFit(addrs)
    ensures WriteAll(w, image, addrs).0.Ok? <==> AllAcks(w.replies, |addrs|)
    decreases |addrs|
  {
    if addrs != [] {
      var a := addrs[0];
      var w0 := Report(w, a + BlockSize);
      WriteBlockOutcome(w0, image, a);
      AllAcksStep(w.replies, |addrs|);
      var wb := WriteBlock(w0, image, a);
      if wb.0.Ok? {
        WriteAllSucceeds(wb.1, image, addrs[1..]);
      }
    }
  }

  /** When every write is acknowledged, the upload loop has written exactly the
      frames of the blocks at `addrs`, in order, and reported each block's end. */
  lemma {:induction false} WriteAllResult(w: Wire, image: seq<byte>, addrs: seq<nat>)
    requires AddrsFit(addrs) && AllAcks(w.replies, |addrs|)
    ensures WriteAll(w, image, addrs).0 == Ok(())
    ensures WriteAll(w, image, addrs).1.replies == w.replies[|addrs|..]
    ensures WriteAll(w, image, addrs).1.sent == w.sent + WriteFrames(image, addrs)
    ensures WriteAll(w, image, addrs).1.progress == w.progress + Progress(addrs)
    decreases |addrs|
  {
    var s := w.replies;
    if addrs == [] {
      assert s[|addrs|..] == s;
      assert w.sent + WriteFrames(image, addrs) == w.sent;
      assert w.progress + Progress(addrs) == w.progress;
    } else {
      AllAcksStep(s, |addrs|);
      var w1 := Wire(s[1..], w.sent + WriteFrame(image, addrs[0]), w.progress + [addrs[0] + BlockSize]);
      WriteAllStep(w, image, addrs);
      WriteAllResult(w1, image, addrs[1..]);
      assert s[1..][|addrs| - 1..] == s[|addrs|..];
      FramesStep(w.sent, image, addrs);
      ProgressStep(w.progress, addrs);
    }
  }

  /** One acknowledged block write: the upload loop moves on to the next block. */
  lemma WriteAllStep(w: Wire, image: seq<byte>, addrs: seq<nat>)
    requires AddrsFit(addrs) && addrs != [] && w.replies != [] && w.replies[0] == ACK
    ensures WriteAll(w, image, addrs)
      == WriteAll(Wire(w.replies[1..], w.sent + WriteFrame(image, addrs[0]), w.progress + [addrs[0] + BlockSize]),
                  image, addrs[1..])
  {
    WriteBlockOutcome(Report(w, addrs[0] + BlockSize), image, addrs[0]);
  }

  lemma FramesStep(sent: seq<byte>, image: seq<byte>, addrs: seq<nat>)
    requires AddrsFit(addrs) && addrs != []
    ensures sent + WriteFrame(image, addrs[0]) + WriteFrames(image, addrs[1..]) == sent + WriteFrames(image, addrs)
  {
    Assoc(sent, WriteFrame(image, addrs[0]), WriteFrames(image, addrs[1..]));
  }

  lemma AllAcksStep(s: seq<byte>, n: nat)
    requires n > 0
    ensures AllAcks(s, n) <==> s != [] && s[0] == ACK && AllAcks(s[1..], n - 1)
  {
    if s != [] && s[0] == ACK && AllAcks(s[1..], n - 1) {
      assert forall j :: 1 <= j < n ==> s[j] == s[1..][j - 1];
    }
  }

  /** The whole upload succeeds exactly when the handshake is accepted and all 48
      block writes are acknowledged. */
  lemma UploadSucceeds(w: Wire, image: seq<byte>)
    ensures Upload(w, image).0.Ok? <==>
      HandshakeAccepted(w.replies) && AllAcks(w.replies[HandshakeReplyLength..], 48)
  {
    UploadAddrsFacts();
    HandshakeOutcome(w);
    var h := EnterProgrammingMode(w);
    if h.0.Ok? {
      WriteAllSucceeds(h.1, image, UploadAddrs());
    }
  }

  /** After a successful upload the host has written the handshake, the frames of
      exactly the upload blocks in address order, and 'E'. */
  lemma UploadResult(w: Wire, image: seq<byte>)
    requires HandshakeAccepted(w.replies) && AllAcks(w.replies[HandshakeReplyLength..], 48)
    ensures Upload(w, image).0 == Ok(())
    ensures Upload(w, image).1.sent == w.sent + HandshakeBytes + WriteFrames(image, UploadAddrs()) + [CmdExit]
    ensures Upload(w, image).1.progress == w.progress + Progress(UploadAddrs())
  {
    UploadAddrsFacts();
    HandshakeOutcome(w);
    var w1 := Wire(w.replies[HandshakeReplyLength..], w.sent + HandshakeBytes, w.progress);
    assert EnterProgrammingMode(w) == (Ok(()), w1);
    WriteAllResult(w1, image, UploadAddrs());
  }

  // ------------------------------------------------------------ failures stop the transfer

  /** Each handshake error leaves exactly the bytes written up to the failed read:
      no later byte of the handshake is sent. */
  lemma HandshakeFailureSent(w: Wire)
    ensures var (r, w') := EnterProgrammingMode(w);
      && (r == Err(NoResponse) ==> w'.sent == w.sent + [STX] + Program)
      && (r == Err(WrongModel) ==> w'.sent == w.sent + [STX] + Program + [STX])
      && (r == Err(HandshakeRefused) ==> w'.sent == w.sent + HandshakeBytes)
      && (r.Err? ==> r.error in {NoResponse, WrongModel, HandshakeRefused})
      && (r.Err? ==> w'.sent <= w.sent + HandshakeBytes)
  {
    assert w.sent + [STX] + Program + [STX] + [ACK] == w.sent + HandshakeBytes;
  }

  /** A failed block read has written the request, and the ACK only when the header
      was good; a failed block write has written its frame. */
  lemma BlockFailureSent(w: Wire, image: seq<byte>, addr: nat)
    requires addr < 0x10000
    ensures var (r, w') := ReadBlock(w, addr);
      && (r == Err(BadBlock(addr)) ==> w'.sent == w.sent + Header(CmdRead, addr))
      && (r == Err(ReadNoAck(addr)) ==> w'.sent == w.sent + Header(CmdRead, addr) + [ACK])
      && (r.Err? ==> r.error in {BadBlock(addr), ReadNoAck(addr)})
    ensures var (r, w') := WriteBlock(w, image, addr);
      r.Err? ==> r.error == WriteNoAck && w'.sent == w.sent + WriteFrame(image, addr)
  {
  }

  /** When the download loop fails, what it has written is a prefix of the requests
      for all its blocks: no block after the failed one is requested. */
  lemma {:induction false} ReadAllFailureSent(w: Wire, addrs: seq<nat>, acc: seq<byte>)
    requires AddrsFit(addrs)
    ensures ReadAll(w, addrs, acc).0.Err? ==> ReadAll(w, addrs, acc).1.sent <= w.sent + ReadRequests(addrs)
    decreases |addrs|
  {
    if addrs != [] {
      var x := ReadBlock(Report(w, addrs[0] + BlockSize), addrs[0]);
      BlockFailureSent(Report(w, addrs[0] + BlockSize), [], addrs[0]);
      RequestsStep(w.sent, addrs);
      if x.0.Err? {
        assert x.1.sent <= w.sent + Header(CmdRead, addrs[0]) + [ACK];
      } else {
        ReadBlockOutcome(Report(w, addrs[0] + BlockSize), addrs[0]);
        ReadAllFailureSent(x.1, addrs[1..], acc + x.0.value);
      }
    }
  }

  /** When the upload loop fails, what it has written is a prefix of the frames for
      all its blocks: no block after the unacknowledged one is written. */
  lemma {:induction false} WriteAllFailureSent(w: Wire, image: seq<byte>, addrs: seq<nat>)
    requires AddrsFit(addrs)
    ensures WriteAll(w, image, addrs).0.Err? ==> WriteAll(w, image, addrs).1.sent <= w.sent + WriteFrames(image, addrs)
    decreases |addrs|
  {
    if addrs != [] {
      var x := WriteBlock(Report(w, addrs[0] + BlockSize), image, addrs[0]);
      WriteBlockOutcome(Report(w, addrs[0] + BlockSize), image, addrs[0]);
      FramesStep(w.sent, image, addrs);
      if x.0.Ok? {
        WriteAllFailureSent(x.1, image, addrs[1..]);
      }
    }
  }

  /** A failed download has written a prefix of the handshake and the block requests,
      and never the exit command 'E' after them. */
  lemma DownloadFailureSent(w: Wire)
    ensures Download(w).0.Err? ==>
      Download(w).1.sent <= w.sent + HandshakeBytes + ReadRequests(DownloadAddrs())
  {
    Assoc(w.sent, HandshakeBytes, ReadRequests(DownloadAddrs()));
    HandshakeFailureSent(w);
    var h := EnterProgrammingMode(w);
    if h.0.Ok? {
      HandshakeOutcome(w);
      DownloadAfterHandshake(w);
      ReadAllFailureSent(h.1, DownloadAddrs(), []);
    }
  }

  /** A failed upload has written a prefix of the handshake and the block frames,
      and never the exit command 'E' after them. */
  lemma UploadFailureSent(w: Wire, image: seq<byte>)
    ensures Upload(w, image).0.Err? ==>
      Upload(w, image).1.sent <= w.sent + HandshakeBytes + WriteFrames(image, UploadAddrs())
  {
    UploadAddrsFacts();
    Assoc(w.sent, HandshakeBytes, WriteFrames(image, UploadAddrs()));
    HandshakeFailureSent(w);
    var h := EnterProgrammingMode(w);
    if h.0.Ok? {
      HandshakeOutcome(w);
      WriteAllFailureSent(h.1, image, UploadAddrs());
    }
  }
}
