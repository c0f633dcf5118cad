# HST H-777 clone driver, modelled in Dafny

This project models the core of the CHIRP driver for the HST H-777 handheld
(`chirp/h777.py`) and proves properties of that model. The core has three parts.

- **The clone protocol.** This is the handshake (0x02, "PROGRAM", 0x02, 0x06)
  and the 8-byte block reads and writes with their 4-byte headers and ACKs. It
  also covers the download of the whole 0x3E0-byte image and the upload of its
  three address ranges.
- **The memory layout.** This is the table of sixteen 16-byte channel entries
  at 0x10, with little-endian packed BCD frequency and tone fields and a flag
  byte. It also covers the settings blocks at 0x2B0 and 0x3C0.
- **The channel mapping.** `get_memory` reads an entry into a host memory
  record, and `set_memory` stores a record back into its entry.

Files:

- `wrappers.dfy` holds `Option` and `Result`.
- `bcd.dfy` is the packed BCD codec.
- `layout.dfy` holds the image layout, entry offsets, byte splicing and the
  flag byte's bit fields.
- `settings.dfy` is the settings decoder.
- `channels.dfy` holds `get_memory` and `set_memory` as functions on the image,
  with their lemmas.
- `protocol.dfy` holds the exchanges and transfers as functions of the serial
  line, with their lemmas.
- `radio.dfy` holds the `H777Radio` class. Its methods do the driver's steps one
  write or read at a time, and each is proved to reach exactly the state the
  functions in `protocol.dfy` and `channels.dfy` describe. The memory image is
  an `array` that `SetMemory` changes in place.

The serial line is a `Wire` value with three parts:

- `replies`: the bytes the radio will answer with;
- `sent`: the bytes the host has written;
- `progress`: the `cur` values passed to the status callback.

`read(n)` returns the next n reply bytes, or all that remain. A timeout
therefore shows as a short read at the end of the replies. Each exception
the driver raises becomes an error value: `ProtocolError` for the clone
protocol, `ChannelError` for the digital-code tone, and `SettingError` for
a setting outside its domain (a list, or the integer ranges of vox level
and squelch). Once an error occurs, nothing more is done.

The model follows the code where one might expect other behaviour:

- An lbcd field is read without checking its digits. A nibble above 9 counts
  at its binary value, so the byte 0xA5 reads as 10 * 10 + 5 = 105, and
  `get_memory` never fails on such a field. The checked decoder `Bcd.Decode`
  states what valid BCD means; the channel mapping does not use it.
- `get_memory` builds the full record even for an empty channel. A
  digital-code tone field therefore fails an empty channel too; the record
  is not cut short.
- A stored record does not read back unchanged in every field:
  - the mode always reads back as "NFM", because the write sets `wide` from
    `mem.mode != 0`, which is always true for a mode string;
  - duplex "off" reads back as "+" (see `Channels.OffReadsAsPlus`).
- Read-side power is modelled as written: a set `lowpower` bit selects the
  first entry of the power list, "High".
- The third handshake failure raises the same message as a wrong model. It
  is modelled as a distinct error, `HandshakeRefused`, because a different
  step raises it.

One modelling choice: the write sets `lowpower` to `mem.power == 1`
(chirp/h777.py:349). That compares a host power-level object with 1, and its
truth value is decided by host library code outside this model. The store
functions and `Radio.H777Radio.SetMemory` therefore take it as a Boolean
parameter `lowpower`, and write that bit as the driver does.

## Model

| member | source | states |
|---|---|---|
| Bcd.Decode | chirp/h777.py:33-36 | a checked lbcd decode succeeds exactly when every nibble is a decimal digit, and its value is below 100^width |
| Bcd.Encode | chirp/h777.py:332 | writing an integer into an lbcd field yields exactly `width` bytes |
| Bcd.EncodeIsBcd | chirp/h777.py:332 | every byte written into an lbcd field holds two decimal digits |
| Bcd.ValueBound | chirp/h777.py:273 | a valid n-byte lbcd field holds a value below 100^n |
| Bcd.ValueOfEncode | chirp/h777.py:273 | reading back a written field gives the value modulo 100^width |
| Bcd.EncodeOfValue | chirp/h777.py:33-36 | re-encoding a valid field's value at its width gives the same bytes |
| Bcd.ValueOfSmallEncode | chirp/h777.py:273 | a value that fits the field's width is read back exactly |
| Bcd.FrequencyRoundTrip | chirp/h777.py:332 | any 4-byte frequency field value below 10^8 is read back exactly, by the raw and the checked decoder alike |
| Bcd.SentinelIsNotBcd | chirp/h777.py:279-281 | FF FF FF FF is not valid BCD, reads as 166666665 with the driver's unchecked digits, and is never produced by an encode |
| Layout.EntryOffset | chirp/h777.py:31-46 | channel n's entry lies 16-aligned inside the table that runs from 0x10 to 0x110, and so before the settings at 0x2B0 |
| Layout.EntriesDisjoint | chirp/h777.py:31-46 | entries of different channels do not overlap |
| Layout.Entry | chirp/h777.py:268 | a channel's entry is 16 bytes |
| Layout.Splice | chirp/h777.py:329 | overwriting bytes at an offset keeps the image length, puts the new bytes there, and changes nothing else |
| Layout.EntryWrites | chirp/h777.py:332-350 | the three field writes of a stored record add up to one rewrite of its 16-byte entry |
| Layout.FromBitsOfBits | chirp/h777.py:37-44 | splitting a byte into bits and reassembling it gives the byte back |
| Layout.BitsOfFromBits | chirp/h777.py:37-44 | assembling bits into a number and splitting it again gives the bits back |
| Layout.TopBit | chirp/h777.py:62-64 | the first-listed bit field of a byte is its most significant bit |
| Layout.DecodeOfEncodeFlags | chirp/h777.py:37-44 | packing the eight flag fields and unpacking them gives them back |
| Layout.EncodeOfDecodeFlags | chirp/h777.py:37-44 | unpacking a flag byte and packing it again gives the byte back |
| Layout.FlagWrites | chirp/h777.py:348-350 | assigning `wide`, then `lowpower`, then `scanadd` in three writes equals assigning all three at once, other bits kept |
| Settings.GetSettings | chirp/h777.py:353-431 | decoded settings have every list index inside its list and vox and squelch levels inside 0..4 and 0..9 |
| Settings.SettingsValidity | chirp/h777.py:365-428 | the settings decode exactly when the voice, vox level, squelch, side key and timeout bytes are in range |
| Settings.SettingsFrame | chirp/h777.py:47-68 | only the 14 settings bytes at 0x2B0 and 0x3C0 are read |
| Settings.BeepIsTopBit | chirp/h777.py:62-64 | the beep setting is the top bit of the byte at 0x3C0 |
| Channels.DecodeTone | chirp/h777.py:301-318 | the tone is none exactly for a raw FF FF receive tone, and fails exactly when bit 0x80 of its second byte is set |
| Channels.ReadEntry | chirp/h777.py:267-322 | a read record carries the requested number and a non-negative offset |
| Channels.GetMemory | chirp/h777.py:267-322 | a read record carries the requested number and a non-negative offset |
| Channels.GetMemoryReadsEntry | chirp/h777.py:268 | a channel is read from its own 16-byte entry only |
| Channels.EmptyChannel | chirp/h777.py:275-281 | a channel is empty exactly when its raw receive field is FF FF FF FF or decodes to 0, and the sentinel gives frequency 0 |
| Channels.DuplexDerivation | chirp/h777.py:273-290 | freq is rx*10; duplex is "" iff rx == tx and "-" iff rx > tx; the offset is 0 iff there is no duplex; the transmit frequency derived from the record is tx*10 |
| Channels.FlagMapping | chirp/h777.py:292-297 | skip iff scanadd is clear, "NFM" iff wide is set, the Low power level iff lowpower is clear |
| Channels.DcsRefused | chirp/h777.py:301-306 | reading fails with the DCS error exactly when the receive tone is not FF FF and bit 0x80 of its second byte is set |
| Channels.ToneRoundTrip | chirp/h777.py:304-318 | tones below 800.0 Hz written as lbcd are decoded back to the same tones |
| Channels.ToneFieldHigh | chirp/h777.py:304 | a 2-byte field holding less than 8000 never has the digital-code bit set |
| Channels.ToneEncodeExample | chirp/h777.py:35-36 | 88.5 Hz (885 tenths) is stored as 0x85 0x08 |
| Channels.ToneDecodeExample | chirp/h777.py:316-318 | the bytes 0x85 0x08 decode to 885 tenths of a hertz |
| Channels.TxField | chirp/h777.py:334-344 | the transmit frequency field is four bytes |
| Channels.StoreEntry | chirp/h777.py:324-350 | a stored entry is 16 bytes |
| Channels.StoreEntryFields | chirp/h777.py:332-350 | a stored non-empty entry holds the receive frequency, the transmit field chosen by duplex, the old tone fields, the old flag byte with wide set, lowpower as given and scanadd = not skip, and the old three unknown bytes |
| Channels.SetMemory | chirp/h777.py:324-350 | storing a record changes only its own entry, and that entry becomes the stored entry |
| Channels.SetMemoryBySteps | chirp/h777.py:332-350 | the driver's three in-place writes (receive frequency, transmit field, flags) produce exactly the stored image |
| Channels.SetEmptyThenGet | chirp/h777.py:328-330 | storing an empty record fills its entry with 0xFF, and it reads back as an empty channel at 0 Hz without tone |
| Channels.BlankEntry | chirp/h777.py:276-302 | an all-0xFF entry reads as an empty channel at 0 Hz without tone |
| Channels.SetThenGet | chirp/h777.py:324-350 | after a store, the channel fails to read exactly when its old tone fails; otherwise it reads back the same frequency, transmit frequency and skip, "NFM", the old tone, and power "High" exactly when lowpower was written set |
| Channels.SetThenGetSimplex | chirp/h777.py:285-287 | a simplex record reads back as simplex with the same frequency and offset 0, whatever offset it carried |
| Channels.SetThenGetDuplex | chirp/h777.py:337-342 | "+" and "-" duplex with a positive offset that is a multiple of 10 read back with the same frequency, duplex and offset |
| Channels.SameTxSameDuplex | chirp/h777.py:285-290 | two records with the same receive and transmit frequencies and a derived-style duplex agree on duplex and offset |
| Channels.OffReadsAsPlus | chirp/h777.py:334-336 | a record with duplex "off" reads back as "+" with offset 1666666650 - freq |
| Channels.SetMemoryOtherChannels | chirp/h777.py:326 | storing one channel leaves every other channel reading as before |
| Channels.SetMemoryKeepsSettings | chirp/h777.py:326 | storing a channel leaves the settings decoding as before |
| Protocol.Header | chirp/h777.py:123-124 | a frame header is the command, the address big-endian in two bytes, and the block size 8 |
| Protocol.RangeAddrs | chirp/h777.py:169 | range(start, end, 8) holds start + 8i, has ceil((end - start) / 8) elements, and is empty when start >= end |
| Protocol.RangeAddrsCons | chirp/h777.py:169 | range(start, end, 8) is start followed by range(start + 8, end, 8) |
| Protocol.RangeAddrsMembers | chirp/h777.py:195 | an address is in range(start, end, 8) exactly when it lies in [start, end) at a multiple of 8 from start |
| Protocol.DownloadAddrsFacts | chirp/h777.py:169 | the download reads the 124 addresses 0, 8, ..., 0x3D8 in order |
| Protocol.UploadAddrsFacts | chirp/h777.py:226-230 | the upload writes 48 blocks in strictly increasing order, exactly the multiples of 8 in [0,0x110), [0x2B0,0x2C0) and [0x380,0x3E0) |
| Protocol.EntryUploaded | chirp/h777.py:226-230 | every byte of every channel entry lies in a block that the upload writes |
| Protocol.ProgressBounded | chirp/h777.py:170 | every reported `cur` = addr + 8 is at most the image size 0x3E0 |
| Protocol.Progress | chirp/h777.py:170-171 | the i-th progress value is the i-th address plus 8 |
| Protocol.HandshakeOutcome | chirp/h777.py:95-114 | the handshake succeeds exactly on ACK, "P3107...", ACK. It then has written 0x02 "PROGRAM" 0x02 0x06 and consumed ten bytes. A missing first ACK and a wrong identity each give their own error |
| Protocol.ReadBlockOutcome | chirp/h777.py:120-139 | a block read succeeds exactly on the header 'W', address, 8, plus the final ACK. It then returns the 8 data bytes, having written 'R', address, 8 and an ACK. A bad header is a block error |
| Protocol.WriteBlockOutcome | chirp/h777.py:141-155 | a block write sends 'W', address, 8 and the image's 8 bytes at the address, and succeeds exactly when the one reply byte is ACK |
| Protocol.ReadAllSucceeds | chirp/h777.py:169-174 | the download loop succeeds exactly when every block gets a good reply |
| Protocol.ReadAllResult | chirp/h777.py:169-174 | on good replies the loop returns the data bytes in order, consumes 13 bytes per block, writes one request and one ACK per block, and reports each block's end |
| Protocol.ReadAllStep | chirp/h777.py:169-174 | a good block reply moves the download loop on with that block's data |
| Protocol.ReadAllCons | chirp/h777.py:169-174 | the download loop over a first address and the rest reads that block, then the rest |
| Protocol.PayloadAt | chirp/h777.py:174 | byte k of the concatenated blocks is data byte k mod 8 of reply k div 8 |
| Protocol.DownloadedBytes | chirp/h777.py:169-183 | each of the 0x3E0 downloaded bytes comes from a fixed position of the reply stream |
| Protocol.DownloadSucceeds | chirp/h777.py:157-183 | a download succeeds exactly when the handshake and all 124 block replies are good |
| Protocol.DownloadResult | chirp/h777.py:157-183 | a successful download returns the data of the 124 replies in order, having written the handshake, the requests in address order and 'E' |
| Protocol.DownloadAfterHandshake | chirp/h777.py:159-181 | after an accepted handshake, the download is the read loop followed by 'E' on success |
| Protocol.DownloadLength | chirp/h777.py:169-183 | a successful download returns exactly 0x3E0 bytes |
| Protocol.WriteAllCons | chirp/h777.py:195-198 | the upload loop over a first address and the rest writes that block, then the rest |
| Protocol.WriteAllAppend | chirp/h777.py:194-198 | writing two address lists in a row is writing the first, then, if all were acknowledged, the second |
| Protocol.RangesFit | chirp/h777.py:194-195 | every block address of ranges that end within the image fits the two-byte address field |
| Protocol.WriteAllSucceeds | chirp/h777.py:195-198 | the upload loop succeeds exactly when every block write is acknowledged |
| Protocol.WriteAllResult | chirp/h777.py:195-198 | with all writes acknowledged, the loop writes the frames of exactly its addresses in order, consumes one reply byte per block, and reports each block's end |
| Protocol.WriteAllStep | chirp/h777.py:195-198 | an acknowledged write moves the upload loop on to the next block |
| Protocol.UploadSucceeds | chirp/h777.py:185-200 | an upload succeeds exactly when the handshake is accepted and all 48 block writes are acknowledged |
| Protocol.UploadResult | chirp/h777.py:185-200 | a successful upload writes the handshake, the frames of exactly the 48 upload blocks in address order, and 'E' |
| Protocol.HandshakeFailureSent | chirp/h777.py:98-114 | each handshake error leaves exactly the bytes written before its failed read: 0x02 "PROGRAM" for no response, that and 0x02 for a wrong model, the whole handshake for a refused one; nothing later is sent |
| Protocol.BlockFailureSent | chirp/h777.py:128-155 | a bad block header leaves only the read request written, a missing ACK the request and the ACK; a failed block write has written just its frame |
| Protocol.ReadAllFailureSent | chirp/h777.py:169-174 | when the download loop fails, what it wrote is a prefix of the requests for all its blocks: no later block is requested |
| Protocol.WriteAllFailureSent | chirp/h777.py:194-198 | when the upload loop fails, what it wrote is a prefix of the frames for all its blocks: no later block is written |
| Protocol.DownloadFailureSent | chirp/h777.py:157-183 | a failed download has written a prefix of the handshake and block requests, and no 'E' after them |
| Protocol.UploadFailureSent | chirp/h777.py:185-200 | a failed upload has written a prefix of the handshake and block frames, and no 'E' after them |
| Radio.H777Radio.ReportProgress | chirp/h777.py:170-171 | the status callback receives the current position; nothing else changes |
| Radio.H777Radio.EnterProgrammingMode | chirp/h777.py:95-114 | the step-by-step handshake leaves exactly the result and serial state of the handshake function |
| Radio.H777Radio.ExitProgrammingMode | chirp/h777.py:116-118 | 'E' is written and nothing is read |
| Radio.H777Radio.ReadBlock | chirp/h777.py:120-139 | the step-by-step block read leaves exactly the result and serial state of the block-read function |
| Radio.H777Radio.WriteBlock | chirp/h777.py:141-155 | the block write sends the radio's own image bytes, leaves exactly the state of the block-write function, and cannot change the image |
| Radio.H777Radio.DoDownload | chirp/h777.py:157-183 | the download loop returns exactly the download function's result and serial state |
| Radio.H777Radio.DoUpload | chirp/h777.py:185-200 | the nested upload loops leave exactly the upload function's result and serial state, and cannot change the image |
| Radio.H777Radio.WriteRange | chirp/h777.py:195-198 | the inner upload loop over one range leaves exactly the state of the upload loop function over that range |
| Radio.H777Radio.SyncIn | chirp/h777.py:257-259 | on a successful download the image is replaced by a fresh 0x3E0-byte image holding the downloaded bytes; on failure the image is kept and the error returned |
| Radio.H777Radio.Store | chirp/h777.py:335-336 | byte-by-byte writes into the image equal one splice of those bytes |
| Radio.H777Radio.WriteFlags | chirp/h777.py:348-350 | three successive flag assignments leave the flag byte with `wide` set and `lowpower` and `scanadd` as given, other bits kept |
| Radio.H777Radio.StoreFrequencies | chirp/h777.py:332-344 | the receive frequency and then the duplex-dependent transmit field are written into the entry |
| Radio.H777Radio.SetMemory | chirp/h777.py:324-350 | the in-place store leaves the image equal to the channel store function applied to the old image |

## Left out

- Serial timing is not modelled: the 0.1 s sleep, the baud rate and real timeouts. A timeout appears only as a short read at the end of the scripted replies. A radio that pauses in the middle of a reply is not modelled.
- The debug printing is not modelled: `DEBUG`, `debug_print_hex` and the "download" print.
- The status callback is modelled as the list of `cur` values only. Its `msg` and `max` fields are left out.
- `maybe_register` and `get_features` are left out; they are host registration and a capability descriptor.
- `get_raw_memory` is left out; it returns a textual dump of the bit-field library's object.
- The `RadioSetting` objects of `get_settings` are left out; the model decodes the raw setting bytes. Their domain checks, which live in code this model does not contain, are modelled as `SettingError` results.
- `sync_out` is only a call of `do_upload`, which `Radio.H777Radio.DoUpload` models.
- Tones are integers in tenths of a hertz, not the floating-point hertz of the host record.
- The digital-code branch after the `raise` is unreachable, so it is not modelled.
- `memmap.MemoryMap` and `bitwise.parse` are not part of this model. The model uses explicit offsets, and the field order of a bit field is taken to be most significant bit first.
- The comparison `mem.power == 1` is not evaluated; its outcome is the `lowpower` parameter of the store, because it depends on host library code this model does not contain.
- Channels.SetThenGet: covers receive and transmit frequencies below 10^9 Hz and divisible by 10. Larger values do not fit the 8-digit field and are stored modulo 10^8 (`Bcd.ValueOfEncode`). The bit-field library's own behaviour for them is not part of this model.
- Channels.SetThenGetDuplex: covers "+" and "-" duplex; `Channels.SetThenGetSimplex` covers simplex. "Split" does not survive a store and a read, because the read derives duplex from the frequencies. "Off" becomes "+" (`Channels.OffReadsAsPlus`).
- Bcd.Encode: negative or too-large values are reduced modulo 100^width, following Python's floor `%`. How the bit-field library treats them is not part of this model.
- Channel numbers outside 1..16 are a precondition. In the source, `memory[number - 1]` is a Python list index: numbers 17 and above index past the table and raise, while numbers from -15 to 0 count from the end, so 0 reads and writes channel 16's entry, -1 channel 15's, and so on.
