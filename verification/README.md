# Verification of woterm's protocol code

Dafny models of the protocol code in this repository, with proofs. The repository bundles a
ZMODEM sender and receiver (`lszrz/`) and an OpenSSH 7.9 tree (`openssh/openssh/`). The modules
follow the components:

| file | component |
|---|---|
| `Crc.dfy` | both CRC tables and macros of `crctab.c` |
| `ZEscape.dfy`, `ZReader.dfy`, `ZReceiver.dfy`, `ZRoundTrip.dfy`, `ZDecode.dfy`, `ZPosition.dfy` | the ZMODEM link layer of `zm.c`: encoder, decoder as a function of the line, decoder as the loops of the source, round trips, any line, positions in headers |
| `ZSavedBlocks.dfy`, `ZReceiveFile.dfy`, `ZRetries.dfy`, `ZRzfile.dfy` | the receiver of `lrz.c`: out-of-sync block list, `rzfile` as a state machine, what replies do to it, `rzfile` over heap objects |
| `ZSendFile.dfy`, `ZAnswers.dfy` | the sender of `lsz.c` as a state machine, and what headers do to it |
| `ZTransfer.dfy`, `ZOrder.dfy`, `ZRecover.dfy`, `ZStream.dfy`, `ZWitness.dfy` | sender, line and receiver together; lines that keep order; getting over losses; runs that show the limits |
| `ChannelWindow.dfy`, `Socks.dfy` | channel flow control (section 5.2 of RFC 4254) and the incremental SOCKS decoders (RFC 1928) of `channels.c` |
| `Bitmap.dfy` | `bitmap.c` as a set of naturals |
| `Auth2.dfy` | multi-step authentication in `auth2.c` and `auth2-pubkey.c` (section 5.1 of RFC 4252) |
| `AuthOptions.dfy` | the wire form of `struct sshauthopt` (encodings of section 5 of RFC 4251) |
| `ChaCha.dfy`, `ChaChaVector.dfy`, `ChachaPoly.dfy`, `Cbc.dfy`, `Ctr.dfy` | the cipher modes (CBC and CTR as in sections 6.2 and 6.5 of NIST SP 800-38A) |
| `AtomicIo.dfy`, `GlobalConfirm.dfy` | `atomicio.c` and the confirmation queue of `clientloop.c` |
| `Basics.dfy`, `Numbers.dfy`, `Buffers.dfy` | bytes and optional values, big-endian numbers, byte buffers |

The usual shape is a function or state machine that says what happens, lemmas that say what this
means for every input or run, and classes or array methods in the form of the source that are
proved to do the same. System calls, memory allocation, signature checks and everything that
arrives from outside are parameters.

## What the proofs found

Some properties one would expect hold only under a condition. Each is stated as an equivalence or
comes with a concrete input.

- `turbo_escape` sends 0x10 and 0x90 bare even under `Zctlesc`. A receiver that drops bare control
  bytes therefore needs a sender with `Zctlesc` and without `turbo_escape`
  (`RoundTripExactlyWhenCompatible`, `BareControlByteLost`).
- `rzfile` ignores the result of `putsec`, so a short write goes unnoticed and the transfer still
  reports success (`TransferSafety`, `ShortWriteGoesUnnoticed`).
- Headers hold positions in four bytes. The prefix property does not depend on that, but a file of
  2^32 bytes or more can be reported as received when it is not (`SuccessIsWholeExactly`,
  `OversizeRun`).
- A saved empty block makes the restart loop at `nxthdr` run for ever. This sender sends such a block
  only for the end of the file, so it takes a line that changes the order of frames
  (`EndsExactlyWithoutEmpty`, `ReorderedRunHangs`); on a line that keeps order it cannot happen
  (`OrderedNeverHangs`).
- The sender reads the line only where it has to wait, and no longer seeks once it has seen the end of
  the file. A block lost in mid-file is therefore sent again only if the sender still has to wait before
  the end (`MadeGoodExactly`). `Txwindow` is never set to anything but zero, and then it never has to, so
  a loss is final (`NoWindowNeverListens`, `LossIsFinal`).
- The ten characters before "a" pass for the hex digits 0 to 9 (`HexValueIs`), and the byte after an odd
  number of CANs is swallowed by the header hunt (`FewCans`).
- A channel window of zero or one byte, or a packet size of zero, leaves the sender unable to send for
  good; with a window of one byte the adjust is never due (`NeverStuckExactly`).
- `bitmap_set_bit` accepts bit 2^24, but `bitmap_from_string` refuses the string that bit needs
  (`ThereAndBack`, `TopBitRefused`).
- The branch of `auth2_update_methods_lists` marked as impossible is reached when some remaining list
  names a device for a method that reports none and no list names the bare method (`FatalExactly`);
  with the single list "password:x" an accepted password ends the process (`DeviceListDies`).
- Flags outside a byte and tunnel numbers below -1 do not survive the wire (`RoundTripExactly`).
- `atomiciov6` returns at once when the first vector is empty, whatever follows (`FlatExactly`).

## Model

| member | source | states |
|---|---|---|
| `ZTransfer.TransferSafety` | lszrz/lrz.c:1198-1414 | in every state of every run of sender, lossy line and receiver, for files of any size: the output is the image of the first `bytes_received` bytes of the source if and only if no write fell short, the sender reads its file at `bytes_sent`, and no position the receiver sends is beyond what it has received |
| `ZTransfer.DeliveredFileIsWhole` | lszrz/lrz.c:1261-1283 | for files below 2^32 bytes, `rzfile` returns success only with the whole source received, and the output is the whole image exactly when no write fell short |
| `ZTransfer.DeliveredSize` | lszrz/lrz.c:1261-1283 | for files of any size, success means that the bytes received are the size modulo 2^32 |
| `ZWitness.SuccessIsWholeExactly` | lszrz/lsz.c:1313-1316 | success means the whole file in every run for a size if and only if the size is below 2^32 |
| `ZWitness.OversizeRun` | lszrz/lsz.c:1313-1316 | for every file of at least 2^32 bytes, a run that reports success with less than the file received |
| `ZOrder.OrderedNeverHangs` | lszrz/lrz.c:1219-1244 | on a line that keeps the order of frames, with ZACKs from the receiver, no run of any file reaches the endless restart loop |
| `ZOrder.OrderedRunInv` | lszrz/lsz.c:1459-1510 | the reason, along every such run: a frame ahead of the receiver is one for the end of the file with an empty block, nothing else follows it, and saved blocks are of this kind only |
| `ZOrder.OrderedIsRun` | lszrz/lrz.c:1198-1414 | runs over such a line are among the runs of the safety theorem |
| `ZWitness.ReorderedRunHangs` | lszrz/lrz.c:1219-1244 | for every non-empty file below 2^32 bytes: a run of this sender and receiver that ends in the endless restart loop, over a line that delivers the last frame before the data |
| `ZWitness.ShortWriteGoesUnnoticed` | lszrz/lrz.c:1385-1411 | for every non-empty file below 2^32 bytes: a run in which nothing is written and that still ends with success, because the result of `putsec` is not looked at |
| `ZRetries.EndsExactly` | lszrz/lrz.c:1247-1411 | from the replies alone: `rzfile` gives up if and only if, before anything else ended the transfer, a reply was fatal (cancel, stray or unexpected header, failed close) or failed after twenty failures since the last accepted block; and in the same form exactly when it succeeds, is skipped or hangs |
| `ZRetries.RepliesDecide` | lszrz/lrz.c:1198-1414 | until then position, saved blocks, tries left and all headers sent are those the replies call for |
| `ZRetries.FailureIsAnswered` | lszrz/lrz.c:1247-1380 | every failure that is borne is followed, at once or after one dropped read, by a ZRPOS for exactly what has been received |
| `ZRecover.RposObeyed` | lszrz/lsz.c:1473-1493 | in every run: after a ZRPOS read before the end of the file was seen, the next thing on the line is the ZDATA header for that position, and the subpackets behind it are the file from there on, in order |
| `ZRecover.Recovers` | lszrz/lsz.c:1459-1510 | from every state in which the sender waits in mid-file and the receiver can still ask, a path over an ordered line to the whole file delivered |
| `ZRecover.LossIsMadeGood` | lszrz/lsz.c:1155-1333 | every run over an ordered line whose sender waits, or will have to wait, in mid-file can be continued to the whole file delivered |
| `ZRecover.WindowLostAndDelivered` | lszrz/lsz.c:1292-1308 | for every file larger than the window: a run that loses a whole window and still delivers the file |
| `ZStream.MadeGoodExactly` | lszrz/lsz.c:1155-1333 | a loss in mid-file is made good by some continuation if and only if the sender waits or will have to wait before it sees the end of the file |
| `ZStream.LossIsFinal` | lszrz/lsz.c:1473-1493 | otherwise the receiver never gets any further and no continuation succeeds |
| `ZStream.NoWindowNeverListens` | lszrz/lsz.c:1202-1310 | with a window of zero the sender never waits in mid-file, in no state of any run |
| `ZStream.EveryFileArrives` | lszrz/lsz.c:1202-1333 | for every file below 2^32 bytes and every block length: a run without losses that delivers it, without a window or with one that has room for a block beside the spacing of acknowledgements |
| `ZAnswers.SenderStopsExactly` | lszrz/lsz.c:1087-1150 | for every sequence of headers the sender has stopped if and only if it read one it stops at |
| `ZAnswers.StopsExactly` | lszrz/lsz.c:1459-1510 | these are, by the wait it is in: a timeout, ZCAN, ZABORT, ZFIN, ZSKIP, ZRQINIT or ZRINIT, and a position it cannot seek to |
| `ZAnswers.FirstAnswer` | lszrz/lsz.c:1075-1150 | before the data, what every other header leads to: a start, a CRC, nothing, or the name again |
| `ZAnswers.LaterAnswer` | lszrz/lsz.c:1459-1510 | in mid-file and after it, what every other header leads to: a new position, going on, a note, or a ZNAK |
| `ZAnswers.StopAnswer` | lszrz/lsz.c:1300-1305 | a sender that stops inside a frame ends the frame and sends nothing else |
| `ZAnswers.Announced` | lszrz/lsz.c:1199-1200 | frames and the end of the file are announced by their position in 32 bits |
| `ZAnswers.SyncIsSteps` | lszrz/lsz.c:1459-1510 | the loop of `getinsync` goes through the states of the sender header by header |
| `ZAnswers.SyncDecides` | lszrz/lsz.c:1459-1510 | and returns at the first header that decides |
| `ZPosition.PositionRoundTrip` | lszrz/zm.c:912-931 | `rclhdr` after `stohdr` gives the position modulo 2^32, and every four bytes are the header of a position |
| `ZTransfer.RunInv` | lszrz/lsz.c:1155-1333 | the joint invariant (truthful line, sender in step with its file, receiver holding a prefix and true saved blocks, reading aligned with the line) holds along every run |
| `ZTransfer.NextKeeps` | lszrz/lsz.c:1155-1333 | every single step of either side keeps that invariant |
| `ZReceiveFile.RxStepKeeps` | lszrz/lrz.c:1247-1411 | one read of genuine data, in any phase of `rzfile`, keeps the receiver's half: prefix held, saved blocks true, every position sent within four bytes and what was received, success only at the size modulo 2^32 |
| `ZReceiveFile.NextHdrKeeps` | lszrz/lrz.c:1219-1244 | so does the restart loop at `nxthdr` |
| `ZReceiveFile.PutsecKeeps` | lszrz/lrz.c:879-902 | `putsec` block by block produces the image of the whole prefix, in binary mode and, with one `putc` per byte, in text mode with CPMEOF cut-off |
| `ZReceiveFile.TextSnoc` | lszrz/lrz.c:879-902 | text mode keeps, in order, everything but carriage returns up to the first 0x1a |
| `ZReceiveFile.PutsecWrites` | lszrz/lrz.c:879-902 | binary mode writes a block at once, text mode byte by byte |
| `ZSendFile.TxStepKeeps` | lszrz/lsz.c:1155-1333 | every step of the sender, whatever it reads, keeps the file position at `bytes_sent` and puts on the line only subpackets that are the file's bytes at the position their header shows, and ZEOF only with the file size modulo 2^32 |
| `ZSendFile.StreamStepKeeps` | lszrz/lsz.c:1202-1310 | the block loop keeps that: each block continues the position of the open ZDATA frame |
| `ZSendFile.GetinsyncKeeps` | lszrz/lsz.c:1459-1510 | `getinsync` keeps it too, although it seeks only while the end has not been seen |
| `ZSendFile.FileSender.DoZfilbuf` | lszrz/lsz.c:802-820 | `fread` plus the one-byte look-ahead give the next block, the end flag and the new position of the specification |
| `ZSendFile.FileSender.DoGetinsync` | lszrz/lsz.c:1459-1510 | the header loop over any replies equals the fold over them that `SyncIsSteps`, `SyncDecides` and `LaterAnswer` describe |
| `ZSendFile.FileSender.DoBlock` | lszrz/lsz.c:1202-1310 | the body of the send loop does what one streaming step of the specification does |
| `ZRzfile.FileReceiver.Rzfile` | lszrz/lrz.c:1198-1414 | the imperative receiver, with its heap-allocated block list, ends in exactly the state of the specification for every sequence of replies on which the restart loop ends; `EndsExactly` says from the replies alone how that is |
| `ZRzfile.FileReceiver.DoHeader` | lszrz/lrz.c:1247-1290 | the header switch moves fields and list as one step of the specification |
| `ZRzfile.FileReceiver.DoMoreData` | lszrz/lrz.c:1325-1411 | so does the data switch at `moredata`, whose retries and answers `EndsExactly` and `RepliesDecide` fix |
| `ZRzfile.FileReceiver.DoSaveData` | lszrz/lrz.c:1290-1324 | so does the saving of an out-of-sync block |
| `ZRzfile.FileReceiver.NxtHdr` | lszrz/lrz.c:1219-1244 | the restart loop over the linked list terminates when it meets no empty block and equals the specification |
| `ZRzfile.FileReceiver.DoPutsec` | lszrz/lrz.c:879-902 | the two write loops append what the specification appends, with partial writes decided by the disk |
| `ZRzfile.FileReceiver.DoStep` | lszrz/lrz.c:1247-1411 | one read moves fields and list as one step of the specification, in every phase |
| `ZRzfile.FileReceiver.ScanAndUse` | lszrz/lrz.c:1219-1244 | one scan and use of a block keeps where the loop will end and has fewer blocks pending |
| `ZSavedBlocks.EndsExactlyWithoutEmpty` | lszrz/lrz.c:1219-1244 | the restart loop ends if and only if it arrives at no position whose first saved block is empty |
| `ZSavedBlocks.LoopResult` | lszrz/lrz.c:1219-1244 | when it ends, within one scan per pending block: the position is the end of the chain of first blocks, exactly the blocks not strictly beyond it were unlinked, the others keep their order |
| `ZSavedBlocks.NonEmptyBlocksEnd` | lszrz/lrz.c:1219-1244 | non-empty blocks always let it end |
| `ZSavedBlocks.EmptyBlockHangs` | lszrz/lrz.c:1219-1244 | one empty block at the current position keeps it running for every number of scans |
| `ZSavedBlocks.UsedContinuesPrefix` | lszrz/lrz.c:1219-1244 | with blocks of one file, the bytes it appends are the file's bytes from the old to the new position |
| `ZSavedBlocks.Saved.Save` | lszrz/lrz.c:1290-1324 | saving puts a new head on the linked list, which stays well formed |
| `ZSavedBlocks.Saved.Unlink` | lszrz/lrz.c:1219-1244 | unlinking removes exactly one node and keeps the list well formed |
| `ZSavedBlocks.Saved.ScanOnce` | lszrz/lrz.c:1219-1244 | one scan of the linked list leaves the nodes and finds the block the sequence specification says |
| `ZRoundTrip.FrameRoundTrip` | lszrz/zm.c:330-854 | for every header form, flags, `lastsent`, type, header, list of subpackets and leading garbage within the budget: `zgethdr` and `zrdata` give back type, header, payloads and frame ends, both sides use the same CRC width, and the bytes behind the frame are left |
| `ZRoundTrip.RoundTripExactlyWhenCompatible` | lszrz/zm.c:185-254 | every packet survives if and only if the receiver's `Zctlesc` implies that the sender has `Zctlesc` and not `turbo_escape` |
| `ZRoundTrip.BareControlByteLost` | lszrz/zm.c:866-908 | the concrete packet that is lost otherwise |
| `ZRoundTrip.PacketRoundTrip` | lszrz/zm.c:432-609 | `zrdata`/`zrdat32` over what `zsdata`/`zsda32` emitted returns the payload and frame end and consumes exactly the packet |
| `ZRoundTrip.PacketTooLong` | lszrz/zm.c:496-609 | a payload one byte longer than the buffer is never delivered |
| `ZRoundTrip.BinHdrRoundTrip` | lszrz/zm.c:742-812 | binary headers of either width are read back |
| `ZRoundTrip.HexHdrRoundTrip` | lszrz/zm.c:816-854 | hex headers are read back, with the type modulo 128 |
| `ZRoundTrip.PacketsRoundTrip` | lszrz/zm.c:496-609 | a run of subpackets is read back packet by packet, skipping the XON after ZCRCW |
| `ZRoundTrip.GarbageSkipped` | lszrz/zm.c:621-739 | the header hunt passes over garbage within its budget without changing the result |
| `ZRoundTrip.GarbageExhausts` | lszrz/zm.c:621-739 | and fails exactly when the garbage uses the budget up |
| `ZRoundTrip.EncDecodes` | lszrz/zm.c:185-326 | the escape decoder undoes the escape encoder byte for byte, from any `lastsent` |
| `ZRoundTrip.FcsPasses` | lszrz/zm.c:496-609 | the receiver's check accepts every message followed by the check sequence the sender emits, in both widths |
| `ZDecode.DeliveredExactly` | lszrz/zm.c:496-609 | whatever sent it: a subpacket with all its check bytes is delivered if and only if they are those of its data and frame end |
| `ZDecode.PayloadBroken` | lszrz/zm.c:496-609 | a cancel, a timeout, a bad escape or too much data in a subpacket gives exactly that result |
| `ZDecode.CheckBroken` | lszrz/zm.c:509-541 | the same among the check bytes, where another frame end starts the check over |
| `ZDecode.BinHdrAcceptedExactly` | lszrz/zm.c:742-812 | a binary header is accepted if and only if its check bytes are those of its type and position |
| `ZDecode.BinHdrBroken` | lszrz/zm.c:742-812 | and how one is refused that is broken off |
| `ZDecode.HexHdrAcceptedExactly` | lszrz/zm.c:816-854 | a hex header is accepted if and only if its check bytes are those of its type and position |
| `ZDecode.HexByteRead` | lszrz/zm.c:149-179 | two digits make a byte and anything else is refused where it stands |
| `ZDecode.HexValueIs` | lszrz/zm.c:149-169 | which characters are digits: the ten before "a" pass for 0 to 9 as well |
| `ZDecode.LineEndSkipped` | lszrz/zm.c:843-850 | what is skipped behind a hex header |
| `ZDecode.SymbolRead` | lszrz/zm.c:185-254 | every symbol of the protocol is read from noise, ZDLE, up to three CANs and its code |
| `ZDecode.EscapeRead` | lszrz/zm.c:218-254 | the meaning of every byte after ZDLE, by value |
| `ZDecode.NoiseSkipped` | lszrz/zm.c:185-217 | flow control and dropped control bytes change nothing |
| `ZDecode.FiveCans` | lszrz/zm.c:218-230 | five CANs cancel, whatever follows |
| `ZDecode.OneByteNox` | lszrz/zm.c:127-147 | parity goes, and which bytes `noxrd7` drops |
| `ZDecode.HuntCancelled` | lszrz/zm.c:630-661 | so do five CANs during the header hunt |
| `ZDecode.FewCans` | lszrz/zm.c:630-661 | fewer are passed over, with the byte after an odd number, and a ZCRCW there is an error at once |
| `ZDecode.PadDecides` | lszrz/zm.c:673-713 | what may follow a ZPAD |
| `ZDecode.AfterGarbage` | lszrz/zm.c:662-672 | the garbage budget, which wraps at zero |
| `ZRoundTrip.SendFrame` | lszrz/zm.c:330-487 | the sender's calls emit exactly the bytes the frame theorem is about |
| `ZEscape.Transmitter.ZsendlineInit` | lszrz/zm.c:866-908 | fills all 256 classes under the flags; `LineClean` and `SentAsIsExactly` say what that means for the line |
| `ZEscape.LineClean` | lszrz/zm.c:866-908 | for every message, flags and last byte, the emitted bytes hold no flow control; without `turbo_escape` no 0x10 or 0x90 and no carriage return after an "@"; under `Zctlesc` no control byte but ZDLE, and 0x10 and 0x90 if turbo |
| `ZEscape.SentAsIsExactly` | lszrz/zm.c:866-908 | a message goes out unchanged if and only if it is free of ZDLE and breaks none of these rules itself |
| `ZEscape.EscapedExactly` | lszrz/zm.c:257-286 | the same for one byte after another |
| `ZEscape.FramesClean` | lszrz/zm.c:330-487 | whole binary headers and subpackets keep these rules, up to the XON after ZCRCW |
| `ZEscape.AroundFrames` | lszrz/zm.c:330-487 | zero bytes before ZDATA headers only, and where the XONs go |
| `ZEscape.HexIsPrintable` | lszrz/zm.c:857-866 | hex headers are made of lower-case digits |
| `ZEscape.Transmitter.Zsendline` | lszrz/zm.c:261-283 | appends the one- or two-byte escape of a byte and updates `lastsent` |
| `ZEscape.Transmitter.ZsendlineEach` | lszrz/zm.c:261-283 | the reference encoder: one call per byte |
| `ZEscape.Transmitter.ZsendlineS` | lszrz/zm.c:285-326 | the fast encoder emits the same bytes and leaves the same `lastsent` as one call per byte |
| `ZEscape.EncPlainRun` | lszrz/zm.c:285-326 | a run of plain bytes needs no escape, which is what the fast path relies on |
| `ZEscape.Transmitter.ZsendlineShortcut` | lszrz/zm.c:475-482 | the CRC shortcut of `zsda32` agrees with `zsendline` |
| `ZEscape.Transmitter.Zsbhdr` | lszrz/zm.c:330-361 | emits the binary header of the chosen width, preceded by nulls for ZDATA |
| `ZEscape.Transmitter.Zsbh32` | lszrz/zm.c:365-384 | emits the 32-bit header |
| `ZEscape.Transmitter.Zshhdr` | lszrz/zm.c:387-425 | emits the hex header and its tail |
| `ZEscape.Transmitter.Zsdata` | lszrz/zm.c:432-454 | emits payload, frame end and two CRC bytes |
| `ZEscape.Transmitter.Zsda32` | lszrz/zm.c:456-487 | emits payload, frame end and four CRC bytes |
| `ZEscape.Transmitter.ZSDATA` | lszrz/lsz.c:92-93 | picks the width of the last header sent |
| `ZEscape.EncConcat` | lszrz/zm.c:285-326 | escaping a concatenation is escaping the parts with `lastsent` carried over |
| `ZReceiver.SymbolConsumes` | lszrz/zm.c:185-254 | every symbol but a timeout takes something off the line, and a timeout means that the line has run dry |
| `ZReceiver.Receiver.Zdlread` | lszrz/zm.c:185-254 | the goto-driven decoder reads what the specification reads and leaves the same rest |
| `ZReceiver.Receiver.Zrdata` | lszrz/zm.c:496-609 | so does the subpacket reader, in both widths |
| `ZReceiver.Receiver.Crcfoo` | lszrz/zm.c:510-549 | so does its frame-end branch, including non-data symbols among the CRC bytes |
| `ZReceiver.Receiver.Noxrd7` | lszrz/zm.c:127-147 | so does the hex byte reader |
| `ZReceiver.Receiver.Zrbhdr` | lszrz/zm.c:742-812 | so do the binary header readers |
| `ZReceiver.Receiver.Zrhhdr` | lszrz/zm.c:816-854 | so does the hex header reader |
| `ZReceiver.Receiver.Zgethdr` | lszrz/zm.c:621-739 | so does the header hunt, its labels as a loop over program points |
| `Crc.Crc16IsDivision` | lszrz/crctab.c:6-53 | the table-driven 16-bit CRC of every message equals bit-serial division by x^16+x^12+x^5+1 |
| `Crc.Crc32IsDivision` | lszrz/crctab.c:92-137 | the table-driven 32-bit CRC of every message equals the bit-serial reflected register |
| `Crc.UpdCrcIsSerial` | lszrz/crctab.c:53 | one `updcrc` is eight clocks of the 16-bit register |
| `Crc.UpdCrc32IsSerial` | lszrz/crctab.c:137 | one `UPDC32` is eight clocks of the 32-bit register |
| `Crc.CrcTabIsBasis` | lszrz/crctab.c:6-39 | all 256 entries of `crctab` are the xor of the entries at powers of two |
| `Crc.Cr3TabIsBasis` | lszrz/crctab.c:92-125 | all 256 entries of `cr3tab` are too |
| `Crc.Residue16` | lszrz/zm.c:445-526 | every message followed by its emitted 16-bit CRC leaves residue 0 |
| `Crc.Residue32` | lszrz/zm.c:472-585 | every message followed by its emitted 32-bit CRC leaves 0xDEBB20E3 |
| `Crc.Residue16Only` | lszrz/zm.c:496-548 | of all two-byte checks only the emitted one leaves residue 0 |
| `Crc.Residue32Only` | lszrz/zm.c:550-609 | of all four-byte checks only the emitted one leaves the constant the reader compares with |
| `Crc.BurstDetected32` | lszrz/crctab.c:137 | damage confined to four consecutive bytes always changes the 32-bit CRC, whatever surrounds it |
| `Crc.Crc32Injective` | lszrz/crctab.c:137 | registers that differ still differ after the same bytes have gone through both |
| `ChannelWindow.WindowConservation` | openssh/openssh/channels.c:2152-3247 | in every state of every run of two peers: the receiver's window is the sender's plus data and adjusts in flight; window, unwritten output and unacknowledged bytes add up to the opening window; the bytes read are those written, held and in flight, in order |
| `ChannelWindow.NothingRefused` | openssh/openssh/channels.c:2980-3040 | no message that arrives is refused as too big or too much, and no adjust overflows |
| `ChannelWindow.NeverStuckExactly` | openssh/openssh/channels.c:2152-2181 | the sender is never left unable to send for good if and only if the receiver opened with a window of at least two bytes and a packet size of at least one |
| `ChannelWindow.ZeroPacketStuck` | openssh/openssh/channels.c:2523-2596 | a packet size of zero is stuck at once |
| `ChannelWindow.OneByteWindowStuck` | openssh/openssh/channels.c:2152-2181 | a concrete run into the deadlock with a window of one byte |
| `ChannelWindow.ZeroWindowStuck` | openssh/openssh/channels.c:2152-2181 | a window of zero is stuck at once |
| `ChannelWindow.RunInv` | openssh/openssh/channels.c:2152-3247 | the invariant behind these holds along every run |
| `ChannelWindow.NextMessageFits` | openssh/openssh/channels.c:2980-3247 | in any state with the invariant, the next message fits |
| `ChannelWindow.Channel.constructor` | openssh/openssh/channels.c:354-404 | a new channel starts with its window full and nothing consumed |
| `ChannelWindow.Channel.ChannelOutputPoll` | openssh/openssh/channels.c:2523-2596 | sends min(window, packet size, input) bytes and reduces the remote window by as much |
| `ChannelWindow.Channel.ChannelInputData` | openssh/openssh/channels.c:2980-3040 | accepts, refuses or drops a message as specified, on unsigned arithmetic |
| `ChannelWindow.Channel.ChannelHandleWfd` | openssh/openssh/channels.c:1979-2071 | writing moves bytes from output to consumed; a failed write closes the output half of an open channel, one that would block changes nothing |
| `ChannelWindow.Channel.ChannelCheckWindow` | openssh/openssh/channels.c:2152-2181 | adjusts by all that was consumed when the condition holds, which `CheckSettles` and `AdjustsAreOwed` say in terms of packets and halves of the window |
| `ChannelWindow.CheckSettles` | openssh/openssh/channels.c:2152-2181 | after a check nothing is unacknowledged, or at most three packets of window are outstanding and at least half is left; an adjust is sent exactly when it was otherwise |
| `ChannelWindow.AdjustsAreOwed` | openssh/openssh/channels.c:2152-2181 | in every run, every adjust in flight was sent from a state with more than that outstanding, for all that had been consumed then |
| `ChannelWindow.WindowStaysWide` | openssh/openssh/channels.c:2152-2181 | while the receiver writes and checks after every message, the sender's window and what is in flight stay at half the window and within three packets of all of it, in every state of every such run |
| `ChannelWindow.AttentiveReached` | openssh/openssh/channels.c:2152-2181 | every state of such a run is one of an ordinary run |
| `ChannelWindow.DataConservesWindow` | openssh/openssh/channels.c:2980-3060 | for channels in any state: data is delivered exactly if channel and output are open and it fits, and never creates or destroys window |
| `ChannelWindow.ClosedOutputPaysBack` | openssh/openssh/channels.c:3008-3017 | with its output closed, a channel that checks still gives the sender back what it drops |
| `ChannelWindow.ClosingIsSilent` | openssh/openssh/channels.c:2152-2181 | a channel that is not open or is closing sends nothing |
| `ChannelWindow.AdjustAddsOrFails` | openssh/openssh/channels.c:3220-3247 | an adjust is added if and only if the sum fits 32 bits, and is fatal otherwise |
| `ChannelWindow.Channel.ChannelInputWindowAdjust` | openssh/openssh/channels.c:3219-3247 | adds the adjust or dies on overflow |
| `Socks.ChunkIndependence` | openssh/openssh/channels.c:1513-1557 | for every stream and any two ways of cutting it, the decoder ends with the same verdict, host, port, reply and rest |
| `Socks.SettleEarly` | openssh/openssh/channels.c:1513-1557 | running the decoder early changes nothing about the whole |
| `Socks.PreDynamicStable` | openssh/openssh/channels.c:1226-1557 | a decoder step that did something does the same with more input behind it |
| `Socks.Socks4Exact` | openssh/openssh/channels.c:1226-1342 | a SOCKS4 request is granted if and only if it is CONNECT and its last terminator is at offset 1025 or below; then exactly the request is consumed |
| `Socks.Socks4aExact` | openssh/openssh/channels.c:1226-1342 | the same for SOCKS4A with its host name |
| `Socks.Socks5Exact` | openssh/openssh/channels.c:1353-1487 | a SOCKS5 greeting and connect request are granted if and only if "no authentication" is offered; then exactly they are consumed |
| `Socks.Greeting5Exact` | openssh/openssh/channels.c:1374-1406 | the greeting alone |
| `Socks.Request5Exact` | openssh/openssh/channels.c:1407-1487 | the request alone, for each address type |
| `Socks.Request5Refused` | openssh/openssh/channels.c:1407-1434 | it is refused exactly when its first five bytes show another version, command or kind of address |
| `Socks.PortBytes` | openssh/openssh/channels.c:1323 | the port is in network order |
| `Socks.DynamicChannel.DecodeSocks4` | openssh/openssh/channels.c:1226-1342 | the buffer-consuming decoder equals the specification |
| `Socks.DynamicChannel.DecodeSocks5` | openssh/openssh/channels.c:1353-1487 | so does the SOCKS5 one |
| `Socks.DynamicChannel.ChannelPreDynamic` | openssh/openssh/channels.c:1513-1557 | so does their dispatcher |
| `Bitmap.New` | openssh/openssh/bitmap.c:37-51 | gives the empty set, or nothing exactly when an allocation fails |
| `Bitmap.Bitmap.Zero` | openssh/openssh/bitmap.c:64-69 | empties the set |
| `Bitmap.Bitmap.TestBit` | openssh/openssh/bitmap.c:71-79 | true exactly for the members |
| `Bitmap.Bitmap.Reserve` | openssh/openssh/bitmap.c:81-98 | grows without changing the set; fails exactly for n > 2^24 or when memory is needed and missing |
| `Bitmap.Bitmap.SetBit` | openssh/openssh/bitmap.c:100-113 | adds the number, or fails in exactly those cases and changes nothing |
| `Bitmap.Bitmap.Retop` | openssh/openssh/bitmap.c:116-123 | lowers `top` to the highest word that is not zero |
| `Bitmap.Bitmap.ClearBit` | openssh/openssh/bitmap.c:125-138 | removes the number; numbers above 2^24 are ignored |
| `Bitmap.Bitmap.Nbits` | openssh/openssh/bitmap.c:140-159 | is the largest member plus one, 0 for the empty set |
| `Bitmap.Bitmap.Nbytes` | openssh/openssh/bitmap.c:161-165 | is that many bits in whole bytes |
| `Bitmap.TopBit` | openssh/openssh/bitmap.c:151-157 | the shifting loop finds the most significant bit of a word |
| `Bitmap.Bitmap.ToString` | openssh/openssh/bitmap.c:167-186 | writes the one big-endian string without leading zero byte whose bits are the members, leaves the bytes behind it alone, and fails exactly when it does not fit |
| `Bitmap.Bitmap.FromString` | openssh/openssh/bitmap.c:188-214 | makes the set of the bits of the string; fails exactly above 2^24/8 bytes or without memory, changing nothing |
| `Bitmap.ThereAndBack` | openssh/openssh/bitmap.c:167-214 | printing and parsing restores the set if and only if it has at most 2^24 bits; `bitmap_set_bit` allows one more |
| `Bitmap.TopBitRefused` | openssh/openssh/bitmap.c:100-113 | bit 2^24 is set, and the string of that set is refused |
| `Bitmap.BackAndThere` | openssh/openssh/bitmap.c:167-214 | parsing and printing gives the string without its leading zero bytes |
| `Bitmap.PrintedOnce` | openssh/openssh/bitmap.c:167-186 | a set has only one string without leading zero bytes |
| `Bitmap.ParsedPrints` | openssh/openssh/bitmap.c:188-214 | a string prints a parsed set if and only if it is the parsed string without leading zero bytes |
| `Bitmap.PrintedParses` | openssh/openssh/bitmap.c:167-214 | parsing a printed set gives the set |
| `Bitmap.PrintedPrints` | openssh/openssh/bitmap.c:167-186 | the bytes the printing loop takes from the words have exactly the members as bits |
| `Auth2.AuthContext.Run` | openssh/openssh/auth2.c:253-429 | for every sequence of messages: success is set if and only if the accepted events contain, in order, every entry of some configured list valid at the start (any one event if no list is configured) and the account check did not object, which is fatal; the accepted events are those of increasing indices of served messages each of which carries the approval of its method or device, the last being the one served last; their publickey keys all differ; the user exists and is never changed |
| `Auth2.AuthContext.ServeOne` | openssh/openssh/auth2.c:253-429 | for one message, in terms of the message and the state before it: exactly when its event is accepted, when it counts as a failure, and that a method no list waits for is not tried |
| `Auth2.NoApprovalNoSuccess` | openssh/openssh/auth2.c:253-429 | without an approval among the messages nobody is let in |
| `Auth2.OneRequestExactly` | openssh/openssh/auth2.c:253-429 | without configured lists, exactly when one request lets the user in |
| `Auth2.WaitsFor` | openssh/openssh/auth2.c:587-614 | a remaining list admits a method if and only if its next entry is for that method |
| `Auth2.DeviceEntry` | openssh/openssh/auth2-chall.c:54-85 | an entry that names a device is satisfied by that device alone |
| `Auth2.AuthContext.SuccessExactly` | openssh/openssh/auth2.c:340-429 | that equivalence in every reachable state |
| `Auth2.AuthContext.SuffixesAndKeys` | openssh/openssh/auth2.c:638-668 | each remaining text is the suffix of its configured list after the entries the accepted events consumed, where lists behind the completed one may have missed the last event |
| `Auth2.ConsumedExact` | openssh/openssh/auth2.c:638-668 | consuming greedily empties a list if and only if its entries occur in order among the events |
| `Auth2.RemoveExact` | openssh/openssh/auth2.c:614-637 | a method is removed if and only if the event satisfies the first entry, and then exactly that entry goes |
| `Auth2.StartsWithExact` | openssh/openssh/auth2.c:587-612 | the four verdicts of `list_starts_with` depend exactly on the first entry |
| `Auth2.FatalExactly` | openssh/openssh/auth2.c:638-668 | of the remaining lists some admits a method without device and none takes it, which is fatal, if and only if some list starts with the method and a colon and none with the bare method |
| `Auth2.DeviceListDies` | openssh/openssh/auth2.c:660-668 | the run for the configuration "password:x": an accepted password ends the process |
| `Auth2.AdmittedButNotRemovable` | openssh/openssh/auth2.c:587-637 | the same for one list: admitted and not removable if and only if its first entry names a device for the method |
| `Auth2.UpdateOne` | openssh/openssh/auth2.c:614-668 | removing an event keeps the text the rest of its configured list after the consumed entries |
| `Auth2.RestIsSuffix` | openssh/openssh/auth2.c:614-637 | what is left after any number of entries is a suffix of the text |
| `Auth2.JoinEntries` | openssh/openssh/auth2.c:507-547 | splitting a list at commas and joining it gives the list |
| `Auth2.EntriesJoin` | openssh/openssh/auth2.c:507-547 | and conversely for entries without commas |
| `Auth2.MethodsValid` | openssh/openssh/auth2.c:507-547 | returns 0 if and only if the list is not empty and every entry names a known and, if asked, enabled method |
| `Auth2.ValidListsExact` | openssh/openssh/auth2.c:556-585 | the pruned lists are exactly the valid configured ones |
| `Auth2.AuthContext.SetupMethodsLists` | openssh/openssh/auth2.c:556-585 | prunes the configuration; fails exactly when nothing is left |
| `Auth2.AuthContext.MethodAllowed` | openssh/openssh/auth2.c:436-454 | true if no list is configured or some list starts with the method |
| `Auth2.AuthContext.MethodLookup` | openssh/openssh/auth2.c:484-500 | finds a method exactly if it is known, enabled and allowed |
| `Auth2.AuthContext.UpdateMethodsLists` | openssh/openssh/auth2.c:638-668 | returns true exactly when some list becomes complete; dies exactly when no list takes the event; every text stays the rest of its list |
| `Auth2.AuthContext.UserauthFinish` | openssh/openssh/auth2.c:340-429 | keeps the invariant that ties success, lists and history; accepts the event, counts a failure and dies in exactly the cases the code does |
| `Auth2.AuthContext.RecordKey` | openssh/openssh/auth2.c:702-728 | records the key of an authenticated attempt; dies exactly at INT_MAX keys or without memory |
| `Auth2.AuthContext.KeyAlreadyUsed` | openssh/openssh/auth2.c:731-749 | true exactly for recorded keys |
| `Auth2.AuthContext.UserauthPubkey` | openssh/openssh/auth2-pubkey.c:131-202 | accepts exactly a usable, signed key not recorded before, and records it even if the key options are refused afterwards |
| `Auth2.AuthContext.InputUserauthRequest` | openssh/openssh/auth2.c:253-338 | keeps the invariant; says exactly when the request adds its event and when it ends the connection |
| `Auth2.AuthContext.Serve` | openssh/openssh/auth2.c:315-333 | the same for the part after the set-up and the user check |
| `Auth2.AuthContext.Attempt` | openssh/openssh/auth2.c:318-327 | the method decides exactly if it is admitted and tries are left; `ServeOne` says what it must have approved |
| `Auth2.AuthContext.InputUserauthInfoResponse` | openssh/openssh/auth2-chall.c:290-361 | keeps it for a keyboard-interactive device; says exactly when its event is added and when the connection ends |
| `AuthOptions.RoundTripExactly` | openssh/openssh/auth-options.c:829-935 | deserialising a serialised struct gives it back and leaves exactly what followed if and only if every flag fits a byte and the tunnel number is at least -1 |
| `AuthOptions.WireRoundTrip` | openssh/openssh/auth-options.c:829-935 | in all cases it gives the struct with flags modulo 256 and tunnel numbers below -1 as 0 |
| `AuthOptions.AcceptedIsInStruct` | openssh/openssh/auth-options.c:876-935 | whatever bytes arrive, accepted options are ones the struct can hold: NUL-free strings and a tunnel number of 32 bits |
| `AuthOptions.NothingLeaks` | openssh/openssh/auth-options.c:829-874 | what an untrusted reader is sent depends on nothing but flags, expiry time and tunnel number |
| `AuthOptions.StringAcceptedExactly` | openssh/openssh/sshbuf-getput-basic.c:149-178 | exactly when a string is too large, cut short or accepted |
| `AuthOptions.CStringAcceptedExactly` | openssh/openssh/sshbuf-getput-basic.c:180-213 | a NUL inside a string is refused, one at its end dropped, and nothing else is refused |
| `AuthOptions.EmptyArrayAcceptedExactly` | openssh/openssh/auth-options.c:766-803 | the count decides before any string is looked at |
| `AuthOptions.TunIsSigned` | openssh/openssh/auth-options.c:905-909 | tunnel numbers are 32-bit two's complement |
| `AuthOptions.GetArrayBack` | openssh/openssh/auth-options.c:738-803 | arrays of any length come back, empty ones included |
| `AuthOptions.GetNullableBack` | openssh/openssh/auth-options.c:805-827 | null and empty strings stay apart |
| `AuthOptions.GetStringsBack` | openssh/openssh/auth-options.c:738-803 | so do the strings of an array |
| `AuthOptions.GetCStringBack` | openssh/openssh/sshbuf-getput-basic.c:180-213 | a NUL-free string survives |
| `AuthOptions.SshBuf.Serialise` | openssh/openssh/auth-options.c:829-874 | appends exactly the wire form of the struct, or of its redacted form for an untrusted reader, and fails exactly when the buffer would exceed its maximum |
| `AuthOptions.SshBuf.SerialiseArray` | openssh/openssh/auth-options.c:738-764 | appends count and wrapped strings, with the same failure condition |
| `AuthOptions.SshBuf.Deserialise` | openssh/openssh/auth-options.c:876-935 | consumes and returns what the parsing function returns, with its error codes |
| `AuthOptions.SshBuf.DeserialiseArray` | openssh/openssh/auth-options.c:766-803 | so does the array reader |
| `AuthOptions.SshBuf.TakeCString` | openssh/openssh/sshbuf-getput-basic.c:180-213 | so does the string reader with its NUL rule |
| `AuthOptions.SendAcross` | openssh/openssh/monitor.c:1695-1722 | through an empty buffer, options arrive in canonical (and redacted) form and the buffer is empty again, if and only if they fit |
| `ChaCha.CryptIsStream` | openssh/openssh/chacha.c:89-219 | every output byte is the message byte xor the key stream of the block whose 64-bit counter is the start plus its block number |
| `ChaCha.BumpAddsOne` | openssh/openssh/chacha.c:184-188 | the increment with carry adds one to the 64-bit counter modulo 2^64 and touches nothing else |
| `ChaCha.CryptTwice` | openssh/openssh/chacha.c:89-219 | encryption is its own inverse |
| `ChaCha.CryptSplit` | openssh/openssh/chacha.c:89-219 | splitting at any multiple of 64 bytes changes neither the output nor the state left behind |
| `ChaCha.StoredXor` | openssh/openssh/chacha.c:167-205 | xoring little-endian words and storing them is xoring bytes |
| `ChaCha.RunCore` | openssh/openssh/chacha.c:124-165 | the round loop computes the block function that `BlockVector` fixes |
| `ChaChaVector.BlockVector` | openssh/openssh/chacha.c:124-165 | a whole block gives the known answer of section 2.3.2 of RFC 8439 |
| `ChaCha.CounterValue` | openssh/openssh/chacha.c:184-188 | counting n blocks up from zero gives the 64-bit counter n |
| `ChaCha.RoundsInjective` | openssh/openssh/chacha.c:140-149 | the rounds are a permutation: different inputs stay different, for any number of rounds |
| `ChaCha.QuarterUndone` | openssh/openssh/chacha.c:46-50 | each quarter round can be taken back |
| `ChaCha.QuarterRoundVector` | openssh/openssh/chacha.c:46-50 | a quarter round gives the known answer of section 2.1.1 of RFC 8439 |
| `ChaCha.IvLaidOut` | openssh/openssh/chacha.c:80-86 | nonce and counter lie behind the key words byte by byte; without a counter it is zero |
| `ChaCha.Context.IvSetup` | openssh/openssh/chacha.c:80-86 | loads counter and nonce beside the key words |
| `ChaCha.Context.EncryptBytes` | openssh/openssh/chacha.c:89-219 | in place or between buffers, for any length: writes the stream-xored message, nothing else, and leaves the counter one past the last block begun |
| `ChachaPoly.OpensExactlySealed` | openssh/openssh/cipher-chachapoly.c:51-103 | a packet opens to a text if and only if it is that text sealed under the same key and sequence number |
| `ChachaPoly.SealKeyOnly` | openssh/openssh/cipher-chachapoly.c:51-103 | what earlier packets left in the contexts does not matter |
| `ChachaPoly.BlocksUsed` | openssh/openssh/cipher-chachapoly.c:51-103 | the authenticator key is the front of the main key's block 0, and payload byte i is xored with block 1 + i / 64 |
| `ChachaPoly.BlocksApart` | openssh/openssh/cipher-chachapoly.c:51-103 | no two such blocks are the same, within a packet or across sequence numbers |
| `ChachaPoly.SeqBufValue` | openssh/openssh/cipher-chachapoly.c:60-64 | the nonce is the sequence number as a big-endian number |
| `ChachaPoly.LengthReadable` | openssh/openssh/cipher-chachapoly.c:106-119 | the length field of a sealed packet is readable from its first four bytes |
| `ChachaPoly.Cipher.Encrypt` | openssh/openssh/cipher-chachapoly.c:51-103 | writes the sealed packet, in place or not |
| `ChachaPoly.Cipher.Decrypt` | openssh/openssh/cipher-chachapoly.c:51-103 | writes the text and returns 0 exactly when the tag is right; otherwise the destination is untouched |
| `ChachaPoly.Cipher.GetLength` | openssh/openssh/cipher-chachapoly.c:106-119 | returns the decrypted four bytes, or incomplete below four |
| `ChachaPoly.SendAndReceive` | openssh/openssh/cipher-chachapoly.c:51-103 | sealing in place at one end and opening in place at the other restores every buffer and keeps both ends in step |
| `Cbc.DecEnc` | openssh/openssh/cipher-aes.c:70-114 | decryption undoes encryption under the same vector, for any number of blocks |
| `Cbc.UndoneExactly` | openssh/openssh/cipher-aes.c:70-114 | for all vectors and texts if and only if the block functions undo each other |
| `Cbc.EncSplit` | openssh/openssh/cipher-aes.c:85-97 | two encrypting calls chained by the saved vector are one call |
| `Cbc.DecSplit` | openssh/openssh/cipher-aes.c:98-112 | so are two decrypting calls |
| `Cbc.Cipher.Cbc` | openssh/openssh/cipher-aes.c:70-114 | in place or between buffers: writes the mode's output, saves the last ciphertext block, dies exactly on a bad length |
| `Cbc.Cipher.Forward` | openssh/openssh/cipher-aes.c:85-97 | the forward loop |
| `Cbc.Cipher.Backward` | openssh/openssh/cipher-aes.c:98-112 | the backward loop, which reads each ciphertext block before it is overwritten |
| `Cbc.SendAndReceive` | openssh/openssh/cipher-aes.c:70-114 | in-place encryption at one end and in-place decryption at the other restore the buffer and keep the vectors equal |
| `Ctr.IncAddsOne` | openssh/openssh/cipher-aesctr.c:32-54 | the increment adds one to the big-endian value modulo 256^len |
| `Ctr.IncEarlyExit` | openssh/openssh/cipher-aesctr.c:37-40 | the branching variant computes it in place |
| `Ctr.IncConstantTime` | openssh/openssh/cipher-aesctr.c:42-53 | the branch-free variant computes the same |
| `Ctr.NonZeroBitExact` | openssh/openssh/cipher-aesctr.c:47-51 | its or-folding yields 1 exactly for bytes that are not zero |
| `Ctr.IncTimesAdds` | openssh/openssh/cipher-aesctr.c:68-82 | after k blocks the counter has grown by k modulo 256^16 |
| `Ctr.CryptTwice` | openssh/openssh/cipher-aesctr.c:68-82 | encryption is its own inverse |
| `Ctr.CryptSplit` | openssh/openssh/cipher-aesctr.c:68-82 | a message may be split at any multiple of 16 bytes |
| `Ctr.Cipher.EncryptBytes` | openssh/openssh/cipher-aesctr.c:68-82 | the byte loop, in place or not, computes the specified stream and counter for any length |
| `AtomicIo.TransferBounded` | openssh/openssh/atomicio.c:51-88 | the position never passes the total, and a complete transfer has moved all of it |
| `AtomicIo.AtomicIo6` | openssh/openssh/atomicio.c:51-88 | the loop equals the specification for every sequence of call results; it returns all of it exactly when all was moved, and 0 after a hard error |
| `AtomicIo.AdvanceDrops` | openssh/openssh/atomicio.c:138-155 | skipping and shortening entries drops exactly the bytes moved and never stops at an empty entry |
| `AtomicIo.Skip` | openssh/openssh/atomicio.c:135-155 | the skipping loop does that on the copied array; the EFAULT branch is unreachable |
| `AtomicIo.AtomicIov6` | openssh/openssh/atomicio.c:100-163 | equals the flat transfer unless the vector starts empty; the addresses transferred are the prefix of the concatenated vector |
| `AtomicIo.FlatExactly` | openssh/openssh/atomicio.c:121-163 | scattered and flat transfer agree for every sequence of calls if and only if no empty first entry stands before one with something to move |
| `GlobalConfirm.Queue.Register` | openssh/openssh/clientloop.c:737-756 | appends one callback to the flattened queue, coalescing with the last entry, and dies exactly when its count reaches INT_MAX |
| `GlobalConfirm.Queue.Reply` | openssh/openssh/clientloop.c:463-480 | runs the head of the flattened queue and removes it, with callbacks that register more while they run; does nothing on an empty queue |
| `GlobalConfirm.Queue.Decrement` | openssh/openssh/clientloop.c:472-476 | takes one from the head, dropping the entry at zero |
| `GlobalConfirm.Queue.InOrder` | openssh/openssh/clientloop.c:463-480 | the k-th reply answered belongs to the k-th registration |
| `GlobalConfirm.CanonicalUnique` | openssh/openssh/clientloop.c:737-756 | the coalesced queue is the unique run-length form of the plain one |

## Left out

- The ZMODEM state carried from one file to the next (`anker` and `bytes_skipped` are not reset), and batch transfers.
- Fairness: `Recovers` and `EveryFileArrives` give runs that succeed, not that every run does.
- ZStream.MadeGoodExactly: a window of one byte, which this sender never uses, is left out, and the block length may be any positive number, where `calc_blklen` chooses it.
- ZRecover.LossIsMadeGood: leaves out a window of one byte, as above.
- The file-system decisions of `procheader`, remote commands, progress display and real-time timeouts; a timeout is a possible result of every read.
- XMODEM and YMODEM.
- ZTransfer.TransferSafety: takes `size_t` and `long` to be wide enough for the file size, and assumes that a header or subpacket that passes its CRC is one the sender emitted and that damage inside a frame shows as an error; `BurstDetected32` proves this only for damage within four bytes.
- ZEscape.Transmitter.Zsdata: requires at least one byte, as the do/while loop of the source presumes.
- ZReceiver.Receiver.Zgethdr: does not say what `Rxhdr` holds after a failed header.
- ChannelWindow.WindowConservation: covers plain stream channels with the output half open; datagram channels, extended data, filters and the half-close functions are not modelled.
- ChannelWindow.NeverStuckExactly: covers channels open from the start; `channel_set_fds`, which gives a larval channel a new window and announces it, is not modelled.
- Socks.DynamicChannel.ChannelPreDynamic: leaves out the connection that is opened after the verdict.
- Bitmap.Bitmap.TestBit: requires the class invariant, so the source's answer for a bitmap with `top >= len`, which no operation produces, is not modelled.
- Auth2.AuthContext.InputUserauthRequest: the PAM account check is a parameter; auditing, logging, delays, the method list sent in a failure message, and the privilege-separated copy of the context in the monitor are not modelled.
- Auth2.AuthContext.UserauthPubkey: the parsing and policy checks around the key reuse test and the signature are parameters.
- AuthOptions.SshBuf.Serialise: memory allocation always succeeds; on failure only that the old contents stay in front is stated.
- AuthOptions.SshBuf.SerialiseArray: memory allocation always succeeds here too.
- ChaCha.Context.EncryptBytes: buffers that overlap without being the same place are excluded.
- Cbc.Cipher.Cbc: Rijndael is any pair of block functions, and a missing cipher context is not modelled.
- Ctr.Cipher.EncryptBytes: Rijndael is any block function.
- ChachaPoly.Cipher.Encrypt: Poly1305 is any function with 16-byte tags; nothing is said about forgery.
- AtomicIo.AtomicIov6: a negative vector count and the bandwidth limiting done by callbacks are not modelled; a callback is a decision to go on or stop.
- `chacha_keysetup`, `aesctr_keysetup` and `ssh_rijndael_init` are not modelled; a context starts with its key in place.
- `sshauthopt_merge`, `sshauthopt_parse` and `sshauthopt_from_cert`.
- Sockets, select loops, terminals, X11, GSSAPI, Kerberos, key formats and key exchange.
