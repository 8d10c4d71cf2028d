# The TLS and DTLS record layers, handshakes, cipher lists and calendar, verified

This project models the parts of the SSL library whose imperative code is meant to agree with a
much simpler specification, and proves that it does, or says exactly when it does not.

- **CBC records** (`ConstantTime`, `CbcPadding`, `CbcCopyMac`, `MerkleDamgard`, `CbcDigest`,
  `CbcRecord`): branch-free padding removal, the rotated extraction of a MAC and the digest that
  always hashes the same number of blocks agree with "strip the padding, slice the MAC, HMAC the
  rest", for an uninterpreted compression function. `CbcRecord.OpenIsExact` puts them together.
- **DTLS transport** (`ReplayWindow`, `ReassemblyBitmap`, `DtlsMessage`, `DtlsReceive`, `DtlsSend`,
  `DtlsTransport`, `RecordSequence`, `DtlsEpochs`): fragmentation in place, reassembly, out-of-order
  buffering and retransmission under a saved epoch. `DtlsTransport.EndToEnd` connects a sender and a
  receiver by a network that loses, repeats and reorders records; `DtlsEpochs.Run` shows that no two
  records share a number.
- **Cipher preference lists** (`CipherRules`, `CipherSort`, `CipherList`, `CipherGroups`,
  `ChooseCipher`): the doubly linked list edited while it is walked refines rules on sequences; the
  sort made of those rules is stable; the choice over groups of equal preference is determined.
- **Calendar** (`Calendar`, `TimeAdjust`): the Julian-day conversions are mutual inverses that follow
  the Gregorian calendar; adding to and subtracting broken-down times are addition and subtraction.
- **Record buffers** (`ReadBuffer`, `RecordWriter`): no byte is lost or reordered by the read buffer
  that moves its contents about; the resumable, fragmenting writer sends every byte once and in order,
  but for two ways in which a handshake spoils its count.
- **TLS handshake** (`HandshakeLog`, `TlsHandshake`, `TlsConnection`, `CutThroughWindow`):
  HANDSHAKE_DONE is earned in every run, but after renegotiations that start in one kind of state;
  which ones are unsafe is stated exactly.

`Arith`, `Bits` and `Bytes` hold what the other modules share. Bytes are integers below 256 and C's
unsigned operators are written out on them. What the network, the BIO or the peer does is an input of
each run, so every theorem about a run holds for all of their behaviours. `dafny verify
dfyconfig.toml` checks the whole project.

Where the code does not meet what it is for, the project says so:

- `ssl3_cbc_copy_mac` is right for even digest sizes (and 1), and for no odd one
  (`CbcCopyMac.CopyMacIsExact`). Every digest that the code supports has an even size, so no caller is
  affected.
- `constant_time_lt` and `constant_time_ge` answer the opposite when the difference does not fit in a
  signed integer (`ConstantTime.ConstantTimeLt`); `satsub64be` likewise near the ends of 64 bits
  (`ReplayWindow.SatSub64be`), which record numbers never reach. The comments promise 0xff; the
  unsigned comparisons return all ones.
- An empty fragment of a message that is due is handed up as the whole message
  (`DtlsReceive.EmptyFragmentIsHandedUp`).
- What `dtls1_do_write` reserves for a record does not cover a GCM record: buffered bytes and record
  exceed the MTU, by up to 24 bytes, exactly when what is left to send leaves less than 24 bytes of the
  room (`DtlsSend.LoadExceeds`, `DtlsSend.GcmExceeds`).
- After 2^48 records of an epoch a DTLS record number repeats (`DtlsEpochs.Run`), and so does the first
  one after 2^16 epochs (`DtlsEpochs.EpochWrapRepeats`).
- A cipher string with `-` after a group can leave the last group open; `CipherGroups.ClosedExactly`
  says when. A shared cipher is missed then: `[A|B]:-B` refuses a client that asks for A
  (`ChooseCipher.SharedIsMissed`). A rule can also merge two groups, as in `[A|B]:C:-B`
  (`CipherGroups.DelCanMerge`); `CipherGroups.GroupsKeptExactly` says when it does not.
- `ssl3_write_bytes` shares its count of written bytes, and its buffer, with the writes of a handshake
  that it completes first. When a handshake fails while a chunk waits, the count is lost, and where
  retries may move the buffer bytes then go out twice; when a failed handshake leaves a count of its
  own, that many bytes of the data are left out. `RecordWriter.WriteWithRetries` shows that each byte
  leaves once and in order exactly if neither happens; `RecordWriter.ThreeChunks` and
  `RecordWriter.LeftByHandshake` are runs of the two. The first needs a handshake that only reads,
  since while a chunk waits any write of a handshake is refused.
- A renegotiation that starts while a cut-through handshake still expects its ChangeCipherSpec lets the
  next handshake be done after two of them, exactly if the first one can still arrive
  (`CutThroughWindow.RenegotiationIsSafeExactly`; `CutThroughWindow.TwoChangeCipherSpecs` is
  such a run).

## Model

| member | source | states |
|---|---|---|
| ConstantTime.ConstantTimeLt | ssl/s3_cbc.c:81-85 | The mask is all ones or zero, and right exactly when the difference of the operands fits in a signed 32-bit integer. |
| ConstantTime.ConstantTimeGe | ssl/s3_cbc.c:88-92 | The same for "at least", under the same condition. |
| ConstantTime.GeByte | ssl/s3_cbc.c:207 | The comparison cut to a byte decides "at least" for all operands below 2^31. |
| ConstantTime.ConstantTimeEq8 | ssl/s3_cbc.c:95-100 | The byte mask decides equality of numbers below 2^31. |
| CbcPadding.Ssl3CbcRemovePadding | ssl/s3_cbc.c:110-131 | 0 and no change if the record is too short; else the record is what the plain SSLv3 remover leaves, and length plus the tag in the type is the old length. |
| CbcPadding.Tls1CbcRemovePadding | ssl/s3_cbc.c:144-229 | The explicit IV is skipped; then the record is what the plain TLS remover leaves, and length plus the tag in the type is the old length. |
| CbcPadding.CheckTlsPadding | ssl/s3_cbc.c:191-222 | The loop over up to 256 bytes and the bit fold yield all ones exactly when the record ends in a padding block and has room for the MAC. |
| CbcPadding.ClearIfWrong | ssl/s3_cbc.c:211 | A low bit of the accumulator is lost exactly when a byte that the mask selects differs from the padding length. |
| CbcPadding.FoldedBit | ssl/s3_cbc.c:218-220 | The fold by 4, 2 and 1 leaves bit 0 set exactly when all eight low bits were set. |
| CbcPadding.FoldGood | ssl/s3_cbc.c:218-222 | The fold and the copied sign bit make all ones of a set low byte and zero of any other. |
| CbcPadding.TagType | ssl/s3_cbc.c:226 | The padding length put into the type's upper bits and the type itself can both be read back. |
| CbcPadding.ReturnCode | ssl/s3_cbc.c:228 | The masked return value is 1 for valid and -1 for invalid padding. |
| CbcPadding.StripPadding | ssl/s3_cbc.c:127-130 | Removes exactly the padding when it is valid, nothing when not; the old length can be recovered. |
| CbcPadding.TlsRemovalIsExact | ssl/s3_cbc.c:144-229 | TLS removal accepts a record exactly when it is some body, at least as long as the MAC, and p+1 bytes of value p; it removes exactly those bytes, and otherwise removes nothing. |
| CbcPadding.Ssl3RemovalIsExact | ssl/s3_cbc.c:110-131 | The same for SSLv3, whose padding is at most a block and of any content but its length byte. |
| CbcPadding.Dtls1EncPad | ssl/d1_enc.c:197-214 | The loop in place pads the payload to a multiple of the block size with bytes of the padding length. |
| CbcPadding.Ssl3EncPad | ssl/s3_enc.c:447-458 | Zeros with a final length byte, in place, up to a multiple of the block size. |
| CbcPadding.PaddingRoundTrip | ssl/d1_enc.c:197-214 | Both removers undo the padding added on send, for every payload, block size and MAC size. |
| CbcCopyMac.Scan | ssl/s3_cbc.c:292-300 | After the scan, slot (i - scan_start) mod md_size holds MAC byte i, whatever window the secret length leaves. |
| CbcCopyMac.ScanStep | ssl/s3_cbc.c:293-300 | Each step of the scan keeps the rotated buffer equal to the MAC bytes seen so far. |
| CbcCopyMac.Unrotate | ssl/s3_cbc.c:288-290 | Reading from the rotated offset yields the MAC rotated by the spoiler constant only. |
| CbcCopyMac.CopyRotated | ssl/s3_cbc.c:304-311 | The un-rotation writes the MAC rotated by the spoiler constant, and no other byte of the output. |
| CbcCopyMac.Ssl3CbcCopyMac | ssl/s3_cbc.c:250-324 | The output is data[length - md_size..length] rotated by the spoiler constant, for every length in the 256-byte window. |
| CbcCopyMac.EvenSizesCancel | ssl/s3_cbc.c:281-290 | For every even md_size the spoiler is a multiple of it: the rotation is the identity. |
| CbcCopyMac.OddSizesDoNot | ssl/s3_cbc.c:281-290 | For every odd md_size above 1 the spoiler is no multiple of it. |
| CbcCopyMac.CopyMacIsExact | ssl/s3_cbc.c:250-324 | The MAC is copied faithfully for all records exactly when md_size is even, or 1. |
| MerkleDamgard.PaddedLength | ssl/s3_cbc.c:549-551 | A padded message is a whole number of blocks, the number the code computes. |
| MerkleDamgard.PaddedByteIs | ssl/s3_cbc.c:666-688 | Every byte of the ordinary padding by position: data, 0x80, zeros, length. |
| MerkleDamgard.HashAfterFirstBlock | ssl/s3_cbc.c:592-599 | Hashing a message whose first block was absorbed already is hashing the rest with the length of the whole. |
| MerkleDamgard.PadSwitch | ssl/s3_cbc.c:711-714 | XORing the inner pad with 0x6a gives the outer pad of RFC 2104. |
| CbcDigest.StartingBlocksArePlain | ssl/s3_cbc.c:542-584 | No block hashed in advance holds padding or length, whatever the secret length. |
| CbcDigest.FinalBlockIsReached | ssl/s3_cbc.c:542-584 | The length block always falls inside the final loop; for SSLv3 because its header is 71 or 75 bytes and a record is whole cipher blocks. |
| CbcDigest.BlockByteIsPadding | ssl/s3_cbc.c:652-690 | Up to the length block, the masked byte j of block i is byte i*B+j of the ordinarily padded message. |
| CbcDigest.WriteLengthBytes | ssl/s3_cbc.c:602-617 | The bytes written by position are the bit length in the digest's byte order and width. |
| CbcDigest.HashStartingBlocks | ssl/s3_cbc.c:635-643 | The first block of header and data, then data blocks, is hashing the prefix of header + data. |
| CbcDigest.HashStartingBlocksSsl3 | ssl/s3_cbc.c:621-634 | The same with a header that overhangs into the second block. |
| CbcDigest.BuildBlock | ssl/s3_cbc.c:657-690 | The inner loop builds each block by the masks, and advances the running index by a block. |
| CbcDigest.HashFinalBlocks | ssl/s3_cbc.c:652-697 | The final loop returns the hash of the padded message up to the secret end, whichever block holds the length. |
| CbcDigest.DigestRecordTls | ssl/s3_cbc.c:420-722 | For every secret length in the window, the output is the HMAC of RFC 2104 over header and data[0..D - md_size]. |
| CbcDigest.DigestRecordSsl3 | ssl/s3_cbc.c:420-722 | The same for the nested SSLv3 hash, for every record of whole cipher blocks. |
| CbcRecord.ExtractMac | ssl/s3_pkt.c:462-469 | The MAC cut out in constant time is the record's last md_size bytes after padding removal. |
| CbcRecord.ComputeMac | ssl/t1_enc.c:1126-1164 | The MAC of sequence, type, version, shortened length and body; the type loses the padding tag. |
| CbcRecord.ComputeMacSsl3 | ssl/s3_enc.c:634-734 | The SSLv3 MAC of section 5.2.3.1 of RFC 6101 over sequence, type, shortened length and body, for every decrypted record; the type loses the padding tag. |
| CbcRecord.AuthenticateRecord | ssl/s3_pkt.c:431-504 | Accepts the body exactly if padding and MAC are right and the lengths are within bounds. |
| CbcRecord.OpenRecord | ssl/s3_pkt.c:410-504 | The whole receive path ends as the plain opening of the decrypted bytes does. |
| CbcRecord.OpenIsExact | ssl/s3_pkt.c:411-504 | A record opens to a body exactly when it is body, HMAC of its header and body, and one valid padding block. |
| CbcRecord.OpenRecordSsl3 | ssl/s3_pkt.c:410-504 | The receive path for SSLv3 ends as the plain opening of the decrypted bytes does. |
| CbcRecord.OpenSsl3IsExact | ssl/s3_pkt.c:411-504 | An SSLv3 record opens to a body exactly when it is whole blocks of body, nested MAC of its header and body, and at most one block of padding of any content that ends in its length. |
| CbcRecord.SealThenOpen | ssl/d1_pkt.c:404-494 | What is MACed and padded on send opens to the same body. |
| ReplayWindow.SubtractBytes | ssl/d1_pkt.c:144-160 | After the loop the borrow is the sign, and the saturation byte is zero exactly if the difference is small. |
| ReplayWindow.SatSub64be | ssl/d1_pkt.c:124-165 | The result is clamp(a - b, -128, 128) exactly when the difference stays 127 away from the ends of its 64-bit range. |
| ReplayWindow.Bitmap.ReplayCheck | ssl/d1_pkt.c:1520-1540 | A record passes exactly if it is newer than all accepted ones, or inside the window and not accepted before. |
| ReplayWindow.Bitmap.BitmapUpdate | ssl/d1_pkt.c:1543-1564 | The bitmap then stands for the accepted numbers and the new one. |
| ReplayWindow.TrackNewer | ssl/d1_pkt.c:1553-1561 | Shifting in a newer number keeps bit s meaning "top - s was accepted". |
| ReplayWindow.TrackOlder | ssl/d1_pkt.c:1562-1563 | Setting the bit of an older number does too. |
| ReplayWindow.Receive | ssl/d1_pkt.c:1520-1564 | Over any run of one epoch, a record is accepted exactly if it is authentic and wanted given all earlier acceptances. |
| ReplayWindow.AcceptedOnce | ssl/d1_pkt.c:1520-1564 | No record number is accepted twice. |
| ReassemblyBitmap.Mark | ssl/d1_both.c:131-140 | Marking [start, end) sets exactly those bits, by bits for short ranges and by bytes for long ones. |
| ReassemblyBitmap.MarkBytes | ssl/d1_both.c:135-140 | The byte-wise branch with its start and end tables sets exactly the range. |
| ReassemblyBitmap.EndValue | ssl/d1_both.c:158-159 | Entry e of the end table has exactly the bits below e, or all of them for 0. |
| ReassemblyBitmap.IsComplete | ssl/d1_both.c:142-148 | The test holds exactly if every byte of the message is marked and no bit beyond it. |
| ReassemblyBitmap.RowDecides | ssl/d1_both.c:146-148 | Comparing a byte with the end value or 0xff decides its row of bits. |
| DtlsMessage.ParseEncode | ssl/d1_both.c:1257-1304 | A handshake header that fits its fields is read back as written. |
| DtlsReceive.HmFragment.Add | ssl/d1_both.c:641-684 | The bytes of a fragment land in place, are marked, and the bitmap goes exactly when all bytes are there; bytes of an honest sender keep the entry honest. |
| DtlsReceive.Receiver.Insert | ssl/d1_both.c:686-703 | The queue takes the entry: its key cannot be present, so the assertion after the insertion holds. |
| DtlsReceive.Receiver.StartReassembly | ssl/d1_both.c:626-703 | A first fragment makes a queue entry, which holds exactly its bytes, if and only if the record has them all; otherwise the queue stays. |
| DtlsReceive.Receiver.ReassembleFragment | ssl/d1_both.c:607-711 | Keeps one entry per sequence number, none more than ten ahead, and every byte of an honest sender in its place. |
| DtlsReceive.Receiver.ProcessOutOfSeq | ssl/d1_both.c:714-804 | Old, distant and repeated messages and stale Finished are read and dropped; a whole message becomes an entry with its bytes, a fragment one to be completed; no other entry comes or goes, and the invariant stays. |
| DtlsReceive.Receiver.RetrieveBuffered | ssl/d1_both.c:541-594 | Hands up the queue's head if it is complete and due, with the bytes it holds. |
| DtlsReceive.Receiver.GetMessageFragment | ssl/d1_both.c:807-931 | What is ready afterwards is the next message of an honest sender, whole; an empty fragment that is due is taken for a whole message. |
| DtlsReceive.Receiver.GetMessage | ssl/d1_both.c:423-489 | A message kept from before is handed up again, unchanged and without hashing, if it is of the type asked for. Otherwise, from an honest sender the message handed up is the next one, byte for byte, and the hash takes its unfragmented header and body. |
| DtlsReceive.Receiver.GetKept | ssl/d1_both.c:430-446 | The kept message is handed up once more, or refused for its type, and is kept no longer. |
| DtlsReceive.EmptyFragmentIsHandedUp | ssl/d1_both.c:869-931 | Unless the queue's head is due, an empty fragment of a message that is due hands up an empty body: right exactly if the message is empty. |
| DtlsReceive.Run | ssl/d1_both.c:423-931 | Over any drops, repetitions and reorderings of an honest sender's records, up to the first failed call, the bodies handed up are messages 0, 1, 2 and so on, each once and identical, but for a message that was kept, which comes again right behind itself; the hash is their transcript. |
| DtlsSend.ReservationCovers | ssl/d1_both.c:283-313 | The room reserved covers what a record adds exactly when the cipher is not GCM, which needs 24 bytes more. |
| DtlsSend.LoadExceeds | ssl/d1_both.c:302-334 | For every state of the loop, buffered bytes plus the next record exceed the MTU exactly if the cipher is GCM and the rest leaves less than 24 bytes of the room; never by more than 24. |
| DtlsSend.GcmExceeds | ssl/d1_both.c:302-334 | At the least MTU the first fragment of every message of 192 bytes or more does. |
| DtlsSend.Sender.CurrMtu | ssl/d1_both.c:302-313 | After a flush if need be, there is room for more than a header; the room is the MTU less what is buffered and reserved. |
| DtlsSend.Sender.StepBack | ssl/d1_both.c:324-334 | The record starts twelve bytes back and takes as much of the rest as fits. |
| DtlsSend.Sender.PrepareFragment | ssl/d1_both.c:336-341 | The header written over sent bytes and the bytes behind it are exactly the next fragment; the unsent body is untouched. |
| DtlsSend.HeaderOverlay | ssl/d1_both.c:324-341 | Overwriting the twelve bytes before the unsent part never touches it. |
| DtlsSend.Sender.WriteBytes | ssl/d1_both.c:344-366 | One record leaves; its size and what was buffered before it are recorded. |
| DtlsSend.Sender.HashFragment | ssl/d1_both.c:368-395 | The hash takes each body byte once, and before the first a header as if the message were sent whole. |
| DtlsSend.Sender.SendFragment | ssl/d1_both.c:300-413 | For every cipher, an iteration emits exactly the next fragment and makes progress, or finishes; buffered bytes and record are as computed from what was buffered and what is left. |
| DtlsSend.Sender.DoWrite | ssl/d1_both.c:232-415 | For every cipher: terminates; the fragments tile the message in order, none empty unless the message is; the hash is unfragmented header and body; buffered bytes and record stay within the MTU, or within 24 bytes more for GCM. |
| DtlsSend.EmittedIsHonest | ssl/d1_both.c:299-413 | Every record emitted for a message is one an honest sender may send. |
| DtlsTransport.SendAll | ssl/d1_both.c:232-415 | For every cipher and flight the hash is the transcript of the messages, whatever the MTU. |
| DtlsTransport.EndToEnd | ssl/d1_both.c:232-931 | For every MTU up to the record limit, every cipher, flight and network, the receiver hands up a prefix of the flight, equal flights give equal hashes on both ends, and no record with what was buffered exceeds the MTU (GCM: by more than 24 bytes). |
| RecordSequence.IncrementedCounts | ssl/s3_enc.c:737-746 | Counting up by carries adds one to the big-endian number, and wraps at its end. |
| RecordSequence.UpdateSequence | ssl/s3_enc.c:737-746 | The carry loop in place does that to the eight bytes. |
| RecordSequence.WireBytes | ssl/d1_pkt.c:1474-1482 | The six bytes in a DTLS header are the sequence number modulo 2^48. |
| DtlsEpochs.Endpoint.ComposeRecords | ssl/d1_pkt.c:1474-1500 | n records take the epoch and the next n sequence numbers, 48 bits of them on the wire. |
| DtlsEpochs.BatchUses | ssl/d1_pkt.c:1474-1500 | n writes use exactly the next n numbers of an epoch, each once, exactly as long as the count stays within 2^48. |
| DtlsEpochs.BatchFits | ssl/d1_pkt.c:1474-1500 | n more records of an epoch stay within its 2^48 numbers exactly as long as their count does. |
| DtlsEpochs.RecordsAppendPrevious | ssl/d1_both.c:1162-1188 | Writing in the previous epoch from its own counter keeps all numbers distinct. |
| DtlsEpochs.RecordsNewEpoch | ssl/d1_pkt.c:1719-1740 | A change of keys opens an epoch without records and keeps the last counter for retransmissions. |
| DtlsEpochs.Endpoint.BufferMessage | ssl/d1_both.c:1046-1108 | The queue gains the message with the current epoch under its priority, unless the priority is taken. |
| DtlsEpochs.Endpoint.StopTimer | ssl/d1_lib.c:415-424 | The retransmission queue is empty afterwards. |
| DtlsEpochs.Endpoint.ResetSeqNumbers | ssl/d1_pkt.c:1719-1740 | The epoch advances, the old counter becomes the last one, the new one starts at zero, and the queue is one epoch old at most. |
| DtlsEpochs.Endpoint.RetransmitMessage | ssl/d1_both.c:1110-1197 | The records carry the message's own epoch, from that epoch's counter, which alone advances; the current epoch is restored. |
| DtlsEpochs.Endpoint.RetransmitBuffered | ssl/d1_both.c:1020-1044 | However many of the queued messages are sent again, numbers stay distinct and the epoch stays. |
| DtlsEpochs.Endpoint.Send | ssl/d1_both.c:948-964 | A sending state numbers and buffers its message once, however often its write is retried. |
| DtlsEpochs.Endpoint.ChangeStep | ssl/d1_clnt.c:403-429 | The ChangeCipherSpec is buffered under the old epoch; the epoch changes only if the new keys are in place, the state moves on in any case. |
| DtlsEpochs.Endpoint.ClientSend | ssl/d1_clnt.c:239-459 | The client's sending states: what each emits, buffers and leads to, with the invariant that the queue holds two epochs at most. |
| DtlsEpochs.Endpoint.ClientReceiveHello | ssl/d1_clnt.c:186-304 | The client's first states: a HelloVerifyRequest with a cookie drops the queue. |
| DtlsEpochs.Endpoint.ClientReceive | ssl/d1_clnt.c:306-550 | The client's other states: ServerHelloDone and Finished drop the queue, nothing else does. |
| DtlsEpochs.Endpoint.ServerSendHello | ssl/d1_srvr.c:334-373 | The server's first sending states. |
| DtlsEpochs.Endpoint.ServerSendRest | ssl/d1_srvr.c:375-450 | The rest of the server's first flight. |
| DtlsEpochs.Endpoint.ServerSendLast | ssl/d1_srvr.c:548-606 | The server's last flight, with its change of epoch. |
| DtlsEpochs.Endpoint.ServerHelloRequest | ssl/d1_srvr.c:263-276 | A HelloRequest drops what was kept before, and is kept itself. |
| DtlsEpochs.Endpoint.SendHelloVerify | ssl/d1_srvr.c:683-720 | A HelloVerifyRequest takes a number but is not kept. |
| DtlsEpochs.Endpoint.ServerReceiveHello | ssl/d1_srvr.c:199-318 | A ClientHello drops the queue. |
| DtlsEpochs.Endpoint.ServerReceive | ssl/d1_srvr.c:452-609 | The server's other states: Finished drops the queue, nothing else does. |
| DtlsEpochs.Run | ssl/d1_both.c:1110-1197 | Over any run of either side, with any retransmissions and fewer than 2^16 changes of keys, of which each takes an event: all record numbers are distinct exactly if no epoch has more than 2^48 records, and the queue holds the current and the previous epoch only. |
| DtlsEpochs.EpochWrapRepeats | ssl/d1_pkt.c:1719-1740 | When the epoch wraps, the next record repeats the first number of epoch 0. |
| CipherRules.MovedAndKept | ssl/ssl_ciph.c:642-782 | What ADD, ORD or DEL moves and what it passes over are together the old list. |
| CipherRules.Conservation | ssl/ssl_ciph.c:642-782 | ADD, ORD and DEL lose and duplicate no cipher. |
| CipherRules.KillRemoves | ssl/ssl_ciph.c:761-777 | KILL leaves exactly the entries that do not match, each once and in their order. |
| CipherRules.KeptInOrder | ssl/ssl_ciph.c:677-778 | What a rule passes over are the entries it does not select, by increasing index. |
| CipherRules.MovedInOrder | ssl/ssl_ciph.c:727-760 | What ADD, ORD or DEL moves are the entries it selects, by increasing index, with the flags it sets. |
| CipherRules.MovedMembers | ssl/ssl_ciph.c:727-760 | What a rule moves matches it and has the flags the rule sets. |
| CipherRules.VisitProgress | ssl/ssl_ciph.c:677-778 | One visit, forward or from the tail for DEL, turns the list after k visits into the list after k + 1. |
| CipherRules.RuleKeepsInactiveFirst | ssl/ssl_ciph.c:642-782 | Each rule keeps all inactive entries before all active ones. |
| CipherRules.RulesKeepInactiveFirst | ssl/ssl_ciph.c:642-782 | So does every sequence of rules. |
| CipherList.List.AppendTail | ssl/ssl_ciph.c:448-462 | Exactly the given node moves to the tail of a well-formed doubly linked list. |
| CipherList.List.AppendHead | ssl/ssl_ciph.c:464-478 | Exactly the given node moves to the head. |
| CipherList.List.Remove | ssl/ssl_ciph.c:761-777 | Exactly the given node leaves the list. |
| CipherList.List.Visit | ssl/ssl_ciph.c:685-777 | The body of the loop does to the list what a visit does to the sequence. |
| CipherList.List.ApplyRule | ssl/ssl_ciph.c:642-782 | The walk over the list it edits refines the rule on sequences: matching eligible entries move, in order, and the links stay well formed. |
| CipherList.LinkEntries | ssl/ssl_ciph.c:546-570 | The collected entries become a well-formed doubly linked list in their order. |
| CipherList.CollectEntries | ssl/ssl_ciph.c:518-544 | Exactly the available ciphers of the table, in its order, all inactive. |
| CipherList.List.constructor | ssl/ssl_ciph.c:500-571 | Both halves together. |
| CipherList.Prepare | ssl/ssl_ciph.c:642-782 | After any rules the list is what they say, and inactive entries come first. |
| CipherSort.OrdStep | ssl/ssl_ciph.c:827-829 | One ORD rule puts the next lower strength behind those already sorted. |
| CipherSort.SortRound | ssl/ssl_ciph.c:827-829 | A strength nobody uses may be skipped. |
| CipherSort.SortedIsStableSort | ssl/ssl_ciph.c:784-833 | The inactive entries stay as they are in front; the active ones descend in strength; those of one strength keep their order. |
| CipherList.List.MaxActiveStrength | ssl/ssl_ciph.c:795-803 | The largest strength of an active entry. |
| CipherList.List.CountUses | ssl/ssl_ciph.c:805-822 | How many active entries have each strength. |
| CipherList.List.StrengthSort | ssl/ssl_ciph.c:784-833 | The sort in place yields that stable sort. |
| CipherGroups.CloseGroup | ssl/ssl_ciph.c:854-869 | A closing bracket clears the group flag of the last entry only. |
| CipherGroups.ProcessOne | ssl/ssl_ciph.c:852-1128 | One command, a broken one included: what it does to list, group state and verdict, and when it stops the parser. |
| CipherGroups.ProcessRules | ssl/ssl_ciph.c:835-1138 | The whole string: list and verdict are those of the commands in order. |
| CipherGroups.AppendKeepsClosed | ssl/ssl_ciph.c:728-747 | ADD and ORD outside a group never leave the last cipher's group open. |
| CipherGroups.DelKeepsClosed | ssl/ssl_ciph.c:748-760 | DEL leaves it closed exactly if every open entry that stays is followed by an active one that stays. |
| CipherGroups.AcceptedIsClosed | ssl/ssl_ciph.c:854-915 | An accepted string with no '-' after a group leaves the last group closed. |
| CipherGroups.ClosedExactly | ssl/ssl_ciph.c:852-1138 | An accepted string leaves the last group closed exactly if every '-' that leaves an open entry last is followed by a command that closes the list. |
| CipherGroups.DelCanReopen | ssl/ssl_ciph.c:748-760 | The accepted string [A |
| CipherGroups.GroupsKeptExactly | ssl/ssl_ciph.c:727-760 | A rule leaves the groups of the entries it passes over as they were exactly if no group loses its end between an open entry that stays before it and one that stays behind. |
| CipherGroups.DelCanMerge | ssl/ssl_ciph.c:748-760 | In [A|B]:C:-B the last rule merges A with C. |
| CipherGroups.LastFlag | ssl/ssl_ciph.c:1293-1303 | The last flag handed out is 0 exactly if the last group is closed. |
| CipherGroups.PreferenceList | ssl/ssl_ciph.c:1286-1317 | The ciphers and flags handed out are those of the active entries, in order. |
| ChooseCipher.Find | ssl/s3_lib.c:1969 | The first index of the cipher, or none if it is absent. |
| ChooseCipher.Choose | ssl/s3_lib.c:1928-1999 | The choice is the most preferred of the other side among the shared ciphers of the first group that has one; none only if nothing is shared or that group has no end. |
| ChooseCipher.ChooseCipher | ssl/s3_lib.c:1869-1999 | The same for whichever side's preference counts. |
| ChooseCipher.NoneExactly | ssl/s3_lib.c:1934-1999 | There is no choice exactly if nothing is shared, or the group of the first shared cipher has no end. |
| ChooseCipher.ChoiceIsDetermined | ssl/s3_lib.c:1934-1999 | The rule leaves exactly one right choice. |
| ChooseCipher.ClosedFindsShared | ssl/s3_lib.c:1988-1996 | With the last flag 0 a choice is made exactly if something is shared. |
| ChooseCipher.ClientPreference | ssl/s3_lib.c:1922-1927 | By the client's preference the choice is its first shared cipher. |
| ChooseCipher.ServerChoice | ssl/ssl_ciph.c:1131-1135 | From the cipher string to the choice: verdict, ciphers and choice are those of the string, and no shared cipher is missed if every '-' that opens the end is followed by a command that closes it, or none follows a group. |
| ChooseCipher.SharedIsMissed | ssl/s3_lib.c:1934-1999 | After [A|B]:-B the server answers a client that asks for A, which it offers and can use, that nothing is shared. |
| Calendar.JulianToDate | crypto/time_support.c:84-97 | From day -32044 on the result is a valid date with this Julian day, and the only one. |
| Calendar.NextDayIsNext | crypto/time_support.c:78-82 | The day after a date, by the 4/100/400 rule, has the next Julian day. |
| Calendar.DateOfJulian | crypto/time_support.c:78-97 | For every valid date from 1 March -4800 on, converting to a Julian day and back is the identity. |
| Calendar.JulianOfDate | crypto/time_support.c:78-97 | Every Julian day from -32044 on converts to a valid date and back to itself. |
| TimeAdjust.Tm.JulianAdj | crypto/time_support.c:100-138 | Succeeds exactly if the moment is not before Julian day 0, and then splits it into day and second of day. |
| TimeAdjust.YearOfDay | crypto/time_support.c:152-153 | The test on the converted year is a test on Julian days. |
| TimeAdjust.Tm.GmtimeAdj | crypto/time_support.c:140-166 | Succeeds exactly if the adjusted moment lies in the years 1900 to 9999, and then holds that moment's time; otherwise nothing changes. |
| TimeAdjust.MomentOfTime | crypto/time_support.c:155-163 | The fields written are a time of the calendar and of that moment. |
| TimeAdjust.TimeOfMoment | crypto/time_support.c:155-163 | No two times without a leap second share a moment. |
| TimeAdjust.AdjustmentsAdd | crypto/time_support.c:140-166 | Successive adjustments compose additively. |
| TimeAdjust.GmtimeDiff | crypto/time_support.c:168-200 | Days and seconds add up to the difference, agree in sign, and the seconds are less than a day. |
| TimeAdjust.AdjustThenDiff | crypto/time_support.c:140-200 | Adjusting and then taking the difference gives back the offset. |
| ReadBuffer.Reader.SetupReadBuffer | ssl/s3_both.c:573-609 | A new buffer of the set capacity, with the packet at its start. |
| ReadBuffer.Reader.Realign | ssl/s3_pkt.c:157-177 | The bytes read ahead are the same after they moved to the aligned place. |
| ReadBuffer.Reader.StartPacket | ssl/s3_pkt.c:153-182 | The last packet is consumed, the new one is empty, no byte read ahead is lost. |
| ReadBuffer.Reader.TakeBuffered | ssl/s3_pkt.c:192-198 | n bytes that were read before join the packet. |
| ReadBuffer.Reader.MoveToFront | ssl/s3_pkt.c:200-213 | Packet and left-over bytes move to the front unchanged. |
| ReadBuffer.Reader.Fill | ssl/s3_pkt.c:231-267 | Every byte the BIO delivers, and no other, lands behind those held, in order and inside the buffer, until enough are there or a read fails. |
| ReadBuffer.Reader.ReadN | ssl/s3_pkt.c:126-275 | On success exactly n bytes join the packet (fewer for DTLS), on failure none; consumed, packet and left-over bytes remain the stream read so far. |
| ReadBuffer.Run | ssl/s3_pkt.c:126-275 | After any run of calls with short reads, errors, read-ahead and moves, what the BIO delivered, read by read, is the packets that were completed, as the buffer held them, then the current packet and the left-over bytes. |
| RecordWriter.Writer.WritePending | ssl/s3_pkt.c:847-899 | What was pending goes out in order, in as many pieces as the BIO takes; a retry with other arguments writes nothing. |
| RecordWriter.Writer.DoWrite | ssl/s3_pkt.c:639-844 | Without pending bytes the chunk becomes one record, or a one-byte record and the rest, and is remembered for retries; otherwise only pending bytes move. |
| RecordWriter.Writer.WriteChunk | ssl/s3_pkt.c:590-616 | One turn of the loop moves pending bytes on, or composes exactly the next chunk, split if it is to be, and offers it. |
| RecordWriter.Writer.WriteLoop | ssl/s3_pkt.c:580-631 | For its own call the loop ends with the records up to its result written, or with the next chunk resumable at the count; a call of another type it leaves alone, and while a record of that one waits nothing is written. |
| RecordWriter.Writer.RunHandshake | ssl/s3_both.c:128-149 | A handshake writes its messages with the same loop, buffer and count: a call of another type keeps its records, and while one of them waits nothing moves and the count is 0; a single message has the outcome of the loop; the result is the handshake's own only if all messages are written. |
| RecordWriter.Writer.WriteBytes | ssl/s3_pkt.c:546-632 | A positive result r: the records of the call carry data[0..r] in legal sizes, all written, the first of one byte where records are split, but for bytes sent twice or left out; otherwise the call may be repeated. With the handshake done the count goes up by what was written; a failed handshake sets it to 0 while a chunk waits, and else to whatever it leaves. |
| RecordWriter.WriteWithRetries | ssl/s3_pkt.c:546-899 | Over any sequence of retries with any handshakes, which write and fail as they like, and any short writes: all records are on the wire in order, those of the call in legal sizes, and they take each byte of data[0..r] once and in order if and only if no handshake failed with the count of a waiting chunk above 0 and a buffer that may move, and the first record was composed with the count 0. |
| RecordWriter.InOrderIsEqual | ssl/s3_pkt.c:546-632 | Records that take each of n bytes of the buffer once and in order carry exactly these bytes. |
| RecordWriter.SendsTwice | ssl/s3_pkt.c:546-632 | From every state with a waiting chunk, a count above 0 and a buffer that may move, one failed handshake and a completed retry send as many bytes more than the result says as the count was. |
| RecordWriter.SkipsFront | ssl/s3_pkt.c:546-632 | From every state with nothing composed and a count above 0, a completed attempt sends data[count..r] and returns r. |
| RecordWriter.ThreeChunks | ssl/s3_pkt.c:546-632 | The first state is reached: of three chunks the BIO takes one, a handshake that only reads fails, and the call ends with 1536 after more bytes left. |
| RecordWriter.LeftByHandshake | ssl/s3_pkt.c:546-632 | So is the second: a handshake message of three records stalls behind its first, the next attempt completes it, and the call ends with 1536 after fewer bytes left. |
| HandshakeLog.DoneIsProper | ssl/s3_both.c:242-287 | In an ordered log every Done follows, since the last start, one expectation, one ChangeCipherSpec, no handshake bytes in between, and one verified Finished, in this order. |
| TlsHandshake.SurpriseKeeps | ssl/s3_pkt.c:1278-1317 | A ChangeCipherSpec is consumed only when expected, and once; anything else leaves the phase alone. |
| TlsHandshake.ReadRecordsKeep | ssl/s3_pkt.c:1012-1030 | Over any records, the flags stay in step with the phase: no handshake bytes get through while a ChangeCipherSpec is expected. |
| TlsHandshake.AwaitingLetsNothingElse | ssl/s3_pkt.c:1012-1030 | While a ChangeCipherSpec is awaited, a pass over a record logs nothing, or that it is taken. |
| TlsHandshake.ReadBytesKeep | ssl/s3_pkt.c:944-1424 | The same for a whole call, with stored handshake bytes. |
| TlsHandshake.ExpectThenKeeps | ssl/s3_pkt.c:906-915 | The expectation is set only with no handshake bytes or kept message left over. |
| TlsHandshake.GetFinishedKeeps | ssl/s3_both.c:221-291 | Finished is verified only behind the ChangeCipherSpec; after a failed one no second attempt can succeed without another. |
| TlsHandshake.ClientStepKeeps | ssl/s3_clnt.c:260-588 | Every round of the client's loop keeps state, flags and phase in step. |
| TlsHandshake.ServerStepKeeps | ssl/s3_srvr.c:311-712 | So does every round of the server's. |
| TlsHandshake.RenegotiatingKeeps | ssl/ssl_lib.c:3084-3096 | Where a renegotiation may start it keeps state, flags and phase in step exactly unless a cut-through handshake still expects its ChangeCipherSpec. |
| CutThroughWindow.DoneIsEarned | ssl/s3_srvr.c:311-712 | In every run of either side, with re-entry, resumption, cut-through and renegotiation but none from an unsafe state, every Done is properly earned. |
| CutThroughWindow.RenegotiationIsSafeExactly | ssl/ssl_lib.c:3084-3096 | In every state of such a run where a renegotiation may start, every Done stays properly earned whatever follows if and only if the state is safe: no ChangeCipherSpec is expected there, or it can no longer come. |
| CutThroughWindow.UnsafeIsUnsafe | ssl/s3_lib.c:2239-2262 | From every unsafe state some continuation reaches a Done behind two ChangeCipherSpecs. |
| CutThroughWindow.HopelessRun | ssl/s3_pkt.c:1012-1030 | Where the expected ChangeCipherSpec cannot come, nothing but starts is logged any more. |
| CutThroughWindow.WindowIsReached | ssl/s3_lib.c:2239-2262 | A handshake that is cut through and a read that finds nothing lead to an unsafe state. |
| CutThroughWindow.TwoChangeCipherSpecs | ssl/s3_lib.c:2239-2262 | So there is a run whose second handshake is done without having been earned. |
| TlsConnection.Connection.ExpectCcs | ssl/s3_pkt.c:906-915 | Succeeds exactly with no stored handshake bytes and no kept message; then the phase goes from begun to awaiting, and otherwise nothing changes. |
| TlsConnection.Connection.TakeCcs | ssl/s3_pkt.c:1278-1317 | A record is taken as the ChangeCipherSpec exactly if it is well-formed and awaited; then the flags swap and the phase is changed, and otherwise nothing changes. |
| TlsConnection.Connection.ReadOnce | ssl/s3_pkt.c:1012-1400 | Flags and phase stay in step; the phase stays or the awaited ChangeCipherSpec is taken; while it is awaited nothing else is handed up; a restart is asked for only in state OK. |
| TlsConnection.Connection.ReadBytes | ssl/s3_pkt.c:944-1424 | The loop over records computes the fields of the recursive function, for which that invariant is proved. |
| TlsConnection.Connection.GetMessage | ssl/s3_both.c:340-483 | Changes only record layer, kept message and half of the state, in step with the phase, and hands up no message while a ChangeCipherSpec is expected. |
| TlsConnection.Connection.GetFinished | ssl/s3_both.c:221-291 | Succeeds only behind the ChangeCipherSpec, whose flag it clears, with the phase verified; after a failure the state stays, in step. |
| TlsConnection.Connection.ClientStep | ssl/s3_clnt.c:198-588 | A round keeps state, flags and phase in step, and leaves the loop running in state OK only for a verified handshake. |
| TlsConnection.Connection.ServerStep | ssl/s3_srvr.c:214-712 | So does a round of the server, apart from a mere HelloRequest. |
| TlsConnection.Run | ssl/s3_srvr.c:188-740 | A run on the fields, with no renegotiation from an unsafe state, reports HANDSHAKE_DONE only for handshakes that earned it. |

## Left out

- Cryptography: the compression function, the ciphers and the record protection are uninterpreted functions; that the constant-time code takes constant time is not stated, nor the volatile read that touches a second cache line.
- AEAD ciphers other than the sizes of GCM records in DtlsSend, SSL_OP_TLS_BLOCK_PADDING_BUG, SSL_OP_MICROSOFT_BIG_SSLV3_BUFFER and compression.
- The big-endian shortcut of `satsub64be`, and `ssl3_cbc_copy_mac` without CBC_MAC_ROTATE_IN_PLACE.
- ReplayWindow.SubtractBytes: keeps only the low byte of `sat`, because only that byte is tested.
- DtlsReceive.Run: nothing is said after the first failed call, because a message that is too long leaves its body unread, where the next call takes it for headers; the sender is honest, that is, a fragment is empty only if its message is; that messages are eventually delivered is not claimed, because a stale partial entry at the queue's head can block later ones.
- DtlsReceive.Receiver.GetMessageFragment: the queue is a map from sequence numbers to entries of which the least is taken, and an ignored HelloRequest is reported to the caller, which asks again.
- Listening mode (`dtls1_listen`) and buffered records of the next epoch.
- DtlsSend.Sender.DoWrite: writes and flushes succeed, because a failed write leaves the message in a state that cannot be resumed; ChangeCipherSpecs, which are a single byte, are sent in DtlsEpochs only.
- DtlsTransport.EndToEnd: the MTU is at least `dtls1_min_mtu` and at most 16384, the limit that `dtls1_write_bytes` asserts of a record.
- DtlsEpochs.Endpoint.RetransmitBuffered: sends the queue in any order, of which the order by priority is one.
- DtlsEpochs.Run: a record counts from when it is composed, whether or not the BIO takes it; after the 16-bit epoch wraps only DtlsEpochs.EpochWrapRepeats says something; message bodies and timers are not modelled.
- CipherList.List.ApplyRule: algorithm masks are sets of bit positions; the unused cipher id and the disabled debug branches are not modelled.
- CipherGroups.ProcessRules: starts from commands, not from the characters of the string; the keyword DEFAULT, which runs the parser on the default string first, is not modelled.
- ChooseCipher.Find: ciphers are compared as values with an id, which stands for the pointer comparison of the original.
- TimeAdjust.Tm.GmtimeAdj: integers are unbounded, so overflow of `int` and `long` for offsets beyond their range is not modelled.
- ReadBuffer.Reader.ReadN: every buffer has the same payload alignment; decryption in place of the current packet, which overwrites bytes that are consumed next, is not modelled.
- RecordWriter.Writer.WriteBytes: a handshake is the messages it writes and its result, any messages in every attempt; no alert is pending, the buffer can be allocated, and the write buffer is a sequence of pending bytes, so its alignment and capacity are not modelled; that a one-byte record grows by at most the reserved overhead is assumed of the record protection.
- CutThroughWindow.DoneIsEarned: where a read calls the handshake, the read ends and the handshake is a call of its own; message contents, alerts sent, SSL_clear, and the refusal of application data inside a handshake are not modelled; a message is a number of reads and a verdict.
- BIOs, sockets, clocks, allocation failures, callbacks, error queues, session encoding, certificates and control switches.
