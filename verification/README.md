# Models and proofs for G-Kermit, vi and gwart

Three programs of the repository are modelled, each where its code is hardest.

**G-Kermit** (`gkermit/`) transfers files over a serial line. The model follows a
file all the way: read from disk (`TextMode`), encoded and cut into packets
(`Codec`, `Spelling`, `Packets`, `RoundTrip`, `Leftovers`, `Sender`), framed with a block check and parity (`Framing`,
`Port`, `Crc`, `Parity`), numbered, acknowledged and repeated by two ends that
run the same code (`Stations`, `Transaction`, `Protocol`), read from the line,
checked and decoded (`Port`, `Receiver`). `Negotiation` is the exchange of
parameters, `Offers` what other programs' parameters come to, and `Sizes` what it means
for packet lengths. `Returns` is text mode in full, `Cancelling` what becomes of files
given up on the way. The main results:

- *Data.* Every file comes back from its packets, each decoded on its own,
  exactly when the prefix characters differ and packets are not too small
  (`RoundTrip.FaithfulExactly`).
- *Frames.* Every packet the line can carry is read back as sent, behind any junk
  without start characters and ^C and whatever follows, exactly when the block check
  is of type 1 or no padding is asked for (`Framing.FramesFaithfulExactly`).
- *Transfers.* In every run of two ends over lines that lose, repeat, delay and
  damage packets, though not into other packets, and with timeouts at any moment,
  what is sent is the script of the files, and what the receiver stores is the sender's
  files, in order and whole, except that the
  last may be unfinished (`ProtocolProof.TransferIsFaithful`); and from every state a
  run can reach, as long as both programs run and the one that must speak next has a
  retry left, the transfer can still complete (`Delivery.TransferCanResume`).
- *Checks.* The nibble-wise CRC is division by x^16 + x^12 + x^5 + 1, and tells apart
  any two messages that differ only in two adjacent octets. Damage to two adjacent
  octets of a packet anywhere but in its start and length, the block check itself
  included, leaves exactly the packet sent or none (`Crc.CrcIsDivision`,
  `Crc.AdjacentOctetsDetected`, `Framing.DamageIsHarmless`).
- *Parameters.* Any two ends that exchange parameters agree on everything the
  data phase depends on (`Negotiation.EndsAgree`), and unless that is block check
  type 2 the packets that follow meet all conditions of the results above
  (`Sizes.NegotiatedConfigIsValid`).

**vi** (`vi/vi.c`) keeps a flat text buffer and sends the terminal only what has
changed. `Lines`, `View`, `FormatLine` and `Display` go from line movement to the
terminal: after a refresh that no key interrupts, each row is the visible part of
the line that belongs there and the cursor stands on its character. `TextBuffer`,
`Substitution` and `LineRanges` are the buffer changed in place and the command
`:b,e s/find/replace/g`; `Pairs` is the matching of brackets.

**gwart** (`gkermit/gwart.c`) turns an ordered list of rules into a table. `Gwart`
shows that the generated program does, for each state and input, what the first
matching rule says.

Where the source changes buffers and counters in place, so do the classes here;
each such method is proved against a function on values, and the lemmas are
about those functions. Octets are numbers from 0 to 255 and pointers are offsets.

What the code does that one might not expect, proved as stated:

- `getpkt()` needs room for two of the longest codes and one octet when run-length
  encoding is on, and for one code when it is off; below that a file loses octets,
  or its first packet is empty and taken for the end (`RoundTrip.FaithfulExactly`).
- The six cells `remain` is declared with hold every leftover exactly if run-length
  encoding and 8th-bit prefixing are not both on. If they are, some file leaves six
  octets over at every packet size, and the terminator needs a seventh cell
  (`Leftovers.SixCellsExactly`, `Leftovers.SixOctetsLeft`).
- A CR that text mode drops leaves its repeat count standing. A text file comes back
  less its CRs exactly if in no packet a counted run of CRs, of three or more, is
  followed, over single CRs only, by a single other octet; that octet is then repeated
  (`Returns.ReturnsAreDroppedExactly`).
- With block check 3, `spacket()` starts the CRC one octet into the buffer instead of
  behind the start character. With padding the CRC misses the end of the packet
  (`Framing.PaddedCrcMissesTheEnd`).
- `sndpkt` has room for every packet exactly as long as the padding the other end
  asks for and its packet length together are at most 9014; nothing checks this
  (`Sizes.SndpktSufficesExactly`).
- The README of G-Kermit says that ends which do not agree on the block check both
  fall back to type 1. They do exactly if it is not the receiver that prefers type 1:
  such a receiver takes over the sender's bid, of type 3 for example. Both ends use
  the same type in any case (`Negotiation.DisagreeingEndsFallBack`,
  `Negotiation.NoFallBackFromOne`).
- A sender that has been asked with X to give up one file never forgets it: all files
  behind are sent empty, and kept (`Cancelling.FilesBehindAreEmpty`).
- A receiver refuses a file by its attributes with a quotation mark. A sender looks
  for an N, so it sends the file all the same (`Transaction.AckFollowsScript`).
- With a tabstop of 1, `format_line()` can stop before it has reached the window. It
  draws every line correctly exactly if the offset is at most two more than
  the number of columns (`FormatLine.ExactForAllLines`).
- `text_hole_delete()` has a branch for ends in the wrong order. It does not make the
  text shorter (`TextBuffer.Buffer.HoleDelete`).
- In the last line `next_line()` goes to the final newline, and `:s` with a range
  beyond the last line does nothing there.
- An address beyond the last line makes `:s` start in the last
  line, and line 0 counts as line 1 without making the range shorter.
- `%` takes a NUL for half of a pair, as `strchr()` does.

## Model

| member | source | states |
|---|---|---|
| Codec.CodeParses | gkermit/gkermit.c:817-835 | the code of any octet is decoded to that octet, whatever follows it |
| Codec.UnitParses | gkermit/gkermit.c:795-835 | a run under its repeat count, or a single octet, is decoded to itself and leaves what follows alone |
| Codec.DecodeUnits | gkermit/gkermit.c:838-904 | decoding a list of encoded runs gives their text less the CRs text mode drops, without an error |
| Spelling.CodeHasNoMore | gkermit/gkermit.c:817-835 | a code has a prefix for each reason there is for one and no other: control characters and prefixes in use are quoted, the 8th bit is shifted out |
| Spelling.RunsCounted | gkermit/gkermit.c:795-816 | counted runs are of 3 to 94 octets, and only with run-length encoding on |
| Spelling.RunsAreWhole | gkermit/gkermit.c:795-816 | no run is broken up more than it has to be: neighbours of one octet are a full run of 94 and what goes on, or a pair |
| Spelling.BareCharacter | gkermit/gkermit.c:843-884 | a character that is no prefix stands for itself, bare control characters and NUL included, as the manual promises |
| Spelling.QuotedCharacter | gkermit/gkermit.c:870-879 | behind the control prefix 63 to 95 stand for the control characters, with either 8th bit, and all else for itself |
| Spelling.ShiftedCharacter | gkermit/gkermit.c:859-883 | the 8th-bit prefix sets the 8th bit of what follows, quoted or not |
| Spelling.CountedCharacter | gkermit/gkermit.c:845-858 | the repeat prefix gives what follows the count behind it, whatever the count |
| Spelling.TruncatedIsBroken | gkermit/gkermit.c:845-874 | a data field that ends within a code is reported |
| Packets.UnitsText | gkermit/gkermit.c:792-816 | the runs a file is cut into (at 94, pairs as singles) stand for exactly that file |
| Packets.EncodeEmits | gkermit/gkermit.c:795-836 | whenever encode() emits, it emits exactly the runs that have just ended |
| Packets.Overflow | gkermit/gkermit.c:804-810 | when a packet overflows, osize is at a boundary between codes: a broken pair may be divided, any other run moves whole |
| Packets.FillIsGreedy | gkermit/gkermit.c:743-771 | a packet holds exactly as many whole codes as fit, and the leftover is whole codes again |
| Packets.GetPktIsGreedy | gkermit/gkermit.c:722-772 | from any state getpkt() leaves behind, the next packet is again the longest possible one of what is owed |
| Packets.PacketsAreGreedy | gkermit/gkermit.c:722-772 | over a whole file the packets are the simple greedy cut of its runs: lookahead, leftover and moving osize make no difference |
| RoundTrip.CuttingKeepsTheCode | gkermit/gkermit.c:722-772 | the packets of a file, joined, are the code of the whole file |
| RoundTrip.FileRoundTrip | gkermit/gkermit.c:721-904 | decoding the packets one by one gives back the file (less the CRs text mode drops), each packet decodes, none is empty or over the limit |
| RoundTrip.SharedPrefixFails | gkermit/gkermit.c:817-834 | if one character serves as two prefixes, some file of one octet does not come back |
| RoundTrip.TooSmallForACode | gkermit/gkermit.c:761-769 | if a packet cannot hold the longest code, some file is sent as nothing |
| RoundTrip.TooSmallForAPair | gkermit/gkermit.c:743-771 | if it can, but is smaller than getpkt() needs, some file loses an octet |
| RoundTrip.FaithfulExactly | gkermit/gkermit.c:721-904 | every file comes back if and only if the prefixes in use differ and a packet has the room getpkt() needs |
| Sender.Packetizer.PutCode | gkermit/gkermit.c:817-835 | the in-place code of one octet is its code behind what xdata held |
| Sender.Packetizer.Encode | gkermit/gkermit.c:791-836 | encode() on xdata, size, osize and rpt does what the value model does, and the buffer is large enough |
| Sender.Packetizer.CopyIn | gkermit/gkermit.c:743-744 | the leftover, copied as a string, starts the packet and is then empty |
| Sender.Packetizer.CopyOut | gkermit/gkermit.c:765-768 | what is behind osize becomes the leftover, and the packet ends at osize; `remain` has its six cells, and one more only where both prefixes are on |
| Leftovers.CellsExactly | gkermit/gkermit.c:725-768 | at every packet size a buffer holds all leftovers of all files if and only if it has a cell for each octet of two of the longest codes (one without run-length encoding), and one more |
| Leftovers.SixCellsExactly | gkermit/gkermit.c:725 | the six cells declared are enough if and only if run-length encoding and 8th-bit prefixing are not both on |
| Leftovers.SixOctetsLeft | gkermit/gkermit.c:765 | a file whose leftover, with both on, takes all six cells, so that its terminator is outside |
| Sender.Packetizer.Feed | gkermit/gkermit.c:754-759 | one pass of the loop moves the lookahead on by one octet and encodes the current one |
| Sender.Packetizer.FillPacket | gkermit/gkermit.c:748-771 | the loop of getpkt() produces the packet and the leftover of the value model |
| Sender.Packetizer.GetPkt | gkermit/gkermit.c:721-772 | getpkt() on its buffers returns the size and content of the value model's packet |
| Sender.SendFile | gkermit/gkermit.c:472-489 | the sdata() calls of a file produce exactly the packets of the file as zgetc() delivers it |
| Receiver.Decoder.Write | gkermit/gkermit.c:889-901 | the output loop writes as many copies as the count says, none for a nonpositive count, and stops at a failing write |
| Receiver.Decoder.Character | gkermit/gkermit.c:843-884 | prefixes and character are taken off the front as the value model takes them, and it says when they break off |
| Receiver.Decoder.Decode | gkermit/gkermit.c:838-904 | decode() through its pointer and repeat count writes what the value model decodes, as far as the file takes it, and returns -1 exactly if the field breaks off or a write fails |
| TextMode.InputFile.FillText | gkermit/gunixio.c:1154-1165 | a refill takes a record or a line and loses nothing: buffer and rest together are the rest of the file with CR LF for LF |
| TextMode.InputFile.FillBinary | gkermit/gunixio.c:1166-1168 | a binary refill is the next part of the file |
| TextMode.InputFile.Zfillbuf | gkermit/gunixio.c:1151-1182 | the first character of what remains, or -1 at the end of the file only |
| TextMode.InputFile.Zgetc | gkermit/gkermit.h:200 | successive calls deliver the file, or in text mode the file with CR LF for LF, octet by octet |
| TextMode.CrLfPlaces | gkermit/gunixio.c:1162-1165 | in what is delivered of a file without CRs there is one in front of each LF and none elsewhere |
| TextMode.TextRoundTripExactly | gkermit/gunixio.c:1151-1182 | sent and received in text mode, a file comes back if and only if it holds no CR |
| TextMode.ReturnsAreDropped | gkermit/gkermit.c:885-901 | a file without three CRs in a row comes back less its CRs |
| TextMode.ReturnRunRepeatsNext | gkermit/gkermit.c:880-901 | a run of three or more CRs and one other octet: the octet comes out as often as there were CRs |
| Returns.ExcessExactly | gkermit/gkermit.c:842-901 | decoding a packet writes too much if and only if it holds a counted run of CRs followed, over single CRs only, by a single other octet |
| Returns.ReturnsAreDroppedExactly | gkermit/gkermit.c:838-904 | a file sent and received in text mode comes back less its CRs if and only if none of its packets is like that |
| Returns.NeverTooLittle | gkermit/gkermit.c:838-904 | if it does not, it comes back with something added, never with less, and without an error |
| Crc.Chk3 | gkermit/gkermit.c:705-719 | the loop computes the CRC fold of the octets (with parity, of their low seven bits) |
| Crc.NibbleIsFourBits | gkermit/gkermit.c:712-713 | four bits by one multiplication with 010201 are four steps of bitwise division |
| Crc.CrcIsDivision | gkermit/gkermit.c:705-719 | the nibble-wise CRC of a string is the remainder of its bits divided by x^16 + x^12 + x^5 + 1, low-order bits first |
| Crc.DivideLinear | gkermit/gkermit.c:705-719 | the remainder of the exclusive-or of two strings is the exclusive-or of their remainders |
| Crc.BurstDetected | gkermit/gkermit.c:705-719 | two bit strings of any length that differ only within 16 consecutive bits have different remainders |
| Crc.AdjacentOctetsDetected | gkermit/gkermit.c:705-719 | two messages that differ, but only within two adjacent octets, have different CRCs |
| Crc.LastOctetShows | gkermit/gkermit.c:705-719 | two messages that differ only in the last octet have CRCs that differ in the low twelve bits |
| Parity.ParityRoundTrip | gkermit/gunixio.c:292-311 | parity added and stripped gives back a character if and only if it has seven bits or there is no parity |
| Parity.EighthBit | gkermit/gunixio.c:298-309 | mark parity sets the 8th bit, space parity clears it, and no parity touches the other seven |
| Parity.FoldIsParity | gkermit/gunixio.c:304-306 | the three-step fold is zero if and only if the number of one bits is even |
| Parity.ParityIsParity | gkermit/gunixio.c:302-308 | with even parity every octet on the line has an even number of ones, with odd parity an odd number |
| Parity.ResendIsTheSame | gkermit/gunixio.c:796-799 | adding parity to a buffer that already has it changes nothing |
| Parity.EncodedIsPrintable | gkermit/gkermit.c:817-835 | with 8th-bit prefixing on, encoded data is printable seven-bit text |
| Framing.CheckFieldMatches | gkermit/gkermit.c:653-683 | the receiver accepts check characters for a text if and only if the text has the check value they were made from |
| Framing.OneBitShows | gkermit/gkermit.c:697-703 | check type 1 changes with every change of one bit, the two highest included, in a text of any length |
| Framing.FrameLayout | gkermit/gkermit.c:529-571 | where each octet of a packet stands, in either form: mark, length, number, type, long length to the base 95, header check, data, block check |
| Framing.FirstAckShort | gkermit/gkermit.c:529-559 | the acknowledgement of packet 0 with block check 1, octet by octet |
| Framing.FirstAckCrc | gkermit/gkermit.c:565-570 | and with block check 3 |
| Framing.JunkIsSkipped | gkermit/gunixio.c:707-720 | ttinl() skips anything free of the start character and ^C |
| Framing.ThreeInterrupt | gkermit/gunixio.c:707-720 | as long as no packet starts, ttinl() is interrupted if and only if there are three ^C in a row |
| Framing.TooLongOverflows | gkermit/gunixio.c:723-728 | a packet longer than the buffer is given up |
| Framing.FrameLength | gkermit/gunixio.c:737-757 | by ttinl()'s length arithmetic a frame, short or long, is complete at its last octet and not before |
| Framing.FrameIsRead | gkermit/gunixio.c:618-759 | through junk before and anything behind, ttinl() stops exactly at the end of the block check and hands over the frame |
| Framing.HeaderParses | gkermit/gkermit.c:617-651 | rpacket() finds in either form of header the length spacket() put there |
| Framing.ParseFrame | gkermit/gkermit.c:598-686 | a frame is accepted with its type, number and data if and only if the check over its body matches, whatever the buffer holds behind it |
| Framing.FrameRoundTrip | gkermit/gkermit.c:522-686 | rpacket() returns type, number and data of what spacket() framed |
| Framing.AcceptedExactly | gkermit/gkermit.c:616-685 | conversely, with the length fields of a packet rpacket() accepts type, number and data if and only if what it got is that packet up to a matching block check |
| Framing.MalformedIsBad | gkermit/gkermit.c:610-636 | runts, impossible lengths and a wrong header check are reported as 'Q' |
| Framing.PaddedCrcMissesTheEnd | gkermit/gkermit.c:565-566 | with padding two packets that end differently carry the same CRC |
| Framing.FramesFaithfulExactly | gkermit/gkermit.c:522-686 | every packet the line carries is taken off the line whole, behind any junk and before anything, and examined as sent, if and only if the check is of type 1 or there is no padding |
| Framing.DamageIsRejected | gkermit/gkermit.c:670-680 | with the CRC, damage within two adjacent octets of what it covers, the length apart, makes rpacket() report 'Q' |
| Framing.OneBitIsRejected | gkermit/gkermit.c:654-661 | with block check 1, a change of one bit in type, number or data makes rpacket() report 'Q' |
| Framing.OtherCheckIsRejected | gkermit/gkermit.c:654-661 | and so does any change of the check character |
| Framing.StraddlingDamage | gkermit/gkermit.c:670-680 | so does damage to the last octet before the check together with the first of the check, unless the packet is as sent |
| Framing.DamageIsHarmless | gkermit/gkermit.c:598-686 | damage to two adjacent octets anywhere but in the start character and the length leaves exactly the packet sent, or 'Q' |
| Framing.DamagedIsRead | gkermit/gunixio.c:618-759 | such damage, ^C included, does not upset the framing: ttinl() still takes in the whole packet |
| Port.ChkSum | gkermit/gkermit.c:688-695 | the loop computes the masked sum of the octets |
| Port.PacketPort.Build | gkermit/gkermit.c:529-574 | spacket() leaves padding, frame, terminator and a NUL in sndpkt, for both forms and both block checks, if they have room in its 9016 octets |
| Port.PacketPort.SPacket | gkermit/gkermit.c:522-579 | the line gets exactly that packet with parity, and sndpkt keeps it as sent |
| Port.PacketPort.Ttol | gkermit/gunixio.c:796-799 | parity goes into the buffer itself and onto the line: every 8th bit set with mark, clear with space, and the other bits as they were |
| Port.PacketPort.Resend | gkermit/gkermit.c:591 | sending sndpkt again puts the same octets on the line as before |
| Port.PacketPort.Measure | gkermit/gunixio.c:737-751 | the variables havelen, pktlen and lplen always hold what the collected octets announce |
| Port.PacketPort.TtInl | gkermit/gunixio.c:618-783 | the reading loop ends as the value model says: packet, silence, overflow or interrupt, with the unread rest of the line |
| Port.PacketPort.CheckBlock | gkermit/gkermit.c:645-683 | the block check is copied, cut off and compared in place, with the verdict of the value model |
| Port.PacketPort.Examine | gkermit/gkermit.c:616-685 | rpacket()'s verdict on a received packet: 'Q', or type, number and data |
| Port.PacketPort.RPacket | gkermit/gkermit.c:598-686 | one packet read from the line and examined |
| Negotiation.Negotiator.RPar | gkermit/gkermit.c:1000-1053 | the fields rpar() leaves as a string are the offer of this end's settings |
| Negotiation.Negotiator.SetEighth | gkermit/gkermit.c:930-938 | the switch on rqf decides 8th-bit prefixing as the value model does |
| Negotiation.Negotiator.SetChecks | gkermit/gkermit.c:939-950 | block check and repeat prefix after a received offer |
| Negotiation.Negotiator.SetFeatures | gkermit/gkermit.c:951-997 | capabilities, long packet length, streaming and the recognised system after a received offer |
| Negotiation.Negotiator.SPar | gkermit/gkermit.c:906-998 | all parameters after a received offer, of any length and content |
| Negotiation.OfferFields | gkermit/gkermit.c:1000-1053 | each field of an offer is read by spar() as rpar() meant it |
| Negotiation.OfferAdopted | gkermit/gkermit.c:906-1053 | what an end takes over from the other's offer |
| Offers.EmptyOffer | gkermit/gkermit.c:912-950 | from no fields at all come the defaults: 80, 5 seconds, no padding, CR, #, no 8th-bit and repeat prefix, check 1 |
| Offers.NineFieldsAdopted | gkermit/gkermit.c:912-950 | the nine fields of any other program's offer are understood one by one; what is out of range gives way to its default |
| Offers.EighthBitBid | gkermit/gkermit.c:930-938 | 8th-bit prefixing is on if the other end demands it, or agrees to a demand, with the prefix the other end names |
| Offers.AdoptIsUsable | gkermit/gkermit.c:906-967 | whatever field list comes, lengths, terminator, prefixes and block check are in range afterwards |
| Offers.CapabilitiesAdopted | gkermit/gkermit.c:952-960 | attributes and long packets are read from the first octet of the capability mask, however long it is |
| Offers.LongLengthAdopted | gkermit/gkermit.c:961-967 | the long packet length is read behind the whole mask, to the base 95, with its limits |
| Offers.FeaturesLearned | gkermit/gkermit.c:952-1052 | any two ends agree on attributes and long packets; streaming and binary mode between peers are learned only from an end that receives more than 94 octets; both use a timeout of 7 seconds |
| Negotiation.RunExchange | gkermit/gproto.w:63-153 | two ends that run rpar() and spar() in turn on their own variables arrive at the outcome of the exchange |
| Negotiation.EndsAgree | gkermit/gkermit.c:906-1053 | after the exchange both ends have the same block check and prefixes, distinct and in range; which block check, for any preferences; 8th-bit prefixing is on at both if and only if one uses parity; each may send what the other can receive |
| Negotiation.DisagreeingEndsFallBack | gkermit/gkermit.c:939-945 | ends with different preferences fall back to type 1, as the manual promises, if and only if the receiver's preference is not type 1 |
| Negotiation.NoFallBackFromOne | gkermit/gkermit.c:944-945 | a sender that prefers type 3 and a receiver that prefers type 1 both end with type 3 |
| Sizes.RoomAfterNegotiation | gkermit/gkermit.c:391-392 | any configurable receive length leaves getpkt() the room it needs |
| Sizes.PacketFits | gkermit/gkermit.c:540-574 | a packet with at most maxsiz octets of data keeps within the other end's limit and fits both buffers |
| Sizes.FullPacket | gkermit/gkermit.c:391-392 | a full data packet uses all of a limit beyond 99, all but one octet of a limit up to 94, and all but five in between |
| Sizes.SndpktSufficesExactly | gkermit/gkermit.c:158 | sndpkt has room for all packets of a packet length if and only if padding and length leave room for the terminators |
| Sizes.DataPacketsFit | gkermit/gkermit.c:472-489 | every data packet of every file between any two ends has 1 to maxsiz octets, and with block check 1 or 3 keeps within the receiver's limit and fits both buffers |
| Sizes.NegotiatedConfigIsValid | gkermit/gkermit.c:906-1053 | what any two ends agree on meets all conditions under which files are transferred faithfully, if and only if it is not block check type 2 |
| Stations.WireIsHeard | gkermit/gkermit.c:598-686 | a packet put undamaged on the line is heard with its type, number and data, and in no other way |
| Stations.FirstAckOnTheLine | gkermit/gkermit.c:529-575 | the acknowledgement of packet 0, octet by octet, with its terminator |
| Stations.SmallDamageIsHarmless | gkermit/gkermit.c:598-686 | damage within two adjacent octets off the start and the length is never heard as another packet |
| Stations.GivesUpAtTheEleventh | gkermit/gkermit.c:581-596 | ten unacceptable arrivals make the packet go out again unchanged ten times; the eleventh ends the program with an error packet |
| Stations.Station.SendAgain | gkermit/gkermit.c:581-596 | resend() counts, and sends the last packet, a NAK if there was none, or the error |
| Stations.Station.SendNak | gkermit/gkermit.c:316-328 | nak() counts, and sends a NAK or the error |
| Stations.Station.Ack1 | gkermit/gkermit.c:299-314 | ack() sends the acknowledgement under the current number and goes on to the next, mod 64 |
| Stations.Station.Input | gkermit/gkermit.c:253-291 | input() answers each unacceptable report by sending again and stops at the first acceptable one, or when the program ends |
| Protocol.SenderRepeats | gkermit/gkermit.c:276-284 | silence, damage, a NAK or a packet of another number make the sender send its packet again, unchanged, up to ten times |
| Protocol.ReceiverRepeats | gkermit/gkermit.c:276-284 | they make the receiver send its acknowledgement again, or a NAK if it has sent nothing yet |
| Protocol.ReceiverAcknowledges | gkermit/gkermit.c:299-314 | a packet that is accepted is acknowledged with a Y under its number, and the next number is waited for |
| Transaction.AckFollowsScript | gkermit/gproto.w:83-141 | unless an acknowledgement objects, the packet that follows is the next of the script: for each file header, attributes if agreed on, data, end; then the end of all |
| Transaction.ScriptStarts | gkermit/gproto.w:68-82 | the first packet is the first of the script |
| Cancelling.RefusedFile | gkermit/gproto.w:101-104 | a file refused with N is ended with a discard and leaves no trace |
| Cancelling.CancelledFile | gkermit/gproto.w:117-130 | so is one cancelled with X or Z, but the flag stays |
| Cancelling.CancelledBatch | gkermit/gkermit.c:1073-1083 | after Z no further file is sent |
| Cancelling.FilesBehindAreEmpty | gkermit/gkermit.c:472-489 | after X every further file is announced, described and ended at once without a discard, and a receiver keeps it, empty |
| Cancelling.TakesExactly | gkermit/gproto.w:155-207 | the receiver takes a transmission if and only if header, attributes, data and ends follow each other as they should and all data decodes |
| Cancelling.EndOfFile | gkermit/gproto.w:182-207 | a file ended with a discard is dropped, any other kept under its name with all that was decoded |
| Transaction.FilePromises | gkermit/gkermit.c:370-395 | the packets of a file that is opened can be framed, and decode to the file |
| Transaction.PromiseKept | gkermit/gkermit.c:472-489 | after each of them the rest decode to the rest of the file |
| Transaction.DataAdvances | gkermit/gproto.w:101-130 | the sender's next data or EOF packet is one the receiver's rules accept, and then files sent and stored still add up |
| Transaction.FileAdvances | gkermit/gproto.w:131-140 | so is the next file header, or the end of the transmission |
| Transaction.AckAdvances | gkermit/gproto.w:83-141 | after every acknowledgement the sender has a packet for which the receiver is ready, and delivering it restores the balance of files |
| ProtocolProof.AckMeansCaughtUp | gkermit/gkermit.c:276-284 | an acknowledgement with the right number mod 64 is never an old one: the receiver has the current packet |
| ProtocolProof.SenderWaits | gkermit/gkermit.c:277-284 | resending keeps the invariant |
| ProtocolProof.ReceiverWaits | gkermit/gkermit.c:277-284 | so does the receiver's answer to a repeated, damaged or missing packet |
| ProtocolProof.SenderAccepts | gkermit/gproto.w:83-141 | so does an accepted acknowledgement |
| ProtocolProof.ReceiverAccepts | gkermit/gproto.w:155-205 | so does an accepted packet, which is always the sender's current one |
| ProtocolProof.LineKeeps | gkermit/gkermit.c:598-686 | so do loss, repetition, and damage that does not make another packet, on either line |
| ProtocolProof.StepKeeps | gkermit/gkermit.c:253-328 | every step of the whole system keeps the invariant |
| ProtocolProof.RunSafe | gkermit/gkermit.c:253-328 | every state of every run satisfies it |
| ProtocolProof.TransferIsFaithful | gkermit/gproto.w:83-207 | in every run the packets sent are those of the script, up to where the sender is, those accepted are those sent, in order, each once, except perhaps the last; the files stored are a prefix of the files sent, the open one the beginning of the next; if either end has finished, all are stored, and if the sender has, the whole script has been sent and accepted (in text mode, for files without CR) |
| Delivery.Nearer | gkermit/gproto.w:83-141 | each acknowledged packet brings the end of the transmission nearer |
| Delivery.TransferCanStart | gkermit/gproto.w:68-82 | every list of files, under any agreed parameters and packet number, is a possible beginning of a run |
| Delivery.TransferCanFinish | gkermit/gproto.w:83-205 | from every beginning there is a run that ends with both programs finished and every file stored |
| Delivery.TransferCanResume | gkermit/gkermit.c:253-328 | from every state any run reaches with both programs running, and a retry left to the one that must speak next, there is a continuation that ends with both finished and every file stored |
| Lines.EndLineSpec | vi/vi.c:1696-1704 | end_line() is the newline of the same line |
| Lines.BeginLineSpec | vi/vi.c:1685-1694 | begin_line() is the start of the same line |
| Lines.NextLineSpec | vi/vi.c:1724-1730 | next_line() goes to the start of the following line, and in the last line to its newline |
| Lines.PrevLineSpec | vi/vi.c:1715-1722 | prev_line() goes to the start of the line before, and stays in the first |
| Lines.CountLines | vi/vi.c:1747-1766 | the loop counts the lines that two positions, in any order, span |
| Lines.FindLine | vi/vi.c:1768-1776 | the loop makes that many line steps from the start |
| Lines.FindCounted | vi/vi.c:1747-1776 | find_line() of the number count_lines() gives a position is the start of its line |
| Lines.CountFound | vi/vi.c:1747-1776 | count_lines() at the line find_line() finds is the number asked for |
| Lines.LineNumberRoundTrip | vi/vi.c:1747-1776 | both ways round, by the loops themselves |
| View.BottomSpec | vi/vi.c:1733-1744 | a line is below the screen if and only if it starts behind end_screen() |
| View.Window.EndScreen | vi/vi.c:1733-1744 | the newline of the last line shown |
| View.Window.ShowLine | vi/vi.c:1596-1627 | wherever the screen began, even within a line, the cursor line is on it afterwards; the screen moves by as little as it can up to half its height, otherwise so that the line is in the middle; if the line was on it, not at all |
| View.Window.FindRow | vi/vi.c:1629-1634 | the row found is the distance in lines, within the screen |
| View.Window.FindColumn | vi/vi.c:1637-1652 | the column of a position: the width of what stands before it in its line |
| View.Window.SyncCursor | vi/vi.c:1590-1682 | row below rows-1 and stepping that many lines from the top reaches the line; the column is in the window; both scroll as far as they must: off to the left it becomes column 0, to the right the last; nothing moves that need not |
| FormatLine.Formatter.PutChar | vi/vi.c:3171-3193 | a character adds its cells at a column, wherever the discarded part began |
| FormatLine.Formatter.Drop | vi/vi.c:3196-3200 | discarding a tabstop's worth keeps the rest of the cells in place |
| FormatLine.Formatter.TakeLine | vi/vi.c:3168-3203 | the main loop leaves in the buffer the cells of what it has read, less what it discarded |
| FormatLine.Formatter.Finish | vi/vi.c:3204-3213 | the last discard and the padding leave the visible part |
| FormatLine.Formatter.FormatLine | vi/vi.c:3159-3214 | within scr_out_buf the row is the visible part of the cells the loop has read, also in the short line, gigantic offset case |
| FormatLine.DrawnIsRow | vi/vi.c:3159-3214 | that is: the whole line expanded, offset columns dropped, columns taken, padded with spaces; behind the text a tilde |
| FormatLine.GlyphMeans | vi/vi.c:3174-3193 | a tab is spaces up to the next tabstop, a control character a caret and what ctl() makes of it, an octet the terminal cannot print a dot |
| FormatLine.FillerRow | vi/vi.c:3166-3213 | behind the text a row is a tilde in column 0 and blank |
| FormatLine.ExactForAllLines | vi/vi.c:3196-3200 | it is so for all lines if and only if the tabstop is 2 or more or the offset is at most columns + 2 |
| FormatLine.CursorIsOnItsCharacter | vi/vi.c:1636-1678 | the cell in the column sync_cursor() computes for a position is the first cell drawn for its character |
| Display.Screen.Differences | vi/vi.c:3252-3272 | the two columns found are the first and the last difference, and it says whether there is any |
| Display.Screen.Send | vi/vi.c:3286-3298 | virtual screen and terminal change alike, in these columns only |
| Display.Screen.UpdateRow | vi/vi.c:3251-3299 | afterwards row and terminal row are the formatted row, and no other row has changed; sent is what lies between first and last difference, the whole row if only the offset has changed, or else nothing |
| Display.Screen.DrawRows | vi/vi.c:3235-3300 | a key pressed at any row ends the loop; rows before it show their lines, rows behind it are as they were; nothing is sent for a screen that is right |
| Display.Screen.Refresh | vi/vi.c:3221-3307 | the terminal always equals the virtual screen, interrupted or not; rows drawn are the right ones; the cursor is placed for dot |
| Display.RowStartIsStep | vi/vi.c:3244-3249 | the positions the loop goes through are the lines next_line() steps to |
| Display.WholeTextShown | vi/vi.c:3221-3307 | after an uninterrupted refresh every row of the terminal is the text line or the tilde that belongs there |
| Display.CursorShown | vi/vi.c:3221-3307 | and the terminal's cell under the cursor is the first cell of dot's character |
| TextBuffer.SpanEndSpec | vi/vi.c:2289-2301 | with dist <= 0 the span ends at the end of the line if that comes first |
| TextBuffer.Buffer.HoleMake | vi/vi.c:2220-2239 | spaces come in at the position and nothing else changes, also when the buffer grows |
| TextBuffer.Buffer.HoleDelete | vi/vi.c:2242-2273 | exactly the span goes, or nothing if it is not inside the text; the position returned is inside what is left. With the ends swapped the octets move down, but the text gets no shorter |
| TextBuffer.Buffer.Yank | vi/vi.c:2393-2411 | the copying loop leaves the span, up to its first NUL, in the register |
| TextBuffer.Buffer.YankDelete | vi/vi.c:2278-2310 | ends in either order: the register holds the span, trimmed at a newline if so asked, the text is unchanged around it, and the position returned is the start of the span, or the last of the text if nothing is left behind it |
| TextBuffer.Buffer.StringInsert | vi/vi.c:2374-2389 | the string comes in at the position and nothing else changes |
| TextBuffer.Buffer.DeleteAndPutBack | vi/vi.c:2278-2389 | deleting and inserting the register at the position returned restores the text, if it has no NUL; only behind a span that reached the end it is one place on |
| Substitution.CharSearch | vi/vi.c:1915-1942 | the nearest match in the range and direction, or that there is none |
| Substitution.SearchInLine | vi/vi.c:1474 | a search limited to the line finds the first match in the rest of the line and none beyond |
| Substitution.ReplacedFromLeftToRight | vi/vi.c:1473-1487 | with g exactly the matches are replaced that are found from left to right without overlap |
| Substitution.OnlyTheFirst | vi/vi.c:1473-1487 | without g exactly the first of them is |
| Substitution.AlikeExactly | vi/vi.c:1903-1912 | case counts, or letters of either case are the same and nothing else is |
| Substitution.PlacesExist | vi/vi.c:1473-1487 | each line has such places |
| Substitution.ReplacedByItself | vi/vi.c:1473-1487 | replacing a pattern by itself changes nothing if case counts |
| Substitution.ReplacedKeepsTheLine | vi/vi.c:1473-1487 | a line stays one line |
| Substitution.SubstituteOnce | vi/vi.c:1474-1479 | the first match behind q is cut out and the replacement put in its place, or nothing changes |
| Substitution.SubstituteNext | vi/vi.c:1473-1487 | the search goes on behind the replacement, within the line, or the line is done |
| Substitution.SubstituteLine | vi/vi.c:1472-1487 | the loop ends even if the replacement contains the pattern, and has replaced in this line and nowhere else |
| LineRanges.UnlinesLines | vi/vi.c:1696-1704 | a text is determined by its lines |
| LineRanges.LinesCounted | vi/vi.c:1747-1766 | the number of its lines is what count_lines() counts |
| LineRanges.Exchanged | vi/vi.c:1472-1488 | exchanging what stands between a line's start and its newline changes this line and no other |
| LineRanges.RoundOnLines | vi/vi.c:1471-1489 | a round substitutes one line, or nothing when the lines are used up |
| LineRanges.FirstLineFound | vi/vi.c:1464-1468 | the line an address stands for: given, missing, 0 or beyond the text |
| LineRanges.Addressed | vi/vi.c:1190-1198 | first line and number of rounds from any combination of addresses |
| LineRanges.RangeMeans | vi/vi.c:1464-1471 | with addresses b and e of lines that exist the range is the lines b to e; with one it is that line, with none the current; and what other addresses come to |
| LineRanges.Substitute | vi/vi.c:1464-1489 | the command substitutes exactly the lines of the range; no other line changes and none is added or lost |
| Pairs.FindPair | vi/vi.c:2189-2217 | the nearest position at which the nesting level is back to zero, or that there is none |
| Pairs.PairedBack | vi/vi.c:2189-2217 | from the match the search leads back, if and only if it started at a bracket |
| Pairs.PairedOnce | vi/vi.c:2189-2217 | no position has two matches |
| Pairs.PairsNest | vi/vi.c:2205-2213 | pairs of one kind of bracket never cross |
| Pairs.KindsCross | vi/vi.c:2205-2213 | pairs of different kinds may |
| Pairs.Percent | vi/vi.c:3580-3595 | % goes to the match of the first half of a pair in the rest of the line, or fails if there is none |
| Pairs.PercentTwice | vi/vi.c:3580-3595 | from a bracket with a match % twice leads back |
| Gwart.BitAdds | gkermit/gwart.c:144-150 | setting a state's bit adds the state to the set and no other, for all 56 bits |
| Gwart.Trans.SetWState | gkermit/gwart.c:144-150 | the same, in the node |
| Gwart.Faction | gkermit/gwart.c:375-384 | walking the linked list gives the number of the first matching rule, or -1 if none matches |
| Gwart.StateList | gkermit/gwart.c:324-338 | the node gets exactly the states named; any other token, or an unknown name, is fatal |
| Gwart.Append | gkermit/gwart.c:306-310 | the list is the old one with the rule at its end |
| Gwart.RdRules | gkermit/gwart.c:281-317 | the list holds the rules of the text in their order, numbered from 1, or the error is fatal |
| Gwart.RulesRead | gkermit/gwart.c:281-338 | any list of rules, written out with known state names, is read as these rules |
| Gwart.RulesWritten | gkermit/gwart.c:281-338 | and whatever is read without error is a list of rules as they are written, up to an unfinished state list at the end |
| Gwart.EmptyTbl | gkermit/gwart.c:390-394 | all rows but the last are emptied |
| Gwart.AddAction | gkermit/gwart.c:400-403 | one cell changes and no other |
| Gwart.FillTable | gkermit/gwart.c:448-451 | every cell for a character holds the first matching rule, and the first column none |
| Gwart.DispatchIsFirstMatch | gkermit/gwart.c:126-137 | for each state and input the generated program does what the rules say if and only if the rule's number fits into a short |
| Gwart.Compile | gkermit/gwart.c:427-456 | the whole of gwart, from tokens to a generated table that does what the first matching rule says, with no action for inputs outside 33..127 |

## Left out

- Streaming mode of input(): it presumes a reliable line and has no recovery.
- Block check type 2: the receiver compares a 12-bit value with an unmasked sum, so it fails once the sum exceeds twelve bits.
- getpkt() on strings in memory, and file names (zltor, zrtol, zbackup): platform characters and file-system calls. File names, attributes and messages travel as given data fields.
- The I and S packets and the moment the parameters change: runs start when both ends have them, and `Negotiation` is about the exchange itself.
- The contents of attribute packets (gattr), and file open, write and close errors.
- Timeouts, read and write calls, and terminal modes: an end may time out at any moment; a line that fails ends the program.
- ttflui() after each good packet: it can lose what is on the line, which the lines of `Protocol` may do anyway.
- Damage that turns a packet into another one with a matching block check: the lines of `Protocol` do not do this. `Stations.SmallDamageIsHarmless` shows which damage never does.
- Port.PacketPort.CheckBlock: a length that would make rpacket() look outside its buffer makes the packet bad; the source reads what is there.
- Port.PacketPort.Build: asks for room in sndpkt, which the source does not check; `Sizes.SndpktSufficesExactly` says when there is.
- Stations.Station.Input: the start states, the streaming branch and ttflui() are not part of it.
- Parity is taken to be the same at both ends of the line, as the modem settings are; the ends may differ in whether they know of it only in `Negotiation`.
- Debug output, the command line, and receiving into memory.
- vi: files, keys, modes, marks, named registers, undo of a line, the status line, window resizing, and do_cmd() but for %.
- TextBuffer.Buffer.StringInsert: speaks of positions. The source goes on using a pointer after the buffer has moved, which this does not show; the same holds of the members that insert.
- TextBuffer.Buffer.DeleteAndPutBack: speaks of positions for the same reason.
- FormatLine.Formatter.FormatLine: asks that a row has room in scr_out_buf. With a tabstop of 1 and more than 2079 columns the source may write behind it.
- vi: which characters with the 8th bit are printable is a set the terminal gives; the terminal is a grid of cells that takes octets where they are sent.
- vi: the parts of a colon command are given, not parsed; a pattern or replacement holds no newline, because the line typed ends with it.
- gwart: characters become tokens outside the model, the actions between the rules are left out, and the symbol table is a map. At most 49 states, as the table has room for.
