# Conpot protocol logic, modelled and proved in Dafny

Conpot is a honeypot that imitates industrial devices. This project models the parts of it that carry
their own logic, and proves what they are for:

* the Kamstrup meter protocol: the server's in-place stream parser, the response serializer, the
  register lookup and connection loop, the proxy's byte-at-a-time decoder, and the prober that clones a
  meter (`Common`, `Bytes`, `Stuffing`, `Kamstrup*.dfy`);
* IPMI 2.0 sessions: AES padding, RMCP+ framing (IPMI v2.0, section 13), message checksums, whole
  sessions, the outgoing queue, and the user tables (`Ipmi*.dfy`);
* dependency-ordered compilation of SNMP MIBs (`MibCompiler.dfy`);
* HTTP chunked transfer encoding, against a decoder written from section 4.1.3 of RFC 7230
  (`ChunkedTransfer.dfy`);
* the S7 / COTP / TPKT stack and its handshake: section 6 of RFC 1006, section 13 of RFC 905 (`Tpkt`,
  `Cotp`, `S7`, `S7Handshake.dfy`);
* the SNMP request throttle and the event log of an attack session (`SnmpEvasion`, `AttackSession.dfy`).

`dafny verify dfyconfig.toml` checks everything.

## How the source is modelled

Classes whose methods update fields are classes; loops are loops. Every such method is proved equal to a
specification function of its old state, and the results about whole runs are lemmas about those
functions. A Python exception is an outcome (`Raised`, `Failed`, `None`, `Refused`, `Crashed`, ...), and
the state left behind by it is part of the specification. Bytes and 16-bit words are subset types of
`int`; wrap-around, shifts and masks are written out with `/` and `%`.

CRC-16, HMAC and AES are parameters. The theorems hold for every checksum function, for every HMAC with
a 20-byte digest, and for every cipher that keeps the length of whole blocks and inverts itself on them
(`Suite.Lawful`). The databus is a function from keys to integers, read at one moment. Clocks, random
IVs, template contents and names found by regular expressions are parameters.

## What turned out to be conditional

Several properties the source aims for hold only under a condition. The code is modelled as it is, and
the exact condition is proved.

* `get_request` rescans bytes it has already unescaped. A request cut into reads comes through if and
  only if every cut is harmless (`ReadsIff`): what has been received, unescaped, holds no ESCAPE or EOT,
  and does not end inside an escape pair. `CutInsideEscape` is a cut that is not. After a failed checksum
  it drops the frame and falls through, reading the bytes behind it as a request; `Finish` keeps that.
* The server's parser and the proxy's decoder read the same ids if and only if those a request declares
  reach neither past the frame nor into the last three buffered bytes (`ParserAgreesWithDecoder`,
  `ChecksumTakenForId`).
* The decoders drop what follows an EOT in the same chunk, so cutting a stream is invisible if and only
  if no byte comes in a chunk behind the one that completes a message (`CutsInvisibleIff`,
  `SecondMessageIsDropped`).
* A request for another meter ends the answering of a read; what is behind it waits for the next one. All
  are answered if and only if none is left by the last (`ServePipelined`, `ConnectionServes`,
  `AllAnsweredIff`).
* The prober takes a reply of at most 12 bytes for "not found", so it never sees a register shorter than
  two bytes (`ReadAnswer`).
* A packet whose sequence number goes back closes an IPMI session; an equal number is accepted again
  (`SessionDelivers`, `BackAndAgain`); so it is in IPMI 1.5 too (`SessionDelivers15`).
* The outgoing queue of an IPMI session keeps its order if nothing is submitted while others wait and
  nothing is outstanding, and only then; a message received in between can bring that about
  (`QueueInOrderIff`, `MessageLetsOvertake`).
* The user tables of a template agree if and only if no new name stands where some of its lists of texts
  reach and others do not (`ConfiguredIffCovered`). Renaming an IPMI user to another user's name deletes a
  user, as a TODO in the source says (`RunKeepsUsers`, `RenameLosesUser`), and moves the users behind it to
  the flags of others (`FlagAfterCollision`, `FlagAfterRun`), so that a disabled user can find itself
  enabled (`CollisionEnablesThird`).
* `compile_mib` promises to compile a MIB "if it is found"; the code raises a KeyError if it is not,
  appends a duplicate if the MIB was compiled before, and does not return if a cycle can be reached
  (`CompileMib`, `NoDuplicates`, `TerminatesIffAcyclic`, `MutualImportsDoNotEnd`).
* `send_chunked` is decoded back if and only if the configured widths are all positive and together no
  longer than the payload (`RoundTripIffFits`, `WidthsThatDoNotFit`).
* `TPKT.parse` takes up to four bytes of the next packet into the payload (`PayloadIffAlone`);
  `COTP.parse` wants three bytes even of packets that have two (`OtherRoundTrip`, `TwoBytesDoNotParse`);
  a parsed S7 PDU with a result header cannot be packed again, because `parse` stores a tuple
  (`RepackIffNoResult`, `ResponseDoesNotRepack`).
* An SNMP threshold holds in every minute that no clock going back has reopened (`ThrottleHolds`). Where
  the other one is wide enough for the minute, it holds if and only if there were no more requests than it
  allows or the minute was not reopened (`ThrottleIff`, `ClockMustNotGoBack`). Under any clock and all
  thresholds, what a client gets through is a sum over the times the minute was opened (`PassedInMinute`,
  `ThrottleTimesOpenings`).
* docs/source/usage/usage.rst:175-200 says a threshold counts the requests of its own command. The four
  responders share one table in which the command is not recorded, so a threshold also counts the others':
  `SharedCounters` and, for all thresholds while the clock does not go back, `DocumentedIff` say exactly
  when that shows, and `CommandsShareCounters` is a case.
* The event log is in order if and only if no event is filed under a free millisecond before the newest
  one (`InOrderIffNoGaps`, `ClockGoesBack`).

## Model

| member | source | states |
|---|---|---|
| Stuffing.StuffedBytesAreClean | conpot/protocols/kamstrup/meter_protocol/messages.py:103-115 | a stuffed message contains no EOT, no magic byte and no 0x06; of the reserved bytes only ESCAPE occurs |
| Stuffing.ScanFrame | conpot/protocols/kamstrup/meter_protocol/decoder_382.py:73-109 | the first unescaped EOT of a frame is its last byte, whatever follows, and unescaping up to it gives the magic and the body |
| Stuffing.ScanConcat | conpot/protocols/kamstrup/meter_protocol/decoder_382.py:73-109 | scanning a concatenation is scanning the first part and going on from where it stopped, even inside an escape pair |
| KamstrupMessages.ParseRegisterBytes | conpot/protocols/kamstrup/meter_protocol/messages.py:67-73 | the ids read are the big-endian pairs behind the count; the count test raises, and being too weak leaves the remaining short lists to an IndexError |
| KamstrupMessages.Escape | conpot/protocols/kamstrup/meter_protocol/messages.py:103-115 | the loop stuffs everything but the first and last byte |
| KamstrupMessages.SerializeMessage | conpot/protocols/kamstrup/meter_protocol/messages.py:81-101 | the result is a frame: response magic, stuffed address, message and checksum, EOT |
| KamstrupMessages.AppendValue | conpot/protocols/kamstrup/meter_protocol/messages.py:141-150 | the little-endian shift loop and the reversing loop together append the big-endian low bytes of the value, negative ones in two's complement |
| KamstrupMessages.ReversedLittleEndian | conpot/protocols/kamstrup/meter_protocol/messages.py:141-150 | reversing the little-endian bytes gives the big-endian bytes |
| KamstrupMessages.ResponseRegister.AddRegister | conpot/protocols/kamstrup/meter_protocol/messages.py:123-124 | appends the register |
| KamstrupMessages.ResponseRegister.Serialize | conpot/protocols/kamstrup/meter_protocol/messages.py:126-154 | the bytes are the frame of all register records in order |
| Bytes.SumShifted | bin/kamstrup_prober.py:128-130 | the sum of shifted bytes is the big-endian number of the slice |
| Bytes.BigEndianRoundTrip | bin/kamstrup_prober.py:128-130 | reading the low n bytes of any integer gives it modulo 256^n |
| KamstrupProber.InsertEscapes | bin/kamstrup_prober.py:57-65 | the insert-while-indexing loop leaves the first byte and stuffs the others, as the list-building escape does |
| KamstrupProber.RemoveEscapes | bin/kamstrup_prober.py:77-86 | the delete-and-xor loop drops every ESCAPE and flips its byte; a trailing ESCAPE raises |
| KamstrupProber.EscapingRoundTrip | bin/kamstrup_prober.py:57-86 | the delete-and-xor loop undoes the insert loop on every message that does not begin with ESCAPE |
| KamstrupProber.UnescapeFrame | bin/kamstrup_prober.py:79-86 | unescaping a whole frame gives magic, body and EOT |
| KamstrupProber.BuildRequest | bin/kamstrup_prober.py:52-66 | the bytes sent are the request frame for that register id |
| KamstrupProber.InterpretReply | bin/kamstrup_prober.py:121-145 | which fields of a reply are taken for units, length, unknown byte and value, when it counts as not found, and when an index runs off it |
| KamstrupRequestParser.RequestParser.AddByte | conpot/protocols/kamstrup/meter_protocol/request_parser.py:36-37 | appends to the buffer and changes nothing else |
| KamstrupRequestParser.RequestParser.ScanBuffer | conpot/protocols/kamstrup/meter_protocol/request_parser.py:39-65 | the in-place delete-and-xor loop leaves the buffer as the reference scanner says: the unescaped prefix, the EOT position, the unread rest |
| KamstrupRequestParser.RequestParser.FinishFrame | conpot/protocols/kamstrup/meter_protocol/request_parser.py:67-82 | request, exception and remaining buffer at an EOT, including the fall-through after a failed checksum |
| KamstrupRequestParser.RequestParser.GetRequest | conpot/protocols/kamstrup/meter_protocol/request_parser.py:39-83 | one call computes exactly the specified outcome and the whole new parser state |
| KamstrupRequestReads.CallOnFrame | conpot/protocols/kamstrup/meter_protocol/request_parser.py:67-82 | a request frame at the head of the buffer gives its address and ids, and leaves exactly what follows it |
| KamstrupRequestReads.Pipelining | conpot/protocols/kamstrup/meter_protocol/request_parser.py:74-82 | n requests in the buffer are returned by n calls in order, the next call returns nothing, the buffer ends empty |
| KamstrupRequestReads.ChunkIndependence | conpot/protocols/kamstrup/meter_protocol/request_parser.py:39-83 | a request cut at harmless places gives nothing before its last read and then the request as if read at once |
| KamstrupRequestReads.UnescapedRequestCutsAnywhere | conpot/protocols/kamstrup/meter_protocol/request_parser.py:39-83 | if nothing in the request needed an escape every cut is harmless, and meanwhile the buffer holds the bytes received |
| KamstrupRequestCuts.ReadsIff | conpot/protocols/kamstrup/meter_protocol/request_parser.py:40-64 | for every partition into reads, the request comes through if and only if every cut is harmless |
| KamstrupRequestCuts.DoomedCall | conpot/protocols/kamstrup/meter_protocol/request_parser.py:40-64 | after a harmful cut each further call returns something wrong or keeps the buffer beyond repair: a byte lost, or one left without its escape |
| KamstrupRequestCuts.DoomedEnd | conpot/protocols/kamstrup/meter_protocol/request_parser.py:40-82 | the call that reads the closing EOT after a harmful cut never returns the request |
| KamstrupRequestCuts.CutInsideEscape | conpot/protocols/kamstrup/meter_protocol/request_parser.py:54-63 | every request to an address that needs an escape is lost if it is cut behind its second byte |
| KamstrupDecoder.Collect | conpot/protocols/kamstrup/meter_protocol/decoder_382.py:73-109 | the flag-driven append loop computes the reference scanner's result, or fails at a byte that is not the magic |
| KamstrupDecoder.DecodeGetRegister | conpot/protocols/kamstrup/meter_protocol/decoder_382.py:148-163 | ids of a request frame, with a count test that still lets the loop run into the checksum and off the list |
| KamstrupDecoder.DecodeReturnRegister | conpot/protocols/kamstrup/meter_protocol/decoder_382.py:165-192 | the variable-length records between header and checksum, each as id and value, or an IndexError |
| KamstrupDecoder.Decoder382.DecodeIn | conpot/protocols/kamstrup/meter_protocol/decoder_382.py:73-109 | result and new request-side state of one call; the response side is not touched |
| KamstrupDecoder.Decoder382.DecodeOut | conpot/protocols/kamstrup/meter_protocol/decoder_382.py:111-146 | result and new response-side state of one call; the request side is not touched |
| KamstrupDecoderReads.CutsInvisibleIff | conpot/protocols/kamstrup/meter_protocol/decoder_382.py:73-146 | cutting a stream in any way gives the same results and state as one chunk, if and only if no byte comes in a chunk behind the one that completes a message |
| KamstrupDecoderReads.ChunkIndependence | conpot/protocols/kamstrup/meter_protocol/decoder_382.py:73-146 | so a stream whose only unescaped EOT, if any, is last may be cut anywhere |
| KamstrupDecoderReads.ResponseRoundTrip | conpot/protocols/kamstrup/meter_protocol/messages.py:126-154 | the decoder applied to a serialized response gives the same ids in order, each value modulo 256^length, for every list of registers |
| KamstrupDecoderReads.RequestRoundTrip | conpot/protocols/kamstrup/meter_protocol/decoder_382.py:148-163 | the decoder reads address and ids of every request frame |
| KamstrupDecoderReads.SecondMessageIsDropped | conpot/protocols/kamstrup/meter_protocol/decoder_382.py:105-107 | of any two requests in one chunk only the first is read, in a chunk each both are |
| KamstrupDecoderReads.ParserAgreesWithDecoder | conpot/protocols/kamstrup/meter_protocol/decoder_382.py:148-163 | on a stream whose first unescaped EOT closes a checksum-valid command 0x10, parser and decoder read the same ids if and only if the declared ids reach neither past the frame nor into the last three buffered bytes |
| KamstrupDecoderReads.ChecksumTakenForId | conpot/protocols/kamstrup/meter_protocol/decoder_382.py:153-156 | a request that declares one id and carries none: the decoder reads the checksum as the id, the parser raises |
| KamstrupServer.CommandResponder.Respond | conpot/protocols/kamstrup/meter_protocol/command_responder.py:47-60 | null for a foreign address, an assertion failure for an unknown command, otherwise the known registers in request order |
| KamstrupServer.ParsedShrinks | conpot/protocols/kamstrup/meter_protocol/kamstrup_server.py:73-91 | every parsed request takes bytes off the buffer, so the answering loop ends |
| KamstrupServer.Connection.Handle | conpot/protocols/kamstrup/meter_protocol/kamstrup_server.py:70-91 | the replies, the parser state and the exception that one read leads to |
| KamstrupServer.Connection.Drain | conpot/protocols/kamstrup/meter_protocol/kamstrup_server.py:73-91 | the same for the inner loop |
| KamstrupServer.Connection.HandleAll | conpot/protocols/kamstrup/meter_protocol/kamstrup_server.py:61-95 | the replies, the parser state and the exception that any list of reads leads to, up to the empty read of a disconnect |
| KamstrupServer.ServePipelined | conpot/protocols/kamstrup/meter_protocol/kamstrup_server.py:73-91 | of any number of requests received at once, exactly those before the first for another meter are answered, in order; that one is dropped and those behind it stay in the buffer |
| KamstrupConnection.ConnectionServes | conpot/protocols/kamstrup/meter_protocol/kamstrup_server.py:61-95 | for every list of requests, for this meter or others, and every partition into reads that end at safe cuts: each read takes the requests complete by then, up to and including the first for another meter; those for this meter among the ones taken are answered in order, the others wait in the buffer |
| KamstrupConnection.AllAnsweredIff | conpot/protocols/kamstrup/meter_protocol/kamstrup_server.py:61-95 | every request for this meter is answered if and only if none stands behind those the reads take |
| KamstrupConnection.OneReadEach | conpot/protocols/kamstrup/meter_protocol/kamstrup_server.py:61-95 | with a read for each request all are taken, wherever those for other meters stand |
| KamstrupConnection.OneReadForAll | conpot/protocols/kamstrup/meter_protocol/kamstrup_server.py:73-91 | one read for all takes those up to and including the first for another meter |
| KamstrupConnection.ConnectionAnswersAll | conpot/protocols/kamstrup/meter_protocol/kamstrup_server.py:61-95 | if all are for this meter, each is answered exactly once, in order, and the parser ends idle |
| KamstrupConnection.ServeRead | conpot/protocols/kamstrup/meter_protocol/kamstrup_server.py:70-91 | exactly how many requests one read takes and how many bytes it leaves: those it completes, up to and including the first for another meter; the rest is scanned later as if nothing had been unescaped |
| KamstrupSession.ReadAnswer | bin/kamstrup_prober.py:121-145 | the unescaped answer has at most 12 bytes exactly if the id is unknown or its register shorter than two bytes; otherwise it reads as the register's units, length, unknown byte and value modulo 256^length |
| KamstrupSession.EndToEnd | bin/kamstrup_prober.py:52-88 | request, in-place parse, lookup, serialization, unescape and decode give exactly what the register table says |
| KamstrupSession.WholeSession | bin/kamstrup_prober.py:121-145 | the same for each of any number of requests on one connection |
| KamstrupSession.ProbeOne | bin/kamstrup_prober.py:52-88 | the modelled loops of client and server, run against each other, return what the table says |
| KamstrupSession.ProbeAll | bin/kamstrup_prober.py:115-145 | a probe of any candidate list records exactly the table's registers of at least two bytes among them, with their true contents, and counts the others |
| IpmiFraming.AesPad | conpot/protocols/ipmi/fakesession.py:227-238 | the loop appends 1, 2, ..., n and n, to a multiple of 16 |
| IpmiFraming.UnpadPadded | conpot/protocols/ipmi/fakesession.py:131-132 | dropping the last byte's count plus one bytes undoes the padding |
| IpmiFraming.PacketLayout | conpot/protocols/ipmi/fakesession.py:240-311 | the size field is the length of IV and padded data, the packet is a multiple of four bytes before and with the 12-byte code, and the code covers everything from the fifth byte on |
| IpmiFraming.FramingRoundTrip | conpot/protocols/ipmi/fakesession.py:69-134 | with shared keys and session id, a packet with integrity on, encrypted or not, is accepted if and only if its sequence number is acceptable, and delivers exactly its payload |
| IpmiFraming.SessionDelivers | conpot/protocols/ipmi/fakesession.py:113-134 | over a session exactly the payloads before the first sequence number that goes back arrive, in order; the session stays open if and only if none does |
| IpmiFraming.BackAndAgain | conpot/protocols/ipmi/fakesession.py:118-123 | numbers 2 and 1: the second packet closes the session; the same number twice: a repeated packet is delivered again |
| IpmiFraming.SenderIsSteady | conpot/protocols/ipmi/fakesession.py:321-323 | packets numbered one after the other, or all 0, never go back |
| IpmiFraming.RoundTrip15 | conpot/protocols/ipmi/ipmi_server.py:189-218 | every IPMI 1.5 packet, without a code or with one, is accepted if and only if its sequence number does not go back, and delivers its payload, pad byte or not |
| IpmiFraming.SessionDelivers15 | conpot/protocols/ipmi/ipmi_server.py:189-218 | over an IPMI 1.5 session exactly the payloads before the first sequence number that goes back arrive, in order; the session stays open if and only if none does |
| IpmiFraming.SenderIsSteady15 | conpot/protocols/ipmi/fakesession.py:321-323 | the numbers of an IPMI 1.5 sender never go back |
| IpmiSession.Checksum8 | conpot/protocols/ipmi/ipmi_server.py:98-103 | data and checksum sum to 0 modulo 256, though the xor touches only the low byte of a larger sum |
| IpmiSession.ChecksumIsUnique | conpot/protocols/ipmi/ipmi_server.py:98-103 | no other byte has that property |
| IpmiSession.FakeSession.MakeIpmiPayload | conpot/protocols/ipmi/fakesession.py:197-224 | the unbridged message, header and body each with its checksum, and the reply then expected |
| IpmiSession.FakeSession.ParsePayload | conpot/protocols/ipmi/fakesession.py:158-177 | the message left by the three deletions; no reply is expected any more, one to a repeated request becomes taboo, nothing is outstanding or waiting, the queue stays |
| IpmiSession.FakeSession.ExpectNothing | conpot/protocols/ipmi/fakesession.py:159-164 | the reply to a repeated request is entered among those to be ignored, and none is expected |
| IpmiSession.FakeSession.Ipmi15 | conpot/protocols/ipmi/fakesession.py:150-156 | the addresses and the command a message leaves in the session, and how far it gets before an index raises |
| IpmiSession.MessageRoundTrip | conpot/protocols/ipmi/fakesession.py:158-177 | parsing a built message gives its netfn, command, data and addresses; both its parts sum to 0 modulo 256 |
| IpmiSession.WholeStack | conpot/protocols/ipmi/fakesession.py:69-177 | a message built, framed, received and parsed is the message meant |
| IpmiSession.FakeSession.SendPayload | conpot/protocols/ipmi/fakesession.py:240-314 | queued, refused, transmitted or deferred, in IPMI 1.5 and 2.0, with the whole new session state in each case |
| IpmiSession.FakeSession.DispatchPayload | conpot/protocols/ipmi/fakesession.py:248-314 | which payloads raise, and the packet and the state of those that do not |
| IpmiSession.FakeSession.XmitPacket | conpot/protocols/ipmi/fakesession.py:321-343 | the next sequence number, and whether the session waits for the retry timer |
| IpmiSession.FakeSession.BuildPacket15 | conpot/protocols/ipmi/fakesession.py:267-277 | the packet grown step by step is the one the IPMI 1.5 round trip is about |
| IpmiSession.FakeSession.BuildPacket | conpot/protocols/ipmi/fakesession.py:248-311 | the packet grown step by step is the packet the receiver theorems are about |
| IpmiSession.FakeSession.AcknowledgeSol | conpot/protocols/ipmi/fakesession.py:136-142 | an outstanding SOL payload is done and the next one in the queue is sent |
| IpmiSession.FakeSession.Unframe | conpot/protocols/ipmi/fakesession.py:69-132 | outcome and new receiver state for every byte string, crashes on short packets included |
| IpmiSession.FakeSession.Ipmi20 | conpot/protocols/ipmi/fakesession.py:69-148 | the whole new session state for every byte string: receiver, addresses, outstanding payload, queue and what is sent from it |
| IpmiQueue.RunTransmits | conpot/protocols/ipmi/fakesession.py:240-323 | over every run of submissions, SOL receipts and messages, the packets sent are numbered one after the other |
| IpmiQueue.QueueInOrderIff | conpot/protocols/ipmi/fakesession.py:136-142 | over every such run what is given to the session is transmitted in order and the remainder waits in order, if nothing is submitted while others wait and nothing is outstanding; where payloads can be told apart, only then |
| IpmiQueue.MessageLetsOvertake | conpot/protocols/ipmi/fakesession.py:166-167 | a message that arrives while a payload waits clears what is outstanding but not the queue, and a later payload overtakes the one waiting |
| IpmiQueue.PeerReceives | conpot/protocols/ipmi/fakesession.py:113-134 | a peer with the same keys and session id gets exactly what such a run transmitted, in that order |
| IpmiUsers.ConfiguredIffCovered | conpot/protocols/ipmi/ipmi_server.py:76-96 | the tables of a template list the same distinct users in the same order if and only if the names that not every list of texts reaches repeat names that every list does |
| IpmiUsers.ConfiguredIsConsistent | conpot/protocols/ipmi/ipmi_server.py:76-96 | so with lists of equal length they do, and with a password missing for a last, new user they do not |
| IpmiUsers.RebuildTables | conpot/protocols/ipmi/ipmi_server.py:370-388 | the loop rebuilds three ordered dictionaries along the first, one slot renamed, id 0 renaming nobody; a user missing from the others raises |
| IpmiUsers.RenameKeepsOthers | conpot/protocols/ipmi/ipmi_server.py:370-388 | a rename to a free name changes that key only, any other loses a user |
| IpmiUsers.IpmiServer.SetUserName | conpot/protocols/ipmi/ipmi_server.py:364-390 | return code and new tables of the command, from tables that agree or not; consistent ones stay so |
| IpmiUsers.RenameAligns | conpot/protocols/ipmi/ipmi_server.py:370-388 | from whatever tables a template gave, a rename that does not raise leaves three that list the same users in the same order |
| IpmiUsers.IpmiServer.SetUserPassword | conpot/protocols/ipmi/ipmi_server.py:393-427 | return code and new tables of disable, enable, set and test, a user without a flag included; consistent tables stay so |
| IpmiUsers.StepKeeps | conpot/protocols/ipmi/ipmi_server.py:364-428 | what every command keeps, and that a rename onto a taken name loses a user |
| IpmiUsers.RenameIsLocal | conpot/protocols/ipmi/ipmi_server.py:364-388 | a rename to a free name changes one slot's name, keeps its password, and keeps every other slot |
| IpmiUsers.PasswordIsLocal | conpot/protocols/ipmi/ipmi_server.py:393-428 | a password command changes at most its own slot's password or flag |
| IpmiUsers.SetThenTest | conpot/protocols/ipmi/ipmi_server.py:393-425 | after a password is set, and any run of commands that sets no other for that slot and takes nobody's name, testing the slot fails if and only if another password is tested |
| IpmiUsers.RunKeepsUsers | conpot/protocols/ipmi/ipmi_server.py:364-428 | over every run of commands the user count survives if and only if no rename took another user's name, and then privileges and channel access are unchanged slot by slot |
| IpmiUsers.RenameLosesUser | conpot/protocols/ipmi/ipmi_server.py:364-388 | two users, the first renamed to the name of the second: one is left |
| IpmiUsers.FlagAfterCollision | conpot/protocols/ipmi/ipmi_server.py:370-388 | flags are kept by place: after a rename onto a taken name a user keeps its flag if and only if it stands before the later of the two places or the user before it has the same flag |
| IpmiUsers.FlagOfMerged | conpot/protocols/ipmi/ipmi_server.py:370-388 | the merged user gets the flag of the earlier place |
| IpmiUsers.PlaceAfterRun | conpot/protocols/ipmi/ipmi_server.py:364-428 | after any run of commands, whoever stands at a place has the privilege and channel access of the user who stood at its origin at first |
| IpmiUsers.OriginsDiffer | conpot/protocols/ipmi/ipmi_server.py:364-428 | no two places have the same origin |
| IpmiUsers.FlagAfterRun | conpot/protocols/ipmi/ipmi_server.py:364-428 | over any run that does not set the flag of a place, the user who ends there is enabled exactly if that place was at first, and keeps its own flag if and only if its origin had an equal one |
| IpmiUsers.CollisionEnablesThird | conpot/protocols/ipmi/ipmi_server.py:370-388 | three users, the first two enabled, the first renamed to the name of the second: the third is enabled |
| MibCompiler.MibStore.GenerateDependencies | conpot/protocols/snmp/build_pysnmp_mib_wrapper.py:71-86 | the imports are appended to the MIB's list, every imported name has an entry, no other list changes |
| MibCompiler.MibStore.AddFile | conpot/protocols/snmp/build_pysnmp_mib_wrapper.py:106-109 | every file has an entry and the map stays closed |
| MibCompiler.MibStore.ResolveDependencies | conpot/protocols/snmp/build_pysnmp_mib_wrapper.py:123-126 | the loop over the dependencies computes its specification on the global list |
| MibCompiler.MibStore.CompileWithin | conpot/protocols/snmp/build_pysnmp_mib_wrapper.py:116-135 | the recursion computes its specification on the global list |
| MibCompiler.MibStore.CompileMib | conpot/protocols/snmp/build_pysnmp_mib_wrapper.py:116-135 | it only appends, adds exactly the available MIBs reachable, keeps every MIB behind its available dependencies, adds a duplicate exactly if the MIB was compiled before, and raises a KeyError exactly if it has no file |
| MibCompiler.CompileOrders | conpot/protocols/snmp/build_pysnmp_mib_wrapper.py:123-127 | compilation only appends, in dependency order, the MIB itself last |
| MibCompiler.CompileIsExact | conpot/protocols/snmp/build_pysnmp_mib_wrapper.py:123-127 | the compiled MIBs are the old ones and exactly those reachable through available MIBs |
| MibCompiler.NoDuplicates | conpot/protocols/snmp/build_pysnmp_mib_wrapper.py:123-127 | no duplicate appears if and only if the MIB was not compiled before |
| MibCompiler.TerminatesIffAcyclic | conpot/protocols/snmp/build_pysnmp_mib_wrapper.py:123-127 | the recursion ends, at a depth of at most the number of files, if and only if no cycle of available MIBs can be reached |
| MibCompiler.MutualImportsDoNotEnd | conpot/protocols/snmp/build_pysnmp_mib_wrapper.py:123-127 | two MIBs that import each other: no depth of recursion is enough |
| MibCompiler.MissingTerminatesIffAcyclic | conpot/protocols/snmp/build_pysnmp_mib_wrapper.py:123-127 | the same for a MIB known only as a dependency |
| ChunkedTransfer.HexRoundTrip | conpot/protocols/http/command_responder.py:482-482 | the upper-case size line reads back as the size, for every natural number |
| ChunkedTransfer.Handler.SendChunked | conpot/protocols/http/command_responder.py:473-502 | the bytes written are the chunks for the widths, one for what they leave over, and the ending |
| ChunkedTransfer.Handler.SendEnding | conpot/protocols/http/command_responder.py:494-502 | last chunk, one line a trailer, closing line |
| ChunkedTransfer.FittingPieces | conpot/protocols/http/command_responder.py:478-492 | fitting widths cut the payload into chunks of the announced lengths that add up to it |
| ChunkedTransfer.TrailersRoundTrip | conpot/protocols/http/command_responder.py:497-502 | well-formed trailers read back in order |
| ChunkedTransfer.RoundTripIffFits | conpot/protocols/http/command_responder.py:473-502 | the decoder of RFC 7230 gets exactly payload and trailers and consumes everything, if and only if the widths are positive and sum to at most the payload's length; for every list of integers |
| ChunkedTransfer.WidthsThatDoNotFit | conpot/protocols/http/command_responder.py:479-485 | one width larger than the payload spoils every message, and so does a width of zero |
| Tpkt.TPKT.ParseFrom | conpot/protocols/s7comm/tpkt.py:25-39 | the new fields, or a ParseException that leaves the object alone |
| Tpkt.RoundTrip | conpot/protocols/s7comm/tpkt.py:21-39 | packing then parsing gives the packet, with up to four following bytes added to its payload |
| Tpkt.PayloadIffAlone | conpot/protocols/s7comm/tpkt.py:37-37 | the payload survives if and only if nothing follows |
| Cotp.COTP.ParseFrom | conpot/protocols/s7comm/cotp.py:39-57 | the new fields, or a ParseException that leaves the object alone |
| Cotp.DataRoundTrip | conpot/protocols/s7comm/cotp.py:31-57 | for data packets, what is packed as payload and trailer is parsed as trailer alone |
| Cotp.OtherRoundTrip | conpot/protocols/s7comm/cotp.py:31-57 | other packets pack if and only if the payload fits the length byte, and come back if and only if they are at least three bytes long |
| Cotp.TwoBytesDoNotParse | conpot/protocols/s7comm/cotp.py:37-44 | a packet of two bytes packs and does not parse |
| Cotp.ConnectionPacket.DissectFrom | conpot/protocols/s7comm/cotp.py:82-122 | the loop over the shrinking chunk ends with the specified fields, also when it raises half-way |
| Cotp.VariableOfParams | conpot/protocols/s7comm/cotp.py:94-122 | every list of one- or two-byte parameters with known codes is dissected |
| Cotp.VariableIsParams | conpot/protocols/s7comm/cotp.py:94-122 | and nothing else is: whatever dissects is such a list |
| Cotp.ApplyKeepsLast | conpot/protocols/s7comm/cotp.py:110-117 | each field ends as the last value given for its code, or as it was; the fixed header is untouched |
| Cotp.OrderDoesNotMatter | conpot/protocols/s7comm/cotp.py:94-122 | parameters with distinct codes may come in any order |
| Cotp.AssembleRoundTrip | conpot/protocols/s7comm/cotp.py:134-163 | dissecting undoes both ways of assembling; the confirm packet leaves the size as it was |
| S7.S7Packet.ParseFrom | conpot/protocols/s7comm/s7.py:78-115 | the new fields and the outcome for every byte string, also when it raises half-way |
| S7.PduRoundTrip | conpot/protocols/s7comm/s7.py:51-115 | `__len__` is the packed size and parsing a packed PDU gives all its fields back; only one without parameters is refused |
| S7.RepackIffNoResult | conpot/protocols/s7comm/s7.py:66-115 | a parsed PDU packs again, to the same bytes, if and only if it has no result header |
| S7.ResponseDoesNotRepack | conpot/protocols/s7comm/s7.py:66-101 | every response with parameters packs, parses, and does not pack again |
| S7.StackRoundTrip | conpot/protocols/s7comm/s7.py:51-115 | through TPKT, COTP and S7 a PDU comes back, and the stack carries it if and only if the TPKT length field does |
| S7Handshake.Accept | conpot/protocols/s7comm/s7_server.py:80-99 | the bytes the server answers to a first packet, or none |
| S7Handshake.HandshakeConfirms | conpot/protocols/s7comm/s7_server.py:80-99 | every connection request that can be sent is confirmed, and the client reads its references, swapped, and both TSAPs from the confirm packet |
| S7Handshake.NegotiationEchoes | conpot/protocols/s7comm/s7_server.py:106-137 | a negotiation request is answered, if and only if the answer fits, by a response with its request id and its parameters, no data, and result 0 |
| SnmpEvasion.DatabusMediator.UpdateEvasionTable | conpot/protocols/snmp/databus_mediator.py:68-94 | over every history, it returns the calls by this client and by all since the minute stamp last changed, and the table holds one minute with nothing else in it |
| SnmpEvasion.Responder.Handle | conpot/protocols/snmp/conpot_cmdrsp.py:110-112 | whether a request passes the throttle of its command, as a function of the history of all four commands |
| SnmpEvasion.OverallIsSum | conpot/protocols/snmp/databus_mediator.py:86-88 | the overall counter is the sum of the clients' counters |
| SnmpEvasion.ThrottleHolds | conpot/protocols/snmp/conpot_cmdrsp.py:68-89 | whatever the other commands and their thresholds: in a minute that was not reopened a command lets through at most its threshold of a client's requests, and at most its overall threshold of everyone's |
| SnmpEvasion.ForwardNeverReopens | conpot/protocols/snmp/databus_mediator.py:76-80 | while the clock does not go back no minute is reopened, and the counters are the calls of the minute |
| SnmpEvasion.AdmittedIff | conpot/protocols/snmp/conpot_cmdrsp.py:68-89 | while the clock does not go back, exactly the requests pass that are, whatever their command, among the client's first and among everyone's first of the minute |
| SnmpEvasion.ThrottleIff | conpot/protocols/snmp/conpot_cmdrsp.py:68-89 | over any history and any clock, for a client or everyone held to a limit n in a minute for which the other limit is wide enough: at most n requests pass if and only if there were no more or the minute was not reopened |
| SnmpEvasion.SumOverWindows | conpot/protocols/snmp/databus_mediator.py:76-94 | for every history, clock and thresholds, what passes in a minute is what passes in each of its windows taken by itself |
| SnmpEvasion.PassedInMinute | conpot/protocols/snmp/conpot_cmdrsp.py:68-89 | for every history, clock and thresholds, a client's requests of a command that pass in a minute are those that come, in each of its windows, while both limits of the command leave room |
| SnmpEvasion.ThrottleTimesOpenings | conpot/protocols/snmp/conpot_cmdrsp.py:68-89 | under any clock a command lets through at most its threshold for each time the minute was opened |
| SnmpEvasion.SharedCounters | conpot/protocols/snmp/command_responder.py:113-116 | the counters are those of the command, as documented, if and only if no request of another command stands in the window; the throttle is never laxer than documented |
| SnmpEvasion.DocumentedIff | conpot/protocols/snmp/conpot_cmdrsp.py:68-89 | while the clock does not go back, for all thresholds: the requests of a command that pass and those squeezed out by other commands add up to those documented to pass, so as many pass as documented if and only if none is squeezed out |
| SnmpEvasion.DocumentedCount | conpot/protocols/snmp/conpot_cmdrsp.py:68-89 | what is documented, while the clock does not go back: of a client's requests of a command the first pass, up to its threshold, while the overall threshold is not met by requests of that command |
| SnmpEvasion.CommandsShareCounters | conpot/protocols/snmp/command_responder.py:113-116 | one `next` request uses up the threshold of `get`, and the only `get` of the minute does not pass |
| SnmpEvasion.ClockMustNotGoBack | conpot/protocols/snmp/databus_mediator.py:76-80 | three requests that reopen a minute, two of which pass under a threshold of one |
| AttackSession.Session.Probe | conpot/core/attack_session.py:55-56 | the probing loop ends at the first free millisecond |
| AttackSession.Session.AddEvent | conpot/core/attack_session.py:52-59 | the log and the queue hold the whole history, and nothing recorded is overwritten |
| AttackSession.InOrderIffNoGaps | conpot/core/attack_session.py:52-59 | the keys come in the order of the calls if and only if no call leaves a free millisecond before the newest key |
| AttackSession.ClockGoesBack | conpot/core/attack_session.py:52-59 | events filed at 5 and then 3 milliseconds come out in the wrong order |
| AttackSession.ForwardClockKeys | conpot/core/attack_session.py:53-57 | while the clock does not go back, each key is the larger of the elapsed time and the previous key plus one |
| AttackSession.ForwardClockHasNoGaps | conpot/core/attack_session.py:53-57 | a clock that does not go back leaves no gap |
| AttackSession.ReadInKeyOrder | conpot/core/attack_session.py:57-59 | reading the log in key order gives the events in the order they were queued |

## Left out

Clauses that say less than one might expect:

- KamstrupSession.ProbeOne: the reply is taken to arrive in one `recv(1024)`; reconnecting is not modelled.
- KamstrupMessages.ResponseRegister.Serialize: register ids are 16-bit and units, length, unknown byte and
  address are bytes, since other values raise in `chr` or `bytearray`.
- KamstrupRequestCuts.ReadsIff: the last read is not empty; the server never passes on an empty one.
- IpmiFraming.FramingRoundTrip: with integrity off the receiver closes the session, so there is nothing to
  carry; payload types other than IPMI and SOL go to the key exchange.
- IpmiFraming.SessionDelivers: an empty ciphertext or a damaged packet cannot come from the sender and is
  covered by `Receive` alone.
- KamstrupConnection.ConnectionServes: the requests are for registers, since another command trips an
  assertion and ends the connection; every cut is safe, since `ReadsIff` says what an unsafe one does.
- IpmiFraming.RoundTrip15: the code of an IPMI 1.5 packet is taken as a function of sequence number and
  payload with 16 bytes; pyghmi, which computes it, is not part of this model.
- IpmiSession.FakeSession.XmitPacket: the socket, name resolution and the times of the retry timer are not
  modelled.
- IpmiSession.FakeSession.ParsePayload: the next timeout is random and not modelled, and what the server does
  with the message is another call.
- IpmiQueue.QueueInOrderIff: sessions of IPMI 2.0; payloads are not empty, travel as IPMI or SOL and fit a
  packet; packets are not deferred.
- IpmiUsers.IpmiServer.SetUserName: sending the reply is not modelled; a missing data byte or a user id
  beyond the table raises and is `None`.
- MibCompiler.MibStore.CompileWithin: the external compiler and the output file are taken to succeed, and
  Python's own recursion limit is not modelled.
- ChunkedTransfer.Handler.SendChunked: splitting the configured text at commas and `int` are not modelled.
- ChunkedTransfer.TrailersRoundTrip: trailer names are not empty and hold no colon or CR, values hold no CR
  and neither begin nor end with a blank, as section 3.2 of RFC 7230 requires.
- SnmpEvasion.Responder.Handle: a bulk request that passes raises in the code behind; parsing the threshold
  text is not modelled, and no client address is the string `overall`, which shares a dictionary with them.
- SnmpEvasion.ThrottleHolds: holds for minutes that were not reopened; for the others see `PassedInMinute`.
- SnmpEvasion.ThrottleIff: the limit is that of every command used in the minute, and the other limit is wide
  enough for it; `PassedInMinute` is exact without either.
- SnmpEvasion.DocumentedIff: the documentation does not say what a minute is when the clock goes back.
- IpmiUsers.FlagAfterRun: users are followed by privilege and channel access; a password may be set on the way.

Parts of the repository:

- Sockets, greenlets, sleeps, tarpits, timeouts, logging and databases: input and output.
- XML templates, `eval` of configuration, regular expressions, HTML templates: their results are parameters.
- The sentences the decoder builds, and its table of register names: results are structured values.
- Kamstrup management commands, the weld robot, DCT, MMIS and Guardian AST emulators: one-branch behaviour.
- IPMI key exchange (RAKP), bridged requests, and the other IPMI commands: they would add a
  third-party protocol or easy members.
- S7 system status lists: the format strings of indexes 6 and 7 do not match their arguments.
- Adding Modbus blocks: the default insertion index breaks the order its early `break` relies on.
- Bulk SNMP requests: unreachable behind a `raise`.
- The databus, session timeouts and delayed writes: timing.
- pysnmp, bacpypes, pymodbus, opcua, pyghmi and modbus_tk: not part of this model.
