# Verified model of the NeroNfc reader and its host tools

A Dafny model of the parts of the NeroNfc firmware and of its PC/SC host tools that decide over bytes and states,
with proofs of what they promise. `dafny verify dfyconfig.toml` checks everything.

What is modelled, by file:

- `CborGrammar`, `CborReader`, `CborStrings`, `CborStandard`: the CBOR cursor of the reader. What it accepts of RFC 8949
  (sections 3.1 and 3.2), and a little more, is given as a syntax tree with a printer and as a recogniser; the cursor, a
  class, is proved to do what the recogniser says, recogniser and printer are proved to agree in both directions, and which
  accepted items the standard allows is proved exactly.
- `CcidFrame`, `Apdu`, `CcidMachine`: the USB CCID Rev 1.10 messages (section 6), the recognition of command APDUs, and the
  slot and transfer machine as a function from state and input to state and outputs.
- `CcidDevice`: the same machine as the firmware has it, a class over flags, a reply buffer and two 2050-byte buffers, with
  a ghost log of everything sent, notified, dispatched or relayed; every method is proved to do what the machine does.
- `CcidSafety`, `CcidChaining`, `CcidRuns`, `CcidRelay`, `CcidIsoSession`, `CcidPresence`: what holds of that machine, message by
  message and over whole runs.
- `CcidReplies`, `CcidAnswers`: what the host is told, byte for byte, and that it is what the card has answered.
- `CcidAtr`: what is kept of a Type 4 tag's answer to RATS, and the ATR made of it.
- `NdefTlv`, `NdefScan`, `StorageWrite`, `Type2Storage`, `Type5Storage`, `Type4File`: NDEF on tags. TLV areas, reading them
  piecemeal, the chunked writer over a memory that can fail, and the transactions of the three tag types.
- `NdefRecords`, `NdefGrammar`, `NdefUri`, `CtapCodec`: records, URI payloads and CTAP requests, built and taken apart; what the
  record walk takes apart is what the record grammar prints.
- `ModeScan`, `SerialRing`, `ModeSwitch`, `LinePump`: the byte-stream machines.

The outside is an input of the model. In the CCID machine every answer of the card, the ISO-DEP layer, the storage handlers,
the USB queue and the clock is part of a step (`Env`, `Field`), and nothing is assumed of it but that an ATR fits the reply
buffer (for a Type 4 tag `CcidAtr.EveryAtsGivesAnAtr` proves it) and a detected tag has a kind; that the ISO-DEP session
alternates rests on its being opened on an answer to RATS. In the storage stack the tag is a memory whose commands may fail: a failed storage
write may leave anything in the units it names, a failed UPDATE BINARY has been carried out or not.

Where the code and its own comments differ, the model follows the code, and the difference is a lemma:

- The tagged byte-string read of the CBOR cursor accepts five bytes that are no item (`CborStrings.MaybeTaggedAcceptsGarbage`);
  it is right exactly when it did not retry behind a failed chunked read.
- A removal that was deferred for 250 ms ends at the next poll, because deferral happens only without a session
  (`CcidSafety.DeferralEndsAtNextPoll`).
- Two-byte simple values below 32, such as F8 10, are skipped as items although section 3.3 of RFC 8949 excludes them
  (`CborStandard.TwoByteSimpleValueIsAccepted`).
- No time extension is meant to be sent before an ATR, but the callback is bound while a Type 4 tag is activated, and the
  layer below uses it (`CcidSafety.PowerOnAsksForTimeExactlyWhen`).
- A getAssertion request with an allow list lacks the "id" key of its credential and is no CBOR item.
- A look at a partly read area takes any FE byte for a terminator, so it can report an empty tag too early.
- A Type 5 area that ends behind byte 65532 can never be read, since its length wraps to 0 in 16 bits.
- A Type 2 read looks at no byte behind the 900th, so a message of an area above 896 bytes that ends later is reported
  truncated (`Type2Storage.AMessagePastByte900IsNotRead`).
- On the repository's own reader the longest Type 2 messages can be written to tags of more than 888 bytes but not read back.
- The TLV capacity for areas of 255 to 258 bytes is one or two bytes short of what fits.
- The mode scanner takes a line for a command that is one behind fragments it has given up on, such as "xmode reader", and
  the ring drops a block that does not fit.

Two arguments of one C expression that both advance a cursor are taken from left to right.

## Model

| member | source | states |
|---|---|---|
| `CborGrammar.SkipExactlyItems` | firmware/libraries/NeroNfc/src/reader/reader_cbor.c:307-408 | the bytes at a position are skipped, up to a given end, if and only if some well-formed item of the accepted subset, of nesting height at most 32, is printed exactly there |
| `CborGrammar.SkipLeavesTheRest` | firmware/libraries/NeroNfc/src/reader/reader_cbor.c:300-305 | printing any such item in front of any bytes and skipping it leaves precisely those bytes, so no item is a prefix of another |
| `CborGrammar.Complete` | firmware/libraries/NeroNfc/src/reader/reader_cbor.c:307-408 | every printed item is accepted at any depth it still fits, and the skip stops at its last byte |
| `CborGrammar.Sound` | firmware/libraries/NeroNfc/src/reader/reader_cbor.c:307-408 | whatever is accepted is a printed item: the syntax tree is rebuilt from the bytes |
| `CborGrammar.CompleteOpen` | firmware/libraries/NeroNfc/src/reader/reader_cbor.c:307-408 | indefinite arrays and maps: groups of one or two items up to the break byte are accepted whole |
| `CborGrammar.SoundOpen` | firmware/libraries/NeroNfc/src/reader/reader_cbor.c:307-408 | and what is accepted up to the break is such a list, with an even number of items for a map |
| `CborStandard.OneReading` | firmware/libraries/NeroNfc/src/reader/reader_cbor.c:307-408 | two items of the accepted subset printed at the same place are the same item, so every span has one reading |
| `CborStandard.StandardExactlyWhen` | firmware/libraries/NeroNfc/src/reader/reader_cbor.c:307-408 | an accepted span is a well-formed item of RFC 8949 if and only if its one reading holds no simple value below 32 in two bytes |
| `CborStandard.TwoByteSimpleValueIsAccepted` | firmware/libraries/NeroNfc/src/reader/reader_cbor.c:61-111 | the two bytes F8 10, which section 3.3 of RFC 8949 excludes, are accepted |
| `CborReader.Cursor.Skip` | firmware/libraries/NeroNfc/src/reader/reader_cbor.c:300-305 | the cursor ends where the recogniser says or reports failure; it never passes the data, and the number of recursive entries is at most the bytes left plus one whatever count a head announces |
| `CborReader.Cursor.SkipDepth` | firmware/libraries/NeroNfc/src/reader/reader_cbor.c:307-408 | the same at any nesting depth: on success there are no more entries than bytes passed |
| `CborReader.Cursor.ReadHead` | firmware/libraries/NeroNfc/src/reader/reader_cbor.c:61-111 | a head is read if the recogniser sees one, with its value; on failure the cursor is where it was; 8-byte heads are refused |
| `CborReader.Cursor.ReadUint` | firmware/libraries/NeroNfc/src/reader/reader_cbor.c:113-128 | succeeds exactly on a head of major type 0; otherwise the cursor is restored |
| `CborReader.Cursor.ReadText` | firmware/libraries/NeroNfc/src/reader/reader_cbor.c:130-163 | a text string and a terminating zero are stored if they fit, the rest of the buffer untouched; on failure neither cursor nor buffer has changed |
| `CborReader.Cursor.ReadBytes` | firmware/libraries/NeroNfc/src/reader/reader_cbor.c:165-199 | a definite byte string is stored if it fits, the rest of the buffer untouched; on failure neither cursor nor buffer has changed |
| `CborReader.Cursor.ReadBytesIndefinite` | firmware/libraries/NeroNfc/src/reader/reader_cbor.c:201-243 | the chunks of an indefinite byte string are joined in the buffer; a failure leaves the cursor where reading stopped |
| `CborReader.Cursor.ReadBytesFlexible` | firmware/libraries/NeroNfc/src/reader/reader_cbor.c:245-254 | either form, by the two readers in turn |
| `CborReader.Cursor.ReadBytesMaybeTagged` | firmware/libraries/NeroNfc/src/reader/reader_cbor.c:256-277 | the same with one optional tag, tried from wherever the failed read has left the cursor |
| `CborStrings.FlexibleReadsExactlyByteStrings` | firmware/libraries/NeroNfc/src/reader/reader_cbor.c:165-254 | the flexible read yields a content and an end if and only if a byte string of the grammar with that content, whole or chunked, stands there and fits the buffer |
| `CborStrings.MaybeTaggedAcceptsGarbage` | firmware/libraries/NeroNfc/src/reader/reader_cbor.c:256-277 | the bytes 5F C0 C1 41 AA are no CBOR item, yet the tagged read accepts them |
| `CborStrings.MaybeTaggedIsSoundExactlyWhen` | firmware/libraries/NeroNfc/src/reader/reader_cbor.c:256-277 | a successful tagged read names the item at the cursor if and only if it did not follow a failed chunked read |
| `CcidFrame.ValidExactlyWhen` | firmware/libraries/NeroNfc/src/protocol/nfc_ccid_frame.c:43-69 | a message is accepted as one with a payload of n bytes if and only if it is put together of a command byte, the little-endian length n, five header bytes and a payload of that many bytes, at most 2050 |
| `CcidFrame.Le32Inverse` | firmware/libraries/NeroNfc/src/protocol/nfc_ccid_frame.c:22-41 | the little-endian store is undone by the load |
| `Apdu.SelectsNdefAppExactlyWhen` | firmware/libraries/NeroNfc/src/reader/reader_ccid_pn53x.c:198-219 | an APDU selects the NDEF application if and only if it is 00 A4 04, any P2, and one of the two seven-byte names, with or without one Le byte |
| `Apdu.SelectsFidoExactlyWhen` | firmware/libraries/NeroNfc/src/protocol/nfc_ctap_codec.c:309-357 | the FIDO application is selected by exactly four byte strings |
| `Apdu.CtapCommandExactlyWhen` | firmware/libraries/NeroNfc/src/protocol/nfc_ctap_codec.c:359-431 | an APDU carries a CTAP command byte if and only if it is 80 10 with P1 00 or 80 and a short or extended body that begins with that byte, with or without Le |
| `Apdu.NeedsTimeExtensionExactlyWhen` | firmware/libraries/NeroNfc/src/protocol/nfc_ctap_codec.c:433-474 | what GETRESPONSE and END are, byte for byte, and that the host is asked for time for a FIDO SELECT, GETRESPONSE and the commands 01, 02 and 06 only |
| `CcidSafety.BlockIsValid` | firmware/libraries/NeroNfc/src/protocol/nfc_ccid_frame.c:107-121 | a data block passes the validation, and header fields and payload read back as they were put in |
| `CcidSafety.AbsentIsOk` | firmware/libraries/NeroNfc/src/reader/reader_ccid_bulk_codec.h:128-150 | the reply for an absent slot is valid for every command, the slot byte being echoed |
| `CcidSafety.TimeExtensionIsNotFinal` | firmware/libraries/NeroNfc/src/reader/reader_ccid_xfr.c:62-73 | a time extension is a valid block with the same sequence number that cannot be taken for the final reply |
| `CcidSafety.EveryMessageIsAnsweredOnce` | firmware/libraries/NeroNfc/src/reader/reader_ccid_bulk.c:55-477 | in every invariant state every message of at least ten bytes, valid or not, is answered by one final message, the last thing sent; that message is valid, has the type due and the sequence number asked, and claims a successful data block only if the session is open afterwards; the invariant is kept, the tag is not changed, no removal is put off |
| `CcidSafety.ShortIsIgnored` | firmware/libraries/NeroNfc/src/reader/reader_ccid_bulk.c:55-74 | a shorter message is not answered and changes nothing |
| `CcidReplies.RefusedExactlyOnComplaint` | firmware/libraries/NeroNfc/src/reader/reader_ccid_bulk.c:61-157 | a message is refused if and only if its length, slot, reserved bytes or chain parameter are wrong; the reply is given byte for byte: the first complaint's code, the slot status, and slot 5 echoed for another slot; nothing else happens |
| `CcidReplies.PlainReplies` | firmware/libraries/NeroNfc/src/reader/reader_ccid_bulk.c:195-378 | the bytes of the replies to slot status, abort, secure, escape, data rate and unknown commands, in every state |
| `CcidReplies.ParameterReplies` | firmware/libraries/NeroNfc/src/reader/reader_ccid_bulk.c:287-321 | the bytes of every parameter reply: the T=1 structure, with the index of the offending field or a mute card |
| `CcidReplies.PowerOffReply` | firmware/libraries/NeroNfc/src/reader/reader_ccid_bulk.c:202-210 | power-off leaves the slot with its tag and nothing else, releases the ISO-DEP session if open, and reports whether a card is present |
| `CcidReplies.PowerOnReply` | firmware/libraries/NeroNfc/src/reader/reader_ccid_bulk.c:211-286 | power-on is answered by the ATR in an open, fresh session, or by the error and slot status of its failure, byte for byte |
| `CcidReplies.TransferReplies` | firmware/libraries/NeroNfc/src/reader/reader_ccid_bulk.c:380-433 | every transfer that completes no command: the reply byte for byte, and whether the command under assembly is kept, extended or dropped |
| `CcidReplies.AbortedMessageIsRefused` | firmware/libraries/NeroNfc/src/reader/reader_ccid_bulk.c:178-192 | a message that a pending abort refuses gets code FF and ends a pending response |
| `CcidReplies.AbortedExchange` | firmware/libraries/NeroNfc/src/reader/reader_ccid_bulk.c:446-464 | a command that the host aborts while the card works on it is answered by code FF, and nothing is left to continue |
| `CcidSafety.EveryRunIsSafe` | firmware/libraries/NeroNfc/src/reader/reader_app.c:599-668 | after every run of messages, polls and tag events in the order of the reader loop: session implies card, card if and only if tag kind, ISO session if and only if session on Type 4, FIDO implies ISO session, chain implies session, owner if and only if session, deferral implies card without session; slot notifications strictly alternate, starting with present, and the last one tells the truth |
| `CcidSafety.StepKeeps` | firmware/libraries/NeroNfc/src/reader/reader_app.c:599-668 | one step of the loop keeps all of that from any state in which it holds |
| `CcidSafety.PollKeeps` | firmware/libraries/NeroNfc/src/reader/reader_ccid.c:79-101 | so does a poll, with or without a message, whether or not a removal is due |
| `CcidSafety.FidoSessionIsNotDisturbed` | firmware/libraries/NeroNfc/src/reader/reader_app.c:614-621 | while a FIDO session is open a loop step neither changes the CCID state nor reports anything |
| `CcidSafety.DeferralEndsAtNextPoll` | firmware/libraries/NeroNfc/src/reader/reader_ccid.c:79-85 | a deferred removal is carried out, and notified once, by the very next poll, whatever the deadline |
| `CcidSafety.DeferralIsReached` | firmware/libraries/NeroNfc/src/reader/reader_app.c:599-668 | a tag of any kind that is detected, powered on and off, and then missed twice before the deadline is in that state |
| `CcidPresence.PresenceStep` | firmware/libraries/NeroNfc/src/reader/reader_app.c:599-668 | one loop step with a tag in the slot: the first miss is forgiven, the second in the same state of the slot takes the tag for gone, an answer forgets misses, an unknown tag replaces the one before, and a step that does not look changes nothing |
| `CcidPresence.AbsenceStep` | firmware/libraries/NeroNfc/src/reader/reader_app.c:599-613 | one loop step with an empty slot: what is found is adopted |
| `CcidPresence.GoneOnlyAfterTwoMisses` | firmware/libraries/NeroNfc/src/reader/reader_app.c:599-668 | in every run, where the loop takes a tag for gone it has missed it in this step and in an earlier one and has not seen it in between |
| `CcidPresence.TakenForGone` | firmware/libraries/NeroNfc/src/reader/reader_ccid.c:118-131 | a tag taken for gone leaves the slot as at the start, with one release if a session was open and one notification; before the deadline and without a session it is only waited for |
| `CcidPresence.Adopted` | firmware/libraries/NeroNfc/src/reader/reader_ccid.c:102-116 | an adopted tag finds the slot as at the start; one that was waited for is reported gone first |
| `CcidPresence.PollIs` | firmware/libraries/NeroNfc/src/reader/reader_ccid.c:79-101 | a poll gives up a tag that was waited for and then takes at most the first 2060 bytes of a message |
| `CcidSafety.PowerOnOpensExactlyWhen` | firmware/libraries/NeroNfc/src/reader/reader_ccid_bulk.c:211-286 | power-on leaves the session open if and only if the voltage is refused and it was open, or a tag is present, activates and has an ATR |
| `CcidSafety.PowerOnAsksForTimeExactlyWhen` | firmware/libraries/NeroNfc/src/reader/reader_ccid_bulk.c:230-254 | power-on sends time extensions if and only if a Type 4 tag is being activated and the layer below asks for them |
| `CcidSafety.OnlyPowerCommandsMoveTheSession` | firmware/libraries/NeroNfc/src/reader/reader_ccid_bulk.c:181-477 | a message opens a session only by powering on a tag that can be activated, and closes one only by power-off or a power-on that fails |
| `CcidAtr.CopyAtr` | firmware/libraries/NeroNfc/src/reader/reader_security_key_ccid_codec.h:44-90 | the ATR is written to the front of the buffer if there is an answer to select and room, and nothing is written otherwise |
| `CcidAtr.AtsExactlyWhen` | firmware/libraries/NeroNfc/src/reader/reader_security_key_iso_dep_session.h:29-54 | an answer to RATS is kept if and only if its first byte, from 2 to 64, is no more than was received, and that many bytes of it |
| `CcidAtr.AtrIsWellFormed` | firmware/libraries/NeroNfc/src/reader/reader_security_key_ccid_codec.h:44-90 | it announces T=1 and up to 15 historical bytes, which are the front of the answer to select, and its bytes behind the first cancel out |
| `CcidAtr.EveryAtsGivesAnAtr` | firmware/libraries/NeroNfc/src/reader/reader_security_key_iso_dep_session.h:29-54 | every answer to RATS on which a session is opened gives an ATR of 6 to 19 bytes, which always fits |
| `CcidIsoSession.IsoSessionsAlternate` | firmware/libraries/NeroNfc/src/reader/reader_ccid_bulk.c:211-286 | so in every run whose sessions are opened on such answers, openings and releases of the ISO-DEP session alternate, and the last of them tells whether the flag is up |
| `CcidIsoSession.IsoAlternatesExactlyUnlessReopenedAfterALeak` | firmware/libraries/NeroNfc/src/reader/reader_ccid_xfr.c:255-269 | without that promise of the layer below they alternate if and only if no power-on opens a session after a power-on that opened one and then had no ATR |
| `CcidIsoSession.PoweringOnTwiceWithoutAnAtrOpensTwice` | firmware/libraries/NeroNfc/src/reader/reader_ccid_xfr.c:255-269 | so the promise is needed: were there no ATR for a Type 4 tag, powering it on twice would open two sessions and release none |
| `CcidChaining.AcceptanceIgnoresState` | firmware/libraries/NeroNfc/src/reader/reader_ccid_bulk.c:61-157 | whether a message passes the checks in front of the dispatcher does not depend on the state |
| `CcidChaining.RefusedChangesNothing` | firmware/libraries/NeroNfc/src/reader/reader_ccid_bulk.c:61-157 | a message that does not pass them changes nothing and gets one failure reply |
| `CcidChaining.MessageCmd` | firmware/libraries/NeroNfc/src/reader/reader_ccid_bulk.c:159-468 | what one message does to the command under assembly: acknowledged blocks start or extend it, only a single block or a closing block dispatches, and it survives without growing only a refused message, a continuation, or a transfer that a pending abort refuses or that is an empty chained block |
| `CcidChaining.OtherCommandsDropTheAssembly` | firmware/libraries/NeroNfc/src/reader/reader_ccid_bulk.c:159-179 | a command other than a transfer that passes the checks drops it, even if a pending abort then refuses the command |
| `CcidChaining.MessageChain` | firmware/libraries/NeroNfc/src/reader/reader_ccid_bulk.c:159-173 | what one message does to a pending response: kept by refused messages, advanced by one block by a continuation, dropped by everything else |
| `CcidChaining.AFailedSendEndsTheResponse` | firmware/libraries/NeroNfc/src/reader/reader_ccid_xfr.c:156-246 | where the queue does not take a block, no response is left to continue |
| `CcidChaining.CutIsARun` | firmware/libraries/NeroNfc/src/reader/reader_ccid_xfr.c:156-194 | a response of more than 510 bytes is cut into exactly ceil(n/510) blocks, BEGIN, MIDDLE..., END, none empty or over 510 bytes, whose payloads joined are the response |
| `CcidChaining.TheRestIsHandedOut` | firmware/libraries/NeroNfc/src/reader/reader_ccid_xfr.c:156-194 | continuation requests, with any refused messages between them, get exactly the blocks still due, in order, and end the chain |
| `CcidChaining.CompletedIsExchanged` | firmware/libraries/NeroNfc/src/reader/reader_ccid_bulk.c:380-469 | a transfer that is executed in an open session, a single block with nothing under assembly or a closing block that fits, is the exchange of its payload or of the assembled command |
| `CcidChaining.ShortResponseIsTheReply` | firmware/libraries/NeroNfc/src/reader/reader_ccid_xfr.c:196-246 | if no abort follows the exchange, a response of at most 510 bytes is the payload of the reply to that transfer |
| `CcidChaining.LongResponseIsDeliveredOnce` | firmware/libraries/NeroNfc/src/reader/reader_ccid_xfr.c:156-246 | and of a longer one the reply to that transfer is the first block; with the replies to ceil(n/510)-1 continuations it is the whole response, nothing missing and nothing twice |
| `CcidRuns.CommandUnderAssembly` | firmware/libraries/NeroNfc/src/reader/reader_ccid_xfr.c:106-128 | in every run the assembly buffer holds exactly the payloads acknowledged since the latest acknowledged first block, with only refused messages, continuations and transfers that were aborted or empty between |
| `CcidRuns.DispatchIsWhatWasAcknowledged` | firmware/libraries/NeroNfc/src/reader/reader_ccid_bulk.c:380-469 | in every run what a closing block dispatches is that concatenation and the closing payload, at most 2050 bytes; so overflow, a single block or any other command in between excludes a dispatch until a new first block |
| `CcidRuns.PendingResponse` | firmware/libraries/NeroNfc/src/reader/reader_ccid_bulk.c:159-173 | in every run a pending response is that of the latest executed message, and its cursor has advanced one block per continuation since |
| `CcidRuns.ContinuationIsNeverStale` | firmware/libraries/NeroNfc/src/reader/reader_ccid_bulk.c:159-173 | in every run a continuation gets an error or precisely the next slice of that response, never older bytes |
| `CcidRelay.DispatchIsShielded` | firmware/libraries/NeroNfc/src/reader/reader_ccid_pn53x.c:577-662 | a dispatch relays an APDU only if allowed: no NDEF selection while FIDO is selected, no CTAP traffic wrapped in InDataExchange; only an accepted direct FIDO selection sets the flag |
| `CcidRelay.EveryRunIsShielded` | firmware/libraries/NeroNfc/src/reader/reader_ccid_pn53x.c:394-448 | in every run every relayed APDU was allowed when relayed, and the firmware's flag equals what an observer of its outputs computes |
| `CcidRelay.NoNdefSelectUntilRelease` | firmware/libraries/NeroNfc/src/reader/reader_ccid_pn53x.c:630-650 | after an accepted FIDO selection an NDEF application selection reaches the card only if the ISO session was released in between |
| `CcidRelay.NoWrappedFidoTraffic` | firmware/libraries/NeroNfc/src/reader/reader_ccid_pn53x.c:412-448 | no FIDO SELECT and no CTAP MSG, GETRESPONSE or END ever goes through InDataExchange |
| `CcidAnswers.DirectCommandIsAnsweredByTheCard` | firmware/libraries/NeroNfc/src/reader/reader_ccid_pn53x.c:628-652 | on a Type 4 tag a command that is no pseudo-APDU and not shielded is relayed as it is, and answered by the card's bytes, or 69 FF if there are fewer than two |
| `CcidAnswers.WrappedCommandIsAnsweredByTheCard` | firmware/libraries/NeroNfc/src/reader/reader_ccid_pn53x.c:394-452 | the command in FF 00 00 00 n D4 40 01 is relayed without its envelope and answered by D5 41 00, the card's bytes, 90 00, or D5 41 01 90 00 |
| `CcidAnswers.ShieldedCommandIsRefused` | firmware/libraries/NeroNfc/src/reader/reader_ccid_pn53x.c:412-430 | a shielded command is answered by 69 FF or D5 41 01 90 00 and does not reach the card |
| `CcidAnswers.HandlersAnswer` | firmware/libraries/NeroNfc/src/reader/reader_ccid_pn53x.c:590-616 | storage commands and raw exchanges with storage tags are answered by their handler's bytes, cut to 2050 or 510 |
| `CcidAnswers.OwnAnswers` | firmware/libraries/NeroNfc/src/reader/reader_ccid_pn53x.c:577-662 | the status words for commands that reach neither card nor handler |
| `CcidAnswers.PseudoApduAnswers` | firmware/libraries/NeroNfc/src/reader/reader_ccid_pn53x.c:482-575 | the answers of the ACR122 and PN532 pseudo-APDUs that need no tag, and their errors |
| `CcidAnswers.CompletedDoes` | firmware/libraries/NeroNfc/src/reader/reader_ccid_bulk.c:434-469 | all that a completed command does, in order: asking for time once in advance exactly where needed, the relay if there is one, further time extensions, the dispatch, one reply |
| `CcidAnswers.HostGetsTheCardsAnswer` | firmware/libraries/NeroNfc/src/reader/reader_ccid_bulk.c:434-469 | from message to message: a completed command for the card, direct or wrapped, is relayed, and an answer of at most 510 bytes is the payload of the reply |
| `CcidAnswers.HostGetsTheCardsLongAnswer` | firmware/libraries/NeroNfc/src/reader/reader_ccid_xfr.c:156-246 | and a longer one is what the reply and the continuations carry together |
| `CcidAnswers.EveryRunIsHonest` | firmware/libraries/NeroNfc/src/reader/reader_ccid_pn53x.c:577-662 | in every run: a command that a card has answered is done with that card's bytes, after nothing but requests to wait; what is done goes out at once; a command no card has answered gets a status word unless it is a pseudo-APDU; and nothing is owed at the end |
| `CcidAnswers.CardsAnswerGoesToTheHost` | firmware/libraries/NeroNfc/src/reader/reader_ccid_pn53x.c:628-652 | in every run every relayed command is followed, after requests to wait only, by its dispatch with the card's bytes and the block that delivers them |
| `CcidDevice.Device.constructor` | firmware/libraries/NeroNfc/src/reader/reader_ccid_xfr.c:95-104 | a fresh context is the initial state of the machine, with nothing sent |
| `CcidDevice.Device.EncodeBlockHeader` | firmware/libraries/NeroNfc/src/protocol/nfc_ccid_frame.c:107-121 | the ten header bytes in the reply buffer, the payload behind them untouched |
| `CcidDevice.Device.EncodeCommandFailed` | firmware/libraries/NeroNfc/src/reader/reader_ccid_bulk_codec.h:101-126 | the failure reply for a command, with the data-rate body where that is the reply type |
| `CcidDevice.Device.EncodeDataRate` | firmware/libraries/NeroNfc/src/reader/reader_ccid_protocol.h:258-287 | the eighteen bytes of the data-rate reply, stored field by field |
| `CcidDevice.Device.EncodeParams` | firmware/libraries/NeroNfc/src/reader/reader_ccid_protocol.h:72-196 | header and protocol data structure of the parameter reply, for either protocol |
| `CcidDevice.Device.AppendCommandChain` | firmware/libraries/NeroNfc/src/reader/reader_ccid_xfr.c:106-128 | the assembly buffer after a block, in all cases: empty block, block without a beginning, overflow, success |
| `CcidDevice.Device.SendChainChunk` | firmware/libraries/NeroNfc/src/reader/reader_ccid_xfr.c:156-194 | the next block of the response buffer is sent and the cursor moved, or the chain dropped when the send fails or nothing is left |
| `CcidDevice.Device.SendDataResponse` | firmware/libraries/NeroNfc/src/reader/reader_ccid_xfr.c:196-246 | a response goes out in one block, or is copied to the response buffer and started, or is answered by 6F00 |
| `CcidDevice.Device.Teardown` | firmware/libraries/NeroNfc/src/reader/reader_ccid_xfr.c:255-269 | both chains, the FIDO flag, the session and its owner are cleared, the ISO session released if open |
| `CcidDevice.Device.CompleteCardRemoval` | firmware/libraries/NeroNfc/src/reader/reader_ccid_xfr.c:271-283 | removal clears the slot, tears the session down and notifies if a card was there |
| `CcidDevice.Device.HandleBulk` | firmware/libraries/NeroNfc/src/reader/reader_ccid_bulk.c:55-477 | one bulk message changes the buffers and flags, and sends, relays and dispatches, exactly as the machine does, of which `CcidReplies` and `CcidAnswers` say what it is in bytes |
| `CcidDevice.Device.Poll` | firmware/libraries/NeroNfc/src/reader/reader_ccid.c:79-101 | so does one poll |
| `CcidDevice.Device.OnTagDetected` | firmware/libraries/NeroNfc/src/reader/reader_ccid.c:102-116 | so does the detection of a tag |
| `CcidDevice.Device.OnTagRemovedFromField` | firmware/libraries/NeroNfc/src/reader/reader_ccid.c:118-131 | so does the removal of a tag |
| `CcidDevice.ReaderLoop.LoopStep` | firmware/libraries/NeroNfc/src/reader/reader_app.c:599-668 | so does one step of the loop, with its miss counter |
| `CcidDevice.Run` | firmware/libraries/NeroNfc/src/reader/reader_app.c:671-686 | carrying out any run on fresh buffers ends in the state and with the outputs of the machine, hence in a safe state whose notifications tell whether a card is present |
| `NdefTlv.NextTlv` | firmware/libraries/NeroNfc/src/nfc_ndef_tlv.h:94-152 | the first block from an offset on, with value range and successor, or why there is none; offsets stay in 16 bits |
| `NdefTlv.FindMessageTlv` | firmware/libraries/NeroNfc/src/nfc_ndef_tlv.h:154-179 | the first message block, or how the area ends |
| `NdefTlv.FindIsSound` | firmware/libraries/NeroNfc/src/nfc_ndef_tlv.h:94-179 | whatever the scanner reports is the reading of the area as a list of padding and non-message blocks followed by a message, a terminator, the end, or something no block starts with |
| `NdefTlv.FindSkips` | firmware/libraries/NeroNfc/src/nfc_ndef_tlv.h:154-179 | any padding and any non-message blocks are passed |
| `NdefTlv.BuildMessageTlv` | firmware/libraries/NeroNfc/src/nfc_ndef_tlv.h:181-217 | the buffer holds message block and terminator if they fit, the rest untouched; otherwise nothing is written and the room needed is reported, clamped to 16 bits |
| `NdefTlv.BuildSize` | firmware/libraries/NeroNfc/src/nfc_ndef_tlv.h:77-81 | the built size is the envelope length |
| `NdefTlv.BuildThenFind` | firmware/libraries/NeroNfc/src/nfc_ndef_tlv.h:154-217 | finding in padding and blocks, then a built message, then anything, yields the payload, and a scan that goes on stops at the terminator behind it |
| `NdefTlv.MessageTlvBytes` | firmware/libraries/NeroNfc/src/nfc_ndef_tlv.h:181-217 | the block byte for byte: 03, a length of one byte or FF and two, the message, FE |
| `NdefTlv.MaxPayloadIsOptimalExactlyOutside255To258` | firmware/libraries/NeroNfc/src/nfc_ndef_tlv.h:83-92 | the advertised maximum fits if and only if the area has three bytes; it is the true optimum if and only if the area is not of 255 to 258 bytes, and falls short by at most two |
| `NdefTlv.FindIsStable` | firmware/libraries/NeroNfc/src/nfc_ndef_tlv.h:94-179 | a message or terminator found in a prefix is found in every extension, and one that ends inside a prefix is found there |
| `NdefTlv.PrefixOfMessage` | firmware/libraries/NeroNfc/src/nfc_ndef_tlv.h:94-179 | if the area has a message every prefix gives that message, or is cut off, or ends between blocks without a terminator |
| `NdefScan.ScanRaw` | userspace/app/nero_nfc_pcsc_storage_type2.cpp:150-182 | one look at what has been read: the message, "empty", or no verdict |
| `NdefScan.VerdictOfPrefix` | userspace/app/nero_nfc_pcsc_storage_common.cpp:161-169 | a verdict on a prefix is that of the whole area unless the prefix ends between blocks that contain the terminator value, and then it is "empty" |
| `NdefScan.MessageIsTheWholeAreas` | userspace/app/nero_nfc_pcsc_storage_type2.cpp:150-228 | any non-empty message an incremental reader returns is the whole area's |
| `NdefScan.FirstVerdictIs` | userspace/app/nero_nfc_pcsc_storage_type2.cpp:150-228 | what any reading by growing prefixes gives, whether or not it comes to the end of the area: "empty" if a look falls on such a prefix, else the whole area's verdict if the last look reaches the end of what the whole scan stops at, else none |
| `NdefScan.IncrementalIsWholeExactly` | userspace/app/nero_nfc_pcsc_storage_type2.cpp:150-228 | so it is the whole area's verdict if and only if no look falls on such a prefix and the last one reaches that end, or one does and the area is empty |
| `NdefScan.IncrementalIsWholeExactlyUnlessMisled` | userspace/app/nero_nfc_pcsc_storage_type5.cpp:577-652 | for a reading to the end of the area the second condition falls away |
| `NdefScan.CleanAreaNeverMisleads` | userspace/app/nero_nfc_pcsc_storage_common.cpp:161-169 | if no byte FE lies in front of the message, no cutting misleads |
| `NdefScan.StrayTerminatorHidesTheMessage` | userspace/app/nero_nfc_pcsc_storage_common.cpp:161-169 | of an area of 20 bytes with a 14-byte block holding FE, growing prefixes of 16 and 20 bytes give "empty", the whole area a message |
| `NdefScan.BuiltMessageIsRead` | firmware/libraries/NeroNfc/src/nfc_ndef_tlv.h:181-217 | an area that starts with a built message gives exactly that message as soon as its last byte is read, and no verdict before |
| `StorageWrite.WriteUnits` | userspace/app/nero_nfc_pcsc_storage_common.cpp:343-415 | for any memory whose failed writes leave anything in the units they name: it succeeds if and only if the image lies in the memory and no write of a single unit has failed, and then the target units hold the zero-padded bytes; each refused batch has cost two calls and the rest are full batches; nothing outside the target changes in any case; each call is aligned, inside the image and of at most max(252, unit) bytes; every unit number fits 16 bits; a refused image touches nothing |
| `StorageWrite.BatchFits` | userspace/app/nero_nfc_pcsc_storage_common.cpp:378-387 | a batch of several units has at most 252 bytes, and one unit more would be too many |
| `StorageWrite.RefusedExactlyWhen` | userspace/app/nero_nfc_pcsc_storage_common.cpp:343-377 | an image is refused if and only if the unit size is 0, it has more than 65535 bytes, or the number of its last unit does not fit 16 bits |
| `StorageWrite.MakeChunk` | userspace/app/nero_nfc_pcsc_storage_common.cpp:388-397 | a chunk is the slice of the zero-padded image |
| `StorageWrite.WriteChunk` | userspace/app/nero_nfc_pcsc_storage_common.cpp:399-412 | one call keeps what is done, and adds its units to it if it succeeds |
| `StorageWrite.PaddedWithZeros` | userspace/app/nero_nfc_pcsc_storage_common.cpp:388-397 | the image is longer than the bytes by less than a unit, all zeros |
| `StorageWrite.CompleteIsStored` | userspace/app/nero_nfc_pcsc_storage_common.cpp:343-415 | complete progress means the memory is the old one with the image stored in it |
| `StorageWrite.FailedWriteKeepsProgress` | userspace/app/nero_nfc_pcsc_storage_common.cpp:399-412 | a failed write inside the part still to do cannot spoil what is done or what is outside |
| `Type2Storage.ReadType2StorageNdef` | userspace/app/nero_nfc_pcsc_storage_type2.cpp:82-112 | reading follows the capability container, which the caller knows, the reader offers, or page 3 holds: read error, bad container, restricted access, or the read loop |
| `Type2Storage.KnownContainerStandsForPageThree` | userspace/app/nero_nfc_pcsc_storage_type2.cpp:82-112 | a read with a known container is the read of a tag that has it in page 3, so what follows holds of both |
| `Type2Storage.ReadStorageNdefTlv` | userspace/app/nero_nfc_pcsc_storage_type2.cpp:104-228 | the loop over pages, seeded with the container page, with its unit limit |
| `Type2Storage.WriteType2StorageNdef` | userspace/app/nero_nfc_pcsc_storage_type2.cpp:252-280 | which error or image a message gets; an image that lies in the memory is stored from page 4 on, and nothing else has changed, if and only if no write of a single page has failed; a failed write stays inside the image's pages |
| `Type2Storage.ContainerMeans` | firmware/libraries/NeroNfc/src/nfc_tag_info.h:486-505 | on the bytes of the tag: byte 12 must be E1 and byte 14, in units of 8 bytes the size of the area, not zero; the high half of byte 15 alone refuses reading, its low half alone refuses writing, and which messages are too large for the area or the pages |
| `Type2Storage.KnownContainerMeans` | userspace/app/nero_nfc_pcsc_storage_type2.cpp:82-112 | the same of a container that is already known |
| `Type2Storage.CapsNeverHideAWrittenPage` | firmware/libraries/NeroNfc/src/nfc_storage_ndef.h:114-140 | every accepted image lies in the data area, below page 226 and within the units a read looks at |
| `Type2Storage.EveryWrittenMessageIsRead` | userspace/app/nero_nfc_pcsc_storage_type2.cpp:104-280 | on a memory that covers the declared data area, for every message and area: what was written is what is read |
| `Type2Storage.ReadAfterWrite` | userspace/app/nero_nfc_pcsc_storage_type2.cpp:104-280 | on a memory of any size the read gives the message if and only if the memory reaches to the end of the 16-byte read that completes it; else a read error, or a refusal if reading is restricted |
| `Type2Storage.LastPagesCannotBeReadBack` | firmware/libraries/NeroNfc/src/nfc_storage_ndef.h:60-96 | with the reader's own span check, which ends at page 225, a written message is read back if and only if its TLV has at most 881 bytes or the area at most 888 |
| `Type2Storage.ReadMessageIsTheWholeAreas` | userspace/app/nero_nfc_pcsc_storage_type2.cpp:104-228 | a non-empty message read is that of a scan of the whole area |
| `Type2Storage.PiecemealReadIs` | userspace/app/nero_nfc_pcsc_storage_type2.cpp:104-228 | for every data area: reading page-wise gives the empty message if a look, every 16 bytes and none behind byte 900, falls on a misleading prefix, else what a scan of the whole area gives if that stops by byte 900, else truncated |
| `Type2Storage.PiecemealIsWholeExactly` | userspace/app/nero_nfc_pcsc_storage_type2.cpp:104-228 | so it is scanning at once if and only if no look misleads and the message or terminator the scan stops at ends by byte 900, or one misleads and the area is empty |
| `Type2Storage.AMessagePastByte900IsNotRead` | firmware/libraries/NeroNfc/src/nfc_storage_ndef.h:60-140 | a message of 900 bytes that fills an area of 904 bytes is in the area, ends at byte 908 and is reported truncated |
| `Type2Storage.AStrayTerminatorMakesATagEmpty` | userspace/app/nero_nfc_pcsc_storage_common.cpp:161-169 | every tag with 24 bytes of area that holds a 14-byte block beginning with FE, and behind it a message of one byte, is reported empty |
| `Type5Storage.ReadType5NdefTlv` | userspace/app/nero_nfc_pcsc_storage_type5.cpp:577-652 | the block loop, with the 16-bit arithmetic of its length |
| `Type5Storage.ReadNdefIsFirstVerdictExactlyUpTo65532` | userspace/app/nero_nfc_pcsc_storage_type5.cpp:581-613 | up to an area end of 65532 the reader gives the first verdict over its blocks; beyond, the 16-bit length is 0 and every read ends as truncated |
| `Type5Storage.ReadMessageIsTheWholeAreas` | userspace/app/nero_nfc_pcsc_storage_type5.cpp:577-652 | a non-empty message read is that of a scan of the whole area |
| `Type5Storage.PiecemealIsWholeExactlyUnlessMisled` | userspace/app/nero_nfc_pcsc_storage_type5.cpp:577-652 | reading block-wise is scanning at once if and only if no block ends a misleading prefix |
| `Type5Storage.BuiltMessageIsReadBack` | userspace/app/nero_nfc_pcsc_storage_type5.cpp:577-652 | a message built behind the capability container, inside the area, is read back |
| `Type5Storage.ReadIsRefusedExactlyWhen` | userspace/app/nero_nfc_pcsc_storage_type5.cpp:577-600 | reading is refused if and only if the area ends behind byte 65535, or is empty at one of the two ends |
| `Type4File.WriteType4NdefFile` | userspace/app/nero_nfc_pcsc_type4.cpp:313-401 | with UPDATE BINARY failing at any step, carried out or not: every intermediate file reads as the old, the empty or the complete new message; chunks stay clear of NLEN and inside the declared file and within MLc and 240; success leaves exactly the new message and the old rest; without faults a writable file is written; success comes only after all of the message has been read back behind the last update; a file that is not writable is not touched and the reason given |
| `Type4File.ReadNdefFile` | userspace/app/nero_nfc_pcsc_type4.cpp:98-200 | reading gives the content of the file or a card error, and never an error if no command fails; all of the message has been read, by reads of at most MLe and 254 bytes |
| `Type4File.ContentExactlyWhen` | userspace/app/nero_nfc_pcsc_type4.cpp:98-200 | a file reads as a message if and only if the declared limits are legal, reading is open, its first two bytes are the message's length, high byte first, within file and 65534, and the message follows |
| `Type4File.ContentErrors` | userspace/app/nero_nfc_pcsc_type4.cpp:98-140 | which error a file that cannot be read gives |
| `Type4File.WriteChunks` | userspace/app/nero_nfc_pcsc_type4.cpp:358-372 | the chunk loop keeps NLEN zero and fills the message from the front |
| `Type4File.EmptyWhileFilling` | userspace/app/nero_nfc_pcsc_type4.cpp:350-371 | between the two NLEN updates the file reads as empty |
| `Type4File.RestoringCompletes` | userspace/app/nero_nfc_pcsc_type4.cpp:373-384 | the last update makes the file read as the new message |
| `Type4File.ChunkFills` | userspace/app/nero_nfc_pcsc_type4.cpp:358-372 | a chunk extends what is in place and leaves NLEN and the rest alone |
| `NdefRecords.BuildNdefMessage` | userspace/app/nero_nfc_ndef.cpp:384-408 | the message is the records in order, with only their begin and end flags set anew; an empty record spoils it |
| `NdefRecords.ParseNdefRecords` | userspace/app/nero_nfc_ndef.cpp:410-457 | the records of the walk, up to 64 and up to the first that is cut off, unsupported or last, which `NdefGrammar` says in terms of printed records |
| `NdefGrammar.PrintedIsFound` | firmware/libraries/NeroNfc/src/protocol/nfc_ndef_record_decode.c:193-293 | a printed record, with or without ID, with a one-byte or a four-byte length, with any flags, is found at any position with exactly its TNF, type and payload, and the next one begins at its end |
| `NdefGrammar.FoundIsPrinted` | firmware/libraries/NeroNfc/src/protocol/nfc_ndef_record_decode.c:193-293 | whatever is found is such a record, printed there |
| `NdefGrammar.NextExactlyWhen` | firmware/libraries/NeroNfc/src/protocol/nfc_ndef_record_decode.c:193-293 | so a step finds a record if and only if one is printed there, with what is printed |
| `NdefGrammar.ParseOfElements` | userspace/app/nero_nfc_ndef.cpp:410-457 | a message of records of all forms, with zero bytes between them, parses to its records up to the 64th or the last |
| `NdefGrammar.ParseIsSound` | userspace/app/nero_nfc_ndef.cpp:410-457 | and for any bytes the records parsed are those of a front part that is printed that way, behind which no further record can be taken |
| `NdefRecords.WalkIsInOrder` | firmware/libraries/NeroNfc/src/protocol/nfc_ndef_record_decode.c:193-293 | for any bytes the records found lie in the message, in order and disjoint, fields inside the record, at most 64 of them |
| `NdefRecords.MarkedIsFound` | firmware/libraries/NeroNfc/src/protocol/nfc_ndef_record_decode.c:193-293 | a built short record is found for what it is wherever it stands |
| `NdefRecords.WalkOfJoined` | userspace/app/nero_nfc_ndef.cpp:410-457 | of joined records the walk takes the first 64 |
| `NdefRecords.ParseUndoesBuild` | userspace/app/nero_nfc_ndef.cpp:384-457 | parsing a built message gives the same records in the same order if and only if there are at most 64 |
| `NdefUri.DecodeUriPayload` | firmware/libraries/NeroNfc/src/protocol/nfc_ndef_record_decode.c:112-159 | the buffer holds prefix and suffix with a terminator if the payload decodes, an empty string otherwise |
| `NdefUri.BestIsLongest` | userspace/app/nero_nfc_ndef.cpp:336-348 | the code chosen is that of the longest table prefix that matches, and 0 if and only if no non-empty one does |
| `NdefUri.BuildNdefUriRecord` | userspace/app/nero_nfc_ndef.cpp:336-369 | a record is built for exactly the encodable URIs, with that code and the rest of the URI |
| `NdefUri.PayloadDecodes` | firmware/libraries/NeroNfc/src/protocol/nfc_ndef_record_decode.c:112-159 | the payload decodes to the URI exactly if the URI is encodable |
| `NdefUri.UriMessageRoundTrip` | userspace/app/nero_nfc_ndef.cpp:336-457 | a message of one URI record parses to that record, whose payload decodes to the URI |
| `NdefUri.AllowedUriIsEncodableExactlyWhen` | userspace/app/nero_nfc_ndef.cpp:336-369 | a URI of allowed bytes can be encoded if and only if it has 1 to 254 bytes, or 255 of which some are abbreviated |
| `NdefUri.UrlSafeExactlyWhen` | firmware/libraries/NeroNfc/src/protocol/nfc_ndef_record_decode.c:53-75 | the safe bytes are the printable ones but for the space and eight more |
| `CtapCodec.EncodeGetAssertion` | firmware/libraries/NeroNfc/src/protocol/nfc_ctap_codec.c:97-194 | the request is written if the RP ID and the buffer allow it, and its length reported |
| `CtapCodec.RequestLength` | firmware/libraries/NeroNfc/src/protocol/nfc_ctap_codec.c:119-145 | the precomputed length is exact without an allow list and three bytes too long with one |
| `CtapCodec.EncodableExactlyWhen` | firmware/libraries/NeroNfc/src/protocol/nfc_ctap_codec.c:97-194 | a request is written if and only if the RP ID has 1 to 253 bytes and the buffer holds the request, and 23 bytes more if there is an allow list |
| `CtapCodec.NoAllowIsOneMap` | firmware/libraries/NeroNfc/src/protocol/nfc_ctap_codec.c:97-194 | without an allow list the request is the print of one three-entry map |
| `CtapCodec.RequestIsOneItemExactlyWithoutAllowList` | firmware/libraries/NeroNfc/src/protocol/nfc_ctap_codec.c:40-194 | for every RP ID, hash and credential: the request is skipped as one item, consumed to its end, if and only if it has no allow list; with one it is no well-formed item |
| `CtapCodec.PackCborApdu` | firmware/libraries/NeroNfc/src/protocol/nfc_ctap_codec.c:196-263 | the APDU is written if it fits, short or extended |
| `CtapCodec.PackedApduIsRecovered` | firmware/libraries/NeroNfc/src/protocol/nfc_ctap_codec.c:359-419 | from every packed APDU the recogniser takes the same command byte and the body is the CBOR, with the exact length, P1 80 and a zero Le |
| `ModeScan.Scanner.FeedByte` | firmware/libraries/NeroNfc/src/protocol/nfc_mode_line_scan.c:30-109 | one byte: what stays buffered, what is reported, what is handed back |
| `ModeScan.Scanner.Reset` | firmware/libraries/NeroNfc/src/protocol/nfc_mode_line_scan.c:24-28 | the scanner holds nothing |
| `ModeScan.ScannerConserves` | firmware/libraries/NeroNfc/src/protocol/nfc_mode_line_scan.c:30-109 | for any input and a hand-back buffer of 32 bytes: reported commands and handed-back blocks in order, then the buffered bytes, are the input without carriage returns |
| `ModeScan.CrIsSkipped` | firmware/libraries/NeroNfc/src/protocol/nfc_mode_line_scan.c:42-44 | carriage returns make no difference to what is buffered |
| `ModeScan.LinesAreApart` | firmware/libraries/NeroNfc/src/protocol/nfc_mode_line_scan.c:46-72 | what came before a line feed makes no difference to what is buffered behind it |
| `ModeScan.FragmentsEmptyTheScanner` | firmware/libraries/NeroNfc/src/protocol/nfc_mode_line_scan.c:74-107 | a line made of fragments, each a proper prefix of "mode " and one mismatching byte, or "mode " and 26 bytes, leaves the scanner empty |
| `ModeScan.EmptyAfterFragments` | firmware/libraries/NeroNfc/src/protocol/nfc_mode_line_scan.c:74-107 | and a line that leaves it empty is made of fragments |
| `ModeScan.CommandReportedExactlyWhen` | firmware/libraries/NeroNfc/src/protocol/nfc_mode_line_scan.c:46-72 | at the end of any line of any input a command is reported if and only if the line, without its carriage returns, is fragments and then the command |
| `ModeScan.OnlyTheCommandIsReportedExactlyWhen` | firmware/libraries/NeroNfc/src/protocol/nfc_mode_line_scan.c:46-72 | so the promise that exactly the command line is reported holds of a line if and only if it is not one or more fragments and then a command |
| `ModeScan.LongerLineIsTakenForACommand` | firmware/libraries/NeroNfc/src/protocol/nfc_mode_line_scan.c:74-89 | the line "xmode reader" is taken for a command |
| `SerialRing.Ring.PushTail` | firmware/libraries/NeroNfc/src/core/nero_nfc_app.c:114-118 | appends to the queue |
| `SerialRing.Ring.PopHead` | firmware/libraries/NeroNfc/src/core/nero_nfc_app.c:120-125 | takes the first byte of the queue |
| `SerialRing.Ring.PrependHead` | firmware/libraries/NeroNfc/src/core/nero_nfc_app.c:127-132 | puts a byte in front of the queue |
| `SerialRing.Ring.Preload` | firmware/libraries/NeroNfc/src/core/nero_nfc_app.c:302-315 | appends what the port has, in order, until the queue is full, the port empty or a read fails |
| `SerialRing.Ring.PushbackRead` | firmware/libraries/NeroNfc/src/core/nero_nfc_app.c:325-331 | takes the first byte, or reports an empty queue |
| `SerialRing.Ring.PushbackReturn` | firmware/libraries/NeroNfc/src/core/nero_nfc_app.c:333-345 | puts a block in front, whole and in order, if it fits a capacity of one less than the array, and else changes nothing |
| `ModeSwitch.ScanModeSwitch` | firmware/libraries/NeroNfc/src/app/nfc_app.c:96-141 | draining the queue through the scanner: what was read, what stays buffered, the mode, and the queue afterwards; a block handed back in writer mode stops the scan at once and is back in front if it fits; in writer mode nothing is lost when everything fits the ring |
| `ModeSwitch.NothingIsLostInWriterMode` | firmware/libraries/NeroNfc/src/app/nfc_app.c:96-141 | in writer mode the commands carried out, what the scanner holds and the block handed back are what was held and read, without carriage returns |
| `ModeSwitch.NothingIsLostWhereItFits` | firmware/libraries/NeroNfc/src/app/nfc_app.c:121-138 | no block is lost if scanner and queue together held fewer bytes than the ring has |
| `ModeSwitch.AFullRingLosesTheBlock` | firmware/libraries/NeroNfc/src/core/nero_nfc_app.c:333-345 | a line that ends without being a command, with at least as many bytes held and queued as the ring has, is lost at once |
| `ModeSwitch.AScanCanLoseABlockExactlyWhen` | firmware/libraries/NeroNfc/src/app/nfc_app.c:96-141 | by sizes: a scan can lose a block if and only if the scanner holds less than it flushes, something is queued, and held and queued bytes together are as many as the ring has |
| `LinePump.Pump.Feed` | userspace/app/nero_nfc_line_pump.cpp:46-67 | after any feeding the callbacks are the lines of everything fed |
| `LinePump.Pump.PendingBytes` | userspace/app/nero_nfc_line_pump.hpp:54 | the length of the unfinished line, or 0 if it is too long to be kept |
| `LinePump.FeedAll` | userspace/app/nero_nfc_line_pump.cpp:46-67 | for any chunks the callbacks are those of the whole stream |
| `LinePump.OneMoreByte` | userspace/app/nero_nfc_line_pump.cpp:46-67 | what one byte adds to the lines of a stream and to its unfinished line |
| `LinePump.LinesSplitAtNewlines` | userspace/app/nero_nfc_line_pump.cpp:46-67 | the lines of a stream split at any newline are those of the parts |
| `LinePump.LineIsReported` | userspace/app/nero_nfc_line_pump.cpp:33-67 | a line is reported without the one carriage return in front of its newline, and not at all if it is longer than 8192 bytes |

## Left out

- Null pointers, and cursors set behind their data by a caller: the functions refuse them, and the model's types exclude them.
- `cbor_read_legacy_signature_tail`: a fixed-layout reader over the same cursor that would add only an easy member.
- The contents of the ATRs of storage tags, the storage APDU handlers, list-passive-target and the raw transceive commands: their answers are inputs of a step.
- The ISO-DEP exchange below an APDU (RATS, blocks, deselect): of it only what is kept of an answer to RATS is modelled; whether opening succeeds is an input of a step.
- Wall-clock values: whether an interval or deadline has passed is an input of a step, so timing itself is not modelled.
- The UID a probe finds and remembers: whether it is the same or could be stored is an input of a step.
- Capability-container decoding of Type 4 and Type 5 tags, Type 5 system information, and the refresh of the Type 5 container: field decoding with no strong claim.
- Type5Storage.ReadType5NdefTlv: takes blocks of exactly four bytes, because the transparent fallback reads are not modelled; writing a Type 5 tag is modelled only as its unit writer (`StorageWrite.WriteUnits`).
- Type2Storage.ReadStorageNdefTlv: takes a successful READ BINARY to return as many bytes as asked for; a card that answers with fewer, or with another length after a 6Cxx status, is not modelled.
- Type4File.ReadNdefFile: treats file offsets as flat 16-bit addresses; that ISO 7816-4 reads an offset with the top bit set as a short file identifier is not modelled, and selecting the application and the files is part of a command that may fail.
- Error texts, tag details and the decoded summaries of records: presentation.
- Text, MIME, Wi-Fi and Bluetooth record builders: the same record form as URI records with other payloads.
- CCID messages larger than the 2060-byte work buffer are cut to it before they are handled, as in the source; the USB transfer layer below is not modelled.
- Printing and radio set-up on a mode switch in `ModeSwitch.ScanModeSwitch`: output only.
