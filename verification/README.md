# Host-side protocols and codecs of ckman, verified

This project models the host-side logic of ckman, a manager for CanoKey
security keys, in Dafny and proves what that logic is for.

- **CTAPHID** (section 11.2 of CTAP 2.1). `CtapHid` frames and reassembles
  messages; `CtapChannel` allocates channels and runs requests over a report
  device; `CtapRefinement` proves that arbitrary report streams behave like
  messages; `Loopback` is the device side; `FidoAdapter` puts ISO 7816 command
  chaining (section 5.1.1.1 of ISO/IEC 7816-4:2005) on top, and `ApduChains`
  says what any history of APDUs sends.
- **PIV management keys.** `Pivman` and `Tlv` are the ADMIN DATA and PRINTED
  codecs; `PivCard` is a card whose every command can be lost, refused or lose
  its response; `PivSync`, `PivPinSync` and `PivTheorems` are key rotation, PIN
  change and what every run and every sequence of runs keeps; `FileSystem` and
  `PivRecovery` add the durable copy of the new key; `PivBatch` is batch key
  generation.
- **Codecs and parsers.** `BitCodec`, `Base32` and `Base64` (RFC 4648);
  `UriText`, `OtpAuth`, `OtpAuthUris`, `OtpAuthReadings` and
  `OtpAuthRoundTrip`; `PfxKdf` (appendix B.2 of RFC 7292);
  `NameText`, `NameGrammar`, `SubjectValue` and `Rfc4514`; `OathName`; `Pem`
  (RFC 7468).
- **Small kernels.** `CredentialPrefix`, `PreparedFile`, `SecretReader`.

Code that works step by step is a method, on a class where the source keeps
state, proved equal to a reference function or relation; the theorems are about
that reference. `CtapOctets`, `PivOctets`, `TextOctets`, `OtpOctets` and
`NameOctets` say what the formats are in literal octets and characters, without
the functions that produce them. Text is its UTF-8 octets: every character the
parsers single out is ASCII, so octets and characters agree, and which octets
are valid UTF-8 is a parameter. `Wrappers`, `Sequences`, `Radix` and `Ascii`
hold the shared vocabulary.

## What the proofs found

These follow the code where its comments, its tests or an obvious reading
promise more. Each names its lemmas: the exact condition under which the
property holds and, where the condition hides it, an input for which it fails.

- An interrupted PIN change can strand the card. It moves the derived key to a
  new salt in three writes: PIN, key, ADMIN DATA. Stopped after the first, ADMIN
  DATA still names the salt of a key that only the old PIN derives; stopped
  after the second, it names the old salt while the new one exists nowhere else.
  In either window, unless the derivation happens to give the same key, no later
  PIN change gets past authentication; after any other stop one does
  (`InterruptedPinChangeSyncedIff`, `StrandedIff`, `RunWithLostResponse`,
  `InterruptedPinChangeCanStrand`). Key rotation has no such gap
  (`InterruptedRotationCanBeRepeated`).
- Order of query pairs can matter, because the whole URI is trimmed before it
  is split: a pair may stand anywhere exactly when it means the same with and
  without the white space at its end, and `issuer=B ` does not
  (`StandsAnywhereIff`, `PaddedPairsDependOnOrder`).
- For the same reason percent-encoding can matter in the last pair:
  `issuer=B ` there names `B` and `issuer=B%20` names `B `. Last pairs can
  replace each other exactly when they read the same once trimmed
  (`InterchangeableIff`, `PaddedPairsDependOnEncoding`).
- The empty distinguished name prints as the empty string, which the parser
  refuses; apart from that and empty RDNs every printed name reads back
  (`EmptyNameIsRefused`, `ParsesIffPrints`).
- Shortened credential identifiers are ambiguous when one identifier begins
  another, or when two agree on 64 octets (`ShownSelectsIffSeparable`).
- A request whose command is KEEPALIVE or ERROR cannot succeed
  (`RequestCanSucceedIff`).
- A request returns the reply to an earlier one that timed out, if that reply
  has come in the meantime: the answer is its own exactly when nothing but
  well-formed keepalives was queued on the channel (`QueuedComeFirst`,
  `LateReplyIsTaken`).
- Growing the secret buffer copies less than twice the result except when the
  result is empty, where both are zero (`ReadSecret`).
- An issuer with a colon, an empty issuer and an account with an inner colon do
  not survive the OATH name convention (`SurvivesIffRepresentable`).
- A chain that exceeds the CTAPHID limit is dropped at the fragment that
  exceeds it; the fragments after it begin a new chain, so that the tail of an
  overlong message can be sent as a message of its own
  (`ChunkingSendsMessageIff`, `ChunkingSends`, `OverlongTail`).
- The loopback device panics on an INIT request whose reply does not fit a
  message (`PanicsIffReplyTooLong`).
- An output keeps its destination intact at every moment exactly when the first
  random name that is free is not the destination itself: otherwise the
  unfinished temporary file is the destination (`Replace`, `FirstFreeIff`,
  `UnsyncedIsNotIntact`).
- Writing an output again after a failed write goes on where that one stopped.
  What is published is complete exactly when nothing had been left in the
  temporary file (`Output.Write`, `RetriedWrite`).

## Model

| member | source | states |
|---|---|---|
| `CtapHid.CapacityIsExact` | crates/ckman-transport/src/ctaphid.rs:154-161 | 7609 = 57 + 128·59 is exactly the largest length whose continuation packets fit the 7-bit counter: longer messages, and only those, need more packets than there are counter values |
| `CtapHid.FrameMessage` | crates/ckman-transport/src/ctaphid.rs:154-184 | a payload longer than 7609 octets is refused with its length; any other becomes exactly the packets the format defines, built packet by packet with the counter never leaving its range |
| `CtapHid.MessageDecoder.constructor` | crates/ckman-transport/src/ctaphid.rs:201-204 | a new decoder has seen nothing and is idle |
| `CtapHid.MessageDecoder.Push` | crates/ckman-transport/src/ctaphid.rs:208-260 | for every history of reports, a message comes out at a report exactly when the most recent reports are that message up to CID and padding; every error leaves the decoder idle; the byte count and counter of a message in flight stay tied together, so neither can overflow |
| `CtapHid.DecodeIffMessage` | crates/ckman-transport/src/ctaphid.rs:186-260 | both directions of "one message in, one message out" on arbitrary report streams, with aborts, restarts and stray continuations before the message |
| `CtapHid.ReachedIffEndsWith` | crates/ckman-transport/src/ctaphid.rs:230-258 | after any history the decoder holds the first k packets of a message exactly when the last k reports are those packets |
| `CtapHid.FramesArrive` | crates/ckman-transport/src/ctaphid.rs:154-260 | framed packets fed to a decoder in any state complete the message at the last packet and not before |
| `CtapHid.OnContStep` | crates/ckman-transport/src/ctaphid.rs:239-259 | a continuation extends exactly the message in flight that expects it: right counter, right data, right earlier octets |
| `CtapOctets.CommandCodes` | crates/ckman-transport/src/ctaphid.rs:41-71 | the nine command octets, and that no other octet is a command |
| `CtapOctets.InitLayout` | crates/ckman-transport/src/ctaphid.rs:163-172 | an initialization packet octet by octet: CID, command, length with its high octet first, 57 octets of payload or zeros |
| `CtapOctets.ContLayout` | crates/ckman-transport/src/ctaphid.rs:173-183 | continuation i octet by octet: CID, i, the next 59 octets of payload or zeros |
| `CtapOctets.PacketsNeeded` | crates/ckman-transport/src/ctaphid.rs:154-184 | there are as many packets as the payload needs, and no more |
| `CtapOctets.CarriesOctets` | crates/ckman-transport/src/ctaphid.rs:208-260 | what "up to CID and padding" means: the octets from the header to the end of the payload agree |
| `CtapOctets.Violations` | crates/ckman-transport/src/ctaphid.rs:208-260 | exactly when a report is refused, and with which error: by its own octets, or by what the reports before it have begun |
| `CtapChannel.WriteAll` | crates/ckman-transport/src/ctaphid.rs:286-288 | packets are written in order up to the first refusal: all of them on success, on a refusal exactly those before the first refused one |
| `CtapChannel.CtapHidChannel.Allocate` | crates/ckman-transport/src/ctaphid.rs:280-331 | allocation writes one broadcast INIT and returns what listening on the broadcast channel for the nonce yields; a refused write changes nothing |
| `CtapChannel.CtapHidChannel.AwaitInit` | crates/ckman-transport/src/ctaphid.rs:289-330 | the waiting loop computes the report-by-report reference, consuming exactly the reads it accounts for |
| `CtapChannel.CtapHidChannel.Request` | crates/ckman-transport/src/ctaphid.rs:339-381 | a request writes exactly its packets and returns what listening on its channel yields, with the keepalive statuses in the order received; an oversized payload writes nothing, a refused write leaves exactly the packets before it |
| `CtapChannel.CtapHidChannel.AwaitResponse` | crates/ckman-transport/src/ctaphid.rs:350-380 | the response loop computes the report-by-report reference, statuses and unread reports included |
| `CtapRefinement.ListenRefinesMessages` | crates/ckman-transport/src/ctaphid.rs:292-330 | reports on our channel that spell messages m1..mn, interleaved with any other traffic, behave like the messages themselves: each but the last passed over, the last decides |
| `CtapRefinement.RequestReturnsReply` | crates/ckman-transport/src/ctaphid.rs:339-381 | keepalives k1..kn and then the reply, with other channels interleaved: the request returns the reply and reports exactly k1..kn in order |
| `CtapRefinement.ListenIsTruthful` | crates/ckman-transport/src/ctaphid.rs:357-380 | the converse: a successful result is the verdict on a message whose packets really arrived on the channel |
| `CtapRefinement.RequestCanSucceedIff` | crates/ckman-transport/src/ctaphid.rs:360-378 | a request can ever succeed if and only if its command is neither KEEPALIVE nor ERROR |
| `CtapRefinement.AllocationFindsItsReply` | crates/ckman-transport/src/ctaphid.rs:303-329 | any number of other messages and of replies of at least 17 octets with a foreign nonce are skipped; the own reply succeeds exactly when its channel is not reserved |
| `CtapRefinement.AllocatedChannelIsUsable` | crates/ckman-transport/src/ctaphid.rs:303-329 | whatever the device sends, an allocated channel is not reserved and was assigned by a reply with our nonce |
| `CtapOctets.ResponseCodes` | crates/ckman-transport/src/ctaphid.rs:74-121 | every error code and keepalive status by its octet |
| `CtapOctets.ResponseVerdicts` | crates/ckman-transport/src/ctaphid.rs:357-380 | what a request makes of any message: passed over, its payload, the device error, or which violation |
| `CtapOctets.InitVerdicts` | crates/ckman-transport/src/ctaphid.rs:303-329 | what allocation makes of any message, in octets: the nonce, the reserved numbers, and the capability bits 0, 2 and 3 |
| `CtapOctets.WaitingEnds` | crates/ckman-transport/src/ctaphid.rs:289-305 | no more reports, a failing read, or a report that is refused end the waiting, each with its error |
| `Loopback.LoopbackDevice.WriteReport` | crates/ckman-transport/src/ctaphid.rs:524-531 | the device state and the fate of every report: rejected exactly on framing violations, a panic exactly when the reply to an INIT request does not fit a message, accepted otherwise |
| `Loopback.PanicsIffReplyTooLong` | crates/ckman-transport/src/ctaphid.rs:436-462 | in terms of the reports received: the panic happens exactly when they end in an INIT request whose reply, nine octets longer, exceeds 7609 |
| `Loopback.DeviceReceivesMessage` | crates/ckman-transport/src/ctaphid.rs:403-531 | a framed request reaches the device exactly once and unchanged, whatever it saw before |
| `Loopback.DeviceLogsRequests` | crates/ckman-transport/src/ctaphid.rs:441-468 | a device fed several framed requests logs exactly those requests in order |
| `Loopback.RequestRoundTrip` | crates/ckman-transport/src/ctaphid.rs:339-535 | end to end: the device logs the request, and listening to its output returns its reply after exactly its keepalives |
| `Loopback.QueuedComeFirst` | crates/ckman-transport/src/ctaphid.rs:339-535 | the same with any messages still queued on the channel: the request returns the verdict on the first message, queued or new, that is a response or an error, passes over those before it and leaves those after it; it is the answer to this request exactly when every queued message is passed over |
| `Loopback.LateReplyIsTaken` | crates/ckman-transport/src/ctaphid.rs:339-535 | where that fails: the reply to a request that timed out is returned for the next request, whose own reply stays queued |
| `Loopback.FailureIsReported` | crates/ckman-transport/src/ctaphid.rs:494-516 | a device that fails a CBOR request: the host reports exactly its error, for every error code |
| `Loopback.PingEchoes` | crates/ckman-transport/src/ctaphid.rs:463 | a ping of any payload that fits returns it |
| `Loopback.AllocationRoundTrip` | crates/ckman-transport/src/ctaphid.rs:280-462 | allocation end to end: the host gets the channel number the device assigned and its capability bits |
| `FidoAdapter.EncodedIsData` | crates/ckman-core/src/fido.rs:130-159 | every ISO 7816-4 encoding of a CTAP message command, short or extended, chained or not, is read as its data |
| `FidoAdapter.DataIsEncoded` | crates/ckman-core/src/fido.rs:130-159 | nothing else is accepted as data |
| `FidoAdapter.FeedByShape` | crates/ckman-core/src/fido.rs:130-170 | in octets, for every command and every pending buffer: the two SELECTs, fragments kept, messages completed, and every refusal by the shape that causes it |
| `FidoAdapter.CtapHidAdapter.Exchange` | crates/ckman-core/src/fido.rs:122-183 | the answer is 90 00 and the device left alone exactly for the two SELECTs, given in octets, which empty the buffer, and for fragments that fit, which are added to it; every refusal has its cause in the octets; a completed message is forwarded and its reply returned with 90 00; a failure empties the buffer; as long as the device refused no report, all the adapter ever wrote is the frames of the requests that the APDU history sends; a refused report leaves exactly those before it |
| `FidoAdapter.CtapHidAdapter.ExchangeInner` | crates/ckman-core/src/fido.rs:130-170 | the statements do what `FeedByShape` says in octets; the buffer never exceeds 7609 octets, so the subtraction in the length check cannot underflow |
| `ApduChains.ChainStartIsLastEnd` | crates/ckman-core/src/fido.rs:122-170 | the current chain began right after the last SELECT, error or completed message |
| `ApduChains.PendingIsCurrentChain` | crates/ckman-core/src/fido.rs:122-170 | for every APDU history, what is pending is the concatenated data of the fragments since then |
| `ApduChains.RequestIsChain` | crates/ckman-core/src/fido.rs:166-183 | each request sent is that concatenation followed by the last fragment |
| `ApduChains.ChunkingSendsMessageIff` | crates/ckman-core/src/fido.rs:160-171 | a message cut into chunks in any way is sent unchanged, once, if and only if it fits one CTAPHID message |
| `ApduChains.ChunkingSends` | crates/ckman-core/src/fido.rs:160-171 | what any chunking sends, fitting or not: the concatenation of the chunks after the last refused one, once, or nothing if that is too long as well |
| `ApduChains.OverlongTail` | crates/ckman-core/src/fido.rs:160-171 | a message of three chunks, the second refused, of which the third is sent as if it were a message |
| `ApduChains.DeviceLogsHistory` | crates/ckman-core/src/fido.rs:122-183 | for every history of the adapter: the very reports it wrote, fed to a device in any state, make it log exactly the requests of the APDU history |
| `ApduChains.DeviceLogsChunkedMessage` | crates/ckman-core/src/fido.rs:122-183 | and so a message that fits, however it was cut into chunks, is logged after the earlier requests, whole and once |
| `PivSync.SetManagementKeySynced` | crates/ckman-core/src/piv.rs:1412-1509 | whatever command fails or loses its response: an error without a stage means nothing was attempted; a stage names the last write attempted, everything before it committed, itself perhaps, and nothing after it; the active keys are among the earlier ones and the new one; it succeeds only with the right key, PIN and readable objects, then whenever nothing fails, and leaves what `CompletedRotationLeaves` says |
| `PivSync.CompletedRotationLeaves` | crates/ckman-core/src/piv.rs:1448-1508 | object by object: PRINTED holds the new key when protecting, no key when a stored one had to be cleared, and is untouched otherwise; ADMIN DATA loses its salt, keeps its timestamp and upper flags, says whether the key is stored, and keeps the PUK bit unless protecting sets it; the PUK is blocked when protecting |
| `PivSync.PlanWritesOnlyChanges` | crates/ckman-core/src/piv.rs:1460-1507 | PRINTED, ADMIN DATA and the PUK are written exactly when they have to change |
| `PivSync.CommitUpdate` | crates/ckman-core/src/piv.rs:1447-1508 | the writes attempted are a prefix of [replace key, PRINTED, ADMIN DATA, PUK block], all of them committed but perhaps the last; the whole plan on success |
| `PivSync.PlanIsOrdered` | crates/ckman-core/src/piv.rs:1447-1508 | each write occurs at most once and in stage order, so a stage pins down one write |
| `PivSync.Attempt` | crates/ckman-core/src/piv.rs:1391-1398 | the write is attempted, once; if it fails, the error carries the stage of this write, whether or not the card carried it out |
| `PivSync.Prepare` | crates/ckman-core/src/piv.rs:1427-1446 | everything the rotation depends on is read and parsed before the first write, and no failure here carries a stage |
| `PivSync.ProtectionCompletes` | crates/ckman-core/src/piv.rs:1496-1507 | the PUK block authenticates with what the earlier writes published, so it cannot be locked out by them |
| `PivSync.UpdateReadsBack` | crates/ckman-core/src/piv.rs:1450-1458 | ADMIN DATA after the update parses to: no salt, the stored-key flag as asked, the PUK flag when protecting |
| `PivTheorems.CompletedRotationSyncs` | crates/ckman-core/src/piv.rs:1412-1509 | from any readable state, a completed rotation leaves metadata and active key in sync |
| `PivTheorems.OldOrNewKey` | crates/ckman-core/src/piv.rs:1448-1449 | after any prefix of the writes the active key is the old one (empty prefix) or the new one |
| `PivTheorems.InterruptedRotationCanBeRepeated` | crates/ckman-core/src/piv.rs:1403-1411 | from every state an interrupted rotation can leave, even part of the way through the PUK block, one repetition can read all it needs and restores synchronisation |
| `PivPinSync.ChangePinSynced` | crates/ckman-core/src/piv.rs:1514-1562 | however a PIN change ends, the committed writes are a prefix of its plan and nothing is written unless it could authenticate; a lost response to the new PIN or to the new key stops it right there; success leaves what `CompletedPinChangeLeaves` says |
| `PivPinSync.CompletedPinChangeLeaves` | crates/ckman-core/src/piv.rs:1524-1561 | the new PIN, and with a salt the 3DES key derived from the new PIN and the new salt, named by ADMIN DATA; flags, timestamp, PRINTED and PUK as before |
| `PivTheorems.CompletedPinChangeSyncs` | crates/ckman-core/src/piv.rs:1514-1562 | a completed PIN change keeps metadata and key in sync |
| `PivTheorems.InterruptedPinChangeSyncedIff` | crates/ckman-core/src/piv.rs:1543-1561 | with or without a salt, after any number of writes: a stopped PIN change is out of sync exactly when it stopped between keys, after the PIN with two PINs or after the key with two salts that derive different keys |
| `PivTheorems.StrandedIff` | crates/ckman-core/src/piv.rs:1524-1561 | these stops, and only these, leave a card on which no PIN change can get past authentication any more |
| `PivTheorems.RunWithLostResponse` | crates/ckman-core/src/piv.rs:1514-1562 | for every synchronised card with a salt, a run of the PIN change itself in which one response is lost, that to the new PIN or that to the new key: it ends right there, and strands the card exactly under this condition |
| `PivTheorems.InterruptedPinChangeCanStrand` | crates/ckman-core/src/piv.rs:1511-1562 | a card, a derivation and a call that can authenticate, stranded by both stops |
| `PivTheorems.HistoriesStaySynced` | crates/ckman-core/src/piv.rs:1400-1562 | any sequence of successful rotations and PIN changes keeps: salt ⇒ derived key, stored-key flag ⇒ PRINTED holds the key, never both |
| `Tlv.ReadEncoded` | crates/ckman-core/src/piv.rs:1192-1216 | reading an encoded element returns it and what follows it |
| `PivOctets.LengthLayout` | crates/ckman-core/src/piv.rs:1220-1243 | lengths in octets: the shortest definite form, the highest octet first |
| `PivOctets.LengthReads` | crates/ckman-core/src/piv.rs:1192-1216 | which lengths are read: short and long forms up to four octets, not necessarily the shortest, and no indefinite form |
| `Pivman.SetFlagChangesOneBit` | crates/ckman-core/src/piv.rs:1260-1276 | a flag setter changes its own bit and no other part of the data |
| `PivOctets.FlagBits` | crates/ckman-core/src/piv.rs:1245-1253 | bit 0 claims a blocked PUK, bit 1 a stored key |
| `Pivman.ParseValue` | crates/ckman-core/src/piv.rs:1187-1215 | the parsing loop accepts and returns what the field-by-field reference does |
| `Pivman.ParsesIffFieldsInSomeOrder` | crates/ckman-core/src/piv.rs:1187-1215 | an object value is accepted exactly when its fields are those of some data, each once, in any order |
| `Pivman.ValueRoundTrip` | crates/ckman-core/src/piv.rs:1187-1243 | reading back what was written returns it, for all data within the TLV limits |
| `PivOctets.AdminLayout` | crates/ckman-core/src/piv.rs:1187-1243 | ADMIN DATA octet by octet, written and read: 80 with 81 flags, 82 salt, 83 timestamp, or nothing at all |
| `PivOctets.PrintedLayout` | crates/ckman-core/src/piv.rs:1288-1327 | PRINTED octet by octet, written and read: 88 with 89 and the key, or empty |
| `Pivman.ValueInjective` | crates/ckman-core/src/piv.rs:1484 | comparing encodings is comparing data |
| `Pivman.ParsedIsEncodable` | crates/ckman-core/src/piv.rs:1187-1243 | data read from an object of ordinary size can be written again |
| `Pivman.ProtectedRoundTrip` | crates/ckman-core/src/piv.rs:1288-1327 | PRINTED round trip, with and without a key |
| `PivBatch.ValidateGenerationSlots` | crates/ckman-core/src/piv.rs:869-879 | accepted exactly when there is a slot and no slot occurs twice |
| `PivBatch.GenerateKeysWithProgress` | crates/ckman-core/src/piv.rs:907-973 | batch and callback record what they see in one log: in every run keys are handed over one by one in order, each before any command for a later slot, even if one response completes several; a callback error is the last event; success returns the key of every slot in its place, just as it was handed over, and comes whenever every exchange advances and no key is rejected; each other error has its cause |
| `PivBatch.ResultIsHandedOver` | crates/ckman-core/src/piv.rs:961-973 | the result lists the keys of the items after the authentication in their order, and is what was handed over, number by number |
| `PivBatch.ReportNew` | crates/ckman-core/src/piv.rs:948-957 | exactly the newly completed keys are handed over, in order, up to a rejection |
| `PivBatch.HandedOverAreFirstKeys` | crates/ckman-core/src/piv.rs:941-957 | what the order means: the keys handed over are the first keys of the batch, each once |
| `PivRecovery.Create` | crates/ckman/src/commands/piv_recovery.rs:15-86 | the text is complete and on disk when creation succeeds, under the requested or the first free random name; existing files are never touched; without failures it succeeds exactly when the name is free |
| `PivRecovery.TextTellsNote` | crates/ckman/src/commands/piv_recovery.rs:24-36 | however the file is worded, its text determines the new key, its algorithm and both flags |
| `PivOctets.RecoveryText` | crates/ckman/src/commands/piv_recovery.rs:24-32 | the words for algorithm and flags, and the key in hexadecimal |
| `PivRecovery.DurableSurvivesCrash` | crates/ckman/src/commands/piv_recovery.rs:72-76 | after a crash nothing but the whole text can be found under its name |
| `PivRecovery.ReplaceWithRecovery` | crates/ckman/src/commands/piv_recovery.rs:78-113 | no write to the card is attempted before the copy is on disk; the copy is on disk in every state of the disk from the first attempt until complete success, and stays otherwise; every key ever active is the old one or the one in the copy; other files are kept; if nothing fails it finishes and the copy is gone |
| `PivRecovery.CrashLeavesKnownKey` | crates/ckman/src/commands/piv_recovery.rs:72-93 | what `ReplaceWithRecovery` ensures of every run: power lost while any write is attempted, exactly the text with the new key is found under the name, and every key that was ever active is the old one or that one |
| `PreparedFile.Output.Prepare` | crates/ckman/src/commands/output.rs:31-89 | only an empty temporary file is added, under the first of the random names that is not taken, even if that is the destination; a failure adds nothing |
| `PreparedFile.FirstFreeIff` | crates/ckman/src/commands/output.rs:56-87 | a name is chosen if and only if it is free and all random names before it are taken |
| `PreparedFile.Output.Write` | crates/ckman/src/commands/output.rs:95-117 | for every prepared output: what a success publishes, what each failure leaves and when it happens; for a settled destination in another file, every state, also after a crash, keeps the original or the complete contents if and only if this fails or the file was empty before (or the destination held the result anyway) |
| `PreparedFile.PublishedIsIntact` | crates/ckman/src/commands/output.rs:100-103 | renaming a synced file keeps the destination intact, crash or not, exactly when the file holds the original or the complete contents |
| `PreparedFile.UnsyncedIsNotIntact` | crates/ckman/src/commands/output.rs:56-103 | a destination whose data is not on disk can be found with other contents after a crash, whatever the original was |
| `PreparedFile.Replace` | crates/ckman/src/commands/output.rs:29-150 | preparing, writing and dropping: for every settled destination, every state keeps it intact if and only if the temporary name is not the destination, that is, the destination is not the first free random name; other files are kept |
| `PreparedFile.RetriedWrite` | crates/ckman/src/commands/output.rs:95-103 | writing again after a failed sync publishes the contents twice |
| `PreparedFile.Output.Drop` | crates/ckman/src/commands/output.rs:143-150 | dropping removes the temporary file unless it was published or kept |
| `Base32.Base32Decode` | crates/ckman-core/src/uri.rs:90-116 | succeeds with b exactly when the input without spaces and padding, upper-cased, is the encoding of b; the output never outgrows ⌊5n/8⌋ octets |
| `Base32.TakeOctet` | crates/ckman-core/src/uri.rs:102-107 | the octet taken from the wrapping 32-bit accumulator is the next octet of the unbounded bit string |
| `TextOctets.Base32Alphabet` | crates/ckman-core/src/uri.rs:94-119 | the alphabet character by character, lower case as upper case, `=` and space as nothing |
| `TextOctets.TestVectors` | crates/ckman-core/src/uri.rs:118-133 | test vectors of section 10 of RFC 4648, for both alphabets |
| `Base32.CanonicalIffDecodes` | crates/ckman-core/src/uri.rs:109-114 | incomplete groups and nonzero completing bits are refused, and nothing else |
| `Base32.Base32Encode` | crates/ckman-core/src/uri.rs:118-133 | block-wise encoding over a 64-bit accumulator is the encoding of the whole bit string |
| `Base32.EncodeInjective` | crates/ckman-core/src/uri.rs:118-133 | different octets have different encodings |
| `BitCodec.DecodeIffEncode` | crates/ckman-core/src/uri.rs:109-115 | the bit-string codec accepts exactly its canonical encodings |
| `UriText.DecodePercent` | crates/ckman-core/src/uri.rs:135-162 | the decoding loop computes the reference |
| `UriText.DecodesIffEncodes` | crates/ckman-core/src/uri.rs:135-162 | percent-decoding returns a text exactly when the input writes it, octet by octet, literally or as triplets in either case, and it is valid |
| `TextOctets.HexDigits` | crates/ckman-core/src/uri.rs:135-143 | the hexadecimal digits in either case, character by character, and nothing else |
| `TextOctets.DecimalReads` | crates/ckman-core/src/uri.rs:224-242 | a decimal digit after others counts one and they count tenfold |
| `TextOctets.UintReads` | crates/ckman-core/src/uri.rs:224-242 | numbers are read exactly from decimal digits after an optional plus sign, up to the largest |
| `TextOctets.WhiteSpace` | crates/ckman-core/src/uri.rs:169-171 | what trimming drops are the UTF-8 encodings of the Unicode white space characters, and no others |
| `OtpOctets.TrimIsExact` | crates/ckman-core/src/uri.rs:169-171 | trimming drops white space at both ends, all of it and nothing else |
| `OtpAuth.ParseQuery` | crates/ckman-core/src/uri.rs:187-246 | the query loop with its duplicate marks computes the reference, error by error |
| `OtpAuth.ParseUri` | crates/ckman-core/src/uri.rs:168-262 | the parser computes the reference on every input |
| `OtpOctets.SchemeAndKindNeeded` | crates/ckman-core/src/uri.rs:168-174 | how a URI without its scheme or without a kind fails |
| `OtpOctets.UriParts` | crates/ckman-core/src/uri.rs:168-181 | where a URI is cut: scheme, kind, label, query |
| `OtpOctets.KindsAndAlgorithms` | crates/ckman-core/src/uri.rs:175-223 | the kinds exactly so, the algorithms in any case |
| `OtpOctets.Labels` | crates/ckman-core/src/uri.rs:181-187 | the label is decoded, then cut at its first colon, and its account must not be empty |
| `OtpOctets.Pairs` | crates/ckman-core/src/uri.rs:205-216 | a pair is cut at its first equals sign and decoded; a parameter comes once, and what is no parameter is passed over |
| `OtpOctets.ParameterNames` | crates/ckman-core/src/uri.rs:194-201 | the six parameters, character by character |
| `OtpOctets.ValuesAccepted` | crates/ckman-core/src/uri.rs:217-243 | which values each parameter accepts, and the error of those it does not |
| `OtpOctets.Completion` | crates/ckman-core/src/uri.rs:245-262 | what must be said, what is filled in, and that the issuer of the query wins |
| `OtpAuth.QueryIgnoresOrder` | crates/ckman-core/src/uri.rs:187-246 | permuting query pairs changes neither success nor the parameters read |
| `OtpAuthUris.ParseOfUri` | crates/ckman-core/src/uri.rs:169-186 | a URI parses as its label and its pairs, of which only the last loses trailing white space |
| `OtpAuthReadings.StepByReading` | crates/ckman-core/src/uri.rs:187-246 | what a pair does depends only on its reading: nothing, broken encoding, a refused value, or a value stored |
| `OtpAuthReadings.UriIgnoresOrder` | crates/ckman-core/src/uri.rs:168-262 | permuting the pairs of a URI changes neither success nor the credential when the last pair stays, or when both last pairs mean the same with and without white space at their end |
| `OtpAuthReadings.StandsAnywhereIff` | crates/ckman-core/src/uri.rs:168-262 | the exact condition: a pair may stand last or elsewhere in every URI if and only if it means the same with and without the white space at its end |
| `OtpAuthUris.UriIgnoresEncoding` | crates/ckman-core/src/uri.rs:168-262 | percent-encoding any octets of the label, of names or of values changes nothing, not even the error, provided the pairs write the same once the end of the URI is trimmed |
| `OtpAuthReadings.InterchangeableIff` | crates/ckman-core/src/uri.rs:168-262 | the exact condition at the end of a URI: two last pairs can replace each other in every URI, errors included, if and only if their readings without trailing white space are equal |
| `OtpAuthReadings.PaddedPairsDependOnEncoding` | crates/ckman-core/src/uri.rs:169-171 | where the condition fails: two encodings of one issuer at the end of a URI give two credentials |
| `OtpAuthUris.PaddedPairsDependOnOrder` | crates/ckman-core/src/uri.rs:169-171 | with trailing white space order matters: a concrete pair of URIs |
| `OtpAuthRoundTrip.CredentialReadsBack` | crates/ckman-core/src/uri.rs:168-262 | every credential a URI can express is read back from the URI that spells it out, whatever the encoding of its label and issuer |
| `OtpAuthRoundTrip.DefaultsFillIn` | crates/ckman-core/src/uri.rs:183-262 | for a URI that gives its secret and any subset of the settings, in any order: what is not said defaults to the issuer of the label, SHA-1, six digits, thirty seconds and counter zero, and HOTP must say its counter |
| `PfxKdf.Kdf` | crates/ckman-core/src/keys/pfx.rs:158-206 | the result follows appendix B.2 of RFC 7292 spelled out octet by octet, for all passwords, salts, lengths and iteration counts, a count of zero acting as one: D, S and P, the iterated digests, the updates of I, and the octets taken from each digest |
| `PfxKdf.DeriveFollowsStandard` | crates/ckman-core/src/keys/pfx.rs:166-206 | the recursive definition the loop computes is the standard |
| `PfxKdf.FillRepeats` | crates/ckman-core/src/keys/pfx.rs:167-180 | salt and password go round and round up to the first whole block that holds them; empty ones stay empty |
| `PfxKdf.AddToBlocksUpdates` | crates/ckman-core/src/keys/pfx.rs:193-203 | every block of I grows by the repeated digest and one, modulo 2^(8v) |
| `PfxKdf.AddBlock` | crates/ckman-core/src/keys/pfx.rs:196-202 | the in-place carry loop adds B and one to its block and touches nothing else |
| `PfxKdf.AddedIsSum` | crates/ckman-core/src/keys/pfx.rs:195-202 | a finished block is (I_j + B + 1) mod 2^(8v), big-endian |
| `PfxKdf.AddOctet` | crates/ckman-core/src/keys/pfx.rs:198-200 | one octet of the addition; the carry is never more than one |
| `PfxKdf.AddBlocks` | crates/ckman-core/src/keys/pfx.rs:196-203 | every block is full, and each is updated on its own |
| `NameText.CutIffEvenRun` | crates/ckman-core/src/x509.rs:195-215 | a name is cut exactly at the commas and plus signs that follow an even run of backslashes |
| `NameOctets.SpecialCharacters` | crates/ckman-core/src/x509.rs:199-215 | separators, escapes and forbidden characters, one by one |
| `SubjectValue.DecodeText` | crates/ckman-core/src/x509.rs:254-288 | the escape-decoding loop computes the reference, error by error |
| `NameOctets.TextErrors` | crates/ckman-core/src/x509.rs:259-285 | which first character is refused, and why |
| `SubjectValue.DecodesIffRenders` | crates/ckman-core/src/x509.rs:254-288 | escaped text is accepted exactly when it writes the text as section 2.4 of RFC 4514 allows, boundary spaces included |
| `SubjectValue.EscapeRenders` | crates/ckman-core/src/x509.rs:254-288 | every text can be written that way |
| `SubjectValue.WritableIff` | crates/ckman-core/src/x509.rs:237-330 | a value has a writing if and only if the attribute allows it and its tag is known, or it is valid text of the fixed string type; the writing is given |
| `SubjectValue.FromDerIffDer` | crates/ckman-core/src/x509.rs:249 | DER is accepted exactly in its one encoding |
| `SubjectValue.ValueIffRenders` | crates/ckman-core/src/x509.rs:237-330 | a value is accepted exactly when it writes the attribute value as escaped text of the fixed string type or as hexadecimal DER, and the attribute allows that value |
| `NameOctets.StringTypes` | crates/ckman-core/src/x509.rs:293-300 | which attributes are PrintableString, IA5String or UTF8String |
| `NameOctets.StringContents` | crates/ckman-core/src/x509.rs:303-316 | what each string type may hold, and that no other type is checked |
| `NameGrammar.CutContinues` | crates/ckman-core/src/x509.rs:199-231 | the piece before a cut is read on its own and the rest continues after it |
| `Rfc4514.ParseName` | crates/ckman-core/src/x509.rs:191-235 | the scanning loop computes the reference, error by error |
| `Rfc4514.AttributeIffRenders` | crates/ckman-core/src/x509.rs:210-222 | a piece is read as the attribute it writes, the type being a known name in any case or a dotted-decimal identifier |
| `NameOctets.KnownNames` | crates/ckman-core/src/x509.rs:173-185 | the eleven known names with their identifiers |
| `NameOctets.AttributeTypes` | crates/ckman-core/src/x509.rs:214-222 | a type is the first known name it equals but for case, or else dotted decimal as the library reads it |
| `NameOctets.PieceErrors` | crates/ckman-core/src/x509.rs:210-226 | why a piece is refused: its equals sign, its type, its value, or that it repeats |
| `Rfc4514.PrintedNameReadsBack` | crates/ckman-core/src/x509.rs:191-235 | however a list of RDNs was printed, parsing returns as many RDNs, RDN i having exactly the attributes of the i-th from the end |
| `NameOctets.TwoNames` | crates/ckman-core/src/x509.rs:191-235 | one name letter by letter: `CN=BOB,O=ACME` is O=ACME, then CN=BOB |
| `Rfc4514.ParsesIffPrints` | crates/ckman-core/src/x509.rs:191-235 | parsing accepts exactly what prints a name of at least one RDN with no empty and no repeating RDN, and returns its RDNs in reversed order, position by position |
| `Rfc4514.PrintThenParse` | crates/ckman-core/src/x509.rs:191-235 | a printer for whole names: every name without empty or repeating RDNs whose types have a name and whose values can be written, printed and parsed, comes back with its RDNs reversed, position by position |
| `Rfc4514.EmptyNameIsRefused` | crates/ckman-core/src/x509.rs:208-213 | the empty list, which prints as the empty string, does not read back |
| `Pem.PemEncode` | crates/ckman-core/src/x509.rs:434-445 | one block, as `BlockLayout` and `LineLayout` lay it out |
| `NameOctets.BlockLayout` | crates/ckman-core/src/x509.rs:434-445 | a block marker by marker, character by character |
| `NameOctets.LineLayout` | crates/ckman-core/src/x509.rs:438-442 | character k of the text stands in line k/64, and a newline ends every line |
| `OathName.ParseName` | crates/ckman-core/src/oath.rs:436-463 | the parser computes the reference |
| `OathName.FormatId` | crates/ckman-core/src/oath.rs:466-483 | the formatter computes the reference |
| `OtpOctets.PeriodOfName` | crates/ckman-core/src/oath.rs:440-449 | digits and a slash are the period, unless they are too large |
| `OtpOctets.PeriodByDefault` | crates/ckman-core/src/oath.rs:438-449 | otherwise the period is 30, and zero for HOTP |
| `OtpOctets.IssuerOfName` | crates/ckman-core/src/oath.rs:450-455 | the issuer ends at the first colon; a name that begins with one has none |
| `OtpOctets.NameLayout` | crates/ckman-core/src/oath.rs:466-483 | how a name is written, character by character, and when its period is |
| `OathName.FormatKeepsPeriod` | crates/ckman-core/src/oath.rs:473-482 | the period survives formatting and parsing for every issuer, account and 32-bit period, digit prefixes that overflow included |
| `OathName.SurvivesIffRepresentable` | crates/ckman-core/src/oath.rs:436-483 | issuer and account survive exactly when the issuer is nonempty without a colon, or absent with an account that has no colon or begins with one |
| `OathName.ParseIsStable` | crates/ckman-core/src/oath.rs:436-483 | formatting and parsing a parsed name changes nothing, for either kind |
| `Pem.PemDecode` | crates/ckman-core/src/keys/mod.rs:183-222 | the search terminates and computes the reference; input that is no PEM text passes through |
| `NameOctets.OtherInputPasses` | crates/ckman-core/src/keys/mod.rs:183-188 | input that is no UTF-8 or has no BEGIN marker comes back as it is |
| `NameOctets.SpaceIsStripped` | crates/ckman-core/src/keys/mod.rs:209-214 | white space characters of the body are dropped, everything else stays |
| `Pem.DecodesFirstWanted` | crates/ckman-core/src/keys/mod.rs:189-220 | from any bundle in which the dashes after each label and each end marker are the first, and no BEGIN marker stands between the blocks, the first block with a requested label is returned; the others, with encapsulated headers or without, are skipped |
| `Pem.HarmlessIsClear` | crates/ckman-core/src/keys/mod.rs:189-220 | such are all blocks with dash-free labels whose bodies have no five dashes in a row and none at the end |
| `Pem.DecodeUndoesEncode` | crates/ckman-core/src/keys/mod.rs:183-222 | decoding undoes encoding for every label that ends at the first dashes, after any text without a BEGIN marker |
| `Base64.DecodeIffEncode` | crates/ckman-core/src/keys/mod.rs:215-217 | strict Base64: exactly the padded canonical encodings are accepted |
| `TextOctets.Base64Alphabet` | crates/ckman-core/src/keys/mod.rs:215-217 | the alphabet character by character |
| `CredentialPrefix.ShownLength` | crates/ckman/src/commands/fido.rs:932-942 | the loop stops at the least length from 4 that tells all identifiers apart, or at 64 |
| `CredentialPrefix.ShownSelectsIffSeparable` | crates/ckman/src/commands/fido.rs:932-982 | every displayed prefix given back selects exactly its own row if and only if no identifier is empty or begins, within 64 octets, another one |
| `CredentialPrefix.PrefixFreeIsSeparable` | crates/ckman/src/commands/fido.rs:932-982 | identifiers that differ within 64 octets and are no prefixes of each other satisfy this |
| `CredentialPrefix.TypedIff` | crates/ckman/src/commands/fido.rs:886-894 | what may be typed: hexadecimal digits in either case, with three dots after them or not, and nothing else |
| `CredentialPrefix.TypedSelectsIff` | crates/ckman/src/commands/fido.rs:886-982 | it selects a row exactly when that identifier and no other begins with it in hexadecimal |
| `Ascii.HexKeepsPrefixes` | crates/ckman/src/commands/fido.rs:834-840 | prefixes of identifiers and of their hexadecimal forms are the same thing |
| `TextOctets.HexPlaces` | crates/ckman/src/commands/fido.rs:834-840 | which digits write an octet: its upper half, then its lower half |
| `SecretReader.ReadSecret` | crates/ckman/src/commands/input.rs:15-41 | returns what was read, never extends a buffer past its capacity; of all octets ever put into a buffer, those beyond the result itself are less than twice the result whenever there is one |
| `SecretReader.CollectsAllChunks` | crates/ckman/src/commands/input.rs:18-24 | the result is the concatenation of all chunks up to the end, across any interruptions |
| `SecretReader.TooMuchIsRefused` | crates/ckman/src/commands/input.rs:25-30 | what no length can hold is refused at the chunk that is too much |

## Left out

- Clocks: a deadline that expires is the read that returns nothing; time itself is not modelled.
- Threads and other processes: one host process at a time, except for the traffic of other CTAPHID channels.
- Loopback.LoopbackDevice.WriteReport: channel numbers do not wrap at 32 bits, and the CBOR replies a device is given fit a message.
- Cancelling a request: one framed message is sent and nothing is awaited.
- Cryptography: key derivation, hashes and authentication are arbitrary functions; authentication succeeds when the key or PIN presented is the active one.
- The protocol library's operations (transaction sequences, retries of PIN and PUK, touch policies, firmware gates): each is one step that completes, is refused or is lost. Blocking the PUK may also stop part of the way.
- PIN retry counters, so that a wrong PIN never blocks the card.
- Pivman flag setters and the metadata they edit are values, because the source only edits local copies of them; aliasing does not arise.
- TLV and DER values of 2^32 octets and more, and multi-octet tags.
- PivSync.SetManagementKeySynced: objects of more than 65535 octets are outside its precondition, because the card cannot hold them.
- PivBatch.GenerateKeysWithProgress: requires that the batch exposes each completed item and that a finished batch has completed all of them, which the protocol library promises.
- PreparedFile.Output.Prepare: symbolic links, permissions (setting them can fail, which drops the output) and the checks that the destination is a writable regular file are not modelled.
- PreparedFile.Output.Drop: if removing the temporary file fails, the source ignores it and so does the contract.
- PivRecovery.Create: the wording around the fields of the recovery file is a parameter; its permissions are not modelled.
- PivRecovery.ReplaceWithRecovery: putting a directory on disk is what the source does on Unix; elsewhere it does nothing and succeeds, and a crash may lose the name of the recovery file.
- OathName: names that are not valid UTF-8, which the source first replaces lossily.
- Rfc4514: the order of attributes inside an RDN, which the DER library sorts, is a set here; the arcs of dotted-decimal identifiers and the supported DER tags are parameters.
- Base64 and UTF-8 validation are specifications of the libraries used, not of their code.
- Zeroization: only the capacity facts that make it meaningful are kept.
- SecretReader.ReadSecret: running out of memory; the allocator grants at least what is asked.
- Attestation, key-file formats, certificate building, Steam codes, CSV output, the other applets and all user interface: one-call or one-branch behaviour, or fixed conjunctions over library results.
- PfxKdf.Kdf: the four concrete hash functions, their lengths, and the conversion of the password to a BMPString are left to the caller.
