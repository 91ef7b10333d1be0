# A verified model of the WhatsApp and Signal command-line clients

This project models the parts of the `wa` and `signal` clients whose correctness rests on more than
one function, and proves what they promise. Six components are covered:

1. **The binary XML codec** (`Tokens`, `Jids`, `JidText`, `JidNumbers`, `Nodes`, `Wire`, `WireFormat`,
   `Encoder`, `Reading`, `Decoder`, `RoundTrip`, `Fidelity`, `CutFrames`).
   Modules `Wire` and `Reading` say, as functions, which bytes a stanza is written as and what bytes are
   read as. The classes `Encoder.Writer` and `Decoder.Reader` are the imperative encoder and decoder,
   each method proved to append, or to consume, exactly what those functions say. `RoundTrip` relates the
   two for every production of the format, and `Fidelity` says exactly which stanzas and identifiers
   survive unchanged.
2. **The live connection** (`Session`, `SessionOwed`, `SessionWaiters`, `SessionDrain`). The session is an
   event-driven state machine; the class `InboundSession` takes its steps, and its drain loop runs against an
   exact clock. Replies, waiters and timing are proved over every run.
3. **The durable Signal receive queue** (`SignalText`, `SignalQueue`, `SignalEnvelopes`, `SignalDrain`). Incoming
   callbacks interleave with a drain whose rows are split at their `await`; one invariant is kept by every
   step, envelopes are followed from arrival to commit, and the outcome of a whole drain follows.
4. **History and identities** (`Paging`, `Canonical`, `Ingest`, `Migrate`): the backwards walk against a
   phone, the deduplicating ingest, and the merge of phone-number and hidden identities.
5. **Protobuf messages** (`Protobuf`, `PeerRequest`, `Messages`, `MessageParts`): the wire writers and the parser
   that undoes them, the on-demand request, and the extractors that look through wrappers.
6. **Transport and cryptographic state** (`Frames`, `Noise`, `Channel`, `Handshake`, `NoisePattern`, `Edwards`,
   `EdwardsLaw`, `Xeddsa`): stream reassembly, the Noise XX handshake (section 5 of the Noise Protocol
   Framework, revision 34), key derivation (section 2 of RFC 5869), nonces, and signing on the Edwards form of
   Curve25519 (sections 5.1.4 and 5.1.7 of RFC 8032).

Objects whose methods update fields are classes; pure code is functions. A method's `ensures` ties its
result or its new state to a specification function, and the lemmas are about those functions. What such a
function computes is told a second time, independently: by the standard it implements (`NoisePattern`,
`EdwardsLaw`), by the data it is about (`SessionOwed`, `SignalEnvelopes`, `MessageParts`), or by its bytes
(`WireFormat`).

Where the code and its documentation differ, the model follows the code. What was found that way:

- a stanza tagged `"0"`, an empty child list, a text content that is written raw, and an identifier the
  wire form has no room for do not survive the codec (`Fidelity.RoundTripIff` says exactly which stanzas do);
- `JID.parse` does not undo `str` for every identifier (`JidText.ParseOfStr` says exactly for which);
- the protobuf parser raises IndexError, which the extractors do not catch, on input cut inside a varint:
  `Protobuf.ParseErrors` says on which messages, and `Messages.QuotedIdRaises`, `Messages.MediaRaises` and
  `Messages.DestinationRaises` through which contents each extractor raises;
- a drain's count of decoded texts is too high exactly when a counted row's transaction raises after its text
  was ingested, or a text is kept already in its place (`SignalDrain.CountIsTruthful`, `SignalDrain.DrainCount`);
- a request id used again, or left, while an earlier request under it is still open takes that request's
  waiter out of reach: failing the waiters then misses it, and it stays pending until its own timeout
  cancels it (`SessionWaiters.LeftPendingIff`); an id used again afterwards does no harm;
- two messages of one second break the backwards walk's promises: the date reached need not be covered, an
  anchor may be asked for twice, a full page may bring nothing new, and more than ceil(count/page) requests
  may be made. For each promise the histories and dates for which it holds in every walk are given exactly
  (the `Iff` lemmas of `Paging`);
- verifying a signature raises, instead of answering false, exactly when the public key is P - 1
  (`Xeddsa.VerifyRaises`, `Xeddsa.RaisingKey`);
- when the send of the first frame fails and the connection then recovers, the later frames go out without
  the header (`Frames.SentFramesParse`, `Frames.HeaderLost`);
- sealing moves the write counter before a frame can be refused or lost, so after one failed send on a
  connection that stays up the peer rejects everything that still gets out (`Channel.PeerAccepts`,
  `Channel.AllThatGotOutIff`).

## Model

| member | source | states |
|---|---|---|
| Tokens.BuildIndexes | wa/wabinary/tokens.py:63-69 | the two dictionaries filled at import hold, for every string, its last position in the single-byte table and its last position over the double-byte dictionaries, whatever repeats the tables hold |
| Tokens.IndexesInvert | wa/wabinary/tokens.py:63-82 | every index handed out points back at the looked-up token and fits its byte; a token without an index is in no table |
| Utf8.DecodeOfEncode | wa/wabinary/encoder.py:167-170 | decoding the UTF-8 of any text gives the text |
| Utf8.EncodeOfDecode | wa/wabinary/decoder.py:111-147 | strict decoding accepts only the encoding of its result, so a text has one spelling |
| Encoder.Writer.constructor | wa/wabinary/encoder.py:16-21 | a writer starts with a buffer that holds the one zero flag byte |
| Encoder.Writer.WriteListStart | wa/wabinary/encoder.py:116-124 | appends the list header of one, two or three bytes |
| Encoder.Writer.WriteByteLength | wa/wabinary/encoder.py:127-138 | appends the shortest of the three length classes; fails exactly from 2^31 on |
| Encoder.Writer.WritePacked | wa/wabinary/encoder.py:241-257 | appends the packed form: tag, count with the odd flag, one byte per pair, the pad nibble last |
| Encoder.Writer.WriteString | wa/wabinary/encoder.py:146-164 | appends the first applicable of the five encodings; fails exactly for raw texts of 2^31 bytes or more |
| Encoder.Writer.WriteJid | wa/wabinary/encoder.py:173-198 | appends the identifier in the one of its four wire forms that its server and device call for |
| Encoder.Writer.WriteAny | wa/wabinary/encoder.py:76-101 | appends a value by its kind, integers and booleans as text |
| Encoder.Writer.WriteAttrs | wa/wabinary/encoder.py:104-113 | appends the attributes in order, skipping those counted as empty |
| Encoder.Writer.WriteNode | wa/wabinary/encoder.py:60-73 | appends a whole stanza, children and all; fails exactly when some length cannot be written |
| Encoder.EncodeNode | wa/wabinary/encoder.py:45-49 | the bytes of a stanza behind the zero flag byte, or the error |
| WireFormat.PackedPlace | wa/wabinary/encoder.py:219-238 | a character is packed as its place in the alphabet, and is packable exactly if it has one |
| WireFormat.PackedForm | wa/wabinary/encoder.py:241-257 | a packed string byte by byte: tag, number of bytes with the odd flag, and each pair as two places, 15 where there is no second |
| WireFormat.LengthForm | wa/wabinary/encoder.py:127-138 | lengths follow their tag big-endian, in one, three or four bytes by size |
| WireFormat.ListForm | wa/wabinary/encoder.py:116-124 | list headers byte by byte, the two-byte count big-endian |
| WireFormat.JidForms | wa/wabinary/encoder.py:173-198 | identifiers of every server byte by byte, for any user and device |
| WireFormat.KnownTokens | wa/wabinary/encoder.py:146-157 | a token is its last index, or the tag of the last dictionary that has it and its last place there |
| WireFormat.WhichForm | wa/wabinary/encoder.py:146-170 | a text that is no token is packed as digits if it can be, else as hexadecimal, else written raw, the empty one raw; it has no form exactly if it is raw and of 2^31 bytes or more |
| WireFormat.JidFitsIff | wa/wabinary/encoder.py:173-198 | an identifier can be written exactly if its user can, and its server where that is written |
| WireFormat.KnownStrings | tests/test_wabinary_roundtrip.py:129-147 | packed digits, a packed hexadecimal id, a raw text and bytes, each as its bytes |
| WireFormat.KnownStanzas | tests/test_wabinary_roundtrip.py:102-178 | small stanzas as their bytes: item counts, empty attributes left out, children, truth values and contents |
| Decoder.Reader.Packed | wa/wabinary/decoder.py:212-226 | reads packed text as specified: same characters, same position, or the same error |
| Decoder.Reader.Attrs | wa/wabinary/decoder.py:100-108 | reads n attributes into a dictionary in which a later key replaces an earlier one |
| Decoder.Reader.ValueOf | wa/wabinary/decoder.py:111-147 | reads any value by its tag byte, text or bytes by position, and fails on unknown tags |
| Decoder.Reader.Jid | wa/wabinary/decoder.py:171-209 | reads the four identifier forms, agent byte to server included |
| Decoder.Reader.TopNode | wa/wabinary/decoder.py:86-97 | reads the stanza at the current position and stops right after it; an empty list is no stanza |
| Decoder.Reader.NodeInList | wa/wabinary/decoder.py:150-161 | reads one child and stops right after it |
| Decoder.DecodeNode | wa/wabinary/decoder.py:56-73 | flag byte, decompression when flagged, one stanza, and an error on an empty list, no stanza or bytes left over |
| RoundTrip.PackedAt | wa/wabinary/encoder.py:241-257 | packing n of 1 to 127 characters takes ceil(n/2) + 2 bytes, and reading them anywhere in a buffer gives the text back and stops right after them |
| RoundTrip.StringAt | wa/wabinary/encoder.py:146-164 | every text reads back, consuming exactly its bytes, whichever of the five encodings was chosen |
| RoundTrip.JidAt | wa/wabinary/encoder.py:173-198 | every identifier reads back as its wire form, consuming exactly its bytes |
| RoundTrip.AttrsAt | wa/wabinary/encoder.py:104-113 | written attributes read back in order, empty ones dropped, texts for numbers and booleans |
| RoundTrip.NodesAt | wa/wabinary/decoder.py:150-161 | a child list reads back child by child: siblings never bleed into each other |
| RoundTrip.NodeAt | wa/wabinary/decoder.py:150-161 | with any bytes before and after, reading a written stanza consumes exactly its bytes |
| RoundTrip.DecodeOfEncode | wa/wabinary/decoder.py:56-73 | decoding the encoding of any encodable stanza gives its wire form with no byte left over, except that a top stanza tagged "0" is refused |
| RoundTrip.FlagByte | wa/wabinary/decoder.py:56-66 | a frame with bit 1 set is inflated and then read like an unflagged one, or fails with it; any other flag but zero is refused |
| RoundTrip.DecodeOfCompressed | wa/wabinary/decoder.py:56-73 | an encoded stanza inflated from a flagged frame comes back as from a plain one |
| CutFrames.TopLocal | wa/wabinary/decoder.py:18-53 | whatever is read within a prefix of a buffer is read the same in the whole buffer, for every production |
| CutFrames.CutIsRefused | wa/wabinary/decoder.py:56-73 | a frame cut short anywhere inside its stanza is refused, although slices stop silently at the end of the buffer |
| Fidelity.JidSurvives | wa/wabinary/decoder.py:171-209 | an identifier survives the wire if and only if it is representable, which is spelled out server by server, and then its AD string does too |
| Fidelity.DevicesComeBack | wa/wabinary/decoder.py:181-194 | the device identifiers of the four servers come back as they are, a hidden-identity one with agent 1 |
| Fidelity.DecodedServer | wa/wabinary/decoder.py:181-194 | the server that bytes in the agent-and-device form decode to, by agent byte: 0 phone number, 1 hidden, below 128 hosted, else hosted hidden |
| Fidelity.JidReencodes | wa/wabinary/encoder.py:173-198 | encoding the decoded identifier gives the same bytes if and only if the agent-and-device form is not lost |
| Fidelity.NodeSurvives | wa/wabinary/encoder.py:60-113 | the wire form of a stanza is its normal form if and only if nothing in the tree is beyond the format |
| Fidelity.RoundTripIff | wa/wabinary/decoder.py:56-161 | decoding an encoding yields the normal form (empty attributes dropped, numbers and booleans as text) if and only if the stanza survives |
| Fidelity.LossyCorners | wa/wabinary/encoder.py:60-101 | concrete losses: tag "0", an empty child list, a hosted identifier with agent 0, and any content text that is written raw |
| Fidelity.NormalNodeBytes | wa/wabinary/encoder.py:60-113 | encoding the normal form of a surviving stanza gives the very same bytes |
| Fidelity.ReencodesIff | wa/wabinary/encoder.py:60-113 | encoding what any stanza's encoding decodes to gives the same bytes if and only if no node in the tree is tagged "0", no child list is empty and no identifier loses its agent-and-device form |
| JidText.IntOfText | wa/wabinary/jid.py:39-58 | a formatted integer reads back and contains none of the separators |
| JidText.SplitsBack | wa/wabinary/jid.py:32-58 | splitting the short form of an identifier whose user holds no separator gives user part, device and server back, and looks for an agent behind the last dot |
| JidText.ParseOfStr | wa/wabinary/jid.py:32-87 | parsing the text of an identifier gives it back if and only if it is faithful: no integrator, no separator in the user, an agent only off the phone-number server, no number behind a last dot otherwise |
| JidText.AgentStaysInUser | wa/wabinary/jid.py:48-58 | on the phone-number server an agent always comes back as part of the user |
| JidText.AdStringParses | wa/wabinary/jid.py:83-93 | reading the AD string gives user, spelled-out agent, device and server back, the agent staying in the user on the phone-number server |
| JidText.NoLeadingZero | wa/wabinary/jid.py:73-93 | formatted integers have no needless zero in front |
| JidNumbers.IntSpelled | wa/wabinary/jid.py:46-56 | every text made of blanks, an optional sign and digits grouped by single underscores is read as the number its digits stand for |
| JidNumbers.IntSplits | wa/wabinary/jid.py:46-56 | no other text is read as a number |
| JidNumbers.AgentIsSplitOff | wa/wabinary/jid.py:48-58 | off the phone-number server a number behind the last dot is the agent, whatever stands before it, an empty user included; anything else stays in the user |
| JidNumbers.DeviceIsRead | wa/wabinary/jid.py:39-58 | a device that is no number is the one error |
| Session.TablesAreAwaited | wa/session.py:287-297 | after any run, a waiter table holds exactly the ids the events leave awaited |
| Session.PrefixGetsOut | wa/session.py:148-194 | when sends fail, what gets out of a stanza's replies is a prefix, and only the send after it was tried |
| Session.RunReplies | wa/session.py:148-194 | over every run with successful sends, from any point on, replies are the concatenated replies owed per stanza and messages reach the callback once each, in arrival order, whatever waits |
| Session.WholeRun | wa/session.py:148-194 | the same from the start of the connection |
| Session.RunWithFailures | wa/session.py:148-215 | over every run, whichever sends fail, the replies that get out are the concatenation in arrival order of one prefix per event's owed replies, and messages still reach the callback once each |
| Session.MessageOwed | wa/session.py:177-192 | a message is owed one ack first, one receipt second, marked exactly for own echoes, then the extra receipts and the peer one exactly for own echoes, with their attributes |
| SessionOwed.EchoesAreOwn | wa/session.py:230-248 | a message is answered as an own echo exactly if its participant, or its sender when the participant says nothing, is an identifier of one of our own users; then its receipt is typed "sender" and the protocol receipts follow, the peer one last |
| SessionOwed.QueriesAnswered | wa/session.py:30-36 | a query is answered exactly if it sets something or gets a ping, by namespace or by child, and its result holds addressee, id and type |
| SessionOwed.RepliesHold | wa/session.py:217-248 | acks and receipts go to the sender, or to the server, and hold no other keys |
| SessionOwed.AnswersComplete | wa/session.py:148-161 | a stanza whose tag and text id someone waits for completes that waiter if it is open, and does nothing else |
| SessionOwed.OthersAreHeard | wa/session.py:162-179 | any other stanza completes nobody, moves the idle clock to its time and reaches the callback if it is a message |
| SessionOwed.IdAsText | wa/session.py:151 | the id a waiter is looked up by: the text itself, a number in decimals, an identifier in its short form, "" when there is none |
| SessionOwed.Lookups | wa/session.py:219-227 | an attribute is the value of its first entry, and the default without one |
| SessionOwed.FramesAreCounted | wa/session.py:150 | over any run every stanza dispatched is counted once, and nothing else is |
| Session.AckCopies | wa/session.py:217-228 | an ack carries the stanza's participant and recipient exactly if it has them, and its type unless it is a message |
| Session.ReceiptCopies | wa/session.py:237-248 | a receipt carries participant and recipient too, and a type, "sender", exactly for own echoes |
| Session.OthersOwed | wa/session.py:163-194 | any other unsolicited stanza is owed at most one reply: a result exactly for pings and sets, an ack exactly for notifications, calls and receipts, with id, addressee and class |
| SessionWaiters.CompletesOnce | wa/session.py:152-161 | over any run a completed waiter keeps its outcome for ever |
| SessionWaiters.RunMatches | wa/session.py:152-161 | a result only ever comes from a stanza of the right tag carrying the waiter's id |
| Session.ClockAside | wa/session.py:49-69 | what the idle clock shows at first matters to nothing but itself, so results about runs from one start hold from any reading of the clock |
| Session.RunKeys | wa/session.py:287-290 | the waiters of any run are those its registrations name, in order |
| SessionWaiters.FateAgrees | wa/session.py:148-161 | a waiter's fate, read off the events alone, is what the state says: pending exactly when open or adrift, reachable from its table when open and not when adrift |
| SessionWaiters.AdriftIsTaken | wa/session.py:287-290 | adrift means: registered, its entry taken by a registration or a departure under the same id while nothing had completed it, and not cancelled since |
| SessionWaiters.LeftPendingIff | wa/session.py:287-297 | right after the waiters are failed both tables are empty, and a waiter is still pending if and only if its entry was taken from it while it was open |
| SessionWaiters.FinishedIsGone | wa/session.py:90-106 | over any run, a waiter that left is never again the one its table entry points at |
| SessionWaiters.FinishedIdIsAbsent | wa/session.py:90-106 | with distinct ids, the id of a request that was left is in its table no more, then or later |
| SessionWaiters.NobodyLeftWaiting | wa/session.py:292-297 | so with distinct ids, whatever else happens, no waiter still there is left pending |
| SessionWaiters.ReusedAfterwards | wa/session.py:90-106 | an id used again after its request was answered and left takes nothing |
| SessionWaiters.ReusedWhileOpen | wa/session.py:287-290 | an id registered twice in a row: stopping leaves the first waiter pending, the second failed, and a cancellation completes the first |
| SessionWaiters.SolicitedIsSilent | wa/session.py:148-162 | an awaited reply moves neither the idle clock nor the replies; anything else moves the clock to its time |
| SessionDrain.InboundSession.constructor | wa/session.py:49-69 | a session starts with empty tables, counters at zero and the idle clock at now |
| SessionDrain.InboundSession.Handle | wa/session.py:148-194 | dispatching a stanza is one step of the machine, also when a send fails half-way |
| SessionDrain.InboundSession.MessageReplies | wa/session.py:184-192 | sends ack, receipt and, for own echoes, the protocol receipts, stopping at the first failing send |
| SessionDrain.InboundSession.MakeFuture | wa/session.py:287-290 | registering a waiter is one step of the machine |
| SessionDrain.InboundSession.Leave | wa/session.py:97-106 | leaving a request is one step of the machine: the id is popped, whoever stands there |
| SessionDrain.InboundSession.GiveUp | wa/session.py:96-104 | a timeout cancels the waiter's own future, if it is still pending |
| SessionDrain.InboundSession.Take | wa/session.py:90-106 | each happening, of the reader or of another task, is one step at its own time |
| SessionDrain.InboundSession.FailAll | wa/session.py:292-297 | failing the waiters fails exactly the pending ones in the tables and empties both |
| SessionDrain.InboundSession.Closed | wa/session.py:202-205 | a closed socket is one step of the machine |
| SessionDrain.InboundSession.TakeNext | wa/session.py:148-162 | a happening extends the run by exactly its step and keeps the idle clock |
| SessionDrain.InboundSession.Serve | wa/session.py:196-215 | the next thing that comes in is taken at its own time, and heeded unless it is the reader's and the socket was found closed |
| SessionDrain.InboundSession.Sleep | wa/session.py:196-215 | exactly what comes in up to the wake-up is served, in order and each at its time: the trace is the events of all of it that is heeded, what is left comes later, and the clock ends at the wake-up |
| SessionDrain.InboundSession.SendKeepalive | wa/session.py:268-285 | a keepalive registers its waiter, notes its time and sends the ping query, which may fail without consequence |
| SessionDrain.InboundSession.Ping | wa/session.py:137-139 | in a drain it extends the run by exactly its registration, tried at this very time, and moves no idle clock |
| SessionDrain.InboundSession.Drain | wa/session.py:108-146 | its run is exactly what came in up to its end, merged in time order with its keepalives; it returns the frames seen, one more per stanza heeded; it ends before start + seconds + 0.05, for the reason it gives; an idle end means that no stanza heeded and unsolicited when it came arrived in the last idle seconds, and comes less than 0.05 s late; the times keepalives were tried are at least 20 and less than 20.05 s apart, one query each |
| SessionDrain.HappeningTold | wa/session.py:108-146 | every happening that is heeded stands in the trace right behind all that came and was pinged before it |
| SessionDrain.ReaderStops | wa/session.py:196-215 | the reader hears everything up to the first time it finds the socket closed, and only other tasks go on after that |
| SessionDrain.KeepaliveIsAnswered | wa/session.py:268-285 | the keepalive is a ping to the server which a reader like this one answers once, under the id its waiter is registered with |
| SignalText.GroupsOnlyGrow | wa/signal_native/receive.mjs:111-141 | a message never takes a group away, never turns a revision back, clears members only with a newer revision, and never records a group twice |
| SignalText.OtherConversationsUntouched | wa/signal_native/receive.mjs:111-162 | groups of other conversations, keys and account id are untouched |
| SignalText.EphemeralNeverStored | wa/signal_native/receive.mjs:94-109 | nothing meant to disappear or to be seen once is stored |
| SignalText.IngestIsLocalAndIdempotent | wa/signal_native/receive.mjs:94-109 | a message touches at most its own key and the key it deletes, and ingesting it again changes nothing |
| SignalText.TableGrows | wa/signal_native/receive.mjs:94-109 | the table grows by one exactly if the text is to stay and its place is free, and shrinks by one exactly if the text taken back is there |
| SignalText.WhereItBelongs | wa/signal_native/receive.mjs:111-162 | the conversation and time of a message, read off what it carries: group by master key, else destination or self when synced, else sender |
| SignalText.GroupAfter | wa/signal_native/receive.mjs:136-150 | what a message leaves of its own group: newer revision without members, timer |
| SignalText.NewGroupAfter | wa/signal_native/receive.mjs:125-150 | a group met for the first time is recorded with key, revision and timer |
| SignalText.ContactsAfter | wa/signal_native/receive.mjs:111-155 | without a group the timer goes to the first contact named so or to a new one; a username change drops the username |
| SignalText.WhereTextsStand | wa/signal_native/receive.mjs:94-109 | texts are kept under the number, or the account id without one, by conversation, sender and time |
| SignalQueue.ArrivalKeeps | wa/signal_native/network.mjs:92-114 | an incoming callback keeps the invariant wherever it raises |
| SignalQueue.RestoreIsExact | wa/signal_native/receive.mjs:203-204 | assigning the snapshot back restores the account exactly, after the row's changes too |
| SignalQueue.FailingRowHarmless | wa/signal_native/receive.mjs:202-206 | a failing row stays queued, changes no table, restores the account, is reported, and the next rows follow |
| SignalQueue.CommitKeeps | wa/signal_native/receive.mjs:176-201 | a committed row moves from the queue to the seen table, it alone, and the invariant is kept |
| SignalQueue.StepKeeps | wa/signal_native/receive.mjs:164-209 | every step keeps: acknowledged ids are queued or seen, never both; queue ids are distinct; commits happen at most once per id; memory and disk agree on the account |
| SignalQueue.LoadedIsSafe | wa/signal_native/store.mjs:8-31 | a loaded account is safe to start from if and only if its queue and seen table share nothing, no row is doubled and it is the saved one |
| SignalQueue.RunKeeps | wa/signal_native/network.mjs:92-111 | so at every point of every interleaving of callbacks and drain |
| SignalQueue.OnlyCommitsHaveEffects | wa/signal_native/receive.mjs:176-201 | messages, seen ids and saved accounts change only by a commit, which happens to an id neither committed nor seen before |
| SignalEnvelopes.ArrivalStored | wa/signal_native/network.mjs:92-111 | an arrival under a new id goes behind the queue with its own envelope and timestamp; any other leaves the queue alone |
| SignalEnvelopes.QueueStep | wa/signal_native/receive.mjs:164-209 | every step appends an arrival, drops the row it commits, or leaves the queue alone, order included |
| SignalEnvelopes.RowsHoldArrivals | wa/signal_native/network.mjs:92-111 | over every run a row of the queue was there from the start or holds the envelope and timestamp of the arrival that stored it |
| SignalEnvelopes.FirstArrival | wa/signal_native/network.mjs:98-109 | which is the first under its id that got as far as the insertion |
| SignalEnvelopes.QueuedOrCommitted | wa/signal_native/receive.mjs:164-209 | a queued row is queued unaltered at the end of any run, or was committed on the way |
| SignalEnvelopes.AcknowledgedIsKept | wa/signal_native/network.mjs:92-111 | an envelope acknowledged under a new id is queued with its very bytes at the end of any run, or what they decrypt to was committed |
| SignalEnvelopes.CommittedOutcome | wa/signal_native/receive.mjs:170-201 | a commit leaves the account and messages that decrypting the envelope of its row calls for |
| SignalEnvelopes.RowBegun | wa/signal_native/receive.mjs:167-173 | the row a drain decrypts is the first of those left, and it is in the queue |
| SignalEnvelopes.RowsInOrder | wa/signal_native/receive.mjs:167-169 | a drain's rows are the account's own, in queue order |
| SignalDrain.Client.OnIncomingMessage | wa/signal_native/network.mjs:92-114 | the callback is one step: stored before acknowledged, counted only after |
| SignalDrain.Client.Normalize | wa/signal_native/receive.mjs:111-162 | the account edited in place and the item returned are the specified ones: conversation, time, group, revision and timer |
| SignalDrain.Client.RecordGroup | wa/signal_native/receive.mjs:125-141 | only the groups change: a first meeting is recorded, a newer revision forgets the members |
| SignalDrain.Client.SetTimer | wa/signal_native/receive.mjs:142-155 | the timer goes to the group, else to the contact, else to a new contact |
| SignalDrain.Client.IngestText | wa/signal_native/receive.mjs:94-109 | deletes and inserts as specified, in the message table only |
| SignalDrain.Client.Conclude | wa/signal_native/receive.mjs:176-206 | the end of a row, statement by statement, is the step of the machine, rollback and snapshot included |
| SignalDrain.Client.HandleRow | wa/signal_native/receive.mjs:170-206 | a row with callbacks running during its await is its script of steps |
| SignalDrain.Client.Drain | wa/signal_native/receive.mjs:164-209 | a drain is the run over the rows queued at its start, in row order, and returns the count and the failures |
| SignalDrain.DrainOutcome | wa/signal_native/receive.mjs:164-209 | whatever arrives meanwhile, rows that end well are committed and seen in row order, the others are reported in row order and still queued, and no row stops a later one |
| SignalDrain.RowTable | wa/signal_native/receive.mjs:170-206 | what one row does to the message table, and that a failing one does nothing |
| SignalDrain.TableConserved | wa/signal_native/receive.mjs:164-209 | over the rows of a run the table keeps its size, plus the texts stored, less those deleted |
| SignalDrain.CountIsTruthful | wa/signal_native/receive.mjs:177-191 | the decoded count never falls short of the texts stored, and equals them if and only if no counted row raised late or found a text in its place |
| SignalDrain.DrainCount | wa/signal_native/receive.mjs:164-209 | the same for the count a whole drain returns and the table it leaves |
| SignalDrain.CountedButNotStored | wa/signal_native/receive.mjs:94-109 | two concrete drains that count one text and store none: its place taken, and its transaction raising late |
| Paging.Chat.OldestCached | wa/cli.py:3345-3349 | the anchor is the first row, in file order, with the least time |
| Paging.Chat.Request | wa/cli.py:3486-3564 | one request is logged and what is new in its reply is stored, without storing an id twice |
| Paging.PageOnDemand | wa/cli.py:3295-3342 | the loop is the walk the following lemmas are about: same requests, same rows, same gain, count of requests and stop reason |
| Paging.AnchorAt | wa/cli.py:3345-3349 | the anchor carries the least time cached and stands at the boundary of the cached part, or after it on a tie |
| Paging.RequestMoves | wa/cli.py:3325-3331 | against a truthful phone one request moves the boundary to the start of the page served, if that is further back, and gains just that |
| Paging.GainKept | wa/cli.py:3316-3342 | for every history, ties included: the cache stays a contiguous newest part, longer by exactly the gain, which is at most count, in at most count requests |
| Paging.StopsTruthfully | wa/cli.py:3316-3342 | for every history: count is exactly the count, since covers everything strictly after the date, no older means all of it is cached, no access leaves messages behind unless the history starts with a tie, and the other reasons are what they say |
| Paging.AnchorsGoBack | wa/cli.py:3316-3331 | for every history: anchors never go forward in time, strictly back without shared seconds, and no request asks for more than a page or than is missing |
| Paging.SinceCoversIff | wa/cli.py:3322-3324 | in every walk stopping at a date means everything at or after it is cached, if and only if no two messages of the history share that second |
| Paging.AlwaysBackwardsIff | wa/cli.py:3316-3326 | in every walk anchors go strictly backwards if and only if no two messages of the history share a second |
| Paging.AlwaysGainsIff | wa/cli.py:3338-3340 | with full pages no walk ends on a page without anything new, if and only if no two messages share a second |
| Paging.AlwaysFewIff | wa/cli.py:3325-3331 | with full pages every walk needs at most ceil(count/page) requests, if and only if from the second message on no two share a second |
| Paging.AlwaysLeavesIff | wa/cli.py:3332-3334 | every refused walk leaves messages behind if and only if the first two messages do not share a second |
| Paging.TiedRun | wa/cli.py:3316-3342 | the later of two tied messages cached: it is asked for twice and the walk ends on nothing new, short of what precedes |
| Paging.TiedDate | wa/cli.py:3322-3324 | the same cache and that date: the walk stops at once, without the earlier message |
| Paging.TiedSecond | wa/cli.py:3316-3349 | a concrete history of three messages, the last two of one second, that does both |
| Canonical.CanonicalIdempotent | wa/cache.py:195-224 | canonicalising twice is canonicalising once, and what changes becomes a hidden identity |
| Canonical.CanonicalCases | wa/cache.py:214-224 | off the phone-number server an identifier stays; on it a user of 14 digits and more moves to the hidden server, another becomes its known twin, the rest stay |
| Canonical.LookupAssigned | wa/cli.py:427-434 | reading a dictionary after an assignment |
| Canonical.Invert | wa/cli.py:293 | the inverted map has exactly the values of the original, each with the key of the last entry that holds it |
| Ingest.Cache.KnownMessageIds | wa/cache.py:253-259 | exactly the non-empty ids stored |
| Ingest.Cache.IngestConversation | wa/cli.py:296-324 | one conversation is filed, and its messages stored or skipped one by one |
| Ingest.Cache.IngestOne | wa/cli.py:278-324 | one history sync: names, identities, then its conversations under the identities then known |
| Ingest.Cache.IngestBlobs | wa/cli.py:205-339 | tables and message file after an ingest are the fold over the blobs, new messages appended, with truthful counts and end verdicts |
| Ingest.BlobsTally | wa/cli.py:307-324 | what is stored and skipped depends only on the ids walked, not on where conversations are filed |
| Ingest.IngestConserves | wa/cli.py:293-329 | added plus skipped is the number of messages walked; a non-empty id occurs as often as before if stored already and otherwise once exactly if it is in the blobs |
| Ingest.ReingestAddsNoId | wa/cli.py:307-310 | ingesting the same blobs again adds no message with an id, and exactly the ones without |
| Ingest.LastNameWins | wa/cli.py:278-282 | a contact is called by the last name a sync gives it, and otherwise as before |
| Ingest.LastNumberWins | wa/cli.py:283-289 | a hidden identity maps to the last number a sync pairs it with, and otherwise as before |
| Ingest.ConversationsWellFiled | wa/cli.py:294-324 | what a sync stores comes behind what was stored, and its chats and senders are canonical under the identities then known |
| Ingest.ChatTimes | wa/cli.py:300-306 | every chat's last time is the maximum of its old one and of all conversations filed under it |
| Ingest.NewOnesStored | wa/cli.py:307-324 | every message under a new id, or without one, is stored at its place with its time, id and contents, its chat and sender canonical |
| Ingest.StoredAreNew | wa/cli.py:307-324 | and nothing else is stored |
| Ingest.NamesAndVerdicts | wa/cli.py:294-306 | after a sync a chat is called by the last name given to it, and each of its conversations has its verdict, in order |
| Migrate.Store.MergeChats | wa/cli.py:418-434 | the chat loop computes the merge |
| Migrate.Store.MergeContacts | wa/cli.py:436-445 | the contact loop computes the merge |
| Migrate.Store.RewriteLines | wa/cli.py:447-472 | the message loop computes the rewriting and its count |
| Migrate.Store.Migrate | wa/cli.py:374-502 | all three files are rewritten, or none on a dry run, and the counts are the same either way |
| Migrate.ChatsMerge | wa/cli.py:418-434 | a merged chat exists exactly for the targets of some entry, with their latest time and first non-empty name |
| Migrate.ContactsMerge | wa/cli.py:436-445 | the first contact name folded into a key wins |
| Migrate.LinesKeepOrder | wa/cli.py:447-472 | message lines keep number and order, blank ones dropped, each rewritten on its own |
| Migrate.KeepsKind | wa/cli.py:458-472 | rewriting touches chat and sender only, and twice is once |
| Migrate.RewrittenDiffer | wa/cli.py:447-472 | the lines counted as rewritten are those that differ from what they were, and a second migration rewrites none |
| Migrate.MigrationIdempotent | wa/cli.py:410-502 | all resulting keys are canonical and distinct, and migrating again changes nothing in any file |
| Migrate.RecordsKeepTheirEntries | wa/cli.py:418-472 | every record whose chat had an entry still has one after migration, and so has every named sender |
| Protobuf.WriteVarint | wa/peerreq.py:24-31 | the loop writes the seven-bit groups of the value modulo 2^64, lowest first |
| Protobuf.ReadVarint | wa/pbutil.py:20-31 | the shifting loop reads what the groups spell, or raises as specified |
| Protobuf.VarintAt | wa/pbutil.py:20-31 | every value below 2^64 reads back, ten-byte varints included, and consumes exactly its bytes |
| Protobuf.VarintErrors | wa/pbutil.py:20-31 | reading raises IndexError if and only if fewer than ten bytes are left and all continue, ValueError if and only if ten bytes continue |
| Protobuf.ParseErrors | wa/pbutil.py:34-61 | parsing raises IndexError if and only if the walk over the fields gets to a tag, or a varint behind one, that is cut; ValueError if and only if it gets to an overlong varint or an unknown wire type |
| Protobuf.DecodeFields | wa/pbutil.py:34-61 | the parse loop ends and collects every field's values in encoded order, or raises as specified |
| Protobuf.ParseOfMessage | wa/pbutil.py:34-61 | parsing any list of written fields gives, for each number, exactly its values in order |
| Protobuf.FixedField | wa/pbutil.py:48-57 | eight bytes of wire type 1, or four of type 5, are a little-endian number |
| Protobuf.KnownMessages | tests/test_pbutil.py:8-26 | small messages byte by byte, 300 and -1 included |
| PeerRequest.BuildHistorySyncOnDemand | wa/peerreq.py:50-64 | the request body as a list of fields |
| PeerRequest.BuildPeerDataRequest | wa/peerreq.py:67-91 | the body inside its three envelopes |
| PeerRequest.RequestParses | wa/peerreq.py:50-91 | opening the envelopes of a request gives every argument back, and nothing else, with message type 16 and operation 3 on the way |
| Messages.BuildDocumentMessage | wa/messages.py:53-75 | the document body as a list of fields, optional ones only when present, dimensions only with a thumbnail |
| Messages.OneLayer | wa/messages.py:248-250 | one device-sent layer parses into its message and destination, and no extractor mistakes it for a content |
| MessageParts.QuotedYields | wa/messages.py:173-203 | the quoted-id answer step by step: the first of six contents decides by its context, else the message in the first of five wrappers that holds one |
| MessageParts.MediaYields | wa/messages.py:121-163 | what a media content yields, part by part: the first value of the number its kind keeps the part under, if it has a key and a place to fetch from |
| MessageParts.MediaWithin | wa/messages.py:121-163 | without a media content the wrapped message decides |
| MessageParts.DestinationYields | wa/messages.py:221-232 | the destination lookup step by step: field 1 of field 31, "" when either is missing, empty or malformed |
| MessageParts.WrappersInOrder | wa/messages.py:105-200 | five wrappers are opened in order, malformed ones passed over |
| MessageParts.ReplyParses | wa/messages.py:235-245 | opening a built reply gives text, quoted id, participant and preview back |
| MessageParts.DocumentParses | wa/messages.py:53-75 | parsing a built document finds every field under its number, optional ones only when present, and nothing else |
| Messages.QuotedThrough | wa/messages.py:173-203 | extraction sees through wrappers up to the fifth message and gives up after it |
| Messages.MediaThrough | wa/messages.py:121-163 | the same for media |
| Messages.ReplyThroughWrappers | wa/messages.py:173-250 | a built reply yields its quoted id through zero to four layers and "" through more |
| Messages.DocumentYields | wa/messages.py:121-163 | a built document yields url, keys, digests, length, name and path if and only if it has a key and a url or a path |
| Messages.DocumentThroughWrappers | wa/messages.py:121-163 | the same through layers |
| Messages.DestinationOfWrap | wa/messages.py:221-250 | the destination of one layer comes back |
| Messages.ExtractMediaRef | wa/messages.py:121-163 | the imperative extractor computes the specified outcome |
| Messages.FillEntries | wa/messages.py:145-153 | the loop takes the first value of every filled slot |
| Messages.QuotedIdRaises | wa/messages.py:173-203 | the quoted-id extractor raises if and only if some content, context or wrapper it opens below the message is cut; never for a cut message itself |
| Messages.MediaRaises | wa/messages.py:121-163 | the media extractor raises if and only if the content or some wrapper it opens is cut |
| Messages.DestinationRaises | wa/messages.py:221-232 | the destination lookup raises if and only if the message or its device-sent part is cut |
| Messages.TruncatedContentRaises | wa/messages.py:173-232 | concrete inputs: a cut content raises, a cut message is "" for the quoted id and raises for the destination |
| Messages.TruncatedDocumentRaises | wa/messages.py:121-163 | a concrete document with a cut content makes the media extractor raise |
| Frames.FrameParser.Feed | wa/transport/framesocket.py:44-60 | any chunk is accepted, the frames it completes come out, no complete frame stays in the buffer, and the too-large error is never raised |
| Frames.FrameForm | wa/transport/framesocket.py:31-68 | a frame is three bytes worth the length as one big-endian number, then the payload; 2^24 bytes and more are refused |
| Frames.FeedAll | wa/transport/framesocket.py:44-60 | a list of chunks gives what their concatenation gives |
| Frames.Resume | wa/transport/framesocket.py:44-60 | parsing can stop at any byte and resume |
| Frames.StreamParses | wa/transport/framesocket.py:44-68 | the frames of a stream of payloads are the payloads, with nothing left |
| Frames.NothingLost | wa/transport/framesocket.py:44-68 | at all times the input fed equals the frames emitted, encoded again, followed by the buffer |
| Frames.Reassemble | wa/transport/framesocket.py:44-60 | however the stream of a payload sequence is cut, exactly the payloads come out |
| Frames.FrameSocket.Send | wa/transport/framesocket.py:126-133 | the first frame goes out behind the header; a payload too large is refused before anything changes; a failing connection loses the frame, and the header counts as sent |
| Frames.SendAll | wa/transport/framesocket.py:126-133 | whichever sends fail, a run writes the header at most once, at the front, then the frames that got through, in order |
| Frames.SentFramesParse | wa/transport/framesocket.py:63-68 | past the header the peer's parser turns what was written back into the payloads that got through, with nothing left; without the header if its send failed or nothing was accepted |
| Frames.HeaderLost | wa/transport/framesocket.py:126-133 | concretely: the first of two sends fails, and the second frame goes out without the header |
| Noise.IvEqual | wa/crypto/noise.py:33-35 | two counters give the same nonce if and only if they agree modulo 2^32 |
| Noise.IvValue | wa/crypto/noise.py:33-35 | the nonce is 12 bytes worth the counter modulo 2^32 |
| Noise.Suite.HkdfPairIsHkdf | wa/crypto/noise.py:38-44 | the pair is the first two blocks of the chained expansion of section 2.3 of RFC 5869, with an empty info, from what is extracted |
| Noise.NoiseHandshake.Start | wa/crypto/noise.py:85-96 | the initial symmetric state |
| Noise.NoiseHandshake.Authenticate | wa/crypto/noise.py:98-100 | only the transcript hash changes |
| Noise.NoiseHandshake.Encrypt | wa/crypto/noise.py:107-111 | seals under the hash and the next counter, then folds the ciphertext in |
| Noise.NoiseHandshake.Decrypt | wa/crypto/noise.py:113-119 | opens under the hash and the next counter; a rejected ciphertext spends the counter and leaves the hash |
| Noise.NoiseHandshake.MixIntoKey | wa/crypto/noise.py:121-126 | salt and key are replaced and the counter starts over, in a new key epoch |
| Noise.NoiseHandshake.Run | wa/crypto/noise.py:98-130 | the (epoch, nonce) pairs a sequence of operations uses are those read off the sequence |
| Noise.NoncesNeverRepeat | wa/crypto/noise.py:102-126 | no pair is used twice if and only if no key sees more than 2^32 counter values |
| Noise.SocketNonces | wa/crypto/noise.py:156-159 | the same for a socket: if and only if it seals at most 2^32 frames |
| Noise.NoiseSocket.EncryptFrame | wa/crypto/noise.py:156-159 | one frame sealed under the write counter, which moves on |
| Noise.NoiseSocket.DecryptFrame | wa/crypto/noise.py:161-164 | a rejected ciphertext leaves the read counter where it was |
| Noise.NoiseSocket.EncryptAll | wa/crypto/noise.py:156-159 | a sequence of frames sealed under consecutive counters |
| Noise.NoiseSocket.DecryptAll | wa/crypto/noise.py:161-164 | the plaintexts accepted out of any sequence of ciphertexts |
| Noise.SealedAt | wa/crypto/noise.py:156-159 | frame i of a sequence is sealed under the key and the nonce of the counter i later, with no additional data |
| Noise.InOrderFrames | wa/crypto/noise.py:156-164 | frames sealed in order are a genuine sequence |
| Noise.GenuineFramesDecrypt | wa/crypto/noise.py:161-164 | genuine frames in order decrypt to their plaintexts, however many rejected ciphertexts come between them |
| Channel.SendNode | wa/session.py:87-88 | one send: sealed and counted first, then framed; refused if too large, lost if the connection fails |
| Channel.SendNodes | wa/session.py:87-88 | a run of sends advances the counter by their number and writes the frames that get out, in order |
| Channel.SkewedFrames | wa/crypto/noise.py:156-164 | a reader that has fallen behind by fewer than 2^32 accepts nothing of what follows |
| Channel.FramesArrive | wa/transport/framesocket.py:44-60 | the peer's parser finds exactly the frames that got out |
| Channel.PeerAccepts | wa/session.py:87-88 | of a run of sends the peer accepts exactly the messages before the first that failed |
| Channel.AllThatGotOutIff | wa/session.py:87-88 | the peer accepts all that got out if and only if nothing got out after a failure |
| Handshake.DoHandshake | wa/handshake.py:89-140 | the client's operations in order: what it sends, when it fails, and the counters and keys of the socket it returns, the keys as two blocks expanded from the final chaining value |
| Handshake.ReceiveHello | wa/handshake.py:107-126 | the first half, with every check that can fail |
| Handshake.SendFinish | wa/handshake.py:128-136 | the second half |
| Handshake.HelloAgreement | wa/handshake.py:97-126 | after the server's answer both ends hold the same state and the client has the server's static key and certificate |
| Handshake.FinishAgreement | wa/handshake.py:128-140 | after the client's last message too, and the server has the client's static key and payload |
| Handshake.HandshakeAgreement | wa/handshake.py:89-140 | client and mirrored responder complete with the same hash, salt, key and counter |
| Handshake.UncertifiedRefused | wa/handshake.py:125-126 | a certificate that does not check out stops the client |
| Handshake.TrafficCrosses | wa/handshake.py:138-140 | keys derived from the client's final state and from the responder's own carry any frames in both directions |
| Handshake.Converse | wa/handshake.py:89-140 | the handshake run against a matching responder, then frames over the socket it returns and the one the responder builds from what it was sent: all arrive, and the responder has learned the client's key and payload |
| NoisePattern.Functions | wa/crypto/noise.py:98-126 | mixing, sealing and opening are the functions of section 5.2 of the Noise Protocol Framework, keys by the expansion of RFC 5869 |
| NoisePattern.StartIsInitial | wa/crypto/noise.py:85-96 | the start is the protocol name padded to a hash length, then the prologue |
| NoisePattern.ClientRunIsXX | wa/handshake.py:97-140 | the client's whole side is the token interpreter's run of the XX pattern, missing fields, wrong lengths and a refused certificate apart |
| NoisePattern.ServerAnswerIsXX | wa/handshake.py:107-126 | the mirrored responder reads the first message and writes the second as the pattern says |
| NoisePattern.ServerReadIsXX | wa/handshake.py:128-136 | and reads the third |
| Edwards.Constants | wa/crypto/xeddsa_sign.py:18-40 | the constants are 2^255 - 19, a group order below 2^253, -121665/121666 and a base point on the curve with y = 4/5 and even x, in well-formed coordinates |
| Edwards.AddIsExtended | wa/crypto/xeddsa_sign.py:43-59 | every sum keeps X*Y congruent to Z*T |
| EdwardsLaw.AdditionLaw | wa/crypto/xeddsa_sign.py:43-59 | which point a sum is: the addition law of the curve, denominators multiplied out, for all coordinates |
| EdwardsLaw.SumOnCurve | wa/crypto/xeddsa_sign.py:43-59 | the sum of two points satisfying the curve equation satisfies it |
| EdwardsLaw.IdentityAdds | wa/crypto/xeddsa_sign.py:62-69 | adding the identity gives the same point |
| EdwardsLaw.AddCommutes | wa/crypto/xeddsa_sign.py:43-59 | the order of the operands does not matter |
| EdwardsLaw.MirrorAdds | wa/crypto/xeddsa_sign.py:43-59 | a point of the curve and its mirror image add up to the identity |
| EdwardsLaw.BaseMultiplesOnCurve | wa/crypto/xeddsa_sign.py:62-69 | every multiple of the base point satisfies the curve equation |
| Edwards.ScalarMulIsExtended | wa/crypto/xeddsa_sign.py:62-69 | so does every multiple the ladder builds |
| Edwards.ScalarMulIsFold | wa/crypto/xeddsa_sign.py:62-69 | double-and-add is e-fold addition, for every e |
| Edwards.FoldPeriodic | wa/crypto/xeddsa_sign.py:119-120 | multiples of a point of order n depend on the scalar modulo n only |
| Edwards.SignatureEquation | wa/crypto/xeddsa_sign.py:99-120 | s = (r + k*a) mod L satisfies s*B = R + k*A |
| Xeddsa.EncodedPoint | wa/crypto/xeddsa_sign.py:72-78 | the bit-by-bit encoding is y in little-endian order with the parity of x in the free top bit |
| Xeddsa.AffineQuotients | wa/crypto/xeddsa_sign.py:72-76 | the encoded coordinates are X/Z and Y/Z modulo P |
| Xeddsa.ClampedScalar | wa/crypto/xeddsa_sign.py:92-97 | the clamped scalar is the key modulo 2^254 rounded down to a multiple of 8, plus 2^254 |
| Xeddsa.NonceAndChallenge | wa/crypto/xeddsa_sign.py:103-117 | the nonce is hash_1 of the XEdDSA scheme of scalar, message and randomness, and the challenge the hash of R, A and the message, modulo the order |
| Xeddsa.NonceInputIff | wa/crypto/xeddsa_sign.py:103-108 | no two different scalars, messages or random strings are hashed to a nonce from the same input |
| Xeddsa.XeddsaSign | wa/crypto/xeddsa_sign.py:81-126 | the in-place signing computes the specified signature, and fails exactly on wrong lengths |
| Xeddsa.Verify | wa/crypto/xeddsa.py:33-58 | wrong lengths are false; otherwise the Ed25519 verifier is asked about the key and signature with the sign bit moved back; it raises if and only if both lengths are right and the key is P - 1 |
| Xeddsa.VerifierAsks | wa/crypto/xeddsa.py:42-52 | what Ed25519 is asked about any key and signature: y with the top bit of the signature on top, and the signature without it |
| Xeddsa.TopBitIgnored | wa/crypto/xeddsa.py:26-29 | a public key is read modulo P, whatever its top bit holds |
| Xeddsa.VerifyRaises | wa/crypto/xeddsa.py:26-43 | the same about the specified answer: x + 1 is a multiple of P for no other key |
| Xeddsa.RaisingKey | wa/crypto/xeddsa.py:26-30 | the 32 bytes of P - 1 as a key make it raise, whatever the message and signature |
| Xeddsa.SignBitRecovered | wa/crypto/xeddsa.py:43-48 | since s is below 2^253 the borrowed top bit is recovered together with s |
| Xeddsa.MontgomeryBack | wa/crypto/xeddsa.py:19-30 | the conversion takes the Montgomery form of any y back to y; such a form is never P - 1 |
| Xeddsa.VerifierSeesTheSigner | wa/crypto/xeddsa.py:42-52 | from the signer's Montgomery key the verifier reconstructs the encodings of A and R and the scalar s |
| Xeddsa.SignedPartsVerify | wa/crypto/xeddsa_sign.py:99-120 | what is signed satisfies the verification equation |
| Xeddsa.SignThenVerify | wa/crypto/xeddsa.py:33-58 | verifying a signature under the signer's Montgomery key answers true, for any Ed25519 verifier that accepts the curve points satisfying the equation |

## Left out

Codec
- Decompression of flagged payloads is a parameter that may fail; only its place in the decoder is modelled.
- The contents of the token tables: the proofs hold for every table of the same shape whose slot 0 is the empty text.
- Attribute values that are bytes, nodes or lists, counts of 2^16 and more, duplicate attribute keys, lone surrogates, and Python's recursion limit.
- Texts as integers: only ASCII digits and blanks are read by `JID.parse`, and the interpreter's limit on the number of digits is not modelled.

Connection
- Handling a stanza is one atomic step, because everything it shares is changed before its first await; a task cancelled in the middle of its replies is not modelled.
- The message callback is an input: the receipt kinds it returns come with the event, and an exception it raises is an empty list.
- Ids that are bytes or lists match no waiter; frames that do not decode are not events.
- Drain takes finite reals for its limits; sends take no time, and the clock is exact.
- Timeouts of waiters are events of the environment, and so are the requests other tasks make while a drain sleeps; the stanzas those tasks send, and stopping a session in the middle of a drain, are left out. The encryption of a sent stanza is left to the transport modules.

Signal
- What a row's envelope decrypts to is a function of the envelope that comes with the row's end: a message, nothing or an error. Decrypting may change the key material of the account and nothing else.
- One drain at a time, and no other process on the database; reading identifiers out of an envelope, random ids for envelopes without one, and the group secret derivation are parameters.

History and identities
- The phone is assumed truthful and its history ordered by time, each message with its own id. How a request is encrypted, sent and awaited is one answer of the phone.
- Paging.Chat.Request: does not model choosing among a chat's identifiers when it asks, nor a reply that also brings new messages of other chats, which the command would count as gained, because the phone answers for the walked chat only.
- Parsing of history blobs and their download are inputs; a blob that cannot be used is one that is skipped.
- Extra keys of chat entries, lines of the message file that are JSON but not objects, and digits outside ASCII in long phone-number locals.
- `upsert_chat`, `find_chat`, coverage reports and contact import would only add easy members; file locks, atomic writes and backups are I/O.
- Idempotence of chats under a second ingest is not claimed: the identity map grows during the first, so a conversation may be filed elsewhere.

Messages
- The lenient repair of ill-formed UTF-8 is a parameter, and base64 text is kept as the bytes it stands for.
- The other content builders, phash and padding of plaintexts.

Transport and cryptography
- Hash, HKDF, AEAD, X25519 and Ed25519 are parameters; what is assumed of them is stated in `Noise.Suite.Lawful`, `Channel.Binding` (a frame opens under no other counter) and `Xeddsa.Accepts`. That P is prime is assumed in the form that exactly its multiples have no inverse (`Xeddsa.Primitives.Lawful`).
- ScalarMulIsFold: assumes that point addition is a group operation on the curve (`Edwards.Group.Laws`), as section 5.1.4 of RFC 8032 does; so do the lemmas that build on it, and those about signatures also assume that the base point has order L. Of these laws the curve equation of sums, the identity, inverses and commutativity are proved in `EdwardsLaw`; associativity, and that no sum of curve points has Z = 0, are not.
- The Noise pattern differs from the framework in two things the client does: its first message carries no payload, and its nonce counts 32 bits only.
- The certificate chain check is a predicate; the protobuf wrapping of handshake messages, reconnection and the WebSocket are left out.
