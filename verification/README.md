# Ethryx: verified model of the sidecar's logic

Ethryx is a proxy that sits beside an Ethereum node. This project models the parts of it that decide something and
proves what they promise on all inputs, on every run and under every interleaving.
All claims are proofs checked by Dafny 4.11 (`dafny verify dfyconfig.toml`).

| files | subject | form |
|---|---|---|
| `Json.dfy`, `JsonGrammar.dfy`, `JsonString.dfy`, `JsonObject.dfy`, `JsonTexts.dfy`, `JsonEscapes.dfy` | JSON texts (RFC 8259, sections 2 to 7): concrete trees with a printer, a one-pass recogniser, the proof that the two are inverse; decoded strings and members looked up by name; the same grammar in terms of characters, and every way to spell a string | functions and lemmas |
| `Rpc.dfy` | what a JSON-RPC body means to the `eth_syncing` mock, stated on trees | functions |
| `RpcStream.dfy`, `RpcStreamProofs.dfy` | the streaming request reader of `src/rpc.rs` and its agreement with the trees | functions and lemmas |
| `MockSyncing.dfy`, `RpcTheorems.dfy`, `RpcMeaning.dfy` | the batch loop, the full parser and the prefilter; the theorems about them | methods with loops, lemmas |
| `Lifecycle.dfy`, `LifecycleProofs.dfy`, `LifecycleGrace.dfy` | shutdown: one deadline, one completion barrier, an unbounded list of tasks that spawn tasks | transition system |
| `Relay.dfy`, `RelayProofs.dfy`, `RelayProgress.dfy` | the two directions of a WebSocket tunnel, with injected replies | transition system with histories |
| `Headers.dfy`, `Handshake.dfy`, `HandshakeMeaning.dfy` | the header map, hop-by-hop removal, the WebSocket request and its handshake | mutable classes, methods with loops |
| `Uri.dfy` | composition of upstream URIs, Beacon path routing | functions and lemmas |
| `U64.dfy`, `Quantity.dfy` | saturating 64-bit words; strict hexadecimal quantities | functions and lemmas |
| `ElResponses.dfy`, `ElBatch.dfy`, `ElBatchProofs.dfy`, `ElMeaning.dfy` | reading batch responses from JSON and matching them to requests | functions, a method filling an array of slots |
| `Transport.dfy` | the transport verdict over all sequences of polls | a mutable class, lemmas over runs |
| `Readiness.dfy` | readiness and its log of changes | functions, a method with a loop |

## How the main results fit together

**Mock classifier.** `Classify` (in `Rpc.dfy`) is the all-or-nothing meaning of a body: parse it to a tree, then look
at the tree. `JsonGrammar` shows that the recogniser is exactly the inverse of the printer, so this meaning does not
depend on how the text is read. The reader of the repository does neither: it reads one member at a time, gives up
early, tests raw bytes instead of types, and grows its reply while it reads. `ReadRequestAgrees`, `VisitSeq`,
`ParseMockSyncing` and `Mock` show that it always computes `Classify`, the last with the prefilter in front.
`HandledIff`, `PaddingIrrelevant` and `ReplyParsesBack` are then about `Classify`. The prefilter theorem carries no
length limit, so the 256 bytes are a matter of speed only. `RpcMeaning` then says what `Classify` is without its own
words: a request in terms of its members, a batch in terms of its elements alone, and any spelling of keys and strings,
where `JsonEscapes` has shown that a spelling printed from scalar values reads back as their UTF-8 bytes.

**Shutdown.** A run is any finite list of enabled events. The invariant ties the number of live senders to the tasks
that hold one; barrier safety, the single deadline and termination follow. Termination is by a lexicographic measure
(accept loops, connections, requests, relays, then `run` itself), and `DrainTerminates` turns it into a statement
about every scheduler that picks possible events and lets the clock tick only finitely often at a stretch. Such a
scheduler exists (`EagerIsScheduler`), and under it `run_inner` returns (`DrainCanReturn`). An accept loop that sleeps
after an error looks at nothing until it wakes; that is the one case in which only the clock helps. Scheduling is one
event at a time; a task's turn at or after its deadline is its last. `LifecycleGrace` is the other half: the deadline
is the time of publication plus the grace, until then nothing is cut off, and the barrier does not wait for it.

**Relay.** `RelaySafety` compares what each side was sent with what the other side said, for every interleaving, and
`SameTraces` shows that the mock relay without anything to mock is the plain relay. `ConversationPasses` is the progress
that safety alone leaves open: whatever the two sides say can all be read and passed on.

**Handshake.** `Respond` and `BuildWsRequest` mutate one request and its header map; `UpgradeRequest` states the final value
of every field name, and when the request is refused or cannot be built. `NormalizedRoundTrip` is the printer/parser pair for subprotocol offers.

**Health.** `ParseElBatch` reads the body with the recogniser of `Json.dfy`, quantities with `HexToU64`, and computes
`BatchMeaning`; `BatchRoundTrip` prints any three values in any order and gets them back. `Verdict` and `Log` are the specifications of the poller's two pieces of memory over whole runs. The
property that the verdict never flaps is stronger than settling against a fixed upstream: a run changes it at most once
more than reachability itself changes.

## Model

| member | source | states |
|---|---|---|
| JsonGrammar.ValueSound | src/rpc.rs:184-201 | whatever the recogniser accepts at an index is, byte for byte, the printed text of the well-formed tree it returns |
| JsonGrammar.ValueIff | src/rpc.rs:184-201 | the printed text of any well-formed tree, standing anywhere in an input, is recognised as that tree and nothing longer if and only if a number is not run into a character that continues it (a digit; a dot unless it has a fraction or an exponent; an exponent mark unless it has one) |
| JsonGrammar.DocumentIff | src/rpc.rs:184-201 | a whole input is accepted with a tree if and only if it is that tree's text between blanks; trailing bytes are refused |
| JsonGrammar.DocumentUnique | src/rpc.rs:184-201 | no input has two readings |
| JsonTexts.NumberTextIff | src/rpc.rs:184-201 | the number trees print exactly the texts made of an optional minus, an integer without leading zeros, an optional fraction and an optional exponent |
| JsonTexts.ArrayReadsBack | src/rpc.rs:184-201 | any values in brackets, separated by commas and with any whitespace around each, are recognised as the array of these values |
| JsonTexts.ObjectReadsBack | src/rpc.rs:184-201 | any members in braces, with any whitespace around each token, are recognised as the object whose lookups give their values by decoded name, in order |
| JsonTexts.EmptyReadsBack | src/rpc.rs:184-201 | brackets and braces with nothing but whitespace inside are the empty array and object |
| JsonEscapes.Utf8Recovers | src/rpc.rs:54-87 | from the bytes a scalar value is decoded to, the value can be computed back by removing the marker bits |
| JsonEscapes.EncodedIsValid | src/rpc.rs:173-177 | the bytes of any scalar values are valid UTF-8 |
| JsonEscapes.ValidIsEncoded | src/rpc.rs:173-177 | and every valid UTF-8 text is the bytes of scalar values |
| JsonEscapes.SpellingReadsBack | src/rpc.rs:54-87 | any mix of plain bytes, two-character escapes and four-digit escapes, in either letter case and as surrogate pairs above 0xFFFF, prints to a legal string that decodes to the bytes each piece stands for |
| JsonEscapes.StrValueIff | src/rpc.rs:54-87 | a string is readable as a text if and only if it is a spelling of it and it is UTF-8; nothing else, such as half a surrogate pair, is readable |
| RpcStreamProofs.EmptyParamsIff | src/rpc.rs:89-104 | on any JSON value the bracket test accepts exactly the empty array, with any whitespace inside |
| RpcStreamProofs.PresentIdIff | src/rpc.rs:106-114 | on any JSON value the first-byte test accepts exactly strings, numbers and null |
| RpcStreamProofs.ReadRequestAgrees | src/rpc.rs:22-54 | reading members one at a time (unknown keys skipped, escapes in keys decoded, a repeated known key an error, early exit) succeeds exactly on objects that are local requests, and yields their id text |
| MockSyncing.VisitSeq | src/rpc.rs:141-162 | the loop that grows the reply while it parses returns the all-or-nothing result of the whole array from any starting point |
| MockSyncing.ParseMockSyncing | src/rpc.rs:184-201 | choosing batch or single by the first non-blank byte (which includes form feed) and then parsing gives the meaning of the body, for every input |
| RpcTheorems.PrefilterSound | src/rpc.rs:168-181 | no input of any length without a backslash and without a literal `eth_syncing` is answered or silenced |
| RpcTheorems.Mock | src/rpc.rs:168-181 | with the prefilter in front the result is still the meaning of the body, for every input |
| RpcTheorems.HandledIff | src/rpc.rs:141-201 | a body is kept if and only if it is one local request or a non-empty array of local requests between blanks; anything else, at any position, forwards it |
| RpcTheorems.PaddingIrrelevant | src/rpc.rs:168-201 | blanks before or after a body never change the result, across the prefilter limit too |
| RpcTheorems.ReplyParsesBack | src/rpc.rs:116-127 | every reply is itself JSON: one object per request carrying an id, in request order, version 2.0, result false, id byte for byte; an array for a batch, one object otherwise |
| RpcTheorems.BatchReply | src/rpc.rs:141-162 | the batch part of the above, from any non-empty array whose meaning is a reply |
| RpcTheorems.EveryIdAnswered | src/rpc.rs:116-127 | conversely, for every string, number or null there is a request carrying it as id, and its reply is exactly the reply text around that id |
| RpcMeaning.RequestIff | src/rpc.rs:22-54 | for a body that is an object: the exact conditions on its members under which it is kept, silence without an id, and the reply text with one |
| RpcMeaning.BatchIsElementwise | src/rpc.rs:141-162 | for a body that is an array: it is kept exactly when each element, none an array, would be kept alone; the reply is theirs, in order, joined by commas between brackets |
| RpcMeaning.SpellingIrrelevant | src/rpc.rs:54-87 | respelling keys and strings, other than the id itself, never changes the classification of a request |
| RpcMeaning.SpellingIrrelevantInBatch | src/rpc.rs:54-162 | nor of a batch |
| RpcMeaning.SpelledCallAnswered | src/rpc.rs:54-127 | whatever the spelling of its four keys, its version and its method, a request is answered with its own id |
| LifecycleProofs.StepInv | src/lifecycle.rs:36-60 | every step keeps the sender count equal to the holders, the phases consistent and the deadline fixed |
| LifecycleProofs.SendersAreHolders | src/lifecycle.rs:18-60 | in every reachable state live senders are exactly the root's plus those held by tasks |
| LifecycleProofs.BarrierSafety | src/lib.rs:214-249 | when the barrier is passed no accept loop, connection, HTTP/2 request or relay owns its future, a socket or a sender, the poller is over, and this holds in every continuation |
| LifecycleProofs.OneDeadline | src/lifecycle.rs:9-52 | the deadline is written once; every task under a timeout, spawned before or after, has that same instant; a turn at or after it is the task's last |
| LifecycleGrace.PublishedInstant | src/lib.rs:226-229 | over every run: the deadline is the clock at the publication, one for each tick before it, plus the grace, ever after |
| LifecycleGrace.OnlyPublishSets | src/lib.rs:226-229 | without a publication the deadline stays unset |
| LifecycleGrace.ShutdownPossible | src/lib.rs:226-229 | while it serves, `run_inner` can publish at any time and with any grace |
| LifecycleGrace.AbandonedIsDue | src/lifecycle.rs:9-16 | dropped before publishing, it leaves every task with the present as its deadline |
| LifecycleGrace.MayGoOn | src/lifecycle.rs:40-52 | in every reachable state before the deadline every connection, request and relay has a turn that keeps its future |
| LifecycleGrace.MaySpawn | src/lib.rs:257-331 | and may spawn what its code spawns, with a sender of its own; accept loops until the publication |
| LifecycleGrace.MayLeave | src/lifecycle.rs:40-52 | at any time, serving or draining, a connection, request or relay may end, and then every sender it held is let go |
| LifecycleGrace.AcceptsStop | src/lib.rs:262-276 | from the publication on every turn of an accept loop is its last, and asleep it has none |
| LifecycleGrace.BackOffLasts | src/lib.rs:268-275 | the sleep after an accept error lasts 100 milliseconds |
| LifecycleGrace.EarlyReturn | src/lib.rs:229-249 | from every reachable state after the publication `run_inner` can return without waiting for the deadline, no later than when the last sleeping accept loop wakes |
| LifecycleProofs.DrainShrinks | src/lib.rs:257-331 | past the deadline every event but the clock shrinks the lexicographic measure, because children only join lower classes |
| LifecycleProofs.DrainProgress | src/lib.rs:229-276 | until everything is gone some event other than the clock and the loss of `run_inner` is possible, so neither the barrier nor a join can deadlock; the exception is an accept loop asleep after an error, and then each tick shortens the sleep |
| LifecycleProofs.DrainTerminates | src/lib.rs:229-249 | from every reachable state past the deadline, every scheduler that lets the clock tick finitely often at a stretch ends after finitely many events with every task and the poller gone and no sender left; unless `run_inner` is dropped on the way it has passed the barrier and returned |
| LifecycleProofs.EagerIsScheduler | src/lib.rs:229-276 | there is such a scheduler: do what is possible, tick only while accept loops sleep |
| LifecycleProofs.DrainCanReturn | src/lib.rs:229-249 | from every reachable state past the deadline in which `run_inner` is not dropped there is a run in which it returns |
| RelayProofs.StepInv | src/websocket.rs:260-342 | every read, lock, send, flush, cancellation and drop keeps the account of both histories |
| RelayProofs.RelaySafety | src/websocket.rs:260-342 | over every interleaving: upstream is sent the client's messages not handled locally, the client is sent the upstream's messages merged with one reply per text that calls for one, all in order and unchanged, a close with its code and reason, nothing read after a close, each at most one item behind |
| RelayProofs.NothingAfterClose | src/websocket.rs:265-276 | a close is the last message relayed in its direction |
| RelayProofs.MockRunIsPlain | src/websocket.rs:296-341 | with no locally handled text, a run of the mock relay is, without its lock steps, a run of the plain relay with the same histories |
| RelayProofs.PlainRunIsMock | src/websocket.rs:291-294 | and every such run of the plain relay is one of the mock relay |
| RelayProofs.SameTraces | src/websocket.rs:280-342 | both directions, from the start of a tunnel |
| RelayProgress.ConversationPasses | src/websocket.rs:260-342 | for every conversation, read in any order, in which neither side speaks after its close, there is a run that reads all of it, sends upstream exactly the client's messages not handled locally, and sends the client exactly the upstream's messages and the replies, in order |
| RelayProgress.HandsOver | src/websocket.rs:296-341 | in every reachable state a loop with something in hand can hand it over and go on: the mutex cannot deadlock |
| RelayProgress.EndsForAReason | src/websocket.rs:265-358 | over every run a direction is over only after the end of its stream, a close, a failed send, a cancellation or the drop of both |
| RelayProgress.MayEnd | src/websocket.rs:265-358 | and each of these can happen where the code allows it; a failed send of a close still leads to the flush |
| RelayProgress.StepFlushes | src/websocket.rs:267-272 | a loop stops reading for the flush only by passing on a close |
| RelayProgress.OtherCanEnd | src/websocket.rs:344-358 | once one direction is over the other can be cut off |
| Headers.StripHopByHop | src/headers.rs:22-38 | the two removal loops leave exactly the end-to-end fields of the original map |
| HandshakeMeaning.HopByHopNames | src/headers.rs:7-20 | the twelve listed names, no more and no fewer |
| Headers.StripExact | src/headers.rs:22-38 | a name loses its values if and only if it is listed or some item of some Connection line, in any case and between any blanks, names it; every other name keeps all its values in order |
| Headers.StripIdempotent | src/headers.rs:22-38 | stripping again changes nothing |
| Headers.NominationIsHeard | src/headers.rs:25-31 | empty or invalid items beside a valid option do not hide it |
| HandshakeMeaning.OptionNameIff | src/headers.rs:25-31 | an option names a field exactly when, without ASCII whitespace around it, it is a non-empty run of token characters; the name is that run in lower case |
| HandshakeMeaning.TokenCharIff | src/websocket.rs:113-119 | the characters accepted in tokens are the visible ones that are no delimiters, section 5.6.2 of RFC 9110 |
| HandshakeMeaning.LineTokens | src/websocket.rs:111-113 | a line of tokens with any spaces and tabs around each holds exactly these tokens |
| Handshake.NormalizeSubprotocols | src/websocket.rs:105-136 | fails exactly when a token of some line is empty, invalid or repeated, and then the map is untouched; otherwise the lines are merged into one, which is always a legal field value |
| Handshake.NormalizedRoundTrip | src/websocket.rs:103-136 | splitting the merged field gives the tokens of all lines in order, normalising again changes nothing, no other field changes |
| Handshake.JoinParsesBack | src/websocket.rs:121-124 | any non-empty list of tokens printed with comma and space is read back token for token |
| Handshake.RewrittenValues | src/websocket.rs:61-82 | removing, stripping and inserting in this order give each field name its value: handshake fields canonical, end-to-end fields as they were, all others gone |
| Handshake.Respond | src/websocket.rs:37-87 | succeeds exactly on an acceptable request, which includes the server library's check of the rewritten request, and then fixes the value of every field name |
| Handshake.BuildWsRequest | src/websocket.rs:138-166 | fails exactly when the URI does not compose or the host or key is no field value; otherwise an HTTP/1.1 GET without extensions in which only the host and, over HTTP/2, the key are set |
| Handshake.UpgradeRequest | src/websocket.rs:176-195 | end to end: it is not a bad request exactly when there is one version line 13, every offered token is valid and none repeated and, for Upgrade, it is HTTP/1.1 with one key line and passes the server's check; then when it fails, and otherwise the upstream URI, method, version and the value of every field name |
| HandshakeMeaning.OrdinaryRequestAccepted | src/websocket.rs:37-87 | every key, every list of distinct valid tokens with any padding and any other fields make an accepted request in both modes, and exactly these tokens are offered upstream |
| HandshakeMeaning.OtherVersionRefused | src/websocket.rs:42-45 | any other version, or more than one line of it, is refused |
| HandshakeMeaning.UpstreamRequestShape | src/websocket.rs:54-86 | the seven handshake fields have the written-out values, the offer parses back, and every other field is gone if hop-by-hop or nominated and unchanged if not; RFC 6455 section 4.1 and RFC 8441 section 5 |
| Uris.Composition | src/proxy.rs:367-409 | for every base and rooted path, shortcut or not, with or without override: the result parses back to the base's scheme and authority, the joined path, and the base parameters followed by the inbound ones |
| Uris.CompositionFails | src/proxy.rs:372-408 | it fails exactly when a base that must be taken apart has a scheme without authority or the reverse, or when the composed text must be parsed and is too long or holds a character not allowed where it stands |
| Uris.LegalCompositionFails | src/proxy.rs:372-408 | under any table of path and query characters that allows the slash and the ampersand it puts in, composing legal parts fails only for such a base or on the length |
| Uris.CharsLegalIff | src/proxy.rs:397-405 | a path and a query are legal exactly when each character is allowed where it stands |
| Uris.TrimEndSlashesIff | src/proxy.rs:394-394 | all trailing slashes of the base path go, and nothing else |
| Uris.MergedParams | src/proxy.rs:397-405 | merging two queries concatenates their parameter lists, with empty and missing queries alike |
| Uris.IsClPathIff | src/proxy.rs:229-249 | the length-indexed lookup accepts exactly the paths whose first segment is one of the six names |
| Quantity.HexToU64Iff | src/health.rs:963-972 | accepts a text with a value if and only if it is `0x`, canonical digits, and a value below 2 to the 64; the checked arithmetic rejects nothing else |
| Quantity.RoundTrip | src/health.rs:963-972 | every 64-bit value's canonical text is read back |
| Quantity.AcceptedPrintsBack | src/health.rs:963-972 | printing the value of an accepted text gives its digits back in lower case |
| Quantity.SameValueIff | src/health.rs:963-972 | two accepted texts have equal values if and only if they differ in letter case only |
| Quantity.LetterCaseIff | src/health.rs:963-972 | without arithmetic: a text is accepted with a value if and only if it is `0x` and the value's canonical digits in any letter case |
| Quantity.FromRadixIff | src/health.rs:971-971 | digit-by-digit checked multiply and add returns the positional value, or nothing exactly when that does not fit |
| ElBatch.ParseElBatch | src/health.rs:806-870 | from the body's bytes: succeeds exactly when it is an array of three readable response objects whose ids are a permutation of 1, 2, 3, and gives each signal what its own response says; otherwise malformed or unexpected id |
| ElBatchProofs.BatchRoundTrip | src/health.rs:806-870 | for every sync state, peer count and block, the three answers printed in any order parse to exactly these values |
| ElMeaning.OnlyThreeMembersMatter | src/health.rs:807-821 | what is read of a response depends on its id, result and error alone, as long as all keys are readable |
| ElMeaning.ExtraMemberIgnored | src/health.rs:807-821 | one more member with any other name and any value, at any place, changes nothing that is read of a response |
| ElMeaning.ExtraMemberIgnoredInPair | src/health.rs:110-148 | nor of a progress object or a block |
| ElMeaning.NullIsMissing | src/health.rs:810-813 | a result or error that is null counts as missing |
| ElMeaning.ResponseIff | src/health.rs:807-821 | a response is readable if and only if it is an object with readable keys, one integer id, and at most one result and one error, each null or UTF-8; a repeated member is refused |
| ElMeaning.BatchIff | src/health.rs:820-821 | and a body if and only if it is an array of exactly three of them |
| ElMeaning.I64Iff | src/health.rs:809-809 | an id is a number without fraction or exponent that fits in 64 bits, minus zero excluded |
| ElMeaning.IdsReadBack | src/health.rs:809-809 | every 64-bit id is read back from its decimal digits |
| ElMeaning.SyncingIff | src/health.rs:110-141 | a result is read as a sync state if and only if it is that boolean, or an object with one currentBlock and one highestBlock holding these quantities |
| ElMeaning.BlockIff | src/health.rs:143-149 | and as a block if and only if it is an object with one number and one timestamp holding these quantities |
| ElMeaning.BatchSays | src/health.rs:806-870 | for every array of three responses with ids 1, 2, 3 in any order, other members included and nulls written or left out: each signal is its error, else a missing result, else what its result reads as |
| ElMeaning.StatedValuesAreRead | src/health.rs:806-870 | and without errors the values the results state are the values read |
| ElBatchProofs.SameMeaning | src/health.rs:820-870 | two bodies whose responses are permutations of each other have the same outcome, failures included |
| ElBatch.AllSlotsFilled | src/health.rs:840-849 | after the loop no slot is empty, so the missing-response error cannot occur |
| ElBatch.OrderIrrelevant | src/health.rs:822-838 | permuting the responses changes neither whether they match nor which signals they give |
| ElBatch.AnswersUnique | src/health.rs:851-869 | a matched batch determines all three signals |
| ElBatch.SignalsIndependent | src/health.rs:840-869 | replacing one response by any other with its id, a failure included, leaves the other two signals as they were |
| Transport.Poller.constructor | src/lib.rs:158-163 | the starting verdict prefers HTTP/2 exactly for a cleartext upstream that is not trusted |
| Transport.Poller.BatchDetect | src/health.rs:418-458 | the published result comes from the client the resulting verdict names, at most two calls on different clients, a second one exactly after a transport failure in clear text |
| Transport.DownIff | src/health.rs:451-458 | a client is down exactly on a timeout or a transport error |
| Transport.Poller.ProbeOnce | src/health.rs:346-379 | a trusted upstream is never asked; otherwise the execution layer's part comes from the client the verdict names and the consensus layer's answers are published as they are |
| Transport.Poller.Run | src/health.rs:519-570 | over a whole run of polls each published probe comes from the client named by the verdict after that poll |
| Transport.NamedClientWorks | src/health.rs:429-449 | after any history, the named client was down at the last poll only if every client was |
| Transport.SwitchesBounded | src/health.rs:418-458 | over any run the verdict changes at most once more often than reachability does |
| Transport.SettlesInOnePoll | src/health.rs:418-458 | against fixed reachability the verdict is final after one poll and names a working client if there is one |
| Transport.TotalFailureKeeps | src/health.rs:432-434 | polls that reach nothing leave the verdict as it was |
| Transport.StaysDefault | src/health.rs:420-425 | over TLS or with a trusted upstream no run leaves the default client |
| Readiness.SlotAgeExact | src/health.rs:759-764 | for all 64-bit inputs the saturating age equals the exact distance past the due time, or zero |
| Readiness.ReadyIff | src/health.rs:274-325 | readiness and each part of the report written out in exact integers |
| Readiness.StrictImpliesDefault | src/health.rs:288-318 | strict readiness of a probe implies its default readiness at any time |
| Readiness.NeverReturns | src/health.rs:642-696 | for one probe readiness once lost does not return as the clock advances, and without strictness it does not move |
| Readiness.PollLoop | src/health.rs:519-570 | the lines written are the log of the verdicts seen, up to a stop or the first one nobody receives |
| Readiness.SeenExact | src/health.rs:525-569 | the verdicts seen are those of the delivered polls and of the first undelivered one, none of a stopped turn and none after |
| Readiness.LineIff | src/health.rs:335-342 | a poll writes a line if and only if it saw a change, starting from ready |
| Readiness.LogAlternates | src/health.rs:335-342 | lines alternate, not-ready first, in increasing poll order |
| Readiness.CurrentState | src/health.rs:335-342 | current readiness is what the last line says, ready if there is none |
| Readiness.LogLossless | src/health.rs:525-565 | two runs of equally many polls with the same log saw the same verdicts |

## Choices

- A body, field value or path is a string whose characters stand for its bytes; the theorems hold for all strings.
- `Json` describes what `serde_json` accepts when it skips a value or keeps its raw text. Keys and strings that are
  compared are decoded; a lone surrogate escape or invalid UTF-8 makes them unreadable (`JsonString.dfy`).
- In the relay, a failed send may or may not have reached the other side, which is why each list may lag by one item.
- In the lifecycle, one turn of a task may clone, drop and hand on any number of senders and spawn any number of
  children of the classes its code spawns. A deadline cell closed without a value reads as the present, as
  `deadline` in `src/lifecycle.rs` does when `run` is abandoned.
- The consensus layer's answers are parameters of a poll, like the execution layer's per client.
- `Uri::from_parts` needs a scheme and an authority together; `HeaderValue` refuses control characters but the tab, and
  delete. These two rules of http's are written out; the characters and the length it allows in a path and query are a
  parameter.
- In the readiness log, the number of a poll stands for the time stamp of its line.
- Two calls of one poll go to different clients, so an upstream is a function from client to answer, chosen anew for
  every poll.

## Left out

- LifecycleProofs: tasks are values in a transition system, not objects updated in place, so aliasing of channels and watch cells is not captured; real time and fairness are abstract (a clock event, and one last turn after the deadline).
- RelayProofs: the two loops are values in a transition system; the one-second timeouts appear as cancellations that may happen at any point where the code allows one.
- LifecycleProofs.BarrierSafety: covers tasks tracked by a `Lifecycle`; the executors of the client connection pools and hyper's own helper tasks are not tracked by the program either.
- Handshake.Respond: the server library's check is a predicate over the method, version and rewritten fields; the map of a refused request is not described, because the request is then dropped.
- Handshake.UpgradeRequest: dialling the upstream, the checks of its response and the relay that follows.
- Handshake.AddTokens: the inner loop of subprotocol normalisation stands as a method of its own.
- Headers.HeaderMap: the order of different names in the map is not modelled.
- Uris.Composition: URIs arrive parsed; inbound targets without a rooted path, which are the asterisk form and the authority form of CONNECT, are in the model but not in the theorem.
- Uris.LegalCompositionFails: http's own character table and length limit are parameters, so the result does not depend on their values.
- ElBatch.ParseElBatch: error texts, and which of several errors is reported first while the JSON is read.
- ElResponses: `decimal_string` and the Beacon envelope, which would add only easier variants.
- Readiness.EvaluateReady: the detail texts of checks, the status codes of `/readyz` and `/eth/v1/node/health`, and the `/healthz` snapshot.
- Transport.Poller: the requests, timeouts and bodies of the calls are one answer per client; formatting errors as text.
- MockSyncing: serde's generic visitors are replaced by a concrete byte-level reader.
- Sockets, TLS, hyper, tokio and tungstenite internals, keepalive, frame decoding, ALPN.
- `is_upgrade_request`, `WsMode::classify`, `classify_request`, mock Beacon endpoints and MEV relay routing: settled by reading one branch.
- Configuration, metrics, telemetry, log texts, label tables, packaging.
