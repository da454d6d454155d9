# Verification of the sing-box core vendored in dbox

This project models the parts of `upstream/` whose correctness rests on reasoning across
several functions or over whole runs, and proves what they promise.

- **Registries and dependency-ordered start** (`DependencyStart`, `OutboundManager`, `OutboundRuns`): the rounds that start outbounds and DNS
  transports after their dependencies, the walk that explains a stuck start, and the list, tag map and
  reverse-dependency index of the outbound manager.
- **Geosite database** (`Bytes`, `Geosite`, `GeositeRule`): writer, buffered seeking reader, rule compilation.
- **Daemon** (`DaemonService`, `ConnectionEvents`): start, reload and close under any interleaving of any
  number of callers, and the delta-encoded stream of connection events.
- **Kernel TLS** (`KtlsMessages`, `KtlsRead`, `KtlsInterlock`): the two post-handshake messages, record handling and
  handshake reassembly, and the interlock between `Write` and `Close`.
- **Parallel dialing** (`DialRace`): racers, fallback timer and the unbuffered result channel.
- **Routing and DNS** (`RouteMatch`, `DnsRules`, `DnsCache`, `SingleFlight`): rule evaluation and its pre-match form, the DNS
  rule retry loops, the answer cache with its TTL arithmetic, and the one-exchange-per-question lock.
- **Parsers and codecs** (`Ja3`, `BadVersion`, `SavedBinary`).

Code that updates objects in place is modelled by classes and methods with loops, each proved against a
specification function; concurrent code is a state machine whose steps are lock-held segments, atomic operations
and channel rendezvous, with any number of threads. Calls into components outside these files (rule
matchers, sniffers, resolvers, DNS transports, the registry's constructors, a starter's own start) are parameters:
functions, or the result they return. `Wrappers`, `Sequences` and `Integers` hold what several modules share.

Where the code does less than its names or comments suggest, the code is kept as it is and the exact condition is proved:

- A start that is stuck behind an endpoint is explained as a missing dependency, because the walk looks up
  outbounds only: the dependency named is a listed tag exactly when it is an endpoint's (`MissingOrEndpoint`,
  `EndpointReportedMissing`). Where the map covers the whole list the explanation is always right.
- A start whose list repeats a tag ends in a nil dereference exactly when every tag can be started and no start fails
  (`StartAll`). A configuration gets there with an endpoint under the tag of the fallback outbound, which the
  configuration's own check for duplicates does not know (`StartBesideFallback`).
- The reverse index stays exact after a registration exactly when no dependency is listed twice and no outbound that
  has dependencies is replaced (`Manager.Create`); after a removal exactly when the outbound had no dependencies, or
  nobody depended on it and it left no other dependent alone with a dependency it listed twice (`Manager.Remove`,
  `EdgeLost`; `RepeatedDependencyLosesEdge` is an input). Over whole runs it is exact all along exactly when every step
  was one of those (`ExactWhileHarmless`), and exact at the end exactly when no replaced or refused outbound left an edge
  behind, which holds of all runs exactly when no step repeats a dependency or brings a fallback that has any
  (`TrackedExactlyWhenPlain`).
- A starter overtaken by a reload marks the new instance STARTED (`WhoMarksStarted`, `StaleStarterMarksStarted`), and FATAL is final exactly while no
  caller is in the closing window.
- `Bypass` rules carry route options that evaluation never applies: whatever they are, it comes out the same
  (`BypassOptionsAreIgnored`), and which matched rules leave the metadata alone is settled by `WhichRulesKeepMetadata`.
- A DNS answer whose lifetime has any of bits 16 to 23 set is brought down by a stray EDNS version, in the cached
  message too, and then no longer agrees with the clock (`LoadAgreesWithClock`, `LongAnswerGrows`).
- An SOA record that forbids caching (TTL or minimum zero) does not prevent it (`NegativeAnswers`).
- A DNS reject rule of method reply makes the exchange go on without a transport: the run calls a nil transport exactly
  when such a rule is the first to decide behind the last rejected attempt and a shared cache does not have the answer
  (`NilTransportExactly`), and a configuration can get there exactly when it has such a rule (`ReplyRulesCallNilTransport`).
- What a route-options rule set is forgotten when a later rule's response is rejected: every attempt has exactly the
  settings found since the one before (`EveryAttemptIsTrue`, `RejectionForgetsSettings`).
- The lock that lets one exchange per question go out does not tell transports apart, while caches of their own do: each
  cached key is asked for once exactly when the cache is shared or no question goes to two transports
  (`EveryKeyIsAskedOnce`); otherwise two waiters of one key both ask (`TwoWaitersAskTwice`).
- Two lists of the ClientHello parser are read without a length check and can panic (`PanicsExactly`, `PanicExample`).
- Distinct versions can each be less than the other (`LessBothWays`).
- A session ticket message can be longer than the reader accepts (`WrittenMessageComesFirst`).

`dafny verify dfyconfig.toml` checks the whole project.

## Model

| member | source | states |
|---|---|---|
| DependencyStart.StartAll | upstream/adapter/outbound/manager.go:99-171 | the calls made are the scheduled ones up to the first failure, without repetition and each after its dependencies; the start completes exactly when tags are distinct, an order exists and no start fails; it runs into a nil node exactly when a tag repeats although every tag can be started and no start fails; otherwise nothing startable is left and the error is a true witness |
| DependencyStart.Round | upstream/adapter/outbound/manager.go:104-143 | one pass over the list calls what the pass specification starts, up to the first failure |
| DependencyStart.RunRounds | upstream/adapter/outbound/manager.go:102-149 | round after round, the calls made are the schedule up to the first failure, and which of the endings it comes to |
| DependencyStart.ScheduleIsComplete | upstream/adapter/outbound/manager.go:102-149 | what the rounds would start is ordered, leaves nothing startable, has every tag exactly when an order for the tags exists, and every node exactly when tags are distinct too |
| DependencyStart.Explain | upstream/dns/transport_manager.go:121-143 | what is returned when a round starts nothing and the count is short: a true witness, or the nil dereference of repeated tags |
| DependencyStart.LintExplains | upstream/adapter/outbound/manager.go:152-168 | the walk ends, because each step adds a known tag to the path, and reports a chain of real edges among unstarted nodes closing a cycle or ending at a tag the map lacks |
| DependencyStart.ExplanationExcludesStart | upstream/dns/transport_manager.go:124-143 | when the map covers exactly the list, a reported cycle or missing dependency rules out every start order: no false alarm |
| DependencyStart.StuckMeansDoneOrImpossible | upstream/dns/transport_manager.go:92-123 | if the tags can be ordered at all, a round that starts nothing has nothing left to start |
| OutboundManager.Manager.Create | upstream/adapter/outbound/manager.go:267-317 | list and map keep holding the same outbounds with distinct tags, the list is the old one without the replaced outbound plus the new one, and the books make the registration step of the runs; an exact reverse index stays exact exactly when no dependency is listed twice and no outbound with dependencies was replaced |
| OutboundManager.Manager.Remove | upstream/adapter/outbound/manager.go:223-265 | which outbound goes, what becomes of the default, when it fails and with which dependents; an exact reverse index stays exact exactly when the outbound had no dependencies, or nobody depended on it and no dependency it lists twice is left with one other dependent |
| OutboundManager.Manager.Start | upstream/adapter/outbound/manager.go:53-97 | the list that is started, the default and every result as conditions on the inputs: which default is settled and when there is none, completion exactly when outbounds and endpoints together can be ordered and started, the nil dereference exactly on repeated tags, and of a dependency called missing that it is listed exactly when it is an endpoint's |
| OutboundManager.MissingOrEndpoint | upstream/adapter/outbound/manager.go:158-168 | the dependency an error calls not found is a listed tag exactly when it is an endpoint's, which cannot be when no listed node depends on an endpoint |
| OutboundManager.StartBesideFallback | upstream/box.go:319-327 | a configuration without outbounds, with an endpoint under the fallback's tag, ends its start in the nil dereference although every start succeeds |
| OutboundManager.Manager.SettleDefault | upstream/adapter/outbound/manager.go:61-80 | an existing default is kept, the configured endpoint is taken, or else the fallback is created, and that only for an empty list; which of the two errors is returned exactly when; a fallback with dependencies is the one way the reverse index becomes inexact |
| OutboundManager.Manager.RunStage | upstream/adapter/outbound/manager.go:85-94 | the other stages call every listed outbound in order, up to and including the first failure |
| OutboundManager.Manager.Close | upstream/adapter/outbound/manager.go:173-199 | closing clears the list but not the map, so the two agree afterwards exactly when there was nothing to close |
| OutboundManager.AddEdgesAt | upstream/adapter/outbound/manager.go:305-308 | registering adds the tag to the dependents of each dependency as often as it is listed |
| OutboundManager.DropEdgesAt | upstream/adapter/outbound/manager.go:250-259 | what removing an outbound leaves of the dependents of any tag, however often the outbound lists it |
| OutboundManager.EdgeLost | upstream/adapter/outbound/manager.go:250-259 | another dependent's edge is taken along exactly when that dependent is alone, or left alone with a dependency listed more than once |
| OutboundManager.CreatedEdges | upstream/adapter/outbound/manager.go:288-308 | an exact index stays exact after a registration exactly when dependencies are distinct and no outbound with dependencies was replaced |
| OutboundManager.RemovedEdges | upstream/adapter/outbound/manager.go:230-259 | dropping the edges of an unlisted outbound keeps the index exact exactly when no other dependent is left alone with a dependency listed twice; leaving them exactly when it had none |
| OutboundRuns.ExactWhileHarmless | upstream/adapter/outbound/manager.go:53-317 | in every run of registrations, removals and fallbacks the index is exact after each step exactly when each step was harmless by what the list says before it |
| OutboundRuns.IndexAfterRun | upstream/adapter/outbound/manager.go:223-317 | after any run without repeated dependencies, exact on the way or not, the index has the listed dependents and those whose edge outlived them, is exact exactly when there are none of the latter, and refuses a removal exactly for the two kinds |
| OutboundRuns.TrackedExactlyWhenPlain | upstream/adapter/outbound/manager.go:223-317 | that is so of all runs made of some steps exactly when none of them repeats a dependency or brings a fallback that has any |
| OutboundRuns.HarmlessExactly | upstream/adapter/outbound/manager.go:53-317 | a step from an exact index keeps it exact exactly when it is harmless |
| Bytes.UvarintRoundTrip | upstream/common/geosite/writer.go:66-73 | every 64-bit value survives an unsigned varint, whatever follows |
| Bytes.UvarintDigits | upstream/common/geosite/writer.go:66-73 | written are the value's seven-bit digits, least significant first, with the top bit on all but the last |
| Bytes.UvarintCutShort | upstream/common/geosite/reader.go:66-70 | a varint that is cut short is told apart from none at all, and from every value |
| Bytes.UvarintOverflows | upstream/common/geosite/reader.go:66-70 | ten bytes that say more than 64 bits hold are an overflow |
| Bytes.StringRoundTrip | upstream/common/geosite/reader.go:145-158 | every length-prefixed string survives, whatever follows |
| Bytes.StringCutShort | upstream/common/geosite/reader.go:145-158 | a string that is cut short anywhere is not read |
| Bytes.StringTooLong | upstream/common/geosite/reader.go:145-150 | a length that cannot be allocated is told apart |
| Bytes.ToIntWraps | upstream/common/geosite/reader.go:94-95 | offsets and counts are reinterpreted as signed modulo two to the 64 |
| Bytes.PutsAreBigEndian | upstream/common/ktls/ktls_handshake_messages.go:173-197 | fixed-width numbers are written in base 256, the most significant byte first |
| Geosite.Write | upstream/common/geosite/writer.go:10-64 | the output is the file of the one sorted listing of the codes, so it does not depend on map order |
| Geosite.WriteContent | upstream/common/geosite/writer.go:17-33 | the recorded index of every code is the offset of its block |
| Geosite.WriteIndex | upstream/common/geosite/writer.go:45-58 | the index written holds every code with its block's offset and number of items |
| Geosite.SortKeys | upstream/common/geosite/writer.go:11-15 | a sorted listing of exactly the codes |
| Geosite.SortedOnce | upstream/common/geosite/writer.go:11-15 | there is only one sorted listing of a set of codes |
| Geosite.OffsetIsStart | upstream/common/geosite/writer.go:19-20 | the offset stored for a code is where its block starts in the content |
| Geosite.IndexedAt | upstream/common/geosite/reader.go:76-100 | after the index is parsed every code maps to its own offset and count |
| Geosite.EntriesRoundTrip | upstream/common/geosite/reader.go:76-100 | the written index lines are read back, whatever follows |
| Geosite.IndexRoundTrip | upstream/common/geosite/reader.go:66-100 | the count and the index lines are read back, leaving exactly the content |
| Geosite.ItemsRoundTrip | upstream/common/geosite/reader.go:103-126 | a written block is read back item by item, whatever follows |
| Geosite.MetadataRoundTrip | upstream/common/geosite/reader.go:57-101 | parsing the head of a written file yields the key set and the true start of the block area |
| Geosite.CodeRoundTrip | upstream/common/geosite/reader.go:103-126 | start of the block area plus the stored offset is where a code's items are |
| Geosite.RoundTrip | upstream/common/geosite/reader.go:57-126 | for every map of codes to items a running writer can hold, what is written, opened and read gives each code exactly its items |
| Geosite.LayoutBytes | upstream/common/geosite/writer.go:10-64 | the bytes of a database of one code with one item |
| Geosite.ReadExactly | upstream/common/geosite/reader.go:103-126 | a code is unknown exactly when the index lacks it, what is read has the number of items indexed, and when the seek and the allocation fail |
| Geosite.RefusedHeads | upstream/common/geosite/reader.go:57-72 | another version is refused, and so is a number of codes that cannot be allocated |
| Geosite.CutFile | upstream/common/geosite/reader.go:103-126 | from a file that lost its end behind the index, a code reads its own items if its block is there and fails if not |
| Geosite.CutHead | upstream/common/geosite/reader.go:57-101 | a file that lost its end within the index cannot be opened |
| Geosite.BufferedReader.ReadUvarint | upstream/common/geosite/reader.go:66-70 | reading byte by byte through any read-ahead agrees with the varint grammar, including all three ways to fail |
| Geosite.BufferedReader.ReadVarintByte | upstream/common/geosite/reader.go:66-70 | one more byte ends a varint as the grammar says or leaves the rest of it to come |
| Geosite.BufferedReader.ReadString | upstream/common/geosite/reader.go:145-158 | a string is read as the grammar says, at any buffer state, and a length that cannot be allocated is told apart |
| Geosite.BufferedReader.Consumed | upstream/common/geosite/reader.go:132-143 | bytes handed out less bytes buffered is what was consumed |
| Geosite.Reader.ReadMetadata | upstream/common/geosite/reader.go:57-101 | succeeds or fails as the file's head says, with the index and block start it says |
| Geosite.Reader.Read | upstream/common/geosite/reader.go:103-126 | from any earlier state of the buffer, in any order and repeatedly, a code's items are those the file and its metadata determine; it is the unknown-code error exactly for a code outside the index, and otherwise as many items as indexed or an error |
| Geosite.OpenWritten | upstream/common/geosite/reader.go:36-55 | the file opened is the one written of the map; opening it succeeds, lists exactly the keys, and every code reads back, while any other code is unknown |
| GeositeRule.Compile | upstream/common/geosite/rule.go:19-62 | the four lists hold the values of their kind in order, and fill the counted capacity exactly |
| GeositeRule.Merge | upstream/common/geosite/rule.go:64-103 | the four lists are the parts' lists one after the other |
| GeositeRule.CompileOfConcatenation | upstream/common/geosite/rule.go:19-103 | compiling concatenated items equals merging the compiled parts, on all four lists |
| GeositeRule.ValuesAreTheItems | upstream/common/geosite/rule.go:46-60 | a value is in the list of its kind exactly when such an item was given |
| GeositeRule.OneItem | upstream/common/geosite/rule.go:46-60 | an item goes to the list of its kind's number, 0 to 3, and is dropped otherwise |
| DaemonService.EveryRunIsSafe | upstream/daemon/started_service.go:168-247 | every step of every caller keeps: one caller at most in the unlocked closing window, no instance closed twice or dropped unclosed, and STARTING or STARTED only with an installed instance the service has not closed |
| DaemonService.InitialIsSafe | upstream/daemon/started_service.go:168-247 | all that in every run from the initial state, under any interleaving of any number of callers |
| DaemonService.ReplacedOnlyByItsCloser | upstream/daemon/started_service.go:176-190 | an installed instance is only replaced or removed by the caller that closed it, once |
| DaemonService.WhoMarksStarted | upstream/daemon/started_service.go:196-208 | only a caller whose own start succeeded marks STARTED, and it started either the installed instance or one already closed |
| DaemonService.StaleStarterMarksStarted | upstream/daemon/started_service.go:198-206 | a run in which an overtaken starter marks STARTED while the installed instance is still starting |
| DaemonService.FatalIsFinalOutsideTheWindow | upstream/daemon/started_service.go:168-247 | FATAL can be left exactly while some caller is in the closing window |
| DaemonService.FatalRun | upstream/daemon/started_service.go:120-126 | otherwise nothing any caller does changes status, instance or closes |
| DaemonService.UndisturbedReload | upstream/daemon/started_service.go:168-213 | a reload nobody interrupts closes the installed instance once, installs a new one and ends STARTED, or FATAL when making or starting it fails; without a new one the closed one stays installed |
| DaemonService.ReloadStops | upstream/daemon/started_service.go:176-181 | while a reload closes the installed instance without the lock, the status is STOPPING |
| DaemonService.RefusedReload | upstream/daemon/started_service.go:168-175 | while STOPPING or FATAL a reload changes nothing |
| DaemonService.Closes | upstream/daemon/started_service.go:223-247 | closing takes a running service to IDLE without an instance or to FATAL with it, closing the instance once, and any other nowhere |
| DaemonService.ErrorsAreFatal | upstream/daemon/started_service.go:243-247 | a reported error makes the status FATAL and touches nothing else |
| DaemonService.LateReport | upstream/daemon/started_service.go:196-202 | a starter that was overtaken changes nothing |
| DaemonService.OnlyInTurn | upstream/daemon/started_service.go:168-247 | a segment moves its own caller only, and only from where it stands |
| DaemonService.ReloadThenClose | upstream/daemon/started_service.go:168-247 | started and closed, an idle service is idle again, with the one instance made in between closed once |
| ConnectionEvents.Subscription.BuildInitial | upstream/daemon/started_service.go:776-802 | every active connection is announced and tracked with its counters, every closed one announced only; everything else sent or remembered is determined by these steps |
| ConnectionEvents.Subscription.ApplyEvent | upstream/daemon/started_service.go:804-842 | an opening is announced once, a closing always, with the best closing time known; snapshots and everything sent are those of this one step more |
| ConnectionEvents.Subscription.BuildTrafficUpdates | upstream/daemon/started_service.go:844-940 | a tick is the readings of the listed connections in order and then an ending for each vanished one, and nothing else: snapshots, traffic flags, baselines and messages are those of these steps; afterwards exactly the active connections are tracked, at the counters just read; each farewell carries the right closing time |
| ConnectionEvents.Subscription.Sweep | upstream/daemon/started_service.go:907-937 | vanished connections are forgotten and reported closed exactly once, in whatever order the map yields them |
| ConnectionEvents.ClosingTimeIsRight | upstream/daemon/started_service.go:911-926 | a vanished connection's closing time is the one its last entry remembers, and the present without an entry or a time in it |
| ConnectionEvents.Subscription.VisitOne | upstream/daemon/started_service.go:849-904 | the five cases of one connection at a tick |
| ConnectionEvents.VisitKeeps | upstream/daemon/started_service.go:849-904 | whatever the counters did, what is sent keeps the rules of the stream and the snapshot keeps agreeing with what was sent |
| ConnectionEvents.RebasedExactlyWhenBelow | upstream/daemon/started_service.go:874-889 | a baseline is moved exactly when a counter is read below the one remembered, and then to that reading |
| ConnectionEvents.TakeKeeps | upstream/daemon/started_service.go:776-940 | any step keeps the rules of the stream and the agreement of snapshots and journal |
| ConnectionEvents.EveryRunIsLawful | upstream/daemon/started_service.go:776-940 | so do all runs of events and ticks: deltas go to open connections only, are never negative, and are zero only to say that traffic stopped |
| ConnectionEvents.Conservation | upstream/daemon/started_service.go:776-940 | for every run and connection: a snapshot is kept exactly while the connection is watched and holds the last reading, and the client's total is that reading plus exactly what was lost when readings went back |
| ConnectionEvents.BaseIsRead | upstream/daemon/started_service.go:776-904 | the journal's baseline is the first reading of the connection or the last one below its predecessor |
| ConnectionEvents.ReadAllAt | upstream/daemon/started_service.go:849-904 | after the first half of a tick a listed connection is at a listed reading, an unlisted one is not touched |
| ConnectionEvents.EntryKeeps | upstream/daemon/started_service.go:776-940 | one more event with its matching snapshot keeps everything in step |
| ConnectionEvents.ZeroUpdatesAreSeparated | upstream/daemon/started_service.go:865-903 | in every run, two zero deltas for a connection within one lifetime have a non-zero one between them |
| ConnectionEvents.UpdatesFollowNew | upstream/daemon/started_service.go:864-904 | in every run, a delta is sent only for a connection whose last opening or closing event is an opening |
| ConnectionEvents.DeltasAddUp | upstream/daemon/started_service.go:776-904 | in every run, the deltas sent since a connection's baseline, its first reading or the last one below its predecessor, sum to its last reading minus that baseline |
| ConnectionEvents.ClientTotalIsExact | upstream/daemon/started_service.go:862-893 | in every run in which no reading of a connection is below an earlier one, the total a client shows for it is its last reading |
| KtlsMessages.RoundTrip | upstream/common/ktls/ktls_handshake_messages.go:74-105 | a message can be marshalled exactly when its length prefixes can hold it, and then unmarshals to itself |
| KtlsMessages.TicketBodyRoundTrip | upstream/common/ktls/ktls_handshake_messages.go:173-238 | a session ticket's fields survive, the early-data limit in its extension included |
| KtlsMessages.ParsedIsWritable | upstream/common/ktls/ktls_handshake_messages.go:199-238 | whatever is parsed can be written again |
| KtlsMessages.MarshalFrame | upstream/common/ktls/ktls_handshake_messages.go:173-197 | the frame's type and length describe the message, whatever follows it |
| KtlsMessages.KeyUpdateBytes | upstream/common/ktls/ktls_handshake_messages.go:74-88 | the five bytes of a key update (section 4.6.3 of RFC 8446) |
| KtlsMessages.TicketBytes | upstream/common/ktls/ktls_handshake_messages.go:173-197 | the layout of a session ticket message, every number with its most significant byte first (section 4.6.1 of RFC 8446) |
| KtlsMessages.KeyUpdatesRead | upstream/common/ktls/ktls_handshake_messages.go:90-105 | a key update is read exactly from five bytes of which the last is 0 or 1 |
| KtlsMessages.FirstExtension | upstream/common/ktls/ktls_handshake_messages.go:212-235 | an extension of another number than 42 is passed over, one of that number has to be a limit, and counts |
| KtlsMessages.ReadExtensions | upstream/common/ktls/ktls_handshake_messages.go:212-235 | unknown extensions are skipped, the early-data limit is the last one given, malformed ones are refused |
| KtlsRead.FragmentationIsInvisible | upstream/common/ktls/ktls_read.go:31-40 | for any byte stream, valid or not, any cut into non-empty records of legal size has the same outcome as the bytes in one piece |
| KtlsRead.SameBytesSameOutcome | upstream/common/ktls/ktls_key_update.go:103-142 | two cuts of the same bytes cannot be told apart |
| KtlsRead.MessagesAreDispatched | upstream/common/ktls/ktls_key_update.go:19-47 | a stream of acceptable messages is dispatched whole and in order, and reading goes on behind it |
| KtlsRead.ReassemblyIsFaithful | upstream/common/ktls/ktls_read.go:17-59 | however the messages are cut, exactly they are dispatched before the data that follows is returned, and the records behind it are what is left |
| KtlsRead.CutIsInvisible | upstream/common/ktls/ktls_read.go:17-166 | over a whole stream of messages, data and other records, however handshake bytes and data are cut into records, the bytes and messages that come and the failure at the end are the same, in the same order |
| KtlsRead.ReadersCannotTellCuts | upstream/common/ktls/ktls_read.go:17-59 | two connections given the same stream in different cuts and read with any sizes get beginnings of one story, and with enough reads all of it |
| KtlsRead.ReadsTellTheStory | upstream/common/ktls/ktls_read.go:17-59 | any sequence of reads brings a beginning of what is to come and leaves the rest |
| KtlsRead.EnoughReadsTellAll | upstream/common/ktls/ktls_read.go:17-59 | more reads than there are bytes bring everything and end in the stream's failure |
| KtlsRead.ReadTells | upstream/common/ktls/ktls_read.go:17-59 | one read brings the next messages and some of the next data, and fails exactly at the end |
| KtlsRead.WholeOfData | upstream/common/ktls/ktls_read.go:31-42 | data cut into records brings its bytes behind the messages already buffered, or an error if one of them is partial |
| KtlsRead.WrittenMessageComesFirst | upstream/common/ktls/ktls_key_update.go:115-142 | a written message is accepted exactly when its body is within the handshake limit |
| KtlsRead.PartialMessageIsNotInterrupted | upstream/common/ktls/ktls_read.go:93-97 | any other record type while a message is partial is an unexpected-message error (section 5.1 of RFC 8446) |
| KtlsRead.FirstRecord | upstream/common/ktls/ktls_read.go:61-166 | what a first record does under TLS 1.3, by its kind number, length and bytes: close_notify ends the stream, user_canceled and change_cipher_spec are passed over, every other alert is the peer's error, and what is answered with which alert |
| KtlsRead.FirstRecordBehindPart | upstream/common/ktls/ktls_read.go:61-97 | behind part of a message only handshake bytes are accepted |
| KtlsRead.FirstRecordBefore13 | upstream/common/ktls/ktls_read.go:99-166 | the same before TLS 1.3, where warnings are passed over, errors are the peer's, and change_cipher_spec is never expected |
| KtlsRead.FirstMessage | upstream/common/ktls/ktls_key_update.go:103-170 | what the front of the reassembly buffer says, by its bytes: waited for, too long, of an unknown type, malformed, or a message with the rest left |
| KtlsRead.OrderlyClose | upstream/common/ktls/ktls_read.go:99-102 | after a close_notify every read reports the end of the stream |
| KtlsRead.Conn.ReadRecord | upstream/common/ktls/ktls_read.go:61-166 | one record is classified, appended or handed on, dropped ones are skipped, and failures stick |
| KtlsRead.Conn.ReadHandshakeBytes | upstream/common/ktls/ktls_key_update.go:103-113 | reading on until enough is buffered does not change the outcome of the stream |
| KtlsRead.Conn.ReadHandshake | upstream/common/ktls/ktls_key_update.go:115-142 | yields the stream's next message or its failure, and leaves the rest of the stream |
| KtlsRead.Conn.HandlePostHandshakeMessage | upstream/common/ktls/ktls_key_update.go:19-47 | dispatches the stream's next message, or refuses before TLS 1.3 |
| KtlsRead.Conn.FillInput | upstream/common/ktls/ktls_read.go:31-40 | the loop that fills the input does what the pending records determine |
| KtlsRead.Conn.Read | upstream/common/ktls/ktls_read.go:17-59 | under TLS 1.3 result, messages, records left, buffered data and sticky failure are those of the reader on values, read after read; before TLS 1.3 the one next record decides, and a handshake byte is an error that stays |
| KtlsInterlock.WordIsExact | upstream/common/ktls/ktls_write.go:21-32 | in every run the word is twice the writes in progress plus the closed bit, and one close_notify at most is sent |
| KtlsInterlock.NoticeOnlyWhenQuiet | upstream/common/ktls/ktls_close.go:31-47 | close_notify goes out only with no write in progress, and a finished Close sent it unless one was in flight or no handshake completed |
| KtlsInterlock.ClosedStaysClosed | upstream/common/ktls/ktls_close.go:20-30 | once the closed bit is set it stays, and no write begins |
| KtlsInterlock.SwapExactly | upstream/common/ktls/ktls_write.go:21-30 | a compare-and-swap goes through exactly when the word is as loaded; a write is then in progress or a close has won, and else nothing changed |
| KtlsInterlock.WriteBegins | upstream/common/ktls/ktls_write.go:21-30 | while nobody has closed, an undisturbed write begins |
| KtlsInterlock.WriteEnds | upstream/common/ktls/ktls_write.go:31-32 | a write that ends takes exactly itself out, closed or not |
| KtlsInterlock.CloseAlone | upstream/common/ktls/ktls_close.go:20-47 | an undisturbed close wins and finishes, and sends its notice exactly when no write is in progress and the handshake was completed |
| KtlsInterlock.RefusedOnceClosed | upstream/common/ktls/ktls_close.go:20-27 | once closed, writes and closes are refused |
| DialRace.RaceIsCorrect | upstream/common/dialer/default_parallel_interface.go:25-88 | in every race fallbacks are launched at most once by the timer, errors are returned only when every racer's dial failed and a connection only when its racer's dial succeeded; once nothing can happen the race has returned, with errors exactly when every dial failed, and every other connection was closed |
| DialRace.DialsDecide | upstream/common/dialer/default_parallel_interface.go:38-88 | on the actions of any race: a racer has or had a connection exactly when its dial succeeded and an error exactly when it failed, was handed over or closed exactly when it delivered or gave up, and a fallback waits for the timer |
| DialRace.EveryRaceEnds | upstream/common/dialer/default_parallel_network.go:85-129 | every schedule keeps the invariant and is finite |
| DialRace.OverMeansReturned | upstream/common/dialer/default_parallel_interface.go:99-151 | the race is never stuck and leaks no connection |
| DialRace.StepKeepsInv | upstream/common/dialer/default_parallel_network.go:98-129 | every step keeps: idle racers are exactly the fallbacks not yet launched, only the winner delivered a connection, and errors are counted |
| RouteMatch.MatchRule | upstream/route/route.go:405-625 | the loop that updates metadata and buffers computes the fold over prelude, legacy options and rules |
| RouteMatch.PreludeCompletes | upstream/route/route.go:412-470 | destination with its port, origin destination, fake-IP flag, domain, version and process after the prelude, by conditions on what was given, and that it fails exactly at a fake address without a record |
| RouteMatch.BareMatch | upstream/route/route.go:441-456 | the same of a whole match without legacy options and rules |
| RouteMatch.LegacyApplies | upstream/route/route.go:472-496 | what the legacy inbound options leave in the metadata, when they fail, and that they are used up |
| RouteMatch.OverrideReplaces | upstream/route/route.go:534-553 | host and port are overridden apart, a new host forgets the addresses, and only the first overridden destination is remembered |
| RouteMatch.MatchedRule | upstream/route/route.go:580-622 | which matched rules are final, which fail, and what sniffing and resolving leave |
| RouteMatch.EvaluationEnds | upstream/route/route.go:498-625 | the rules are gone through in order, each on what the one before left, up to the first that matches and does not go on, or past them all |
| RouteMatch.RulesComeLast | upstream/route/route.go:405-625 | prelude and legacy options do the same whatever the rules are, and the rules go on from there |
| RouteMatch.ApplyRule | upstream/route/route.go:524-622 | one matched rule, step by step, goes on, selects itself or fails as the fold says |
| RouteMatch.ApplyOptions | upstream/route/route.go:530-579 | setting the options one after the other is the override followed by the fold |
| RouteMatch.PreMatchRefinesMatch | upstream/route/route.go:472-625 | without legacy sniffing and ICMP, pre-match agrees with the full match on rule, error, metadata and stream exactly when it did not end on a sniff rule or an empty bypass; it reads nothing, and otherwise the full match selects a later rule |
| RouteMatch.RulesAgree | upstream/route/route.go:497-625 | the same from any rule on; behind a sniff rule the full match resumes from the metadata pre-match ended with |
| RouteMatch.SelectedLater | upstream/route/route.go:497-625 | the selected rule is one still to come, and pre-match leaves the stream as it was |
| RouteMatch.NoBypassWithoutFlag | upstream/route/route.go:614-622 | without bypass support an empty bypass rule is never selected |
| RouteMatch.LastMatchedRuleDecides | upstream/route/route.go:529-579 | every option ends as the last matched route or route-options rule that sets it says, flags accumulate, and no other rule has a say |
| RouteMatch.EvaluateFolds | upstream/route/route.go:529-579 | the final options are the initial ones folded with the matched rules' in order |
| RouteMatch.WhichRulesKeepMetadata | upstream/route/route.go:524-622 | a matched rule leaves every metadata as it was exactly when it sets no option and no override, sniffs nothing and resolves nothing, as a bypass rule |
| RouteMatch.BypassOptionsAreIgnored | upstream/route/route.go:524-535 | rules that differ only in what bypass rules are configured with evaluate the same, from any rule and in either mode |
| DnsRules.MatchDNS | upstream/dns/router.go:120-199 | the loop from behind the given rule picks what the pass specification picks |
| DnsRules.PickIsFirst | upstream/dns/router.go:120-199 | the pass picks the first rule that decides, the default transport when none does, and the options are the given ones folded with exactly the route-options rules on the way |
| DnsRules.WhichRulesDecide | upstream/dns/router.go:120-199 | a rule decides exactly when it matches, is asked at all, and answers by itself or routes to a server that is there and usable |
| DnsRules.LastSettingDecides | upstream/dns/router.go:150-190 | of several settings the last that says something decides, and caching stays off |
| DnsRules.RoutedDecides | upstream/dns/router.go:130-165 | a route's own settings go before those on the way, and these before a legacy server's; fake addresses are not cached |
| DnsRules.RetryLoop | upstream/dns/router.go:244-304 | the retry loop ends, because the rule index only goes up, and makes the attempts the specification says |
| DnsRules.EveryAttemptIsTrue | upstream/dns/router.go:365-412 | each attempt is made by the first deciding rule behind the last one, on its transport and the caller's own options with exactly the settings found on that way; all but the last were by an address-limited rule and rejected; and a run not ended by an attempt is ended by a rule that answers by itself, or calls a nil transport |
| DnsRules.WhatAttemptsSee | upstream/dns/router.go:275-300 | each attempt sees the query as given but for the addresses checked last |
| DnsRules.WhichRepliesRetry | upstream/dns/router.go:285-304 | an exchange goes back to the rules on a rejection, a lookup on any error |
| DnsRules.EndsExactly | upstream/dns/router.go:254-284 | a run ends refused, dropped, rejected, predefined, cached or in a nil transport exactly when every attempt was rejected and the first decider behind the last says so |
| DnsRules.NilTransportExactly | upstream/dns/router.go:254-284 | a run calls a nil transport at a rule exactly when every attempt was rejected, the rule is the first to decide behind the last of them and a reject rule of method reply, the query is an exchange, and the cache does not have the answer |
| DnsRules.ReplyRulesCallNilTransport | upstream/dns/router.go:254-284 | some query can make a configuration call a nil transport exactly when it has a reject rule of method reply |
| DnsRules.FirstDeciderIsUnique | upstream/dns/router.go:120-199 | the description of a pass allows a single pick |
| DnsRules.AttemptsAreInOrder | upstream/dns/router.go:244-304 | each rule makes at most one attempt and in order |
| DnsRules.DefaultComesLast | upstream/dns/router.go:198-304 | the default transport is asked once, last, and only after every rule was passed over or rejected |
| DnsRules.AttemptsAreBounded | upstream/dns/router.go:244-304 | no more attempts than rules, and one |
| DnsRules.RejectionForgetsSettings | upstream/dns/router.go:251-253 | a run in which a setting made for the first attempt is gone for the second |
| DnsCache.TimeToLive | upstream/dns/client.go:275-292 | the three loops and the rewrite compute the lifetime |
| DnsCache.ExtractNegativeTtl | upstream/dns/client.go:98-110 | finds the first SOA record's lesser of TTL and minimum, if there is one |
| DnsCache.LeastTtl | upstream/dns/client.go:281-289 | the least positive TTL of all records, zero exactly when all are zero |
| DnsCache.LeastTtlIsUnique | upstream/dns/client.go:281-289 | that description determines the value |
| DnsCache.NegativeAnswers | upstream/dns/client.go:275-289 | an answer without records is kept as section 5 of RFC 2308 says exactly when the SOA allows a positive time or no record has one |
| DnsCache.Lifetimes | upstream/dns/client.go:275-292 | a rewritten TTL is taken as it is, and otherwise an answer with records or without an SOA is kept for the least positive TTL |
| DnsCache.LoadAgreesWithClock | upstream/dns/client.go:293-311 | a loaded answer carries the remaining seconds in every record exactly when the stored message is not one whose OPT record was issued anew beside other records |
| DnsCache.NoUnderflow | upstream/dns/client.go:477-503 | while it agrees with the clock nothing is subtracted below zero and no TTL exceeds the lifetime |
| DnsCache.AgedUniformly | upstream/dns/client.go:477-503 | for any stored message, aging is uniform exactly when its TTLs were all the same |
| DnsCache.AgedInPlace | upstream/dns/client.go:477-503 | aging leaves every record in its section and place, and takes from each what the least TTL has lost |
| DnsCache.KeptInPlace | upstream/dns/client.go:293-311 | what is kept has the answer and authority records in place, and of the additional ones all, or all but the OPT records and a fresh one with the response's UDP size and DO bit |
| DnsCache.EdnsIsLast | upstream/dns/client.go:301-304 | the OPT record is the last one of the additional section |
| DnsCache.PlainRecords | upstream/dns/client.go:301-311 | exactly the OPT records are left out, and the order of the others kept |
| DnsCache.KeptAtoms | upstream/dns/client.go:293-311 | what lies behind the cached reference after the downgrade: the stamped TTL everywhere, but for a reissued OPT record |
| DnsCache.ReissuedForSimple | upstream/dns/client.go:132-138 | for requests the cache serves, the condition is that both sides use EDNS and the lifetime has one of bits 16 to 23 set |
| DnsCache.SimpleRequests | upstream/dns/client.go:132-138 | the cache is asked about requests of one question alone, or with an OPT record that has nothing in it |
| DnsCache.LongAnswerGrows | upstream/dns/client.go:301-311 | an answer kept for 100000 seconds is loaded at once with a TTL of 167232 |
| DnsCache.Client.Load | upstream/dns/client.go:437-508 | a load serves exactly the fresh entries, with a copy aged by the clock that agrees with it exactly when no OPT record was issued anew, and removes what has expired; no cached message is written to; every record stays in its section and place |
| DnsCache.Client.Finish | upstream/dns/client.go:275-313 | the response is stamped, stored by reference for its lifetime when cacheable, and brought down to the requester's EDNS version; the books of the cache stay true |
| DnsCache.Client.StoreCache | upstream/dns/client.go:372-395 | stored for exactly the lifetime, or not at all when that is zero |
| DnsCache.Client.Exchange | upstream/dns/client.go:132-313 | an exchange is answered from the cache exactly for simple requests, caching on, and a fresh entry; what it then returns, and otherwise the response and the whole cache afterwards; records stay in their sections and places, and the response is stored exactly when such a request allows it, the code is success or name error and the lifetime positive |
| DnsCache.AskTwice | upstream/dns/client.go:143-313 | once an answer that may be kept was stored, the same question is served from the cache until it expires, and the transport's response is not touched |
| SingleFlight.EveryRunIsSafe | upstream/dns/client.go:143-178 | for any number of threads: one leader per question, no channel closed twice, every finished leader's channel closed once, nobody goes on early, and every waiter's channel is closed or its leader on the way |
| SingleFlight.WaiterIsServed | upstream/dns/client.go:146-155 | a waiting thread can go on, or the leader it waits for can |
| SingleFlight.NoLostWakeUp | upstream/dns/client.go:143-178 | when only arrivals and expiring contexts are left to happen, nobody waits and the map is empty |
| SingleFlight.RunsEnd | upstream/dns/client.go:143-178 | without new arrivals every run becomes quiet |
| SingleFlight.EveryKeyIsAskedOnce | upstream/dns/client.go:143-184 | while answers may be kept and none expires, whatever is cached under one key is asked for once at most in every run, exactly when the cache is shared or no question goes to two transports |
| SingleFlight.TwoWaitersAskTwice | upstream/dns/client.go:158-184 | with independent caches, a run in which both waiters behind a leader on another transport ask their own transport, although every answer is kept |
| Ja3.ClientHello.ParseSegment | upstream/common/ja3/parser.go:53-82 | verdict and fields are those of the record grammar; after an error the fields read before it stay |
| Ja3.ClientHello.ParseHandshake | upstream/common/ja3/parser.go:85-152 | the same for the handshake message |
| Ja3.ClientHello.ParseExtensions | upstream/common/ja3/parser.go:155-288 | the extension fields are only assigned when every extension was fine |
| Ja3.WalkExtensions | upstream/common/ja3/parser.go:181-281 | for every block a record can hold the sixteen-bit sum does not wrap, every turn shortens what is left, and the outcome is the grammar's |
| Ja3.ReadUnchecked | upstream/common/ja3/parser.go:260-274 | the unchecked lists panic exactly when their length rounded up to even exceeds what is there |
| Ja3.FirstBadDecides | upstream/common/ja3/parser.go:181-281 | the first extension that is not fine settles the outcome, and it is a panic exactly when that extension holds a list cut short |
| Ja3.WhatIsBad | upstream/common/ja3/parser.go:200-275 | exactly which bodies of which extensions are wrong, and with which error |
| Ja3.RecordChecks | upstream/common/ja3/parser.go:53-82 | the checks of the record, in order |
| Ja3.MessageChecks | upstream/common/ja3/parser.go:85-120 | those of the handshake message |
| Ja3.BlockChecks | upstream/common/ja3/parser.go:120-180 | those of cipher suites, compression methods and the extension block |
| Ja3.SupportedNumbers | upstream/common/ja3/parser.go:60-66 | the versions accepted are those of SSL 3.0 to TLS 1.3 |
| Ja3.NoBadNoPanic | upstream/common/ja3/parser.go:181-281 | when every delimited extension is fine there is no panic |
| Ja3.WalkPanicsExactly | upstream/common/ja3/parser.go:181-281 | the extension loop panics exactly when the first extension that is not fine holds a list cut short |
| Ja3.PanicsExactly | upstream/common/ja3/parser.go:53-281 | parsing a record panics exactly when the checks before it lead to an extension block as long as it says whose first extension that is not fine holds a list cut short |
| Ja3.PanicExample | upstream/common/ja3/parser.go:260-268 | a record on which parsing panics |
| Ja3.ExtensionRoundTrip | upstream/common/ja3/parser.go:200-275 | every well-formed extension is accepted and contributes exactly its contents |
| Ja3.ExtensionBytes | upstream/common/ja3/parser.go:200-275 | the numbers and layouts of the extensions the parser looks into |
| Ja3.WalkRoundTrip | upstream/common/ja3/parser.go:181-281 | any list of well-formed extensions is read back, repetitions included |
| Ja3.EachIsRecovered | upstream/common/ja3/parser.go:276-288 | with no extension twice, every name, group list, format list, version list and algorithm list is recovered as it stands, and the extension list is complete and in order |
| Ja3.BlockReached | upstream/common/ja3/parser.go:53-152 | of a well-formed record, whatever follows it, version and cipher suites are recovered and exactly its extension block is parsed |
| Ja3.HelloRoundTrip | upstream/common/ja3/parser.go:53-288 | parsing the encoding of a well-formed ClientHello recovers all it says (section 4.1.2 of RFC 8446) |
| Ja3.BlockLengthIsOnlyABound | upstream/common/ja3/parser.go:166-173 | the extension block's length is a lower bound only |
| BadVersion.ParseVersion | upstream/common/badversion/version.go:114-152 | filling the record step by step computes the parse |
| BadVersion.StringRoundTrip | upstream/common/badversion/version.go:88-94 | printing and parsing gives a version back exactly when it has no commit, no negative number, an identifier without separators, and no pre-release number without one |
| BadVersion.BadStringRoundTrip | upstream/common/badversion/version.go:96-108 | the short form is read back exactly when moreover the identifier is none, alpha or beta |
| BadVersion.AtoiOfShow | upstream/common/badversion/version.go:141-149 | every non-negative number survives its decimal form |
| BadVersion.AtoiOfSigned | upstream/common/badversion/version.go:141-149 | signed numbers are read, and those out of range become the nearest bound |
| BadVersion.AtoiOfOther | upstream/common/badversion/version.go:141-149 | what is no number counts as zero |
| BadVersion.ParsesWithoutV | upstream/common/badversion/version.go:114-117 | a "v" before the number makes no difference |
| BadVersion.ParsesCommit | upstream/common/badversion/version.go:118-139 | text behind the dash that has no dot and does not begin like a pre-release is a commit |
| BadVersion.SplitAt | upstream/common/badversion/version.go:118-121 | splitting takes off exactly the text before the first separator |
| BadVersion.GreaterThanIsAnOrder | upstream/common/badversion/version.go:33-71 | irreflexive and transitive on all versions |
| BadVersion.WhichIsGreater | upstream/common/badversion/version.go:33-71 | the first number that differs decides, then a release before a pre-release, then the later of one name, then the name's rank |
| BadVersion.Ranks | upstream/common/badversion/version.go:73-83 | the rank of a name by its beginning |
| BadVersion.ReleasesInOrder | upstream/common/badversion/version.go:33-83 | a release is greater than its candidates, these than its betas, these than its alphas |
| BadVersion.TotalUnlessTied | upstream/common/badversion/version.go:33-83 | two versions are incomparable exactly when tied, and among regular ones only a version with itself |
| BadVersion.LessBothWays | upstream/common/badversion/version.go:21-31 | the derived comparisons agree with the order on regular versions, and exactly tied distinct versions are each less than the other |
| SavedBinary.RoundTrip | upstream/adapter/experimental.go:66-128 | content and tag survive, the time cut to whole seconds, whatever the object held before and whatever follows |
| SavedBinary.LayoutBytes | upstream/adapter/experimental.go:66-93 | the bytes of an example |
| SavedBinary.SecondsBytes | upstream/adapter/experimental.go:80-84 | seconds take eight bytes, the most significant first, in two's complement |
| SavedBinary.CutShort | upstream/adapter/experimental.go:95-128 | a form cut short anywhere fails to be read, and exactly the fields that were there are replaced by then |
| SavedBinary.ReadingIsIdempotent | upstream/adapter/experimental.go:95-128 | what was read, written and read again is the same |
| SavedBinary.VersionIsIgnored | upstream/adapter/experimental.go:97-101 | any version byte is accepted |
| SavedBinary.Binary.MarshalBinary | upstream/adapter/experimental.go:66-93 | writes the fields in the layout the round trip is about |
| SavedBinary.Binary.UnmarshalBinary | upstream/adapter/experimental.go:95-128 | reads them back, tells a length that cannot be allocated apart, and after an error keeps the fields read before it |

## Left out

- OutboundManager.Manager.Create: a registry building an outbound whose own tag differs from the requested one is not modelled.
- OutboundManager.Manager.Remove: the panic on an outbound missing from the list is excluded by the invariant, which Close breaks; calls after Close are not modelled.
- DependencyStart.Explain: the text of the error; only the path and the tags in it.
- DaemonService.EveryRunIsSafe: the calls of other gRPC methods, log lines and waiting for a status are not among the steps.
- ConnectionEvents.Subscription.BuildTrafficUpdates: counters are read once per event, and the connection details sent beside the totals are left out.
- ConnectionEvents.Subscription.BuildInitial: batching of messages and cancellation in SubscribeConnections.
- KtlsRead.Conn.HandlePostHandshakeMessage: re-keying the kernel after a key update is taken to succeed.
- KtlsRead.Conn.Read: the peek for a close alert in the raw input after a read (ktls_read.go:48-56), which only matters for records that bypass the kernel.
- KtlsInterlock.WordIsExact: the word is an unbounded number, not an int32, so two to the thirty concurrent writers are not modelled.
- DialRace.RaceIsCorrect: cancelled contexts only appear as dials that fail, and closing a connection is taken to happen when decided.
- RouteMatch.PreMatchRefinesMatch: process search, sniffers and resolvers are deterministic functions of their arguments, and the metadata's rule cache, reset before every match, is left out.
- DnsRules.RetryLoop: an explicitly given transport, which skips the rules, and the filling of the reverse mapping.
- DnsCache.Client.Load: capacity eviction, and the rounding of seconds through a floating-point number.
- DnsCache.Client.Exchange: the response checker, the rejection cache, HTTPS hint filtering, and callers changing a returned message that is also cached.
- SingleFlight.EveryKeyIsAskedOnce: entries that expire or are evicted while threads run; DnsCache models one thread.
- Geosite.Write: errors of the underlying writer.
- SavedBinary.Binary.UnmarshalBinary: an allocation panics from the size of the address space on, as on 64-bit systems; memory running out before is not modelled.
- Geosite.BufferedReader.ReadString: the same for strings, and Geosite.Reader.ReadIndex and Geosite.Reader.Read for lists.
- selectInterfaces and DialSerialNetwork: choosing interfaces and trying addresses one after the other.
- TransportManager.Create, Remove and Close: the same registry as the outbound manager's with another default rule.
- marshalJA3, the MD5 fingerprint and ClientHello comparison: printing over the parsed fields.
- IsValid of versions: a foreign semantic-version check.
- setClientSubnet and the fixed-response builders of the DNS client.
- Sockets, kernel calls, gRPC, configuration types and the Box start schedule.
