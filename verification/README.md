# Radish: the log and the wire, verified

Radish is a key-value store with an append-only log and a RESP server. This project models its two
stateful cores in Dafny and proves what they promise.

**The log engine.** A mutation is staged on a copy of the store, appended to the log as one
length-framed record, and only then swapped in. Start-up replays the log; compaction folds it
through one strategy an operation, writes a temporary file and renames it over the log. The model
keeps the disk as two byte strings and every clock reading as an input of the operation that takes
it, so that replay and compaction run under clocks of their own.

- `ByteStrings`: bytes, the exceptions as values, little-endian integers.
- `LogCodec`, `LogReader`: the file format as functions, and the stream-by-stream code against them.
- `Store`: the class with its two coupled maps, seen from outside as one map of entries.
- `Compaction`, `CompactStrategy`: the event table, its listings, the size of the result.
- `Semantics`: the running store, a later replay, and compaction then replay, compared; when a restart
  shows what the run showed.
- `Divergence`: when compaction shows what the run showed, exactly, and logs for which it does not.
- `LogFile`, `Database`: the disk, the log writer and the database as classes.
- `Durability`: all runs of the database at the granularity of single bytes, with crashes anywhere.

**The RESP session.** Requests are parsed out of whatever has been read so far, dispatched one by
one, and answered through an ordered queue that closes the connection when it has drained.

- `RespCodec`, `RespParser`: the request grammar as functions over what is left of the input, and the
  loops over offsets against them.
- `RespGrammar`: whole, unfinished and wrong requests, told by what they are made of; the parser tells
  them apart exactly.
- `RespReplies`, `RespClient`, `RespValues`: the replies, the reader the benchmark client uses, and what
  it makes of any value, however nested.
- `SessionModel`, `SessionRuns`: the connection as a class, and what holds over all its runs. The
  session is generic in the function that executes a command, so its results hold for every handler,
  whatever the clock says and in whatever order the hash map lists its keys.
- `DelCommand`, `Commands`: the handlers that look up or change something, on top of the database, and
  what each command means to a client.
- `Connections`: what a whole connection leaves in the log, what a restart makes of it, and that a
  client cannot tell whether there is a log at all.

## Where the documentation and the code differ

The code is followed.

- The repository's README says of compaction that the result is exactly the state replaying the full
  log would produce. Measured against the run that wrote the log, over all of it and whatever TTLs the
  log was written under, that holds if and only if (`Divergence.CompactsFaithfullyExact`) no key was
  renamed to itself; in a store with a TTL, no overwritten entry outlives, by more than one, everything
  compaction can still find to overwrite it with; and in a store without a TTL, no key was stored from
  a record with an expiry (unless the record had expired by then and its value was there already).
  Under one TTL and a forward clock CREATE is never such a case, so only RENAME has to be watched
  (`Divergence.OneTtlCompactsFaithfully`). Logs that fail:
  - a key renamed to itself comes back (`Divergence.SelfRenamedKeyReturns`);
  - a key overwritten by a RENAME of a shorter-lived one comes back once that one has expired
    (`Divergence.OverwrittenKeyReturns`);
  - a key overwritten after a restart with a shorter TTL comes back with its old value
    (`Divergence.OldValueReturns`); this one takes two TTL settings;
  - a key written under a TTL and kept by a store without one is lost
    (`Divergence.TimestampedKeyVanishes`); so does this one.
  A further difference shows in the compacted file only: an entry is kept at the very reading of its
  expiry (`Semantics.ExpiryBoundary`).
- It says that compaction yields the minimum number of bytes and does not say that it can fail. A
  renamed entry can outgrow the record limit (`Divergence.SurvivorOutgrowsRecord`), and `Compact` then
  throws and leaves the log alone (`LogFile.LogWriter.Compact`); for strings as short as the server
  accepts it cannot (`Compaction.BoundedEntriesFit`).
- It says that expiry survives a restart. A replayed RENAME tests the expiry of its source again, so
  a restart can bring back an overwritten key (`Semantics.RestartsFaithfullyExact`, and
  `Divergence.RestartBringsKeyBack` for such a run).
- It says that an incomplete final write is ignored. It is, but it is not removed, and the next append
  goes behind it: the appended record can be lost (`LogCodec.AppendBehindTornTailIsLost`), and the whole
  log can become unreadable (`LogCodec.AppendBehindTornTailIsFatal`), until a compaction has cleaned it.
- Its table of methods says that `Size` returns the number of stored keys, its status table that it
  counts live ones; the code does the latter (`Store.RadishStore.Size`).
- It says that `Rename` moves a value to a new key. A key renamed to itself is deleted, and the answer is
  that it was renamed (`Store.RadishStore.Rename`).

## Assumptions

Readings of the clock never run backwards between operations. Bytes reach a file in the order they
are written, and renaming a file is atomic. One call of the database is one step, since a mutex
guards each. A file has the header from the start: a crash while the very first header is being
written leaves a file that the program refuses to open.

## Model

| member | source | states |
|---|---|---|
| ByteStrings.Int64RoundTrip | include/persistence/BinaryFile.h:33-35 | an eight-byte timestamp, negative ones included, is read back as written |
| ByteStrings.Int64Canonical | include/persistence/BinaryFile.h:68-70 | any eight bytes are the encoding of the timestamp they are read as |
| ByteStrings.LittleEndianAt | include/persistence/BinaryFile.h:33-35 | byte i of an integer counts 256 to the power i |
| LogCodec.RecordSize | include/RadishEvent.h:37-56 | the exact number of bytes each operation takes in a record, CLEAR just nine |
| LogCodec.Layout | include/RadishEvent.h:37-56 | where header, length, operation number, timestamp and strings stand, and in which form |
| LogCodec.ReadRecordOfRecord | include/RadishEvent.h:58-82 | deserialising what was serialised gives the event back and leaves no byte over |
| LogCodec.RecordOfReadRecord | include/RadishEvent.h:58-82 | only the bytes an event serialises to are ever accepted as that event |
| LogCodec.ReadLogExact | include/persistence/LogReader.h:31-90 | for every file and event list: the reader returns the list if and only if the file is the header, the frames of these events, each within 64 MiB, and at most one incomplete frame |
| LogCodec.StrictPrefixIsTorn | include/persistence/LogReader.h:47-72 | every strict prefix of a legal frame, 0 to 3 length bytes included, is ignored by the reader |
| LogCodec.TornTailRecovery | include/persistence/LogReader.h:47-72 | complete frames and any part of the next one read as exactly the complete ones; with its last byte the next event is there |
| LogCodec.AppendBehindTornTail | include/persistence/LogWriter.h:39-53 | when an append behind torn bytes is read back: if and only if the torn bytes and the frame together begin with that frame and end torn; without torn bytes always |
| LogCodec.AppendBehindTornTailIsLost | include/persistence/LogWriter.h:39-53 | behind one torn byte, whatever the log holds, an acknowledged append that no later read sees |
| LogCodec.ReadLogBehind | include/persistence/LogReader.h:47-90 | whatever lies behind complete frames is read as if it stood alone: what an append behind torn bytes makes of the log, readable or not, is what torn bytes and frame together are read as |
| LogCodec.AppendBehindTornTailIsFatal | include/persistence/LogWriter.h:39-53 | behind three torn bytes, whatever the log holds, an acknowledged append that makes the whole log unreadable |
| LogReader.ByteStream.TakeString | include/persistence/BinaryFile.h:52-75 | a length-prefixed string is taken off the stream, or the stream is too short |
| LogReader.Serialize | include/RadishEvent.h:37-56 | the stream grows by exactly the record of the event, unless a string outgrows its length field |
| LogReader.Deserialize | include/RadishEvent.h:58-82 | fills the event from the front of the stream and leaves the rest, or refuses a bad tag and a short stream |
| LogReader.WriteRecord | include/persistence/LogWriter.h:189-206 | succeeds exactly for records within 64 MiB and then adds one frame; otherwise not a byte is written |
| LogReader.GetEvents | include/persistence/LogReader.h:31-90 | the reading loop returns what the format says: events, torn tail ignored, bad headers, lengths and records refused, no file no events |
| Store.RadishStore.Get | include/RadishStore.h:27-34 | the value of a key just when it is among the entries visible now |
| Store.RadishStore.Exists | include/RadishStore.h:109-116 | true just for the keys visible now |
| Store.RadishStore.IsExpired | include/RadishStore.h:119-126 | true just when the store has a TTL and the clock has reached the key's expiry |
| Store.RadishStore.Create | include/RadishStore.h:36-45 | both maps stay coupled and the key has the new value and, with a TTL, the given expiry |
| Store.RadishStore.Rename | include/RadishStore.h:47-65 | value and expiry move together if the source is live; a key renamed to itself is gone; otherwise nothing changes |
| Store.RadishStore.Delete | include/RadishStore.h:67-71 | the key is gone from both maps; true just when it was stored, expired or not |
| Store.RadishStore.Clear | include/RadishStore.h:73-82 | empties both maps; true just when there was something stored |
| Store.RadishStore.Scan | include/RadishStore.h:85-98 | each key that is live at its own reading of the moving clock, once, in some order |
| Store.RadishStore.Size | include/RadishStore.h:101-106 | the number of those keys |
| Store.RadishStore.Swap | include/RadishStore.h:146-153 | the two stores exchange their whole contents |
| Store.RadishStore.ApplyEvent | include/persistence/LogWriter.h:63-80 | an event changes the store as its operation would and says whether it changed anything |
| Store.ApplyMeans | include/RadishStore.h:36-82 | key by key, what each operation stores, moves and removes; no key it does not speak of is touched; and when it counts as a change |
| Store.LiveMeans | include/RadishStore.h:119-126 | a stored key is visible for ever without a TTL, with one as long as its expiry is still to come |
| CompactStrategy.EventTable.ExecuteCreate | include/persistence/CompactStrategy.h:36-38 | the latest CREATE of a key is the one kept |
| CompactStrategy.EventTable.ExecuteRename | include/persistence/CompactStrategy.h:50-60 | a kept entry moves to the new name and its record says so, a rename to itself included |
| CompactStrategy.EventTable.ExecuteDelete | include/persistence/CompactStrategy.h:72-74 | the entry of the key is dropped |
| CompactStrategy.EventTable.ExecuteClear | include/persistence/CompactStrategy.h:86-88 | no entry is left |
| Compaction.CompactMapOwnKeys | include/persistence/CompactStrategy.h:36-88 | whatever the log, each surviving entry is a CREATE whose stored key is its key in the map |
| Compaction.ExecuteMeans | include/persistence/CompactStrategy.h:36-88 | key by key, what each strategy does; a key renamed to itself stays, and no key the event does not speak of is touched |
| Compaction.HistoryOfListing | include/persistence/LogWriter.h:107-125 | a log that lists a map means that map, in whatever order the hash map wrote it |
| Compaction.ListingsArePermutations | include/persistence/LogWriter.h:107-125 | two ways of writing one map are the same records in two orders |
| Compaction.CompactAgain | include/persistence/LogWriter.h:82-138 | compacting a compacted log again at the same reading keeps exactly the same records |
| Compaction.CompactionNeverGrows | include/persistence/LogWriter.h:82-138 | the compacted file is never longer than the log, even with entries renamed to longer keys |
| Compaction.WeightStep | include/persistence/CompactStrategy.h:50-60 | one event adds at most its own frame to the surviving bytes: a longer name is paid for by the RENAME that brought it |
| Compaction.BoundedEntriesFit | include/persistence/LogWriter.h:189-206 | when no string of the log is longer than a bound of which two fit in a record, no survivor is too large to be rewritten |
| Compaction.CompactedLogFits | include/persistence/LogWriter.h:189-206 | so every compaction of such a log can be written |
| Semantics.ReplayIsHistory | include/persistence/LogWriter.h:55-60 | replay shows, at every later reading, what the log means without any clock, if its readings never run backwards or every RENAME has its source in the log |
| Semantics.CompactMapIsHistory | include/persistence/LogWriter.h:82-100 | so does the event map of compaction under moving readings of its own |
| Semantics.ReplayOfListing | include/persistence/LogWriter.h:107-125 | a compacted log replays to the same store in every order and under every clock |
| Semantics.ThreeSemantics | include/persistence/LogWriter.h:55-138 | for every log without self-renames and without overwrites that shorten an expiry, under one TTL setting: running store, later replay, and compaction then replay show the same entries at every later reading; the clock never runs backwards during run and replay, or every RENAME has its source in the log |
| Semantics.RestartsFaithfullyExact | include/RadishStore.h:47-65 | over a whole run with a TTL: a restart at every point, whatever readings its replay takes, shows what the run showed at every later reading if and only if no RENAME went over a key that would have outlived its source |
| Semantics.CompactSkipExact | include/persistence/LogWriter.h:88-92 | skipping an expired CREATE is invisible from then on if and only if it is not expired or nothing visible lies under it |
| Semantics.SelfRenameExact | include/persistence/CompactStrategy.h:50-60 | store and compaction agree on a RENAME of a live key if and only if the two names differ |
| Semantics.ExpiryBoundary | include/persistence/LogWriter.h:120-122 | in any event map, compaction keeps an entry that is dead to the store if and only if the reading is exactly its expiry or it is stamped as never expiring; it drops none that is alive |
| Semantics.CompactAtOneReading | include/persistence/LogWriter.h:82-100 | with the clock at one reading no CREATE carries and CREATE timestamps in order, compaction keeps exactly the unexpired part of what replay builds, even when renames overwrite longer-lived keys |
| Divergence.CompactsFaithfullyExact | include/persistence/LogWriter.h:82-138 | over a whole run, whatever TTLs the log was written under: compacting at every point, under any readings from then on, and replaying shows what the run shows if and only if no key was renamed to itself; with a TTL, no overwritten entry outlives by more than one what compaction still finds to overwrite it with; without one, no key was stored from a record with an expiry, but for a record that had expired and left its value as it was |
| Divergence.MixedConfigurations | include/persistence/LogWriter.h:88-92 | for a store without a TTL and a log whose records had not expired when they were applied, that is so if and only if none of them has an expiry and no key was renamed to itself |
| Divergence.OneTtlCompactsFaithfully | include/persistence/LogWriter.h:82-138 | with one TTL that is so when no RENAME is of a key to itself or over an entry that outlives it by more than one |
| Divergence.SelfRenamedKeyReturns | include/persistence/CompactStrategy.h:50-60 | a run under one TTL that fails: the self-rename |
| Divergence.OverwrittenKeyReturns | include/persistence/LogWriter.h:88-92 | a run under one TTL that fails: the RENAME of a shorter-lived key |
| Divergence.RestartBringsKeyBack | include/RadishStore.h:47-65 | the same run, restarted without compaction, fails too |
| Divergence.OldValueReturns | include/persistence/LogWriter.h:88-92 | a run under two TTLs that fails: the CREATE after a restart with the shorter one |
| Divergence.TimestampedKeyVanishes | include/persistence/LogWriter.h:88-92 | a log written under a TTL and kept by a store without one that fails |
| Divergence.OutlivedByTwoAndHidden | include/persistence/LogWriter.h:88-92 | a run that does not fail although a RENAME goes over an entry that outlives its own by two: the condition cannot be told from the two entries alone |
| Divergence.SurvivorOutgrowsRecord | include/persistence/LogWriter.h:195-197 | a log of legal records one of whose survivors is too large to be rewritten |
| LogFile.LogWriter.Open | include/persistence/LogWriter.h:148-176 | a missing log is created empty, one with another header is refused and left alone |
| LogFile.LogWriter.Append | include/persistence/LogWriter.h:39-53 | the log grows by one frame, or the record is too large and the log is unchanged |
| LogFile.LogWriter.Replay | include/persistence/LogWriter.h:55-60 | the store becomes what applying all events in order makes of it, or an unreadable log leaves it alone |
| LogFile.LogWriter.Compact | include/persistence/LogWriter.h:82-100 | succeeds exactly when the log is readable and every survivor fits in a record; then complete frames listing the survivors are the whole log, else the log is as it was |
| LogFile.LogWriter.RewriteHistory | include/persistence/LogWriter.h:107-138 | the temporary file replaces the log only when every entry was written |
| Database.RadishDB.Open | include/RadishDB.h:135-143 | a new database is empty; an existing one is the replay of its readable log, an unreadable one does not open; without persistence the disk is untouched |
| Database.RadishDB.Commit | include/RadishDB.h:117-133 | store and log change together or not at all |
| Database.RadishDB.Create | include/RadishDB.h:41-46 | one reading of the clock gives the expiry that is both stored and logged |
| Database.RadishDB.Rename | include/RadishDB.h:48-53 | a refused RENAME is neither stored nor logged |
| Database.RadishDB.Delete | include/RadishDB.h:55-60 | true exactly with one more DELETE record |
| Database.RadishDB.Clear | include/RadishDB.h:62-67 | clearing an empty database logs nothing |
| Database.RadishDB.Compact | include/RadishDB.h:69-76 | the store is untouched, the log replaced by a compaction of itself or left alone |
| Database.CommitIsAllOrNothing | include/RadishDB.h:117-133 | an effective mutation adds itself and only itself to the events a restart would read; a no-op or an over-limit record changes neither store nor file |
| Database.CreatedLivesItsTtl | include/RadishStore.h:139-142 | a key created at a reading is visible with its value until that reading plus the TTL and not any more from then on; no other key is touched; with or without a log |
| Database.PersistenceIsTransparent | include/RadishDB.h:117-133 | with a log or without one a mutation that fits in a record has the same result and leaves the same store, which is what the mutation makes of it |
| Database.RunsAreTransparent | include/RadishDB.h:117-133 | so does a whole run of mutations, and the store is their replay |
| Durability.CrashSafety | include/persistence/LogWriter.h:39-138 | after any run at all of mutations, compactions, crashes at any byte and restarts: the log reads as exactly the logged events, plus the one in flight once its last byte is there, and that is what a restart replays; a left-over temporary file plays no part |
| Durability.Recovery | include/persistence/LogWriter.h:39-138 | in runs without self-renames and RENAMEs over longer-lived keys, crashes at any byte, compactions and restarts included: a restart shows what all acknowledged mutations (and a complete one in flight) mean; so does the running store (the guard is sufficient) |
| Durability.FileHoldsHistory | include/persistence/LogReader.h:47-87 | from any state of any run on, until a compaction replaces the log: the file reads as what it held (just after a compaction, the compacted log) and then exactly the mutations acknowledged since, in order, and the complete one in flight |
| Durability.UncompactedFileHoldsAll | include/persistence/LogReader.h:47-87 | without a compaction the file reads as all mutations ever acknowledged |
| Durability.StoreIsReplay | include/RadishDB.h:117-143 | without a TTL, in every reachable idle state the store equals the replay of its file into an empty store, if there were no self-renames or no compactions |
| Durability.CommitIsARun | include/RadishDB.h:117-133 | every effective commit of the database class to a clean log is a run of the byte-level machine, ending in the same store and file |
| Durability.CompactIsARun | include/persistence/LogWriter.h:107-138 | so is its compaction: it turns even a log with a torn tail into one that can be appended to again, or, if a survivor is too large, throws with a part of the temporary file written and the log as it was |
| Durability.IssuedIsLawful | include/RadishDB.h:41-53 | with a forward clock and one TTL, CREATE never shortens an expiry; only RENAME has to be watched |
| RespCodec.DecimalRoundTrip | src/network/RespCodec.cpp:125-134 | a printed length denotes itself |
| RespCodec.ReadNumberStable | src/network/RespCodec.cpp:16-38 | a number, once its line is complete, stays the same number with more bytes behind it |
| RespCodec.ParseLeaves | src/network/RespCodec.cpp:53-123 | an accepted request has 1 to 1024 arguments of at most 4 MiB, consumes a positive number of the bytes there are, and is never shorter than the re-encoding of its arguments |
| RespCodec.NormalForm | src/network/RespCodec.cpp:53-134 | the re-encoding of an accepted request, odd lengths such as leading zeros or -0 included, is accepted with the same arguments |
| RespCodec.ParseStable | src/network/RespCodec.cpp:53-123 | once the parser accepts or rejects, more bytes change neither verdict, arguments, count of bytes nor complaint |
| RespCodec.StrictPrefixIsIncomplete | src/network/RespCodec.cpp:53-123 | every strict prefix of an accepted request is incomplete |
| RespCodec.ParseOfEncoded | src/network/RespCodec.cpp:125-134 | parsing an encoded command, whatever follows, gives its arguments and its length |
| RespGrammar.ParseExact | src/network/RespCodec.cpp:53-123 | the parser waits if and only if the input is the beginning of a request, complains of e if and only if the first wrong element is wrong in that way, and accepts if and only if a whole request stands at the front, with its arguments and length |
| RespCodec.MessagesDiffer | src/network/RespCodec.cpp:59-110 | no two complaints read the same |
| RespParser.ParseNumber | src/network/RespCodec.cpp:16-38 | value and next offset, both within the input, for the line at the offset; or what is wrong with it |
| RespParser.ParseArguments | src/network/RespCodec.cpp:78-115 | the loop over offsets stays in bounds and finds the arguments the grammar finds |
| RespParser.ParseCommand | src/network/RespCodec.cpp:53-123 | the parser gives the verdict of the grammar on every input |
| RespParser.EncodeCommand | src/network/RespCodec.cpp:125-134 | builds the array of bulk strings that requests and array replies are |
| RespReplies.SanitizeSimpleValue | src/network/RespCodec.cpp:40-50 | line breaks become spaces, everything else stays |
| RespReplies.GreetingNamesVersion | src/network/RespCodec.cpp:169-182 | the greetings of the two versions differ in the version they name and in nothing else |
| RespReplies.Hello | src/network/RespCodec.cpp:169-199 | the greeting of either protocol version, an array or a map of six pairs |
| RespClient.ReplyCarries | src/network/RespCodec.cpp:136-199 | an integer, a one-line text, a bulk string, an array of any length, an absent value in either protocol version, and a greeting as an array or a map read back as what was put in |
| RespClient.TypeOfReply | src/network/RespCodec.cpp:136-199 | no reply under RESP2 begins with a type RESP2 does not have |
| RespClient.ParseLongIsLenient | benchmarks/RadishBench.cpp:194-200 | what else the client reads as a number: spaces before, a plus, anything behind |
| RespClient.ReadLineCutsAtLf | benchmarks/RadishBench.cpp:161-168 | a line ends at the first LF, and the byte before it is dropped whatever it is |
| RespClient.ReadReply | benchmarks/RadishBench.cpp:178-214 | one call takes exactly one reply of any kind off the stream, and reports success unless it is an error |
| RespClient.ReadConcatenatedReplies | benchmarks/RadishBench.cpp:178-214 | any concatenation of replies is taken one call a reply with nothing left over |
| RespValues.ReadValue | benchmarks/RadishBench.cpp:178-214 | any value, however nested, is taken off the stream by one call, all of it and nothing else, and is a success if and only if no error stands anywhere in it; nested deeper than 32 levels it is refused |
| RespClient.RespConnection.TakeLine | benchmarks/RadishBench.cpp:161-168 | a line and its terminator leave the buffer |
| RespClient.RespConnection.ConsumeBytes | benchmarks/RadishBench.cpp:170-176 | exactly so many bytes leave the buffer |
| RespClient.RespConnection.TakeResponse | benchmarks/RadishBench.cpp:178-214 | the recursive reader terminates on every stream and takes what the reply grammar says |
| SessionModel.Session.Queue | src/network/TcpServer.cpp:305-315 | a reply goes to the end of the queue, and one more write is started only if the queue was empty |
| SessionModel.Session.Process | src/network/TcpServer.cpp:74-91 | the drain loop terminates and dispatches whatever is complete in the input |
| SessionModel.Session.OnRead | src/network/TcpServer.cpp:51-72 | a read fills the buffer, trips the limit or drains, and reading goes on unless close was requested |
| SessionModel.Session.OnWritten | src/network/TcpServer.cpp:317-340 | the written reply leaves the queue; the next write starts, or the connection closes if that was requested |
| SessionRuns.DrainSplit | src/network/TcpServer.cpp:74-91 | bytes that come later change nothing that was dispatched before them |
| SessionRuns.ChunkIndependence | src/network/TcpServer.cpp:51-91 | however a stream is cut into reads and writes come in between, commands, replies and effects are those of one pass over the stream, up to its first protocol error or closing command, as long as the limit is not hit |
| SessionRuns.WriteQueueSafety | src/network/TcpServer.cpp:305-340 | over every run: the writes started and not completed are never more than one, and one exactly while something is queued; bytes sent are a prefix of the replies in dispatch order; closed exactly when close was requested and all of them have gone out; one read is outstanding exactly until then |
| SessionRuns.NothingQueuedAfterClose | src/network/TcpServer.cpp:66-76 | once close is requested nothing more is dispatched or queued, however the run goes on |
| SessionRuns.RunKeeps | src/network/TcpServer.cpp:74-91 | an invariant of world, commands and replies that every command keeps holds at every moment of every run |
| SessionRuns.ModestNeverTrips | src/network/TcpServer.cpp:45-71 | no cutting into reads of at most 8192 bytes trips the input limit if each request plus 8191 bytes fits in it |
| SessionRuns.InputLimitExact | src/network/TcpServer.cpp:61-64 | that bound is exact: a request over it, with enough bytes behind it, can be cut so that the limit trips |
| SessionRuns.Pipeline | src/network/TcpServer.cpp:74-91 | a stream of encoded commands does exactly what executing its commands one by one does, up to the first that closes the connection, and the client reads off exactly their successes and refusals |
| SessionRuns.WhatFollows | src/network/TcpServer.cpp:74-91 | behind any whole requests an unfinished one waits, and a wrong one is refused once and closes the connection: nothing from it on is dispatched |
| SessionRuns.TripRefuses | src/network/TcpServer.cpp:59-64 | a read trips the limit if and only if it takes the buffer over it; then there is one refusal, close is requested, and nothing is dispatched |
| SessionRuns.RunsSame | src/network/TcpServer.cpp:51-91 | worlds that no command tells apart are not told apart by any run |
| DelCommand.ArgumentsFit | include/persistence/LogWriter.h:195-197 | no argument of an accepted request makes a record too large for the log |
| DelCommand.DeletionIsConserved | src/network/TcpServer.cpp:161-177 | for any arguments, repeats and expired keys included: the number replied is the drop in stored entries, exactly the named keys are gone, and the log has grown by as many DELETE records |
| DelCommand.HandleDelete | src/network/TcpServer.cpp:161-177 | the handler replies with that number and leaves that database, or complains about missing keys |
| Commands.HandleSet | src/network/TcpServer.cpp:147-159 | SET commits one CREATE and answers with OK, or complains about its arguments |
| Commands.HandleRename | src/network/TcpServer.cpp:179-197 | RENAME answers with OK just when the database renamed |
| Commands.HandleFlushDatabase | src/network/TcpServer.cpp:247-256 | FLUSHDB clears the database and answers with OK |
| Commands.Handlers.HandleGet | src/network/TcpServer.cpp:135-145 | GET answers with the value of a visible key or with the null of the protocol version |
| Commands.Handlers.HandleHello | src/network/TcpServer.cpp:96-119 | HELLO sets the protocol version and greets in it, or complains and leaves it |
| Commands.Handlers.Dispatch | src/network/TcpServer.cpp:293-303 | the handler found under the upper-case name does to database and version, and answers, what the server the session results speak of does |
| Commands.CommandMeans | src/network/TcpServer.cpp:96-303 | what a client may rely on, with a log or without: a wrong number of arguments changes nothing and is refused; SET makes a key visible until its TTL has passed; GET finds exactly what is visible; RENAME moves or deletes; DEL counts what it removes; FLUSHDB leaves nothing; HELLO changes the version it greets in; QUIT, and it alone, closes |
| Connections.CommandIsLogged | src/network/TcpServer.cpp:293-303 | whatever the command: the log grows by exactly the records its reply stands for, and the store by their effect |
| Connections.ConnectionIsLogged | src/network/TcpServer.cpp:51-91 | at every moment of every connection, to a new database or one opened or used before, the log reads as what it held and then the records of one command after the other: one for a SET, one for a RENAME exactly when its key was visible, one for each stored key a DEL names, one for a FLUSHDB exactly when something was stored; the store is what applying them left, and the client has seen a prefix of the replies |
| Connections.SetIsLogged | src/network/TcpServer.cpp:147-159 | every SET dispatched has its CREATE in the log, with its key and value |
| Connections.RestartAfterConnection | include/RadishDB.h:135-143 | a restart from that log shows at every later reading what the store shows, if no RENAME went over a key that would have outlived its source |
| Connections.CompactionAfterConnection | src/main.cpp:112-116 | a restart from the log the server compacts when it stops shows what the store shows, if nothing in the run diverges |
| Connections.BackedIsOneTtl | include/RadishDB.h:41-46 | the log of connections alone is written under one TTL, each record stamped with its own reading plus the TTL |
| Connections.ClientsCannotTell | include/RadishDB.h:117-133 | the same steps on a server without a log and one with it: same commands, replies, bytes and stores at every moment |
| Connections.OnlyResp2 | src/network/RespCodec.cpp:151-158 | over every run, a client that never asks for RESP3 is never answered in it |

## Left out

- Sockets, the acceptor, signals, threads and option parsing; a session is driven by completed reads and writes, and socket errors end the run.
- The mutexes and `PersistenceLog`, which only forward to the log writer.
- I/O errors: failing opens, writes, flushes and renames, and what an operating system loses when power fails.
- Values other than strings, native endianness and padding: little-endian byte strings only.
- Events with an absent field or an unknown type tag on the writing side: `RadishDB` never builds them; on the reading side bad tags are refused.
- The replies of PING, EXISTS, KEYS and DBSIZE: single-branch code; `Commands` takes any function for them, and a connection is the only one to its database while it lasts. A TTL and a reading whose sum leaves 64 bits wrap around in `Store.Stamp`.
- Memory exhaustion and counts beyond 64 bits in the client's reply reader: a map header of more than 2^62 pairs overflows in the source, and a line that begins with its LF makes the source drop a byte of an empty string; the model counts on in the first case and fails in the second.
- Benchmark workloads, statistics, scripts and the build.
- Durability.Recovery: says when recovery is faithful, not when exactly, for runs that mix compactions and restarts; the exact conditions are those for restarts alone and for compactions alone (`Semantics.RestartsFaithfullyExact`, `Divergence.CompactsFaithfullyExact`).
- Appending behind a torn tail in a run: `Durability` appends only to clean files, as a file is when first created or just compacted, but not after a restart that follows a crash inside an append; what happens then is `LogCodec.AppendBehindTornTail` and `LogCodec.ReadLogBehind`.
