# Verified model of the Redis workbench plugin

The plugin is a perk/v1 server: a host sends newline-delimited JSON-RPC messages
on standard input, and the plugin answers on standard output while it edits a
Redis keyspace shown as one virtual table `keys`. This project models its four
hard parts in Dafny and proves what they promise.

`dafny verify dfyconfig.toml` checks everything.

## What is modelled

**Row writes over Redis.** `RedisStore` is the keyspace (`Str` bytes or another
type), the commands a row write sends, and the Lua update script as one atomic
step. `RowWrites` cuts each write into its commands (TYPE, GET, EXISTS, then the
commit) and states, independently, what a write means (`Accepted`, `Applied`,
`RowsAffected`). `RowRequests` and `Services` hold the request parsers, the
`RedisService` and the in-memory `MemoryService` as classes in the source's
form; `RequestForms` reads requests off their cells. `Interleaving` is the
concurrent machine: any number of handlers, each checking the closed flag,
waiting for the connection lock, sending and awaiting; any outside client
changing the store in any way at any time; a handler dropped at any await point;
a connection lost; a close. Every step sequence is a run, because a step that is
not enabled does nothing. `InterleavingLaws`, `Linearization`, `Schedules`,
`ProtocolOrder`, `CutOff`, `Closing`, `Replay` and `Conservation` prove
statements about every run, and `ErrorKinds` says which errors they report. The
script's text is a parameter: the theorems hold whatever text is reported, given
that running it has the modelled effect.

**The perk/v1 server.** `ServerModel` is the state machine of the frame loop,
the spawned handlers, the gated writer and the shutdown; `ServerLaws`,
`CancelLaws` and `ShutdownLaws` prove statements about every run. `FrameLoop` is
the server's own code as classes (`Sink`, `Registry`, `PerkServer`), each method
tied to steps of that machine, and shows that other tasks never disturb what the
frame loop decides.

**Texts.** `ShellWords` (section 2.2 and 2.3 of the Shell Command Language
chapter of POSIX.1-2017, as the shell-words crate reads them), `Decimal`,
`Statements` and `StatementLaws` are the statement language and its printers;
`Quoting`, `Numerals` and `StatementForms` say, character by character, which
texts are read as what. `Framing` is the frame reader against a splitter of the
whole stream. `Utf8` is section 3 of RFC 3629, with Rust's lossy decoding.

**Paging and display.** `Paging` and `Display`.

A Dafny `char` stands for a Unicode scalar; keys and values are bytes.

## Where the code and its documentation part

The model follows the code; each difference is a theorem.

- The SELECT parser is documented to take at most one `;`. A last token `;;` is
  taken too: its glued `;` is stripped and the other passes for a standing
  terminator. `SelectGrammar` says exactly what is accepted,
  `SelectMeetsGrammar` gives the guard under which the documentation holds, and
  `DoubleTerminatorAccepted` covers the whole failing family.
- README.md of the repository (lines 156-159) says a bounded preview can never
  overwrite a value it did not fully show. The guard counts scalars and the
  preview counts bytes, so 300 four-byte scalars are editable and not shown in
  full by a browse. `BrowseShowsEditable` is the exact condition,
  `EditableNotShownExample` a value that breaks it. On the GET path the promise
  holds for every value (`GetShowsEditable`).
- The kind of an error reply is told from its text, and the script's texts name
  keys. Renaming a missing key called `NOAUTH`, or editing one that changes under
  the edit, is reported as an authentication failure. `AuthenticationKind` is the
  exact condition over every run, `AuthenticationAlone` that for a write alone.
- A registry entry is removed after its response is sent, and a negative id is
  cast to u64. An id that returns while its entry is still there makes a cancel
  miss its request. `CleanExactly` says when this happens, `KeyCollision` which
  ids collide, `ReusedIdLosesCancel` gives a run.
- A write that fails, unless it lost its connection, leaves the store alone, but
  one failure has no sequential explanation: the value edit whose source changed
  after it was read (`FailureLinearizes`; `ChangedConcurrently` gives the run).
  A write cut off by a cancel or a lost connection may still run, whole, if and
  only if its commit had been sent (`CutOffExactly`, `CommitAtomic`); neither
  -32800 nor the connection error says whether it did (`CanceledEitherWay`).
- `browse_page` is documented to collect every key. Redis cursors are unsigned
  64-bit and are read as i64, so one above that range ends the scan early.
  `CollectsAllExactly` is the exact condition, `HugeCursorLoses` a scan that
  loses its key.
- A page size of 0 is accepted and announces more rows for ever
  (`ZeroLimitStalls`).

## Model

| member | source | states |
|---|---|---|
| RedisStore.ScriptIsCompareAndSet | src/redis_service.rs:486-513 | The script changes the store only when the source exists, is (for a value edit) a string equal to the expected text, and the destination is free or the source itself; then it answers 1 and the row is moved and replaced in one step; otherwise it fails and leaves the store alone |
| RedisStore.InterpretTokens | src/redis_service.rs:1412-1449 | The token list of every command, EVAL with its key count, key and four arguments included, names exactly that command |
| RedisStore.EvalPassesArguments | src/redis_service.rs:486-490 | The EVAL sent passes one key and four arguments in the places where the script's first lines read them |
| RedisStore.CommandsAre | src/redis_service.rs:1323-1347 | The token list of every other command and its effect: DEL takes its key away and no other, SET NX writes only an absent key, reads change nothing |
| RedisStore.TypeNamesAre | src/redis_service.rs:1203-1210 | TYPE names every kind of content apart, and `none` exactly an absent key |
| RedisStore.UntouchedKeys | src/redis_service.rs:491-512 | A command leaves every key other than those it names exactly as it was |
| RedisStore.KeyCount | src/redis_service.rs:1323-1347 | What a command's reply says about the number of keys is what happened to it: SET NX adds one when it succeeds, DEL removes what it counts, the script keeps the number |
| RowWrites.CommitMeaning | src/redis_service.rs:1412-1449 | The commit command alone decides a write: on any store it has the write's whole declared meaning or no effect, and refuses an allowed write only when the source no longer holds the expected text |
| RowWrites.ReadTextIs | src/redis_service.rs:1389-1402 | The stored bytes equal the expected text's encoding exactly when reading them through the guard gives that text |
| RowWrites.EditableIs | src/redis_service.rs:1389-1402 | A value may be edited exactly when it is the UTF-8 encoding of a text of at most 300 characters |
| RowWrites.AppliedRows | src/redis_service.rs:491-512 | After an allowed write, key by key: the destination holds the new value or the moved content, the source is gone if it is another key, a deleted key is gone, an inserted one holds its value, and every other key is as before |
| RowWrites.ErrorKindIs | src/redis_service.rs:413-427 | An error text with NOAUTH or WRONGPASS anywhere in it is an authentication failure, any other an operation error |
| RowWrites.SoloMeaning | src/redis_service.rs:1323-1450 | Alone, the command-by-command program succeeds exactly where the write is allowed, with the declared store and count, and reports the very command it committed with |
| RowRequests.RequireString | src/redis_service.rs:635-649 | A cell has a text exactly when it is a string cell with a payload; every other cell is a validation error |
| RowRequests.ParseIdentity | src/redis_service.rs:613-631 | The key loop accepts exactly one string cell named `key` and gives its text |
| RowRequests.ParseUpdateValues | src/redis_service.rs:654-693 | The cell loop accepts exactly the well-formed lists: known columns, no duplicates, only strings, a nonempty destination, at least one change |
| RowRequests.ParseInsertValues | src/redis_service.rs:697-748 | Likewise for inserts: a key, an optional value that defaults to the empty text, a type that is blank or `string` |
| RowRequests.ParseMemoryInsert | src/service.rs:487-514 | The in-memory service's insert cells, which have no type column |
| RowRequests.ParseRowWrite | src/redis_service.rs:558-608 | Every request is the write its fields declare or the error kind of the first rule it breaks |
| RowRequests.RequestsCompared | src/service.rs:796-866 | The two services' parsers read the same write out of a request wherever their rules agree, and never both accept it elsewhere |
| RequestForms.RequestMeaning | src/redis_service.rs:558-748 | A request is accepted as a write if and only if its cells ask for exactly that write: which columns, each at most once and a plain string, each going where its name says; and the kind of the error for all the rest |
| RequestForms.UpdateColumns | src/redis_service.rs:654-693 | Cell by cell, an accepted update's `key` cell is the new name and its `value` cell the new value |
| RequestForms.MemoryRequestMeaning | src/service.rs:404-514 | The same for the in-memory service and its own rules |
| Services.RedisService.DeleteRow | src/redis_service.rs:1323-1335 | Store and outcome are those of the delete's specification |
| Services.RedisService.InsertRow | src/redis_service.rs:1340-1347 | Store and outcome are those of the insert's specification |
| Services.RedisService.UpdateRow | src/redis_service.rs:1356-1450 | Store, outcome and reported statement are those of the update's specification, for rename, value edit and both |
| Services.RedisService.WriteRow | src/redis_service.rs:1898-1942 | A malformed request never reaches Redis; any other is carried out as the write it parses to |
| Services.RedisService.Close | src/redis_service.rs:1944-1950 | After a close no command passes the closed check; the connection is released exactly when its lock was free, and stays in place when it was busy |
| Services.MemoryService.WriteRow | src/service.rs:796-866 | The in-memory service's map and count are those of its own specification |
| Services.AcceptedAlike | src/service.rs:809-855 | On corresponding stores a write is allowed by Redis exactly when the in-memory service allows it and it does not edit a value over 300 scalars; the counts agree |
| Services.AppliedAlike | src/service.rs:837-844 | Carrying out a write both allow keeps the stores corresponding |
| Services.RedisRefinesMemory | src/service.rs:796-866 | The Redis path refines the in-memory reference: accepted or rejected alike, same resulting map, same count |
| Services.RunsStayInStep | src/service.rs:796-866 | Over whole runs of writes of at most 300 scalars, the two services stay in step: write by write the same are accepted with the same counts, and the final stores correspond |
| InterleavingLaws.ReachInv | src/redis_service.rs:1022-1033 | In every run the lock is held by the one handler awaiting a reply, an expected text was read by its own handler, and each handler commits at most once, with the command its state determines |
| Linearization.ReachLogOk | src/redis_service.rs:1323-1450 | The log of commands and outside changes is a sequential history of the store: every command ran on the store the history gives and saw its true reply |
| Linearization.CommitAtomic | src/redis_service.rs:1404-1449 | Whenever a commit runs, even after its handler was canceled or lost its connection, it has the whole effect of the write on the store it finds, or none: never a rename without its SET |
| Linearization.AtMostOneChange | src/redis_service.rs:1323-1450 | In every interleaving a handler changes the store at most once |
| Linearization.SuccessLinearizes | src/redis_service.rs:1323-1450 | A write that reports success took effect at one event of the history, with exactly the store, count and statement the write alone would have had there |
| Linearization.FailureLinearizes | src/redis_service.rs:1356-1450 | A write that reports any failure other than a lost connection, refusals by a closed session included, changed nothing at all; when a reply decided it, that event is one where the write alone fails too, or where the source no longer held the text read |
| Linearization.FailureIsFinal | src/redis_service.rs:1356-1450 | And nothing of it changes the store in any continuation |
| ErrorKinds.ChangedConcurrently | src/redis_service.rs:499-501 | For every value edit and every two stores that allow it with different texts, there is a run in which the edit is refused although at every moment of it the edit alone would have succeeded |
| ErrorKinds.RefusalNames | src/redis_service.rs:491-505 | The script refuses exactly where there is a key to refuse, and its error text holds NOAUTH or WRONGPASS exactly when that key's name does |
| ErrorKinds.AuthenticationKind | src/redis_service.rs:413-427 | In every interleaving a write ended by a reply is reported as an authentication failure if and only if it is an update whose commit ran on a store where the script refuses it, and the key refused, its source or a taken destination, holds NOAUTH or WRONGPASS in its name |
| ErrorKinds.EditKindExample | src/redis_service.rs:499-501 | The edit of a key that is there and may be edited can end so |
| ErrorKinds.AuthenticationAlone | src/redis_service.rs:413-427 | For a write alone it takes a bare rename of a missing key of such a name to a free destination |
| ErrorKinds.AuthenticationAloneExample | src/redis_service.rs:491-493 | A key named NOAUTH is such a case |
| Linearization.RealTimeOrder | src/redis_service.rs:1323-1450 | A write answered with success before another begins takes effect before it in the history |
| Linearization.NoLostUpdate | src/redis_service.rs:1364-1449 | When a value edit commits, the store just before held at the source exactly the bytes its own handler had read, valid UTF-8 of at most 300 scalars, and the destination was free or the source, whatever other clients did |
| Linearization.EventLinearizes | src/redis_service.rs:1323-1450 | Between two successive moments of the history the store changes only by a write that took effect there, or by an outside client |
| Linearization.StoreIsSequential | src/redis_service.rs:1323-1450 | In every interleaving the store is the sequential application, in commit order, of the declared meanings of the committed writes and of the outside changes |
| Schedules.SoloIsARun | src/redis_service.rs:1323-1450 | For every write and store the sequential specification is reached by a run of the concurrent machine |
| Schedules.LoneHandler | src/redis_service.rs:1356-1450 | From any idle point a handler left alone runs to its end with the specification's remaining outcome |
| ProtocolOrder.ProtocolKept | src/redis_service.rs:1356-1450 | In every interleaving a handler sends a front of its protocol, TYPE and GET before an edit, EXISTS before a rename, each once and in this order, then its one change with the text read; and all of it when it succeeded |
| CutOff.UnsentChangesNothing | src/redis_service.rs:1433-1449 | A handler that is over, canceled, refused, failed or without connection, before its commit was sent never changes the store, in any continuation |
| CutOff.EarlyStopNeverCommits | src/redis_service.rs:1022-1033 | In particular a write cut off or refused while checking, queued or awaiting a read never happens |
| CutOff.CutOffExactly | src/redis_service.rs:1404-1449 | A write cut off by a cancel or a lost connection has taken effect, or still can, if and only if its commit had been sent |
| CutOff.SentMayStillWrite | src/redis_service.rs:1440-1449 | While that command is on its way, it does the whole write on any store where the write is allowed and its text still stands |
| CutOff.CanceledEitherWay | src/server.rs:675-690 | Being cut off does not tell: for every write, edits and renames included, and every store where it is allowed, a cancel or a lost connection can leave it undone or wholly done, with the same answer |
| CutOff.LateCancelIsADrop | src/server.rs:676-683 | A write that completed and whose answer a cancel replaces is, for the store, the log and every other write, in all continuations, a write dropped just before its reply |
| Closing.ClosedSends | src/redis_service.rs:1022-1033 | After a close a handler sends at most one more command, and only if it had passed its closed check while the connection stayed in place; later handlers send none |
| Closing.ClosedRefuses | src/redis_service.rs:1023-1025 | After a close every command is refused at its check, with the connection kind and without sending |
| Closing.ReleasedRefuses | src/redis_service.rs:1026-1029 | So is one that had passed the check when the connection is gone |
| Closing.IdleCloseSendsNothing | src/redis_service.rs:1944-1950 | A close that gets the lock stops every handler at once |
| Closing.OneMoreCommandExample | src/redis_service.rs:1433-1449 | The one extra command does happen: the bound is tight |
| Replay.ExecuteTextIsExecute | src/redis_service.rs:515-535 | Parsing the rendered text of any command and executing it is executing that command |
| Replay.SequentialReplay | tests/redis_integration.rs:1382-1418 | Replaying in order what a sequence of row writes reported, from the same starting store, ends in the same store |
| Replay.InterleavedReplay | src/redis_service.rs:1412-1449 | The same for every interleaving without outside writers in which each change was reported, taking the reports in commit order |
| Replay.SettledChangesAreReported | src/redis_service.rs:1448-1449 | Without outside writers, every change of the store was reported unless a write was cut off after its commit was sent |
| Replay.AnsweredIsSettled | src/redis_service.rs:1022-1033 | Writes that were answered, by a reply or by the refusal of a closed session, leave nothing of the kind |
| Conservation.KeysConserved | src/redis_service.rs:1323-1347 | Without outside writers, and with no write cut off after its commit was sent, the final number of keys is the initial one plus the inserts that reported success minus the rows the deletes reported |
| Conservation.CountOfPrefix | src/redis_service.rs:1323-1450 | Without outside writers, at every moment of a run the number of keys is the initial one plus what the commands run so far report, canceled handlers included |
| Utf8.DecodeIffEncode | src/redis_service.rs:1389-1393 | Strict decoding gives a text exactly when the bytes are that text's encoding |
| Utf8.EncodingTable | src/redis_service.rs:1389-1393 | The encoding is the table of section 3 of RFC 3629: the length for each range, the lead and trail bits, and the number the low bits spell |
| Utf8.EncodeInjective | src/redis_service.rs:1404 | Different texts have different bytes |
| Utf8.LossyOfEncoded | src/redis_service.rs:1225 | Lossy decoding gives back every valid front unchanged |
| Utf8.LossyPrefixIsShort | src/redis_service.rs:1215-1230 | Lossy decoding of a cut-off encoding never has more scalars than the whole text |
| ShellWords.SplitJoin | src/redis_service.rs:522-535 | Splitting the joined quotes of any words, with empty words, quotes, backslashes, newlines and `#` among them, gives the words back |
| Quoting.AnyQuoting | src/redis_service.rs:155-156 | However a line's words are written, bare, in single quotes, in double quotes with backslashes, with backslashes alone, broken over lines or in any mixture, with any blanks and comments between, it is read as the words meant |
| Quoting.OpenQuote | src/redis_service.rs:2160-2172 | A line that opens a quote and does not close it is refused |
| Quoting.LineEnds | src/redis_service.rs:155-156 | A backslash at the very end stands for itself, and a last comment needs no line break |
| Quoting.PlainBackslash | src/redis_service.rs:155-156 | In double quotes a backslash before an ordinary character stays, before a special one it goes, and a broken line is joined |
| Quoting.QuoteIs | src/redis_service.rs:515-535 | A token stays bare exactly when it is not empty and no character of it means anything to a shell; any other is put in single quotes |
| Decimal.ParsePrint | src/redis_service.rs:244 | Printing and parsing a number gives it back exactly when it fits the type, usize for a page size and i64 for a cursor |
| Numerals.PrintedDigit | src/redis_service.rs:394-403 | The printed number has the right digit in every place and no idle zero in front |
| Numerals.UsizeExactly | src/redis_service.rs:236-249 | A page size is read from its decimal text, with or without zeros and one `+` in front, and from nothing else |
| Numerals.I64Exactly | src/redis_service.rs:1164-1166 | A cursor is read from its decimal text within i64, with or without zeros and one sign in front, and from nothing else |
| Statements.ParseSelect | src/redis_service.rs:176-233 | The clause loop ends on every token list with exactly the recursive specification's answer, errors included |
| Statements.SelectStatement | src/redis_service.rs:394-403 | The built string is the specified statement text |
| StatementLaws.RenderParseRoundTrip | src/redis_service.rs:151-168 | Parsing a rendered command gives back its tokens if and only if they do not begin SELECT `*` and some token shows a non-white character or quotes |
| StatementLaws.RenderInjective | src/redis_service.rs:522-535 | Two token lists with the same rendering are the same |
| StatementForms.StatementMeaning | src/redis_service.rs:151-168 | Blank and unclosed lines are errors; a line whose first two tokens are SELECT, letters in either case, and `*` is read as a query; every other line is a native command, token for token |
| StatementForms.BrowseExactly | src/redis_service.rs:151-233 | From the text on: a line is a browse of a page if and only if it spells one, every keyword in either case |
| StatementForms.SelectTextIs | src/redis_service.rs:394-403 | The text of a browse for each case of offset and limit |
| StatementLaws.SelectGrammar | src/redis_service.rs:170-233 | The parser accepts exactly the documented grammar and, besides, a body followed by `;;` |
| StatementLaws.SelectMeetsGrammar | src/redis_service.rs:170-175 | Unless the last token is `;;` the parser accepts exactly the documented grammar |
| StatementLaws.DoubleTerminatorAccepted | src/redis_service.rs:178-188 | With a last token `;;` nothing is documented and exactly the plain bodies before it are accepted |
| StatementLaws.DoubleTerminatorExample | src/redis_service.rs:206-211 | A concrete line with two terminators that is accepted |
| StatementLaws.ClauseOrder | src/redis_service.rs:212-230 | LIMIT and OFFSET give the same answer in either order, valid or not |
| StatementLaws.SelectTextTokens | src/redis_service.rs:394-403 | The statement text splits into exactly its keyword and number tokens |
| StatementLaws.SelectRoundTrip | src/redis_service.rs:389-403 | For every usize offset and limit, parsing the printed SELECT gives the same browse back |
| StatementLaws.SelectReprintStable | src/redis_service.rs:389-403 | Printing any accepted SELECT and parsing it again gives the same browse |
| Framing.ReadFrame | src/protocol.rs:125-159 | However the reader cuts the input, one frame, the end of input or the oversize error is what the whole stream says, and exactly that much is consumed |
| Framing.ReadAll | src/server.rs:348-363 | Reading to the end gives the frames of splitting the whole stream, and stops unclean exactly at its first oversized line |
| Framing.NextFrameExactly | src/protocol.rs:125-159 | For any stream: the content before its first newline or its end is the frame, unless it has 16 MiB or more, and the end is clean exactly when nothing is left |
| Framing.NextOfWritten | src/protocol.rs:139-141 | A written line is rejected exactly when its content is at least MAX_FRAME bytes |
| Framing.FramesRoundTrip | src/protocol.rs:261-265 | Newline-free payloads written as frames read back as the same list if and only if each is under the limit |
| Framing.PartialLastFrame | src/protocol.rs:132-136 | A last line without its newline is still a frame |
| Display.PreviewString | src/redis_service.rs:1215-1231 | The boundary loop ends at the longest front of the text that fits the preview's bytes |
| Display.FittingIsLongest | src/redis_service.rs:1226-1230 | One more character of the text would pass the preview's bytes |
| Display.GetShowsEditable | src/redis_service.rs:1389-1402 | The cell of a GET shows the stored bytes exactly when the guard would let them be edited |
| Display.BrowseShowsEditable | src/redis_service.rs:1215-1231 | The browse cell shows the stored bytes exactly when the guard would let them be edited and they are at most 1024 |
| Display.EditableNotShownExample | src/redis_service.rs:1394-1401 | A value that may be edited and is not shown in full |
| Display.CapCellExact | src/redis_service.rs:844-852 | A cell is its whole text exactly when that has at most 300 scalars |
| Display.CapCellShows | src/redis_service.rs:844-852 | A cut cell is the first 299 characters and an ellipsis, any other the text itself |
| Paging.SortSorts | src/redis_service.rs:1183 | Sorting gives an ordered permutation |
| Paging.SortedIsUnique | src/redis_service.rs:1183 | An ordered permutation of the keys is unique, so any sort gives this one |
| Paging.FirstDifferenceDecides | src/redis_service.rs:1183 | The order is that of bytes: a prefix comes first, and otherwise the first byte that differs decides |
| Paging.ReadReply | src/redis_service.rs:1157-1177 | Any reply to SCAN gives the cursor and the keys it is read as, malformed ones included |
| Paging.MalformedReplies | src/redis_service.rs:1158-1177 | A reply of another shape has no keys, and a cursor that is not a number ends the scan |
| Paging.BatchItems | src/redis_service.rs:1170-1176 | Of a batch the bulk strings are taken in order and all else is passed over |
| Paging.PartRead | src/redis_service.rs:1157-1177 | A SCAN reply is read as it was meant, keys in order, cursor as text or integer, except that a cursor above i64 reads as 0 |
| Paging.CollectsAllExactly | src/redis_service.rs:1143-1182 | The browse of a whole scan collects a front of its keys, and all of them if and only if no key comes after a cursor above i64 |
| Paging.HugeCursorLoses | src/redis_service.rs:1143-1182 | A scan of one key whose browse finds none |
| Paging.LosingPageIsShort | src/redis_service.rs:1129-1132 | A browse whose scan loses a key shows fewer rows than there are keys, and announces more only for the row cap |
| Paging.BrowsePage | src/redis_service.rs:1146-1195 | The cursor loop gives the rows, key, type and preview, of the requested cut of all scanned keys in order, and their number, or the first failed command's error |
| Paging.RunSelect | src/redis_service.rs:1121-1141 | The result is the specified page: display rows, full rows, `has_more`, truncation and statement |
| Paging.PageIs | src/redis_service.rs:1129-1194 | A page row by row: sorted key number offset + i with its own type and preview, as many as the limit, the keys left and 500 allow, cells capped, `truncated` exactly when it is the 500 that cut it |
| Paging.FetchIs | src/redis_service.rs:1199-1212 | The type cell is the key's own type, and only a string is previewed as one |
| Paging.PageShowsEditable | src/redis_service.rs:1197-1231 | In a browse page over a store at rest, the value cell of a string key is the stored value, to the byte, exactly when the update guard lets it be edited and it is at most 1024 bytes |
| Paging.HasMoreIsExact | src/redis_service.rs:1129-1132 | Saturating arithmetic and the 500-row cap decide `has_more` as unbounded arithmetic would, and the rows are the next ones in order |
| Paging.FollowFrom | src/redis_service.rs:1129-1132 | Following pages by the rows shown while there are more, each page with its own scan, ends and gives everything from the offset on |
| Paging.PagesAreComplete | src/redis_service.rs:1146-1195 | Over a fixed collection of keys that every page scans anew, in whatever order and batches, following the pages from 0 with any limit of at least 1 or none shows one row for each key of the whole scans, in sorted order, when no scan has a key after a cursor above i64 |
| Paging.ZeroLimitStalls | src/redis_service.rs:1185-1188 | With limit 0 a page has no rows and announces more whenever keys remain |
| Paging.PageStatementAsksAgain | src/redis_service.rs:1138 | Executing the statement a page reports asks for that page |
| ServerLaws.ResponsesConserved | src/server.rs:365-477 | In every run and for each id, accepted requests are the responses sent plus the handlers and opens still to answer, until the output closes |
| ServerLaws.OneRequestPerId | src/server.rs:365-427 | A message with an id is one request for it (null for an invalid one); a message without an id never causes a response |
| ServerLaws.AcceptedAreRequests | src/server.rs:365-427 | In every run the requests accepted are exactly the messages with an id delivered while serving, in order |
| ServerLaws.SessionLifecycle | src/server.rs:545-579 | In every run session ids are issued 1, 2, 3 and so on, never twice; live ones are below the next; nothing is opened or spawned before the handshake |
| ServerLaws.HandshakeGate | src/server.rs:479-515 | The handshake is passed by a request to initialize with version 1 while serving, and by no other step of any task |
| ServerLaws.ResultsAtOnce | src/server.rs:479-543 | The handshake and a well-formed target form are answered with a result at once |
| ServerLaws.NotificationsIgnored | src/server.rs:418-424 | A message without an id other than a cancel does nothing |
| ServerLaws.OpenOpens | src/server.rs:545-579 | An open answered with a session id has made that session live, one that was not there; a failed factory makes none and is answered with its own kind and code |
| ServerLaws.SpawnSpawns | src/server.rs:657-691 | A session method on a live session starts one handler for it, registered under its id, unanswered yet |
| ServerLaws.CloseCloses | src/server.rs:595-602 | A close of a live session removes that session and no other, and is answered with the null result |
| ServerLaws.ClosedThenRefused | src/server.rs:595-655 | After it, in every continuation, a second close and every session method on it are answered -32602 and run nothing |
| ServerLaws.RefusalChangesNothing | src/server.rs:365-477 | When the frame loop answers a message with an error, sessions, registry, tokens, handlers and handshake are as before |
| ServerLaws.RefusalCodes | src/server.rs:375-655 | A request gets -32600, -32601 or -32602 from the frame loop if and only if it breaks a rule of that stage: envelope and handshake, known method, parameters and live session |
| ServerLaws.ClosedForGood | src/server.rs:595-597 | A session once closed stays closed in every continuation |
| ServerLaws.ClosedSessionRefused | src/server.rs:603-655 | Every later close or session request naming it is answered -32602 and runs nothing |
| CancelLaws.RegistryKept | src/server.rs:663-690 | While no key returns before its entry is gone, every unanswered request is in the registry under its own key with its own token |
| CancelLaws.CleanExactly | src/server.rs:663-690 | A spawn leaves every unanswered request within reach of a cancel, now and after any removal, if and only if its key is held by no request still in the registry |
| CancelLaws.UniqueKeysAreClean | src/server.rs:302-327 | A host that never reuses an id meets that condition |
| CancelLaws.KeyCollision | src/server.rs:663-666 | Two different wire ids share a key exactly when they are 2^64 apart |
| CancelLaws.CancelIsExact | src/server.rs:312-316 | A cancel sets the token of the request in flight under its id and of no other; an unknown id changes nothing |
| CancelLaws.CanceledAnswer | src/server.rs:676-683 | Once the token is set before the final check the answer is -32800, whatever the handler returns and whatever else happens |
| CancelLaws.CancelReaches | src/server.rs:517-524 | In a run without early key reuse, a cancel before a handler's final check makes its response -32800, and that response is the one sent |
| CancelLaws.OwnIdIsKey | src/server.rs:663-666 | The key of an unsigned id is the id itself, of a negative one its value in two's complement |
| CancelLaws.CancelByOwnId | src/server.rs:517-524 | So a cancel naming the request's own id reaches it |
| CancelLaws.OutcomeIsAnswered | src/server.rs:676-688 | A handler that finishes uncanceled is answered, in every continuation, with a result for a success and with the error's own kind and code, or -32603, for a failure; while the output is open that is the response sent |
| CancelLaws.ReusedIdLosesCancel | src/server.rs:688-689 | A run in which a reused id makes a cancel miss its request |
| ShutdownLaws.WrittenIsPrefix | src/server.rs:880-890 | In every run the frames written are an in-order front of the frames sent |
| ShutdownLaws.ShutdownGate | src/server.rs:896-901 | After the output is closed at most the one frame that had passed the writer's check is still written, whatever handlers do |
| ShutdownLaws.ShutdownCloses | src/server.rs:896-901 | In every run the output is closed exactly from the shutdown on |
| ShutdownLaws.ShutdownSilences | src/server.rs:896-901 | After the shutdown's three steps nothing is ever written |
| ShutdownLaws.ClosedTakesNoMore | src/server.rs:289-299 | A closed output takes a frame only from a handler that had already passed its check |
| ShutdownLaws.ShutdownCancelsAll | src/server.rs:318-322 | The shutdown sets the token of every request in the registry |
| FrameLoop.PerkServer.HandleInitialize | src/server.rs:479-515 | The whole new server state is that of the machine's step, error answers included |
| FrameLoop.PerkServer.HandleOpen | src/server.rs:545-579 | Likewise for an open and its factory's outcome |
| FrameLoop.PerkServer.HandleClose | src/server.rs:581-613 | Likewise for a close, known session or not |
| FrameLoop.PerkServer.SpawnSessionMethod | src/server.rs:619-691 | Likewise for the spawn of a session method and its refusals |
| FrameLoop.PerkServer.HandleMessage | src/server.rs:365-477 | One message is exactly the machine's step for it; it ends the loop exactly when it is not an object |
| FrameLoop.PerkServer.AnswerRequest | src/server.rs:675-690 | The tail of a handler is the machine's four steps in a row |
| FrameLoop.PerkServer.Serve | src/server.rs:348-363 | The frame loop is the machine's steps over the messages in order |
| FrameLoop.PerkServer.Shutdown | src/server.rs:896-901 | Cancel all, close the output, stop the writer |
| FrameLoop.RunTaskIs | src/server.rs:675-690 | Uninterrupted, those four steps are one answer, if the output is open, and one registry entry less |
| FrameLoop.FrameLoopUndisturbed | src/server.rs:615-618 | However handlers and writer interleave, everything the frame loop decides by and decides is what it would be alone |
| FrameLoop.ServeAmongHandlers | src/server.rs:348-363 | So the loop's verified outcome holds in every run over the same messages |

## Left out

- RedisStore.ScriptIsCompareAndSet: the Lua source is modelled by its effect; its text is a parameter, and how the client loads it (EVALSHA, then SCRIPT LOAD) is taken as one atomic step.
- ShellWords.SplitJoin: the shell-words crate is not part of the repository; its state machine is written from its documented rules and the repository's own cases (src/redis_service.rs:2142-2172, 2704-2753).
- Paging.BrowsePage: what a row's own TYPE and preview commands find is a parameter, any function of the key; previews of hashes, lists, sets and sorted sets are not modelled. Duplicates in SCAN batches are kept as the code keeps them, and the sort is the library's, modelled on values.
- Closing.ClosedSends: one sent command stands for the script's whole exchange on the held connection; when Redis does not know the script, the client library sends EVALSHA, SCRIPT LOAD and EVALSHA again.
- JSON and parameter decoding, advertised capabilities and result payloads: messages arrive decoded, with what each method would decode from the same parameters.
- FrameLoop.PerkServer.Serve: no handler runs between two messages inside the method; FrameLoop.ServeAmongHandlers carries its result over to every interleaving.
- FrameLoop.PerkServer.HandleOpen: the session id counter is unbounded; overflow of a u64 after 2^64 opens is not modelled.
- ShutdownLaws.WrittenIsPrefix: a frame is written whole; partial writes of one frame are not modelled.
- Liveness: atomics and mutexes are sequentially consistent steps, and no fairness is assumed.
- Replay.SettledChangesAreReported: a write that completed and whose answer is then replaced by -32800 is read as one dropped just before its reply (CutOff.LateCancelIsADrop), so it counts as cut off after its commit was sent.
- Key expiry, eviction, out-of-memory and permission errors of Redis, and every command a row write does not send.
- Error message texts, except the error replies of Redis that decide an error kind.
- Statement metadata and sensitivity tables, WRONGTYPE guidance, INFO views, schema stubs, collection previews and connection URLs: table lookups or library calls with little of their own to prove.
- MemoryService's statement execution and browsing, which serve transport fixtures only.
