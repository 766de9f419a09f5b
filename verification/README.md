# uxc: a verified model of its hard parts

uxc is a command-line client for many protocols, backed by a long-running daemon. This project
models the parts of it whose correctness is not obvious from reading one function, and proves what
they are for.

- `Arguments`, `ArgumentPaths`, `ArgumentRoundTrip`: the argument paths of the command line. `a.b[0].c:=json` is
  scanned into segments and inserted into a JSON tree. A JSON object written as one assignment per
  leaf, in any order, is rebuilt exactly. Which paths are refused, and for what, is given for every text.
- `Coercion`: making a JSON value fit a schema. What comes out meets the schema; without unions a
  value that meets it is left alone; with unions the exact condition is given.
- `CoercionSchema`: what comes out of a value by the words of the schema alone, type by type.
- `CoercionUnions`: which unions leave their own results alone, as conditions on the schema.
- `CoercionForms`: the textual forms of a value that coercion understands, and arguments from the
  command line to the operation.
- `SessionRegistry`: the daemon's maps of MCP stdio sessions, snapshots and exclusive keys, one
  atomic step per manager call. No run lets two live sessions share a key.
- `ExclusiveLocks`: the acquisition of key locks and of the init lock, as tasks that interleave with
  each other, with cancellation and with the collection of the lock table.
- `Utf8`, `Streams`: the incremental decoders for NDJSON and SSE bodies, against a specification on
  the whole body, for every division into chunks.
- `StreamAcceptance`, `StreamCuttings`, `EventRoundTrip`: when a stream meets no error, when its
  events depend on the chunks, and events from writer to reader.
- `Frames`, `FrameForms`: Content-Length frames on the daemon's socket, with both readers, and headers
  that other programs may write.
- `PollLoop`: the checkpoint of a polled source, in memory and on disk, under failures and crashes.
- `Fanout`: the bounded notification history, refining the log of everything received.
- `EmailLimiter`: the permits of email body reads, as interleaved tasks with cancellation.
- `LogRotation`: the daemon's log files, with any file operation allowed to fail.
- `Mime`, `HeaderParams`, `MimeWalk`: the multipart splitter (section 5.1.1 of RFC 2046), header
  parameters, and the walk that numbers sections (section 6.4.5 of RFC 3501).
- `HeaderForms`, `MimeTrees`: header fields and whole messages as a sender may write them, and what the
  walk finds in them.
- `Smtp`: building a message and dot-stuffing it (section 4.5.2 of RFC 5321).
- `MailRoundTrip`: a message that was built, as the program's own MIME reader sees it.
- `TextLines`: texts put together from lines.
- `Text`, `Json`, `Wrappers`: what the Rust sources take from their libraries.

Where the source changes state step by step, the model does too: a class or a loop whose methods
are proved equal to a function of the old state, and the laws are lemmas about that function.
`dafny verify dfyconfig.toml` checks everything.

Where the code does not keep what one would expect of it, the model keeps the code's behaviour, gives
an input that shows it, and states the exact condition:

- A union schema may change its own result when coercion is applied again
  (`Coercion.UnionNotIdempotent`, `CoercionUnions.NumberThenStringUnstable`). For two branches and
  for scalar ones, the schemas that do not are given exactly (`CoercionUnions.TwoBranchesIff`,
  `StringFirstIff`, `StringSecondIff`).
- `path=text` is misread when the text holds `:=` (`ArgumentRoundTrip.TextMisread`,
  `ArgumentRoundTrip.PlainAssignmentIff`).
- An SSE body with mixed line endings is cut differently when it arrives in other chunks
  (`Streams.MixedEndingsMatter`, `Streams.SsePiecesIff`), and may emit other events
  (`StreamCuttings.ChunksNeverMatterIff`). An error takes back the values of its own chunk only, so
  what is recorded before it depends on the chunks (`StreamCuttings.ErrorTakesBackItsChunk`).
- Dot-stuffing does not look at the very first character of a message (`Smtp.LeadingDotLost`,
  `Smtp.TransparentIff`); the messages that are built never begin with a dot.
- Two sources with NULs in their names may share a semaphore (`EmailLimiter.TwoSourcesShare`,
  `EmailLimiter.SameSemaphoreIff`).
- A message identifier with a backslash, or with a semicolon outside quotes, makes a boundary that is
  not read back (`MailRoundTrip.BackslashLosesTexts`, `MailRoundTrip.TextsReadBackIff`).
- A part whose text holds doubled CRs before its line breaks is divided in the wrong place by the
  header splitter (`MailRoundTrip.DoubledCrsDivideWrongly`, `MailRoundTrip.PartDividedIff`).
- A part without header fields, which section 5.1 of RFC 2046 allows, is not read back: the header
  splitter looks for a blank line after the one it begins with (`MimeTrees.HeaderlessPartIff`).
- A reader of the notification history that falls more than 256 behind misses notifications without
  being told (`Fanout.FallingBehindLoses`, `Fanout.ReaderSeesAllIff`).

## Model

| member | source | states |
|---|---|---|
| Arguments.ClosingBracket | src/cli.rs:209-220 | The inner loop stops at the first `]` after the bracket, or at the end when there is none. |
| Arguments.ParseSegments | src/cli.rs:179-273 | The index-driven loop gives exactly the segments, or the error, of the scanner's specification, for every text. |
| Arguments.InsertSegments | src/cli.rs:275-321 | Inserting gives the tree and the error of the specification `Put`, padding arrays with nulls, also when it stops on a conflict half way. |
| Arguments.ArgumentMap.InsertArgumentPath | src/cli.rs:168-337 | The root map afterwards, and the error, are those of inserting below the root; the first segment must be a key. |
| Arguments.ParseArguments | src/cli.rs:120-148 | A JSON payload must be an object and is taken as it is; otherwise all assignments are applied in turn and the first error ends the parse. |
| Arguments.PutGet | src/cli.rs:275-321 | After a successful insertion at any path of any tree, a lookup at that path finds the inserted value. |
| Arguments.PutFrame | src/cli.rs:275-321 | At every path that is neither a prefix nor an extension of the insertion's, nothing changes, except that an array position that was missing may become null. |
| Arguments.PutCommutes | src/cli.rs:275-336 | Two insertions at incomparable paths fail in both orders or build the same tree in both. |
| Arguments.ConflictingKinds | src/cli.rs:285-320 | A key and an index at the same place of any tree never both succeed. |
| ArgumentRoundTrip.SegmentsOfRendered | src/cli.rs:179-273 | A path written out is scanned back to itself: names without dots, brackets and equals signs, indices up to 10,000. |
| ArgumentRoundTrip.AssignmentOfText | src/cli.rs:150-166 | `path:=json` is divided where the path ends, whatever the JSON text holds; asked of the JSON library is only that it reads back what it prints for this value. |
| ArgumentRoundTrip.PlainAssignmentIff | src/cli.rs:150-166 | `path=text` carries exactly that text as a string if and only if the text holds no `:=` and the path does not end in a colon. |
| ArgumentRoundTrip.TextMisread | src/cli.rs:150-166 | `a=x:=1` is not read as the text `x:=1` for `a`, but as JSON for the key `a=x`. |
| ArgumentRoundTrip.LeavesApart | src/cli.rs:275-336 | Two different leaves of a value stand at incomparable paths, so that their assignments cannot disturb each other. |
| ArgumentRoundTrip.PutPartial | src/cli.rs:275-321 | Inserting what an object holds at a path into a part of that object always succeeds and gives a part of it again. |
| ArgumentRoundTrip.PartialWithAllLeaves | src/cli.rs:275-321 | A part of a value that holds all its leaves is the whole value. |
| ArgumentRoundTrip.RebuildFromLeaves | src/cli.rs:120-337 | Writing an object as one `path:=json` assignment per leaf, in any order, and parsing the assignments gives exactly that object; every object with plain names and arrays of at most 10,001 items, whose leaves the JSON library reads back from their printed texts. |
| ArgumentRoundTrip.ListingExists | src/cli.rs:120-337 | Every object has a finite list of all its leaves. |
| ArgumentPaths.TokensExist | src/cli.rs:179-273 | Every text is made of names, dots and brackets, with at most one bracket at its end that is never closed; so the rows below are about every path text. |
| ArgumentPaths.PathMeans | src/cli.rs:179-273 | Every path text is read as the steps of its names and brackets, or refused for the first thing wrong from the left: an empty segment, an index that is no number or above 10000, a bracket that is not closed; the empty text for being empty. |
| ArgumentPaths.RightIff | src/cli.rs:179-273 | Nothing is wrong with a path if and only if no dot stands first, last or after another dot, every bracket is closed and holds a number of at most 10000, and there is something at all; a name may follow a bracket without a dot. |
| ArgumentPaths.RootIndexRefused | src/cli.rs:323-337 | A well-formed path that begins with a bracket is refused, and the root map stays as it was. |
| ArgumentPaths.TypedAssignment | src/cli.rs:150-160 | What follows the first `:=` must be JSON, and is the value for all that stands before it. |
| ArgumentPaths.PlainAssignment | src/cli.rs:162-166 | Without a `:=`, what follows the first `=` is taken as a string, character by character. |
| ArgumentPaths.AssignConcat | src/cli.rs:138-146 | Assignments are made in turn on top of each other; after an error nothing that follows matters. |
| ArgumentPaths.SilentArgument | src/cli.rs:138-166 | An argument without `=` can be left out anywhere in the list. |
| ArgumentPaths.FirstErrorEnds | src/cli.rs:138-146 | The first argument that is refused gives the error of the whole list, whatever follows it. |
| Coercion.CoerceValue | src/arg_coercion.rs:198-252 | The recursive rewriter equals the specification `Coerce` for every value and schema; it terminates on the schema alone, although a text value may be parsed into any tree. |
| Coercion.CoerceUnion | src/arg_coercion.rs:254-283 | The result of the first branch that accepts, none when no branch does. |
| Coercion.CoerceObject | src/arg_coercion.rs:285-371 | Text is parsed first; required keys, unknown fields and every declared property are checked as specified. |
| Coercion.CoerceEachField | src/arg_coercion.rs:331-368 | Whatever order the fields are visited in, the result is the field-by-field coercion, and one failing field fails the whole. |
| Coercion.CoerceArray | src/arg_coercion.rs:373-425 | Item by item, with the text form parsed first; one failing item fails the whole. |
| Coercion.ValidateConstAndEnum | src/arg_coercion.rs:524-562 | Accepts exactly a value equal to the const and among the enum candidates, or matching one by its text. |
| Coercion.CoerceSound | src/arg_coercion.rs:198-610 | Every successful coercion yields a value that meets the schema as the code reads it: types, properties, items, required keys when enforced, unknown fields when strict, const, enum, and at least one union branch. |
| Coercion.CoerceIdentity | src/arg_coercion.rs:198-562 | Without unions, a value that already meets the schema is returned unchanged. |
| Coercion.CoerceFixedPoints | src/arg_coercion.rs:198-562 | Without unions, coercion leaves a value alone if and only if the value meets the schema, and coercing a result again returns it unchanged. |
| Coercion.CoerceKeepsShape | src/arg_coercion.rs:198-425 | Whatever the schema, unions included: an object that comes out has the keys of the object that went in, natively or as text, and an array has the length of the array that went in. |
| Coercion.MatchingBranch | src/arg_coercion.rs:254-283 | The branch a union takes accepts the value, and every earlier branch refuses it. |
| Coercion.UnionIdempotentIff | src/arg_coercion.rs:254-283 | Of a result of a union over union-free branches: it is left alone if and only if the first branch that accepts it is one whose schema it meets. The conditions on the schema are the rows of `CoercionUnions`. |
| Coercion.UnionNotIdempotent | src/arg_coercion.rs:254-283 | `oneOf [{type: string, const: "5"}, {type: integer}]` turns "05" into 5 and then 5 into "5". |
| CoercionSchema.PassesIs | src/arg_coercion.rs:524-597 | Const and enum by the text of the schema: the result is the const; it is in the enum, or is a text that stands for one of its members (true, false and null in any case, a 64-bit integer in decimal, a floating-point number, a string as it is). |
| CoercionSchema.BooleanSchema | src/arg_coercion.rs:198-252 | Of `"type": "boolean"`: a boolean comes back as it is, the texts true and false in any case as booleans, nothing else, subject to const and enum. |
| CoercionSchema.NullSchema | src/arg_coercion.rs:198-252 | Of `"type": "null"`: null and its text in any case, nothing else. |
| CoercionSchema.IntegerSchema | src/arg_coercion.rs:198-252 | Of `"type": "integer"`: an integer as it is, a text that is a signed 64-bit integer as that integer, nothing else. |
| CoercionSchema.NumberSchema | src/arg_coercion.rs:198-252 | Of `"type": "number"`: a number as it is, a text that is a finite number as that floating-point number, nothing else. |
| CoercionSchema.StringSchema | src/arg_coercion.rs:198-252 | Of `"type": "string"`: a string as it is; numbers, booleans and null as their texts; no object or array. |
| CoercionSchema.AnySchema | src/arg_coercion.rs:599-610 | A type of another name, or no string `type` and neither `properties` nor `items`, leaves every value as it is. |
| CoercionSchema.ObjectSchema | src/arg_coercion.rs:285-371 | Of `"type": "object"`, or of no string `type` and some `properties`: an object, native or as JSON text, becomes exactly the object with the same keys whose declared fields are coerced by their own schemas and whose other fields are kept, or refused when strict; required keys must be there when enforced. |
| CoercionSchema.ObjectSchemaRefuses | src/arg_coercion.rs:285-312 | Such a schema takes nothing but objects and texts of objects. |
| CoercionSchema.ArraySchema | src/arg_coercion.rs:373-425 | Of `"type": "array"`, or of no string `type`, no `properties` and some `items`: an array, native or as JSON text, becomes exactly the array of the same length whose items are coerced by `items`, or kept if there is none. |
| CoercionSchema.ArraySchemaRefuses | src/arg_coercion.rs:373-400 | Such a schema takes nothing but arrays and texts of arrays. |
| CoercionSchema.UnionSchema | src/arg_coercion.rs:205-283 | `oneOf`, or else `anyOf`, gives a result if and only if the first branch that accepts the value gives it. |
| CoercionUnions.FirstBranchFixed | src/arg_coercion.rs:254-283 | A value that the first branch accepts is fixed from then on. |
| CoercionUnions.ManyBranchesIff | src/arg_coercion.rs:254-283 | A union of any number of union-free branches leaves all its results alone, for every value, if and only if no result that a branch left to a later one is taken up, other than as it is, by the first branch that accepts it. |
| CoercionUnions.SettledUnionStable | src/arg_coercion.rs:254-283 | A union of any number of branches is stable when every branch is settled with every later one. |
| CoercionUnions.TwoBranchesIff | src/arg_coercion.rs:254-283 | A union of two union-free branches leaves all its results alone, for every value, if and only if the branches are settled: the earlier one never takes up, other than as it is, what it had left to the later one. |
| CoercionUnions.LikeBranchesSettled | src/arg_coercion.rs:427-562 | Two typed branches, two string branches and untyped branches are always settled, whatever their const and enum. |
| CoercionUnions.StringFirstIff | src/arg_coercion.rs:427-562 | A string branch before a typed branch is settled, for all values, if and only if of every value of the typed branch whose printed text it admits, it admits every text that is read as that value. |
| CoercionUnions.StringSecondIff | src/arg_coercion.rs:427-562 | A typed branch (integer, number, boolean, null) before a string branch is settled, for all values, if and only if it takes as it is every scalar that it would read once it is printed. |
| CoercionUnions.ScalarUnionStable | src/arg_coercion.rs:254-283 | Any number of scalar branches: the union leaves all its results alone when each string branch beside a typed one meets its condition of the two rows above; all other pairs need none. |
| CoercionUnions.ScalarUnionStableIff | src/arg_coercion.rs:254-283 | Exactly: a union of any number of scalar branches leaves all its results alone, for every value, if and only if no text that a typed branch is the first to read has its value taken, printed, by an earlier string branch first, and no scalar that a string branch is the first to take is read, once printed, by an earlier typed branch first. |
| CoercionUnions.FreeStringFirst | src/arg_coercion.rs:254-283 | A string branch without const and enum unsettles no typed branch after it. |
| CoercionUnions.FreeNumberFirst | src/arg_coercion.rs:254-283 | A number branch without const and enum unsettles no string branch after it. |
| CoercionUnions.StringConstThenIntegerIff | src/arg_coercion.rs:254-283 | `oneOf [{string, const c}, {integer, ...}]` leaves every result alone if and only if `c` is not the printed text of a 64-bit integer that the second branch's const and enum admit. |
| CoercionUnions.StringEnumThenIntegerIff | src/arg_coercion.rs:254-283 | `oneOf [{string, enum [...]}, {integer, ...}]` leaves every result alone if and only if every integer that the second branch admits and whose printed text the enum admits is in the enum as a number, or all its texts are read as floating-point numbers of the enum; an enum without such numbers never meets the latter. |
| CoercionUnions.NumberConstThenStringIff | src/arg_coercion.rs:254-283 | `oneOf [{number, const f}, {string}]` leaves every result alone if and only if `f` itself is the only scalar whose printed text is read as `f`. |
| CoercionUnions.NumberThenStringUnstable | src/arg_coercion.rs:254-283 | `oneOf [{type: number, const: 5.0}, {type: string}]` turns 5 into "5" and then "5" into 5.0. |
| CoercionForms.WrittenFormsRead | src/arg_coercion.rs:198-522 | A value that meets a union-free schema may be written natively or in any text the code reads as it, in any mixture at any depth, and coercion gives exactly that value. |
| CoercionForms.CoerceIff | src/arg_coercion.rs:198-522 | Exactly which inputs give which value, without unions: `raw` is coerced to `v` if and only if `v` meets the schema and `raw` is a form of `v`, such as "+5" and "05" for 5, any spelling of `true` or `null`, or any JSON text of a tree, at any depth. |
| CoercionForms.ShownIntParsed | src/arg_coercion.rs:436-444 | Every signed 64-bit integer is read back from its decimal text. |
| CoercionForms.ArgumentsArrive | src/arg_coercion.rs:57-78 | From the command line to the operation: arguments that meet a schema, in any mixture of forms, given as one assignment per leaf in any order, arrive as they are. |
| SessionRegistry.NormalizeExclusiveKeys | src/daemon.rs:9012-9024 | The result is strictly ascending, and holds exactly the expansions of the requested keys that are not blank once trimmed. |
| SessionRegistry.McpSessionManager.CleanupStdioExclusiveForSessionKey | src/daemon.rs:2354-2370 | The session's key list is gone, and of the owner entries for its keys exactly those that still name it. |
| SessionRegistry.McpSessionManager.RegisterStdioExclusiveKeys | src/daemon.rs:2333-2352 | Earlier keys are cleaned up and the new list and owner entries stand in all maps; an empty list changes nothing. |
| SessionRegistry.McpSessionManager.EvictStdioExclusiveConflicts | src/daemon.rs:2237-2331 | Rival owners are evicted in order from every map until one is busy or will not exit, which ends the call; owners without a session are forgotten. |
| SessionRegistry.McpSessionManager.GetOrCreateStdio | src/daemon.rs:1853-2161 | Evict, then reuse a live session or replace an exited one, then enter the new session and register its keys, with every refusal. |
| SessionRegistry.McpSessionManager.KillStdioSession | src/daemon.rs:2543-2605 | A session that exits is gone from every map; one that does not exit stays. |
| SessionRegistry.McpSessionManager.CleanupIdle | src/daemon.rs:1728-1801 | Looks at every session, with the source's branches, and reaps exactly those that are not busy, whose time to live is not zero and was over before now, and whose policy is safe idle reaping, or that declare no contract, or that are stateful and whose last snapshot allows it; they are gone from every map. |
| SessionRegistry.IdleReaped | src/daemon.rs:1728-1801 | From a consistent registry idle cleanup leaves the registry without the due sessions and otherwise as it was. |
| SessionRegistry.AfterEvictionIs | src/daemon.rs:2237-2331 | From a consistent registry only rivals are evicted; eviction succeeds if and only if no rival is busy or unkillable, and then all rivals are gone. |
| SessionRegistry.GetOrCreateEffect | src/daemon.rs:1853-2161 | The registry stays consistent; a call is refused, reuses or creates exactly under the stated conditions; on success the session is there, may be reused and holds exactly the requested keys, and only previous owners of them are gone; every other session keeps its state and keys, also after a refusal. |
| SessionRegistry.KilledConsistent | src/daemon.rs:2543-2605 | A session that exits is gone from every map and nothing else changes; one that does not exit is only marked unusable; the registry stays consistent. |
| SessionRegistry.FailedKillBlocks | src/daemon.rs:2074-2082 | A session that did not exit when killed is refused to every later call while it is there. |
| SessionRegistry.GrantedThenReused | src/daemon.rs:1853-2161 | A session that was granted is reused by the next call for it unless it has exited or a rival of that call stays; with the same keys there is no rival. |
| SessionRegistry.RunConsistent | src/daemon.rs:1728-2370 | Over every sequence of calls, failed ones included: a key maps to owner s exactly when it is in s's key list, holders of key lists are live, and snapshots and sessions have the same keys. |
| SessionRegistry.NoSharedKeys | src/daemon.rs:2237-2370 | After every sequence of calls, no two live sessions share an exclusive key. |
| ExclusiveLocks.StepKeeps | src/daemon.rs:2212-2235 | Every step of every task, cancellation and collection keep the invariant that held locks are the ones the table has for what their task needs. |
| ExclusiveLocks.CollectKeeps | src/daemon.rs:1803-1818 | Collecting entries that nobody refers to never drops a lock that is held or waited for. |
| ExclusiveLocks.MutualExclusion | src/daemon.rs:1900-2013 | In every reachable state at most one task is inside for a key, and at most one for a session, however the table was collected in between. |
| ExclusiveLocks.TaskOfArrival | src/daemon.rs:2212-2235 | In every run a task needs the locks of exactly the keys that its arrival asked for, and the init lock of exactly that session. |
| ExclusiveLocks.RequestsExclude | src/daemon.rs:1876-2013 | In every run: of two requests that arrived for one session, or with an exclusive key in common, at most one is past its locks at a time, checking, creating or handing out a session. |
| ExclusiveLocks.LiveIff | src/daemon.rs:1914-2013 | In every run a session is live if and only if some task has created it and nothing has ended it since. |
| ExclusiveLocks.CreatesIff | src/daemon.rs:1914-1935 | A task past its locks creates a session if and only if none is live or the live one cannot be reused. |
| ExclusiveLocks.NeverCreatedTwice | src/daemon.rs:1900-2013 | Between two creations of one session something has ended it: cold requests that arrive together start one process. |
| ExclusiveLocks.InsertNeverOverwrites | src/daemon.rs:2009-2013 | The insertion that ends a creation never finds an entry for its session. |
| ExclusiveLocks.NoDeadlock | src/daemon.rs:2212-2235 | With any number of tasks and any key sets, while some task is unfinished some unfinished task can take its next step. |
| ExclusiveLocks.RunEnds | src/daemon.rs:2212-2235 | Without new arrivals the tasks together take at most a fixed number of steps, whatever is collected and whatever sessions end in between: two for each lock and three more. |
| ExclusiveLocks.StuckMeansDone | src/daemon.rs:2212-2235 | A run in which no task can go on has finished every task; no lock is held or waited for, so the whole table can be collected. |
| Utf8.DecodeExact | src/daemon.rs:5462-5486 | Decoded text plus held bytes are the bytes received, and held bytes are a proper prefix of one character's encoding, at most three bytes. |
| Utf8.UnfinishedIs | src/daemon.rs:5472-5484 | Bytes are held back if and only if they are a proper prefix of one character's encoding (section 4 of RFC 3629). |
| Utf8.DecodeSplit | src/daemon.rs:5462-5486 | Decoding may stop anywhere and go on with the held bytes; text, rest and errors are those of decoding everything at once. |
| Utf8.DecodeEncoded | src/daemon.rs:5462-5486 | The encoding of every text decodes to that text, followed by the decoding of what comes after. |
| Utf8.EncodingIs | src/daemon.rs:5462-5486 | The bytes of a character hold its number, in the fewest bytes that do (section 3 of RFC 3629). |
| Streams.StreamReader.DecodeUtf8Prefix | src/daemon.rs:5462-5486 | Takes the longest decodable prefix off the raw bytes, or refuses invalid bytes and leaves them. |
| Streams.StreamReader.DrainEvents | src/daemon.rs:5416-5460 | The `while let` loop takes exactly the complete pieces off the buffer and returns the values they carry; the size limit applies to what is left. At the first piece that is not JSON it stops, with that piece and all before it gone from the buffer. |
| Streams.StreamReader.EventData | src/daemon.rs:5421-5437 | The loop over an event's lines gives its joined data lines, and nothing for comments, empty events and `[DONE]`; what that means for a written event is the row of EventRoundTrip.PieceCarries. |
| Streams.StreamReader.Feed | src/daemon.rs:5626-5646 | One chunk: buffers and values are those of the specification, with every error in the source's order. |
| Streams.StreamReader.ReadStream | src/daemon.rs:5608-5648 | The loop over a body's chunks records the values of each chunk before it reads the next; an error ends it and takes back the values of its own chunk only. |
| Streams.ChunkingIrrelevant | src/daemon.rs:5446-5486 | For every division of a body into byte chunks, an error-free run emits exactly the values of the complete pieces of the whole decoded body, in order: every NDJSON body, and every SSE body that is uniform; text so far plus held bytes are the bytes received. |
| Streams.NdjsonLines | src/daemon.rs:5446-5460 | The pieces of an NDJSON text are its newline-terminated lines: put together again they are the text, and none holds a newline. |
| Streams.SplitInTwo | src/daemon.rs:5409-5444 | Cutting a uniform text may stop anywhere and go on later with the unfinished piece. |
| Streams.OneConventionUniform | src/daemon.rs:5409-5414 | Text with no CR at all, or with every LF preceded by CR, is uniform. |
| Streams.SsePiecesIff | src/daemon.rs:5409-5444 | An SSE text is cut into the same pieces wherever it is divided in two if and only if, as it is cut up, no LF blank line stands before a CRLF one. What is emitted, over all chunkings, is the row of `StreamCuttings`. |
| Streams.MixedEndingsMatter | src/daemon.rs:5409-5414 | Two events, the first ended by LF LF and the second by CRLF CRLF, are one event when they arrive at once and two when they arrive apart. |
| StreamCuttings.ChunksNeverMatterIff | src/daemon.rs:5409-5486 | Of any NDJSON or SSE body of at most 1 MiB, every division into byte chunks records the same values and ends in the same error, if any, as the whole at once, if and only if: without an error, whatever is cut first carries the same, and so on; with a piece that is not JSON, such a piece comes up in every cutting and no value before it; with invalid UTF-8, nothing stands before it in any cutting. |
| StreamCuttings.ErrorTakesBackItsChunk | src/daemon.rs:5626-5646 | Of the lines `1` and `x`, arriving at once, nothing is recorded; arriving apart, 1 is; both end in an error. |
| StreamCuttings.UniformIndifferent | src/daemon.rs:5409-5444 | A text in which no LF blank line stands before a CRLF one as it is cut up, and every NDJSON text, carries the same whatever is cut first. |
| StreamAcceptance.AcceptedIff | src/daemon.rs:5398-5486 | A run over a body of at most 1 MiB, uniform if it is SSE, meets no error if and only if the body is UTF-8, but for an unfinished character at its end, and all complete pieces are JSON, whatever its chunks. |
| StreamAcceptance.RunAcceptedIff | src/daemon.rs:5394-5486 | Of a body of any size, uniform if it is SSE, a division into chunks meets no error if and only if the body is so and each chunk with the bytes held back before it, and each unfinished piece after it, is at most 1 MiB; such a body is refused for nothing but these limits. |
| EventRoundTrip.EventsArrive | src/daemon.rs:5416-5486 | NDJSON lines with any space around them, and SSE events of any number of lines, comments, other fields, `[DONE]` and values over several data lines among them, LF or CRLF throughout and sent in any chunks, arrive as exactly the values they carry and leave both buffers empty. |
| EventRoundTrip.SmallBodyArrives | src/daemon.rs:5398-5486 | Of a body of at most 1 MiB they do arrive, if and only if every text that is carried is JSON; otherwise the stream ends in an error. |
| EventRoundTrip.PieceCarries | src/daemon.rs:5416-5460 | What one line or event carries, by its fields alone: the texts of its data lines joined by LF, without the space before each; nothing if there is no data or the data is `[DONE]`. |
| EventRoundTrip.ValuesArrive | src/daemon.rs:5398-5486 | Values written one to a line or event arrive as the same values; of the JSON library is asked only that it prints them on one line and reads them back. |
| PollLoop.ManagedSourceStore.AppendEventsAndStorePollCheckpoint | src/daemon.rs:11756-11828 | The store's transaction: both the events and the checkpoint, or neither. |
| PollLoop.RunManagedSourcePoll | src/daemon.rs:3484-3740 | The loop leaves the disk that its specification gives for the same answers from outside, wherever it ends; the clock is read before a request and again after a response. |
| PollLoop.RoundKeeps | src/daemon.rs:3484-3740 | Every round, failed fetches, 304s, failed writes and crashes included, keeps the disk a replay of the committed responses. |
| PollLoop.RunsReplay | src/daemon.rs:3484-3740 | Over any sequence of runs that end anywhere and restart from disk, the durable stream is what one undisturbed loop would have written for the committed responses alone: each event once and in order. |
| PollLoop.StreamIs | src/daemon.rs:3484-3740 | After any runs, the durable position and stream are what processing the committed responses makes of them, each once, in order, and from the position that the one before it left; said with the response processor alone. |
| PollLoop.RunTakes | src/daemon.rs:3484-3740 | A run takes the responses of its rounds, from the first on, until a write is refused, the run ends before it learns of a write, or a response cannot be processed; position and stream are those of the responses taken. |
| PollLoop.RunsTake | src/daemon.rs:3484-3740 | Across restarts the stream is what processing makes of the responses so taken, run after run: none lost before the end of its run, none twice. |
| PollLoop.RoundIs | src/daemon.rs:3518-3620 | One round by cases: a failed fetch changes nothing; a 304 counts one more; a response starts the count again and is stored with its events, its position, its etag and the time it arrived; nothing is written when nothing changed, and the run goes on only from what it knows to be durable. |
| PollLoop.LoopHeadMatchesDisk | src/daemon.rs:3498-3510 | At each loop head the checkpoint in memory equals the durable one apart from the etag and its timestamp. |
| PollLoop.ConditionalRequest | src/daemon.rs:3498-3516 | In every round of every run a conditional request carries the etag of the last committed response, so a 304 never stands for events that are not in the stream; it is at most ten minutes old and fewer than three 304s in a row have followed. |
| PollLoop.EtagSentIff | src/subscription_poll.rs:616-634 | The etag goes along with a request if and only if there is one, its time is known and less than 600 seconds ago, and fewer than three 304s in a row have been counted; position and count stay. |
| PollLoop.EtagLasts | src/daemon.rs:3498-3516 | In a run whose writes succeed the etag of a response is sent again in every round for 600 seconds, until three 304s have been counted, whatever requests fail in between. |
| Frames.UnixStream.WriteFrame | src/daemon.rs:8755-8774 | Appends the header with the body's length in decimal, a blank line, and the body. |
| Frames.UnixStream.ReadHeader | src/daemon.rs:8777-8796 | Reading byte by byte stops right after the first blank line; the limited reader gives up one byte past 8192 and reads no further. |
| Frames.UnixStream.ContentLength | src/daemon.rs:8798-8809 | The last Content-Length field counts, each one must be a number, and skipping blank lines makes no difference. |
| Frames.UnixStream.ReadFrame | src/daemon.rs:8776-8828 | Returns the value of the first frame and leaves exactly what follows it, or the error of the specification and what that error leaves unread: nothing at the end of input, the body after a refused header or length. |
| Frames.UnixStream.ReadFrameBlocking | src/daemon.rs:12805-12832 | The same without limits, in the position after errors too. |
| Frames.ReadersAgree | src/daemon.rs:8776-8828 | On every input, well-formed or not, the two readers agree unless the limited one reports that header or body is too large. |
| Frames.FrameReadBack | src/daemon.rs:8754-8828 | A frame of any body below 2^64 bytes is read back with what follows left untouched; the limited reader refuses it if and only if the body exceeds 8 MiB. |
| Frames.FramesReadBack | src/daemon.rs:12794-12832 | Any sequence of values that the JSON library reads back, written as frames back to back, is read back as the same sequence by either reader, consuming exactly the bytes written; decimal printing and parsing of lengths included. |
| Frames.CutFrame | src/daemon.rs:8776-8828 | A frame cut short anywhere, in header or body, is an end-of-input error and never a value. |
| FrameForms.FrameMeans | src/daemon.rs:8776-8828 | Of any header made of lines, with other fields, space and several lengths among them: the last length counts and all must be numbers; the limited reader refuses headers above 8193 bytes and bodies above 8388608; then exactly the body is taken. |
| FrameForms.HeaderSays | src/daemon.rs:8798-8814 | A length that is no number is an error wherever it stands, none at all is another, and else the last one counts. |
| FrameForms.WrittenHeader | src/daemon.rs:8755-8760 | The bytes written for a body of two bytes. |
| Fanout.SessionNotificationFanout.Extend | src/daemon.rs:1350-1363 | The buffer stays what it should keep of the log of everything received, and the log grows by the given notifications. |
| Fanout.SessionNotificationFanout.Since | src/daemon.rs:1365-1372 | A read from cursor c returns the log after max(c, n-256), and n as the next cursor; a saturated cursor returns nothing. |
| Fanout.ConsecutiveNumbers | src/daemon.rs:1350-1363 | Below the counter's limit every valid buffer holds the last min(n, 256) consecutive numbers ending with the counter, each by the notification that came in with it. |
| Fanout.ReaderSeesAllIff | src/daemon.rs:1350-1372 | In every interleaving of arrivals and polls by any readers, a reader sees every notification between its first and last cursor once and in order if and only if it is never more than 256 behind when it polls. |
| Fanout.FallingBehindLoses | src/daemon.rs:1350-1372 | After 257 notifications a first poll returns the last 256, and the cursor passes over the lost one. |
| EmailLimiter.NeverOverLimit | src/daemon.rs:1084-1130 | In every interleaving with cancellation, permits held plus permits free are the limit: 4 global, 32 queued, 2 for each source. |
| EmailLimiter.SourceOfArrival | src/daemon.rs:4456-4472 | The i-th read of a run has the source that the i-th request came with. |
| EmailLimiter.AtMostTwoRead | src/daemon.rs:1112-1130 | In every interleaving at most two of the reads that arrived for one source are reading. |
| EmailLimiter.AtMostFourAdmitted | src/daemon.rs:1084-1110 | In every interleaving at most four reads are past the queue, and at most 32 are in it. |
| EmailLimiter.ReadsOnlyWhenGranted | src/daemon.rs:4456-4472 | A read with a source is reading, or has finished, only after it was granted a permit of that source. |
| EmailLimiter.StepKeeps | src/daemon.rs:1084-1130 | Every step, cancellation in any phase included, keeps permits held plus permits free at the limit of every semaphore. |
| EmailLimiter.StepBalanced | src/daemon.rs:1084-1130 | Every step changes one task only, and takes or gives back, of every semaphore, exactly the permits that this task then holds more or fewer. |
| EmailLimiter.RefusedIff | src/daemon.rs:1093-1110 | A read that found no global permit is refused if and only if all 32 queue permits are held; it looks for one if and only if all 4 global permits were. |
| EmailLimiter.OnlyTryQueueRefuses | src/daemon.rs:1093-1110 | No other step ever refuses a read. |
| EmailLimiter.OnlyCancelCancels | src/daemon.rs:4456-4484 | A read is cancelled by nothing but its own cancellation. |
| EmailLimiter.NoDeadlock | src/daemon.rs:4456-4484 | While some read is unfinished, some read can take a step without a cancellation. |
| EmailLimiter.RunEnds | src/daemon.rs:4456-4484 | Without new arrivals every run ends within seven steps for each read. |
| EmailLimiter.StuckMeansDone | src/daemon.rs:4456-4484 | A run that can go no further has finished every read and has every permit back. |
| EmailLimiter.SourceKeysDiffer | src/daemon.rs:1112-1124 | Different sources whose namespaces have no NUL have different semaphores. |
| EmailLimiter.SameSemaphoreIff | src/daemon.rs:1112-1124 | Two sources share a semaphore if and only if they are the same or one namespace reaches over a NUL into the other's key; a namespace and the other source's key then each hold a NUL. |
| EmailLimiter.TwoSourcesShare | src/daemon.rs:1112-1124 | Such a pair of sources. |
| LogRotation.LogWriter.RenameReplace | src/daemon_log.rs:361-368 | The destination is replaced by the source; a failure leaves the files as they were or only the destination removed. |
| LogRotation.LogWriter.RotateLogIfNeeded | src/daemon_log.rs:326-343 | The reversed loop leaves the files of the specification; whichever file operation fails, nothing is lost but possibly the oldest backup, and the order of lines is kept. |
| LogRotation.LogWriter.WriteLogLine | src/daemon_log.rs:282-311 | Whatever operation fails, the files from oldest to newest remain a contiguous suffix of all lines ever appended, across restarts; without a failure they are exactly the specified files. |
| LogRotation.StepRetained | src/daemon_log.rs:326-368 | One move up, complete or interrupted, changes no line's place and loses nothing but the oldest backup. |
| LogRotation.FilesAreNewest | src/daemon_log.rs:282-343 | After any number of writes from an empty directory the files are exactly the newest ones of the full history of files, for any number of backups; zero keeps one. |
| LogRotation.HistoryComplete | src/daemon_log.rs:282-311 | The history of files put together is every line written; each completed file is over the limit only by its last line. |
| LogRotation.WindowOfRun | src/daemon_log.rs:282-368 | What is on disk is a contiguous suffix of all lines, the current file is at or below the limit, each backup is over it by at most its last line, and lines are dropped only when all backups are full. |
| LogRotation.SizeIsBytes | src/daemon_log.rs:282-311 | The size that decides on a rotation is the number of bytes in the file. |
| Mime.ParseHeaderBlock | src/email_attachment.rs:305-320 | The line loop gives the specified headers: folded lines continue the last one, lines without a colon are skipped. |
| Mime.SplitMultipartBody | src/email_attachment.rs:581-617 | The line loop over the mutable buffers gives exactly the specified parts, also without a closing delimiter. |
| Mime.SplitUndoesJoin | src/email_attachment.rs:581-617 | Parts written under delimiter lines, with LF or CRLF endings, any preamble without a delimiter and any epilogue, are split back into the same list. |
| Mime.SplitUndoesJoinIff | src/email_attachment.rs:581-617 | The parts come back if and only if none of their lines is a delimiter for the boundary. |
| Mime.PartsClean | src/email_attachment.rs:581-617 | Whatever the body, no part that is split off has a line that is a delimiter. |
| Mime.PartsShorter | src/email_attachment.rs:581-617 | Every part is shorter than the body it stands in, so nesting is bounded by the message's length. |
| HeaderParams.SplitSegments | src/email_attachment.rs:340-366 | The character loop divides the value at the semicolons outside quotes, a backslash inside quotes protecting the next character. |
| HeaderParams.UnescapeQuoted | src/email_attachment.rs:382-396 | A backslash stands for the character after it, one at the end for nothing; the result is shorter exactly if there is a backslash. |
| HeaderParams.SplitHeaderParams | src/email_attachment.rs:340-380 | The main value and the parameters are those of the specification, segment by segment; a quoted value is unescaped, any other taken as it is. |
| HeaderParams.AlternativeIff | src/email_attachment.rs:340-396 | A multipart/alternative whose boundary is put between quotes as it is is read as one, and the boundary is read back if and only if it has no backslash and no semicolon outside quotes, counting from an open one. |
| HeaderParams.SimpleIsPlain | src/email_attachment.rs:340-396 | A boundary without backslash and semicolon, as the message identifiers the program makes itself give, is always read back. |
| HeaderForms.FieldsRead | src/email_attachment.rs:305-320 | Fields folded over any number of lines, with lines that are no headers in between, are read with their whole values, one space for each fold, names in lower case, in order. |
| HeaderForms.SettingsReadBack | src/email_attachment.rs:340-396 | A main value and any number of parameters are read back, each in its place; between quotes, with quotes and backslashes escaped, a value may be any text. |
| HeaderForms.FirstHeaderIs | src/email_attachment.rs:322-327 | Of headers of one name the first is found. |
| HeaderForms.FirstParamIs | src/email_attachment.rs:168-174 | So of parameters. |
| HeaderForms.NoEqualsNoParam | src/email_attachment.rs:367-370 | A segment without an equals sign is no parameter. |
| MimeWalk.MimeWalker.WalkMimePart | src/email_attachment.rs:150-207 | The recursion that updates the part counter and the output equals the bounded walk of the specification. |
| MimeWalk.MimeWalker.ParseMimeAttachments | src/email_attachment.rs:61-70 | A message's metadata are the entries of the bounded walk from its root. |
| MimeWalk.FullWalkLeads | src/email_attachment.rs:150-207 | Each reported section, followed as child indices from the root, leads to the very leaf part it describes. |
| MimeWalk.FullWalkOrdered | src/email_attachment.rs:150-207 | Sections are reported in strictly increasing document order. |
| MimeWalk.WalkInFull | src/email_attachment.rs:150-207 | The output under any depth and part budget is a subsequence of the unbounded walk's. |
| MimeWalk.WalkWithinBudget | src/email_attachment.rs:159-183 | The part budget is never exceeded, and when the message stays below both budgets the bounded walk is the unbounded one. |
| MimeWalk.ReportedSections | src/email_attachment.rs:61-207 | For every message: reported section texts are pairwise distinct and in document order, each leads to its part, and all of them are among the unbounded walk's. |
| MimeWalk.DottedInjective | src/email_attachment.rs:184-188 | Different sections have different dotted texts. |
| MimeTrees.WrittenMessageReported | src/email_attachment.rs:61-207 | A message written from any tree of parts, with LF or CRLF, folded headers, parameters, preambles and epilogues, is walked to exactly the classified leaves of the tree, each with its headers, its body, the subtype of its parent and the numbers that lead to it; with fewer than 256 parts and none deeper than ten, that is what is reported. |
| MimeTrees.ChildrenOfTree | src/email_attachment.rs:176-205 | The children that are read of a written multipart are those that were written, in order, each with its own headers and body. |
| MimeTrees.KindRead | src/email_attachment.rs:160-175 | A part is a leaf, unusable, or a multipart of a subtype and a boundary by its first Content-Type field and that field's first boundary parameter; text/plain without one. |
| MimeTrees.DelimitsIff | src/email_attachment.rs:581-617 | A line is a delimiter if and only if it begins with two hyphens and the boundary, followed by nothing, two hyphens, a space or a tab. |
| MimeTrees.LeavesReported | src/email_attachment.rs:150-207 | In any message every leaf that a section leads to and that is classified is reported under that section by the walk without budgets. |
| MimeTrees.SectionTextIs | src/email_attachment.rs:184-205 | A message that is not multipart is section 1; the text of a child is its parent's, a dot and its number. |
| MimeTrees.HeaderlessPartIff | src/email_attachment.rs:294-303 | A part without header fields has its text read back as its body only if the text is empty. |
| Smtp.BuildMessage | src/email.rs:266-319 | The loop over the headers gives the specified message; an empty value leaves its header out and a line break in a value refuses the message. |
| Smtp.TerminatorOnlyAtEnd | src/email.rs:389-392 | Of any message, the bytes sent after DATA hold CRLF dot CRLF only at the very end. |
| Smtp.Transparent | src/email.rs:430-435 | A receiver (section 4.5.2 of RFC 5321) recovers a message that does not begin with a dot, minus its trailing CR and LF characters, and leaves later bytes alone. |
| Smtp.TransparentIff | src/email.rs:430-435 | A message is recovered so if and only if it does not begin with a dot. |
| Smtp.LeadingDotLost | src/email.rs:430-435 | ".x" arrives as "x" and a line break. |
| Smtp.BuiltMessageTransparent | src/email.rs:266-435 | Every message accepted for building is received as it was built, with the terminator nowhere but at the end. |
| Smtp.BuiltMessageSplits | src/email.rs:307-326 | Whatever the header values and texts hold, the first blank line of a built message divides it into exactly the headers and the body put together: no value can add a header or a body. |
| Smtp.SingleTextSent | src/email.rs:294-304 | A message with exactly one of text and HTML has that text and one line break after its first blank line. |
| Smtp.SingleTextArrives | src/email.rs:294-435 | The receiver of such a message finds that text after the first blank line, with one line break for all trailing ones; nothing of a text that is only line breaks. |
| Smtp.RefusedIff | src/email.rs:307-326 | A message is refused if and only if a line break would reach a header: in the sender, a shown recipient, the subject or an identifier; Bcc and the texts may hold any. |
| Smtp.BoundaryOfId | src/email.rs:282-282 | The boundary is made of the identifier, without angle brackets around it. |
| MailRoundTrip.HeadersReadBack | src/email.rs:266-326 | The program's own MIME reader finds in a built message exactly its headers, each once and in order, with lower-case names and trimmed values, and its body. |
| MailRoundTrip.HeadersSay | src/email.rs:266-304 | Under every header name a reader finds what the request says (sender, recipients, subject, threading, content type) and under any other name nothing, so Bcc recipients are never disclosed. |
| MailRoundTrip.TextsSplitIff | src/email.rs:283-293 | The splitter, given the message's own boundary, finds the two texts if and only if no line of either is a delimiter for it. |
| MailRoundTrip.TextsReadBackIff | src/email_attachment.rs:150-194 | The program's own reader, with the boundary it reads from the Content-Type header, finds the plain and the HTML text of an alternative message, with LF line breaks, if and only if the boundary that the message identifier makes has no backslash and no semicolon outside quotes, and no line of either text is a delimiter for it. |
| MailRoundTrip.WrongBoundary | src/email_attachment.rs:581-617 | A body written for one boundary and split by any other never gives the two parts that were written. |
| MailRoundTrip.BackslashLosesTexts | src/email_attachment.rs:382-396 | With the message identifier `<a\b@x>` the reader unescapes the boundary and does not find the texts. |
| MailRoundTrip.PartDividedIff | src/email_attachment.rs:294-303 | Such a part is divided into its headers and its text if and only if the text holds no two CRLF in a row after line breaks became LF. |
| MailRoundTrip.PartHeadersReadBack | src/email.rs:290-292 | The part's two headers are read back with the values that were written. |
| MailRoundTrip.DoubledCrsDivideWrongly | src/email_attachment.rs:294-303 | A text with CR CR LF line breaks is divided in the wrong place. |

## Left out

- Arguments.InsertSegments: the source changes the tree through nested mutable references; the model passes subtrees and returns the changed ones. The map at the root is a mutable field.
- Coercion.CoerceValue: one failure stands for every error message, and paths in messages are not modelled; numbers are integers or reals, so the sign of zero and rounding of floating-point numbers are not modelled; the wrapper that normalizes operation schemas is not modelled.
- CoercionForms.CoerceIff: schemas without unions; a union may read a text by any of its branches.
- Coercion.UnionIdempotentIff: a criterion for one result, which runs the branches on it again; the conditions on the schema are in `CoercionUnions`.
- CoercionUnions.SettledUnionStable: the condition on pairs is sufficient only for three or more branches, as a branch in between may take over a result; `CoercionUnions.ManyBranchesIff` and `CoercionUnions.ScalarUnionStableIff` are exact. Branches are union-free, so unions nested in unions have no condition of their own here.
- CoercionUnions.ScalarUnionStable: sufficient only; `CoercionUnions.ScalarUnionStableIff` is exact. Objects and arrays whose inner schemas differ have the general conditions only.
- Streams.ChunkingIrrelevant: speaks of error-free runs; when chunks matter is `StreamCuttings.ChunksNeverMatterIff`, for bodies of at most 1 MiB, and when a larger body is refused is `StreamAcceptance.RunAcceptedIff`.
- SessionRegistry.McpSessionManager.GetOrCreateStdio: one atomic step per call, as the separate mutexes do not make a finer registry claim true; whether sessions are busy, exit or connect are parameters; metadata, display keys and in-flight counters of sessions are not modelled.
- ExclusiveLocks.MutualExclusion: mutual exclusion is claimed for locks and initialisation, not for processes; waiting on a session's own mutex while reusing it is not modelled.
- PollLoop.RunManagedSourcePoll: the store is an assumed transaction; retention and offsets of the stream, the import of legacy checkpoints, intervals and the status view are not modelled.
- Frames.UnixStream.ReadFrame: timeouts and memory for the body are not modelled.
- EmailLimiter.NoDeadlock: the order in which waiters are served is any order, so fairness is neither assumed nor proved; the deadline is a cancellation at any step.
- LogRotation.LogWriter.WriteLogLine: a line is appended whole or not at all, and flushing has no effect on what a file holds; file names are numbers.
- MimeTrees.WrittenMessageReported: parts have at least one header field (`MimeTrees.HeaderlessPartIff` says why), and no CR in their lines but that of the line endings.
- FrameForms.FrameMeans: headers made of whole, non-empty lines; of any other input the rows of `Frames` speak.
- MimeWalk.MimeWalker.WalkMimePart: how a leaf is classified is a parameter, so RFC 2047, RFC 2231, quoted-printable and base64 decoding are not modelled; sections are lists of numbers, with their texts given by a function.
- Smtp.BuildMessage: the SMTP dialogue around DATA, envelope addresses and credentials are not modelled.
- HTTP sessions of the MCP manager, and the subscription filters of either kind of session.
- Sockets, child processes, TLS, clocks, signals and environment lookups: I/O with no logic to prove; what they answer is a parameter.
- serde_json, the regular expression, URL, hash and mail libraries: JSON text is an abstract printer and parser, of which the round trips ask that it reads back what it prints for the values at hand.
- Adapters, authentication, schema mapping, code generation, configuration import and the doctor output.
