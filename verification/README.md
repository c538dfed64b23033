# A verified model of sshoosh

sshoosh is a chat and forum server reached over SSH. This project models the parts of it that keep state or
transform streams, and proves what they promise over all inputs, all runs and all schedules.

| part | files | modelled from |
|---|---|---|
| terminal output: truecolor downgraded to the 256-colour palette inside SGR sequences (sections 5.4 and 8.3.117 of ECMA-48) | `Color`, `Sgr`, `Terminal`, `Chunks` | `src/color.rs`, `src/terminal.rs` |
| terminal input: bytes to keys, SGR mouse reports, bracketed pastes and UTF-8 text (section 3 of RFC 3629) | `Input`, `InputStreams`, `Keys`, `Utf8`, `Decimal`, `Fields` | `src/app/input.rs` |
| the input path of a connection, from chunks to the application | `Pipeline`, `Subsequences` | `src/ssh/session.rs`, `src/ssh/render_loop.rs` |
| the master lease with its fencing token | `Lease` | `src/db/lease.rs` |
| admission, failure counting and authentication of connections | `Admission`, `Abuse`, `Auth` | `src/ssh/server.rs`, `src/ssh/session.rs` |
| classification of SQL, and refusal of writes on a standby | `Sql`, `Mutation` | `src/db/mutation.rs`, `src/db/executor.rs` |
| transparent encryption of columns | `Cipher`, `Placeholders`, `Encryption`, `Inserts` | `src/db/encryption.rs`, `src/db/query_encryption.rs`, `src/db/executor.rs` |
| the composer, clicking into it, and fuzzy matching | `Composer`, `Display`, `Fuzzy` | `src/app/state.rs`, `src/app/util.rs` |
| files the daemon installer writes and a restart reads back | `Daemon` | `src/cli/daemon.rs` |

`Text` and `Wrappers` hold what several modules share: white space, lines, searching, replacing, splitting, options.
`dafny verify dfyconfig.toml` checks everything.

## How to read it

Objects the source updates in place are classes here, and algorithms it runs as loops are methods. Each method is
proved to do what a specification function says, and the theorems are about that function: over lists of events
(`Lease`, `Abuse`, `Auth`), over interleavings of atomic steps (`Admission`, `Pipeline`), over chunkings of a stream
(`Chunks`, `Input`, `InputStreams`), or against an independent definition (the layout in `Display`, the left-to-right scan in
`Terminal`, the character list in `Composer`, the placeholder count in `Placeholders`, the column list in `Inserts`, the list of
what a terminal sends for each key in `Keys`, the times of the failures in `Abuse`).

Assumptions, all of them hypotheses of the lemmas that need them:

- Nodes share one clock, which does not run backwards (`Lease.Timely`), and no takeover fails to commit after the local
  flag is set (`Lease.TakeoversCommit`). Nodes start out believing with token 0, so claims about believers are for tokens
  from 1 on.
- The cipher is ideal: an envelope opens exactly with the associated data it was sealed for (`Cipher.Ideal`).
  `Cipher.IdealServiceExists` shows that this can be met.
- Lower-casing of Unicode text is a parameter of `Fuzzy`, as is the application behind the queues of `Pipeline`.

## What turned out otherwise

Where a promise is false of the code, the model keeps the code and says when the promise holds.

- A truecolor group can survive the downgrade: the palette index that replaces one can be 38 or 48 and begin another
  (`48;2;0;175;215;2;1;2;3` becomes `48;5;38;2;1;2;3`). A group survives, and a second pass changes something, if and only
  if a rewrite re-creates one (`Sgr.SurvivorsAreRecreated`, `Terminal.TwiceIsOnceExactly`).
- Output is independent of chunking if and only if each complete truecolor sequence of the stream holds no second ESC and
  follows no sequence that is still open where it begins (`Chunks.ChunksAgreeExactly`). A second ESC lets a cut leave the
  sequence as it is (`Chunks.InnerEscBreaksChunking`); an open sequence takes its bracket for a final byte unless a cut comes
  first (`Chunks.OpenSequenceBreaksChunking`). What is kept back is the same for every chunking
  (`Chunks.PendingIsTheKeptTail`).
- Characters, pastes and mouse reports, in any order, are decoded to exactly themselves in every chunking that does not cut
  right behind the ESC of a paste or report, if and only if every paste and report behind a character beyond ASCII is UTF-8
  text (`InputStreams.FitsExactly`). The decoder takes such a character only when all pending bytes are well-formed, so
  U+00E9 and a paste of the byte 0xFF are both lost in one chunk and both decoded in two
  (`InputStreams.BadPasteBehindWide`).
- The decoder is blocked for good exactly by ESC and a tilde, and by bytes that begin beyond ASCII and are no UTF-8 text, not
  even text whose last character is cut (`Input.NeverDecodesExactly`).
- The arrows, Home and End of application mode (`ESC O` and a letter) are listed by the code but decoded as Alt-O and a letter,
  because `ESC` and a letter is looked for first (`Keys.ApplicationKeyIsAlt`).
- A displaced master goes on believing, with the older token, until its next attempt
  (`Lease.TwoBelieversWithDifferentTokens`). A believer is the row's owner if and only if its token is the row's
  (`Lease.BelieverIsFencedByTheRow`).
- Fencing holds, whatever is tried next, if and only if no takeover failed to commit (`Lease.FencingExactly`). Renewals and
  refusals may fail. The loop that makes the attempts steps down when one fails (`src/features/system/runtime.rs:144-148`),
  so two nodes can share a token only until it does.
- A failure with no user name and no key is counted twice in the bucket of its address
  (`Abuse.AddressCountsTwiceWithoutIdentity`).
- The main statement behind common table expressions is found if and only if the text before it ends in the first closing
  parenthesis, by plain counting, that no comma follows (`Mutation.StripsExactlyAtCut`). A change that is cut earlier
  passes on a standby exactly when the text behind that cut begins with a reading word (`Mutation.PassesStandbyExactly`),
  as in `with t as (select ') select ') delete from t` (`Mutation.QuotedParenthesisMisleads`). Column lists are such early
  cuts, so reads with them are refused (`Mutation.ColumnListsLookLikeWrites`).
- The id of an encrypted update is taken from the wrong parameter if and only if a placeholder stands before it in the
  where clause (`Placeholders.IdIsRightExactly`). A column's value is taken from its own assignment if and only if that holds
  a placeholder; a column set to a literal takes the next one of the statement
  (`Placeholders.LiteralTakesTheNextPlaceholder`). In `update threads set body = '' where id = ?` that is the id, which is
  then sealed itself, so that no row is found (`Encryption.LiteralSealsTheId`).
- An insert seals parameters by fixed numbers. Its encrypted columns are stored sealed and all others as they are if and
  only if the statement's column list puts the encrypted columns at these numbers, literals not counted, and the id first
  (`Inserts.InsertIsTransparentExactly`). The inserts of comments, messages and notifications do
  (`Inserts.OthersAreAligned`). The insert of threads (`src/features/shared/write_ops.rs:421-423`) lists `name_key` between
  title and body: the key is sealed as a body and cannot be read, and the body stays plaintext
  (`Inserts.ThreadInsertSealsTheKey`). The inserts that fill a benchmark database (`src/cli/dev.rs:288-290`, `339-341`,
  `395-397`) have literals in front (`Inserts.LiteralsMoveNumbers`).
- A sealed column is readable only under its own name in a row with its own id (`Encryption.StoredIsReadBackExactly`). Queries
  that join a thread's title as `thread_title` (`src/features/shared/loaders.rs:118`, `506`, `742`), or as `title` under the
  id of a mention (`src/features/notifications/state.rs:114-117`), fail on sealed titles
  (`Encryption.JoinedTitleIsUnreadable`).
- A click finds the character at its place as long as the text is shown alone. Shown with the cursor in it, a character is
  found if and only if it stands before the cursor, or from the end of the cursor's paragraph on while that paragraph leaves
  room for the cursor on its last line (`Display.ShownCharacterIsFoundExactly`); up to that end the click finds the next one
  (`Display.NextCharacterIsFound`).
- Columns of an inserted webhook job are searched before the first opening parenthesis instead of behind it. Nothing is
  found unless a parenthesis closes there, so payloads are stored as plaintext, with a column list or without
  (`Encryption.JobInsertStaysPlain`, `Encryption.UsualJobInsertStaysPlain`).
- `UPDATE notifications` and `INSERT OR IGNORE INTO` a table with encrypted columns store plaintext, and so does the
  migration of notifications, which uses such updates (`Encryption.UnhandledStaysPlain`, `Encryption.InsertOrStaysPlain`).

## Model

| member | source | states |
|---|---|---|
| Color.NearestIsLowestClosest | src/color.rs:1-13 | the replacement colour is the lowest palette index at minimal distance, and no other index is |
| Color.RgbToXterm256 | src/color.rs:1-13 | the scan over the palette finds that index |
| Color.QuantisingIsIdempotent | src/color.rs:1-68 | palette colours are shown exactly, and a quantised colour is not changed again |
| Color.FirstExactEntryIsNearest | src/color.rs:1-52 | a colour the palette has goes to the first entry that shows it |
| Color.PaletteIsXterm | src/color.rs:15-52 | the first sixteen colours and the ramp of greys, by their numbers |
| Color.CubeIsXterm | src/color.rs:40-60 | the colour cube, by its six levels |
| Color.DistanceIsEuclidean | src/color.rs:62-68 | the distance is the squared Euclidean one |
| Sgr.DowngradeSgrParams | src/terminal.rs:476-499 | the loop rewrites the fields between semicolons as specified |
| Sgr.TruecolorParamsAreTruecolor | src/terminal.rs:476-499 | a `38/48;2;r;g;b` group is recognised and becomes its target, 5 and the nearest index |
| Sgr.ParamsChangeExactlyWithTruecolor | src/terminal.rs:476-499 | parameters change exactly when they hold a truecolor group, and then they get shorter |
| Sgr.SurvivorsAreRecreated | src/terminal.rs:476-499 | a truecolor group survives if and only if a rewrite re-creates one |
| Sgr.SurvivorExample | src/terminal.rs:476-499 | `48;2;0;175;215;2;1;2;3` becomes `48;5;38;2;1;2;3`, in which one survives |
| Sgr.TwiceIsOnceUnlessRecreated | src/terminal.rs:476-499 | a second rewrite changes something if and only if the first re-created a group |
| Sgr.DowngradedParams | src/terminal.rs:476-499 | what is written splits into the rewritten fields, is valid UTF-8 and stays inside the sequence |
| Terminal.DowngradeTruecolorSgrStream | src/terminal.rs:420-457 | the streaming loop writes and keeps back exactly what is specified |
| Terminal.SharedBuffer.WriteBytes | src/terminal.rs:149-169 | a write appends its bytes in truecolor mode and the downgraded stream in palette mode, and takes all bytes |
| Terminal.SharedBuffer.Take | src/terminal.rs:138-147 | taking empties the buffer and keeps what is pending |
| Terminal.SharedBuffer.SetColorMode | src/terminal.rs:130-136 | changing the mode keeps the output and the pending bytes |
| Terminal.PendingIsAnOpenSequence | src/terminal.rs:420-474 | what is kept back is nothing, a lone ESC, or an introducer without final byte; every byte is rewritten or kept, in order |
| Terminal.WriteIsScan | src/terminal.rs:420-474 | on clean streams, cutting at the last ESC agrees with reading sequences from left to right |
| Terminal.ScanSplits | src/terminal.rs:149-169 | reading from left to right is independent of where its input is cut |
| Terminal.SequenceIsClean | src/terminal.rs:420-474 | control sequences without an ESC inside are clean streams, and so are bytes without ESC |
| Chunks.PendingIsTheKeptTail | src/terminal.rs:459-474 | what is kept back after any writes depends on the stream alone |
| Chunks.ChunksAgreeExactly | src/terminal.rs:149-169 | every split of a stream into writes gives the same output and pending bytes if and only if each complete truecolor sequence holds no second ESC and follows no open sequence |
| Chunks.RobustIsDowngraded | src/terminal.rs:420-474 | of such a stream, however it is cut, exactly the truecolor sequences are downgraded, wherever they stand |
| Chunks.InnerEscBreaksChunking | src/terminal.rs:459-474 | if a truecolor sequence holds a second ESC, cutting behind that too makes the output longer |
| Chunks.OpenSequenceBreaksChunking | src/terminal.rs:433-449 | if a truecolor sequence follows an open one, cutting behind its own ESC too makes the output shorter |
| Chunks.ChunksDoNotMatter | src/terminal.rs:149-169 | a clean stream gives the output and the pending bytes of the left-to-right scan in every split into writes |
| Chunks.StrayEscBreaksChunking | src/terminal.rs:420-457 | behind any stream that ends inside a sequence a truecolor sequence comes out differently when it is cut behind its ESC |
| Terminal.RewriteIsTokenwise | src/terminal.rs:420-474 | token by token and in order, only SGR sequences with a truecolor group change |
| Terminal.UnchangedExactlyWithoutTruecolor | src/terminal.rs:420-474 | a stream passes through unchanged if and only if it holds no truecolor group |
| Terminal.TwiceIsOnceExactly | src/terminal.rs:420-499 | on complete clean streams downgrading twice is downgrading once, and no group survives, if and only if none is re-created |
| Utf8.DecodeEncode | src/app/input.rs:118-148 | decoding an encoding gives the characters back |
| Utf8.EncodeDecode | src/app/input.rs:118-148 | well-formed bytes are exactly the encodings |
| Input.InputDecoder.Push | src/app/input.rs:69-82 | the loop over pending bytes terminates and gives the specified keys, pending bytes and leader state |
| Input.InputDecoder.ApplyLeaderKey | src/app/input.rs:84-98 | Ctrl-x is swallowed and joined to the next character, control or not |
| Input.DrainConserves | src/app/input.rs:69-116 | one push neither loses nor invents a byte, and every key takes at least one |
| Input.FeedConserves | src/app/input.rs:69-116 | over any run the bytes of the keys, then those pending, are the bytes fed, in order |
| InputStreams.TextDecodesToItsCharacters | src/app/input.rs:101-116 | text is decoded to exactly its characters in every chunking, even inside a character, and nothing stays pending |
| Input.FramedInputExactly | src/app/input.rs:69-82 | one frame alone is one key in every chunking that does not cut right behind its ESC, and in no chunking that does |
| InputStreams.ItemsDecodeExactly | src/app/input.rs:69-219 | a stream of characters, pastes and mouse reports that fits is decoded to exactly its items in every chunking that does not cut behind a frame's ESC, and in no other if no item reads as Esc |
| InputStreams.FitsExactly | src/app/input.rs:101-116 | a stream is decoded so in all these chunkings if and only if every frame behind a character beyond ASCII is UTF-8 text |
| InputStreams.PasteIsItem | src/app/input.rs:150-155 | every paste whose payload lacks the end marker is such an item |
| InputStreams.MouseIsItem | src/app/input.rs:182-219 | so is every mouse report, well-formed or not |
| InputStreams.PasteIsText | src/app/input.rs:150-155 | a paste is UTF-8 text exactly when its payload is |
| InputStreams.MouseIsText | src/app/input.rs:182-219 | a mouse report is UTF-8 text exactly when its body is |
| InputStreams.BadPasteExample | src/app/input.rs:110-114 | the case of U+00E9 and the byte 0xFF |
| InputStreams.UnfitBlocks | src/app/input.rs:110-114 | in one piece, any other stream blocks the decoder for good |
| InputStreams.BadPasteBehindWide | src/app/input.rs:110-114 | a character beyond ASCII and a paste that is no UTF-8 text are lost in one chunk and decoded in two |
| Input.PasteIsFramed | src/app/input.rs:150-180 | a bracketed paste whose payload lacks the end marker is framed input and decodes to its text, whatever follows |
| Input.MouseIsFramed | src/app/input.rs:182-219 | a mouse report, well-formed or not, is framed input |
| Input.MouseCodeDecodes | src/app/input.rs:221-250 | every kind of mouse event with every set of modifiers has a code that decodes to it |
| Input.MouseReportRoundTrip | src/app/input.rs:182-250 | decoding a terminal's report of an event gives the event back |
| Input.MouseCodeMeans | src/app/input.rs:221-250 | what every code of a report means, and which codes mean nothing |
| Input.MouseBodyExactly | src/app/input.rs:182-219 | a report is an event exactly if its body is three numbers in range and the first means one |
| Keys.KeyRoundTrip | src/app/input.rs:101-180 | whatever follows, what a terminal sends for a key is decoded to that key; its control sequences are framed input |
| Keys.KeyIsItem | src/app/input.rs:131-180 | so they take their place in streams of text, pastes and mouse reports |
| Keys.KeyHasItsBytes | src/app/input.rs:101-180 | no other bytes are decoded to a key |
| Keys.UnknownEscapeExactly | src/app/input.rs:118-180 | what begins with ESC and is nothing known is Esc alone once a byte has come that ends control sequences, and waits until then |
| Keys.ApplicationKeyIsAlt | src/app/input.rs:126-139 | a key of application mode is decoded as Alt-O and what follows |
| Keys.LeaderJoins | src/app/input.rs:84-98 | in any chunks, Ctrl-x and the bytes of one key give the pair of both for a character or control key, and that key alone otherwise |
| Keys.LeaderThenCharacter | src/app/input.rs:84-98 | so with every character, however it is cut |
| Keys.LeaderThenControl | src/app/input.rs:84-98 | and with every control key |
| Input.NeverDecodesExactly | src/app/input.rs:101-180 | which pending bytes are never decoded, whatever follows, and no others |
| Utf8.CompletableExactly | src/app/input.rs:110-114 | when bytes can still become UTF-8 text |
| Input.StuckInputs | src/app/input.rs:101-180 | examples: a byte that begins no character, also behind a complete one, and ESC before a tilde |
| Input.StuckStaysStuck | src/app/input.rs:69-82 | from then on no input gives a key, and all of it piles up |
| Pipeline.Connection.Data | src/ssh/session.rs:534-557 | a chunk is queued whole, or dropped whole and counted |
| Pipeline.Connection.ReceiveChunk | src/ssh/session.rs:628-634 | the task decodes the oldest chunk, and ends when no sender is left |
| Pipeline.Connection.DispatchKey | src/ssh/session.rs:635-651 | a key waits for room; a wheel event without room is dropped and counted; without receivers the task ends |
| Pipeline.Connection.RenderOnce | src/ssh/render_loop.rs:13-36 | a frame hands over the oldest keys, then wheel events, within its limits and only while the application runs; what stays behind has a frame requested |
| Pipeline.NothingIsLostUnnoticed | src/ssh/session.rs:606-651 | on every schedule keys are neither lost, doubled nor reordered; wheel events keep their order and missing ones are counted; bytes are accepted or counted; queues keep their bounds |
| Pipeline.WheelsAreDroppedOnlyWhenFull | src/ssh/session.rs:635-645 | on every schedule a step drops a wheel event exactly if one is next while 128 are queued |
| Pipeline.TaskWaitsOnlyWhenFull | src/ssh/session.rs:646-650 | on every schedule the task waits exactly if a key is next while 1024 are queued |
| Pipeline.RefusedExactly | src/ssh/session.rs:534-557 | a chunk is refused exactly while 256 are queued or without decoder, and is otherwise queued |
| Pipeline.TaskEndsExactly | src/ssh/session.rs:628-651 | the task ends exactly when nothing is left and the client has hung up, or when a key finds no receiver |
| Pipeline.ClosedStaysClosed | src/ssh/session.rs:606-651 | hanging up, stopping to receive and the end of the task are for good: nothing goes in or comes out after |
| Pipeline.EverythingGetsThrough | src/ssh/session.rs:626-651 | the queues never block each other: all that was accepted can get through, no wheel event is dropped any more, and then the application has all keys and, if none was dropped before, all wheel events |
| Pipeline.TextArrives | src/ssh/session.rs:606-651 | typed text reaches the application as its characters, for every chunking and schedule |
| Lease.Database.TryAcquireOrRenewMaster | src/db/lease.rs:72-147 | an attempt leaves row, flag, token and answer as specified; it is acquired exactly if the row was empty, the node's own or expired, and exactly then the node owns the row and is master |
| Lease.LeaseTable.TakeOver | src/db/lease.rs:120-141 | the row is replaced only if it still is the one that was read |
| Lease.LeaseTable.Renew | src/db/lease.rs:99-118 | only the owner under its token renews |
| Lease.TokenRisesExactlyOnOwnerChange | src/db/lease.rs:72-147 | the token rises by one when the owner changes, which takes an expired row, and otherwise stays |
| Lease.AttemptDecidesBelief | src/db/lease.rs:72-147 | after every attempt of a run a node believes in the row's token exactly if it owns the row, which it does exactly if the row was empty, its own or expired |
| Lease.SteppingDownAndBooting | src/db/lease.rs:26-41 | a node that steps down is no master; one that starts says it is, but of no tenure |
| Lease.OneOwnerPerToken | src/db/lease.rs:72-147 | over any run the token never falls, and each belongs to one node |
| Lease.BelieverOwnedTheRow | src/db/lease.rs:38-147 | unless a takeover failed to commit, a believer of a token is the node the row once named under it |
| Lease.NoTwoMastersShareAToken | src/db/lease.rs:38-147 | unless a takeover failed to commit, no two nodes ever believe in the same token |
| Lease.BelieverIsFencedByTheRow | src/db/lease.rs:38-147 | a believer's token is at most the row's, and it is the row's if and only if the believer is the row's owner |
| Lease.OwnerBelievesItsToken | src/db/lease.rs:99-145 | the row's owner, if it believes, believes in the row's token, whatever commits fail |
| Lease.TwoBelieversWithDifferentTokens | src/db/lease.rs:26-41 | whenever a believer is displaced, both nodes believe, with successive tokens |
| Lease.AbortedCommitBreaksFencing | src/db/lease.rs:111-145 | after a takeover that failed to commit, on an empty row or not, the next node to take over believes in the same token |
| Lease.FencingExactly | src/db/lease.rs:72-147 | from every moment of a run, whatever is tried next, no two nodes share a token if and only if no takeover failed to commit |
| Lease.RowWasStamped | src/db/lease.rs:73-141 | the row's end is the owner's clock read plus its TTL |
| Lease.StampsAreOrdered | src/db/lease.rs:73-145 | stamps move forward within a tenure; an older tenure's stamps lie before the test that ended it |
| Lease.TenuresAreDisjoint | src/db/lease.rs:73-145 | tenures are disjoint and ordered by token |
| Lease.PunctualHolderIsNeverDisplaced | src/db/lease.rs:73-145 | a holder that renews within the TTL of its previous clock read keeps the row, whatever the others do, and believes in its token as long as it only attempts |
| Lease.RecoversWithinTtlPlusGap | src/db/lease.rs:73-145 | with attempts at most a gap apart the row is live again within TTL and gap of the last renewal |
| Admission.AdmissionLimiter.TryAcquire | src/ssh/server.rs:192-208 | a permit is granted exactly when both limits leave room; a refusal changes nothing |
| Admission.AdmissionLimiter.DropPermit | src/ssh/server.rs:210-231 | dropping a permit returns both counts, and never leaves a zero |
| Admission.AcquireThenDropIsIdentity | src/ssh/server.rs:192-231 | taking and dropping a permit restores the counts |
| Admission.PermitsAreConserved | src/ssh/server.rs:192-231 | under every interleaving each address is counted exactly as often as it has live permits, within its limit, never as zero, and the sum is covered by semaphore permits |
| Admission.DroppingEverythingRestores | src/ssh/server.rs:210-231 | once all permits are dropped the limiter is as new |
| Admission.TicketsDetermineTheState | src/ssh/server.rs:192-231 | between any two steps both counts are determined by the acquires and permits under way |
| Admission.FinishedAcquiresLeaveNoTrace | src/ssh/server.rs:192-231 | two interleavings that end with the same acquires and permits under way end alike, so refused acquires leave no trace |
| Admission.ZeroLimitLeavesAnEntry | src/ssh/server.rs:192-208 | a refusal would leave an entry behind if and only if the limit per address were zero, which the server refuses at start |
| Abuse.AuthAbuseLimiter.RecordFailure | src/ssh/server.rs:350-389 | a failure is counted in both buckets and penalised at the threshold, as specified |
| Abuse.AuthAbuseLimiter.ClearSource | src/ssh/server.rs:391-404 | a success forgets the failures of its address and its penalty |
| Abuse.AuthAbuseLimiter.RemainingPenalty | src/ssh/server.rs:337-348 | a penalty is reported until it is over, and then forgotten |
| Abuse.CountsStayBelowThreshold | src/ssh/server.rs:350-404 | after every call all counts are below the threshold |
| Abuse.PenalisedExactly | src/ssh/server.rs:350-389 | after every history a failure is penalised if and only if the failures counted for its address, or for its address, user and key, reach the threshold with it: those since the open window began and since the last success or penalty |
| Abuse.FirstPenaltyIsAtTheThreshold | src/ssh/server.rs:350-389 | within one window the failure that brings its address to the threshold is penalised, and none before |
| Abuse.BlockedExactly | src/ssh/server.rs:337-404 | after every history an address is blocked, and how long, if and only if a penalty of it stands that is not over |
| Abuse.AddressCountsTwiceWithoutIdentity | src/ssh/server.rs:255-271 | a failure raises its address's count by one, and by two when it names neither user nor key |
| Abuse.LoggedExactly | src/ssh/server.rs:418-424 | names are counted without control characters and up to 128 characters |
| Abuse.UnknownPeerIsNotCounted | src/ssh/server.rs:350-358 | a failure without an address is counted nowhere |
| Abuse.PenaltyForgetsAndBlocks | src/ssh/server.rs:337-389 | a penalised address has no bucket left and is blocked for the penalty; others are untouched |
| Abuse.FailuresPerWindow | src/ssh/server.rs:350-404 | a stretch of length L free of penalties and clears holds at most (T-2) + (T-1)·⌈L/window⌉ failures of an address, hence fewer than 2(T-1) when L is at most a window |
| Abuse.FailuresInFreshWindows | src/ssh/server.rs:350-404 | without an open window the bound is (T-1)·⌈L/window⌉ |
| Abuse.ThresholdOneToleratesNone | src/ssh/server.rs:350-389 | with a threshold of one every failure is penalised |
| Auth.ClientHandler.AuthPublickey | src/ssh/session.rs:23-92 | the handler's fields and its answer to an offered key are as specified |
| Auth.ClientHandler.AuthPassword | src/ssh/session.rs:94-99 | a password is always a failure |
| Auth.ClientHandler.AuthKeyboardInteractive | src/ssh/session.rs:101-169 | the handler's fields and its answer to a token response are as specified |
| Auth.ClientHandler.RecordAuthFailure | src/ssh/session.rs:704-735 | a failure is counted for the connection and for its address |
| Auth.AccountMeansAuthenticated | src/ssh/session.rs:23-169 | in every run an account is set exactly when the connection is marked, and then the unauthenticated permit is gone |
| Auth.AccountIsLastAccepted | src/ssh/session.rs:23-169 | in every run the account is the owner of the key, or of the redeemed token, in the last accepted request, and no other |
| Auth.LimiterIsTold | src/ssh/session.rs:674-735 | what each request tells the limiter: one success per acceptance, one failure with its user and key per recorded failure |
| Auth.LimiterHearsEachRequest | src/ssh/session.rs:674-735 | in every run, between the events of other connections, the limiter hears exactly that |
| Auth.PendingKeyIsLastOffered | src/ssh/session.rs:23-169 | the key a token is redeemed for is the last unknown one offered, unless more than passwords and prompts came between |
| Auth.OtherAnswers | src/ssh/session.rs:23-169 | when the prompt is shown, and when no method is left without a recorded attempt |
| Auth.RedemptionsConsumeOffers | src/ssh/session.rs:101-169 | every token redemption consumes an unknown-key offer of its own |
| Auth.AttemptsAreCounted | src/ssh/session.rs:674-735 | the attempt counter is the number of unknown-key offers and recorded failures, up to saturation |
| Auth.AcceptedOnlyWithKeyOrToken | src/ssh/session.rs:23-169 | a request is accepted exactly with a known key or a redeemed token for an offered one, within the deadline |
| Auth.NoMethodsAtTheMaximum | src/ssh/session.rs:674-735 | such an event leaves no methods to continue with exactly when it brings the count to the maximum, and otherwise the prompt after an offer and keys after a failure (section 5.1 of RFC 4252) |
| Auth.DeadlineFreezes | src/ssh/session.rs:684-702 | past the deadline a connection without an account stays as it is |
| Sql.NormalFormIsCanonical | src/db/mutation.rs:161-166 | two statements have one normal form exactly when they differ in case and white space only |
| Sql.WordsOfNormal | src/db/mutation.rs:161-166 | the normal form is the words in lower case, one blank apart |
| Sql.NormalizingTwice | src/db/mutation.rs:161-166 | normalising twice is normalising once |
| Sql.LowerIsAscii | src/db/mutation.rs:161-166 | the 26 capitals become their small letters and nothing else changes |
| Mutation.CaseAndSpacingDoNotMatter | src/db/mutation.rs:19-73 | the classification ignores case and runs of white space |
| Mutation.NormalisingDoesNotMatter | src/db/mutation.rs:23-73 | a normalised statement is classified like its original |
| Mutation.ReadsExactly | src/db/mutation.rs:30-73 | seven words, and a pragma that sets nothing, only read |
| Mutation.ChangesExactly | src/db/mutation.rs:30-131 | which table's rows a statement inserts, replaces, updates or deletes, word by word |
| Mutation.SchemaExactly | src/db/mutation.rs:133-160 | which statements change the schema, and their targets |
| Mutation.MaintenanceExactly | src/db/mutation.rs:58-72 | which statements set something or rebuild the database |
| Mutation.UnquotedExactly | src/db/mutation.rs:152-160 | all quotes around a target go, and nothing else |
| Mutation.StripWithClausePrefix | src/db/mutation.rs:75-105 | the loop over the parentheses returns what is specified |
| Mutation.StripsExactlyAtCut | src/db/mutation.rs:75-105 | exactly the main statement is left if and only if the text before it ends in the first top closing parenthesis that no comma follows |
| Mutation.StripsAtSomeCut | src/db/mutation.rs:75-105 | whatever the statement, all of it is left or what stands behind that parenthesis |
| Mutation.WellFormedIsCut | src/db/mutation.rs:75-105 | common table expressions with balanced bodies, without column lists or quoted parentheses, end so |
| Mutation.MainDecides | src/db/mutation.rs:23-73 | a statement behind such a text is classified by its own words alone |
| Mutation.StandbyNeverChangesRows | src/db/executor.rs:186-198 | a checked insert, update, delete or replace never passes on a standby, alone or behind text that ends in its first cut |
| Mutation.PassesStandbyExactly | src/db/executor.rs:186-198 | what passes on a standby is exactly what begins with a reading word behind its first cut |
| Mutation.UncutIsRefused | src/db/executor.rs:186-198 | every statement begins behind a first cut, or is refused |
| Mutation.ColumnListsLookLikeWrites | src/db/mutation.rs:75-105 | a column list on any expression is a cut; what is classified begins at its `as` and counts as a write |
| Cipher.AssociatedDataIsInjective | src/db/encryption.rs:352-354 | associated data agree only for the same table, row and column, even where row ids hold colons |
| Cipher.EnvelopeOpensExactly | src/db/encryption.rs:26-75 | an envelope opens for its own table, row and column and for nothing else |
| Cipher.EncryptingTwice | src/db/encryption.rs:33-35 | a stored envelope is not sealed again |
| Cipher.IdealServiceExists | src/db/encryption.rs:12-75 | the hypothesis on the cipher can be met |
| Placeholders.LocateUpdateIndices | src/db/encryption.rs:295-330 | the loop over the assignments finds what is specified, or panics where the keywords overlap |
| Placeholders.UpdateIsLocatedExactly | src/db/encryption.rs:295-330 | the located indices are the numbers of placeholders before the value and before the where clause |
| Placeholders.IdIsRightExactly | src/db/encryption.rs:324-329 | the id's own placeholder is located if and only if none stands before it in the where clause |
| Placeholders.OtherConditionsNameNoId | src/db/encryption.rs:324-329 | without the word `id` before an equals sign no id is located |
| Placeholders.LiteralTakesTheNextPlaceholder | src/db/encryption.rs:305-320 | the placeholder located is the assignment's own if and only if it has one, else the next of the statement, and the id's if and only if no later assignment has one |
| Encryption.EncryptParam | src/db/encryption.rs:175-191 | one parameter is sealed in place for the row its id parameter names; nothing else changes |
| Encryption.EncryptNamedUpdateColumn | src/db/encryption.rs:221-251 | the column's parameter of a matching update is sealed in place |
| Encryption.EncryptNamedPayload | src/db/encryption.rs:193-219 | the located payload parameter of an inserted job is sealed in place; without one nothing changes |
| Encryption.EncryptQueryParams | src/db/query_encryption.rs:7-50 | tables and positions are chosen by the statement; without a key nothing changes |
| Encryption.StoredIsReadBackExactly | src/db/executor.rs:544-574 | a sealed value is read back from its row under its column's name, and from nowhere else; only the right table opens it |
| Encryption.SealedNeedsTheKey | src/db/executor.rs:544-553 | without a key exactly the sealed values are errors; others are read as they are |
| Encryption.RowIdExactly | src/db/executor.rs:555-562 | a row's own id counts, whatever the query suggests; the hint is for rows without one |
| Encryption.IdIsItsText | src/db/executor.rs:577-584 | an id is a text or a number, written in decimal |
| Encryption.JoinedTitleIsUnreadable | src/db/executor.rs:544-574 | a thread's title is unreadable under an alias, and under its own name exactly in rows with another id |
| Encryption.InsertSealsExactly | src/db/query_encryption.rs:17-47 | an insert seals exactly the handled positions |
| Inserts.PlaceholdersAreNumbered | src/db/query_encryption.rs:7-50 | a slot's parameter has the number of the question marks before it in the statement |
| Inserts.InsertIsTransparentExactly | src/db/query_encryption.rs:17-47 | for all parameters text for encrypted columns is stored sealed and read back under their names, and all else is stored as it is, if and only if the column list agrees with the sealed numbers |
| Inserts.InsertedRowIsRead | src/db/executor.rs:544-574 | the row an agreeing insert makes is read back as it was given, column by column, whatever the query suggests as its id |
| Inserts.OthersAreAligned | src/features/shared/write_ops.rs:497-499 | the column lists of comments, messages and notifications agree |
| Inserts.ThreadInsertSealsTheKey | src/features/shared/write_ops.rs:421-423 | that of threads does not: the key is sealed as a body and cannot be read, and the body is stored as plaintext |
| Inserts.LiteralsMoveNumbers | src/cli/dev.rs:288-290 | nor does one that has an encrypted column in its usual place and a literal before it |
| Encryption.UpdateSealsExactly | src/db/query_encryption.rs:21-47 | an update of the handled shape seals exactly the placeholders of encrypted columns |
| Encryption.UpdateIsTransparent | src/db/query_encryption.rs:21-47 | a plaintext so updated is stored sealed and read back unchanged from the row of the where clause |
| Encryption.TitleAndBodyAreHandled | src/db/query_encryption.rs:21-24 | an update of title and body by id is of the handled shape |
| Encryption.ListedColumnsAreNotFound | src/db/encryption.rs:286-293 | a column is found only where a parenthesis closes before the first one opens |
| Encryption.JobInsertStaysPlain | src/db/encryption.rs:193-293 | without such a parenthesis, with a column list or none, an inserted job is not located and is stored as plaintext |
| Encryption.UsualJobInsertStaysPlain | src/db/encryption.rs:193-293 | so it is without a list, and with one that starts with its opening parenthesis |
| Encryption.OddJobInsertIsSealed | src/db/encryption.rs:193-293 | with such a parenthesis the payload named in the list is sealed for the id named there, and read back |
| Encryption.LastPlaceholderIsTaken | src/db/encryption.rs:276-284 | if the list names no payload, the last placeholder is taken for it |
| Encryption.JobWithoutIntoIsSealed | src/db/encryption.rs:264-275 | without `into` the second parameter is sealed for the first |
| Encryption.LiteralSealsTheId | src/db/encryption.rs:221-251 | when neither an encrypted column nor any behind it is set from a placeholder, the id's parameter is sealed and no other |
| Encryption.InsertOrStaysPlain | src/db/mutation.rs:107-123 | an insert with a conflict clause is taken for another table and stores plaintext |
| Encryption.HintIsTheRow | src/db/executor.rs:427-434 | a query for one row finds the row's id in its first parameter |
| Composer.BoundariesAreOffsets | src/app/state.rs:525-543 | UTF-8 boundaries are exactly the offsets of characters |
| Composer.ComposerState.CursorIsOnABoundary | src/app/state.rs:489-669 | the cursor is on a boundary within the buffer, which is well-formed |
| Composer.ComposerState.Insert | src/app/state.rs:513-517 | a character is inserted before the cursor |
| Composer.ComposerState.InsertStr | src/app/state.rs:519-523 | a text is inserted before the cursor |
| Composer.ComposerState.ReplaceRange | src/app/state.rs:525-529 | bytes between two boundaries are replaced, which replaces the characters between them |
| Composer.ComposerState.BackspaceKey | src/app/state.rs:531-543 | the character before the cursor goes |
| Composer.ComposerState.DeleteKey | src/app/state.rs:545-556 | the character behind the cursor goes |
| Composer.ComposerState.MoveLeft | src/app/state.rs:558-567 | the cursor moves by one character |
| Composer.ComposerState.MoveRight | src/app/state.rs:569-578 | the cursor moves by one character |
| Composer.ComposerState.MoveWordLeft | src/app/state.rs:580-587 | the byte loops terminate at the character where the word starts |
| Composer.ComposerState.MoveWordRight | src/app/state.rs:589-600 | the byte loops terminate at the character where the next word starts |
| Composer.WordMotionStopsAtWords | src/app/state.rs:580-600 | word motion passes exactly one word and its spaces, stops at a word's start, and stands still only at the ends |
| Composer.ComposerState.ClearBeforeCursor | src/app/state.rs:602-606 | exactly the characters before the cursor go |
| Composer.ComposerState.ClearAfterCursor | src/app/state.rs:608-611 | exactly the characters behind the cursor go |
| Composer.ComposerState.DeleteWordBeforeCursor | src/app/state.rs:613-618 | exactly the characters that word motion passes go |
| Composer.ComposerState.PushHistory | src/app/state.rs:620-626 | commands are remembered, and navigation ends |
| Composer.RememberedExactly | src/app/state.rs:620-623 | what starts with a slash is remembered; the test for blanks never decides |
| Composer.ComposerState.PreviousHistory | src/app/state.rs:628-641 | one entry back, keeping the draft; the position stays valid |
| Composer.ComposerState.NextHistory | src/app/state.rs:643-656 | one entry forward, and the draft behind the last |
| Composer.UpsThenDownsRestore | src/app/state.rs:628-663 | k steps up and min(k, entries) down restore the draft, with the cursor at its end |
| Display.CursorForDisplayPosition | src/app/util.rs:17-52 | the loop over the bytes returns the first character at or behind the click |
| Display.ClickingInvertsLayout | src/app/util.rs:17-52 | in the layout that breaks every `width` characters, clicking at a character's place, newlines included, finds it |
| Display.ShownCharacterIsFoundExactly | src/app/render/composer.rs:34-42 | with the cursor shown in the text, which characters a click at their place finds, and no others |
| Display.NextCharacterIsFound | src/app/render/composer.rs:34-42 | behind the cursor, in its paragraph, the click finds the next character |
| Display.ClickedBytesAreMonotone | src/app/util.rs:17-52 | later clicks never land on earlier bytes, and all land on boundaries within the buffer |
| Fuzzy.FuzzyScore | src/app/state.rs:854-871 | the loop computes the specified score |
| Fuzzy.MatchesExactlySubsequences | src/app/state.rs:854-871 | there is a score exactly for blank needles and for subsequences of the haystack, in lower case |
| Fuzzy.ScoreIsShortestPrefix | src/app/state.rs:863-870 | a scattered match scores by the shortest prefix of the haystack that holds the needle |
| Fuzzy.WholeNeedleScore | src/app/state.rs:854-862 | a needle that occurs whole scores a thousand less the bytes before its first occurrence, a blank one nothing |
| Fuzzy.PaletteState.ApplyFilter | src/app/state.rs:717-729 | the list holds exactly the matching items, by score and then by index, and the selection is in range |
| Fuzzy.ListIsUnique | src/app/state.rs:717-729 | there is only one such list |
| Daemon.UnquoteQuote | src/cli/daemon.rs:1424-1434 | every value survives shell quoting |
| Daemon.ParseDaemonEnvFile | src/cli/daemon.rs:689-706 | the loop over the lines fills the specified map, or refuses a file without marker |
| Daemon.EnvFileRoundTrip | src/cli/daemon.rs:955-1043 | an environment file is rendered unless a value holds a line break or NUL, and is read back exactly |
| Daemon.EnvFileIsRefusedExactly | src/cli/daemon.rs:1039-1043 | it is refused exactly if a value holds a line feed, carriage return or NUL |
| Daemon.HandWrittenValue | src/cli/daemon.rs:1428-1434 | values need not be in single quotes: double ones go, and without any a value stands for itself |
| Daemon.EachEntryIsFound | src/cli/daemon.rs:694-705 | a variable set once is found with its value |
| Daemon.RestartFindsTheDatabase | src/cli/daemon.rs:955-1037 | a restart reads back the database path and URL of the installed configuration |
| Daemon.RestartFindsTheConfiguration | src/cli/daemon.rs:955-1037 | a restart finds every option under the name of its variable as it was when the daemon was installed |
| Daemon.XmlRoundTrip | src/cli/daemon.rs:1436-1452 | five replacements in turn are undone by five in the opposite order (section 4.6 of XML 1.0) |
| Daemon.EscapedHasNoTag | src/cli/daemon.rs:1436-1443 | escaped text opens no tag |
| Daemon.PlistRoundTrip | src/cli/daemon.rs:652-665 | the wrapper path is read back from the property list if it is not empty |
| Daemon.PlistSettings | src/cli/daemon.rs:891-930 | the property list starts the daemon with the system, keeps it alive, and holds its label, directory and log files |
| Daemon.PlistIsRefusedExactly | src/cli/daemon.rs:891-930 | it is refused exactly if its label, directory or name breaks lines |
| Daemon.WrapperRoundTrip | src/cli/daemon.rs:667-687 | a restart accepts the installed script and reads back its environment file's path if that is not empty |
| Daemon.WrapperRunsTheServer | src/cli/daemon.rs:932-953 | the script reads the environment file and replaces itself by the server, run as the service's user, with all three values whole |
| Daemon.WrapperIsRefusedExactly | src/cli/daemon.rs:932-935 | it is refused exactly if one of them breaks lines |

## Left out

- Rendering, themes, panes, hit regions, palette contents, autocomplete and command parsing: user interface with many easy branches.
- libsql, russh, tokio and the cryptographic primitives: an attempt at the lease is one atomic transaction, queues are bounded lists, the cipher is ideal.
- Base64url, Unicode lower-casing and the RFC 3339 text of time stamps: abstract, with only the facts that are needed. Lease stamps are instants, or text that does not parse.
- Migrations of the schema, search repair, the encryption migration and validation queries, and the features behind the server state: their meaning lives in SQL.
- systemd units: their environment file is written unquoted and read with quotes and a leading dash trimmed, so no round trip is promised.
- Client commands, file permissions, system accounts and running commands: plumbing.
- Integer widths: counters, tokens and scores are unbounded, except the attempt counter of `Auth`, which saturates, and the numbers in mouse reports and colours.
- Poisoned locks and failing random numbers: their error paths are not part of the model.
- Pipeline.Connection.RenderOnce: the frame runs alone; `Pipeline.NothingIsLostUnnoticed` covers its single steps between those of the task. The wait of 150 milliseconds is a refusal when the queue is full.
- Composer.ComposerState.Start: autocomplete and inline prompts, which it also resets, are not modelled. Code that writes the public buffer directly is not covered.
- Daemon.ParseDaemonEnvFile: only the refusal, not its message.
- Encryption.EncryptQueryParams: a failure of the cipher itself is not modelled, and each sealed position draws a nonce of its own.
- Encryption.UpdateIsTransparent: for updates by `id = ?` whose encrypted columns are each set once from a placeholder; string literals with commas, question marks or keywords are outside the shape.
- Display.ShownCharacterIsFoundExactly: the widget breaks lines between words where it can, and wide characters take two columns; here every `width` characters make a line.
- Inserts.InsertIsTransparentExactly: for normalised statements with one list of values, each a placeholder or a literal without a question mark; a parameter that is not bound counts as NULL.
- Mutation.StripWithClausePrefix: works on characters instead of bytes, which agree because it only looks for ASCII.
- Fuzzy.PaletteState.ApplyFilter: the library's sort is modelled as an insertion; `Fuzzy.ListIsUnique` shows that any sort by this order gives the same list.
- Fuzzy.FuzzyScore: works on characters and counts their bytes, which the source slices by.
- Admission.AdmissionLimiter.TryAcquire: waits and wake-ups of the semaphore are not modelled; the source never waits on it.
