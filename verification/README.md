# w3c-live-archiver, the core as a Dafny model

The system transcribes a Zoom meeting into an IRC channel:

- The **zoom-bot** (C++) joins the meeting and tracks participants and who is speaking. It resamples the meeting audio to 16 kHz mono and authenticates to the Zoom SDK with a JWT. Its configuration comes from a `.env` file and command-line flags.
- The **gateway** (TypeScript) receives the audio and metadata over a WebSocket. It streams audio to Deepgram for recognition with diarization and maps Deepgram's `Speaker N` labels to participant names. It keeps a Redis-backed session with its state (idle, active, paused, error) and its chairs, and publishes transcripts and state changes on a bus.
- The **IRC bot** (TypeScript) coalesces transcript fragments per speaker into chat lines. It announces state changes and turns `!` commands typed in the channel into bus commands.

This project models that core as immutable datatypes and pure step functions. Each handler is one atomic step that returns the new state and a log of what it did to the outside world: bus publishes and store writes, lines said in IRC, audio frames forwarded, connection attempts started, the audio server closed, and exceptions that escape a handler.

- Time is a `now` parameter.
- The bot's flush timer is an armed flag plus an explicit "timer fired" event.
- The recognizer connection is a client whose connect promise is settled by Open, Close and Error events.
- HMAC-SHA256 is a function parameter.
- The process environment is a map. The candidate `.env` files are given by their contents.

One module per source file:

| module | source |
|---|---|
| `SpeakerMap` | `packages/gateway/src/speaker-map.ts` |
| `SessionManager` | `packages/gateway/src/session-manager.ts` |
| `DeepgramClient` | `packages/gateway/src/deepgram-client.ts` |
| `GatewayServer` | `packages/gateway/src/gateway-server.ts` |
| `CommandHandler` | `packages/irc-bot/src/command-handler.ts` |
| `TranscriptionBot` | `packages/irc-bot/src/bot.ts` |
| `ParticipantTracker` | `packages/zoom-bot/src/participant_tracker.cpp` |
| `AudioResampler` | `packages/zoom-bot/src/audio_resampler.cpp` |
| `Jwt` | `packages/zoom-bot/src/jwt.cpp` |
| `EnvConfig` | `packages/zoom-bot/src/config.cpp` |

Supporting modules:

- `SharedTypes` holds the records of `packages/shared/src/types.ts` and the bus channels.
- `Text` holds the JavaScript string semantics the TypeScript code relies on: `split`, `trim` with the ECMAScript white-space set, `.length` in UTF-16 code units, ASCII lower-casing and decimal rendering.
- `MachineInts` holds `byte`, `u32` and `u64`.
- `Wrappers` holds `Option` and `Result`.
- `Arith` holds a few multiplication and division facts.

Some behaviour of the code is surprising. Each case is modelled as written and shown by a lemma:

- A participant rename can give two diarization indices the same name: `SpeakerMap.RenameCanDuplicateName`.
- An empty transcript fragment makes the bot file the next speaker's words under the previous speaker's name: `TranscriptionBot.EmptyFragmentMislabelsNextSpeaker`. The gateway never publishes such a fragment, because it filters blank transcripts.
- The `.env` parser cuts a value at a `#` even inside quotes, although a comment in the code says otherwise: `EnvConfig.HashInsideQuotesCuts`.
- `--meeting-id -1` is accepted and wraps to 2^64 - 1: `EnvConfig.MeetingIdMinusOne`.

## Model

| member | source | states |
|---|---|---|
| Text.Split | packages/irc-bot/src/bot.ts:194 | `split('\n')` returns at least one piece. No piece contains the separator. Joining the pieces with the separator gives the input back. |
| Text.SplitJoin | packages/irc-bot/src/bot.ts:194 | Splitting undoes joining: separator-free pieces joined and split again are the same pieces. |
| Text.JoinAppend | packages/irc-bot/src/bot.ts:194 | Joining two non-empty lists of parts puts exactly one separator between the two joins. |
| Text.SplitAppend | packages/irc-bot/src/bot.ts:194 | Text glued at a separator splits into the parts of the left side followed by the parts of the right side. |
| Text.JsTrim | packages/irc-bot/src/bot.ts:196 | `trim()` is empty exactly when every character is ECMAScript white space or a line terminator. It is never longer than the input. |
| Text.Utf16Length | packages/irc-bot/src/bot.ts:156 | `.length` counts UTF-16 code units: between one and two per character. |
| Text.Utf16LengthAppend | packages/irc-bot/src/bot.ts:155-156 | The UTF-16 length of a concatenation is the sum of the lengths. |
| Text.ToLower | packages/irc-bot/src/command-handler.ts:28 | Lower-casing keeps the length and maps each character on its own: `A`-`Z` to `a`-`z`, every other character to itself. |
| SpeakerMap.ParseLabel | packages/gateway/src/speaker-map.ts:71-74 | A label yields an index exactly when it is `Speaker ` followed by one or more decimal digits. Anything else, including a trailing word, yields none. |
| SpeakerMap.ParseSpeakerLabel | packages/gateway/src/speaker-map.ts:71-74 | Every index rendered as `Speaker N` is read back as N. |
| SpeakerMap.LeadingZeroSharesIndex | packages/gateway/src/speaker-map.ts:74 | `Speaker 01` and `Speaker 1` both read as index 1. |
| SpeakerMap.Stamp | packages/gateway/src/speaker-map.ts:39-43 | There is one snapshot entry per hint, in the hint order, with the hint's id and name, and each is stamped with the same `now`. |
| SpeakerMap.UpdateActiveSpeakers | packages/gateway/src/speaker-map.ts:37-44 | The snapshot is replaced wholesale by the stamped hints. Mappings, insertion order and taken names are untouched. |
| SpeakerMap.FirstForUser | packages/gateway/src/speaker-map.ts:51-55 | The loop stops at the first mapping, in insertion order, whose participant id matches. If it finds none, no mapping has that id. |
| SpeakerMap.AddParticipant | packages/gateway/src/speaker-map.ts:49-57 | Only the first matching mapping takes the new name. Keys, insertion order, taken names and the snapshot are unchanged. With no match nothing changes. |
| SpeakerMap.RemoveParticipant | packages/gateway/src/speaker-map.ts:62-64 | A departure changes nothing. |
| SpeakerMap.FirstEligible | packages/gateway/src/speaker-map.ts:84-88 | This is the first snapshot entry whose age is at most 3000 ms and whose name is not yet taken. If there is none, no entry qualifies. |
| SpeakerMap.Resolve | packages/gateway/src/speaker-map.ts:70-101 | A non-label is returned unchanged and nothing changes. A mapped index returns its stored name and nothing changes. An unmapped one takes the first eligible snapshot entry, adding exactly that key and taking its name. With no eligible entry the label is returned and nothing changes. Existing mappings are never altered, and unique names stay unique. |
| SpeakerMap.Reset | packages/gateway/src/speaker-map.ts:106-110 | Mappings, taken names and the snapshot become empty. |
| SpeakerMap.MappedIndicesGrow | packages/gateway/src/speaker-map.ts:77-96 | Between resets the set of mapped indices only grows. |
| SpeakerMap.MappingIsStable | packages/gateway/src/speaker-map.ts:77-80 | Once an index is mapped, snapshot updates, departures and later resolutions never change the name it resolves to. |
| SpeakerMap.NamesStayUnique | packages/gateway/src/speaker-map.ts:87-94 | Without renames, no two indices carry the same name, and every mapped name is among the taken names. |
| SpeakerMap.FirstComeFirstServed | packages/gateway/src/speaker-map.ts:84-96 | With Alice and Bob both fresh in the snapshot, index 0 resolves to Alice and then index 1 to Bob. |
| SpeakerMap.RenameCanDuplicateName | packages/gateway/src/speaker-map.ts:49-94 | A rename bypasses the taken-name set. So after Alice is renamed Bob, another fresh Bob is mapped to a second index, and two indices share one name. |
| SessionManager.OnCommand | packages/gateway/src/session-manager.ts:57-59 | Registering sets the callback for that type, replacing an earlier one, and leaves the other types and the session alone. |
| SessionManager.HandleCommand | packages/gateway/src/session-manager.ts:48-55 | A command invokes the callback registered for its type, or nothing when there is none. |
| SessionManager.LatestRegistrationWins | packages/gateway/src/session-manager.ts:48-59 | After two registrations for one type, the second is invoked. |
| SessionManager.ChairsFrom | packages/gateway/src/session-manager.ts:66-69 | There is one chair per nick, in order, each added at `now` by nobody. |
| SessionManager.CreateSession | packages/gateway/src/session-manager.ts:61-76 | The new session is Idle, on the given channel, started now, with id `session-<now>`. Its chairs are exactly the given nicks in order. It is written to the store. |
| SessionManager.GetSession | packages/gateway/src/session-manager.ts:78-89 | The in-memory session wins. Otherwise the stored one is returned and kept in memory. |
| SessionManager.UpdateState | packages/gateway/src/session-manager.ts:91-116 | It fails without a session and changes nothing. Otherwise it sets the state, writes the session, and then publishes one state change carrying the old state, the new state and the reason. |
| SessionManager.AddChair | packages/gateway/src/session-manager.ts:118-131 | It fails without a session. A present nick leaves the chairs and the store alone. An absent one is appended with its adder and written. Afterwards the nick is a chair, and the nicks remain free of duplicates. |
| SessionManager.WithoutNick | packages/gateway/src/session-manager.ts:138 | The filter keeps exactly the chairs with another nick, never lengthens the list, and keeps it free of duplicates. |
| SessionManager.WithoutNickAppend | packages/gateway/src/session-manager.ts:138 | Filtering a concatenation is filtering each part and concatenating, so the kept chairs stay in their original order. |
| SessionManager.WithoutNickSingle | packages/gateway/src/session-manager.ts:138 | One chair is kept exactly when its nick differs from the removed one. |
| SessionManager.WithoutNickCounts | packages/gateway/src/session-manager.ts:138 | Every chair with another nick is kept exactly as many times as it occurred, and no chair with the nick remains, so nothing is added. |
| SessionManager.RemoveChair | packages/gateway/src/session-manager.ts:133-140 | It fails without a session. Otherwise the chairs become the filtered list (so every chair with the nick is dropped and the others keep their order and count), nothing else in the session changes, and the session is written. |
| SessionManager.IsChair | packages/gateway/src/session-manager.ts:142-144 | It is true exactly when there is a session and some chair has the nick. |
| SessionManager.GetState | packages/gateway/src/session-manager.ts:146-148 | It returns the session's state, or Idle without a session. |
| SessionManager.ClearSession | packages/gateway/src/session-manager.ts:156-159 | The session is forgotten in memory and its key deleted from the store. |
| SessionManager.StoreStaysWrittenThrough | packages/gateway/src/session-manager.ts:61-159 | After any run of operations, a session held in memory is the record in the store. |
| SessionManager.PersistBeforePublish | packages/gateway/src/session-manager.ts:96-113 | An update's effects are the store write of the new session followed by one publish, so the store already holds the new state when the event goes out. |
| DeepgramClient.SpeakerOf | packages/gateway/src/deepgram-client.ts:63-66 | The label is `Speaker <tag>` of the first word when it has a speaker tag, and `Speaker 0` otherwise. |
| DeepgramClient.SegmentOf | packages/gateway/src/deepgram-client.ts:43-76 | A segment comes out exactly for results that have an alternative, are final or speech-final, and have non-blank text. Its text is the untrimmed transcript, its confidence the alternative's (0 when missing), stamped now. |
| DeepgramClient.SegmentSpeakerIsDiarizationLabel | packages/gateway/src/deepgram-client.ts:63-66 | Every surfaced speaker is a `Speaker N` label that the speaker map can read. |
| DeepgramClient.Connect | packages/gateway/src/deepgram-client.ts:19-34 | `connect` creates the connection with a pending promise. |
| DeepgramClient.Settle | packages/gateway/src/deepgram-client.ts:34-41 | A pending promise takes the outcome. A settled one keeps its own. |
| DeepgramClient.OnEvent | packages/gateway/src/deepgram-client.ts:36-89 | Before `connect` nothing listens. Open sets `connected` and resolves. Close clears `connected` and rejects. Error rejects. Each settles only a pending promise. A transcript changes nothing but may emit its segment. |
| DeepgramClient.SendAudio | packages/gateway/src/deepgram-client.ts:98-110 | A frame goes out, unchanged, exactly when connected. |
| DeepgramClient.Disconnect | packages/gateway/src/deepgram-client.ts:112-121 | With a connection, `connected` becomes false. Without one nothing changes. |
| DeepgramClient.SettledStaysSettled | packages/gateway/src/deepgram-client.ts:36-89 | Once settled, no later event changes the outcome. |
| DeepgramClient.SettlesOnce | packages/gateway/src/deepgram-client.ts:34-89 | After `connect`, the promise ends up decided by the first Open (resolved) or Close/Error (rejected). Transcripts do not settle it. |
| GatewayServer.SetupCommandHandlers | packages/gateway/src/gateway-server.ts:62-88 | Pause, resume and set_chair get callbacks. |
| GatewayServer.Init | packages/gateway/src/gateway-server.ts:26-35 | A new gateway satisfies the gateway invariant, and status and remove_chair have no callback. |
| GatewayServer.StartConnect | packages/gateway/src/gateway-server.ts:90-112 | Starting an attempt replaces any client with a new one whose connect is pending, and sets the in-flight flag. |
| GatewayServer.HandleAudioData | packages/gateway/src/gateway-server.ts:157-181 | Outside Active a frame is dropped and nothing happens. While Active a frame is forwarded if and only if the client is connected. An attempt starts if and only if the client is not connected, none is in flight and `now` has reached the retry time. The step emits at most one output, and only this frame or that start. |
| GatewayServer.HandleTranscript | packages/gateway/src/gateway-server.ts:183-202 | Only while Active, the segment is published with its speaker replaced by the speaker map's resolution, and the map keeps the resolution's state. |
| GatewayServer.HandleMetadata | packages/gateway/src/gateway-server.ts:133-155 | A join goes to `addParticipant`, a speaker update with a list goes to `updateActiveSpeakers`. Departures, other types and malformed messages change nothing. Only the speaker map ever changes. |
| GatewayServer.PublishSegments | packages/gateway/src/gateway-server.ts:99-101 | The segments the client emits produce only publishes on the transcription channel, and only the speaker map changes. |
| GatewayServer.HandleClientEvent | packages/gateway/src/gateway-server.ts:99-118 | While an attempt is pending, Open ends it with a connected client. Close or Error ends it by dropping the client and setting the retry time to `now + 5000`. The session is untouched either way. |
| GatewayServer.DetachedAttemptSettled | packages/gateway/src/gateway-server.ts:111-118 | An attempt whose client `stop` dropped still clears the in-flight flag. A failure still sets the retry time. |
| GatewayServer.ApplyUpdate | packages/gateway/src/gateway-server.ts:204-218 | Without a session the `No active session` error escapes and nothing changes. An accepted change takes its new manager and effects. |
| GatewayServer.HandleCommandEvent | packages/gateway/src/gateway-server.ts:62-88 | Pause and resume from a non-chair do nothing. From a chair they set Paused or Active with reason `Paused by <nick>` or `Resumed by <nick>`. Set_chair adds a non-empty nick, added by the sender, without checking the sender; without a session its `No active session` error escapes. Unhandled types do nothing. |
| GatewayServer.Start | packages/gateway/src/gateway-server.ts:121-131 | A new session with the given chairs becomes Active, publishing Idle to Active with reason `Started`. The recognizer and the speaker map are untouched. |
| GatewayServer.Stop | packages/gateway/src/gateway-server.ts:220-230 | The client is dropped, then the state becomes Idle, the effects are written and published and the audio server is closed last. Without a session the `No active session` error escapes `stop` and the server is not closed. Stop never forwards audio or starts a connection. |
| GatewayServer.BackoffBlocksReconnect | packages/gateway/src/gateway-server.ts:169-178 | With no attempt in flight, no run of events before the retry time starts an attempt. |
| GatewayServer.FramesAreNeverQueued | packages/gateway/src/gateway-server.ts:157-181 | Every forwarded frame is the frame of an audio event of the same run. Frames are dropped, never held for later. |
| CommandHandler.SplitWhitespace | packages/irc-bot/src/command-handler.ts:27 | `split(/\s+/)` gives at least one piece, none containing white space. The first piece is the leading non-white-space run, so it is empty after a leading space. |
| CommandHandler.SplitKeepsEveryOtherCharacter | packages/irc-bot/src/command-handler.ts:27 | The pieces glued together are the input's non-white-space characters in order. |
| CommandHandler.Classify | packages/irc-bot/src/command-handler.ts:31-52 | A name is a known verb exactly when it equals that verb's name. Any other name is unknown. |
| CommandHandler.HandleMessage | packages/irc-bot/src/command-handler.ts:20-53 | Without the `!` prefix there is no reply and no publish. At most one command is published, never remove_chair, and always triggered by the sender. Only `scribe` changes the handler's state. |
| CommandHandler.CommandNameOfWord | packages/irc-bot/src/command-handler.ts:27-28 | The prefix followed by one word names that word, lower-cased. |
| CommandHandler.VerbOfWord | packages/irc-bot/src/command-handler.ts:27-52 | The prefix and any word that lower-cases to a known name selects that verb. |
| CommandHandler.BareCommand | packages/irc-bot/src/command-handler.ts:20-124 | `!` and one word, in any case: pause and resume publish silently; status publishes and answers `🔍 Checking transcription status...`; chair answers the usage and publishes nothing; scribe flips the toggle and answers the new mode; help answers the fixed summary; any other word does nothing. |
| CommandHandler.CommandWithArgument | packages/irc-bot/src/command-handler.ts:20-108 | `!chair <nick>` publishes set_chair for that nick, triggered by the sender, and answers `✓ Added <nick> as meeting chair`. Every other command word ignores its argument and behaves as it does alone. |
| CommandHandler.ScribeName | packages/irc-bot/src/command-handler.ts:44-45 | `!scribe` is read as the scribe command. |
| CommandHandler.ScribeFlips | packages/irc-bot/src/command-handler.ts:109-112 | A scribe message flips the toggle and answers the new mode, with no publish. |
| CommandHandler.ScribeRepliesAlternate | packages/irc-bot/src/command-handler.ts:109-112 | n scribe messages answer exactly the alternation of the mode after each flip. |
| CommandHandler.ScribeAlternates | packages/irc-bot/src/command-handler.ts:109-112 | Reply i is `scribe+` exactly when i is even and the toggle started off, or i is odd and it started on. From the initial off state the replies run `scribe+`, `scribe-`, .... |
| CommandHandler.UpperCasePause | packages/irc-bot/src/command-handler.ts:28 | `!PAUSE` is the pause command. |
| CommandHandler.SpaceAfterPrefixIgnored | packages/irc-bot/src/command-handler.ts:27-51 | White space right after `!` leaves an empty name, so `! pause` does nothing. |
| TranscriptionBot.NonBlank | packages/irc-bot/src/bot.ts:195-199 | Keeps exactly the lines whose trim is non-empty, never more lines than given. |
| TranscriptionBot.NonBlankAppend | packages/irc-bot/src/bot.ts:195-199 | Keeping the non-blank lines of a concatenation is keeping those of each part, in order. |
| TranscriptionBot.NonBlankSingle | packages/irc-bot/src/bot.ts:196 | One line is kept exactly when its trim is non-empty. |
| TranscriptionBot.NonBlankCounts | packages/irc-bot/src/bot.ts:195-199 | Each non-blank line is kept exactly as often as it occurs, and no blank line is kept. |
| TranscriptionBot.SendMessage | packages/irc-bot/src/bot.ts:187-200 | Disconnected, nothing is said. Otherwise the channel gets every non-blank newline-separated part and nothing else, each without a newline. |
| TranscriptionBot.SendMessageAppend | packages/irc-bot/src/bot.ts:187-200 | Two parts joined by a newline are said one after the other: the lines of the first part, in order, then those of the second. |
| TranscriptionBot.BlankLineUnsaid | packages/irc-bot/src/bot.ts:194-198 | A single line that trims to nothing is not said. |
| TranscriptionBot.SingleLineSaid | packages/irc-bot/src/bot.ts:194-198 | A non-blank single-line message is said as it is. |
| TranscriptionBot.Flush | packages/irc-bot/src/bot.ts:164-173 | With no buffer or an empty one nothing happens. Otherwise the line `speaker: text` is sent and the buffer and its timer are dropped. |
| TranscriptionBot.FlushTwice | packages/irc-bot/src/bot.ts:164-173 | A second flush right after the first says nothing and changes nothing. |
| TranscriptionBot.FlushWhileDisconnectedLosesText | packages/irc-bot/src/bot.ts:164-191 | Text flushed while IRC is down is dropped, not kept. |
| TranscriptionBot.ArmTimer | packages/irc-bot/src/bot.ts:175-185 | The single timer of an existing buffer is re-armed. Without a buffer nothing changes. |
| TranscriptionBot.Append | packages/irc-bot/src/bot.ts:151-152 | An empty buffer takes the text as it is. Otherwise the buffer text and the new text are joined by one space. |
| TranscriptionBot.PostTranscript | packages/irc-bot/src/bot.ts:136-162 | Outside Active nothing happens. Another speaker's pending line is said before anything of the new segment. Afterwards pending text fits under 400 code units with its timer armed. |
| TranscriptionBot.AppendSegment | packages/irc-bot/src/bot.ts:146-161 | After appending, a line reaching 400 code units has been flushed and shorter pending text has its timer armed. |
| TranscriptionBot.TimerFired | packages/irc-bot/src/bot.ts:182-184 | An armed timer flushes non-empty text. Otherwise the firing changes nothing beyond disarming. |
| TranscriptionBot.HandleTranscriptEvent | packages/irc-bot/src/bot.ts:96-103 | Only a `transcript` envelope reaches the buffer, and only while Active. |
| TranscriptionBot.Banner | packages/irc-bot/src/bot.ts:116-131 | The banner is the state's text, followed by ` (reason)` when the reason is non-empty. ERROR has no text of its own. |
| TranscriptionBot.ErrorWithoutReasonIsSilent | packages/irc-bot/src/bot.ts:116-133 | An ERROR change without a reason says nothing. |
| TranscriptionBot.HandleStateChange | packages/irc-bot/src/bot.ts:105-134 | The state is set, pending text is flushed first, and the banner is said last. Nothing pending survives. |
| TranscriptionBot.HandleChat | packages/irc-bot/src/bot.ts:50-60 | A chat message publishes what the command handler publishes. No reply means nothing is said. The transcript buffer is untouched. |
| TranscriptionBot.InitialPendingFits | packages/irc-bot/src/bot.ts:31-32 | The initial bot has nothing pending. |
| TranscriptionBot.StepKeepsPendingFits | packages/irc-bot/src/bot.ts:155-161 | Every event keeps pending text under 400 code units with its timer armed. |
| TranscriptionBot.RunKeepsPendingFits | packages/irc-bot/src/bot.ts:155-161 | The same holds after any run of events. |
| TranscriptionBot.PostSameSpeaker | packages/irc-bot/src/bot.ts:150-161 | A same-speaker fragment that still fits is appended after one space, silently, with the timer re-armed. |
| TranscriptionBot.PostOnNoBuffer | packages/irc-bot/src/bot.ts:146-161 | With no buffer, a fragment opens one for its speaker. |
| TranscriptionBot.LongLineSaidAtOnce | packages/irc-bot/src/bot.ts:150-158 | A same-speaker fragment that makes `speaker: text` reach 400 code units has the whole joined line said at once, and the buffer is dropped. |
| TranscriptionBot.LongFirstFragmentSaidAtOnce | packages/irc-bot/src/bot.ts:146-158 | A first fragment that alone reaches 400 code units is said at once and never pends. |
| TranscriptionBot.Coalesce | packages/irc-bot/src/bot.ts:141-161 | While Active, non-empty fragments of one speaker whose joined line stays under 400 become a single pending line: the fragments in order, separated by one space, with nothing said. |
| TranscriptionBot.EmptyFragmentOpensBuffer | packages/irc-bot/src/bot.ts:146-152 | An empty fragment opens an empty buffer. |
| TranscriptionBot.EmptyBufferTakesAnyText | packages/irc-bot/src/bot.ts:142-152 | An empty buffer is never flushed, so whoever speaks next is appended to it. |
| TranscriptionBot.EmptyFragmentMislabelsNextSpeaker | packages/irc-bot/src/bot.ts:142-165 | An empty fragment followed by another speaker's text leaves that text pending under the first speaker's name. |
| ParticipantTracker.Sub64 | packages/zoom-bot/src/participant_tracker.cpp:50 | The `uint64_t` difference is exact when the minuend is larger, and wraps by 2^64 otherwise. |
| ParticipantTracker.AddParticipant | packages/zoom-bot/src/participant_tracker.cpp:4-8 | Inserts or overwrites the id's record with the name, timestamp 0 and inactive status. Other records are unchanged. |
| ParticipantTracker.RemoveParticipant | packages/zoom-bot/src/participant_tracker.cpp:10-17 | Erases only that id. An unknown id is a no-op. |
| ParticipantTracker.UpdateName | packages/zoom-bot/src/participant_tracker.cpp:19-25 | Changes only an existing record's name and never inserts. |
| ParticipantTracker.MarkActive | packages/zoom-bot/src/participant_tracker.cpp:27-34 | Sets an existing record active at the timestamp. Unknown ids are ignored. |
| ParticipantTracker.GetActiveSpeakers | packages/zoom-bot/src/participant_tracker.cpp:36-45 | Exactly the active records, as (id, name) pairs. |
| ParticipantTracker.DecayActivity | packages/zoom-bot/src/participant_tracker.cpp:47-54 | Clears `isActive` exactly for active records whose unsigned age exceeds the threshold. Nothing else changes. |
| ParticipantTracker.GetName | packages/zoom-bot/src/participant_tracker.cpp:56-63 | The stored name, or `Unknown`. |
| ParticipantTracker.GetAllParticipants | packages/zoom-bot/src/participant_tracker.cpp:65-72 | Exactly the stored records. |
| ParticipantTracker.AllParticipantsOnePerId | packages/zoom-bot/src/participant_tracker.cpp:65-72 | There is one record per tracked id. |
| ParticipantTracker.ActiveSpeakersAreActiveRecords | packages/zoom-bot/src/participant_tracker.cpp:36-45 | The active speakers are the active records of the full list, projected. |
| ParticipantTracker.DecayOnlyDeactivates | packages/zoom-bot/src/participant_tracker.cpp:47-54 | Decay only shrinks the active speakers. |
| ParticipantTracker.DecayIdempotent | packages/zoom-bot/src/participant_tracker.cpp:47-54 | Decaying twice at one instant is decaying once. |
| ParticipantTracker.MarkedNowSurvivesDecay | packages/zoom-bot/src/participant_tracker.cpp:27-54 | A record marked at `now` survives a decay at `now`, whatever the threshold. |
| ParticipantTracker.ThresholdIsExclusive | packages/zoom-bot/src/participant_tracker.h:34 | With the default 500 ms, a record is still active 500 ms after marking and inactive at 501 ms. |
| ParticipantTracker.FutureTimestampDeactivates | packages/zoom-bot/src/participant_tracker.cpp:50 | A mark later than the decay clock wraps to a huge age and deactivates. |
| ParticipantTracker.AddThenGetName | packages/zoom-bot/src/participant_tracker.cpp:4-17 | After adding, `getName` returns the name. After removing, it returns `Unknown`. |
| ParticipantTracker.UpdateNameNeverInserts | packages/zoom-bot/src/participant_tracker.cpp:19-25 | Renaming an unknown id leaves it unknown and the record list unchanged. |
| AudioResampler.DecodeSamples | packages/zoom-bot/src/audio_resampler.cpp:5-6 | There are `len / 2` samples, each read little-endian two's-complement from its two bytes. A trailing odd byte is ignored. |
| AudioResampler.DecodeEncode | packages/zoom-bot/src/audio_resampler.cpp:5-6 | Reading the encoded samples back gives the same samples. |
| AudioResampler.TruncDiv | packages/zoom-bot/src/audio_resampler.cpp:25 | C++ division truncates toward zero on both signs. |
| AudioResampler.TruncDivWithin | packages/zoom-bot/src/audio_resampler.cpp:25 | A truncated average stays within any bounds of what it averages. |
| AudioResampler.AverageBetweenMinAndMax | packages/zoom-bot/src/audio_resampler.cpp:20-26 | Each output lies between the smallest and the largest sample of its group. |
| AudioResampler.AverageIsSample | packages/zoom-bot/src/audio_resampler.cpp:25 | So the cast to `int16_t` never wraps. |
| AudioResampler.PartialSumsFitInt32 | packages/zoom-bot/src/audio_resampler.cpp:21-24 | With at most 65536 samples per group, no partial sum leaves `int32_t`. |
| AudioResampler.Ratio | packages/zoom-bot/src/audio_resampler.cpp:13-14 | The ratio is `rate / 16000` clamped to at least 1. Below 32 kHz it is 1. |
| AudioResampler.GroupOf | packages/zoom-bot/src/audio_resampler.cpp:20-24 | Group k has `ratio` samples. |
| AudioResampler.Mean | packages/zoom-bot/src/audio_resampler.cpp:25 | The truncated average of a group is itself a sample value. |
| AudioResampler.Decimate | packages/zoom-bot/src/audio_resampler.cpp:20-26 | One output per complete group, so `count / ratio` outputs. |
| AudioResampler.GroupSum | packages/zoom-bot/src/audio_resampler.cpp:21-24 | The inner loop computes the group's sum. |
| AudioResampler.Resample | packages/zoom-bot/src/audio_resampler.cpp:3-29 | The loops compute the decoded samples at 16 kHz, and otherwise one truncated average per complete group of `ratio`. Away from 16 kHz the output length is `(len / 2) / ratio`. |
| AudioResampler.DecimateByOne | packages/zoom-bot/src/audio_resampler.cpp:13-26 | With ratio 1, decimation is the identity. |
| AudioResampler.SlowRatesPassThrough | packages/zoom-bot/src/audio_resampler.cpp:8-14 | Any rate below 32 kHz returns the input samples unchanged. |
| AudioResampler.From48k | packages/zoom-bot/src/audio_resampler.cpp:13-26 | At 48 kHz, groups of three: `(len / 2) / 3` outputs, with a partial group dropped. |
| AudioResampler.TruncationTowardZero | packages/zoom-bot/src/audio_resampler.cpp:25 | The average of -2, -2, -1 is -1 (truncated), not -2 (floored). |
| Jwt.StandardTable | packages/zoom-bot/src/jwt.cpp:11 | The table has 64 characters: the standard alphabet of section 4 of RFC 4648. |
| Jwt.TableIsUrlAlphabet | packages/zoom-bot/src/jwt.cpp:26-30 | After replacing `+` and `/`, the table is the URL-safe alphabet of section 5 of RFC 4648. |
| Jwt.GroupValue | packages/zoom-bot/src/jwt.cpp:16-18 | The value assembled from up to three bytes fits in 24 bits. |
| Jwt.GroupIndices | packages/zoom-bot/src/jwt.cpp:20-23 | The shifts and masks pick out the group's four 6-bit indices, most significant first. |
| Jwt.StandardGroup | packages/zoom-bot/src/jwt.cpp:16-23 | Each group gives four characters. |
| Jwt.StandardEncode | packages/zoom-bot/src/jwt.cpp:15-24 | The first loop's output length is the unpadded length plus the padding. |
| Jwt.ToUrlSafe | packages/zoom-bot/src/jwt.cpp:27-30 | `+` becomes `-`, `/` becomes `_`, and everything else stays in place. |
| Jwt.StripPadding | packages/zoom-bot/src/jwt.cpp:32-34 | Exactly the trailing `=` run is removed. |
| Jwt.LengthFormulas | packages/zoom-bot/src/jwt.cpp:13 | The reserved `4 * ((len + 2) / 3)` is the unpadded length plus the padding. |
| Jwt.UrlSafeStandardIsPaddedUrl | packages/zoom-bot/src/jwt.cpp:15-30 | The first two loops give the base64url encoding followed by its padding. |
| Jwt.StripPaddingOfPadded | packages/zoom-bot/src/jwt.cpp:32-34 | Stripping removes exactly that padding. |
| Jwt.AsWrittenIsUrlEncode | packages/zoom-bot/src/jwt.cpp:10-37 | `base64UrlEncode` computes exactly the unpadded base64url of section 5 of RFC 4648, as Appendix C of RFC 7515 uses it. |
| Jwt.EncodedAlphabet | packages/zoom-bot/src/jwt.cpp:11-34 | The output uses only `A-Z a-z 0-9 - _`: never `+`, `/`, `=` or `.`. |
| Jwt.EncodedLength | packages/zoom-bot/src/jwt.cpp:15-34 | The length is `4 * (n / 3)` plus 0, 2 or 3 as `n mod 3` is 0, 1 or 2. |
| Jwt.EncodeCompositional | packages/zoom-bot/src/jwt.cpp:15-24 | Encoding splits at any multiple of three bytes. |
| Jwt.DecodeEncode | packages/zoom-bot/src/jwt.cpp:15-24 | A base64url decoder recovers every input from its encoding. |
| Jwt.AsciiBytes | packages/zoom-bot/src/jwt.cpp:39-41 | The bytes of a `std::string`, one per character, are the character codes for ASCII text. |
| Jwt.GenerateZoomJwt | packages/zoom-bot/src/jwt.cpp:43-82 | The token splits on `.` into the encoded header, the encoded payload (`appKey`, `iat`, `exp = iat + expiry`, `tokenExp = exp`) and the encoded HMAC of the first two sections, as in section 7.1 of RFC 7515. |
| Jwt.ThreeSections | packages/zoom-bot/src/jwt.cpp:64-78 | Three dot-free texts joined by dots split back into those three. |
| Jwt.TokenSectionsDecode | packages/zoom-bot/src/jwt.cpp:60-78 | The three sections decode to the header, the payload, and the HMAC of the text before the second dot. |
| EnvConfig.CTrim | packages/zoom-bot/src/config.cpp:9-14 | `trim` removes exactly the leading and trailing runs of space, tab, CR and LF, giving "" for input made only of those. |
| EnvConfig.CTrimIdempotent | packages/zoom-bot/src/config.cpp:9-14 | Trimming twice is trimming once. |
| EnvConfig.CTrimFixesTrimmed | packages/zoom-bot/src/config.cpp:9-14 | `trim` leaves a text unchanged exactly when neither end is one of the four. |
| EnvConfig.Unquote | packages/zoom-bot/src/config.cpp:32-36 | One matching pair of surrounding `"` or `'` is removed from a value of at least two characters. Anything else is kept. |
| EnvConfig.StripComment | packages/zoom-bot/src/config.cpp:38-42 | Everything from the first `#` is dropped and the rest re-trimmed. A value without `#` is untouched. |
| EnvConfig.ValueOf | packages/zoom-bot/src/config.cpp:29-42 | The stored value never contains `#`. |
| EnvConfig.ParseLine | packages/zoom-bot/src/config.cpp:22-42 | Blank lines, `#` lines and lines without `=` set nothing. A parsed key is trimmed and free of `=`, and a parsed value is free of `#`. |
| EnvConfig.SetEnv | packages/zoom-bot/src/config.cpp:44 | `setenv(..., 0)` keeps an existing variable. An empty name is rejected. |
| EnvConfig.GetEnv | packages/zoom-bot/src/config.cpp:48-51 | The variable's value, or the default when it is unset. |
| EnvConfig.ApplyLine | packages/zoom-bot/src/config.cpp:21-45 | One line never removes or changes a variable already set. |
| EnvConfig.ApplyLines | packages/zoom-bot/src/config.cpp:20-46 | Neither do the lines in order. |
| EnvConfig.LoadEnvFile | packages/zoom-bot/src/config.cpp:16-46 | Loading a file only adds variables. |
| EnvConfig.FirstExisting | packages/zoom-bot/src/config.cpp:55-68 | The first existing candidate is loaded, and only it. With none, nothing is. |
| EnvConfig.Stoull | packages/zoom-bot/src/config.cpp:80 | `stoull` fails with an invalid argument on a text without digits. |
| EnvConfig.StoullOfDecimal | packages/zoom-bot/src/config.cpp:80 | The decimal rendering of any 64-bit number reads back as it. |
| EnvConfig.StoullRange | packages/zoom-bot/src/config.cpp:80 | A decimal rendering below 2^64 reads back as itself; from 2^64 on, with or without a minus sign, `stoull` fails with out of range. |
| EnvConfig.FromEnv | packages/zoom-bot/src/config.cpp:70-74 | Key and secret come from the environment (or ""), the name defaults to `Transcription Bot`, and the URL is `ws://localhost:` plus the port (default 8080). The meeting number is 0. |
| EnvConfig.ParseArgs | packages/zoom-bot/src/config.cpp:76-95 | The flags never touch the credentials. Help is shown only when `--help` or `-h` appears. |
| EnvConfig.SetFlag | packages/zoom-bot/src/config.cpp:79-86 | `--meeting-id` goes through `stoull`. The other three flags set their field to the value as given. |
| EnvConfig.Load | packages/zoom-bot/src/config.cpp:53-114 | A loaded configuration has a non-empty key and secret and a non-zero meeting number. Help is shown only when asked for. |
| EnvConfig.ParseAtKey | packages/zoom-bot/src/config.cpp:25-29 | `key=raw` splits at the first `=`, so the key is the text before it. |
| EnvConfig.ParseWritten | packages/zoom-bot/src/config.cpp:22-44 | Parsing undoes writing `key=value` for a plain key and value, even when the value contains `=`. |
| EnvConfig.ParseQuoted | packages/zoom-bot/src/config.cpp:32-42 | A double-quoted value loses its quotes and keeps what is inside, up to the first `#`. |
| EnvConfig.HashInsideQuotesCuts | packages/zoom-bot/src/config.cpp:38-42 | `KEY="a#b"` sets `a`: the cut at `#` ignores the quotes. |
| EnvConfig.CommentCut | packages/zoom-bot/src/config.cpp:38-42 | A value is cut at its first `#` and re-trimmed. |
| EnvConfig.SkippedLines | packages/zoom-bot/src/config.cpp:22-26 | A comment line and a line without `=` set nothing. |
| EnvConfig.ProcessEnvironmentWins | packages/zoom-bot/src/config.cpp:44 | A variable set in the process is never replaced by the file. |
| EnvConfig.FirstLineWins | packages/zoom-bot/src/config.cpp:44 | The first line that sets an unset variable decides its value. |
| EnvConfig.LoneFlagIgnored | packages/zoom-bot/src/config.cpp:79-86 | A value flag with nothing after it is ignored. |
| EnvConfig.ValueLooksLikeHelp | packages/zoom-bot/src/config.cpp:79-87 | `--name --help` sets the name to `--help`. |
| EnvConfig.LaterFlagWins | packages/zoom-bot/src/config.cpp:83-84 | A repeated flag keeps the later value. |
| EnvConfig.MeetingIdDecimal | packages/zoom-bot/src/config.cpp:79-80 | `--meeting-id N` sets exactly N. |
| EnvConfig.MeetingIdMinusOne | packages/zoom-bot/src/config.cpp:80 | `--meeting-id -1` wraps to 2^64 - 1 instead of failing. |
| EnvConfig.MeetingIdWithoutDigits | packages/zoom-bot/src/config.cpp:80 | A meeting id without any digit is an invalid argument. |
| EnvConfig.NoMeetingFlagKeepsZero | packages/zoom-bot/src/config.cpp:76-95 | Without `--meeting-id` or help, the flags parse and the meeting number stays as it was. |
| EnvConfig.NothingConfigured | packages/zoom-bot/src/config.cpp:70-101 | With no file, flags or variables, the defaults apply and loading fails on the credentials. |
| EnvConfig.CredentialsAndMeetingLoad | packages/zoom-bot/src/config.cpp:53-113 | With a key, a secret and a non-zero meeting id, loading yields exactly those with the defaults. |
| EnvConfig.MeetingIdRequired | packages/zoom-bot/src/config.cpp:103-107 | With credentials but no meeting id, loading fails on the meeting id. |

## Left out

- Network and library plumbing is not modelled: the WebSocket server, the IRC client and its reconnect timer, the Redis clients and their subscriptions, the Deepgram SDK construction and its options, the Zoom SDK, GLib and `main`. Store writes and publishes are effect records, the IRC channel is a list of lines said, and the connection to Deepgram is events.
- JSON encoding and decoding of bus envelopes, stored sessions and metadata frames is not modelled. Messages arrive as datatypes, and a malformed metadata frame is one constructor.
- Logging to the console and the `emit` of `connected`, `error` and `closed` (which only log) are not modelled.
- `async` interleavings are not modelled: each handler is one step. `connectToDeepgram` is two steps, the start of the attempt and the settling of its promise. An attempt that `stop` detached settles through `DetachedAttemptSettled`.
- HMAC-SHA256 (OpenSSL) is a function parameter and `std::time` is a parameter, so the token's signature bytes are whatever that function returns.
- The filesystem is not modelled: `std::filesystem::exists`, `ifstream::is_open`, `getline` and printing the absolute path. A candidate `.env` file is given by its content (or as absent), and a file that exists but cannot be opened is not distinguished from one that loads nothing.
- `exit(0)`/`exit(1)` after help or failed validation, and the uncaught exception of a bad `--meeting-id`, are outcomes of `EnvConfig.Load`. The usage text is not modelled.
- The audio raw-data handler (RMS in floating point), the WebSocket client and the audio-subscription retry are not part of this model.
- Records in `packages/shared/src/types.ts` that the core never reads (audio chunk, Deepgram, IRC and gateway configuration) are not modelled.
- SpeakerMap.ParseLabel: reads the digits as an exact natural number, where `parseInt` loses precision beyond 2^53. Labels that long never come from the recognizer.
- Text.ToLower: lower-cases ASCII only, where `toLowerCase` maps all of Unicode. No non-ASCII character lower-cases into the letters of a command name except the Kelvin sign, which gives `k`, and no command name contains `k`. So which command a message selects is the same.
- AudioResampler.Resample: sums without the `int32_t` bound, so it does not model the overflow (undefined behaviour) possible for input rates of at least 65537 × 16000 Hz. `AudioResampler.PartialSumsFitInt32` shows that no overflow occurs at smaller ratios.
- AudioResampler.DecodeSamples: reads samples little-endian, the byte order of the platforms the bot targets. The alignment of the `reinterpret_cast` is not modelled.
- Jwt.GenerateZoomJwt: takes `now + expirySeconds` as an unbounded integer, without the `time_t` range. It takes the key as bytes that are spliced into the payload verbatim, with no JSON escaping, as the source does.
- TranscriptionBot.TimerFired: a timer firing on an empty buffer only disarms it. The source's buffer keeps a handle to the expired timer, which has no further effect.
- What the process does after an exception escapes a gateway handler (`Raised`) is not modelled: an unawaited callback's rejection and the rest of the `SIGINT` handler in `index.ts` belong to the process, not to the gateway.
- GatewayServer.StartConnect: disconnecting the previous client is part of replacing it. Its `finish` call is not modelled further.
