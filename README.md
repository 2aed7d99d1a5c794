# ChatServer session and presence model

This project models the protocol core of the ChatServer WPF application, `ChatServer/MainWindow.xaml.cs`. The core has three parts.

- **The per-connection session.** `HandleClientAsync` first reads a name frame. It then registers the connection in the shared `clients` dictionary and announces the arrival over UDP. In its read loop it handles `/login <name>` rename commands and chat frames. Chat frames are fanned out to every other connected client. When the loop ends, the entry is removed and the departure is announced.
- **The presence parser.** `HandleUdpMessages` reads each datagram. It trims it, accepts it only when it ends with `ONLINE`, removes every `ONLINE` from it and trims again.
- **The announcement payloads.** These are `<name> ONLINE` and `<name> OFFLINE`.

The Dafny modules follow that split:

- `Text` holds the .NET string operations the code relies on:
  - `Trim`, using the `char.IsWhiteSpace` set;
  - ordinal `StartsWith` and `EndsWith`;
  - `Replace`, with its left-to-right, non-overlapping scan.
- `Presence` holds the payloads, the parser and the UDP receive loop.
- `Protocol` holds one frame's effect as a value (`FrameEffect`), the whole read loop as a fold (`Replay`), and the imperative fan-out loop (`FanOut`).
- `Naming` follows the name a session goes by across a sequence of frames.
- `Sessions` holds the state-changing form of the code:
  - a `Server` class with the registry, the chat log, the datagrams sent and the messages written;
  - a `Session` class with the session's locals and one method per step of `HandleClientAsync`.
  - `Open`, `ApplyRename`, `RejectRename`, `SendChat` and `Close` state their new state directly. `HandleFrame` is proved against `FrameEffect`, and `ReadLoop`, `Serve` and `Run` against `Replay`.
- `Scenarios` works through a two-client conversation on concrete inputs.

Three facts about the code, which the model follows:

- **The registry stores the remote endpoint, not the name** (line 101). The fan-out reads the sender's name from the registry (line 142). So until a client renames itself, the other clients receive `От <ip:port>: <text>`, while the chat log shows the name (line 133). After a rename, the registry holds the new name. `Scenarios.ChatCarriesEndPoint` and `Scenarios.TwoClients` state this outcome.
- **The presence parser removes every `ONLINE`, not only the trailing one.** So a name that contains `ONLINE` comes back altered: `ONLINER ONLINE` is read as `R` (`Presence.NameContainingTagIsMangled`).
- **The log lines are the Russian texts of the code**, character for character.

Two abstractions stand in for the sockets:

- `Server.connected` is the set of clients whose `Connected` property is true.
- `Server.unwritable` is the set of clients whose stream would throw on a write.

A write that throws is swallowed, and the loop goes on to the next recipient.

The messages written are kept in order, in `Server.wire`. A frame's effect gives its writes as a sequence of blocks, one block per chat frame, in frame order. A block is the set of deliveries of one broadcast. The foreach runs over a dictionary, whose order is not fixed, so the order inside a block is left open. `WritesAre` ties the wire to the blocks: the writes of each frame follow those of the frame before, and each block is written once per recipient, with no recipient twice.

## Model

| member | source | states |
|---|---|---|
| Text.Trim | ChatServer/MainWindow.xaml.cs:69 | the result is a slice of the input with only white space before and after it, and it neither starts nor ends with white space |
| Text.TrimOf | ChatServer/MainWindow.xaml.cs:97 | a slice that has only white space around it and no white space at its ends is exactly what Trim returns |
| Text.TrimTrimmed | ChatServer/MainWindow.xaml.cs:97 | Trim leaves a string without white space at its ends unchanged |
| Text.TrimIdempotent | ChatServer/MainWindow.xaml.cs:73 | trimming twice is trimming once |
| Text.TrimIgnoresTrailingSpace | ChatServer/MainWindow.xaml.cs:69 | appending white space does not change the trimmed text |
| Text.TrimKeepsSuffix | ChatServer/MainWindow.xaml.cs:69 | appending a text with non-white ends keeps everything after the leading white space, followed by that text |
| Text.TrimAfterLead | ChatServer/MainWindow.xaml.cs:73 | dropping the leading white space first does not change the trimmed text |
| Text.ReplaceAbsent | ChatServer/MainWindow.xaml.cs:73 | Replace leaves a string without an occurrence of the pattern unchanged |
| Text.ReplaceChangesIffOccurs | ChatServer/MainWindow.xaml.cs:73 | removing a pattern changes the string if and only if the pattern occurs in it, and then makes it strictly shorter |
| Text.ReplaceNoLonger | ChatServer/MainWindow.xaml.cs:73 | a replacement no longer than the pattern never lengthens the string |
| Text.SuffixOccurs | ChatServer/MainWindow.xaml.cs:71-73 | a string that ends with the pattern contains it, so an accepted datagram always loses its ONLINE |
| Text.ReplaceTrailingOccurrence | ChatServer/MainWindow.xaml.cs:73 | for a pattern whose occurrences cannot overlap, an occurrence at the end is replaced and the scan of what precedes it is undisturbed |
| Presence.OnlineTagBorderFree | ChatServer/MainWindow.xaml.cs:73 | no proper prefix of ONLINE is also a suffix of it, so its occurrences never overlap |
| Presence.ParseAnnouncement | ChatServer/MainWindow.xaml.cs:69-75 | a datagram yields a name if and only if its trimmed text ends with ONLINE; the name is trimmed and strictly shorter than that text |
| Presence.RemoveTrailingTag | ChatServer/MainWindow.xaml.cs:73 | removing ONLINE from a text free of ONLINE followed by ONLINE gives back the text |
| Presence.ParseTagged | ChatServer/MainWindow.xaml.cs:69-75 | a datagram that trims to a text free of ONLINE followed by ONLINE is read as that text, trimmed |
| Presence.AnnouncementRoundTrip | ChatServer/MainWindow.xaml.cs:105 | the ONLINE payload of any name free of ONLINE is parsed back as the trimmed name |
| Presence.TrimmedAnnouncementRoundTrip | ChatServer/MainWindow.xaml.cs:105 | the ONLINE payload of a trimmed name free of ONLINE is parsed back as exactly that name |
| Presence.OfflineIgnored | ChatServer/MainWindow.xaml.cs:159 | the OFFLINE payload of any name is never accepted as an arrival |
| Presence.RemoveTagEverywhere | ChatServer/MainWindow.xaml.cs:73 | Replace removes ONLINE in the middle of a text as well as at its end |
| Presence.NameContainingTagIsMangled | ChatServer/MainWindow.xaml.cs:69-75 | the announcement of the name ONLINER is read as R |
| Presence.HandleReceive | ChatServer/MainWindow.xaml.cs:66-81 | one receive logs the arrival line for an accepted datagram, the error line for a failed receive, and nothing otherwise |
| Presence.ReceiveLoop | ChatServer/MainWindow.xaml.cs:64-82 | the receive loop's log is the concatenation of each receive's lines, in order, at most one line per receive |
| Presence.LogAppend | ChatServer/MainWindow.xaml.cs:64-82 | a further receive only appends its own lines to the log |
| Presence.OfflineLeavesNoLine | ChatServer/MainWindow.xaml.cs:71-75 | receiving an OFFLINE payload leaves the log as it was |
| Presence.OwnArrivalLogged | ChatServer/MainWindow.xaml.cs:175 | the server's own ONLINE payload for a trimmed name free of ONLINE, looped back to its receive loop, adds exactly one arrival line with that name, wherever it falls among other receives |
| Protocol.ParseFrame | ChatServer/MainWindow.xaml.cs:115-118 | a frame is chat exactly when it does not start with "/login "; a usable rename carries a non-empty name without white space at its ends |
| Protocol.ParseLogin | ChatServer/MainWindow.xaml.cs:115-118 | a "/login " frame is a usable rename to the trimmed rest exactly when that rest is not empty, and an empty rename otherwise |
| Protocol.LoginCommand | ChatServer/MainWindow.xaml.cs:115-129 | a "/login " frame writes nothing; with a non-empty trimmed rest it stores that rest in the entry and both locals and logs the rename from oldName, and with an empty rest it changes nothing and logs the error with the endpoint |
| Protocol.Broadcast | ChatServer/MainWindow.xaml.cs:135-148 | a chat frame is delivered exactly to the registered, connected clients other than the sender whose stream accepts the write, with the text "От " + registry[sender] + ": " + frame; nothing is delivered when the sender has no entry |
| Protocol.FanOut | ChatServer/MainWindow.xaml.cs:135-148 | the foreach writes each recipient at most once, only to recipients Broadcast allows, and to every one of them |
| Protocol.FrameEffect | ChatServer/MainWindow.xaml.cs:113-149 | a rename command writes nothing; chat and an empty rename leave the registry and locals alone; a usable rename puts the new name in the entry and both locals; a chat frame writes one block, exactly Broadcast; the log line is the rename with oldName and the new name, the empty-login error with the endpoint, or the chat text under clientName |
| Protocol.FrameKeepsInvariant | ChatServer/MainWindow.xaml.cs:115-124 | one frame keeps the session's entry present, holding the endpoint before the first usable rename and the name after it, with oldName equal to clientName and every other entry unchanged |
| Protocol.ReplayKeepsInvariant | ChatServer/MainWindow.xaml.cs:109-150 | the same holds after any sequence of frames, and the set of registered clients is unchanged |
| Protocol.ReplayNeverEchoes | ChatServer/MainWindow.xaml.cs:137 | no block of any frame of a session holds a delivery to its own client |
| Naming.RenameSticks | ChatServer/MainWindow.xaml.cs:115-124 | after a usable rename, and until the next one, the entry and both locals hold the new name |
| Protocol.FrameRenames | ChatServer/MainWindow.xaml.cs:120-123 | a usable rename sets the sender's entry and both locals to the new name |
| Protocol.FrameKeepsName | ChatServer/MainWindow.xaml.cs:126-148 | a frame that is not a usable rename changes neither the registry nor the locals |
| Sessions.TryAdd | ChatServer/MainWindow.xaml.cs:101 | TryAdd inserts the value only when the key is absent and never changes an existing entry |
| Sessions.AddThenRemove | ChatServer/MainWindow.xaml.cs:154 | removing the key a session added restores the registry it found |
| Sessions.Server.constructor | ChatServer/MainWindow.xaml.cs:23 | the server starts with an empty registry and no output |
| Sessions.Server.Accept | ChatServer/MainWindow.xaml.cs:52 | an accepted client is connected and nothing else changes |
| Sessions.Session.constructor | ChatServer/MainWindow.xaml.cs:87-89 | a new session has the remote endpoint and an empty name |
| Sessions.Session.Open | ChatServer/MainWindow.xaml.cs:94-107 | a first read that throws changes nothing before the cleanup; otherwise the name is the trimmed first frame (empty after zero bytes), the entry holds the endpoint, the connection is logged and the ONLINE payload sent |
| Sessions.Session.ApplyRename | ChatServer/MainWindow.xaml.cs:118-124 | a usable rename stores the name in the entry and both locals and logs old and new name |
| Sessions.Session.RejectRename | ChatServer/MainWindow.xaml.cs:126-129 | a rename to nothing only logs the error with the endpoint |
| Sessions.Session.SendChat | ChatServer/MainWindow.xaml.cs:131-148 | chat is logged under clientName; the new writes come after the old ones and are exactly Broadcast, one write per recipient and no recipient twice; the registry and the socket sets are unchanged |
| Sessions.Session.HandleFrame | ChatServer/MainWindow.xaml.cs:113-149 | one pass of the read loop changes the registry, the locals and the log exactly as FrameEffect says, appends the writes of FrameEffect's blocks, and keeps the session invariant and the socket sets |
| Sessions.Session.Close | ChatServer/MainWindow.xaml.cs:152-160 | the cleanup removes exactly the session's entry, closes the connection, logs the departure and sends the OFFLINE payload under the last clientName |
| Sessions.Session.ReadLoop | ChatServer/MainWindow.xaml.cs:109-150 | the read loop over the frames changes the registry, the locals and the log as Replay says, and appends Replay's blocks in frame order, each written once per recipient; the socket sets are unchanged |
| Sessions.Session.Serve | ChatServer/MainWindow.xaml.cs:109-160 | the read loop and the cleanup: Replay's log and blocks in frame order, then the entry removed, the client no longer connected and the departure sent under the final name, with no write to the session's own client |
| Sessions.Session.Run | ChatServer/MainWindow.xaml.cs:85-161 | the whole session: the registry ends as it began, exactly one ONLINE payload (unless the first read throws) and one OFFLINE payload are sent, the log is Replay's and the writes are Replay's blocks in frame order, the client is no longer connected, the unwritable set is unchanged, and nothing is written to the session's own client |
| Scenarios.ChatCarriesEndPoint | ChatServer/MainWindow.xaml.cs:133-142 | before any rename, A's chat is one block holding a single delivery, to B, behind A's endpoint, while the log shows A's name |
| Scenarios.RenameThenChat | ChatServer/MainWindow.xaml.cs:115-142 | "/login Alicia" then "yo" broadcasts nothing for the rename and "От Alicia: yo" to B |
| Scenarios.EmptyLoginKeepsName | ChatServer/MainWindow.xaml.cs:126-129 | "/login " with nothing after it only logs the error |
| Scenarios.ConnectBoth | ChatServer/MainWindow.xaml.cs:94-107 | two sessions that open on one server leave both entries holding endpoints and log both names |
| Scenarios.TwoClients | ChatServer/MainWindow.xaml.cs:94-148 | with two clients registered, A's "hi" is written once, to B, behind A's endpoint |

## Left out

- The accept loop and the fire-and-forget tasks (lines 34-60), and `async` scheduling. Sessions are method calls made one after the other; the model does not cover two sessions interleaving inside one step.
- The snapshot semantics of `ConcurrentDictionary` enumeration, and races between a rename and another session's broadcast. These concern concurrency only, so the registry is a plain map.
- The UDP sockets (lines 163-181). `BroadcastUdpNotification` becomes appending the payload to `Server.datagrams`. The two destinations (broadcast and loopback), send failures and their log line are left out.
- Presence.HandleReceive: the `isRunning` guard on the UDP error line (line 79) is not modelled, because `isRunning` belongs to the window's lifecycle. Every failed receive is logged, as happens while the server runs.
- `OnClosing`, the `isRunning` flag and the server start and stop log lines (lines 43-59, 183-189), because they are the window's lifecycle.
- UTF-8 decoding and encoding and the 1024-byte receive buffer (lines 90, 94, 113, 143). Frames are strings, one per read.
- `AppendChat`'s WPF rendering (lines 191-198). The chat box is the sequence `Server.chat`.
- Culture-sensitive comparison. `StartsWith` and `EndsWith` are ordinal.
- Sessions.Session.Run: covers a session whose reads end, meaning some read returns zero bytes or throws. A connection that never ends is not covered.
- Sessions.Session.Open: requires that the client is not yet a key of the registry. This always holds for a freshly accepted connection.
- Sessions.Server: `connected` and `unwritable` stand for the state of the sockets. `connected` changes only through `Accept` and `Close`. `unwritable` is given by the environment and no modelled operation changes it. So a peer that drops its connection mid-session is not modelled.
