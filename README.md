# A verified model of the AI-Note sync core and its companion services

AI-Note is a local-first note-taking application, with desktop (Electron) and
mobile (React Native) apps. Notes are plain Markdown files in a workspace
folder, versioned with git. This project models the application's core in
Dafny and proves properties of that model.

The primary core is the desktop's peer-to-peer sync subsystem:

- **Manifest builder and delta computer** (`sync_protocol.dfy`): content
  hashes tagged `sha256:`, one manifest entry per Markdown note, and the
  delta that puts each path in exactly one of toSend, toReceive and
  conflicts, or in none of them.
- **Pairing and token auth** (`sync_auth.dfy`): the 6-digit PIN, the pairing
  TTL, the length-checked XOR comparison with no early exit, token minting,
  and the lookup that refreshes `lastUsed`.
- **Sync orchestrator** (`sync_service.dfy`): a class holding the status,
  which notifies only on change, plus:
  - the transports and the connected devices;
  - the single outstanding pairing, consumed when it succeeds;
  - the paired tokens;
  - an event log;
  - conflict resolution over a note store.
- **BLE transport** (`ble_transport.dfy`):
  - chunking at MTU - 1;
  - START/DATA/END frames carrying a 4-byte big-endian chunk count;
  - the receive buffer and the per-connection auth gate;
  - the rule "compress only if it gets smaller".
- **LAN transport** (`lan_transport.dfy`):
  - Bearer header parsing (section 2.1 of RFC 6750);
  - sequential port probing and per-route input validation;
  - the per-socket WebSocket auth state machine. Its close codes
    4001/4002/4003 are private-use codes (section 7.4.2 of RFC 6455); its
    normal close is 1000 (section 7.4.1).

The secondary cores are the self-contained services around the sync core:

- dotted-path configuration with deep merge, on desktop and mobile;
- the CJK-aware tokenizer, the line matcher, the 32-bit path hash and the
  document map of search, on desktop and mobile;
- the editor stores (a tab store on desktop, a single-note store on mobile)
  and the desktop file-tree store;
- path validation, tree ordering, trash naming and new-note templates of
  both file services;
- the clipboard parsers and the collision-free file name used when pasting;
- git status classification, diff counting, commit staging and the
  `updated:` rewrite on desktop;
- the mobile unified-diff hunk parser (hunk headers as in section 2.2.2.2 of
  the GNU diffutils manual);
- the recent-workspace lists, i18n lookup, and the relative-time buckets of
  the history panel.

Shared modules:

- `Wrappers`: Option and Result.
- `Strings`: split, join, search and replace, with JavaScript's semantics.
- `Bytes` and `Utf8`: bytes and UTF-8 encoding.
- `Ordering`: a total order standing in for string comparison.
- `Paths`: `basename`, `extname` and `relative` on '/' paths.
- `Json`: JSON values and member access.
- `FileTree`: file-tree nodes and directory listings.
- `SyncModels`: the shared sync records and constants.

How the model treats the things it cannot run:

- The clock, randomness, SHA-256, gzip, the file system, git, IPC, FlexSearch
  and the BLE/HTTP stacks are not modelled. Their answers arrive as
  parameters, and the calls made to them are recorded in logs that the
  contracts describe.
- Stores whose fields the source updates in place are classes.
- Loops in the source are loops here, each proved against a function that
  specifies it.

## Model

| member | source | states |
|---|---|---|
| SyncProtocol.ContentHash | apps/desktop/src/main/services/sync/sync-protocol.ts:8-10 | the hash starts with "sha256:" and carries two hex digits per digest byte |
| SyncProtocol.ContentHashDistinguishesDigests | apps/desktop/src/main/services/sync/sync-protocol.ts:8-10 | two contents hash alike exactly when their SHA-256 digests agree |
| SyncProtocol.FileEntry | apps/desktop/src/main/services/sync/sync-protocol.ts:40-61 | a markdown file gives at most one manifest entry; a read or parse failure gives none; an `updated` Date cannot parse is the Invalid (NaN) time |
| SyncProtocol.ScanDir | apps/desktop/src/main/services/sync/sync-protocol.ts:18-64 | the walk appends exactly the scan of the listing to the manifest so far, and nothing when the directory cannot be read |
| SyncProtocol.BuildManifest | apps/desktop/src/main/services/sync/sync-protocol.ts:12-16 | the manifest is the scan of the workspace root, empty when the root cannot be read |
| SyncProtocol.RelPathVisible | apps/desktop/src/main/services/sync/sync-protocol.ts:31-44 | the relative path of a visible entry under visible directories has no hidden segment and ends with the entry's name |
| SyncProtocol.ScanListVisible | apps/desktop/src/main/services/sync/sync-protocol.ts:30-63 | every manifest entry is a ".md" note and no segment of its path is hidden or node_modules |
| SyncProtocol.ScanEntryVisible | apps/desktop/src/main/services/sync/sync-protocol.ts:33-62 | one entry contributes only visible markdown notes, recursing into directories |
| SyncProtocol.Dedup | apps/desktop/src/main/services/sync/sync-protocol.ts:85 | the Set of paths has no duplicates and holds exactly the paths of its input |
| SyncProtocol.MapOf | apps/desktop/src/main/services/sync/sync-protocol.ts:70-78 | the Map holds exactly the manifest's paths, each under its own path |
| SyncProtocol.MapOfLastWins | apps/desktop/src/main/services/sync/sync-protocol.ts:73-78 | the entry kept for a path is its last occurrence in the manifest |
| SyncProtocol.PushPaths | apps/desktop/src/main/services/sync/sync-protocol.ts:91-116 | deciding a path appends it to exactly the one list the decision names |
| SyncProtocol.DeltaOverMembership | apps/desktop/src/main/services/sync/sync-protocol.ts:87-118 | a path is in a list of the delta iff it was visited and classified into that list |
| SyncProtocol.DeltaOverEntries | apps/desktop/src/main/services/sync/sync-protocol.ts:87-118 | entries sent are the local map's entries, received ones the remote map's, conflicts pair both |
| SyncProtocol.DeltaOverDistinct | apps/desktop/src/main/services/sync/sync-protocol.ts:87-118 | visiting distinct paths lists no path twice |
| SyncProtocol.AllPathsMembership | apps/desktop/src/main/services/sync/sync-protocol.ts:85 | a path is visited iff it is in the local or the remote map |
| SyncProtocol.DeltaDecides | apps/desktop/src/main/services/sync/sync-protocol.ts:66-121 | both directions: sent iff only local or local newer with other content; received iff only remote or remote newer; conflict iff both present, content differs and neither time is later (equal, or NaN on either side) |
| SyncProtocol.DeltaInvalidTimeConflicts | apps/desktop/src/main/services/sync/sync-protocol.ts:104-117 | a NaN time on either side makes differing content a conflict, whatever the other side's time |
| SyncProtocol.DeltaValidTimes | apps/desktop/src/main/services/sync/sync-protocol.ts:104-117 | with two valid times and differing content: sent iff local is later, received iff remote is later, conflict iff equal |
| SyncProtocol.DeltaSkipsInSync | apps/desktop/src/main/services/sync/sync-protocol.ts:99-102 | a path with equal content hashes on both sides is in no list |
| SyncProtocol.DeltaDistinct | apps/desktop/src/main/services/sync/sync-protocol.ts:66-121 | no path appears twice within or across the three lists |
| SyncProtocol.DeltaCovers | apps/desktop/src/main/services/sync/sync-protocol.ts:87-118 | every path of either manifest is listed unless both sides hold the same content |
| SyncProtocol.DeltaSymmetric | apps/desktop/src/main/services/sync/sync-protocol.ts:91-116 | swapping the manifests swaps sent and received and keeps the conflicts |
| SyncProtocol.DeltaEntries | apps/desktop/src/main/services/sync/sync-protocol.ts:88-116 | each listed entry is the last local or remote entry under its path |
| SyncProtocol.DeltaConflictsSwapped | apps/desktop/src/main/services/sync/sync-protocol.ts:111-115 | the same conflict seen from the other side has its two entries swapped |
| SyncProtocol.IndexByPath | apps/desktop/src/main/services/sync/sync-protocol.ts:70-78 | the loop builds MapOf of the manifest and the keys in first-insertion order |
| SyncProtocol.UniqueInOrder | apps/desktop/src/main/services/sync/sync-protocol.ts:85 | the loop yields the distinct keys in first-insertion order |
| SyncProtocol.ComputeDelta | apps/desktop/src/main/services/sync/sync-protocol.ts:66-121 | computeDelta returns Delta of the two manifests |
| SyncProtocol.ClassifyPaths | apps/desktop/src/main/services/sync/sync-protocol.ts:87-118 | the loop over the paths returns DeltaOver of them |
| SyncAuth.GeneratePin | apps/desktop/src/main/services/sync/sync-auth.ts:8-11 | the PIN has exactly six decimal digits and its decimal value is the random draw |
| SyncAuth.GeneratePinInjective | apps/desktop/src/main/services/sync/sync-auth.ts:8-11 | two draws give the same PIN iff they are equal |
| SyncAuth.GenerateToken | apps/desktop/src/main/services/sync/sync-auth.ts:13-15 | the token is 64 hex characters and decodes back to the 32 random bytes |
| SyncAuth.CreatePairingInfo | apps/desktop/src/main/services/sync/sync-auth.ts:17-35 | the PIN is the generated one, it expires SYNC_PAIRING_TTL after now, and the QR payload carries device, PIN, address, port and service |
| SyncAuth.ConstantTimeEquals | apps/desktop/src/main/services/sync/sync-auth.ts:49-53 | the OR of the XORs is zero iff the strings are equal, and every position is compared |
| SyncAuth.ValidatePin | apps/desktop/src/main/services/sync/sync-auth.ts:37-54 | accepted iff not expired and equal to the expected PIN; every character is compared when the lengths match in time |
| SyncAuth.CreateAuthToken | apps/desktop/src/main/services/sync/sync-auth.ts:56-64 | a fresh 64-character token for the device, created and last used now |
| SyncAuth.FirstTokenIndex | apps/desktop/src/main/services/sync/sync-auth.ts:70-77 | the first stored token equal to the presented one, or none equal at all |
| SyncAuth.ValidateToken | apps/desktop/src/main/services/sync/sync-auth.ts:66-84 | no match leaves the store alone; a match returns that first token with lastUsed set to now, and the store holds the stamped token in its place |
| SyncService.StatusEvents | apps/desktop/src/main/services/sync/sync-service.ts:306-311 | 'status-changed' is emitted, once and with the new status, exactly when the status changes |
| SyncService.TransportCallsExact | apps/desktop/src/main/services/sync/sync-service.ts:85-112 | start (stop) is called for a transport iff it is registered and not running (running); the opposite call is never made |
| SyncService.TransportCallsLength | apps/desktop/src/main/services/sync/sync-service.ts:85-112 | each transport is called at most once, and not at all once all are in the wanted state |
| SyncService.Revoked | apps/desktop/src/main/services/sync/sync-service.ts:168-173 | the kept tokens are exactly the listed tokens of every other device |
| SyncService.RevokedConcat | apps/desktop/src/main/services/sync/sync-service.ts:170-172 | the filter works piece by piece, so kept tokens keep their order |
| SyncService.RevokedNoToken | apps/desktop/src/main/services/sync/sync-service.ts:168-173 | revoking a device without tokens leaves the list unchanged |
| SyncService.RevokedIdempotent | apps/desktop/src/main/services/sync/sync-service.ts:168-173 | revoking twice is revoking once |
| SyncService.BackupPath | apps/desktop/src/main/services/sync/sync-service.ts:281-298 | the backup lies under .ai-note/sync-conflicts/ and ends "_<source>_<basename>" |
| SyncService.BackupPathHidden | apps/desktop/src/main/services/sync/sync-service.ts:281-298 | a backup path is never one the manifest lists (it is under the hidden config directory) |
| SyncService.ConflictCopyPathAsWritten | apps/desktop/src/main/services/sync/sync-service.ts:270-274 | as written: with an extension, the target still ends with it |
| SyncService.ConflictCopyPath | apps/desktop/src/main/services/sync/sync-service.ts:270-274 | ".conflict" inserted before the extension: nine characters longer, never the note itself, same extension |
| SyncService.ConflictCopyPathAgrees | apps/desktop/src/main/services/sync/sync-service.ts:270-274 | as written and corrected agree on every path with an extension |
| SyncService.ConflictCopyPathInjective | apps/desktop/src/main/services/sync/sync-service.ts:270-274 | two paths with the same extension never share a conflict copy |
| SyncService.ConflictCopyAsWrittenCollides | apps/desktop/src/main/services/sync/sync-service.ts:271-273 | as written, any two paths without an extension (such as "notes/todo" and "ideas") both get ".conflict"; corrected, the copy is the path followed by ".conflict" |
| SyncService.ResolveWithoutContent | apps/desktop/src/main/services/sync/sync-service.ts:238-279 | without remote content, or with no strategy that matches a case, no note is written |
| SyncService.ResolveKeepLocal | apps/desktop/src/main/services/sync/sync-service.ts:247-252 | 'local' only adds the remote backup; every note the manifest could list is unchanged |
| SyncService.ResolveKeepRemote | apps/desktop/src/main/services/sync/sync-service.ts:254-266 | 'remote' writes the remote text, first backing up an existing local note; other notes unchanged |
| SyncService.ResolveKeepBoth | apps/desktop/src/main/services/sync/sync-service.ts:268-277 | 'both' writes the remote text at the copy path as written (".conflict" for a path without extension) and keeps the note unless it is that very path; with an extension the copy is the intended one beside the note |
| SyncService.SyncService.constructor | apps/desktop/src/main/services/sync/sync-service.ts:38-63 | a service with no transports, idle, no connections and no pairing |
| SyncService.SyncService.SetStatus | apps/desktop/src/main/services/sync/sync-service.ts:306-311 | the status is set and only the events of StatusEvents are emitted |
| SyncService.SyncService.RegisterTransport | apps/desktop/src/main/services/sync/sync-service.ts:122-124 | Map.set: a new type goes last, a known type keeps its place with the new transport |
| SyncService.SyncService.GetTransport | apps/desktop/src/main/services/sync/sync-service.ts:126-128 | the registered transport of the type, or none |
| SyncService.SwitchAll | apps/desktop/src/main/services/sync/sync-service.ts:86-95 | the start loop (and the stop loop at lines 100-109): each registered transport not in the wanted state gets one call, in registration order; it changes state exactly when the call succeeds, and no others change |
| SyncService.SyncService.StartSync | apps/desktop/src/main/services/sync/sync-service.ts:85-97 | start is called on each stopped transport in registration order, failures are swallowed, the status ends idle |
| SyncService.SyncService.StopSync | apps/desktop/src/main/services/sync/sync-service.ts:99-112 | stop is called on each running transport, connections are cleared, the status ends idle |
| SyncService.SyncService.GeneratePairing | apps/desktop/src/main/services/sync/sync-service.ts:132-137 | the new pairing replaces any outstanding one and its PIN is kept for checking |
| SyncService.SyncService.ValidatePairing | apps/desktop/src/main/services/sync/sync-service.ts:139-166 | a token is issued iff a pairing is outstanding, its PIN is non-empty, unexpired and equal; then it is appended and saved and the pairing is consumed; otherwise nothing changes |
| SyncService.SyncService.RevokePairing | apps/desktop/src/main/services/sync/sync-service.ts:168-180 | the device's tokens are dropped and saved, its connection forgotten, 'device-disconnected' always emitted |
| SyncService.SyncService.ValidateToken | apps/desktop/src/main/services/sync/sync-service.ts:188-191 | the first equal paired token stamped with now, changed in memory but not saved |
| SyncService.SyncService.AddConnectedDevice | apps/desktop/src/main/services/sync/sync-service.ts:195-198 | the device is inserted or replaced by id and 'device-connected' emitted |
| SyncService.SyncService.RemoveConnectedDevice | apps/desktop/src/main/services/sync/sync-service.ts:200-203 | the id is deleted and 'device-disconnected' emitted, even for an unknown id |
| SyncService.SyncService.NoteContent | apps/desktop/src/main/services/sync/sync-service.ts:219-221 | the stored text of the note, or a failure when it does not exist |
| SyncService.SyncService.ApplyRemoteNote | apps/desktop/src/main/services/sync/sync-service.ts:223-229 | the note is created or overwritten with the content |
| SyncService.SyncService.DeleteNote | apps/desktop/src/main/services/sync/sync-service.ts:231-234 | an existing note moves to its trash path; a missing note is an error and nothing changes |
| SyncService.SyncService.BackupConflictFile | apps/desktop/src/main/services/sync/sync-service.ts:281-298 | the content is written at BackupPath and that path returned |
| SyncService.SyncService.ResolveConflict | apps/desktop/src/main/services/sync/sync-service.ts:238-279 | the notes afterwards are ResolvedNotes of the strategy, with the 'both' copy at the as-written path, the only change |
| SyncService.SyncService.Initialize | apps/desktop/src/main/services/sync/sync-service.ts:67-83 | without a sync config, or disabled, nothing starts; enabled starts sync |
| SyncService.SyncService.Dispose | apps/desktop/src/main/services/sync/sync-service.ts:114-118 | sync is stopped: stop calls, no connections, idle |
| BleTransport.FreshConnection | apps/desktop/src/main/services/sync/ble-sync-transport.ts:184-196 | a new connection is unauthenticated, has no device, the preferred MTU, and empty buffer and counters |
| BleTransport.ChunksFlatten | apps/desktop/src/main/services/sync/ble-sync-transport.ts:558-569 | the chunks put back together are the payload |
| BleTransport.ChunksShape | apps/desktop/src/main/services/sync/ble-sync-transport.ts:558-569 | no chunks iff no data; every chunk is non-empty and at most the chunk size, all but the last full, and the count is the least that covers the data |
| BleTransport.ChunkCountAtPreferredMtu | apps/desktop/src/main/services/sync/ble-sync-transport.ts:558-569 | at the preferred MTU of 247, 10240 bytes take 42 chunks |
| BleTransport.StartPacket | apps/desktop/src/main/services/sync/ble-sync-transport.ts:520-524 | START is five bytes: the tag, then the count as a big-endian 32-bit integer that reads back as the count |
| BleTransport.DataPacket | apps/desktop/src/main/services/sync/ble-sync-transport.ts:528-531 | a DATA packet is the tag followed by the chunk |
| BleTransport.Frames | apps/desktop/src/main/services/sync/ble-sync-transport.ts:517-541 | the data channel carries START with the count, one DATA per chunk in order, then END |
| BleTransport.ReceivePacket | apps/desktop/src/main/services/sync/ble-sync-transport.ts:472-507 | ignored without an authenticated connection or for an empty packet; never touches authentication, device, MTU or transfer |
| BleTransport.ReceiveDataPackets | apps/desktop/src/main/services/sync/ble-sync-transport.ts:491-497 | DATA packets append their chunks and are counted |
| BleTransport.ReceiveFrames | apps/desktop/src/main/services/sync/ble-sync-transport.ts:472-507 | the frames of some chunks leave exactly those chunks, counted and expected |
| BleTransport.SendReceiveRoundTrip | apps/desktop/src/main/services/sync/ble-sync-transport.ts:472-541 | what sendChunks emits, fed to handleDataWrite, rebuilds the payload with both counters equal to the chunk count |
| BleTransport.MaybeCompress | apps/desktop/src/main/services/sync/ble-sync-transport.ts:545-556 | compressed iff above the threshold and gzip is strictly shorter; never longer than the input |
| BleTransport.GateError | apps/desktop/src/main/services/sync/ble-sync-transport.ts:311-324 | a parse failure answers "Invalid control message", no connection "No connection", and a non-auth message before authentication "Not authenticated"; otherwise no error |
| BleTransport.AuthDevice | apps/desktop/src/main/services/sync/ble-sync-transport.ts:359-375 | the registered peer carries the token's device id and name, transport BLE, paired and connected |
| BleTransport.BleSyncTransport.constructor | apps/desktop/src/main/services/sync/ble-sync-transport.ts:84-86 | not running, no connection, no subscribers, nothing sent |
| BleTransport.BleSyncTransport.Reply | apps/desktop/src/main/services/sync/ble-sync-transport.ts:511-515 | a response reaches the peer only when the control channel has a subscriber |
| BleTransport.BleSyncTransport.SendControlResponse | apps/desktop/src/main/services/sync/ble-sync-transport.ts:511-515 | the control log grows by Reply and nothing else changes |
| BleTransport.BleSyncTransport.EffectiveMtu | apps/desktop/src/main/services/sync/ble-sync-transport.ts:559 | the connection's MTU, or the preferred one without a connection or with MTU 0 |
| BleTransport.BleSyncTransport.ChunkBuffer | apps/desktop/src/main/services/sync/ble-sync-transport.ts:558-569 | the loop returns Chunks of the data at EffectiveMtu() - 1 bytes |
| BleTransport.BleSyncTransport.SendChunks | apps/desktop/src/main/services/sync/ble-sync-transport.ts:517-541 | nothing without a data subscriber; a count of 2^32 or more throws before sending; otherwise exactly Frames |
| BleTransport.BleSyncTransport.Accept | apps/desktop/src/main/services/sync/ble-sync-transport.ts:184-196 | a fresh connection replaces any previous one |
| BleTransport.BleSyncTransport.MtuChange | apps/desktop/src/main/services/sync/ble-sync-transport.ts:208-213 | the MTU is recorded only while connected |
| BleTransport.BleSyncTransport.SubscribeControl | apps/desktop/src/main/services/sync/ble-sync-transport.ts:271-274 | the control channel gains its subscriber |
| BleTransport.BleSyncTransport.UnsubscribeControl | apps/desktop/src/main/services/sync/ble-sync-transport.ts:275-278 | the control channel loses its subscriber |
| BleTransport.BleSyncTransport.SubscribeData | apps/desktop/src/main/services/sync/ble-sync-transport.ts:298-301 | the data channel gains its subscriber |
| BleTransport.BleSyncTransport.UnsubscribeData | apps/desktop/src/main/services/sync/ble-sync-transport.ts:302-305 | the data channel loses its subscriber |
| BleTransport.BleSyncTransport.Disconnect | apps/desktop/src/main/services/sync/ble-sync-transport.ts:198-206 | an identified peer is unregistered with 'device-disconnected'; connection and subscribers are dropped |
| BleTransport.BleSyncTransport.Start | apps/desktop/src/main/services/sync/ble-sync-transport.ts:88-126 | a no-op when running; otherwise running exactly when the library loads and the adapter powers on |
| BleTransport.BleSyncTransport.Stop | apps/desktop/src/main/services/sync/ble-sync-transport.ts:128-144 | only when running and loaded: unregisters an identified peer with 'device-disconnected', drops connection and subscribers, stops; the sent logs and the service's status, notes and tokens are unchanged, and nothing changes when not running |
| BleTransport.BleSyncTransport.HandleDataWrite | apps/desktop/src/main/services/sync/ble-sync-transport.ts:472-507 | the connection becomes ReceivePacket of the packet; nothing is sent |
| BleTransport.BleSyncTransport.HandleAuth | apps/desktop/src/main/services/sync/ble-sync-transport.ts:356-383 | a known token (the first equal paired token) authenticates the connection, stamps that token's lastUsed in the in-memory paired list, registers the peer with one 'device-connected' event and answers auth-ok; an unknown one answers auth-fail and changes nothing else |
| BleTransport.BleSyncTransport.SendPayload | apps/desktop/src/main/services/sync/ble-sync-transport.ts:392-398 | the ready message, then the frames; a send failure adds the error reply |
| BleTransport.BleSyncTransport.HandleRequestManifest | apps/desktop/src/main/services/sync/ble-sync-transport.ts:385-403 | a failed build answers "Failed to build manifest"; else manifest-ready with the chunk count, then the frames of the maybe-compressed JSON; the control log gains exactly that reply, plus the error reply when sending fails |
| BleTransport.BleSyncTransport.HandleRequestFile | apps/desktop/src/main/services/sync/ble-sync-transport.ts:405-424 | a missing note answers "File not found"; else file-ready with path, count and compression flag, then the frames; the control log gains exactly that reply, plus the error reply when sending fails |
| BleTransport.BleSyncTransport.HandleSendFileStart | apps/desktop/src/main/services/sync/ble-sync-transport.ts:426-433 | with a connection: a new transfer with empty buffer and counters, acknowledged |
| BleTransport.BleSyncTransport.HandleSendFileEnd | apps/desktop/src/main/services/sync/ble-sync-transport.ts:435-459 | the received bytes become the note and are acknowledged, or "Failed to apply file"; either way the buffer empties and the transfer ends |
| BleTransport.BleSyncTransport.HandleDeleteFile | apps/desktop/src/main/services/sync/ble-sync-transport.ts:461-468 | an existing note moves to the trash and is acknowledged; a missing one answers "File not found" |
| BleTransport.BleSyncTransport.HandleControlWrite | apps/desktop/src/main/services/sync/ble-sync-transport.ts:311-354 | a gate error is the only reply and changes nothing; past the gate each message type has its handler's effect: auth authenticates a known token's device, stamps its lastUsed, registers it with a 'device-connected' event and answers auth-ok, or answers auth-fail, the manifest and file requests announce and send their frames or answer their error, a transfer start resets the buffer, a transfer end applies the note or answers its error and clears the buffer, a delete trashes the note or answers "File not found", sync-complete sets idle, emitting 'status-changed' only when the status was not idle already, and acknowledges, and an unknown type does nothing |
| BleTransport.BleSyncTransport.Broadcast | apps/desktop/src/main/services/sync/ble-sync-transport.ts:573-591 | sent only to an authenticated peer with a control subscriber |
| LanTransport.MdnsName | apps/desktop/src/main/services/sync/lan-sync-transport.ts:121 | the name is the app name, '-', and the first eight characters of the device id (all of a shorter id) |
| LanTransport.ServiceType | apps/desktop/src/main/services/sync/lan-sync-transport.ts:122 | stripping a leading '_' and a trailing "._tcp" never lengthens the name |
| LanTransport.ServiceTypeOfDecorated | apps/desktop/src/main/services/sync/lan-sync-transport.ts:122 | "_x._tcp" is stripped back to x |
| LanTransport.SyncServiceType | apps/desktop/src/main/services/sync/lan-sync-transport.ts:122 | the sync service is advertised as type "ai-note-sync" |
| LanTransport.Advertisement | apps/desktop/src/main/services/sync/lan-sync-transport.ts:117-133 | the published record names this device and port, version "1" |
| LanTransport.BearerToken | apps/desktop/src/main/services/sync/lan-sync-transport.ts:152-158 | a token is read iff the header starts with "Bearer ", and it is the rest of the header |
| LanTransport.BearerTokenOfHeader | apps/desktop/src/main/services/sync/lan-sync-transport.ts:152-158 | the token written into a Bearer header is read back |
| LanTransport.AuthRejection | apps/desktop/src/main/services/sync/lan-sync-transport.ts:148-167 | no 401 iff the header is a Bearer header whose token is stored; otherwise status 401 |
| LanTransport.NewSession | apps/desktop/src/main/services/sync/lan-sync-transport.ts:303-312 | a new socket is open, unauthenticated, with its timer armed and nothing sent |
| LanTransport.CloseSession | apps/desktop/src/main/services/sync/lan-sync-transport.ts:310 | closing an open socket moves it to closing with the code; otherwise nothing happens |
| LanTransport.Deliver | apps/desktop/src/main/services/sync/lan-sync-transport.ts:376-380 | a message is sent only to an open socket |
| LanTransport.LanDevice | apps/desktop/src/main/services/sync/lan-sync-transport.ts:328-336 | the registered device carries the token's id and name, type mobile, transport LAN, paired, connected, seen now |
| LanTransport.LanSyncTransport.constructor | apps/desktop/src/main/services/sync/lan-sync-transport.ts:34-37 | not running, no sockets, no advertisement |
| LanTransport.LanSyncTransport.Start | apps/desktop/src/main/services/sync/lan-sync-transport.ts:39-73 | a no-op when running; else it succeeds iff some port of the next eleven listens with all before it in use, then listens on the first such and advertises it |
| LanTransport.CloseAll | apps/desktop/src/main/services/sync/lan-sync-transport.ts:81-83 | every socket an authenticated device maps to is closed with code 1000 (closing twice changes nothing), and every other socket is left as it was |
| LanTransport.LanSyncTransport.Stop | apps/desktop/src/main/services/sync/lan-sync-transport.ts:75-93 | closes every authenticated socket with 1000, forgets them, withdraws the advertisement; other sockets untouched |
| LanTransport.LanSyncTransport.Authenticate | apps/desktop/src/main/services/sync/lan-sync-transport.ts:148-167 | the reply is AuthRejection; a pass refreshes the first matching token's lastUsed and nothing else |
| LanTransport.LanSyncTransport.HandleStatus | apps/desktop/src/main/services/sync/lan-sync-transport.ts:176-185 | the public status names this device, the app, version 0.1.0 and the workspace folder |
| LanTransport.LanSyncTransport.HandlePair | apps/desktop/src/main/services/sync/lan-sync-transport.ts:187-202 | 400 unless all three fields are given, changing nothing; then 401 with tokens and pairing unchanged or, for a valid PIN, 200 with the new token appended and saved and the pairing consumed |
| LanTransport.LanSyncTransport.HandleManifest | apps/desktop/src/main/services/sync/lan-sync-transport.ts:206-214 | 401 from the gate, else 200 with the manifest |
| LanTransport.LanSyncTransport.HandleDelta | apps/desktop/src/main/services/sync/lan-sync-transport.ts:216-229 | 401 from the gate; a missing manifest answers its error with status 200; else the delta of local and posted |
| LanTransport.LanSyncTransport.HandleGetNote | apps/desktop/src/main/services/sync/lan-sync-transport.ts:231-248 | 400 for an empty path, 404 for a missing note, else 200 with path and content |
| LanTransport.LanSyncTransport.HandlePutNote | apps/desktop/src/main/services/sync/lan-sync-transport.ts:250-264 | 400 without a path or content, else the note is written and 200 |
| LanTransport.LanSyncTransport.HandleDeleteNote | apps/desktop/src/main/services/sync/lan-sync-transport.ts:266-283 | 400 for an empty path, 404 for a missing note, else it moves to the trash and 200 |
| LanTransport.LanSyncTransport.HandleComplete | apps/desktop/src/main/services/sync/lan-sync-transport.ts:285-294 | after the gate, the service goes idle and the reply carries the time |
| LanTransport.LanSyncTransport.OnSocketOpen | apps/desktop/src/main/services/sync/lan-sync-transport.ts:303-312 | a new unauthenticated session with its timer armed, under a fresh id |
| LanTransport.LanSyncTransport.OnAuthTimeout | apps/desktop/src/main/services/sync/lan-sync-transport.ts:308-312 | a socket still unauthenticated when its timer fires is closed with 4001 |
| LanTransport.LanSyncTransport.OnSocketMessage | apps/desktop/src/main/services/sync/lan-sync-transport.ts:314-356 | before auth: a known token authenticates, files and registers the device and answers auth-success; an unknown one closes 4003, anything else 4002; after auth, request-sync sets syncing; malformed input is ignored |
| LanTransport.LanSyncTransport.OnSocketClose | apps/desktop/src/main/services/sync/lan-sync-transport.ts:358-364 | the timer is cleared; an authenticated socket's device is unfiled and unregistered |
| LanTransport.LanSyncTransport.LocalIp | apps/desktop/src/main/services/sync/lan-sync-transport.ts:103-113 | the address of the first external IPv4 interface in enumeration order, and 127.0.0.1 when there is none |
| LanTransport.LanSyncTransport.Broadcast | apps/desktop/src/main/services/sync/lan-sync-transport.ts:371-393 | every authenticated socket still open gets the message; no other socket does |
| ConfigDesktop.Merge | apps/desktop/src/main/services/config-service.ts:112-129 | the merge has the keys of both sides, and a key only the target has keeps the target's value |
| ConfigDesktop.MergeOverlay | apps/desktop/src/main/services/config-service.ts:112-129 | along a path of source objects, the merge shows the source's non-object value there, or the target's when the source has none |
| ConfigDesktop.SetPath | apps/desktop/src/main/services/config-service.ts:92-104 | the key path's first key is added and every other top-level key keeps its value |
| ConfigDesktop.SetThenGet | apps/desktop/src/main/services/config-service.ts:80-106 | after set(key, v), get(key) returns v, unless the path runs through an array |
| ConfigDesktop.SetKeepsSiblings | apps/desktop/src/main/services/config-service.ts:96-104 | every path that branches off the key path, at any depth, reads as before |
| ConfigDesktop.Loaded | apps/desktop/src/main/services/config-service.ts:52-57 | the loaded config has at least the keys of the defaults it is merged over, and keeps their values where the file supplies nothing; null or unparsable content gives those defaults |
| ConfigDesktop.ConfigService.constructor | apps/desktop/src/main/services/config-service.ts:47-50 | the config path is <workspace>/.ai-note/config.json; the config is the defaults object as it now is, with every object-valued section shared with it |
| ConfigDesktop.ConfigService.Save | apps/desktop/src/main/services/config-service.ts:69-78 | the config as it reads now is written when writable; a failure is only logged |
| ConfigDesktop.ConfigService.Load | apps/desktop/src/main/services/config-service.ts:52-67 | a read file is merged over the shared defaults object as earlier sets left it, and the sections the file does not supply stay shared; a missing file keeps the config and saves it; other failures reset to a spread of that defaults object |
| ConfigDesktop.ConfigService.Get | apps/desktop/src/main/services/config-service.ts:80-90 | the loop returns At of the dot-split key, undefined past a null or non-object |
| ConfigDesktop.ConfigService.Set | apps/desktop/src/main/services/config-service.ts:92-106 | the config becomes SetPath of the dot-split key, then it is saved; a write below a shared section changes that section of the defaults object, and any other write unshares the top-level property |
| ConfigDesktop.ConfigService.GetAll | apps/desktop/src/main/services/config-service.ts:108-110 | a copy equal to the config |
| ConfigDesktop.SharedSectionLeaks | apps/desktop/src/main/services/config-service.ts:47-103 | a value one service sets below any object-valued section of the defaults is what the next service built from the same defaults object reads at that key |
| ConfigDesktop.SetSurvivesFailedLoad | apps/desktop/src/main/services/config-service.ts:52-103 | a value set below a section survives a later load that fails, because the reset spread holds the same section object |
| ConfigDesktop.SetLeaksIntoNextService | apps/desktop/src/main/services/config-service.ts:49 | a font size of 20 set in one service is what the next service starts from, not 16 |
| ConfigDesktop.NextServiceAfterSet | apps/desktop/src/main/services/config-service.ts:47-50 | with the intended deep copies (the Cloned constructor), a new service starts from the built-in defaults whatever another service set |
| ConfigMobile.Base | apps/mobile/src/services/config-service.ts:37 | a source object is merged into the target's object there, or into {} when the target has nothing |
| ConfigMobile.Merge | apps/mobile/src/services/config-service.ts:29-43 | the merge has the keys of both sides, and a key only the target has keeps the target's value |
| ConfigMobile.MergeIntoEmpty | apps/mobile/src/services/config-service.ts:29-43 | merging into nothing copies the source |
| ConfigMobile.MergeOverlay | apps/mobile/src/services/config-service.ts:29-43 | along source objects over no target array or string, the merge shows the source's value there, or the target's when the source has none |
| ConfigMobile.MergeAgreesWithDesktop | apps/mobile/src/services/config-service.ts:29-43 | wherever the target holds objects or nothing under the source's objects, the mobile and desktop merges agree |
| ConfigMobile.MergeSpreadsArray | apps/mobile/src/services/config-service.ts:37 | a target array under a source object is spread into its indexes on mobile, dropped on desktop |
| ConfigMobile.SetPath | apps/mobile/src/services/config-service.ts:84-91 | a successful set adds the first key and keeps every other top-level key's value |
| ConfigMobile.SetFailsOnPrimitive | apps/mobile/src/services/config-service.ts:87-91 | set throws exactly when an intermediate on the key path is a boolean, number or string |
| ConfigMobile.SetThenGet | apps/mobile/src/services/config-service.ts:74-93 | when set succeeds off arrays, get(key) returns the value set |
| ConfigMobile.SetKeepsSiblings | apps/mobile/src/services/config-service.ts:87-91 | a successful set leaves every path that branches off the key path as it was |
| ConfigMobile.Loaded | apps/mobile/src/services/config-service.ts:53-56 | the loaded config has at least the default keys; null or unparsable content gives the defaults |
| ConfigMobile.ConfigService.constructor | apps/mobile/src/services/config-service.ts:45-47 | the config starts as the defaults with no file named |
| ConfigMobile.ConfigService.Save | apps/mobile/src/services/config-service.ts:66-72 | nothing is written until load has named the file |
| ConfigMobile.ConfigService.Load | apps/mobile/src/services/config-service.ts:49-64 | the file is <workspace>/.ai-note/config.json; an existing one is merged over the defaults, a missing one gets the defaults written, any failure leaves the defaults |
| ConfigMobile.ConfigService.Get | apps/mobile/src/services/config-service.ts:74-82 | the loop returns At of the dot-split key, undefined once a step is null or undefined |
| ConfigMobile.ConfigService.Set | apps/mobile/src/services/config-service.ts:84-93 | a successful walk writes the value and saves; a TypeError changes nothing |
| ConfigMobile.ConfigService.GetAll | apps/mobile/src/services/config-service.ts:95-97 | a copy equal to the config |
| EditorDesktop.GetFileName | apps/desktop/src/renderer/src/stores/editor-store.ts:30-33 | the last '/' segment, non-empty, slash-free and right after the last '/'; the whole path when it has no '/' or ends with one |
| EditorDesktop.ExtensionlessInDottedFolder | apps/desktop/src/renderer/src/stores/editor-store.ts:46-50 | for any dotted folder and any file name without '.' (such as "notes.v2/todo"), the path is not text as written, because its "extension" holds a '/'; taken from the file name, it is text |
| EditorDesktop.TextFileAgrees | apps/desktop/src/renderer/src/stores/editor-store.ts:46-50 | when the text after the last '.' holds no '/', the file-name reading and the as-written one agree |
| EditorDesktop.TextFileIgnoresFolder | apps/desktop/src/renderer/src/stores/editor-store.ts:46-50 | whether a file opens as text depends only on its file name, never on the folders above it |
| EditorDesktop.CloseRemovesOne | apps/desktop/src/renderer/src/stores/editor-store.ts:122 | with paths unique, filtering by the closed id removes just that position and keeps the store valid |
| EditorDesktop.Removed | apps/desktop/src/renderer/src/stores/editor-store.ts:122 | the tabs without one position, in order |
| EditorDesktop.EditorStore.constructor | apps/desktop/src/renderer/src/stores/editor-store.ts:61-64 | no tabs, no active tab, preview shown |
| EditorDesktop.EditorStore.OpenFile | apps/desktop/src/renderer/src/stores/editor-store.ts:66-104 | a file the as-written isTextFile rejects (so also "notes.v2/todo") goes to the system opener; an open path becomes active; otherwise the text read becomes a new clean active tab at the end keyed by its path; a failed read changes nothing |
| EditorDesktop.EditorStore.ReloadFile | apps/desktop/src/renderer/src/stores/editor-store.ts:106-117 | every tab on the path takes the text read as content and saved content, so none of them is dirty; a failed read changes nothing |
| EditorDesktop.EditorStore.CloseTab | apps/desktop/src/renderer/src/stores/editor-store.ts:119-138 | the tab leaves the list; if it was active, its right neighbour, else its left, else none becomes active; otherwise the active tab stays |
| EditorDesktop.EditorStore.SetActiveTab | apps/desktop/src/renderer/src/stores/editor-store.ts:140-143 | any id becomes the active id |
| EditorDesktop.EditorStore.UpdateContent | apps/desktop/src/renderer/src/stores/editor-store.ts:145-149 | only the content of the tabs with that id changes |
| EditorDesktop.EditorStore.TogglePreview | apps/desktop/src/renderer/src/stores/editor-store.ts:151-153 | the preview flag flips, so two toggles restore it |
| EditorDesktop.EditorStore.SaveFile | apps/desktop/src/renderer/src/stores/editor-store.ts:155-169 | the tab's content is written to its path and then becomes its saved content; an unknown id or a failed write changes nothing |
| EditorDesktop.EditorStore.IsDirty | apps/desktop/src/renderer/src/stores/editor-store.ts:176-180 | false for an unknown id; dirty only when a tab with that id has unsaved content |
| EditorDesktop.EditorStore.GetActiveTab | apps/desktop/src/renderer/src/stores/editor-store.ts:171-174 | the tab whose id is the active id, or none matches |
| EditorDesktop.DirtyMeansEdited | apps/desktop/src/renderer/src/stores/editor-store.ts:176-180 | a valid store is dirty for an id iff some tab with that id is edited |
| EditorMobile.NoteTitle | apps/mobile/src/stores/editor-store.ts:25-26 | the file name unchanged when it holds no ".md", otherwise three characters shorter (only the first ".md" goes) |
| EditorMobile.NoteTitleOfMarkdown | apps/mobile/src/stores/editor-store.ts:25-26 | a dot-free stem under a folder, with ".md" appended, is titled by the stem |
| EditorMobile.EditorStore.constructor | apps/mobile/src/stores/editor-store.ts:21 | no current note, nothing written |
| EditorMobile.EditorStore.OpenFile | apps/mobile/src/stores/editor-store.ts:23-35 | the text read becomes the clean current note with its title and path; a failed read changes nothing |
| EditorMobile.EditorStore.UpdateContent | apps/mobile/src/stores/editor-store.ts:37-42 | with a note open only its content changes and it is dirty iff the content differs from the saved text; with none nothing happens |
| EditorMobile.EditorStore.SaveFile | apps/mobile/src/stores/editor-store.ts:44-50 | a clean note is not written; a dirty one is written once and its saved content becomes its content; a failed write changes nothing |
| EditorMobile.EditorStore.CloseFile | apps/mobile/src/stores/editor-store.ts:52 | no current note, so not dirty |
| FileStore.Preorder | apps/desktop/src/renderer/src/stores/file-store.ts:29-38 | the depth-first visiting order of findNode, holding at least the top level |
| FileStore.FirstFound | apps/desktop/src/renderer/src/stores/file-store.ts:29-38 | the first element matched by id or path, and none exactly when no element matches |
| FileStore.FirstFoundConcat | apps/desktop/src/renderer/src/stores/file-store.ts:29-38 | searching a concatenation finds in the first part before the second |
| FileStore.FindNode | apps/desktop/src/renderer/src/stores/file-store.ts:29-38 | a returned node has that id or path |
| FileStore.FindNodeIsFirstInPreorder | apps/desktop/src/renderer/src/stores/file-store.ts:29-38 | findNode returns the first node in pre-order whose id or path is the argument, or none when no node is |
| FileStore.GetParentPath | apps/desktop/src/renderer/src/stores/file-store.ts:41-45 | empty for a single segment; otherwise the path is the result, '/', and the last segment |
| FileStore.ChildOfParent | apps/desktop/src/renderer/src/stores/file-store.ts:41-45 | a plain name placed under a parent has that parent and that last segment |
| FileStore.RenameTarget | apps/desktop/src/renderer/src/stores/file-store.ts:114-115 | parent/newName, or newName when the parent is empty |
| FileStore.RenameStaysInFolder | apps/desktop/src/renderer/src/stores/file-store.ts:110-122 | a rename to a plain name keeps the parent folder and takes the new name |
| FileStore.MoveTargetPlaced | apps/desktop/src/renderer/src/stores/file-store.ts:125-127 | none exactly when the source's last segment is empty; otherwise a path in the target folder with the source's name |
| FileStore.Toggled | apps/desktop/src/renderer/src/stores/file-store.ts:66-75 | exactly the id's membership flips |
| FileStore.ToggledTwice | apps/desktop/src/renderer/src/stores/file-store.ts:66-75 | toggling twice gives back the same set |
| FileStore.FileTreeStore.constructor | apps/desktop/src/renderer/src/stores/file-store.ts:47-51 | empty tree, no selection, nothing expanded, no clipboard |
| FileStore.FileTreeStore.LoadFileTree | apps/desktop/src/renderer/src/stores/file-store.ts:53-60 | a fetched tree replaces the tree; a failed fetch keeps it; nothing else changes |
| FileStore.FileTreeStore.SelectFile | apps/desktop/src/renderer/src/stores/file-store.ts:62-64 | the id becomes the selection; nothing else changes |
| FileStore.FileTreeStore.ToggleFolder | apps/desktop/src/renderer/src/stores/file-store.ts:66-75 | the expanded set becomes Toggled of the old one; nothing else changes |
| FileStore.FileTreeStore.DeleteFile | apps/desktop/src/renderer/src/stores/file-store.ts:95-108 | an unknown id does nothing; otherwise the found node's path is deleted and, on success, the selection is cleared only when it was this id and the tree is reloaded |
| FileStore.FileTreeStore.RenameFile | apps/desktop/src/renderer/src/stores/file-store.ts:110-121 | an unknown id does nothing; otherwise one rename from the node's path to RenameTarget, and a reload on success |
| FileStore.FileTreeStore.MoveFile | apps/desktop/src/renderer/src/stores/file-store.ts:123-134 | nothing happens for an empty last segment or a target equal to the source; otherwise one rename into the target folder and a reload on success |
| FileStore.FileTreeStore.CopyToClipboard | apps/desktop/src/renderer/src/stores/file-store.ts:136-138 | the clipboard holds the path marked copy; nothing else changes |
| FileStore.FileTreeStore.CutToClipboard | apps/desktop/src/renderer/src/stores/file-store.ts:140-142 | the clipboard holds the path marked cut; nothing else changes |
| FileStore.FileTreeStore.PasteFiles | apps/desktop/src/renderer/src/stores/file-store.ts:144-180 | the internal clipboard wins: a copy keeps it, a cut renames into the target unless already there and then clears it; success returns the clipboard path and reloads, failure returns nothing; without a clipboard the system paste's result is returned |
| FileHandlers.MatchAt | apps/desktop/src/main/ipc/file-handlers.ts:10 | a lazy match opened at p closes after its opening tag and inside the text |
| FileHandlers.MatchAtIsLazy | apps/desktop/src/main/ipc/file-handlers.ts:10 | the match at p closes at the nearest '</string>' with no line terminator in between, and none exists when it gives none |
| FileHandlers.Exec | apps/desktop/src/main/ipc/file-handlers.ts:12 | a match found from lastIndex starts at or after it and lies inside the text |
| FileHandlers.ExecIsLeftmost | apps/desktop/src/main/ipc/file-handlers.ts:10-12 | exec returns the leftmost match at or after lastIndex, closed lazily, and none only when no match starts there or later |
| FileHandlers.PlistTextsAreOneLine | apps/desktop/src/main/ipc/file-handlers.ts:10-14 | since '.' does not cross a line terminator, no captured path holds one |
| FileHandlers.ParsePlistFilePaths | apps/desktop/src/main/ipc/file-handlers.ts:8-16 | the loop collects the captured text of every successive match, in order |
| FileHandlers.PlistRoundTrip | apps/desktop/src/main/ipc/file-handlers.ts:8-16 | a plist listing one-line paths without '<' as string entries is read back as exactly those paths |
| FileHandlers.ParseWindowsFilePaths | apps/desktop/src/main/ipc/file-handlers.ts:19-23 | the decoded text split on NUL with the empty pieces dropped: every path read is non-empty and free of NUL |
| FileHandlers.WindowsRoundTrip | apps/desktop/src/main/ipc/file-handlers.ts:19-23 | non-empty NUL-free paths, each NUL-terminated with a final extra NUL, are read back in order |
| FileHandlers.Candidate | apps/desktop/src/main/ipc/file-handlers.ts:30-34 | the i-th candidate is exactly "_i" longer than the target, so it is never the target itself |
| FileHandlers.CandidateIsPlaced | apps/desktop/src/main/ipc/file-handlers.ts:30-34 | both branches put "_i" between the path without its extension and the extension (empty when there is none) |
| FileHandlers.CandidateInjective | apps/desktop/src/main/ipc/file-handlers.ts:34 | different counters give different candidates, so the search never repeats a name |
| FileHandlers.GetUniquePath | apps/desktop/src/main/ipc/file-handlers.ts:26-45 | the result does not exist; it is the target when that is free, else the candidate of the smallest counter i >= 1 that is free |
| DesktopFileService.Normalize | apps/desktop/src/main/services/file-service.ts:193-194 | path.resolve's segment rule: the result holds no empty, "." or ".." segment and is no longer than its input |
| DesktopFileService.Resolve | apps/desktop/src/main/services/file-service.ts:193-194 | a resolved path is absolute |
| DesktopFileService.ResolveIdempotent | apps/desktop/src/main/services/file-service.ts:193-194 | resolving a resolved path changes nothing |
| DesktopFileService.SegmentsOfResolved | apps/desktop/src/main/services/file-service.ts:193-194 | a path built from normal segments resolves to exactly those segments |
| DesktopFileService.SegmentPrefixWithin | apps/desktop/src/main/services/file-service.ts:192-199 | a path whose segments extend the workspace's is the workspace or starts with it and a separator, so it also passes the check as written |
| DesktopFileService.WithinAsWrittenAdmitsSibling | apps/desktop/src/main/services/file-service.ts:196 | as written, "/ws2/x.md" passes for the workspace "/ws" though it lies outside it |
| DesktopFileService.ValidatePathAsWritten | apps/desktop/src/main/services/file-service.ts:192-199 | succeeds iff the resolved path starts with the resolved workspace as a string; otherwise a traversal error naming the path |
| DesktopFileService.ValidatePath | apps/desktop/src/main/services/file-service.ts:192-199 | succeeds iff the resolved path's segments extend the workspace's; every such path passes the check as written; otherwise a traversal error |
| DesktopFileService.TrashPath | apps/desktop/src/main/services/file-service.ts:106-111 | the trash target is ".ai-note/trash/" then the timestamp and '_', ending with the note's basename |
| DesktopFileService.NewNoteContent | apps/desktop/src/main/services/file-service.ts:86-95 | front matter titled by the file name without its extension, with the same timestamp as created and updated and no tags |
| DesktopFileService.ArrangedElements | apps/desktop/src/main/services/file-service.ts:144-150 | the filtered listing keeps exactly the entries not starting with '.' and not named node_modules |
| DesktopFileService.ArrangedIsOrdered | apps/desktop/src/main/services/file-service.ts:151-155 | directories come before files and each group is in name order |
| DesktopFileService.BuildFileTree | apps/desktop/src/main/services/file-service.ts:139-183 | the visible entries, arranged, give the node tree of the listing |
| DesktopFileService.BuildLevel | apps/desktop/src/main/services/file-service.ts:157-180 | the loop pushes, for each arranged entry in turn, a folder node carrying the subtree built for it or a file node for a '.md' name, and nothing for other files |
| DesktopFileService.BuildFileTreeShape | apps/desktop/src/main/services/file-service.ts:139-183 | every level is folders first then '.md' files, each in name order, with paths parent/name; every visible directory and '.md' file has its node, and every node comes from such an entry |
| DesktopFileService.DeliveriesTo | apps/desktop/src/main/services/file-service.ts:50-56 | one delivery of the event per subscribed callback, in subscription order |
| DesktopFileService.UnsubscribeUndoesSubscribe | apps/desktop/src/main/services/file-service.ts:185-190 | unsubscribing a newly added callback gives back the old set |
| DesktopFileService.FileService.constructor | apps/desktop/src/main/services/file-service.ts:15-17 | the workspace is kept; no callbacks, no watcher, nothing delivered |
| DesktopFileService.FileService.Initialize | apps/desktop/src/main/services/file-service.ts:23-61 | the watcher runs; subscriptions and deliveries are unchanged |
| DesktopFileService.FileService.OnFileChange | apps/desktop/src/main/services/file-service.ts:185-186 | the callback joins the set, which is unchanged when it already holds it |
| DesktopFileService.FileService.Unsubscribe | apps/desktop/src/main/services/file-service.ts:187-189 | exactly that callback leaves the set |
| DesktopFileService.FileService.Notify | apps/desktop/src/main/services/file-service.ts:46-58 | while watching, every callback receives the event in order, and a failing callback does not stop the rest; otherwise nothing is delivered |
| DesktopFileService.FileService.Dispose | apps/desktop/src/main/services/file-service.ts:201-208 | the watcher is stopped and every subscription dropped |
| DesktopFileService.FileService.CheckPath | apps/desktop/src/main/services/file-service.ts:192-199 | this service's validatePath as written: succeeds iff the resolved path begins with the resolved workspace, with the traversal error otherwise; every path inside the workspace passes |
| MobileFileService.ValidatePathAsWritten | apps/mobile/src/services/file-service.ts:131-138 | passes iff the path holds no ".." and does not start with ".ai-note"; ".." is reported before the config directory |
| MobileFileService.ValidatePath | apps/mobile/src/services/file-service.ts:131-138 | the check as written, and also refusing a path whose first real segment is ".ai-note"; the errors of the check as written are kept |
| MobileFileService.ResolvePath | apps/mobile/src/services/file-service.ts:127-129 | the resolved path starts with the workspace and a '/', and the relative path is read back from what follows |
| MobileFileService.ResolvedSegments | apps/mobile/src/services/file-service.ts:127-129 | without "..", the resolved path's segments are the workspace's followed by the relative path's |
| MobileFileService.ValidatedStaysInside | apps/mobile/src/services/file-service.ts:127-138 | a path passing the check as written resolves inside the workspace |
| MobileFileService.InConfigDir | apps/mobile/src/services/file-service.ts:127-138 | without "..", a path resolves into the config directory iff its first segment is ".ai-note" |
| MobileFileService.ValidatePathConfined | apps/mobile/src/services/file-service.ts:131-138 | a path the corrected check accepts resolves inside the workspace and outside its config directory |
| MobileFileService.DotConfigPathPasses | apps/mobile/src/services/file-service.ts:131-138 | "./.ai-note/config.json" passes the check as written |
| MobileFileService.ConfigDirBypass | apps/mobile/src/services/file-service.ts:135 | "./.ai-note/config.json" passes the check as written yet resolves into the config directory; the corrected check refuses it |
| MobileFileService.NoteName | apps/mobile/src/services/file-service.ts:29 | the name ends with ".md": unchanged when it already does, otherwise ".md" appended |
| MobileFileService.NoteNameIdempotent | apps/mobile/src/services/file-service.ts:29 | naming a note twice is naming it once |
| MobileFileService.NoteTitle | apps/mobile/src/services/file-service.ts:35 | the intended title: the name with its final ".md" removed |
| MobileFileService.NoteTitleAsWritten | apps/mobile/src/services/file-service.ts:35 | the title createFile writes: the name itself when it holds no ".md", else the name with one ".md" (the first) removed |
| MobileFileService.TitleTakesFirstMd | apps/mobile/src/services/file-service.ts:35 | as written, "a.md.txt" becomes the note "a.md.txt.md" titled "a.txt.md" instead of "a.md.txt" |
| MobileFileService.TitleAgreesWithoutDot | apps/mobile/src/services/file-service.ts:35 | for a stem without a dot, the title as written and the intended one are the stem |
| MobileFileService.NoteContentLines | apps/mobile/src/services/file-service.ts:36 | a new note is, line by line, the fence, title, created and updated stamps (the same time), an empty tag list, the fence and an empty body |
| MobileFileService.CreateFilePath | apps/mobile/src/services/file-service.ts:28-31 | the note's name inside the folder, or alone at the root, ending with ".md"; it fails exactly when the as-written validatePath fails, with that error |
| MobileFileService.CreateFolderPath | apps/mobile/src/services/file-service.ts:66-68 | the folder name inside the parent, or alone at the root; it fails exactly when the as-written validatePath fails, with that error |
| MobileFileService.TrashPath | apps/mobile/src/services/file-service.ts:47-54 | the trash path lies in the workspace's trash directory and ends with '_' and the file's last segment |
| MobileFileService.TrashPathInTrash | apps/mobile/src/services/file-service.ts:47-54 | a deleted file's trash path is the workspace's trash directory plus one segment made of the time and the file name |
| MobileFileService.TrashNameNormal | apps/mobile/src/services/file-service.ts:53-54 | the trash name is one plain segment |
| MobileFileService.TrashPathsDiffer | apps/mobile/src/services/file-service.ts:54 | the same file deleted at two different times gets two different trash paths |
| MobileFileService.Folders | apps/mobile/src/services/file-service.ts:86-97 | the sorted folders are drawn from the listing |
| MobileFileService.SortedSelection | apps/mobile/src/services/file-service.ts:97-98 | sorting a selection keeps only what was selected |
| MobileFileService.SelectedFolders | apps/mobile/src/services/file-service.ts:90-91 | every sorted folder is a visible directory |
| MobileFileService.SelectedNotes | apps/mobile/src/services/file-service.ts:92-93 | every sorted file is a visible '.md' entry that is not a directory |
| MobileFileService.FolderNodesAt | apps/mobile/src/services/file-service.ts:101-111 | one folder node per folder, in order |
| MobileFileService.NoteNodesAt | apps/mobile/src/services/file-service.ts:114-122 | one leaf node per note, in order, with id and path parent/name |
| MobileFileService.GroupNodesAt | apps/mobile/src/services/file-service.ts:100-124 | folder nodes followed by note nodes line up with the two groups |
| MobileFileService.TreeNodesAt | apps/mobile/src/services/file-service.ts:78-125 | the result has a node per sorted folder followed by a node per sorted note |
| MobileFileService.GroupsLevel | apps/mobile/src/services/file-service.ts:78-125 | nodes describing sorted folders then sorted notes form one level as the desktop tree lays it out |
| MobileFileService.TreeShape | apps/mobile/src/services/file-service.ts:78-125 | every level is laid out as on the desktop: paths under the parent, no hidden names or node_modules, folders first, each group in string order, only '.md' files |
| MobileFileService.TreeCovers | apps/mobile/src/services/file-service.ts:86-95 | every visible folder and visible '.md' file has its node |
| MobileFileService.TreeFromKept | apps/mobile/src/services/file-service.ts:78-125 | every node is the node of a visible folder or visible '.md' file |
| MobileFileService.Partition | apps/mobile/src/services/file-service.ts:83-95 | the first loop keeps the visible directories and the visible '.md' files, each in listing order |
| MobileFileService.BuildTree | apps/mobile/src/services/file-service.ts:78-125 | the loops and the recursion compute the node tree of the listing |
| MobileFileService.BuildNoteNodes | apps/mobile/src/services/file-service.ts:114-122 | the note loop pushes one leaf per note |
| MobileFileService.BuildFolderNodes | apps/mobile/src/services/file-service.ts:101-111 | the folder loop pushes one node per folder, holding the tree of its own listing |
| MobileFileService.FileService.constructor | apps/mobile/src/services/file-service.ts:6 | no workspace yet and no file-system calls |
| MobileFileService.FileService.Initialize | apps/mobile/src/services/file-service.ts:8-10 | the workspace is set and nothing is called |
| MobileFileService.FileService.ReadFile | apps/mobile/src/services/file-service.ts:16-20 | a path the as-written validatePath refuses throws with its error and reads nothing; otherwise the resolved path is read once and its text, or the read's rejection, is the result |
| MobileFileService.FileService.WriteFile | apps/mobile/src/services/file-service.ts:22-26 | a path the as-written check refuses writes nothing; otherwise the content is written at the resolved path |
| MobileFileService.FileService.CreateFile | apps/mobile/src/services/file-service.ts:28-40 | a path the as-written check refuses writes nothing; otherwise the new note's front matter, titled as written by `replace('.md', '')`, is written at the resolved path and its relative path returned |
| MobileFileService.FileService.DeleteFile | apps/mobile/src/services/file-service.ts:42-56 | a path the as-written check refuses does nothing; otherwise the trash directory is made when missing and the file moved to its trash path |
| MobileFileService.FileService.RenameFile | apps/mobile/src/services/file-service.ts:58-64 | the old path is checked first, then the new one, by the as-written check; only when both pass is the file moved |
| MobileFileService.FileService.CreateFolder | apps/mobile/src/services/file-service.ts:66-72 | a path the as-written check refuses makes nothing; otherwise the folder is made at the resolved path and its relative path returned |
| MobileFileService.FileService.GetFileTree | apps/mobile/src/services/file-service.ts:74-76 | the tree of the workspace listing, with paths relative to the workspace |
| GitModels.BranchOrMain | apps/desktop/src/main/services/git-service.ts:243-250 | the branch is never empty: the current branch when one is named, 'main' when the lookup throws or names nothing |
| GitModels.ContentOrEmpty | apps/mobile/src/services/git-service.ts:109-121 | a revision's text, or '' when it cannot be read |
| GitModels.CountStarting | apps/desktop/src/main/services/git-service.ts:134-136 | the count of lines starting with the character is at most the number of lines |
| GitModels.CountIsFilterLength | apps/mobile/src/services/git-service.ts:97-104 | counting is the length of the filter keeping the lines that start with the character, as the mobile reduce computes it |
| GitModels.CountsDisjoint | apps/desktop/src/main/services/git-service.ts:134-136 | no line is counted both as an addition and as a deletion |
| GitModels.TotalsDisjoint | apps/desktop/src/main/services/git-service.ts:129-147 | additions plus deletions never exceed the lines of all hunks |
| GitModels.Paths | apps/desktop/src/main/services/git-service.ts:218 | the matrix paths, in order |
| GitModels.ListedMembers | apps/desktop/src/main/services/git-service.ts:218-241 | a path is listed under a kind exactly when some row for it is classified so |
| GitModels.ListedDisjoint | apps/desktop/src/main/services/git-service.ts:218-241 | with one row per path, no path is listed under two kinds |
| GitModels.ListedInMatrixOrder | apps/desktop/src/main/services/git-service.ts:218-241 | each list follows the matrix order |
| GitModels.ListedCount | apps/desktop/src/main/services/git-service.ts:218-241 | the three lists together hold one entry per row not omitted |
| GitDesktop.Classify | apps/desktop/src/main/services/git-service.ts:220-240 | exactly (0,2,0) is untracked; (0,2,2), (1,2,2) and (1,0,0) are staged; (1,2,1) and (1,0,1) are unstaged; every other triple and every '.ai-note' path is omitted |
| GitDesktop.GetStatus | apps/desktop/src/main/services/git-service.ts:208-254 | the loop builds the three lists in matrix order by that classification, with the branch defaulting to 'main' |
| GitDesktop.ListedSkipsAiNote | apps/desktop/src/main/services/git-service.ts:220 | no listed path starts with '.ai-note' |
| GitDesktop.CountChanges | apps/desktop/src/main/services/git-service.ts:129-147 | additions and deletions are the counts of '+' and '-' lines over all hunks, and the hunks are copied unchanged |
| GitDesktop.GetDiff | apps/desktop/src/main/services/git-service.ts:123-148 | both revisions read with the '' fallback are handed to the patch engine, and its hunks are counted and returned |
| GitDesktop.Commit | apps/desktop/src/main/services/git-service.ts:44-97 | the targets (the given files, or unstaged then untracked) are each added when they exist and removed otherwise, then one commit by the fixed author; a removal that throws ends the staging and makes no commit |
| GitDesktop.StageAllStep | apps/desktop/src/main/services/git-service.ts:46-62 | staging one more file appends its own calls and goes on unless its removal threw |
| GitDesktop.StageAllStops | apps/desktop/src/main/services/git-service.ts:54-61 | once a removal has thrown, later files make no calls |
| GitDesktop.StageAllWithoutFailures | apps/desktop/src/main/services/git-service.ts:45-83 | when git never fails, every file present is added and every absent one removed, in order |
| GitDesktop.AddOrRemove | apps/desktop/src/main/services/git-service.ts:46-62 | one call per file |
| GitDesktop.LastDotChar | apps/desktop/src/main/services/git-service.ts:175 | the last position before the end where '.' matches, with only line terminators after it |
| GitDesktop.LineEnd | apps/desktop/src/main/services/git-service.ts:175 | the first line terminator at or after the start, or the end of the text |
| GitDesktop.UpdatedAt | apps/desktop/src/main/services/git-service.ts:175 | a match at p has its value after the key, not empty, and inside the text |
| GitDesktop.FindUpdated | apps/desktop/src/main/services/git-service.ts:174-177 | the match found lies at or after the start position |
| GitDesktop.UpdatedAtValue | apps/desktop/src/main/services/git-service.ts:175 | the key occurs at the match, the spaces run up to the value, and the value runs to the end of its line |
| GitDesktop.FindUpdatedIsFirst | apps/desktop/src/main/services/git-service.ts:174-177 | the match replaced is the leftmost one |
| GitDesktop.FindUpdatedNone | apps/desktop/src/main/services/git-service.ts:174-177 | when nothing is found, no position matches |
| GitDesktop.ReplaceUpdated | apps/desktop/src/main/services/git-service.ts:174-177 | with no match the text is unchanged; with one, everything before the first match's value (the key included) is kept, the value gives way to the timestamp, and the text from the end of its line on follows |
| GitDesktop.ReplaceUpdatedKeepsRest | apps/desktop/src/main/services/git-service.ts:174-177 | only the first match's value becomes the timestamp; the text up to it (key and spaces included) and everything from the end of its line on are kept |
| GitDesktop.ReplaceUpdatedWithoutKey | apps/desktop/src/main/services/git-service.ts:174-177 | a text without 'updated:' is written back unchanged |
| GitDesktop.ReplaceUpdatedValue | apps/desktop/src/main/services/git-service.ts:174-177 | the first 'updated:', one whitespace and a one-line value: that value alone is replaced by the timestamp, which also covers an empty 'updated:' whose next line is taken |
| GitDesktop.SaveVersion | apps/desktop/src/main/services/git-service.ts:168-199 | a failed read writes and commits nothing; otherwise the text with only its first 'updated:' value replaced is written back, then one add of the file and one commit by the fixed author |
| GitMobile.Classify | apps/mobile/src/services/git-service.ts:161-169 | (0,2,0) is untracked; otherwise a stage differing from HEAD is staged, else a working copy differing from the stage is unstaged; a row is omitted iff it is none of these |
| GitMobile.AgreesWithDesktop | apps/mobile/src/services/git-service.ts:161-169 | wherever the desktop lists a triple, the mobile lists it under the same kind |
| GitMobile.GetStatus | apps/mobile/src/services/git-service.ts:150-182 | the loop builds the three lists in matrix order by that rule, the branch defaulting to 'main'; a matrix that cannot be read gives 'main' and empty lists |
| GitMobile.RangeAt | apps/mobile/src/services/git-service.ts:201 | a range read at i ends after i and inside the patch |
| GitMobile.HeaderAt | apps/mobile/src/services/git-service.ts:201 | a header read at p starts a line with '@@' and ends inside the patch |
| GitMobile.ExecHeader | apps/mobile/src/services/git-service.ts:204 | exec from lastIndex returns a header at or after it, read where it starts |
| GitMobile.ExecHeaderIsFirst | apps/mobile/src/services/git-service.ts:201-204 | exec finds the leftmost header at or after lastIndex, or reports that none starts there or later |
| GitMobile.NextStart | apps/mobile/src/services/git-service.ts:212-213 | a body ends at the next header's start, or at the end of the patch |
| GitMobile.BodyLinesCons | apps/mobile/src/services/git-service.ts:216-219 | the body is split at '\n' and each line kept exactly when it starts with '+', '-' or ' ' |
| GitMobile.HunksStep | apps/mobile/src/services/git-service.ts:204-221 | each header gives one hunk with its four numbers and the kept lines of the text up to the next header |
| GitMobile.ExecAtNextStart | apps/mobile/src/services/git-service.ts:214-224 | moving lastIndex back to the next header's start finds that same header next |
| GitMobile.Matches | apps/mobile/src/services/git-service.ts:201-204 | the successive matches of the global regex, each inside the patch |
| GitMobile.MatchesChain | apps/mobile/src/services/git-service.ts:204-224 | the first match is the first header, each next one is found from the end of the last, and after the last nothing |
| GitMobile.MatchesAreHeaders | apps/mobile/src/services/git-service.ts:201-204 | every match is a header and no header starts between a match's search start and it, nor after the last |
| GitMobile.MatchBodiesEnd | apps/mobile/src/services/git-service.ts:211-216 | each body stops where the next match starts, the last one at the end of the patch |
| GitMobile.HunksAreMatches | apps/mobile/src/services/git-service.ts:204-226 | one hunk per header match, in order |
| GitMobile.ParseHunks | apps/mobile/src/services/git-service.ts:184-229 | the loop, with lastIndex moved back to each next header, computes exactly those hunks |
| GitMobile.RangeAtSingle | apps/mobile/src/services/git-service.ts:205-208 | a range written as the start alone reads back with count 1 |
| GitMobile.RangeAtPair | apps/mobile/src/services/git-service.ts:205-208 | a range written as start,count reads back as both numbers |
| GitMobile.RangeAtText | apps/mobile/src/services/git-service.ts:205-208 | a written range reads back as its start and count, the count defaulting to 1 when left out |
| GitMobile.HeaderAtIn | apps/mobile/src/services/git-service.ts:201-208 | a header line written at a line start in the patch reads back as its four numbers, as section 2.2.2.2 of the GNU diffutils manual lays it out |
| GitMobile.ReduceCountIsTotal | apps/mobile/src/services/git-service.ts:97-104 | the reduce counts the same lines as the desktop's counting loop |
| GitMobile.GetDiff | apps/mobile/src/services/git-service.ts:88-107 | both revisions read with the '' fallback go to the patch engine; its hunks are parsed and additions and deletions are the '+' and '-' lines over all of them |
| I18nDesktop.DetectLocale | apps/desktop/src/renderer/src/i18n/index.ts:15-20 | a saved 'en' or 'zh' wins; any other saved value is ignored and the locale is Chinese iff the browser language starts with 'zh' |
| I18nDesktop.DetectSavedLocale | apps/desktop/src/renderer/src/i18n/index.ts:15-28 | a locale saved by setLocale is what the next detection finds, whatever the browser language |
| I18nDesktop.SubstituteWithoutPlaceholders | apps/desktop/src/renderer/src/i18n/index.ts:33-37 | a text holding none of the parameters' placeholders comes back unchanged |
| I18nDesktop.SubstituteOne | apps/desktop/src/renderer/src/i18n/index.ts:35 | a parameter's value replaces its '{name}' placeholder |
| I18nDesktop.SubstituteFirstOnly | apps/desktop/src/renderer/src/i18n/index.ts:35 | only the first occurrence is replaced, so a repeated placeholder keeps its second copy |
| I18nDesktop.I18nStore.constructor | apps/desktop/src/renderer/src/i18n/index.ts:22-23 | the store starts in the detected locale |
| I18nDesktop.I18nStore.SetLocale | apps/desktop/src/renderer/src/i18n/index.ts:25-28 | the locale switches and is saved under 'ai-note-locale'; nothing else is stored |
| I18nDesktop.I18nStore.Text | apps/desktop/src/renderer/src/i18n/index.ts:32 | the current locale's text, else the English one, else the key itself |
| I18nDesktop.I18nStore.T | apps/desktop/src/renderer/src/i18n/index.ts:30-39 | that text with each parameter substituted in turn; without parameters the text itself |
| I18nMobile.Translate | apps/mobile/src/i18n/index.ts:20-28 | the string the '.'-separated key reaches in the table, each step `value[k]` reading an object's property, a string's character or an array's element (or either's length); the key itself when a step meets null or undefined or the value reached is not a string |
| I18nMobile.TranslateNested | apps/mobile/src/i18n/index.ts:20-28 | a table nesting a text under the key's segments translates the key to that text |
| I18nMobile.WalkIntoString | apps/mobile/src/i18n/index.ts:23-26 | one more numeric segment past a nested string reads that string's character at the index |
| I18nMobile.TranslateIndexesString | apps/mobile/src/i18n/index.ts:20-28 | t("common.save.0") over a table holding U+4FDD U+5B58 under common.save gives U+4FDD |
| Json.Index | apps/mobile/src/i18n/index.ts:25 | `value[k]`: on an object exactly its own property; a value is reached only from an object, a string or an array |
| Json.IndexString | apps/mobile/src/i18n/index.ts:25 | a decimal index below a string's length reads its character |
| Json.IndexArray | apps/mobile/src/i18n/index.ts:25 | a decimal index below an array's length reads its element, and length reads the length |
| I18nMobile.I18n.constructor | apps/mobile/src/i18n/index.ts:8-10 | the locale starts as Chinese |
| I18nMobile.I18n.SetLocale | apps/mobile/src/i18n/index.ts:12-14 | the locale becomes the one given |
| I18nMobile.I18n.GetLocale | apps/mobile/src/i18n/index.ts:16-18 | the locale last set |
| I18nMobile.I18n.T | apps/mobile/src/i18n/index.ts:20-28 | the loop returns the key as soon as the value is null or undefined before a step, and otherwise the translation of the key, stepping into objects, strings and arrays alike |
| RecentWorkspaces.Take | apps/desktop/src/main/index.ts:167-169 | a prefix of at most n elements, exactly n when there are enough, the whole list otherwise |
| RecentWorkspaces.PushRecent | apps/desktop/src/main/index.ts:161-169 | the new entry first, followed by the first nine old entries for other paths in their old order (all of them when fewer), so at most ten entries and none other for the same path |
| RecentWorkspaces.PushRecentKeepsShortList | apps/desktop/src/main/index.ts:161-169 | a list of at most nine entries for other paths is kept whole behind the new one |
| RecentWorkspaces.PushRecentAgain | apps/desktop/src/main/index.ts:161-169 | opening the most recent workspace again only refreshes its time |
| RecentWorkspaces.RecentWorkspaceList.constructor | apps/desktop/src/main/index.ts:156-170 | the list starts empty |
| RecentWorkspaces.RecentWorkspaceList.Update | apps/desktop/src/main/index.ts:156-170 | the workspace, named by its basename and stamped now, goes first in the pushed list of at most ten |
| MobileWorkspace.WorkspaceName | apps/mobile/src/services/workspace-service.ts:63 | a non-empty name without '/': the path's last segment, or 'workspace' when that is empty |
| MobileWorkspace.DefaultWorkspace | apps/mobile/src/services/workspace-service.ts:22 | the document directory followed by 'workspace' |
| MobileWorkspace.WorkspaceService.constructor | apps/mobile/src/services/workspace-service.ts:16 | the stored recent list and current workspace are as given |
| MobileWorkspace.WorkspaceService.GetRecent | apps/mobile/src/services/workspace-service.ts:48-55 | the stored list, or [] when nothing is stored or it cannot be parsed |
| MobileWorkspace.WorkspaceService.AddToRecent | apps/mobile/src/services/workspace-service.ts:61-68 | the stored list becomes the read list with the workspace first, named by WorkspaceName, at most ten long; the current workspace is unchanged |
| MobileWorkspace.WorkspaceService.Open | apps/mobile/src/services/workspace-service.ts:17-46 | the given folder, or the default one when none or an empty path is given, becomes current and goes first in the recent list |
| RelativeTime.FormatRelativeTime | apps/desktop/src/renderer/src/components/git/HistoryPanel.tsx:12-28 | exactly one label: just now iff under a minute has passed (a clock behind the commit included); otherwise minutes, hours, days or weeks with a count of at least one whole unit elapsed and below the next bucket, else months by whole 30-day spans |
| RelativeTime.DaysOf | apps/desktop/src/renderer/src/components/git/HistoryPanel.tsx:14-20 | the chain of floor divisions is floor division by the product of the divisors |
| RelativeTime.FutureIsJustNow | apps/desktop/src/renderer/src/components/git/HistoryPanel.tsx:14-22 | a commit time ahead of the clock reads as just now |
| RelativeTime.FourWeeksIsZeroMonths | apps/desktop/src/renderer/src/components/git/HistoryPanel.tsx:19-27 | 28 and 29 days fall past the week bucket yet count zero months |
| SearchDesktop.RunWellFormed | apps/desktop/src/main/services/search-service.ts:18-41 | the scan's pushed tokens and pending word are always well formed |
| SearchDesktop.Tokenize | apps/desktop/src/main/services/search-service.ts:18-41 | every token is one CJK character or a non-empty run of characters that are neither CJK, whitespace nor punctuation |
| SearchDesktop.RunAppend | apps/desktop/src/main/services/search-service.ts:23-38 | scanning a concatenation is scanning one part after the other |
| SearchDesktop.TokenizeWord | apps/desktop/src/main/services/search-service.ts:35-39 | a run of word characters is one token |
| SearchDesktop.TokenizeAtSeparator | apps/desktop/src/main/services/search-service.ts:30-34 | whitespace or punctuation splits the text: the tokens are those of either side |
| SearchDesktop.TokenizeAtCjk | apps/desktop/src/main/services/search-service.ts:24-29 | a CJK character is a token of its own between the tokens of either side |
| SearchDesktop.CjkTokenize | apps/desktop/src/main/services/search-service.ts:18-41 | the loop over the lower-cased text computes exactly those tokens, with CJK as the three ranges of line 15 |
| SearchDesktop.ToInt32 | apps/desktop/src/main/services/search-service.ts:216 | `| 0` gives the signed 32-bit integer congruent modulo 2^32 |
| SearchDesktop.ToInt32Shift | apps/desktop/src/main/services/search-service.ts:216 | adding a multiple of 2^32 does not change the 32-bit value |
| SearchDesktop.CodeUnits | apps/desktop/src/main/services/search-service.ts:213-214 | charCodeAt reads UTF-16 code units, each below 2^16 |
| SearchDesktop.Hash32 | apps/desktop/src/main/services/search-service.ts:212-217 | the hash before Math.abs is a signed 32-bit value |
| SearchDesktop.HashValue | apps/desktop/src/main/services/search-service.ts:218 | hashPath's value lies between 0 and 2^31 |
| SearchDesktop.ShiftStep | apps/desktop/src/main/services/search-service.ts:215-216 | `(hash << 5) - hash + char`, then `| 0`, is hash * 31 + char wrapped to 32 bits |
| SearchDesktop.HashPath | apps/desktop/src/main/services/search-service.ts:211-219 | the shift-subtract loop and the absolute value compute HashValue |
| SearchDesktop.HashOfTwo | apps/desktop/src/main/services/search-service.ts:211-219 | a two-unit path hashes to 31 * a + b |
| SearchDesktop.HashCollision | apps/desktop/src/main/services/search-service.ts:138 | "Aa" and "BB" both hash to 2112, so the reverse lookup can meet two paths for one id |
| SearchDesktop.StartsSound | apps/desktop/src/main/services/search-service.ts:180-205 | every reported start is an occurrence at or after the search start, accepted by the whole-word rule, and matches do not overlap |
| SearchDesktop.StartsComplete | apps/desktop/src/main/services/search-service.ts:180-205 | every accepted occurrence is reported or lies inside an earlier match |
| SearchDesktop.StartsSkip | apps/desktop/src/main/services/search-service.ts:182 | positions where the query does not occur are passed over |
| SearchDesktop.StartsAtFound | apps/desktop/src/main/services/search-service.ts:182-204 | an accepted occurrence is recorded and skipped whole; a rejected one is skipped by one |
| SearchDesktop.StartsAtNone | apps/desktop/src/main/services/search-service.ts:181-183 | nothing more is reported once indexOf finds nothing or the line is used up |
| SearchDesktop.LineMatchesAt | apps/desktop/src/main/services/search-service.ts:197-202 | one match per start, in order, naming the line and ending a query length later |
| SearchDesktop.SearchText | apps/desktop/src/main/services/search-service.ts:174-178 | the text as it is with caseSensitive, else lower-cased, of the same length |
| SearchDesktop.LineMatchesDescribe | apps/desktop/src/main/services/search-service.ts:176-206 | a line's matches name that line and its text, start at accepted occurrences and run left to right |
| SearchDesktop.MatchesDescribeLines | apps/desktop/src/main/services/search-service.ts:168-209 | every match names its 1-based line and that line's text, starts at an accepted occurrence of the query and ends a query length later |
| SearchDesktop.MatchesInOrder | apps/desktop/src/main/services/search-service.ts:168-209 | the matches run in line order, and left to right without overlap within a line |
| SearchDesktop.AcceptedAtOffset | apps/desktop/src/main/services/search-service.ts:180-195 | the matcher accepts the code-unit offset of a character position exactly when the query's characters occur there and, with wholeWord, no word character stands beside them |
| SearchDesktop.StartsAtCharacters | apps/desktop/src/main/services/search-service.ts:180-205 | every reported start is the code-unit offset of a character position where the query occurs (as a whole word when asked) |
| SearchDesktop.StartsCoverCharacters | apps/desktop/src/main/services/search-service.ts:180-205 | every such character position is reported at its code-unit offset or lies inside a reported match |
| SearchDesktop.AstralLineMatch | apps/desktop/src/main/services/search-service.ts:180-202 | a character outside the Basic Multilingual Plane counts two: in U+1F600, a space and "foo", the query "foo" matches from 3 to 6 |
| SearchDesktop.MatchLine | apps/desktop/src/main/services/search-service.ts:180-205 | the inner loop computes the matches of the starts the matcher accepts, each start a UTF-16 code-unit index into the searched line as indexOf reports it |
| SearchDesktop.FindMatches | apps/desktop/src/main/services/search-service.ts:168-209 | the outer loop computes the matches of every line, numbered from 1, with matchStart and matchEnd counted in UTF-16 code units as indexOf and length count them |
| SearchDesktop.DocFor | apps/desktop/src/main/services/search-service.ts:137-145 | the first document in insertion order whose path hashes to the id and passes the folder filter, or none when no such document exists |
| SearchDesktop.HitsDescribe | apps/desktop/src/main/services/search-service.ts:135-160 | at most one result per id; each comes from a document whose path hashes to the id and passes the filter, carries its matches, at least one, and scores their number |
| SearchDesktop.HitForFound | apps/desktop/src/main/services/search-service.ts:137-158 | the first document found for an id gives its result when it has a match |
| SearchDesktop.InsertByScorePerm | apps/desktop/src/main/services/search-service.ts:163 | inserting a result keeps every result |
| SearchDesktop.InsertByScoreSorted | apps/desktop/src/main/services/search-service.ts:163 | inserting into a score-sorted list keeps it sorted |
| SearchDesktop.InsertByScoreStable | apps/desktop/src/main/services/search-service.ts:163 | an inserted result goes after every earlier one of its score |
| SearchDesktop.SortByScoreSpec | apps/desktop/src/main/services/search-service.ts:163 | the sort orders by non-increasing score, keeps exactly the same results, and keeps equal scores in their original order, as Array.prototype.sort's stability promises |
| SearchDesktop.AnswerDescribe | apps/desktop/src/main/services/search-service.ts:129-166 | a blank query answers nothing; otherwise the answer is sorted by score and every result in it is one the lookup promises |
| SearchDesktop.Get | apps/desktop/src/main/services/search-service.ts:55 | the map's entry for a path, and none exactly when no entry has that path |
| SearchDesktop.PutMembers | apps/desktop/src/main/services/search-service.ts:110 | Map.set adds the document, last when its path is new, in place otherwise |
| SearchDesktop.PutGet | apps/desktop/src/main/services/search-service.ts:110 | after Map.set the path maps to the document and every other path is as before |
| SearchDesktop.PutSpec | apps/desktop/src/main/services/search-service.ts:110 | Map.set keeps paths distinct, maps the path to the document, leaves other paths alone, and appends a new path |
| SearchDesktop.DeleteSpec | apps/desktop/src/main/services/search-service.ts:120 | Map.delete keeps paths distinct, drops the path and leaves every other path as it was |
| SearchDesktop.ReindexGoesLast | apps/desktop/src/main/services/search-service.ts:123-127 | updateFile's re-index after the removal puts the document last in insertion order |
| SearchDesktop.BuiltKeys | apps/desktop/src/main/services/search-service.ts:62-73 | after buildIndex a path has an entry exactly when some readable file has that relative path |
| SearchDesktop.SearchService.constructor | apps/desktop/src/main/services/search-service.ts:57-60 | the workspace is kept and the map is empty |
| SearchDesktop.SearchService.IndexFile | apps/desktop/src/main/services/search-service.ts:95-115 | the content is stored under the workspace-relative path, named by its basename; an unreadable file is skipped |
| SearchDesktop.SearchService.BuildIndex | apps/desktop/src/main/services/search-service.ts:62-73 | the map is cleared and every scanned file indexed in turn |
| SearchDesktop.SearchService.RemoveFile | apps/desktop/src/main/services/search-service.ts:117-121 | the path's entry is deleted |
| SearchDesktop.SearchService.UpdateFile | apps/desktop/src/main/services/search-service.ts:123-127 | the entry is removed, then the file indexed again, which puts it last |
| SearchDesktop.SearchService.ReverseLookup | apps/desktop/src/main/services/search-service.ts:137-145 | the loop scans the map in insertion order for a path hashing to the id, passing over one outside the folder filter |
| SearchDesktop.SearchService.Search | apps/desktop/src/main/services/search-service.ts:129-166 | the loops compute the answer for the ids the full-text index returned, match positions in UTF-16 code units |
| SearchMobile.LowerEach | apps/mobile/src/services/search-service.ts:19-32 | each token lower-cased, in order |
| SearchMobile.CjkTokenizer | apps/mobile/src/services/search-service.ts:13-34 | the loop's tokens are the shared tokenizer's tokens of the original text, with CJK as the three ranges of line 17, each word lower-cased when pushed |
| SearchMobile.TokenizerLowersLikeDesktop | apps/mobile/src/services/search-service.ts:13-34 | when no letter counts as punctuation, lower-casing each pushed word gives the tokens of the lower-cased text |
| SearchMobile.Capped | apps/mobile/src/services/search-service.ts:170 | the first twenty matches, or all of them when there are fewer |
| SearchMobile.FindMatches | apps/mobile/src/services/search-service.ts:130-171 | the line loop of the shared matcher, positions in UTF-16 code units and matchEnd counted in the searched query's length, keeping only the first twenty matches |
| SearchMobile.CappedMatchesDescribe | apps/mobile/src/services/search-service.ts:130-171 | at most twenty matches, in line and position order, each naming its 1-based line, starting at an accepted occurrence and ending a query length later |
| SearchMobile.HitsSound | apps/mobile/src/services/search-service.ts:106-125 | every result is the document stored under an id the index returned, passing the folder filter, with its kept matches scored by their number |
| SearchMobile.HitsComplete | apps/mobile/src/services/search-service.ts:106-125 | an id with a stored document passing the filter always gives a result, even one without matches |
| SearchMobile.AnswerDescribe | apps/mobile/src/services/search-service.ts:100-128 | before the index is built, or for a blank query, nothing; otherwise the results sorted by score, each one the lookup promises |
| SearchMobile.BuiltSnoc | apps/mobile/src/services/search-service.ts:68-81 | indexing one more file stores it under its path's hash, over whatever was there |
| SearchMobile.CollisionOverwrites | apps/mobile/src/services/search-service.ts:76 | two paths that hash alike share one entry, the one indexed last |
| SearchMobile.CollidingPathsOverwrite | apps/mobile/src/services/search-service.ts:75-76 | indexing "Aa" then "BB" leaves only "BB" under 2112, so "Aa" can no longer be found |
| SearchMobile.SearchService.constructor | apps/mobile/src/services/search-service.ts:37-39 | no index, no documents, no workspace |
| SearchMobile.SearchService.IndexFile | apps/mobile/src/services/search-service.ts:68-81 | the content is stored under the path's hash; an unreadable file is skipped |
| SearchMobile.SearchService.BuildIndex | apps/mobile/src/services/search-service.ts:41-49 | the index is built afresh and the map filled from the scanned files in order |
| SearchMobile.SearchService.UpdateFile | apps/mobile/src/services/search-service.ts:83-92 | the entry under the path's hash is removed, then the file read again under its last-segment name |
| SearchMobile.SearchService.RemoveFile | apps/mobile/src/services/search-service.ts:94-98 | the entry under the path's hash is removed, whichever path put it there |
| SearchMobile.SearchService.Search | apps/mobile/src/services/search-service.ts:100-128 | the loop computes the answer for the ids the full-text index returned, match positions in UTF-16 code units |

## Left out

- SHA-256, random PINs, tokens and UUIDs, and gzip/gunzip are parameters. A digest is an uninterpreted function from bytes to hex text; compressed and decompressed buffers are given values. The logic kept is the `sha256:` tag, the 6-digit range, the "only when smaller" comparison and the try-gunzip-else-raw branch.
- The clock is a parameter (`now`) everywhere, and JSON text is not modelled. Control messages, request bodies, the QR payload and the config file are datatypes (`Json` values for the config), not bytes.
- Bleno loading, advertising, GATT characteristic objects and the 15 s ready timeout are not modelled, because they are BLE stack plumbing. Only the effects of the accept, disconnect, mtuChange and write events are.
- The `stateChange` handler's `poweredOff` branch is not modelled (`apps/desktop/src/main/services/sync/ble-sync-transport.ts:118-123`). There the adapter powering off sets `running` to false while the connection stays.
- Times are whole milliseconds: `stat.mtimeMs` is a fractional double in the source (`apps/desktop/src/main/services/sync/sync-protocol.ts:50`), and every JSON number is modelled as an integer. The core only compares and copies these values. The one thing lost is that two modification times within the same millisecond, which the source's `>` can tell apart, compare as equal in the model, so computeDelta's conflict case can arise where the source would send or receive.
- Fastify, CORS, the WebSocket library, Bonjour/mDNS and `networkInterfaces` are not modelled, because they are network frameworks. Requests are records, bind attempts are given outcomes, and the 10 s auth timer is an explicit timeout event.
- Event emission is an appended event log. IPC calls are a request log whose answers are parameters. Window and app lifecycle are not modelled.
- The file system, expo-file-system, chokidar, gray-matter, isomorphic-git, the diff library and FlexSearch are not modelled. Their answers are parameters: directory listings, read results, status matrices, diff hunks, and the ids FlexSearch answers with. Document addition and removal inside FlexSearch, and its limit of 50 results, are left to the index.
- The note store is a map from workspace-relative path to content. Write failures and the file-level path validation of its reads are not modelled.
- `localeCompare` and the mobile `sort()` become one total order on characters, `Ordering.Le`, because locale collation is platform data.
- `toLowerCase` is modelled for ASCII only, and `\p{P}` is a punctuation parameter. There is no full Unicode table.
- `path.resolve`, `basename`, `extname` and `relative` are string functions on '/'-separated paths. `relative` is modelled only for paths inside the workspace. `basename` takes the text after the last '/', so a path with a trailing '/' such as "a/b/" has the empty basename, where Node strips trailing separators first and gives "b".
- The UCS-2 decoding of the Windows clipboard is not modelled: the decoded text is the input.
- The hidden-directory and dependency-directory rules of the chokidar watcher, and readdir errors while building a tree, are not modelled.
- Async interleavings are not modelled: each async method is one atomic step. This covers the read-modify-write of `pairedDevices` and edits that land during the `await` in the editor's `saveFile`.
- The editor store's session save and restore and its debounced saves are not modelled, because they only forward to config IPC.
- The file store's createFile and createFolder are not modelled, because they only forward to IPC and reload the tree.
- The desktop file service's readFile, writeFile, renameFile and createFolder are not modelled beyond the path each validates, the trash path and the new note's content, because the rest is fs calls.
- The getters that only return the workspace path are not modelled.
- Mobile git `saveVersion`, `restoreFile`, `getHistory` and `initialize` are not modelled, because they lie outside the modelled core. So the model does not capture mobile `saveVersion`'s `updated:` replacement bounded by the front matter, its write only when the text changed, or its default message `Update <path>`. Nor does it capture `initialize` running only when `.git` is missing and writing `.gitignore` and an initial commit.
- Config `get` and `set` look properties up on objects only. Property access on arrays and strings is not modelled: a `set` whose path runs through an array leaves the array unchanged, although a numeric key such as `set("a.0.b", v)` writes an element that JSON keeps.
- ConfigDesktop.ConfigService.Load: sharing with the defaults object is tracked for top-level sections only. When a read file and the defaults both hold a section, the merged section is a fresh object, but an object that an earlier `set` created inside the defaults' section is still shared below it in the source; the model treats it as copied. Writes into the shared default arrays are not modelled either.
- ConfigMobile.ConfigService.Load: the mobile service spreads DEFAULT_CONFIG one level too (`apps/mobile/src/services/config-service.ts:46,58,62`), so its sections are shared with the defaults as on the desktop. That sharing is not modelled on mobile: its config starts from, and falls back to, pristine defaults, and ConfigMobile.ConfigService.Set does not write through to them.
- `$`-patterns in i18n replacement strings are not modelled.
- I18nMobile.Translate: a numeric step into a string reads a character, where JavaScript reads a UTF-16 code unit, so the two differ past a character outside the Basic Multilingual Plane. Properties that JavaScript supplies beyond a value's own (a string's methods, members inherited by objects, numbers and booleans) are undefined in the model, so a key that walks through one of them returns the key.
- Clock skew between devices is not compensated: that is source behaviour, kept as is.
- The renderer stores that only forward to IPC, the tag services, the presentation code and the floats in scroll positions are not modelled, because they have no logic of their own.
- GitMobile.ParseHunks: its contract states one hunk per regex match, in order, with the body running to the next match. A full round trip from rendered hunks back through the parser is not stated, because it is too costly to prove.
- SearchDesktop.FindMatches: requires a non-empty query. The source loops forever on an empty query at this point, and its only caller returns early for a blank query.
- SearchDesktop.MatchLine: requires a non-empty query, for the same reason.
- SearchMobile.FindMatches: requires a non-empty query, for the same reason.
- BleTransport.BleSyncTransport.ChunkBuffer: requires an effective MTU of at least 2, because at MTU 1 the source's slice size is 0 and its loop never ends.
- BleTransport.BleSyncTransport.HandleControlWrite: requires an effective MTU of at least 2 for every message, not only for the ones that send chunks. ATT guarantees an MTU of at least 23, so no real connection is excluded.
- SyncAuth.ValidateToken: the refreshed `lastUsed` lives only in the returned list. The orchestrator keeps it in its in-memory paired devices and never persists it, as the source does.

## Behaviour of the code worth knowing

- A validated token's `lastUsed` is refreshed on the in-memory object that `validateToken` found, and nothing saves it afterwards (`apps/desktop/src/main/services/sync/sync-auth.ts:79-81`). The model keeps it in memory only.
- `validateToken` compares each stored token by OR-ing the XORs of all its code units, the constant-time form the comment at `apps/desktop/src/main/services/sync/sync-auth.ts:45` names, but `find` stops at the first matching token (`apps/desktop/src/main/services/sync/sync-auth.ts:70-77`). A token of another length is rejected at once. The model scans the same way.
- Revoking a device removes it from `connectedDevices` and emits `device-disconnected`, but closes no transport session (`apps/desktop/src/main/services/sync/sync-service.ts:168-180`). A LAN socket or BLE connection that is already authenticated stays open in the model too.

## Findings

The operations in the model run the code as written. Each row's corrected member states the intended behaviour beside them, and is proved there.

| source | as written | input that shows it | evidently intended | confidence | as-written member | corrected member |
|---|---|---|---|---|---|---|
| apps/desktop/src/main/services/sync/sync-service.ts:270-274 | `path.slice(0, -ext.length)` is `slice(0, -0)`, the empty string, for a path without extension, so the copy is named `.conflict` | "notes/todo" and "ideas" both give ".conflict" | "notes/todo.conflict": keep the path and insert `.conflict` before the (empty) extension | not executed | SyncService.ConflictCopyAsWrittenCollides | SyncService.ConflictCopyPathInjective |
| apps/desktop/src/main/services/file-service.ts:192-199 | a plain string-prefix test of the resolved path against the workspace | workspace "/ws", path "/ws2/x.md" passes | only the workspace or paths below it pass (segment containment) | not executed | DesktopFileService.WithinAsWrittenAdmitsSibling | DesktopFileService.SegmentPrefixWithin |
| apps/desktop/src/renderer/src/stores/editor-store.ts:46-50 | the extension is taken after the last '.' of the whole path | "notes.v2/todo" has extension "v2/todo" and opens externally | the extension of the file name, so an extensionless file is text | not executed | EditorDesktop.ExtensionlessInDottedFolder | EditorDesktop.TextFileIgnoresFolder |
| apps/desktop/src/main/services/config-service.ts:49 | `{ ...DEFAULT_CONFIG }` copies one level, so nested sections are shared with the defaults | set("editor.fontSize", 20), then a new service reads editor.fontSize as 20 | each service starts from pristine defaults | not executed | ConfigDesktop.SetLeaksIntoNextService | ConfigDesktop.NextServiceAfterSet |
| apps/mobile/src/services/file-service.ts:131-138 | the config directory is refused only as a literal prefix of the path | "./.ai-note/config.json" passes and resolves into the config directory | no path that resolves into the config directory passes | not executed | MobileFileService.ConfigDirBypass | MobileFileService.ValidatePathConfined |
| apps/mobile/src/services/file-service.ts:35 | the title drops the first ".md" anywhere in the file name | "a.md.txt" is saved as "a.md.txt.md" and titled "a.txt.md" | the title is the file name without its final ".md" ("a.md.txt") | not executed | MobileFileService.TitleTakesFirstMd | MobileFileService.NoteTitle |
