# LocalShare core in Dafny

LocalShare is a React page that simulates sharing files with devices on the
local network. No byte crosses a network: a singleton `PeerConnectionManager`
injects three mock peers two seconds after `init()`, and `sendFile` fakes a
transfer with an interval. Each firing adds a random amount below 10 to a
progress counter. At 100 or more the counter is clamped to 100, one final
"complete" event is emitted, and the promise resolves. The page and its
components keep a transfer list keyed by file id, a drag flag, a fade-in map,
and a few pure display rules.

The model has one module per source file, plus two small helper modules:

- `PeerConnection` (src/utils/peerConnection.ts)
  - The manager is a class. Its `peers` field is a `PeerTable`, a JavaScript
    `Map` modelled as entries plus key insertion order.
  - Each listener slot holds a listener token. Every call to a listener is
    appended to a delivery log.
  - Timer firings are explicit methods: `Tick` for one interval firing and
    `MockPeersArrive` for the mock-peer timeout.
  - One send is a `Transfer` object. Its progress and outcome are tied by an
    invariant to the specification function `Run`, which replays the
    increments drawn so far.
- `FileTransfer` (src/utils/fileTransfer.ts)
  - `formatFileSize` in exact integer arithmetic.
  - `getFileTypeIcon`.
  - `handleFileDrop`, as loops proved against `Descriptors`.
  - `sendFiles`, with `AllOutcome` for `Promise.all`.
- `IndexPage` (src/pages/Index.tsx): the page as a class. The transfer-list
  updaters `Upsert` and `RemoveTransfer` are pure functions, and the page keeps
  its list free of duplicate file ids.
- `TransferProgress`, `FileTransferZone`, `PeersList` and `ConnectionStatus`:
  one module per component.
- `Strings`: the JavaScript string built-ins the code uses (`toLowerCase`,
  `includes`, `trim`, number to text).
- `Wrappers`: `Option`.

Two behaviours of the code as written are modelled as they are:

- `destroy()` clears the peers but does not cancel the pending mock-peer
  timeout. `PeerConnectionManager.Destroy` leaves `pendingMockArrivals` alone,
  so a later `MockPeersArrive` brings the three peers back.
- `formatFileSize` rounds to two decimals after choosing the unit, so 1048575
  bytes reads "1024 KB" (`FileTransfer.FormatJustBelowOneMB`).

## Model

| member | source | states |
|---|---|---|
| `PeerConnection.PeerTable.Get` | src/utils/peerConnection.ts:92 | `Map.get` finds a peer exactly when its id was inserted, and the peer found carries that id |
| `PeerConnection.PeerTable.Values` | src/utils/peerConnection.ts:58-60 | `values()` yields every entry once, in the order its key was first inserted |
| `PeerConnection.PeerTable.Set` | src/utils/peerConnection.ts:158-163 | `map.set` keeps the table well formed; what it stores is stated by `SetLookup`, `SetSizeAndOrder` and `SetPresent` |
| `PeerConnection.SetAll` | src/utils/peerConnection.ts:157-164 | the `forEach` of sets keeps the table well formed; what it stores is stated by `SetAllKeepsKeys`, `SetAllAddsIds`, `SetAllSize`, `SetAllOthers`, `SetAllKeepsOrder`, `SetAllStores` and `SetAllPresent` |
| `PeerConnection.SetKeys` | src/utils/peerConnection.ts:158-163 | one `map.set` adds its id to the keys, and at most one entry |
| `PeerConnection.SetAllKeepsKeys` | src/utils/peerConnection.ts:157-164 | the `forEach` of sets never drops a key already present |
| `PeerConnection.SetAllAddsIds` | src/utils/peerConnection.ts:157-164 | after the `forEach` of sets every given peer's id is a key |
| `PeerConnection.SetAllSize` | src/utils/peerConnection.ts:157-164 | the `forEach` of sets grows the table by at most one entry per peer |
| `PeerConnection.SetAllOthers` | src/utils/peerConnection.ts:157-164 | an id that none of the given peers carries keeps the peer it had, or stays absent |
| `PeerConnection.SetKeepsOrder` | src/utils/peerConnection.ts:158-163 | one `map.set` keeps the insertion order of the keys already present: the old order is a prefix of the new |
| `PeerConnection.SetAllKeepsOrder` | src/utils/peerConnection.ts:157-164 | the old insertion order is a prefix of the new one: keys already present keep their places, so a repeated arrival does not reorder `getPeers()`, and new keys only follow them |
| `PeerConnection.SetLookup` | src/utils/peerConnection.ts:158-163 | after `set(p.id, p)` a lookup of `p.id` gives `p`, and every other id's lookup is unchanged |
| `PeerConnection.SetSizeAndOrder` | src/utils/peerConnection.ts:157-164 | re-inserting an existing id overwrites in place without growing the map; a new id is appended last |
| `PeerConnection.SetPresent` | src/utils/peerConnection.ts:158-163 | setting a peer that is already stored leaves the map unchanged |
| `PeerConnection.SetAllStores` | src/utils/peerConnection.ts:157-164 | after the `forEach` of sets, the last peer given for an id is the one stored |
| `PeerConnection.SetAllPresent` | src/utils/peerConnection.ts:157-164 | a `forEach` of sets whose peers are all already stored changes nothing |
| `PeerConnection.MockPeersStored` | src/utils/peerConnection.ts:150-164 | each of the three mock peers is stored under its id once the timeout fires |
| `PeerConnection.MockPeersArrivalIdempotent` | src/utils/peerConnection.ts:150-164 | a second mock injection leaves the peer map as the first one left it |
| `PeerConnection.TickEvent` | src/utils/peerConnection.ts:110-142 | the event of one firing carries the file id, name and size and no error; it is complete exactly when progress plus the increment reaches 100, and then reports 100, otherwise the new sum |
| `PeerConnection.Step` | src/utils/peerConnection.ts:109-144 | one firing appends at most one event and never rewrites earlier ones; it finishes the send exactly when progress plus the increment reaches 100; a cleared interval changes nothing |
| `PeerConnection.Run` | src/utils/peerConnection.ts:108-144 | at most one event per firing, and a finished send's last event is complete; `RunInvariant` and the lemmas below state the rest |
| `PeerConnection.StepKeepsInvariant` | src/utils/peerConnection.ts:109-143 | one firing with an increment in [0, 10) keeps the simulation invariant `SimInvariant` (the properties listed for `RunInvariant`) |
| `PeerConnection.RunInvariant` | src/utils/peerConnection.ts:108-143 | progress stays in [0, 100] and events are non-decreasing; every event carries the send's file id, name and size; only the last event of a finished send is complete, with progress 100; other events are below 100 |
| `PeerConnection.RunFinishesAtHundred` | src/utils/peerConnection.ts:110-113 | a send finishes exactly when its increments add up to 100 or more, and until then progress is their sum |
| `PeerConnection.NoEventAfterTerminal` | src/utils/peerConnection.ts:111-113 | once the interval is cleared, further firings change neither the progress nor the events |
| `PeerConnection.ExactlyOneTerminalEvent` | src/utils/peerConnection.ts:111-131 | a finished send has emitted exactly one complete event, the last one: progress 100, no error |
| `PeerConnection.Transfer.Refused` | src/utils/peerConnection.ts:92-96 | a send to an unknown peer is rejected with "Peer not found" and has no progress |
| `PeerConnection.Transfer.Begin` | src/utils/peerConnection.ts:98-108 | a send to a known peer starts pending at progress 0 with its own file id |
| `PeerConnection.PeerConnectionManager.constructor` | src/utils/peerConnection.ts:36-39 | the id is `peer-` plus random text, the name `User-` plus a number below 1000; no peers, no listeners |
| `PeerConnection.PeerConnectionManager.GetPeers` | src/utils/peerConnection.ts:58-60 | the peers in insertion order, one per stored id |
| `PeerConnection.PeerConnectionManager.GetLocalPeerInfo` | src/utils/peerConnection.ts:62-67 | reports the current id and name |
| `PeerConnection.InitRecord` | src/utils/peerConnection.ts:48-51 | the object `init()` returns has `localPeerId` and `localPeerName`, and no `id` or `name` property |
| `PeerConnection.PeerConnectionManager.Init` | src/utils/peerConnection.ts:41-52 | arms the mock-peer timeout once more and returns an object with `localPeerId` and `localPeerName` |
| `PeerConnection.PeerConnectionManager.SetLocalPeerName` | src/utils/peerConnection.ts:69-71 | only the reported name changes, never the id or the peers |
| `PeerConnection.PeerConnectionManager.SetOnPeersChangeListener` | src/utils/peerConnection.ts:73-79 | replaces the slot, and calls the new listener at once with the peers only when the map is non-empty |
| `PeerConnection.PeerConnectionManager.SetOnFileProgressListener` | src/utils/peerConnection.ts:85-87 | replaces the progress slot without calling it |
| `PeerConnection.PeerConnectionManager.SendFile` | src/utils/peerConnection.ts:90-106 | rejects with "Peer not found" exactly when the id is not in the map, otherwise starts a pending send with id `file-` plus random text |
| `PeerConnection.PeerConnectionManager.Tick` | src/utils/peerConnection.ts:109-144 | a firing of a pending send appends exactly the event `Run` predicts and delivers it to the listener if one is set; a settled send changes nothing and delivers nothing |
| `PeerConnection.PeerConnectionManager.MockPeersArrive` | src/utils/peerConnection.ts:156-169 | the three mock peers are set in order, then the peer listener, if set, receives the new snapshot |
| `PeerConnection.PeerConnectionManager.SetEach` | src/utils/peerConnection.ts:157-164 | the loop of sets leaves the map as `SetAll` specifies |
| `PeerConnection.PeerConnectionManager.AddPeers` | src/utils/peerConnection.ts:156-168 | the timeout's body for any peers: each is set in order, then the peer listener, if set, receives the new snapshot |
| `PeerConnection.PeerConnectionManager.Destroy` | src/utils/peerConnection.ts:173-180 | the map is empty afterwards, however often it is called |
| `PeerConnection.DestroyThenSend` | src/utils/peerConnection.ts:92-96 | after `destroy` every send rejects with "Peer not found" and no listener is called |
| `FileTransfer.UnitIndex` | src/utils/fileTransfer.ts:18 | the unit index `i` is the one with 1024^i ≤ bytes < 1024^(i+1) |
| `FileTransfer.UnitIndexUnique` | src/utils/fileTransfer.ts:18 | no other index brackets the size |
| `FileTransfer.FormatFileSize` | src/utils/fileTransfer.ts:13-21 | `formatFileSize`; its meaning is stated by `FormatZero`, `FormatBytes`, `FormatWithinRounding` and `FormatExactMultiple` |
| `FileTransfer.FormatZero` | src/utils/fileTransfer.ts:14 | 0 bytes reads exactly "0 Bytes" |
| `FileTransfer.FormatBytes` | src/utils/fileTransfer.ts:13-20 | 1 to 1023 bytes read as the integer followed by " Bytes" |
| `FileTransfer.FormatWithinRounding` | src/utils/fileTransfer.ts:17-20 | the unit is `sizes[i]` for i ≤ 4, and the number shown, read back, is the size in that unit rounded half up to hundredths |
| `FileTransfer.FormatExactMultiple` | src/utils/fileTransfer.ts:17-20 | an exact multiple m·1024^i below 1024^(i+1) reads as m with no decimals |
| `FileTransfer.FormatOneKB` | src/utils/fileTransfer.ts:13-21 | 1024 bytes read "1 KB" |
| `FileTransfer.FormatOneAndAHalfKB` | src/utils/fileTransfer.ts:13-21 | 1536 bytes read "1.5 KB": `parseFloat` drops the trailing zero of "1.50" |
| `FileTransfer.FormatJustBelowOneMB` | src/utils/fileTransfer.ts:18-20 | 1048575 bytes stay in kilobytes and round up to "1024 KB" |
| `FileTransfer.HundredthsOfMultiple` | src/utils/fileTransfer.ts:20 | an exact multiple of the unit has no hundredths to round |
| `FileTransfer.TwoDecimalRoundTrip` | src/utils/fileTransfer.ts:20 | the two-decimal text with trailing zeros dropped reads back as the same number of hundredths |
| `FileTransfer.LastSegment` | src/utils/fileTransfer.ts:24 | `split('.').pop()` is the suffix after the last '.', or the whole name when there is none |
| `FileTransfer.IconForExtension` | src/utils/fileTransfer.ts:26-62 | total; each tag is returned exactly for its listed extensions, and every other extension gives 'file' |
| `FileTransfer.FileTypeIcon` | src/utils/fileTransfer.ts:23-63 | total: always one of the eight tags; the lemmas below state which |
| `FileTransfer.FileTypeIconCaseInsensitive` | src/utils/fileTransfer.ts:24 | lower-casing the name does not change the tag |
| `FileTransfer.FileTypeIconOfExtension` | src/utils/fileTransfer.ts:24-26 | `base.ext` with a dot-free `ext` is classified by the lower-cased `ext` |
| `FileTransfer.FileTypeIconNoDot` | src/utils/fileTransfer.ts:24 | a name without '.' is classified by the whole lower-cased name |
| `FileTransfer.FileItems` | src/utils/fileTransfer.ts:71-85 | the files taken from `items` are no more than the items |
| `FileTransfer.FileItemsMembership` | src/utils/fileTransfer.ts:72-75 | a file is taken exactly when some item of kind 'file' yields it |
| `FileTransfer.FileItemsAppend` | src/utils/fileTransfer.ts:72-85 | the files are kept in the items' order: taking the files of a concatenation is concatenating the files taken |
| `FileTransfer.DroppedFiles` | src/utils/fileTransfer.ts:71-97 | with `items` no more files than items; without `items`, every entry of `files`; with neither, nothing |
| `FileTransfer.Descriptors` | src/utils/fileTransfer.ts:76-95 | one descriptor per file, in order, each with the selected peer, progress 0 and status 'pending' |
| `FileTransfer.HandleFileDrop` | src/utils/fileTransfer.ts:65-100 | the two loops build the descriptors of the dropped files: from `items` when present, otherwise every entry of `files` |
| `FileTransfer.AllOutcomeIff` | src/utils/fileTransfer.ts:118 | `Promise.all` rejects exactly when some send rejects and resolves exactly when all resolve |
| `FileTransfer.AllOutcome` | src/utils/fileTransfer.ts:118 | a rejected `Promise.all` carries the rejection of the first send that rejects |
| `FileTransfer.SendFiles` | src/utils/fileTransfer.ts:102-118 | no send for an empty list; otherwise one `sendFile(f.peerId, f.file)` per descriptor, in order, each rejecting exactly when its peer is unknown |
| `IndexPage.FindIndex` | src/pages/Index.tsx:40 | -1 exactly when no entry has the id, otherwise the first index that has it |
| `IndexPage.Upsert` | src/pages/Index.tsx:39-48 | an existing id is replaced at the same index, with the length and all other entries unchanged; a new id is appended at the end |
| `IndexPage.RemoveTransfer` | src/pages/Index.tsx:109 | keeps exactly the entries with another file id |
| `IndexPage.RemoveAbsent` | src/pages/Index.tsx:109 | filtering an id no entry has leaves the list, order included, unchanged |
| `IndexPage.RemoveAppend` | src/pages/Index.tsx:53 | the filter keeps the survivors in their order: filtering a concatenation is concatenating the filtered parts |
| `IndexPage.RemoveReplaced` | src/pages/Index.tsx:42-43 | replacing an entry by a record with the same id does not change what that id's filter leaves |
| `IndexPage.RemoveAfterUpsert` | src/pages/Index.tsx:39-54 | the removal after a terminal record leaves the list as it was before the record, minus that id |
| `IndexPage.RemoveIdempotent` | src/pages/Index.tsx:108-110 | dismissing twice is dismissing once |
| `IndexPage.UpsertUnique` | src/pages/Index.tsx:39-48 | upsert keeps file ids distinct, and the entry with the record's id is the record |
| `IndexPage.RemoveUnique` | src/pages/Index.tsx:53 | filtering keeps file ids distinct |
| `IndexPage.FindPeer` | src/pages/Index.tsx:85 | `find` gives nothing exactly when no peer has the id, otherwise the first listed peer with that id |
| `IndexPage.DeviceIdNeverShownAsWritten` | src/pages/Index.tsx:28-29 | storing the object `init()` returns leaves the Device ID box at "Generating..." |
| `IndexPage.StoredInfoAsWritten` | src/pages/Index.tsx:29 | line 29 as written: the page keeps the object `init()` returns; `DeviceIdNeverShownAsWritten` states the consequence |
| `IndexPage.DeviceIdText` | src/pages/Index.tsx:159 | the box shows the stored `id` when there is one, otherwise "Generating..." |
| `IndexPage.StoredInfo` | src/pages/Index.tsx:29 | the corrected page stores `id` and `name` taken from `localPeerId` and `localPeerName` |
| `IndexPage.DeviceIdShown` | src/pages/Index.tsx:28-29 | with the corrected page the Device ID box shows the generated id |
| `IndexPage.IndexPage.constructor` | src/pages/Index.tsx:17-23 | the initial value of every piece of page state |
| `IndexPage.IndexPage.Mount` | src/pages/Index.tsx:26-61 | initialises the manager, takes its name as the user name, registers both listeners and arms the connect timeout; it stores the identity with the corrected line 29 (see "## Findings"), so the Device ID box shows the manager's id |
| `IndexPage.IndexPage.ShowIdentity` | src/pages/Index.tsx:28-30 | `init()` schedules the mock arrival once; with the corrected line 29 the box shows the manager's id; the user name becomes the manager's name |
| `IndexPage.IndexPage.Subscribe` | src/pages/Index.tsx:33-56 | both listeners are registered; the peers listener is called at once with the peers when there are any |
| `IndexPage.IndexPage.OnPeersChange` | src/pages/Index.tsx:33-36 | stores the snapshot and shows the page as connected |
| `IndexPage.IndexPage.OnFileProgress` | src/pages/Index.tsx:38-56 | upserts the record, and schedules its removal exactly when it is complete or failed; file ids stay distinct |
| `IndexPage.IndexPage.RemovalTimerFires` | src/pages/Index.tsx:52-54 | drops exactly the entries with the scheduled id; file ids stay distinct |
| `IndexPage.IndexPage.ConnectTimerFires` | src/pages/Index.tsx:59-61 | shows the page as connected, with or without peers |
| `IndexPage.IndexPage.Unmount` | src/pages/Index.tsx:64-66 | destroys the manager, leaving it without peers |
| `IndexPage.IndexPage.ChangeUserName` | src/pages/Index.tsx:69-71 | the input's value becomes the user name |
| `IndexPage.IndexPage.SubmitUserName` | src/pages/Index.tsx:73-81 | renames exactly when the name is not blank once trimmed, and passes it untrimmed |
| `IndexPage.IndexPage.SelectPeer` | src/pages/Index.tsx:83-92 | selects the id even when no peer has it; the peer found is the first with that id |
| `IndexPage.IndexPage.FilesSelected` | src/pages/Index.tsx:94-106 | appends the files after the existing ones, sends each, and reports failure exactly when some file's peer is unknown |
| `IndexPage.IndexPage.DismissTransfer` | src/pages/Index.tsx:108-110 | drops exactly the entries with that id; file ids stay distinct |
| `IndexPage.IndexPage.ShowsTransfers` | src/pages/Index.tsx:201 | the list section appears only when there is a transfer, the same rule as `TransferProgress.IsRendered` |
| `TransferProgress.DefaultIconIff` | src/components/TransferProgress.tsx:36-51 | of the tags, exactly 'file' and 'file-presentation' get the default icon |
| `TransferProgress.PresentationGetsDefaultIcon` | src/components/TransferProgress.tsx:33-51 | a .ppt or .pptx file, in any case, is shown with the default icon |
| `TransferProgress.IconForTag` | src/components/TransferProgress.tsx:36-51 | the `switch` of `getIcon`; `DefaultIconIff` states which tags get the default icon |
| `TransferProgress.GetIcon` | src/components/TransferProgress.tsx:33-52 | a file gets the default icon exactly when its tag is 'file' or 'file-presentation' |
| `TransferProgress.Synced` | src/components/TransferProgress.tsx:20-29 | existing entries keep their values and are never removed; every transfer's id is present; added entries are false |
| `TransferProgress.NewIdsAreAdded` | src/components/TransferProgress.tsx:22-26 | one fade-in timeout is armed per added id, never two for the same id |
| `TransferProgress.NewIds` | src/components/TransferProgress.tsx:22-26 | at most one timeout per transfer, and only for ids not yet in the map |
| `TransferProgress.TransferProgressView.constructor` | src/components/TransferProgress.tsx:16 | the map starts empty |
| `TransferProgress.TransferProgressView.SyncVisible` | src/components/TransferProgress.tsx:18-30 | the loop leaves the map as `Synced` specifies and arms the timeouts `NewIds` names |
| `TransferProgress.TransferProgressView.RevealFires` | src/components/TransferProgress.tsx:24-26 | sets only that id to true and leaves every other entry unchanged |
| `TransferProgress.IsRendered` | src/components/TransferProgress.tsx:54 | nothing is rendered for an empty list |
| `TransferProgress.HeaderText` | src/components/TransferProgress.tsx:58-60 | the heading reads "File Transfers (" then a number then ")"; `HeaderCountsTransfers` states the number |
| `TransferProgress.HeaderCountsTransfers` | src/components/TransferProgress.tsx:58-60 | the number in the heading, read back, is the number of transfers |
| `FileTransferZone.FileTransferZone.constructor` | src/components/FileTransferZone.tsx:20 | not dragging at first |
| `FileTransferZone.FileTransferZone.SetSelectedPeer` | src/components/FileTransferZone.tsx:8-19 | a new `selectedPeerId` prop replaces the selection and nothing else, so a drag in progress stays highlighted |
| `FileTransferZone.FileTransferZone.DragOver` | src/components/FileTransferZone.tsx:23-27 | the drag flag is set |
| `FileTransferZone.FileTransferZone.DragLeave` | src/components/FileTransferZone.tsx:29-33 | the drag flag is cleared |
| `FileTransferZone.FileTransferZone.Drop` | src/components/FileTransferZone.tsx:35-52 | always clears the flag; without a peer forwards nothing; with one forwards the dropped files' descriptors only when there are any |
| `FileTransferZone.FileTransferZone.FileInputChange` | src/components/FileTransferZone.tsx:54-75 | forwards nothing without a peer or without a file, otherwise one pending descriptor per chosen file, in order |
| `FileTransferZone.FileTransferZone.Click` | src/components/FileTransferZone.tsx:94 | opens the picker exactly when a peer is selected |
| `PeersList.GetDeviceIcon` | src/components/PeersList.tsx:24-36 | the keyword chain; `DeviceIconPrecedence` states it in full and `DeviceIconCaseInsensitive` its case rule |
| `PeersList.DeviceIconCaseInsensitive` | src/components/PeersList.tsx:25 | the icon does not depend on letter case |
| `PeersList.IPhoneImpliesPhone` | src/components/PeersList.tsx:27 | the "iphone" test is subsumed by the "phone" test |
| `PeersList.DeviceIconPrecedence` | src/components/PeersList.tsx:24-36 | smartphone exactly for "phone" or "android"; tablet for "ipad" or "tablet" only when not a phone; laptop for "mac" or "book" only when neither; monitor otherwise |
| `PeersList.MacBookIsLaptop` | src/components/PeersList.tsx:31-32 | "MacBook Pro" is a laptop |
| `PeersList.WindowsDesktopIsMonitor` | src/components/PeersList.tsx:33-35 | "Windows Desktop" is a monitor |
| `PeersList.AndroidPhoneIsSmartphone` | src/components/PeersList.tsx:27-28 | "Android Phone" is a smartphone |
| `PeersList.AndroidTabletIsSmartphone` | src/components/PeersList.tsx:27-30 | "Android Tablet" is a smartphone, because the phone test comes first |
| `PeersList.IsSelected` | src/components/PeersList.tsx:63-77 | a peer is highlighted exactly when its id is the selected one; `AtMostOneSelected` states the consequence |
| `PeersList.CountBadge` | src/components/PeersList.tsx:42-46 | the badge text `{peers.length}`, shown only for a non-empty list; `BadgeCountsPeers` states its meaning |
| `PeersList.BadgeCountsPeers` | src/components/PeersList.tsx:42-57 | exactly one of the badge and the scanning placeholder is shown, and the badge, read back, is the number of peers |
| `PeersList.ShowsScanning` | src/components/PeersList.tsx:49-57 | the "Scanning for devices..." placeholder is shown for an empty list; `BadgeCountsPeers` relates it to the badge |
| `PeersList.AtMostOneSelected` | src/components/PeersList.tsx:63-77 | in a peer map at most one peer is shown as selected |
| `ConnectionStatus.LabelCases` | src/components/ConnectionStatus.tsx:29-43 | "Connecting..." when not connected; "Connected" for no peers; "Connected to 1 device"; "Connected to N devices" |
| `ConnectionStatus.CountFromLabel` | src/components/ConnectionStatus.tsx:33 | two connected labels naming devices are equal only for equal counts |
| `ConnectionStatus.LabelDeterminesState` | src/components/ConnectionStatus.tsx:29-43 | the label determines whether the page is connected and, when it is, the positive peer count |
| `ConnectionStatus.StatusLabel` | src/components/ConnectionStatus.tsx:29-43 | the nested conditional; `LabelCases`, `CountFromLabel` and `LabelDeterminesState` state its meaning |
| `Strings.ToLower` | src/components/PeersList.tsx:25 | `toLowerCase` on ASCII letters: keeps the length and maps each character on its own |
| `Strings.TrimEmptyIffAllWhiteSpace` | src/pages/Index.tsx:74 | `trim()` is empty exactly when every character is white space |
| `Strings.Trim` | src/pages/Index.tsx:74 | `trim()` gives a piece of the text that neither starts nor ends with white space; `TrimStrips` pins down which piece |
| `Strings.TrimMiddle` | src/pages/Index.tsx:74 | what `trim()` returns is the text of `s` right after its leading white space, unchanged |
| `Strings.TrimTrailing` | src/pages/Index.tsx:74 | every character after what `trim()` returns is white space |
| `Strings.TrimStrips` | src/pages/Index.tsx:74 | `trim()` removes exactly a leading and a trailing run of white space and keeps the text between them unchanged |
| `Strings.Contains` | src/components/PeersList.tsx:27-31 | `includes`: the text occurs at some position; `IPhoneImpliesPhone` and the device examples use it |
| `Strings.Decimal` | src/components/ConnectionStatus.tsx:33 | the decimal numeral of a count: digits only, no leading zero; `DecimalRoundTrip` reads it back |
| `Strings.DecimalRoundTrip` | src/components/ConnectionStatus.tsx:33 | a count written in decimal reads back as the same count |

## Left out

- Timers and intervals are explicit steps: `Tick`, `MockPeersArrive`, `ConnectTimerFires`, `RemovalTimerFires` and `RevealFires`. Real time, the 400 ms, 2 s, 5 s and 50 ms delays, and how firings interleave are not modelled. Whoever drives the model chooses the order.
- `Math.random` is a parameter wherever it is used: each progress increment is a real in [0, 10); the id suffixes are free strings; the name number is below 1000. Nothing claims generated ids are unique, and the code does not ensure it.
- `generateId`'s base-36 text is not modelled; the id suffix is any string.
- Floating point is not modelled.
  - Progress is an exact real.
  - `formatFileSize` uses the exact integer logarithm and exact half-up rounding to hundredths, which is what `toFixed(2)` does on the exact quotient. `Math.log` rounding near exact powers of 1024, and doubles above 2^53, are not captured.
  - Sizes of 1024^5 bytes or more are modelled as the code behaves: the unit name is `undefined`.
- `toLowerCase` is modelled on ASCII letters only; other Unicode case mappings are not.
- Promises are `SendOutcome` values: `Pending`, `Resolved` or `Rejected("Peer not found")`. Microtask timing is not modelled.
- `IndexPage.IndexPage.FilesSelected` reports whether the batch's promise rejects. That happens only through an unknown peer, which is known at the call. Its `.catch` toast is the flag it returns.
- Listener callbacks are tokens. The manager records each call it makes in `peersLog` or `progressLog`. The page's `OnPeersChange` and `OnFileProgress` are the bodies of those listeners, applied by the driver to the delivered values.
- Toasts, `console.log`, JSX, CSS classes, hover state, the status animation flag and `preventDefault`/`stopPropagation` are presentation only.
- The `RTCPeerConnection.close` loop in `destroy` is not modelled, because every stored connection is `null`. The `connection` and `dataChannel` fields are dropped from peers for the same reason.
- `setOnFileReceiveListener` and its `onFileReceive` slot are not modelled: nothing ever calls that listener.
- The `FileMeta` record that `sendFile` builds is not modelled: nothing reads it.
- The name of the peer shown in the completion toast is not modelled.
- React's state batching and effect scheduling are not modelled. Each handler's state updates are applied in order, at once.
- PeerConnection.PeerTable.Set: its own contract states only that the result is a well-formed map. What it stores is stated by `SetLookup`, `SetSizeAndOrder` and `SetPresent`.
- PeerConnection.SetAll: its own contract states only that the result is a well-formed map. What it stores is stated by `SetAllKeepsKeys`, `SetAllAddsIds`, `SetAllSize`, `SetAllOthers`, `SetAllKeepsOrder`, `SetAllStores` and `SetAllPresent`.
- IndexPage.IndexPage.Mount: applies the corrected line 29 of src/pages/Index.tsx (`StoredInfo`), not the line as written, so its Device ID guarantee holds of the corrected page only. As written, the box stays at "Generating..." (`IndexPage.DeviceIdNeverShownAsWritten`).
- IndexPage.IndexPage.ShowIdentity: applies the corrected line 29 of src/pages/Index.tsx (`StoredInfo`), not the line as written, so its guarantee that the Device ID box shows the manager's id holds of the corrected page only. As written, the box stays at "Generating..." (`IndexPage.DeviceIdNeverShownAsWritten`).

## Findings

| source | as written | input that shows it | evidently intended | confidence | as-written member | corrected member |
|---|---|---|---|---|---|---|
| src/pages/Index.tsx:28-29 | the page stores the object `init()` returns, whose properties are `localPeerId` and `localPeerName`, and the Device ID box reads its `id` | any mount: `init()` returns `{localPeerId: "peer-…", localPeerName: "User-…"}` | the box shows the generated id, as `getLocalPeerInfo()` would give it | high, not executed | `IndexPage.DeviceIdNeverShownAsWritten` | `IndexPage.DeviceIdShown` |
