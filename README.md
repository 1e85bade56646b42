# RealTime collaborative editor: relay and replica model

A Dafny model of the stateful core of a small real-time collaborative code
editor. A Socket.IO server keeps the roster of the one room, `"default"`, and
forwards whole-document `text-update` and `chat-update` messages to every other
socket in the room. Each browser client keeps its own copy of the text, using
last-writer-wins: an inbound update replaces the buffer. Each client also keeps
a map of the other users' selection ranges, derives editor decorations from
that map, and gives users colours from fixed palettes.

One module per source file, except that `server/src/index.ts` is split into its pure roster functions (`Roster`) and its connection handler (`RelayServer`); a shared `Prelude` module holds an `Option` type and a duplicate-free predicate:

- `Roster` (`Roster.dfy`) has the pure part of `server/src/index.ts`:
  - the identity fallback (`userId ?? socket.id`, `name ?? "Anonymous"`);
  - `find`, the dedup-by-id join and the filter-by-id leave on the ordered `User` list;
  - the lemmas about them.
- `RelayServer` (`RelayServer.dfy`) has the connection handler as a class `Server` with three fields:
  - `roster`, which is `roomUsers["default"]`;
  - `room`, the sockets joined to the room;
  - `sessions`, the `safeUser` each connection's handler closure captured.

  Each socket event is one atomic method that returns the emission it makes: the
  recipients and the event. The relay is single-threaded, so events never
  interleave. The class invariant says three things: roster ids are pairwise
  distinct, the room is exactly the live connections, and every roster entry is
  the identity of a live connection.
- `ColorPicker` (`ColorPicker.dfy`) has `client/src/utils/colorPicker.ts`: the
  ten-colour `COLORS`, the counter `colorIndex` as class `Picker`, and lemmas
  about `ColorAt(n) = COLORS[n mod 10]`.
- `UserColors` (`UserColors.dfy`) has `client/src/utils/userColors.ts`: the
  memo table `usersColors` as class `LoginColors`, which draws from a shared `Picker`.
- `EditorPage` (`EditorPage.dfy`) has `client/src/pages/EditorPage.tsx`:
  - the buffer updates (inbound `text-update` and `handleEditorChange`);
  - the keyed overwrite of `userSelections` on `cursor-update`;
  - the decoration list;
  - the page's own five-colour `getUserColor`, as class `ColorMap`.

  `userSelections` is an insertion-ordered list of entries. A JavaScript object
  keeps its string keys in insertion order, and the spread copy
  `{...prev, [k]: v}` keeps an existing key where it stands and appends a new one.

Falsy tests (`!usersColors[id]`, `!userColorMap[id]`, `!userId`) are written out:
both a missing entry and the empty string count as false.

Three points about what the code does, which a reader might expect otherwise:

- The roster is not always the set of connected ids. The first disconnect of
  any connection using an id drops that id from the roster, even when a second
  connection with the same id is still in the room. `RelayServer.DisconnectSharedId`
  proves this for every valid server state; `Roster.SharedIdDroppedEarly` states
  it on rosters, and `RelayServer.SharedId` walks through one example. What does
  always hold is the `Valid()` invariant: no duplicate ids and no stale entries.
- There is no `join` event and no server relay of `cursor-update`. Membership
  changes only on connection and disconnect, and only `text-update` and
  `chat-update` are relayed.
- There are two independent colour assigners, with different palettes and
  different index rules. They are modelled separately.

## Model

| member | source | states |
|---|---|---|
| Roster.Identity | server/src/index.ts:41-50 | the id is `userId` when present, otherwise the connection id; the name is `name` when present, otherwise "Anonymous"; a present empty string is kept |
| Roster.Find | server/src/index.ts:55 | finds an entry exactly when some entry has the id, and returns the first such entry |
| Roster.Leave | server/src/index.ts:74 | never longer than the input; a user is kept exactly when it was in the roster with a different id |
| Roster.Join | server/src/index.ts:55-57 | find-then-push: the joining id is present afterwards, every earlier entry keeps its place, and the roster grows by one exactly when the id was new; further specified by JoinKnown, JoinNew, JoinUniqueIds and JoinContainsOnce |
| Roster.JoinKnown | server/src/index.ts:55 | joining with an id already present leaves the roster unchanged, so the stored name is not refreshed |
| Roster.JoinNew | server/src/index.ts:55-56 | joining with a new id appends the user at the end and keeps the earlier entries in order |
| Roster.JoinUniqueIds | server/src/index.ts:53-57 | a join keeps the roster's ids pairwise distinct |
| Roster.JoinContainsOnce | server/src/index.ts:55-57 | after a join to a duplicate-free roster, the user's id occurs exactly once |
| Roster.LeaveRemovesAll | server/src/index.ts:74 | after a leave, no entry has the leaving id |
| Roster.LeaveKeepsOthers | server/src/index.ts:74 | every other id occurs as often after the leave as before |
| Roster.LeaveAppend | server/src/index.ts:74 | leave acts piecewise on concatenations, so kept entries stay in their relative order |
| Roster.LeaveSingle | server/src/index.ts:74 | a single entry is kept exactly when its id differs |
| Roster.LeaveAbsent | server/src/index.ts:74 | leaving with an absent id is a no-op |
| Roster.LeaveUniqueIds | server/src/index.ts:74 | a leave keeps the ids pairwise distinct |
| Roster.SharedIdDroppedEarly | server/src/index.ts:55-74 | on rosters: two joins under one id, then one leave of that id, and the id is gone from the roster; RelayServer.DisconnectSharedId states the same for connections |
| RelayServer.Server.constructor | server/src/index.ts:36 | the server starts with an empty roster, an empty room and no connections, and the invariant holds |
| RelayServer.Server.Connect | server/src/index.ts:38-61 | records the fallback identity; the roster becomes the dedup-join of it; the socket joins the room; the emitted `users` event carries the new roster to the whole room, including the joiner; the invariant is kept |
| RelayServer.Server.Disconnect | server/src/index.ts:73-76 | the roster becomes the filter-by-id of the connection's identity, which is then absent; the socket leaves the room; the `users` event carries the new roster to the remaining sockets; the invariant is kept |
| RelayServer.DisconnectSharedId | server/src/index.ts:55-75 | in any valid server state with two live connections under one id, the first disconnect takes the id off the roster, while the other connection stays in the room, keeps that id and receives the roster without it |
| RelayServer.Server.RelayText | server/src/index.ts:63-66 | the text goes verbatim to exactly the room members other than the sender, with no echo |
| RelayServer.Server.RelayChat | server/src/index.ts:68-71 | the chat payload goes verbatim to exactly the room members other than the sender |
| ColorPicker.ColorAtInPalette | client/src/utils/colorPicker.ts:1-8 | every colour handed out is an entry of `COLORS` |
| ColorPicker.FirstColor | client/src/utils/colorPicker.ts:1-8 | the first call returns "#FF6B6B" |
| ColorPicker.ColorAtPeriodic | client/src/utils/colorPicker.ts:8 | calls ten apart return the same colour |
| ColorPicker.PaletteDistinct | client/src/utils/colorPicker.ts:1-4 | the ten palette entries are pairwise different |
| ColorPicker.WindowDistinct | client/src/utils/colorPicker.ts:1-8 | any two of ten consecutive calls return different colours |
| ColorPicker.Picker.constructor | client/src/utils/colorPicker.ts:6 | the counter starts at 0 and nothing has been handed out |
| ColorPicker.Picker.GetUserColor | client/src/utils/colorPicker.ts:7-10 | returns `COLORS[colorIndex mod 10]`, a palette entry; the counter goes up by exactly one; the n-th call (from 0) has returned `COLORS[n mod 10]` |
| UserColors.LoginColors.constructor | client/src/utils/userColors.ts:3 | the table starts empty; with a fresh picker it is the picker's sole caller |
| UserColors.LoginColors.HandleLogin | client/src/utils/userColors.ts:5-9 | returns the colour now stored for the id, a palette entry; an unseen id gets the picker's next colour and the picker moves one step; a known id leaves the table and the picker unchanged; no stored colour ever changes; if the table was the picker's only caller, it still is, and the k-th distinct id holds `COLORS[k mod 10]` |
| UserColors.TenApartShareColor | client/src/utils/userColors.ts:6-7 | as sole caller of the picker, ids ten apart in first-login order share a colour |
| EditorPage.Lookup | client/src/pages/EditorPage.tsx:16 | the value of key `k` in the `userSelections` object: a selection is found exactly when some entry has key `k`, and that entry holds it |
| EditorPage.Put | client/src/pages/EditorPage.tsx:31-34 | `{...prev, [k]: v}`: `k` is a key afterwards, and the list grows by one exactly when `k` was new; further specified by PutShape, PutLookup, PutUniqueKeys and PutOverwrite |
| EditorPage.PutShape | client/src/pages/EditorPage.tsx:31-34 | `{...prev, [k]: v}` rewrites the first entry for `k` in place, or appends `k` at the end when it is new |
| EditorPage.PutLookup | client/src/pages/EditorPage.tsx:31-34 | after the overwrite `k` holds `v`, and every other key holds what it held before |
| EditorPage.OnCursorUpdate | client/src/pages/EditorPage.tsx:30-35 | an inbound cursor-update stores `{range, color}` under the sender's id, leaves every other id unchanged and does not touch the buffer |
| EditorPage.PutUniqueKeys | client/src/pages/EditorPage.tsx:31-34 | the overwrite never duplicates a key; the key set grows by `k` alone |
| EditorPage.PutOverwrite | client/src/pages/EditorPage.tsx:30-35 | two cursor-updates from one user leave only the second selection, never both |
| EditorPage.Decorate | client/src/pages/EditorPage.tsx:72-82 | a decoration copies the four range coordinates, and its class is "highlight-" followed by the colour |
| EditorPage.Decorations | client/src/pages/EditorPage.tsx:72-82 | one decoration per entry, in key order, each with its entry's range and the class "highlight-" followed by the entry's colour; DecorationsOnePerKey relates the count to the keys |
| EditorPage.DecorationsOnePerKey | client/src/pages/EditorPage.tsx:70-83 | the decoration list has exactly as many entries as the selection map has keys; the i-th decorates the i-th entry; every stored selection is decorated |
| EditorPage.OnTextUpdate | client/src/pages/EditorPage.tsx:25-27 | an inbound text-update makes the buffer the payload verbatim and leaves the selections alone; LastWriterWins extends this to any run of updates |
| EditorPage.LastWriterWins | client/src/pages/EditorPage.tsx:25-27 | after any run of inbound text-updates, the buffer is the last payload verbatim, with no merge, and the selections are untouched |
| EditorPage.HandleEditorChange | client/src/pages/EditorPage.tsx:42-45 | a local edit sets the buffer to the value, or to "" when it is undefined; the raw value is what gets emitted; the selections are untouched |
| EditorPage.ReplicaKeepsUniqueKeys | client/src/pages/EditorPage.tsx:11-45 | the page starts from an empty buffer and no selections; every inbound text-update, inbound cursor-update and local edit keeps the selection keys duplicate-free, so `DecorationsOnePerKey` applies to every reachable state |
| EditorPage.ColorMap.constructor | client/src/pages/EditorPage.tsx:120 | the map starts empty and the invariant holds |
| EditorPage.ColorMap.FiveApartShareColor | client/src/pages/EditorPage.tsx:124-128 | ids five apart in first-assignment order share a colour |
| EditorPage.ColorMap.GetUserColor | client/src/pages/EditorPage.tsx:122-129 | an undefined or empty id gives "red" and leaves the map alone; a new id gets `colors[size mod 5]` and the map grows by exactly that key; a known id keeps its colour and the map is unchanged; the result is always a palette entry; the k-th distinct id holds `colors[k mod 5]` |

## Left out

- HTTP and Express setup, CORS, `server.listen`, the `/token` route (random bytes) and the `/api/run` forward to the external judge service (network I/O with a timeout and a secret key) are not modelled.
- Logging (`console.log`) is not modelled.
- Socket.IO transport mechanics are reduced to atomic steps. A connection id is fresh when a `Connect` happens, and `Disconnect` and the relays happen only for a live connection; these are the `requires` of those methods. The leaving socket has already left the room when the disconnect handler broadcasts, so it is not among the recipients.
- The lazy creation of `roomUsers["default"]` is folded into an initially empty roster. Nothing reads the entry before the first connection creates it.
- React wiring (`useState`, `useEffect`, socket creation and cleanup) is reduced to one pure function per handler. The editor widget's internals (`deltaDecorations`, `monaco.Range`, cursor-selection events) are reduced to a plain decoration list. A range is four integers; the range constructor's own normalisation of a reversed range is not modelled.
- The decoration effect takes the Monaco namespace from `editorRef.current._monaco` (client/src/pages/EditorPage.tsx:66), a property `handleMount` never sets. The model assumes this read succeeds and that `new monaco.Range(...)` does not throw; a failure there is not modelled.
- EditorPage.HandleEditorChange: the emitted payload is modelled as the raw, possibly undefined value. How the transport serialises an undefined payload, and what a peer's buffer then holds, is not modelled.
- Payloads are typed. A peer sending a non-string `text-update` is not modelled, because the relay performs no validation.
- JavaScript object quirks are not modelled: keys inherited from the prototype (such as "constructor"), integer-like keys being listed first by `Object.entries`, and a missing `userId` becoming the key "undefined".
- ColorPicker.Picker.GetUserColor: `colorIndex` is an unbounded natural number. Loss of floating-point precision beyond 2^53 calls is not modelled.
- Stale selection entries are never cleared on disconnect, and joiners receive no document snapshot. The code has neither behaviour, so the model has none.
- Chat message contents and timestamps are opaque values; the relay forwards them untouched.
