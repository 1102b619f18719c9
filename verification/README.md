# Canvex live overlay: a Dafny model

This project models the client-side interaction and presence logic of the Canvex live canvas overlay:

- **Cursor-mode state machine.** The local cursor is in one of four modes: hidden, chat, reaction selector, or reaction (with a pressed flag). Keyboard and pointer handlers switch between the modes. They also push partial updates into the local user's presence, which holds a cursor and a chat message.
- **Reaction working set.** This is the list of flying emoji reactions. Inbound broadcast events append to it, and so does a 100 ms emit tick while a reaction is held down. The emit tick also broadcasts the reaction to the other clients. A 1 s sweep drops every reaction older than 5000 ms.
- **Active-users strip.** It shows a "You" avatar, at most three other users, and a "+N" badge for the rest.
- **Remote cursors.** The other connections' cursors are drawn, each coloured by its connection id, with a missing message shown as "".

Every React handler and timer callback is a pure function over an `Overlay` value. The `Overlay` holds the cursor state, the local presence and the reaction list. Timers are explicit inputs (`SweepTick`, `EmitTickInput`), and the current time `now` is passed in as a parameter. `broadcast` is an output value of a step. `updateMyPresence` is a field-wise overwrite (`Presences.Apply`).

Modules:

- `Wrappers`: `Option`, standing for `null`/`undefined`.
- `Presences`: points, presence records, presence patches and other connections.
- `Sequences`: an order-preserving subsequence relation.
- `Reactions`: the working set, the sweep and receiving an event.
- `Live`: the cursor state machine, the emit tick, the step function and traces.
- `ActiveUsers`: the avatar strip.
- `LiveCursors`: the remote-cursor selection.

## Model

| member | source | states |
|---|---|---|
| Presences.Apply | src/components/content/Live.tsx:83 | `updateMyPresence` overwrites exactly the fields the patch names, including overwriting with null, and leaves every other field as it was |
| Presences.Then | src/components/content/Live.tsx:26 | two presence updates combine into one patch that names a field exactly when either of them does |
| Presences.ApplyIdempotent | src/components/content/Live.tsx:26 | presence updates are snapshots: sending the same update twice equals sending it once |
| Presences.ApplyThen | src/components/content/Live.tsx:26 | two updates in a row equal one merged update in which the later one wins field by field |
| Presences.ApplyFullOverwrite | src/components/content/Live.tsx:83 | an update that names every field, as pointer leave does, makes the result independent of the previous presence |
| Reactions.FromEvent | src/components/content/Live.tsx:34-38 | an event taken in at `now` becomes a reaction at (event.x, event.y) with the event's value and timestamp `now` |
| Reactions.Sweep | src/components/content/Live.tsx:43-47 | the sweep never adds entries, and a reaction is kept iff it was in the set and `timestamp > now - 5000` |
| Reactions.Receive | src/components/content/Live.tsx:30-41 | an inbound event appends exactly one reaction at the end, and every earlier entry is unchanged |
| Reactions.SweepAppend | src/components/content/Live.tsx:45 | the sweep filters element by element: sweeping a concatenation is concatenating the sweeps |
| Reactions.SweepPreservesOrder | src/components/content/Live.tsx:45 | the surviving reactions keep their relative order, because the result is a subsequence of the input |
| Reactions.SweepLater | src/components/content/Live.tsx:43-47 | a sweep at a later time subsumes any earlier sweep |
| Reactions.SweepIdempotent | src/components/content/Live.tsx:43-47 | at a fixed `now` the sweep is idempotent |
| Reactions.SweepKeepsLiveSet | src/components/content/Live.tsx:45 | a set whose reactions are all younger than 5000 ms passes the sweep unchanged |
| Reactions.ReceivedLifetime | src/components/content/Live.tsx:30-47 | a reaction received at `t` is kept at the end of the set by every sweep before `t + 5000` and dropped by every sweep from `t + 5000` on; the rest of the set is swept as if it had never arrived |
| Live.Mount | src/components/content/Live.tsx:21-24 | the overlay starts hidden with no reactions |
| Live.KeyUp | src/components/content/Live.tsx:121-134 | "/" opens the chat with no previous message and an empty message; "Escape" hides the cursor and sets the presence message to ""; "e" opens the reaction selector; any other key changes nothing; no key touches the reactions |
| Live.PointerMove | src/components/content/Live.tsx:67-78 | the presence cursor moves to (x, y) unless a cursor is already placed and the selector is open, in which case nothing changes; the mode and message are never changed |
| Live.PointerLeave | src/components/content/Live.tsx:80-86 | leaving always hides the cursor and nulls both presence fields |
| Live.PointerDown | src/components/content/Live.tsx:88-101 | pressing always places the presence cursor; in reaction mode it marks the same reaction pressed, and any other mode is kept |
| Live.PointerUpAsWritten | src/components/content/Live.tsx:103-112 | as written, releasing in reaction mode sets `isPressed` to true; the presence, the reactions and every other mode are unchanged |
| Live.PointerUp | src/components/content/Live.tsx:103-112 | corrected release: in reaction mode the same reaction becomes unpressed; nothing else changes |
| Live.SelectReaction | src/components/content/Live.tsx:114-118 | picking a reaction yields reaction mode with that reaction, not pressed, from any mode |
| Live.EmitTick | src/components/content/Live.tsx:49-66 | the tick broadcasts iff the mode is reaction, it is pressed and a cursor is placed; the broadcast carries the cursor's x and y and the reaction; the local append is exactly what receiving that same event at `now` appends; otherwise nothing changes |
| Live.Step | src/components/content/Live.tsx:30-134 | only the emit tick ever broadcasts; pointer and key inputs never touch the reactions; inbound events and sweeps never touch mode or presence |
| Live.SweepTickWindow | src/components/content/Live.tsx:43-47 | right after a sweep at `now`, every reaction was stamped in (now - 5000, now] |
| Live.StepKeepsClock | src/components/content/Live.tsx:30-66 | on a clock that does not run backwards, no step leaves a reaction stamped in the future |
| Live.Run | src/components/content/Live.tsx:30-134 | a trace of inputs yields at most one broadcast per input |
| Live.RunKeepsClock | src/components/content/Live.tsx:30-66 | over any trace on a monotone clock, no reaction is stamped later than the last input's time |
| Live.PickPressEmits | src/components/content/Live.tsx:49-118 | picking a reaction and pressing at (x, y) makes the next emit tick broadcast that reaction at (x, y) and append it locally |
| Live.LeaveSilencesEmit | src/components/content/Live.tsx:49-86 | after the pointer leaves, the emit tick broadcasts nothing |
| Live.PointerUpAsWrittenKeepsEmitting | src/components/content/Live.tsx:103-112 | as written, after press and release the emit tick still broadcasts the reaction |
| Live.PointerUpStopsEmitting | src/components/content/Live.tsx:103-112 | with the corrected release, the next emit tick broadcasts nothing and changes nothing |
| Live.KeyUpIdempotent | src/components/content/Live.tsx:121-134 | releasing the same key twice has the same effect as releasing it once |
| ActiveUsers.Ids | src/components/users/ActiveUsers.tsx:22-25 | one avatar key per user, in the users' order, carrying that user's connection id |
| ActiveUsers.Summarize | src/components/users/ActiveUsers.tsx:8-35 | "You" is shown iff the local user is present; the avatars are the first min(3, n) users in order; the badge is shown iff n > 3 and then reads a positive count equal to n minus the shown avatars |
| ActiveUsers.EveryoneAccountedFor | src/components/users/ActiveUsers.tsx:22-33 | shown avatars plus the badge count equal the number of other users |
| ActiveUsers.SelfIndependent | src/components/users/ActiveUsers.tsx:16-33 | the avatars and badge of the others do not depend on whether the local user is present |
| ActiveUsers.JoiningKeepsShown | src/components/users/ActiveUsers.tsx:22 | users joining at the end never displace shown avatars, and with three or more users the shown avatars stay the same |
| LiveCursors.JsRemainder | src/components/cursor/LiveCursors.tsx:11 | JavaScript `%`: the remainder has the sign of the dividend, has magnitude below the divisor, and equals Euclidean `%` for non-negative dividends |
| LiveCursors.ColorOf | src/components/cursor/LiveCursors.tsx:11 | any colour chosen comes from the palette; for a non-negative id it is `COLORS[id mod COLORS.length]`; the lookup is `undefined` iff the palette is empty or a negative id leaves a non-zero remainder |
| LiveCursors.MessageText | src/components/cursor/LiveCursors.tsx:14 | the shown message is the presence message when present and "" otherwise |
| LiveCursors.ViewOf | src/components/cursor/LiveCursors.tsx:9-15 | a drawn cursor carries its connection's id, colour, unchanged cursor x and y, and message text |
| LiveCursors.SelectCursors | src/components/cursor/LiveCursors.tsx:7-17 | a cursor is produced for a connection iff its presence has a cursor, every produced cursor comes from such a connection, and there are never more cursors than connections |
| LiveCursors.SelectCursorsAppend | src/components/cursor/LiveCursors.tsx:7-17 | selection keeps the order of `others`: the cursors of a concatenation are the concatenation of the cursors |
| LiveCursors.SelectCursorsSingle | src/components/cursor/LiveCursors.tsx:7-8 | one connection yields its cursor if it has one and nothing otherwise |
| LiveCursors.ColoursInBounds | src/components/cursor/LiveCursors.tsx:11 | with a non-empty palette and non-negative ids, every drawn cursor has a palette colour |

## Left out

- The Liveblocks hooks (`useOthers`, `useMyPresence`, `useSelf`, `useBroadcastEvent`, `useEventListener`) are not modelled. Replication, delivery and presence merging happen inside that library. The list of others is an input, `updateMyPresence` is `Presences.Apply`, and a broadcast is an output value.
- `useInterval` and real timers are not modelled. The 1000 ms sweep and the 100 ms emit tick are explicit inputs that carry the current time, and their periods are not modelled.
- `Date.now()` becomes the parameter `now`. The source calls `Date.now()` once per element inside the sweep's filter. The model uses one `now` for the whole sweep.
- React closures are not modelled. The pointer handlers read `cursorState.mode` from the last render, while the state setters read the previous state. The model gives every handler the current state.
- Rendering is not modelled: JSX, `FlyingReaction`, `CursorChat`, `ReactionSelector` and the `useMemo` keyed on `users.length` (with its stale rendering) are all outside the model. The chat component's own message editing is not part of this model.
- `generateRandomName` is random and not shown, so avatars are identified by connection id only.
- The `getBoundingClientRect` floating-point arithmetic is left out. Pointer handlers receive integer canvas-relative coordinates.
- `preventDefault`, the keydown handler and listener registration are DOM plumbing and are left out.
- The `COLORS` constant is not part of this model. The palette is a parameter.
- The presence the room starts with is set outside the shown files. `Live.Mount` takes it as a parameter.
- The shared document store, conflict resolution and undo/redo have no code in the modelled files, so they are left out. So are the layout, sidebar and comments components, which are markup and wiring.
- Live.Step: uses the corrected `Live.PointerUp` for pointer release, not the as-written handler. See Findings.
- Live.Run: its contract states only the broadcast bound. The clock invariant over traces is in `Live.RunKeepsClock`.

## Findings

| source | as written | input that shows it | evidently intended | confidence | as-written member | corrected member |
|---|---|---|---|---|---|---|
| src/components/content/Live.tsx:103-112 | pointer up in reaction mode sets `isPressed: true`, the same as pointer down | pick a reaction, press at (x, y), release: the next emit tick still broadcasts the reaction, and it keeps broadcasting every 100 ms until the mode changes | pointer up sets `isPressed: false`, so reactions stream only while the pointer is held | medium, not executed | Live.PointerUpAsWritten (exhibited by Live.PointerUpAsWrittenKeepsEmitting) | Live.PointerUp (proved by Live.PointerUpStopsEmitting; used by Live.Step) |
