# Fullscreen relocation core of the content script

`content.js` is a browser content script for a video-streaming site. It
watches the window geometry on every animation frame. When the window fills
the screen (the user pressed F11), it moves the page's video player out of
its place in the document and into a black, full-window overlay. When the
window stops filling the screen, or the user presses Escape, it moves the
player back where it was.

This project models the script's core in Dafny:

- **Full-screen inference** (`FullscreenInference`). `checkF11` and
  `handleKeydown` drive a three-field state machine (`isF11Active`,
  `waitingForF11Toggle`, `lastF11Check`). It is modelled as pure transition
  functions over an integer geometry sample. Proved about it:
  - an invariant over reachable states;
  - quiet repeats: a sample that matches the last one, with no Escape
    pending, does nothing;
  - strict alternation of activate and deactivate requests over any event
    sequence.
- **Relocation engine** (`PageTree`, `Relocation`). `activateFullscreen` and
  `deactivateFullscreen` work on an abstract document:
  - a map from each parent node to the sequence of its children;
  - an optional overlay;
  - an overflow flag;
  - the set of nodes carrying inline styles.
  Proved about it:
  - at most one overlay;
  - idempotence;
  - the round trip: the player returns under its original parent at its
    original index, and every other child list is exactly as before.
- **Readiness with a 100 ms memo** (`Readiness`). `isVideoReady` is a
  conjunction over the media element's fields, cached for 100 ms.
- **Bounded caches** (`OrderedMaps`, `ElementCaching`, `Throttling`).
  `getCachedElement`, `clearElementCache` and `throttle` keep insertion-ordered
  JavaScript `Map`s that are capped at 20 entries.
  - The element cache evicts the least recently accessed entry. With a
    monotone clock, that is never the entry just stored.
  - The throttle table evicts the oldest inserted key.
- **The shared `state` object** (`Sessions.Session`). It is a class whose
  methods update the fields in place, as the handlers do:
  `checkF11`, `handleKeydown`, the resize handler, `detectUrlChange`, and one
  step of `attemptReactivation`. The reactivation chain is also modelled as a
  function over the successive readings its retries see (`Sessions.Chain`).
  Proved about it: at most 21 attempts, a stop at the first ready reading, and
  a player inside a new overlay when it activates.

The script reads its inputs from the browser. The model takes them as
parameters instead:
- the window and screen sizes (`Sample`);
- the key name;
- the location URL;
- the clock, as an integer;
- the results of the selector lookups (`Env`: the player found on the page,
  the video element's fields, the player found inside the overlay);
- for the element cache, the node a `querySelector` returns and the set of
  nodes still in the document.

Five behaviours of the script that its names and messages do not suggest.
The model follows the code:
- **Active without an overlay.** The script sets `isF11Active` even when
  `activateFullscreen` returns early because the video is not ready.
  `Sessions.ActiveWithoutOverlay` shows such a state, and shows that the same
  reading on later frames is skipped. Before the reading changes,
  `activateFullscreen` runs again only from the resize handler, from a
  reactivation chain, or from the first frame after an Escape
  (`FullscreenInference.EscapeThenFullReactivates`).
- **An overlay while inactive.** A navigation while active takes the
  overlay down and starts the reactivation chain. A windowed frame in the
  meantime makes the state inactive. A later attempt on a ready player still
  puts the overlay up, and from then on the same windowed frame is skipped and
  Escape is ignored (`Sessions.StrayReactivation`).
- **Escape while the window still fills the screen.** Escape marks the state
  as waiting for an F11 toggle, and the message shown asks for one. In the
  script, the very next frame whose geometry still fills the screen
  re-activates at once (`FullscreenInference.EscapeThenFullReactivates`).
- **Resizing.** The resize handler only calls `activateFullscreen`, which does
  nothing while the overlay exists (`Sessions.Session.HandleResize`). The
  overlay keeps the size the window had when it was created.
- **No auto-skip or cool-down.** The script has no auto-skip watcher and no
  cool-down after a transition, so neither is modelled.

## Model

| member | source | states |
|---|---|---|
| FullscreenInference.Matches | content.js:242-244 | A sample matches full screen exactly when its inner width and height each lie within 2 pixels of the screen's, on either side. |
| FullscreenInference.Skipped | content.js:246 | A sample is skipped only when a reading exists and no Escape is pending. In that case it is skipped exactly when its match equals the last reading. |
| FullscreenInference.Step | content.js:238-254 | A sample that matches the last reading with no Escape pending changes nothing and requests nothing. Otherwise the last reading becomes the match and the pending Escape is cleared. A request is made exactly when the match differs from the active flag or an Escape was pending. The active flag then becomes the match, and the request is activate for a match and deactivate otherwise. |
| FullscreenInference.KeyStep | content.js:364-372 | Escape while active requests a deactivation, clears the active flag and marks an Escape pending. Any other key, or Escape while inactive, changes nothing. |
| FullscreenInference.InitialReachable | content.js:8-9 | The initial state (inactive, nothing pending, no reading) satisfies the state invariant. |
| FullscreenInference.StepReachable | content.js:246-253 | A frame sample keeps the invariant. An activation request is only made while inactive. |
| FullscreenInference.KeyStepReachable | content.js:364-371 | A key press keeps the invariant. |
| FullscreenInference.WorkOnlyOnChange | content.js:246-252 | Once a reading has been taken, a reachable state makes a request exactly when the sample is not skipped: its match differs from the last reading, or an Escape is pending. |
| FullscreenInference.RepeatIsQuiet | content.js:246 | Once a sample has been processed, the same sample again changes nothing and requests nothing. |
| FullscreenInference.EscapeThenFullReactivates | content.js:246-252 | After Escape while active, a sample that still fills the screen re-activates immediately. |
| FullscreenInference.EscapeThenExitDeactivatesAgain | content.js:246-252 | After Escape while active, a sample that no longer fills the screen requests a second deactivation and ends inactive with nothing pending. |
| FullscreenInference.NoDoubleActivation | content.js:238-254 | Over any sequence of frames and key presses from a reachable state: an activation request is always followed by a deactivation before the next activation; the first request while active is a deactivation; the final active flag tells whether the last request was an activation. |
| OrderedMaps.OrderedMap.Set | content.js:109 | Setting a key maps it to the value and leaves other keys alone. A key already present keeps its position; a new key goes last. |
| OrderedMaps.OrderedMap.Delete | content.js:113 | Deleting removes the key. The new insertion order is the old one with that key removed: its position is cut out when present, and the order is unchanged when absent. Every other key keeps its value, and the size drops by one exactly when the key was present. |
| OrderedMaps.SizeIsCardinality | content.js:111 | The size of the map equals the number of its keys. |
| PageTree.Detach | content.js:315 | Removing a node from its parent keeps the same parents. Each child list becomes the old list with that node removed, so no other node is lost, added or reordered. |
| PageTree.AppendChild | content.js:316 | The parent's list becomes its old list without the node, followed by the node. Every other list is its old list without the node. |
| PageTree.InsertBefore | content.js:333 | The parent's list becomes its old list without the node, with the node placed immediately before the reference child. If the reference child is not a child of the parent, the node is appended. Every other list is its old list without the node. |
| PageTree.PlaceBefore | content.js:333 | Placing a node that is not in a list puts it immediately before the reference child when that child is in the list, and last otherwise. Nothing else in the list moves, and a list without repeats stays without repeats. |
| PageTree.ParentOf | content.js:290 | The parent found has the node among its children. No parent is reported only when no node has it as a child. |
| PageTree.ParentOfUnique | content.js:290 | In a well-formed tree, the parent found for the `i`-th child of `p` is `p`. |
| PageTree.NextSibling | content.js:291 | The sibling found follows the node in its parent's children. None is reported when the node is last. |
| PageTree.Enter | content.js:290-316 | A fresh overlay node is created whose only child is the player, and it is appended to the body. Overflow is locked and the player is marked styled. The player leaves its old parent. |
| PageTree.Restore | content.js:328-336 | The player is inserted before the recorded sibling when that sibling is still attached to the recorded parent. Otherwise it is appended to that parent. Every other list is its old list without the player. |
| PageTree.Exit | content.js:324-346 | The overlay is removed from the body and from the tree. Overflow is unlocked and no overlay remains. Without the player found or a recorded parent, every other list is its old list without the overlay, and the style marks are kept. With both, the player is put back under the parent as `Restore` does and its style is cleared; every other list then loses the player and the overlay, and the parent's list is the restored one without the overlay. |
| PageTree.EnterAllocated | content.js:297-316 | Entering keeps every node listed in the tree allocated below the next fresh id, and the body stays in the tree. |
| PageTree.ExitAllocated | content.js:324-346 | Exiting keeps every node listed in the tree allocated and the body in the tree. |
| PageTree.EnterTree | content.js:290-316 | Entering keeps the page a tree: no child list repeats a node, and no node has two parents. |
| PageTree.ExitTree | content.js:324-346 | Exiting keeps the page a tree, wherever the player found inside the overlay is put back. |
| PageTree.RoundTrip | content.js:290-339 | Entering for the `i`-th child of `p` and exiting with the recorded parent and sibling gives back exactly the original child lists. The player is again child `i` of `p`; no overlay, overflow lock or style mark remains. |
| Readiness.Playing | content.js:268-272 | A playing element has buffered ahead, started and a positive duration. A paused or seeking element is not playing. |
| Readiness.Check | content.js:256-276 | Within 100 ms of the memo's timestamp, the memo's result is returned and the memo is kept. Otherwise the memo is renewed at the current time. With no video, the result is false. A true result implies readyState ≥ 3, currentTime > 0, not paused, duration > 0 and not seeking, and those conditions imply true. |
| Readiness.VerdictHeld | content.js:258-260 | A fresh verdict is repeated for any query within 100 ms, whatever the video looks like then. |
| Readiness.NotStartedIsNotReady | content.js:268-272 | When the memo is stale, a video whose position or duration is not positive is judged not ready. |
| Relocation.Activation | content.js:283-320 | Nothing changes when an overlay exists. When no player is found, nothing changes. When the video is not ready, only the memo changes. Otherwise the player's parent and next sibling are recorded and the page enters the overlay. |
| Relocation.Deactivation | content.js:322-350 | Nothing changes without an overlay. Otherwise the page exits the overlay and both record fields are cleared, whether or not the player was found. |
| Relocation.ActivationSteps | content.js:283-320 | The three outcomes of activation, one per exit: unchanged with an overlay or no player; only the memo renewed when the video is not ready; otherwise the player's parent and next sibling recorded, and the page entering the overlay. |
| Relocation.ActivationConsistent | content.js:283-320 | Activation keeps the engine consistent: the page a well-formed tree allocated below the next id, and the record cleared while no overlay exists. |
| Relocation.DeactivationConsistent | content.js:322-350 | Deactivation keeps the engine consistent. |
| Relocation.ActivateTwice | content.js:285 | Activating again changes nothing once an overlay exists, so at most one overlay exists. |
| Relocation.ActivationRecords | content.js:290-291 | Activating the `i`-th child of `p` records `p` as its parent and its following child as its next sibling. |
| Relocation.EngineRoundTrip | content.js:283-350 | Activation followed by deactivation, with the player found inside the overlay, restores the tree exactly. It also clears the record and removes the overlay and overflow lock. |
| ElementCaching.OldestIndex | content.js:136-137 | The index chosen holds the smallest last-access time, and it is the first such entry in insertion order. |
| ElementCaching.Evict | content.js:135-139 | At or below 20 entries, the cache is unchanged. Above 20, exactly one entry is deleted, one whose access is the oldest, and every other entry keeps its value. |
| ElementCaching.Store | content.js:128-140 | Storing keeps the cache valid and at most 20 entries. The key holds the new entry unless that entry was itself evicted. When the key was present or the cache had room, the result is exactly the map with the entry set. An evicted entry of the old cache is not the key, has the oldest access of the old cache, and is no newer than the new entry. Every surviving key other than the one stored keeps its entry. |
| ElementCaching.StoreKeepsNewest | content.js:130-138 | With a monotone clock, the entry just stored is never the one evicted. |
| ElementCaching.ElementCache.Hit | content.js:123 | A hit needs the selector cached. For a cached selector, it is a hit exactly when the cached element is still in the document. |
| ElementCaching.ElementCache.Get | content.js:119-142 | Without the cache, the query result is returned and nothing changes. A cached element still in the document is returned and its access time renewed. Otherwise the query result is returned and stored when present. The cache stays within 20 entries, and under a monotone clock the selector's entry afterwards is the one just stored. |
| ElementCaching.ElementCache.Clear | content.js:144-146 | A non-empty selector deletes only that entry. No selector, or the empty string (false in JavaScript), empties the whole cache. |
| Throttling.Record | content.js:108-114 | The key's record is stored and the table stays within 20 entries. A present key keeps its place in the insertion order. A new key goes last, and when the table was full the first-inserted key is dropped, so the order shifts by one. Only that key can be evicted, and only when the key stored was new. |
| Throttling.Throttle.Recent | content.js:106 | A recent call needs a record for the key. For a recorded key, it is recent exactly when `now` is less than `delay` after the last call. |
| Throttling.Throttle.Run | content.js:102-117 | Within `delay` of the key's last call, the stored result is returned and nothing is called or changed. Otherwise the function's result is returned and recorded at the current time, evicting the oldest-inserted key above 20. |
| Sessions.FailingAttempts | content.js:222-229 | The attempt budget of a chain that starts at attempt `n`: 21 − `n` for `n` ≤ 20, and none past 20. |
| Sessions.CheckRepeats | content.js:258-260 | In one reading, a second readiness check returns the first one's verdict. |
| Sessions.Attempt | content.js:222-231 | One attempt keeps the engine consistent. Past attempt 20, it does nothing and ends the chain. It ends the chain exactly when the player is found and the video is ready. Otherwise attempt `n + 1` follows and the page and record are untouched. With no overlay up, an attempt that ends the chain leaves the player alone inside a new overlay. |
| Sessions.Chain | content.js:222-233 | A chain over successive readings makes no more attempts than there are readings, nor more than the budget. It activates only after at least one attempt, and when it does not activate, the page and record are untouched. |
| Sessions.ChainGivesUp | content.js:222-229 | With no player ever found, the chain makes one attempt per reading up to the budget, activates nothing and changes nothing. |
| Sessions.ChainStopsAtFirstReady | content.js:222-231 | A chain that activates made a failing attempt on every reading before the last one it used. Its last attempt is the one that activated. |
| Sessions.ChainActivates | content.js:222-231 | A chain that activates with no overlay up leaves an overlay up. |
| Sessions.Perform | content.js:252 | Carrying out the state machine's request keeps the engine consistent. |
| Sessions.ActiveWithoutOverlay | content.js:249-288 | A full-screen reading while the video is not ready leaves the state active with no overlay, and the same reading again is skipped. |
| Sessions.StrayReactivation | content.js:211-254 | After a navigation while active and then a windowed frame, a ready attempt puts the overlay up while the state is inactive. The same windowed frame and Escape then leave that state unchanged. |
| Sessions.Session.constructor | content.js:6-21 | Starting on a well-formed page without an overlay, the initial state is valid: inactive, nothing pending, no reading, empty caches, no record, memo false at time 0. |
| Sessions.Session.IsVideoReady | content.js:256-276 | The verdict and the new memo are those of the readiness check. |
| Sessions.Session.Relocate | content.js:290-316 | The player's parent and next sibling are recorded, and the page enters the overlay. No other field changes. |
| Sessions.Session.Activate | content.js:283-320 | The engine state becomes the activation of the old one, and no other field changes. |
| Sessions.Session.Deactivate | content.js:322-350 | The engine state becomes the deactivation of the old one, and no other field changes. |
| Sessions.Session.CheckF11 | content.js:238-254 | The inference takes the frame step, and the engine carries out the step's request with the window's size. Nothing else changes. |
| Sessions.Session.HandleKeydown | content.js:364-372 | The inference takes the key step and the engine carries out its request. Escape while active always ends inactive, with an Escape pending, no overlay and no record. |
| Sessions.Session.HandleResize | content.js:374-378 | While active, activation runs again, and it changes nothing when the overlay exists. While inactive, nothing changes. |
| Sessions.Session.DetectUrlChange | content.js:211-236 | With the same URL, nothing changes. With a new URL, the following happens: the URL is stored; the element cache is emptied; the button count and last video are reset; an active overlay is taken down, with the active flag kept; and the reactivation chain is scheduled exactly when active. |
| Sessions.Session.AttemptReactivation | content.js:222-231 | The new engine state and the attempt asked for next are those of `Sessions.Attempt`; no other field changes. |

## Left out

- The toast (content.js:148-167) is left out because it is user interface only. That includes its creation, its styles and its fade-out timers. The toast shown by `handleKeydown` is left out with it.
- Event wiring, scheduling and teardown are left out. That covers:
  - `init`, `cleanup` and `setupUrlObserver`;
  - the `history.pushState` patch;
  - `requestAnimationFrame` in `mainLoop`;
  - the timers of `debounce` and of the reactivation retries.

  The model has the handlers themselves, one call at a time. The retries are the counter passed to `Sessions.Session.AttemptReactivation`, and the sequence of readings given to `Sessions.Chain`.
- `mainLoop` (content.js:352-362) is not a member of its own. It is `DetectUrlChange` followed by `CheckF11`; the listener setup steps that follow it are left out.
- The click and double-click listener attachment (content.js:169-209) is left out because it only registers handlers on host-page nodes. Only the two bookkeeping fields it shares with `detectUrlChange`, `lastButtonCount` and `lastVideoElement`, are kept.
- CSS is reduced to three things: an overflow-locked flag, a set of nodes carrying inline styles, and the overlay's integer width and height. The style objects and pixel strings are left out.
- Lookups are parameters, not modelled. These are the selector lookups `activateFullscreen`, `isVideoReady` and `attemptReactivation` make, including the fallback selector and `overlay.querySelector`. The model does not capture their side effect on the element cache.
- The clock is an integer, and the media element's `currentTime` and `duration` are reals compared only with 0. NaN and other floating-point behaviour are not modelled.
- The `try`/`catch` paths and `console.warn` are not modelled. A DOM operation that throws, such as moving a node into its own descendant, has no counterpart.
- `PageTree.InsertBefore`: the case of a node inserted before itself is not modelled as the DOM defines it. The model appends the node instead. The engine never does this, because the recorded sibling is never the player.
- Changes the host page makes to its own document between activation and deactivation are not modelled. The round-trip lemmas assume none happen, and `PageTree.Restore` covers the detached-sibling case.
- The site check on the page address (content.js:4) and `state.observers`, `state.isInitialized` and `state.frameId` are left out. They belong to the lifecycle plumbing.
- `event.preventDefault()` in `handleKeydown` (content.js:366) is left out. What the browser would otherwise do with the key is outside the model.
- Sessions.Chain: events between the retries are not modelled. The chain runs alone, as if no frame, key press or navigation happened between attempts.
- Sessions.Attempt: both readiness checks of one attempt read the same clock value. In the script the second is a moment later, so a memo that expires in between can give it a fresh verdict.
