# rxjs-tap: the tap gesture over a trace of touch events

This project models the tap detector of rxjs-tap in Dafny. It covers two files.

- `lib/tap.js` builds three observables from the document's touch events:
  - `ping` emits the target of every touchstart.
  - `cancel` emits, for each touchstart, the target of every single-finger move that leaves the start target's boundary.
  - `ped` emits, for each touchstart, the target of its last single-finger move, or of the start itself when there was no move. It only does so when that touch is inside the boundary.
- `lib/tap-lib.js` exports the same predicates (`isTapIntention`, `isSingleFinger`, `getTarget`) and the four raw touch streams.

The model works on a finite trace `t: seq<Event>`. An event has a kind (touchstart, touchmove, touchend or touchcancel), a target element and an optional list of contact points. Time is the index into the trace.

- A stream subscribed while event `i` is dispatched sees only the events after `i`. The DOM does not call listeners that were added during the dispatch in progress.
- So each touchstart `i` has its own window: the single-finger moves after `i`, up to the first touchend or touchcancel after `i` (`Taps.CloseAt`).
- `cancel` and `ped` are merges (`flatMap`) of one inner stream per touchstart. Module `Delivery` fixes their order: first by instant, then by subscription order. An emission is a `Slot(at, start)` together with the target it carries.
- `getBoundingClientRect` is a parameter `bound: Element -> Rect`. It is read once per start, from the start's target.
- Stated assumption: a start's `ped` is delivered when its window closes. At that instant `tapmoves` completes (so `lastOrDefault` emits), and the outer `takeUntil(touchends)` and `takeUntil(touchcancels)` also fire. The model assumes the inner completion is delivered first.
- The inner `takeUntil(tapcancels)` subscribes during the start's own dispatch. It therefore reacts only to starts opened later inside the same window (`Taps.LaterStartCancels`).

Some facts about the code that a reader of the header comment at `lib/tap.js:5-10` may not expect. The model follows the code.

- Cancel and ped are not exclusive. Under the close-instant assumption above, a finger that leaves the boundary and comes back gets a `cancel` for the outside move and a `ped` at the touchend (`TapsProperties.ExitAndReturn`, worked through on a concrete run in `TapsProperties.OutAndBackCancels` and `TapsProperties.OutAndBackPeds`).
- `cancel` is not capped at one per attempt: each outside move produces one (`TapsProperties.EveryOutsideMoveCancels`).
- The header asks that a touchcancel cancel the touch. In the code a touchcancel right after a touchstart produces no `cancel`; it closes the window like a touchend. Under the close-instant assumption an inside start then gets a `ped` (`TapsProperties.PureTap`).
- Touchstarts are not independent. A later start opened inside an earlier start's window shares its close. An outside move seen by the later start silences the earlier start's `ped` (`TapsProperties.WindowsNest`, `TapsProperties.LaterCancelSilencesPed`). A later start that sees no outside move, such as a second finger landing, leaves that `ped` in place (`TapsProperties.PedEventIff`, `TapsProperties.SecondFingerKeepsPed`).
- The move's target is never compared with the start's target (`TapsProperties.TargetNotCompared`).
- The header mentions a 10-second touchend timeout, but no timer exists in the code. Neither file has an inset margin.

## Model

| member | source | states |
|---|---|---|
| TouchEvents.KindStream | lib/tap-lib.js:94-97 | a listener for one event name receives only events of that kind, and every such event of the trace |
| TouchEvents.KindStreamAppend | lib/tap.js:97-100 | listening to a longer trace only appends: the stream of `t + u` is the stream of `t` followed by that of `u` |
| TouchEvents.KindStreamsPartition | lib/tap-lib.js:94-97 | the four event names split the trace: the four streams' lengths add up to the trace length |
| TapLib.IsTapIntention | lib/tap-lib.js:64-69 | a point on any edge is outside; a point is inside only if the boundary has positive width and height |
| TapLib.EitherAxisRejects | lib/tap-lib.js:65-68 | inside holds exactly when the x test and the y test both hold; failing either axis alone rejects |
| TapLib.DegenerateBoundRejectsAll | lib/tap-lib.js:64-69 | if left >= right or top >= bottom, no point is inside |
| TapLib.IsSingleFinger | lib/tap-lib.js:78-80 | an accepted event has a touch list made of exactly one contact, its first touch |
| TapLib.NotOneContactRejected | lib/tap-lib.js:78-80 | a missing touch list, zero contacts, or two or more contacts are rejected |
| TapLib.OneContactAccepted | lib/tap-lib.js:78-80 | any event whose touch list holds exactly one contact is accepted |
| TapLib.GetTarget | lib/tap-lib.js:90-92 | returns the event's target unchanged |
| TapLib.Exports | lib/tap-lib.js:99-109 | the exported predicates agree point for point with the file's own, and the exported `touch` streams are the trace's touchstarts, touchmoves, touchends and touchcancels, each holding only its kind |
| TapLib.ExportedStreamsPartition | lib/tap-lib.js:99-105 | the four exported streams' lengths add up to the trace length |
| Taps.IsTapIntention | lib/tap.js:66-71 | a point on any edge is outside; a point is inside only if the boundary has positive width and height |
| Taps.IsSingleFinger | lib/tap.js:81-83 | an accepted event has a touch list made of exactly one contact, its first touch |
| Taps.GetTarget | lib/tap.js:93-95 | returns the event's target unchanged |
| TapsProperties.HelpersAgree | lib/tap-lib.js:106-108 | the exported `isTapIntention`, `isSingleFinger` and `getTarget` agree on every input with those of lib/tap.js |
| Taps.IsTapMove | lib/tap.js:102-105 | a move kept by `filter(isSingleFinger)` is a touchmove whose touch list is exactly one contact |
| Taps.CloseAt | lib/tap.js:102-104 | a start's window closes at the first touchend or touchcancel after it, of any target, or at the end of the trace |
| Taps.TapMovesIn | lib/tap.js:102-105 | collects exactly the single-finger moves of an index range, in increasing trace order |
| Taps.TapMoves | lib/tap.js:102-105 | `tapmoves` seen by a start holds exactly its window's single-finger moves, in trace order |
| TapsProperties.WindowsNest | lib/tap.js:102-104 | a start opened inside another's window closes with it and sees a subset of its moves |
| Taps.OutsideOf | lib/tap.js:111-114 | keeps exactly the listed moves whose first touch fails the boundary test, in the same order |
| Taps.CancelMoves | lib/tap.js:107-115 | a start's cancel stream holds exactly the window's single-finger moves whose first touch is outside the boundary of the start's target, in order |
| Taps.PedCandidate | lib/tap.js:121-122 | `lastOrDefault` yields the start itself or a single-finger move |
| TapsProperties.CandidateIsLastMove | lib/tap.js:121-122 | the candidate is the start when the window has no single-finger move, else the latest one in the window |
| Taps.LaterStartCancels | lib/tap.js:128 | `takeUntil(tapcancels)` seen from a start: some later start inside its window has a nonempty cancel stream; characterised over the trace by LaterStartCancelsIff |
| Taps.PedEvent | lib/tap.js:117-129 | a ped needs a closed window, and is the candidate whose first touch is inside the start's boundary; PedEventIff states the converse |
| Taps.MoveTargets | lib/tap.js:134 | `cancel` maps each delivered slot to the target of the move at its instant |
| Taps.CandidateTargets | lib/tap.js:133 | `ped` maps each delivered slot to the target of its start's candidate |
| Delivery.SlotsAt | lib/tap.js:107-108 | at one instant, the firing inner streams emit in subscription order, each once |
| Delivery.Schedule | lib/tap.js:107-108 | a merge delivers every firing slot, only firing slots, in time then subscription order |
| Taps.Cancels | lib/tap.js:107-115 | `cancel` merges every start's outside moves, mapped to the move's target; its contract is carried by CancelsSound, CancelsComplete and CancelsInDeliveryOrder |
| Taps.CancelsSound | lib/tap.js:107-115 | every cancel comes from an outside move of some start's window and carries that move's target |
| Taps.CancelsComplete | lib/tap.js:111-114 | every outside move of every start's window is delivered as a cancel |
| Taps.CancelsInDeliveryOrder | lib/tap.js:107-108 | cancels come in time order, then start order, so no (start, move) pair repeats |
| Taps.CancelOrderIsIndexOrder | lib/tap.js:107-108 | a cancel delivered earlier sits earlier in the output |
| TapsProperties.OutsideMoveCancels | lib/tap.js:111-114 | a single-finger move of a start's window outside its boundary produces a cancel for that start at that move |
| TapsProperties.EveryOutsideMoveCancels | lib/tap.js:107-115 | two outside moves in one window produce two cancels for that start, in move order |
| TapsProperties.TargetNotCompared | lib/tap.js:107-115 | changing a move's target changes no cancel move set and no cancel or ped slot |
| TapsProperties.OtherFingersIgnored | lib/tap.js:102-105 | replacing a move that is not single-finger by another such move changes neither `cancel` nor `ped` |
| Taps.Peds | lib/tap.js:117-129 | `ped` merges every start's ped, mapped to the candidate's target; its contract is carried by PedsSound, PedsComplete and PedsInDeliveryOrder |
| Taps.PedsSound | lib/tap.js:117-129 | every ped is delivered at its start's close, comes from an inside candidate, and carries the candidate's target |
| Taps.PedsComplete | lib/tap.js:117-129 | every start whose inner stream yields a ped is delivered |
| Taps.PedsInDeliveryOrder | lib/tap.js:117-118 | peds come in time order, then start order |
| TapsProperties.PedOncePerStart | lib/tap.js:117-129 | each ped is delivered at its start's close, and no start gets two |
| TapsProperties.LaterCancelSilencesPed | lib/tap.js:128 | a later start inside the window that cancels removes this start's ped |
| TapsProperties.PureTap | lib/tap.js:121-127 | a start followed at once by touchend or touchcancel gives no cancel; when its touch is inside it yields exactly its own ped at that instant, and when its touch is outside it yields none |
| TapsProperties.LaterStartCancelsIff | lib/tap.js:128 | `takeUntil(tapcancels)` fires in a window exactly when a later start of that window sees a single-finger move outside its own boundary |
| TapsProperties.PedEventIff | lib/tap.js:117-129 | a start yields a ped exactly when its window closes, its candidate is inside its boundary, and no later start of the window sees an outside move; the ped is the candidate |
| TapsProperties.InsideCandidatePeds | lib/tap.js:121-128 | when the window closes with an inside candidate and no later start of the window sees an outside move, a ped carrying the candidate's target is delivered at the close |
| TapsProperties.ExitAndReturn | lib/tap.js:107-128 | when no later start of the window sees an outside move, an outside move followed by an inside final move gives both a cancel and a ped for the same start |
| TapsProperties.SecondFingerKeepsPed | lib/tap.js:117-129 | on the run start(50,50), two-contact start, two-contact move, end, the first start still yields its own ped |
| TapsProperties.OutAndBackCancels | lib/tap.js:107-115 | on the run start(50,50), move(150,50), move(50,50), end, the button gets a cancel at the outside move |
| TapsProperties.OutAndBackPeds | lib/tap.js:117-129 | on the same run the button also gets a ped at the touchend |
| Taps.Pings | lib/tap.js:132 | `ping` is the targets of the touchstarts in trace order; its contract is carried by PingsAppend and PingOfOneEvent |
| Taps.Targets | lib/tap.js:132 | maps each event to its target, position by position |
| TapsProperties.PingsAppend | lib/tap.js:132 | `ping` is append-only: the pings of `t + u` are those of `t` followed by those of `u` |
| TapsProperties.PingOfOneEvent | lib/tap.js:132 | one event gives one ping, its target, if it is a touchstart, and none otherwise |

## Left out

- `fromHtmlEvent`, listener registration on `document.body` and unsubscription are I/O. The model replaces them with the trace and `TouchEvents.KindStream`.
- The UMD/AMD registration wrapper is packaging only.
- `getBoundingClientRect` is a platform call. It is the parameter `bound`, a fixed function of the element over the whole trace, so a layout change during a gesture is not modelled.
- Which of the two same-instant deliveries wins when a window closes depends on the Rx library, which is not part of this model. The model takes the stated assumption above.
- Subscribers are assumed to be attached before the trace begins.
- JavaScript numbers are modelled as `real`. Only ordering comparisons are used, so NaN and rounding are not modelled.
- Taps.PedEvent: a touchstart without a touch list, or with an empty one, whose window has no single-finger move yields no ped for that start, and the model goes on. In the source the boundary test reads `touches[0]` inside `filter` (`lib/tap.js:123-124`) and throws a TypeError. `flatMap` passes that error on, so the whole `ped` output ends with an error and no later start gets a ped.
- The 10-second timeout appears only in the header comment, not in the code, so it is not modelled.
- The exported `touch` streams are modelled as the finite sequences they would deliver over the trace, not as observables.
