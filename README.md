# Port scheduler: a verified model of the scheduling engine

This project models the scheduling engine of the port scheduler process in
`scheduler.c`. Each tick the process does the following, in order:

1. It receives the tick's new ship requests and queues them: emergency ships
   on one queue, every other ship on a second one.
2. It offers docks to the emergency queue and then to the regular queue, by
   best fit. A regular ship of direction 1 whose waiting time has run out is
   evicted at the moment a dock would fit it.
3. It matches each docked ship's cargo to the cranes of its dock, choosing
   the item with the least wasted crane capacity. It also detects ships whose
   cargo is all handled.
4. For each ready dock, it searches for the dock's authentication string by
   enumerating candidates over the alphabet `5 6 7 8 9 .`. Each candidate goes
   round-robin to a pool of solvers. The first confirmed candidate releases
   the dock.
5. It acknowledges the tick.

The model has two layers.

* **Specification functions on values.** `Pipeline.Tick` is the whole tick
  as a function of the state before it. It is built from:
  * `Pipeline.Admit` for queueing;
  * `Allocation.Allocate` and `Allocation.Place` for dock allocation;
  * `Cargo.LoadAll`, `Cargo.LoadDock` and `Cargo.HandleCranes` for cargo;
  * `Undocking.UndockAll` and `Undocking.Undock` for undocking, with
    `AuthSearch.Search` over `AuthSearch.Candidates` for the search.

  Lemmas prove what the scheduler promises about these functions, such as
  best fit, least waste, items taken once, round-robin dispatch, candidate
  order and the dock life cycle.
* **The imperative process.** `ShipQueue.Queue` is the array-backed ship
  queue, with front and rear cursors. `Scheduler.Scheduler` is the process
  itself. It holds the per-dock arrays (`dockStatus`, `dockRecent`,
  `shipsInDocks`, `lastHandledCargoTs`, `readyToUndock` and the published
  authentication strings), the two queues and the tick counter. Each
  procedure of `scheduler.c` is a method with the source's loops. Each is
  proved against the specification function of its phase, ending with
  `Scheduler.HandleTick`, whose new state is exactly `Pipeline.Tick` of the
  old one.

The messages the scheduler sends go to a ghost log of `Ships.Event` values:

| Event | Message |
|---|---|
| `DockAssigned` | dock assigned |
| `CargoHandled` | cargo handled |
| `Undocked` | undock |
| `TickAdvanced` | timestep update |
| `DockNotify` | solver notification |
| `GuessRequest` | guess |

A solver's answer to a guess is the parameter `correct(dock, guess)`.

## Model

| member | source | states |
|---|---|---|
| ShipQueue.Queue.constructor | scheduler.c:110-113 | a new queue has both cursors at -1 and holds nothing |
| ShipQueue.Queue.Count | scheduler.c:148-151 | the count is the number of queued requests, at most the buffer size |
| ShipQueue.Queue.Enqueue | scheduler.c:115-127 | a queue whose rear cursor is at the last slot is unchanged; otherwise the request is appended at the rear and an empty queue's front cursor becomes 0 |
| ShipQueue.Queue.Dequeue | scheduler.c:129-146 | an empty queue yields the zero record and is unchanged; otherwise the front request is removed and returned |
| ShipQueue.Queue.Delete | scheduler.c:153-175 | an index outside the front..rear window yields the zero record and changes nothing; otherwise the request at that position is returned and removed, keeping the order of the others, and a queue left empty has both cursors reset to -1 |
| ShipQueue.Queue.ShiftDown | scheduler.c:164-166 | the shifting loop drops the request at the index from the window and keeps the others in order |
| ShipQueue.ShiftedWindow | scheduler.c:164-166 | moving every element after the index one slot forward removes exactly that element from the window |
| Docks.Initial | scheduler.c:263-273 | at start-up every dock is free, not recent, not ready, has no cargo timestamp, and has an empty authentication string |
| AuthSearch.Rank | scheduler.c:462-463 | a character is one of the six symbols exactly when its rank is below 6, and the rank indexes the alphabet |
| AuthSearch.Sendable | scheduler.c:486 | definition: a guess is sent unless it begins or ends with '.' |
| AuthSearch.Completions | scheduler.c:526-528 | definition: the strings the generator reaches from its buffer with k positions left, in its order; its properties are CompletionsShape, CompletionsComplete and CompletionsSorted |
| AuthSearch.Spread | scheduler.c:526-528 | definition: the completions of the first i symbols at the next position, in turn; its properties are SpreadShape and SpreadSorted |
| AuthSearch.Words | scheduler.c:526-533 | definition: the strings of the secret length the generator reaches, in order |
| AuthSearch.Filter | scheduler.c:486 | dropping unsendable strings never lengthens the list; FilterMembers and FilterSorted state what is kept and in which order |
| AuthSearch.Candidates | scheduler.c:480-531 | definition: the sendable strings of the secret length, in generator order; CandidatesMembers and CandidatesOrdered state what they are |
| AuthSearch.Generate | scheduler.c:480-531 | the dispatch counter advances by exactly one per guess sent |
| AuthSearch.GenerateUpTo | scheduler.c:526-530 | the same for the first i turns of the symbol loop |
| AuthSearch.GenerateEndsWithWinner | scheduler.c:489-523 | a generator that confirms a guess stops right after sending it: the winner was confirmed and is the last guess sent, to solver (final counter − 1) mod m |
| AuthSearch.GenerateUpToEndsWithWinner | scheduler.c:526-530 | the same for the first i turns of the symbol loop |
| AuthSearch.Search | scheduler.c:482-523 | the dispatch counter advances by one per guess sent; a search that confirms nothing sends every candidate; a confirmed search ends with the confirmed candidate as its last guess |
| AuthSearch.Broadcast | scheduler.c:470-475 | one notification of the dock goes to each solver, in solver order |
| AuthSearch.SearchDispatch | scheduler.c:489-493 | the k-th guess sent goes to solver (counter + k) mod m and carries the k-th candidate |
| AuthSearch.SearchStopsAtFirstConfirmed | scheduler.c:503-529 | no guess before the last one sent was confirmed; a winner is confirmed; with no winner, no candidate is confirmed |
| AuthSearch.SearchAppend | scheduler.c:526-530 | searching two lists one after the other is searching the first, then the second only if the first found nothing |
| AuthSearch.GenerateUpToNext | scheduler.c:526-530 | one more turn of the symbol loop after unconfirmed turns appends the completions of that symbol |
| AuthSearch.GenerateUpToStops | scheduler.c:529 | once a turn of the symbol loop has confirmed a guess, later turns add nothing |
| AuthSearch.GenerateIsSearch | scheduler.c:480-531 | the recursive generator sends exactly what the search over the sendable completions of its buffer sends, in the same order, with the same winner |
| AuthSearch.GenerateUpToIsSearch | scheduler.c:526-530 | the first i turns of the symbol loop are the search over the sendable strings of their completions |
| AuthSearch.FilterAppend | scheduler.c:486 | the guesses kept from two lists together are those kept from each list, in order |
| AuthSearch.FilterMembers | scheduler.c:486 | a string is kept exactly when it is in the list and neither begins nor ends with '.' |
| AuthSearch.CompletionsShape | scheduler.c:526-528 | filling k positions yields 6^k strings, each the buffer followed by k symbols of the alphabet |
| AuthSearch.SpreadShape | scheduler.c:526-528 | the first i symbols at a position yield i·6^k strings, each with one of those symbols there |
| AuthSearch.CompletionsComplete | scheduler.c:526-528 | every string over the alphabet is reached from any prefix |
| AuthSearch.CompletionsSorted | scheduler.c:526-528 | the generator reaches strings in strictly increasing alphabet order |
| AuthSearch.SpreadSorted | scheduler.c:526-528 | the strings of the first i symbols' turns come in strictly increasing order |
| AuthSearch.FilterSorted | scheduler.c:486 | dropping unsendable strings keeps the order |
| AuthSearch.LexLessIrreflexive | scheduler.c:526-528 | no string comes before itself in the generator's order |
| AuthSearch.CandidatesMembers | scheduler.c:480-531 | the candidates for length len are exactly the strings of length len over the alphabet that neither begin nor end with '.' |
| AuthSearch.CandidatesOrdered | scheduler.c:480-531 | the candidates come in strictly increasing order, so none is sent twice |
| Allocation.Fits | scheduler.c:334 | definition: the dock is free, its category is at least the ship's and below the 1e9 sentinel |
| Allocation.TimedOut | scheduler.c:341 | definition: the queue is the regular one, the direction is 1 and the tick is past arrival plus waiting time |
| Allocation.Docked | scheduler.c:319-350 | docking a ship leaves cargo timestamps, ready flags and authentication strings alone |
| Allocation.Place | scheduler.c:340-353 | placing one ship keeps it queued or removes it, and leaves cargo timestamps, ready flags and authentication strings alone |
| Allocation.BestFit | scheduler.c:330-338 | the scan yields -1 or one of the docks scanned |
| Allocation.BestFitIsBest | scheduler.c:330-338 | the scan finds no dock exactly when no free dock of sufficient category below 1e9 exists; otherwise it finds such a dock of least category, the lowest-numbered one on ties |
| Allocation.BestFitUnique | scheduler.c:330-338 | at most one dock is the best fit |
| Allocation.PlaceOutcome | scheduler.c:340-353 | a ship that no dock fits stays queued (no timeout applies); at the best fit, a timed-out regular ship of direction 1 is dropped and changes nothing else; any other ship is docked there, marked recent, stamped with the tick and announced |
| Allocation.Allocate | scheduler.c:327-354 | a pass over a queue leaves cargo timestamps, ready flags and authentication strings alone |
| Allocation.AllocateKeepsOccupied | scheduler.c:334 | a pass never touches an occupied dock |
| Allocation.AllocateAssignsFreeDocksOnce | scheduler.c:340-352 | every dock-assigned message of a pass names a dock that was free at the start and is occupied at the end, and no dock is assigned twice |
| Allocation.AllocateFillsFree | scheduler.c:347-350 | a free dock either stays free with its record intact or ends occupied, marked recent, by a ship stamped with the current tick |
| Cargo.Eligible | scheduler.c:385-390 | definition: the item is unhandled, no heavier than the crane's capacity, and wastes less than the 1e9 sentinel |
| Cargo.CargoLeft | scheduler.c:426-432 | definition: some item of the ship's cargo list is unhandled |
| Cargo.LeastWaste | scheduler.c:379-394 | the scan yields -1 or one of the items scanned |
| Cargo.LeastWasteIsLeast | scheduler.c:379-394 | the scan finds nothing exactly when no unhandled item fits the crane; otherwise it finds a fitting item of least waste, the lowest index on ties |
| Cargo.HandleCranes | scheduler.c:376-419 | the cargo list keeps its length, and something was handled exactly when a message was sent |
| Cargo.CraneTurn | scheduler.c:377-418 | the cargo list keeps its length; after the turn, something has been handled in the pass exactly when it had been before or this crane's scan found an item |
| Cargo.CraneTurnOutcome | scheduler.c:377-418 | a crane with no unhandled item that fits leaves the pass unchanged; otherwise it takes an eligible item of least waste, the first on ties, zeroes it and appends one message naming this crane and that item |
| Cargo.CranesTakeOneEach | scheduler.c:376-418 | at most one message per crane, each naming this dock, ship and direction, an existing crane and item, with crane numbers strictly increasing |
| Cargo.ItemsTakenOnce | scheduler.c:385-406 | every item handled was unhandled before and is zero after, no item is handled twice, and every other item keeps its weight |
| Cargo.CraneTurnTakes | scheduler.c:396-406 | a further crane turn preserves the items-taken-once property |
| Cargo.TakeItem | scheduler.c:405-406 | zeroing an unhandled item and reporting it preserves the items-taken-once property |
| Cargo.LoadDock | scheduler.c:425-440 | only the dock's ship, cargo timestamp and ready flag change; the dock becomes ready exactly when it is occupied, not recent, has no cargo left, and a tick has passed since its last handled item; a free or recent dock is untouched; the timestamp only moves to the current tick, with messages |
| Cargo.LoadAll | scheduler.c:422-444 | the loading pass never changes occupancy, recent marks or authentication strings |
| Cargo.LoadAllPointwise | scheduler.c:422-444 | after the pass each dock is as if it had been handled alone, and docks not yet visited are unchanged |
| Cargo.LoadDockLocal | scheduler.c:425-440 | what the pass does to a dock depends only on that dock |
| Undocking.SecretLength | scheduler.c:450-453 | definition: the last cargo tick minus the docking tick |
| Undocking.ValidLength | scheduler.c:455-458 | definition: a length from 1 to 99 is searched, any other aborts the attempt |
| Undocking.Released | scheduler.c:505-519 | a release keeps one entry per dock (it frees the dock, clears its ready flag, ship and cargo timestamp, and publishes the secret) |
| Undocking.AfterSearch | scheduler.c:503-522 | the registry after a search keeps one entry per dock: released with the winner, unchanged without one |
| Undocking.UndockReady | scheduler.c:545-549 | one step of the end-of-tick loop keeps one entry per dock; UndockReadyAt states its effect |
| Undocking.UndockAll | scheduler.c:544-550 | the end-of-tick loop keeps one entry per dock; UndockAllAt states its effect on each dock |
| Undocking.GeneratorTurn | scheduler.c:526-530 | a turn of the symbol loop after unconfirmed turns extends what the loop has sent and released |
| Undocking.GeneratorDone | scheduler.c:526-531 | the symbol loop stopped by a confirmed guess or by the last symbol has done what the generator does at that position |
| Undocking.Undock | scheduler.c:447-538 | an attempt either leaves the docks alone or releases this dock; an invalid secret length changes nothing and sends nothing |
| Undocking.UndockOutcome | scheduler.c:447-538 | with a valid length, every solver is notified; if no candidate is confirmed, all candidates are sent round-robin and nothing changes; otherwise they are sent up to the first confirmed one, which releases the dock and is announced |
| Undocking.ReleasedSecretIsCandidate | scheduler.c:482-519 | a released dock holds a confirmed string of the secret length over the alphabet that neither begins nor ends with '.', and is free, not ready, cleared, with no cargo timestamp |
| Undocking.UndockAllAt | scheduler.c:544-550 | after the end-of-tick pass a ready dock is neither ready nor recent and either keeps its ship or has been released; every other dock is untouched |
| Undocking.UndockReadyAt | scheduler.c:545-549 | servicing one dock leaves every other dock untouched |
| Pipeline.Enq | scheduler.c:115-127 | queueing never grows a queue beyond its capacity |
| Pipeline.Admit | scheduler.c:287-297 | admitting requests never grows a queue beyond its capacity |
| Pipeline.AdmitSnoc | scheduler.c:287-297 | the next request joins the emergency queue when its emergency field is 1 and the regular queue otherwise |
| Pipeline.AdmitUnderCapacity | scheduler.c:287-297 | while neither queue can fill up, the emergency requests join the emergency queue and the others the regular queue, each in arrival order |
| Pipeline.ClearRecent | scheduler.c:299 | after the reset no dock is marked recent |
| Pipeline.Passes | scheduler.c:287-359 | the two allocation passes of a tick over the queues after the requests arrive and with every recent mark cleared: emergency queue first, then the regular queue over the docks it leaves; the docks after them keep one entry per dock |
| Pipeline.Tick | scheduler.c:281-561 | the tick keeps one entry per dock; it queues the requests, clears the recent marks, allocates the emergency and then the regular queue, loads, undocks and acknowledges; TickDock, TickSettles, NewArrivalWaits and IdleTick state its properties |
| Pipeline.TickDock | scheduler.c:287-550 | the registries after the two allocation passes (`Passes`) and after loading (`LoadAll` of that), traced for one dock: an occupied dock keeps its ship through allocation; a free dock is either filled by a ship stamped with this tick or keeps its record; loading then acts on each dock alone; the tick's docks are those the undocking pass leaves |
| Pipeline.TickSettles | scheduler.c:287-561 | a tick that starts with no ready dock and every free dock cleared ends the same way |
| Pipeline.NewArrivalWaits | scheduler.c:340-550 | a dock free at the start of a tick that allocation fills is still occupied at the end of the tick, by the ship allocation placed there, stamped with this tick, with no cargo handled and not ready |
| Pipeline.LoadAllIdle | scheduler.c:422-444 | with every dock free, the loading pass does nothing |
| Pipeline.UndockAllIdle | scheduler.c:544-550 | with no dock ready, the undocking pass does nothing |
| Pipeline.IdleTick | scheduler.c:287-561 | a tick with no requests, empty queues and free docks only clears the recent marks and acknowledges the tick |
| Scheduler.Scheduler.constructor | scheduler.c:256-273 | the process starts valid, with the initial docks, empty queues and no messages |
| Scheduler.Scheduler.SelectDock | scheduler.c:330-338 | the dock scan selects the best fit |
| Scheduler.Scheduler.Docking | scheduler.c:302-323 | the dock records the ship stamped with the current tick, and one dock-assigned message is sent |
| Scheduler.Scheduler.PlaceShip | scheduler.c:340-353 | handling one queued ship does what placing it does, and says whether it leaves the queue |
| Scheduler.Scheduler.ShipAt | scheduler.c:328 | the ship at the scan index is the next unvisited ship |
| Scheduler.Scheduler.DropShip | scheduler.c:343-348 | deleting at the scan index removes exactly the ship being visited |
| Scheduler.Scheduler.ProcessQueuedShip | scheduler.c:328-353 | one iteration of the queue scan advances the allocation pass by one ship |
| Scheduler.Scheduler.ProcessShipQueue | scheduler.c:326-355 | the scan with in-place deletion leaves the queue, the docks and the messages as the allocation pass over the queue does |
| Scheduler.Scheduler.HasCargoLeft | scheduler.c:426-432 | the early-exit scan finds cargo exactly when an item is unhandled |
| Scheduler.Scheduler.ChooseCargo | scheduler.c:379-394 | the inner scan chooses the least-waste item |
| Scheduler.Scheduler.CraneAt | scheduler.c:377-418 | one crane's iteration does what the crane turn does to the ship, the timestamp and the messages |
| Scheduler.Scheduler.CargoHandling | scheduler.c:362-420 | the crane loop does what the crane pass does: the docked ship's cargo, the dock's timestamp and the messages change accordingly, and nothing else |
| Scheduler.Scheduler.LoadDockAt | scheduler.c:425-441 | one dock's step of the loading loop does what the loading pass does to that dock |
| Scheduler.Scheduler.LoadNextDock | scheduler.c:424-443 | the loop over docks advances the loading pass by one dock |
| Scheduler.Scheduler.ProcessDocksForLoading | scheduler.c:422-444 | the loading loop leaves the docks and messages as the loading pass does |
| Scheduler.Scheduler.Undocking | scheduler.c:447-538 | the procedure leaves the docks and messages as one undocking attempt does |
| Scheduler.Scheduler.SearchSecret | scheduler.c:460-537 | with a valid length, the notification and the generator send what the search over the candidates sends, and release the dock with the winner |
| Scheduler.Scheduler.NotifySolvers | scheduler.c:470-475 | every solver is notified of the dock |
| Scheduler.Scheduler.TryGuess | scheduler.c:482-523 | a complete guess is sent to solver count mod m unless it begins or ends with '.', and a confirmed one releases the dock |
| Scheduler.Scheduler.ReleaseDock | scheduler.c:505-521 | the dock is released with the confirmed secret, and the undock message is sent |
| Scheduler.Scheduler.GenerateAndTry | scheduler.c:480-531 | the recursive generator does what the generator function does from its buffer, leaving the buffer prefix intact |
| Scheduler.Scheduler.TrySymbol | scheduler.c:526-530 | one turn of the symbol loop extends the loop's outcome by that symbol's completions |
| Scheduler.Scheduler.AdmitRequests | scheduler.c:287-297 | the arrival loop leaves the two queues as admitting the requests does |
| Scheduler.Scheduler.EnqueueShip | scheduler.c:289-293 | a request joins one queue and the other queue is unchanged |
| Scheduler.Scheduler.ClearRecentFlags | scheduler.c:299 | the recent marks are cleared and nothing else changes |
| Scheduler.Scheduler.UndockReadyAt | scheduler.c:545-549 | one dock's step of the undocking loop does what the pass does to that dock |
| Scheduler.Scheduler.UndockReadyDocks | scheduler.c:544-550 | the undocking loop leaves the docks and messages as the undocking pass does |
| Scheduler.Scheduler.DockingPhase | scheduler.c:299-359 | after the reset, the emergency queue and then the regular queue are allocated, regular ships subject to timeout |
| Scheduler.Scheduler.AdmitAndDock | scheduler.c:281-359 | the tick is recorded, the requests are queued, and both queues are allocated |
| Scheduler.Scheduler.ServiceDocks | scheduler.c:541-550 | cargo handling and then undocking leave the docks as the two passes do |
| Scheduler.Scheduler.HandleTick | scheduler.c:281-561 | the new state of the process is the tick function applied to the old one |

## Left out

- Reading the configuration file, and connecting to the message queues and
  shared memory (lines 41-54 and 179-247), are left out. The configuration
  is the constructor's parameters.
- The outer receive loop and its `isFinished` test (lines 275-285) are left
  out. `Scheduler.Scheduler.HandleTick` is one iteration of it, and its tick
  number and requests are parameters.
- Every `printf` and `perror` is left out.
- Sending a message is modelled as always succeeding. The failure branches
  are not modelled: the `exit(1)` calls, the skipped release when the undock
  message cannot be sent, and the early returns in the guess step.
- A solver's reply is the parameter `correct`. Receiving it is assumed to
  succeed.
- The shared-memory request buffer is not modelled. The requests arrive as a
  sequence.
- Integers are unbounded. The model does not capture overflow of
  `timestep + waitingTime` or of the tick counter.
- `guess_count` is an unsigned 64-bit counter, modelled as a `nat`. It cannot
  wrap in any realistic run.
- Array bounds of the C program are not modelled: the 30 docks, the 200
  cargo items and the 1000-slot queue buffer. `Pipeline.Config.Valid`
  requires at most 30 docks, a dock category (and so a crane count) from 0
  to 25, and from 1 to 8 solvers. The queue's capacity is modelled.
- The `used_cargo` array of `cargoHandling` is left out. It is redundant: an
  item is marked used exactly when it is zeroed, and zero items are already
  skipped. `Cargo.ItemsTakenOnce` proves that no item is taken twice.
- `just_unloaded` is never read, so it is left out.
- The published authentication string is modelled as the confirmed guess
  itself, not as the 100-byte buffer that `strncpy` fills.
- `Scheduler.Scheduler.ProcessShipQueue` requires that the queue's front
  cursor is -1 or 0. The source indexes the buffer from 0 while counting
  queued ships, which is only correct because nothing ever dequeues:
  `dequeue` is defined but never called. `ShipQueue.Queue.Dequeue` is modelled
  on its own.
- The early return on `found` at the start of the generator (line 481) is
  left out. It can never fire: every caller returns as soon as `found` is
  set.
- Undocking requires at least one solver (`m >= 1`), as the configuration
  does. With no solver, the source would compute `guess_count % 0`.
- `Undocking.Undock` follows the code on an invalid secret length: the dock's
  ready flag is cleared after the attempt (line 547). The length is
  recomputed, and the dock re-detected as ready, on the next tick.
