// The scheduler process: its per-dock arrays, its two ship queues and the
// tick counter, and the procedures that update them in place, each proved
// against the specification functions of the other modules.

module Scheduler {
  import opened Ships
  import opened ShipQueue
  import opened Docks
  import opened AuthSearch
  import opened Allocation
  import opened Cargo
  import opened Undocking
  import opened Pipeline

  class Scheduler {
    /** Number of docks and of solvers, each dock's category and crane capacities. */
    const n: nat
    const m: nat
    const docksCat: seq<int>
    const cranes: seq<seq<int>>

    /** The per-dock state. */
    const dockStatus: array<bool>
    const dockRecent: array<bool>
    const shipsInDocks: array<Ship>
    const lastHandledCargoTs: array<int>
    const readyToUndock: array<bool>
    /** The authentication strings the scheduler publishes in shared memory. */
    const authStrings: array<seq<char>>

    const emergencyQueue: Queue
    const regularQueue: Queue

    /** The current tick, as received from the coordinator. */
    var timeStep: int
    /** Every message sent so far, to the coordinator and to the solvers. */
    ghost var log: seq<Event>

    /** The configuration is valid and every per-dock array has one entry per
        dock; the arrays are immutable references, so this never changes. */
    ghost predicate Shaped()
    {
      Config(docksCat, cranes, m).Valid() && n == |docksCat| &&
      dockStatus.Length == n && dockRecent.Length == n && shipsInDocks.Length == n &&
      lastHandledCargoTs.Length == n && readyToUndock.Length == n && authStrings.Length == n &&
      dockStatus != dockRecent && dockStatus != readyToUndock && dockRecent != readyToUndock
    }

    /** `q` is a well-formed queue whose front is slot 0 (requests are only
        ever deleted, never dequeued) and whose buffer is not the dock array. */
    ghost predicate Serves(q: Queue)
      reads q, q.requests
    {
      q.Valid() && q.fr <= 0 && q.requests != shipsInDocks
    }

    ghost predicate Valid()
      reads emergencyQueue, emergencyQueue.requests, regularQueue, regularQueue.requests
    {
      Shaped() && Serves(emergencyQueue) && Serves(regularQueue) &&
      emergencyQueue != regularQueue && emergencyQueue.requests != regularQueue.requests
    }

    ghost function Cfg(): Config
    {
      Config(docksCat, cranes, m)
    }

    /** The per-dock arrays as a registry value. */
    ghost function Reg(): Registry
      reads dockStatus, dockRecent, shipsInDocks, lastHandledCargoTs, readyToUndock, authStrings
    {
      Registry(dockStatus[..], dockRecent[..], shipsInDocks[..], lastHandledCargoTs[..],
               readyToUndock[..], authStrings[..])
    }

    /** The scheduler's state as a value. */
    ghost function Abstract(): State
      reads this, emergencyQueue, emergencyQueue.requests, regularQueue, regularQueue.requests
      reads dockStatus, dockRecent, shipsInDocks, lastHandledCargoTs, readyToUndock, authStrings
      requires Valid()
    {
      State(Reg(), emergencyQueue.items, regularQueue.items, log)
    }

    /** Start-up: empty queues, every dock free with no cargo timestamp, and the
        authentication strings cleared. */
    constructor (cats: seq<int>, craneCaps: seq<seq<int>>, solvers: nat)
      requires Config(cats, craneCaps, solvers).Valid()
      ensures Valid() && Cfg() == Config(cats, craneCaps, solvers)
      ensures Abstract() == State(Initial(|cats|), [], [], []) && timeStep == 0
      ensures fresh(emergencyQueue) && fresh(emergencyQueue.requests)
      ensures fresh(regularQueue) && fresh(regularQueue.requests)
      ensures fresh(dockStatus) && fresh(dockRecent) && fresh(shipsInDocks)
      ensures fresh(lastHandledCargoTs) && fresh(readyToUndock) && fresh(authStrings)
    {
      n := |cats|;
      m := solvers;
      docksCat := cats;
      cranes := craneCaps;
      var auth := Filled(|cats|, []);
      var lastTs := Filled(|cats|, -1);
      var recent := Filled(|cats|, false);
      var ready := Filled(|cats|, false);
      var status := Filled(|cats|, false);
      var ships := Filled(|cats|, Zero);
      authStrings := auth;
      emergencyQueue := new Queue();
      regularQueue := new Queue();
      lastHandledCargoTs := lastTs;
      dockRecent := recent;
      readyToUndock := ready;
      dockStatus := status;
      shipsInDocks := ships;
      timeStep := 0;
      log := [];
    }

    /** A new array of `k` copies of `v`. */
    static method Filled<T>(k: nat, v: T) returns (a: array<T>)
      ensures fresh(a) && a[..] == seq(k, _ => v)
    {
      a := new T[k](_ => v);
    }

    /** The dock the scan in `process_ship_queue` selects for a ship of
        category `category`. */
    method SelectDock(category: int) returns (selected: int)
      requires Shaped()
      ensures selected == BestFit(dockStatus[..], docksCat, category, n)
    {
      selected := -1;
      var minCategory := INF;
      var dockid := 0;
      while dockid < n
        invariant 0 <= dockid <= n
        invariant selected == BestFit(dockStatus[..], docksCat, category, dockid)
        invariant minCategory == if selected == -1 then INF else docksCat[selected]
      {
        if !dockStatus[dockid] && docksCat[dockid] >= category && docksCat[dockid] < minCategory {
          minCategory := docksCat[dockid];
          selected := dockid;
        }
        dockid := dockid + 1;
      }
    }

    /** Records `ship` at `dock`, stamped with the current tick, and reports the
        assignment. */
    method Docking(ship: Ship, dock: int)
      requires Shaped() && 0 <= dock < n
      modifies shipsInDocks, this`log
      ensures shipsInDocks[..] == old(shipsInDocks[..])[dock := ship.(timestep := timeStep)]
      ensures log == old(log) + [DockAssigned(dock, ship.shipId, ship.direction)]
    {
      log := log + [DockAssigned(dock, ship.shipId, ship.direction)];
      shipsInDocks[dock] := ship.(timestep := timeStep);
    }

    /** The dock work of one iteration of `process_ship_queue` for `ship`,
        continuing the pass `a`: nothing when no dock fits; otherwise the ship
        is docked at the best fit unless it is a timed-out regular ship.
        Returns whether the ship leaves the queue. */
    method PlaceShip(ship: Ship, isRegular: bool, ghost a: Pass, ghost log0: seq<Event>) returns (remove: bool)
      requires Shaped() && a.reg == Reg() && log == log0 + a.events
      modifies dockStatus, dockRecent, shipsInDocks, this`log
      ensures var a' := Place(docksCat, isRegular, timeStep, a, ship);
              Reg() == a'.reg && log == log0 + a'.events &&
              a'.kept == if remove then a.kept else a.kept + [ship]
    {
      var selectedDock := SelectDock(ship.category);
      if selectedDock != -1 {
        if isRegular && ship.direction == 1 && timeStep > ship.timestep + ship.waitingTime {
        } else {
          Docking(ship, selectedDock);
          dockStatus[selectedDock] := true;
          dockRecent[selectedDock] := true;
          assert Reg() == Docked(a.reg, selectedDock, ship, timeStep);
        }
        remove := true;
      } else {
        remove := false;
      }
    }

    /** The request at index `i` of queue `q`, which holds `kept` followed
        by `rest`, with `i` the length of `kept`. */
    static method ShipAt(q: Queue, i: int, ghost kept: seq<Ship>, ghost rest: seq<Ship>) returns (ship: Ship)
      requires q.Valid() && q.fr <= 0 && rest != [] && i == |kept| && q.items == kept + rest
      ensures ship == rest[0]
    {
      assert (kept + rest)[|kept|] == rest[0];
      ship := q.requests[i];
    }

    /** Deletes the request at index `i` of queue `q`, which holds `kept`
        followed by `rest`, with `i` the length of `kept`. */
    method DropShip(q: Queue, i: int, ghost kept: seq<Ship>, ghost rest: seq<Ship>)
      requires Serves(q) && rest != [] && i == |kept| && q.items == kept + rest
      modifies q, q.requests
      ensures Serves(q) && q.items == kept + rest[1..]
    {
      assert (kept + rest)[..|kept|] == kept && (kept + rest)[|kept| + 1..] == rest[1..];
      var _ := q.Delete(i);
    }

    /** One iteration of `process_ship_queue` at index `i`, where the queue
        holds the ships kept from the first `j` of `ships` followed by the
        unvisited `ships[j..]`: the ship is placed, and deleted from the queue
        when it leaves it. Returns the index of the next ship and, as `a'`,
        the pass over the first `j + 1` ships. */
    method ProcessQueuedShip(q: Queue, isRegular: bool, i: int, ghost ships: seq<Ship>, ghost j: int,
                             ghost a: Pass, ghost reg0: Registry, ghost log0: seq<Event>)
      returns (next: int, ghost a': Pass)
      requires Shaped() && Serves(q) && 0 <= j < |ships| && reg0.Sized(n)
      requires a == Allocate(docksCat, isRegular, timeStep, Pass([], reg0, []), ships[..j])
      requires i == |a.kept| && q.items == a.kept + ships[j..]
      requires Reg() == a.reg && log == log0 + a.events
      modifies q, q.requests, dockStatus, dockRecent, shipsInDocks, this`log
      ensures Serves(q)
      ensures a' == Allocate(docksCat, isRegular, timeStep, Pass([], reg0, []), ships[..j + 1])
      ensures next == |a'.kept| && q.items == a'.kept + ships[j + 1..]
      ensures Reg() == a'.reg && log == log0 + a'.events
    {
      SplitAt(a.kept, ships, j);
      AllocateSnoc(docksCat, isRegular, timeStep, Pass([], reg0, []), ships, j);
      a' := Place(docksCat, isRegular, timeStep, a, ships[j]);
      var ship := ShipAt(q, i, a.kept, ships[j..]);
      var remove := PlaceShip(ship, isRegular, a, log0);
      if remove {
        DropShip(q, i, a.kept, ships[j..]);
        // the source decrements `i` after the deletion, then the loop increments it
        next := i;
      } else {
        next := i + 1;
      }
    }

    /** One pass over queue `q`: every ship for which a dock fits is deleted
        from it, and docked at its best fit unless it is a timed-out regular
        ship. */
    method ProcessShipQueue(q: Queue, isRegular: bool)
      requires Shaped() && Serves(q)
      modifies q, q.requests, dockStatus, dockRecent, shipsInDocks, this`log
      ensures Serves(q)
      ensures var r := Allocate(docksCat, isRegular, timeStep, Pass([], old(Reg()), []), old(q.items));
              q.items == r.kept && Reg() == r.reg && log == old(log) + r.events
    {
      ghost var ships, reg0, log0 := q.items, Reg(), log;
      ghost var j := 0;
      ghost var a := Pass([], reg0, []);
      assert ships[..0] == [];
      var i := 0;
      while i < q.Count()
        invariant Serves(q)
        invariant 0 <= j <= |ships|
        invariant a == Allocate(docksCat, isRegular, timeStep, Pass([], reg0, []), ships[..j])
        invariant i == |a.kept| && q.items == a.kept + ships[j..]
        invariant Reg() == a.reg && log == log0 + a.events
        decreases |ships| - j
      {
        i, a := ProcessQueuedShip(q, isRegular, i, ships, j, a, reg0, log0);
        j := j + 1;
      }
      ScanDone(a.kept, ships, j, q.items);
    }

    /** Whether the ship at `dock` has a cargo item left to handle. */
    method HasCargoLeft(dock: int) returns (left: bool)
      requires Shaped() && 0 <= dock < n
      ensures left == CargoLeft(shipsInDocks[dock].cargo)
    {
      var cargo := shipsInDocks[dock].cargo;
      var i := 0;
      while i < |cargo|
        invariant 0 <= i <= |cargo|
        invariant forall k :: 0 <= k < i ==> cargo[k] == 0
      {
        if cargo[i] != 0 {
          return true;
        }
        i := i + 1;
      }
      return false;
    }

    /** The cargo item the inner scan of `cargoHandling` picks for a crane of
        capacity `cap`. */
    static method ChooseCargo(cargo: seq<int>, cap: int) returns (chosen: int)
      ensures chosen == LeastWaste(cargo, cap, |cargo|)
    {
      chosen := -1;
      var leastWasted := INF;
      var cargoId := 0;
      while cargoId < |cargo|
        invariant 0 <= cargoId <= |cargo|
        invariant chosen == LeastWaste(cargo, cap, cargoId)
        invariant chosen == -1 ==> leastWasted == INF
        invariant chosen != -1 ==> 0 <= chosen < |cargo| && leastWasted == cap - cargo[chosen] < INF
      {
        var weight := cargo[cargoId];
        if weight != 0 && weight <= cap {
          var waste := cap - weight;
          if waste < leastWasted {
            leastWasted := waste;
            chosen := cargoId;
          }
        }
        cargoId := cargoId + 1;
      }
    }

    /** Crane `craneId` of `dock` takes the least-waste item left, continuing
        the crane pass `h` over `ship`, the ship docked there; `ships0` and
        `ts0` are the dock arrays before the pass. */
    method CraneAt(dock: int, craneId: int, ship: Ship, ghost h: Handling,
                   ghost ships0: seq<Ship>, ghost ts0: seq<int>, ghost log0: seq<Event>)
      requires Shaped() && 0 <= dock < n && 0 <= craneId < |cranes[dock]| && |ships0| == n && |ts0| == n
      requires shipsInDocks[..] == ships0[dock := ship.(cargo := h.cargo)]
      requires lastHandledCargoTs[..] == if h.handled then ts0[dock := timeStep] else ts0
      requires log == log0 + h.events
      modifies shipsInDocks, lastHandledCargoTs, this`log
      ensures var h' := CraneTurn(h, cranes[dock][craneId], craneId, dock, ship);
              shipsInDocks[..] == ships0[dock := ship.(cargo := h'.cargo)] &&
              lastHandledCargoTs[..] == (if h'.handled then ts0[dock := timeStep] else ts0) &&
              log == log0 + h'.events
    {
      var chosen := ChooseCargo(shipsInDocks[dock].cargo, cranes[dock][craneId]);
      if chosen != -1 {
        log := log + [CargoHandled(dock, craneId, chosen, ship.shipId, ship.direction)];
        var s := shipsInDocks[dock];
        shipsInDocks[dock] := s.(cargo := s.cargo[chosen := 0]);
        lastHandledCargoTs[dock] := timeStep;
      }
    }

    /** Each crane of `dock` in turn takes the least-waste unhandled item. */
    method CargoHandling(dock: int)
      requires Shaped() && 0 <= dock < n
      modifies shipsInDocks, lastHandledCargoTs, this`log
      ensures var s := old(shipsInDocks[dock]);
              var h := HandleCranes(s.cargo, cranes[dock], dock, s);
              shipsInDocks[..] == old(shipsInDocks[..])[dock := s.(cargo := h.cargo)] &&
              lastHandledCargoTs[..] ==
                (if h.handled then old(lastHandledCargoTs[..])[dock := timeStep] else old(lastHandledCargoTs[..])) &&
              log == old(log) + h.events
    {
      var ship := shipsInDocks[dock];
      ghost var ships0, ts0, log0 := shipsInDocks[..], lastHandledCargoTs[..], log;
      assert shipsInDocks[..] == ships0[dock := ship.(cargo := ship.cargo)];
      var craneId := 0;
      while craneId < docksCat[dock]
        invariant 0 <= craneId <= docksCat[dock]
        invariant shipsInDocks[..] ==
                    ships0[dock := ship.(cargo := HandleCranes(ship.cargo, cranes[dock][..craneId], dock, ship).cargo)]
        invariant lastHandledCargoTs[..] ==
                    if HandleCranes(ship.cargo, cranes[dock][..craneId], dock, ship).handled
                    then ts0[dock := timeStep] else ts0
        invariant log == log0 + HandleCranes(ship.cargo, cranes[dock][..craneId], dock, ship).events
      {
        assert cranes[dock][..craneId + 1][..craneId] == cranes[dock][..craneId];
        CraneAt(dock, craneId, ship, HandleCranes(ship.cargo, cranes[dock][..craneId], dock, ship), ships0, ts0, log0);
        craneId := craneId + 1;
      }
      assert cranes[dock][..craneId] == cranes[dock];
    }

    /** The body of the loading pass for dock `dock`, continuing the pass
        whose registry and messages so far are `p`. */
    method LoadDockAt(dock: int, ghost p: (Registry, seq<Event>), ghost log0: seq<Event>)
      requires Shaped() && 0 <= dock < n
      requires Reg() == p.0 && log == log0 + p.1
      modifies shipsInDocks, lastHandledCargoTs, readyToUndock, this`log
      ensures var r := LoadDock(p.0, cranes, timeStep, dock);
              Reg() == r.0 && log == log0 + (p.1 + r.1)
    {
      if dockStatus[dock] && !dockRecent[dock] {
        var left := HasCargoLeft(dock);
        if left {
          ghost var s := shipsInDocks[dock];
          ghost var h := HandleCranes(s.cargo, cranes[dock], dock, s);
          ghost var reg1 := p.0.(ships := p.0.ships[dock := s.(cargo := h.cargo)],
                                 lastTs := if h.handled then p.0.lastTs[dock := timeStep] else p.0.lastTs);
          assert LoadDock(p.0, cranes, timeStep, dock) == (reg1, h.events);
          CargoHandling(dock);
          assert Reg() == reg1;
        } else if lastHandledCargoTs[dock] != -1 && timeStep > lastHandledCargoTs[dock] {
          readyToUndock[dock] := true;
          assert p.1 + [] == p.1;
        } else {
          assert p.1 + [] == p.1;
        }
      } else {
        assert p.1 + [] == p.1;
      }
    }

    /** One iteration of the loading pass: dock `dock` is handled after the
        docks before it, from registry `reg0`. */
    method LoadNextDock(dock: int, ghost reg0: Registry, ghost log0: seq<Event>)
      requires Shaped() && 0 <= dock < n && reg0.Sized(n)
      requires Reg() == LoadAll(reg0, cranes, timeStep, dock).0
      requires log == log0 + LoadAll(reg0, cranes, timeStep, dock).1
      modifies shipsInDocks, lastHandledCargoTs, readyToUndock, this`log
      ensures Reg() == LoadAll(reg0, cranes, timeStep, dock + 1).0
      ensures log == log0 + LoadAll(reg0, cranes, timeStep, dock + 1).1
    {
      LoadAllNext(reg0, cranes, timeStep, dock);
      LoadDockAt(dock, LoadAll(reg0, cranes, timeStep, dock), log0);
    }

    /** The loading pass over every dock, in dock order. */
    method ProcessDocksForLoading()
      requires Shaped()
      modifies shipsInDocks, lastHandledCargoTs, readyToUndock, this`log
      ensures var r := LoadAll(old(Reg()), cranes, timeStep, n);
              Reg() == r.0 && log == old(log) + r.1
    {
      ghost var reg0, log0 := Reg(), log;
      var dockid := 0;
      while dockid < n
        invariant 0 <= dockid <= n
        invariant Reg() == LoadAll(reg0, cranes, timeStep, dockid).0
        invariant log == log0 + LoadAll(reg0, cranes, timeStep, dockid).1
      {
        LoadNextDock(dockid, reg0, log0);
        dockid := dockid + 1;
      }
    }

    /** One undocking attempt on `dock`; `correct(dock, guess)` stands for the
        reply of the solver the guess is sent to. */
    method Undocking(dock: int, correct: (int, seq<char>) -> bool)
      requires Shaped() && 0 <= dock < n
      modifies dockStatus, readyToUndock, shipsInDocks, lastHandledCargoTs, authStrings, this`log
      ensures var r := Undock(old(Reg()), dock, m, correct);
              Reg() == r.0 && log == old(log) + r.1
    {
      ghost var reg0 := Reg();
      var shipId := shipsInDocks[dock].shipId;
      var direction := shipsInDocks[dock].direction;
      var dockTs := shipsInDocks[dock].timestep;
      var len := lastHandledCargoTs[dock] - dockTs;
      assert len == SecretLength(reg0, dock);
      if len <= 0 || len >= MAX_AUTH_STRING_LEN {
        assert log == old(log) + [];
        return;
      }
      ghost var o := Search(dock, Candidates(len), 0, m, correct);
      ghost var ev := if o.winner.Some? then Broadcast(dock, m) + o.sent + [Undocked(dock, shipId, direction)]
                      else Broadcast(dock, m) + o.sent;
      assert Undock(reg0, dock, m, correct) == (AfterSearch(reg0, dock, o.winner), ev);
      SearchSecret(dock, len, shipId, direction, correct);
    }

    /** The search for the secret of `dock`, of length `len`: every solver is
        notified, then the generator runs from an empty guess. */
    method SearchSecret(dock: int, len: int, shipId: int, direction: int, correct: (int, seq<char>) -> bool)
      requires Shaped() && 0 <= dock < n && ValidLength(len)
      modifies dockStatus, readyToUndock, shipsInDocks, lastHandledCargoTs, authStrings, this`log
      ensures var o := Search(dock, Candidates(len), 0, m, correct);
              Reg() == AfterSearch(old(Reg()), dock, o.winner) &&
              log == if o.winner.Some? then old(log) + Broadcast(dock, m) + o.sent + [Undocked(dock, shipId, direction)]
                     else old(log) + Broadcast(dock, m) + o.sent
    {
      NotifySolvers(dock);
      var guess := new char[MAX_AUTH_STRING_LEN];
      assert guess[..0] == [];
      ghost var reg, logNotified := Reg(), log;
      var found, count := GenerateAndTry(dock, len, shipId, direction, guess, 0, 0, correct, [], len, reg, logNotified);
      GenerateIsSearch(dock, [], len, 0, m, correct);
    }

    /** Tells every solver, in order, which dock the coming guesses are for. */
    method NotifySolvers(dock: int)
      modifies this`log
      ensures log == old(log) + Broadcast(dock, m)
    {
      var i := 0;
      while i < m
        invariant 0 <= i <= m
        invariant log == old(log) + Broadcast(dock, i)
      {
        log := log + [DockNotify(i, dock)];
        i := i + 1;
      }
    }

    /** The complete guess `g`, held in `guess[..len]`: skipped when it begins
        or ends with '.', otherwise sent to solver `count % m`; a confirmed
        guess is published as the dock's authentication string and releases
        the dock. */
    method TryGuess(dock: int, len: int, shipId: int, direction: int, guess: array<char>, count: nat,
                    correct: (int, seq<char>) -> bool, ghost g: seq<char>, ghost reg0: Registry, ghost log0: seq<Event>)
      returns (found: bool, count': nat)
      requires Shaped() && 0 <= dock < n && 0 < len < MAX_AUTH_STRING_LEN
      requires guess.Length == MAX_AUTH_STRING_LEN && guess[..len] == g && Reg() == reg0 && log == log0
      modifies guess, dockStatus, readyToUndock, shipsInDocks, lastHandledCargoTs, authStrings, this`log
      ensures guess[..len] == g
      ensures var o := Generate(dock, g, 0, count, m, correct);
              found == o.winner.Some? && count' == o.count && Reg() == AfterSearch(reg0, dock, o.winner) &&
              log == if found then log0 + o.sent + [Undocked(dock, shipId, direction)] else log0 + o.sent
    {
      guess[len] := '\0';
      assert guess[..len] == g;
      if guess[0] == '.' || guess[len - 1] == '.' {
        assert log == log0 + [];
        return false, count;
      }
      var solver := count % m;
      count' := count + 1;
      log := log + [GuessRequest(solver, dock, guess[..len])];
      if correct(dock, guess[..len]) {
        ReleaseDock(dock, shipId, direction, guess[..len]);
        found := true;
      } else {
        found := false;
      }
    }

    /** A confirmed guess `w`: it is published as the dock's authentication
        string, the undocking is reported, and the dock is freed. */
    method ReleaseDock(dock: int, shipId: int, direction: int, w: seq<char>)
      requires Shaped() && 0 <= dock < n
      modifies dockStatus, readyToUndock, shipsInDocks, lastHandledCargoTs, authStrings, this`log
      ensures Reg() == Released(old(Reg()), dock, w)
      ensures log == old(log) + [Undocked(dock, shipId, direction)]
    {
      authStrings[dock] := w;
      log := log + [Undocked(dock, shipId, direction)];
      dockStatus[dock] := false;
      readyToUndock[dock] := false;
      shipsInDocks[dock] := Zero;
      lastHandledCargoTs[dock] := -1;
    }

    /** The recursive generator: with `g` in `guess[..pos]`, tries every
        completion to length `len` in order, sending each sendable one to the
        next solver round-robin and releasing the dock on the first confirmed
        guess. */
    method GenerateAndTry(dock: int, len: int, shipId: int, direction: int, guess: array<char>, pos: int,
                          count: nat, correct: (int, seq<char>) -> bool,
                          ghost g: seq<char>, ghost k: nat, ghost reg0: Registry, ghost log0: seq<Event>)
      returns (found: bool, count': nat)
      requires Shaped() && 0 <= dock < n && 0 < len < MAX_AUTH_STRING_LEN && 0 <= pos <= len && k == len - pos
      requires guess.Length == MAX_AUTH_STRING_LEN && guess[..pos] == g && Reg() == reg0 && log == log0
      modifies guess, dockStatus, readyToUndock, shipsInDocks, lastHandledCargoTs, authStrings, this`log
      ensures guess[..pos] == g
      ensures var o := Generate(dock, g, k, count, m, correct);
              found == o.winner.Some? && count' == o.count && Reg() == AfterSearch(reg0, dock, o.winner) &&
              log == if found then log0 + o.sent + [Undocked(dock, shipId, direction)] else log0 + o.sent
      decreases len - pos, 1
    {
      if pos == len {
        found, count' := TryGuess(dock, len, shipId, direction, guess, count, correct, g, reg0, log0);
        return;
      }
      assert log == log0 + [];
      found, count' := false, count;
      var i := 0;
      while i < 6
        invariant 0 <= i <= 6
        invariant guess[..pos] == g && !found
        invariant var o := GenerateUpTo(dock, g, k - 1, i, count, m, correct);
                  o.winner.None? && count' == o.count && Reg() == reg0 && log == log0 + o.sent
      {
        found, count' := TrySymbol(dock, len, shipId, direction, guess, pos, i, count', correct, g, k - 1, count, reg0, log0);
        if found {
          GeneratorDone(dock, g, k, i + 1, count, m, correct, shipId, direction, reg0, log0, found, count', Reg(), log);
          return;
        }
        i := i + 1;
      }
      GeneratorDone(dock, g, k, 6, count, m, correct, shipId, direction, reg0, log0, found, count', Reg(), log);
    }

    /** One turn of the generator's loop at position `pos`: symbol `i` is
        placed there and its completions are tried, continuing the turns
        before it, which confirmed no guess. */
    method TrySymbol(dock: int, len: int, shipId: int, direction: int, guess: array<char>, pos: int, i: int,
                     count: nat, correct: (int, seq<char>) -> bool,
                     ghost g: seq<char>, ghost k: nat, ghost count0: nat, ghost reg0: Registry, ghost log0: seq<Event>)
      returns (found: bool, count': nat)
      requires Shaped() && 0 <= dock < n && 0 < len < MAX_AUTH_STRING_LEN && 0 <= pos < len && 0 <= i < 6
      requires k == len - (pos + 1) && guess.Length == MAX_AUTH_STRING_LEN && guess[..pos] == g
      requires var o := GenerateUpTo(dock, g, k, i, count0, m, correct);
               o.winner.None? && count == o.count && Reg() == reg0 && log == log0 + o.sent
      modifies guess, dockStatus, readyToUndock, shipsInDocks, lastHandledCargoTs, authStrings, this`log
      ensures guess[..pos] == g
      ensures var o := GenerateUpTo(dock, g, k, i + 1, count0, m, correct);
              found == o.winner.Some? && count' == o.count && Reg() == AfterSearch(reg0, dock, o.winner) &&
              log == if found then log0 + o.sent + [Undocked(dock, shipId, direction)] else log0 + o.sent
      decreases len - pos, 0
    {
      ghost var o := GenerateUpTo(dock, g, k, i, count0, m, correct);
      guess[pos] := Alphabet[i];
      assert guess[..pos + 1] == g + [Alphabet[i]];
      found, count' := GenerateAndTry(dock, len, shipId, direction, guess, pos + 1, count, correct,
                                      g + [Alphabet[i]], k, reg0, log);
      GeneratorTurn(dock, g, k, i, count0, m, correct, shipId, direction, reg0, log0, found, count', Reg(), log);
      assert guess[..pos] == guess[..pos + 1][..pos];
    }

    /** The new requests `reqs` join the queues in order: an emergency ship the
        emergency queue, every other ship the regular queue. */
    method AdmitRequests(reqs: seq<Ship>)
      requires Valid()
      modifies emergencyQueue, emergencyQueue.requests, regularQueue, regularQueue.requests
      ensures Valid()
      ensures (emergencyQueue.items, regularQueue.items) ==
              Admit(old(emergencyQueue.items), old(regularQueue.items), reqs)
    {
      ghost var e0, g0 := emergencyQueue.items, regularQueue.items;
      var i := 0;
      while i < |reqs|
        invariant 0 <= i <= |reqs| && Valid()
        invariant (emergencyQueue.items, regularQueue.items) == Admit(e0, g0, reqs[..i])
      {
        AdmitSnoc(e0, g0, reqs, i);
        if reqs[i].emergency == 1 {
          EnqueueShip(emergencyQueue, regularQueue, reqs[i]);
        } else {
          EnqueueShip(regularQueue, emergencyQueue, reqs[i]);
        }
        i := i + 1;
      }
      assert reqs[..i] == reqs;
    }

    /** Queues `s` behind queue `q`, which is full when its rear cursor is at
        the last slot; the other queue `other` keeps its requests. */
    method EnqueueShip(q: Queue, other: Queue, s: Ship)
      requires Serves(q) && Serves(other) && q != other && q.requests != other.requests
      modifies q, q.requests
      ensures Serves(q) && Serves(other) && other.items == old(other.items)
      ensures q.items == Enq(old(q.items), s)
    {
      q.Enqueue(s);
    }

    /** No dock counts as docked during this tick any more. */
    method ClearRecentFlags()
      requires Shaped()
      modifies dockRecent
      ensures Reg() == ClearRecent(old(Reg()))
    {
      forall d | 0 <= d < n {
        dockRecent[d] := false;
      }
      assert dockRecent[..] == seq(n, _ => false);
    }

    /** The body of the end-of-tick pass for dock `d`, continuing the pass
        whose registry and messages so far are `p`. */
    method UndockReadyAt(d: int, correct: (int, seq<char>) -> bool, ghost p: (Registry, seq<Event>),
                         ghost log0: seq<Event>)
      requires Shaped() && 0 <= d < n
      requires Reg() == p.0 && log == log0 + p.1
      modifies dockStatus, dockRecent, shipsInDocks, lastHandledCargoTs, readyToUndock, authStrings, this`log
      ensures var r := UndockReady(p.0, d, m, correct);
              Reg() == r.0 && log == log0 + (p.1 + r.1)
    {
      if readyToUndock[d] {
        Undocking(d, correct);
        readyToUndock[d] := false;
        dockRecent[d] := false;
      } else {
        assert p.1 + [] == p.1;
      }
    }

    /** The end-of-tick pass: every ready dock, in dock order, gets one
        undocking attempt and loses its ready and recent flags. */
    method UndockReadyDocks(correct: (int, seq<char>) -> bool)
      requires Shaped()
      modifies dockStatus, dockRecent, shipsInDocks, lastHandledCargoTs, readyToUndock, authStrings, this`log
      ensures var r := UndockAll(old(Reg()), m, correct, n);
              Reg() == r.0 && log == old(log) + r.1
    {
      ghost var reg0, log0 := Reg(), log;
      var d := 0;
      while d < n
        invariant 0 <= d <= n
        invariant Reg() == UndockAll(reg0, m, correct, d).0
        invariant log == log0 + UndockAll(reg0, m, correct, d).1
      {
        UndockReadyAt(d, correct, UndockAll(reg0, m, correct, d), log0);
        d := d + 1;
      }
    }

    /** The docking phase of a tick: the recent marks are cleared, then the
        emergency queue and the regular queue are each offered the free docks. */
    method DockingPhase()
      requires Valid()
      modifies emergencyQueue, emergencyQueue.requests, regularQueue, regularQueue.requests
      modifies dockStatus, dockRecent, shipsInDocks, this`log
      ensures Valid()
      ensures var a1 := Allocate(docksCat, false, timeStep, Pass([], ClearRecent(old(Reg())), []), old(emergencyQueue.items));
              var a2 := Allocate(docksCat, true, timeStep, Pass([], a1.reg, []), old(regularQueue.items));
              emergencyQueue.items == a1.kept && regularQueue.items == a2.kept &&
              Reg() == a2.reg && log == old(log) + a1.events + a2.events
    {
      ClearRecentFlags();
      ProcessShipQueue(emergencyQueue, false);
      ProcessShipQueue(regularQueue, true);
    }

    /** The first phases of a tick: take the new time, queue the new requests
        and offer the docks to both queues. */
    method AdmitAndDock(t: int, reqs: seq<Ship>)
      requires Valid()
      modifies this`timeStep, emergencyQueue, emergencyQueue.requests, regularQueue, regularQueue.requests
      modifies dockStatus, dockRecent, shipsInDocks, this`log
      ensures Valid() && timeStep == t
      ensures var (e, g) := Admit(old(emergencyQueue.items), old(regularQueue.items), reqs);
              var a1 := Allocate(docksCat, false, t, Pass([], ClearRecent(old(Reg())), []), e);
              var a2 := Allocate(docksCat, true, t, Pass([], a1.reg, []), g);
              emergencyQueue.items == a1.kept && regularQueue.items == a2.kept &&
              Reg() == a2.reg && log == old(log) + a1.events + a2.events
    {
      timeStep := t;
      AdmitRequests(reqs);
      DockingPhase();
    }

    /** The cargo and undocking phases of a tick. */
    method ServiceDocks(correct: (int, seq<char>) -> bool)
      requires Shaped()
      modifies dockStatus, dockRecent, shipsInDocks, lastHandledCargoTs, readyToUndock, authStrings, this`log
      ensures var l := LoadAll(old(Reg()), cranes, timeStep, n);
              var u := UndockAll(l.0, m, correct, n);
              Reg() == u.0 && log == old(log) + l.1 + u.1
    {
      ProcessDocksForLoading();
      UndockReadyDocks(correct);
    }

    /** The ticks of the coordinator, one per call: queue the new requests
        `reqs`, offer docks to the emergency queue and then the regular queue,
        handle cargo, undock the ready ships, and acknowledge the tick. */
    method HandleTick(t: int, reqs: seq<Ship>, correct: (int, seq<char>) -> bool)
      requires Valid()
      modifies this`timeStep, this`log, emergencyQueue, emergencyQueue.requests, regularQueue, regularQueue.requests
      modifies dockStatus, dockRecent, shipsInDocks, lastHandledCargoTs, readyToUndock, authStrings
      ensures Valid() && timeStep == t
      ensures Abstract() == Tick(Cfg(), t, reqs, correct, old(Abstract()))
    {
      ghost var st := Abstract();
      AdmitAndDock(t, reqs);
      ServiceDocks(correct);
      log := log + [TickAdvanced];
      assert Valid();
      assert Tick(Cfg(), t, reqs, correct, st).emergency == emergencyQueue.items;
    }
  }
}
