// Ship requests, the messages the scheduler emits, and the fixed bounds of
// the port scheduler.

module Ships {

  /** Capacity of one ship queue (SIZE). */
  const QUEUE_SIZE: int := 1000
  /** Bound on the length of an authentication string, terminator included. */
  const MAX_AUTH_STRING_LEN: int := 100
  /** Largest number of docks, of cranes per dock and of solvers. */
  const MAX_DOCKS: int := 30
  const MAX_DOCK_CATEGORY: int := 25
  const MAX_SOLVERS: int := 8
  /** The value `1e9` that the two argmin scans start their running minimum at. */
  const INF: int := 1000000000

  /** A ship request; `cargo` holds the first `numCargo` weights, 0 meaning handled. */
  datatype Ship = Ship(
    shipId: int,
    timestep: int,
    category: int,
    direction: int,
    emergency: int,
    waitingTime: int,
    cargo: seq<int>)

  /** The all-zero record that `delete` returns on a bad index and that an
      undocked dock is cleared to. */
  const Zero: Ship := Ship(0, 0, 0, 0, 0, 0, [])

  datatype Option<T> = None | Some(value: T)

  /** Every message the scheduler sends, to the coordinator or to a solver. */
  datatype Event =
    | DockAssigned(dock: int, shipId: int, direction: int)
    | CargoHandled(dock: int, crane: int, cargoId: int, shipId: int, direction: int)
    | Undocked(dock: int, shipId: int, direction: int)
    | TickAdvanced
    | DockNotify(solver: int, dock: int)
    | GuessRequest(solver: int, dock: int, guess: seq<char>)
}
