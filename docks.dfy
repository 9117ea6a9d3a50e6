// The dock registry as a value: one entry per dock in each of the parallel
// sequences that mirror the scheduler's per-dock arrays.

module Docks {
  import opened Ships

  datatype Registry = Registry(
    status: seq<bool>,       // dock_status: the dock holds a ship
    recent: seq<bool>,       // dock_recent: the ship was docked during this tick
    ships: seq<Ship>,        // ships_in_docks: copy of the docked ship
    lastTs: seq<int>,        // lastHandledCargoTs: -1 until a cargo item is handled
    ready: seq<bool>,        // readyToUndock
    auth: seq<seq<char>>)    // the authentication strings in shared memory
  {
    /** Every sequence has one entry per dock. */
    ghost predicate Sized(n: nat)
    {
      |status| == n && |recent| == n && |ships| == n &&
      |lastTs| == n && |ready| == n && |auth| == n
    }

    /** The state every tick ends in: no dock is left marked ready, and a free
        dock holds the zero record and no cargo timestamp. */
    ghost predicate Settled()
      requires Sized(|status|)
    {
      forall d :: 0 <= d < |status| ==>
        !ready[d] && (!status[d] ==> ships[d] == Zero && lastTs[d] == -1)
    }
  }

  /** The registry of a freshly started scheduler with `n` docks. */
  function Initial(n: nat): (r: Registry)
    ensures r.Sized(n) && r.Settled()
    ensures forall d :: 0 <= d < n ==> !r.status[d] && !r.recent[d] && r.auth[d] == []
  {
    Registry(seq(n, _ => false), seq(n, _ => false), seq(n, _ => Zero),
             seq(n, _ => -1), seq(n, _ => false), seq(n, _ => []))
  }
}
