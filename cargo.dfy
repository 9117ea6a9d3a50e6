// Cargo handling: the least-wasted-capacity match of cargo items to the
// cranes of a dock, and the per-tick pass over the docks that handles cargo
// and detects the ships that are ready to undock.

module Cargo {
  import opened Ships
  import opened Docks

  /** Cargo item `j` can go on a crane of capacity `cap`: it is not yet handled,
      it is no heavier than `cap`, and the waste is below the scan's starting
      minimum of 1e9. */
  predicate Eligible(cargo: seq<int>, cap: int, j: int)
  {
    0 <= j < |cargo| && cargo[j] != 0 && cargo[j] <= cap && cap - cargo[j] < INF
  }

  /** Among items `0..k-1`, the eligible one that wastes least of `cap`, the
      lowest index on ties; -1 when none is eligible. */
  function LeastWaste(cargo: seq<int>, cap: int, k: nat): (r: int)
    requires k <= |cargo|
    ensures -1 <= r < k
  {
    if k == 0 then -1
    else
      var r := LeastWaste(cargo, cap, k - 1);
      if Eligible(cargo, cap, k - 1) && (r == -1 || cap - cargo[k - 1] < cap - cargo[r]) then k - 1 else r
  }

  /** The scan finds no item exactly when none of items `0..k-1` is eligible,
      and otherwise an eligible item of least waste, the first one on ties. */
  lemma {:induction false} LeastWasteIsLeast(cargo: seq<int>, cap: int, k: nat)
    requires k <= |cargo|
    ensures var r := LeastWaste(cargo, cap, k);
            (r == -1 <==> forall j :: 0 <= j < k ==> !Eligible(cargo, cap, j)) &&
            (r != -1 ==>
               Eligible(cargo, cap, r) &&
               (forall j :: 0 <= j < k && Eligible(cargo, cap, j) ==> cap - cargo[r] <= cap - cargo[j]) &&
               (forall j :: 0 <= j < r && Eligible(cargo, cap, j) ==> cap - cargo[r] < cap - cargo[j]))
  {
    if k > 0 {
      LeastWasteIsLeast(cargo, cap, k - 1);
    }
  }

  /** The cargo list after the cranes have worked, the cargo-handled messages,
      and whether any item was handled. */
  datatype Handling = Handling(cargo: seq<int>, events: seq<Event>, handled: bool)

  /** The cranes with capacities `caps` take, in crane order, one item each: the
      least-waste item still unhandled, which becomes 0. */
  function HandleCranes(cargo: seq<int>, caps: seq<int>, dock: int, ship: Ship): (r: Handling)
    ensures |r.cargo| == |cargo|
    ensures r.handled <==> r.events != []
    decreases |caps|
  {
    if caps == [] then Handling(cargo, [], false)
    else CraneTurn(HandleCranes(cargo, caps[..|caps| - 1], dock, ship), caps[|caps| - 1], |caps| - 1, dock, ship)
  }

  /** Crane `crane`, of capacity `cap`, takes the least-waste item left in
      `h`, if any. */
  function CraneTurn(h: Handling, cap: int, crane: int, dock: int, ship: Ship): (r: Handling)
    ensures |r.cargo| == |h.cargo|
    ensures r.handled <==> h.handled || LeastWaste(h.cargo, cap, |h.cargo|) != -1
    ensures (h.handled <==> h.events != []) ==> (r.handled <==> r.events != [])
  {
    var j := LeastWaste(h.cargo, cap, |h.cargo|);
    if j == -1 then h
    else Handling(h.cargo[j := 0], h.events + [CargoHandled(dock, crane, j, ship.shipId, ship.direction)], true)
  }

  /** A crane with no eligible item left leaves the pass as it is; otherwise it
      takes an eligible item of least waste, the first one on ties: that item
      becomes 0 and one message naming this crane and item is appended. */
  lemma CraneTurnOutcome(h: Handling, cap: int, crane: int, dock: int, ship: Ship)
    ensures var r := CraneTurn(h, cap, crane, dock, ship);
            ((forall j :: 0 <= j < |h.cargo| ==> !Eligible(h.cargo, cap, j)) ==> r == h) &&
            ((exists j :: 0 <= j < |h.cargo| && Eligible(h.cargo, cap, j)) ==>
               exists j :: 0 <= j < |h.cargo| && Eligible(h.cargo, cap, j) &&
                 (forall i :: 0 <= i < |h.cargo| && Eligible(h.cargo, cap, i) ==> cap - h.cargo[j] <= cap - h.cargo[i]) &&
                 (forall i :: 0 <= i < j && Eligible(h.cargo, cap, i) ==> cap - h.cargo[j] < cap - h.cargo[i]) &&
                 r == Handling(h.cargo[j := 0], h.events + [CargoHandled(dock, crane, j, ship.shipId, ship.direction)], true))
  {
    LeastWasteIsLeast(h.cargo, cap, |h.cargo|);
  }

  /** The items named by `events`. */
  ghost function HandledIds(events: seq<Event>): set<int>
    requires forall i :: 0 <= i < |events| ==> events[i].CargoHandled?
  {
    set i | 0 <= i < |events| :: events[i].cargoId
  }

  /** Every message of the crane pass reports `ship` at `dock`, for a crane
      that exists and an item of the list, and the crane numbers strictly
      increase: no crane takes two items. */
  lemma {:induction false} CranesTakeOneEach(cargo: seq<int>, caps: seq<int>, dock: int, ship: Ship)
    ensures var r := HandleCranes(cargo, caps, dock, ship);
            |r.events| <= |caps| &&
            (forall i :: 0 <= i < |r.events| ==>
               r.events[i].CargoHandled? && r.events[i].dock == dock &&
               r.events[i].shipId == ship.shipId && r.events[i].direction == ship.direction &&
               0 <= r.events[i].crane < |caps| && 0 <= r.events[i].cargoId < |cargo|) &&
            (forall i, j :: 0 <= i < j < |r.events| ==> r.events[i].crane < r.events[j].crane)
    decreases |caps|
  {
    if caps != [] {
      CranesTakeOneEach(cargo, caps[..|caps| - 1], dock, ship);
    }
  }

  /** Each item taken was unhandled and becomes 0, no item is taken twice, and
      every item not taken keeps its weight. */
  lemma {:induction false} ItemsTakenOnce(cargo: seq<int>, caps: seq<int>, dock: int, ship: Ship)
    ensures TakenFrom(cargo, HandleCranes(cargo, caps, dock, ship))
    decreases |caps|
  {
    if caps != [] {
      var caps' := caps[..|caps| - 1];
      ItemsTakenOnce(cargo, caps', dock, ship);
      CraneTurnTakes(cargo, HandleCranes(cargo, caps', dock, ship), caps[|caps| - 1], |caps| - 1, dock, ship);
    }
  }

  /** The items handled so far in `h` were unhandled in `cargo` and are 0
      now, none twice, and the others keep their weight. */
  ghost predicate TakenFrom(cargo: seq<int>, h: Handling)
  {
    |h.cargo| == |cargo| &&
    (forall i :: 0 <= i < |h.events| ==> h.events[i].CargoHandled?) &&
    (forall i :: 0 <= i < |h.events| ==>
       0 <= h.events[i].cargoId < |cargo| &&
       cargo[h.events[i].cargoId] != 0 && h.cargo[h.events[i].cargoId] == 0) &&
    (forall i, j :: 0 <= i < j < |h.events| ==> h.events[i].cargoId != h.events[j].cargoId) &&
    (forall j :: 0 <= j < |cargo| && j !in HandledIds(h.events) ==> h.cargo[j] == cargo[j])
  }

  /** One more crane turn keeps what `TakenFrom` says. */
  lemma CraneTurnTakes(cargo: seq<int>, h: Handling, cap: int, crane: int, dock: int, ship: Ship)
    requires TakenFrom(cargo, h)
    ensures TakenFrom(cargo, CraneTurn(h, cap, crane, dock, ship))
  {
    var j := LeastWaste(h.cargo, cap, |h.cargo|);
    LeastWasteIsLeast(h.cargo, cap, |h.cargo|);
    if j != -1 {
      TakeItem(cargo, h, j, CargoHandled(dock, crane, j, ship.shipId, ship.direction));
    }
  }

  /** Taking an unhandled item `j`, reported by `e`, keeps what `TakenFrom`
      says. */
  lemma TakeItem(cargo: seq<int>, h: Handling, j: int, e: Event)
    requires TakenFrom(cargo, h) && 0 <= j < |h.cargo| && h.cargo[j] != 0
    requires e.CargoHandled? && e.cargoId == j
    ensures TakenFrom(cargo, Handling(h.cargo[j := 0], h.events + [e], true))
  {
    var r := Handling(h.cargo[j := 0], h.events + [e], true);
    forall i | 0 <= i < |h.events| ensures h.events[i].cargoId != j {
      assert h.cargo[h.events[i].cargoId] == 0;
    }
    assert j !in HandledIds(h.events);
    HandledIdsSnoc(h.events, e);
    forall i | 0 <= i < |r.events|
      ensures 0 <= r.events[i].cargoId < |cargo| &&
              cargo[r.events[i].cargoId] != 0 && r.cargo[r.events[i].cargoId] == 0
    {
      if i < |h.events| {
        assert r.events[i] == h.events[i];
      }
    }
    forall a, b | 0 <= a < b < |r.events| ensures r.events[a].cargoId != r.events[b].cargoId {
      assert r.events[a] == h.events[a];
      if b < |h.events| {
        assert r.events[b] == h.events[b];
      }
    }
    forall k | 0 <= k < |cargo| && k !in HandledIds(r.events) ensures r.cargo[k] == cargo[k] {
      assert k != j && k !in HandledIds(h.events);
    }
  }

  /** Handling one more item adds its index to the handled ones. */
  lemma HandledIdsSnoc(events: seq<Event>, e: Event)
    requires forall i :: 0 <= i < |events| ==> events[i].CargoHandled?
    requires e.CargoHandled?
    ensures HandledIds(events + [e]) == HandledIds(events) + {e.cargoId}
  {
    var all := events + [e];
    forall y | y in HandledIds(all) ensures y in HandledIds(events) + {e.cargoId} {
      var i :| 0 <= i < |all| && all[i].cargoId == y;
      if i < |events| {
        assert all[i] == events[i];
      }
    }
    forall y | y in HandledIds(events) + {e.cargoId} ensures y in HandledIds(all) {
      if y == e.cargoId {
        assert all[|events|].cargoId == y;
      } else {
        var i :| 0 <= i < |events| && events[i].cargoId == y;
        assert all[i] == events[i];
      }
    }
  }

  /** Some cargo item of the list is still unhandled. */
  predicate CargoLeft(cargo: seq<int>)
  {
    exists i :: 0 <= i < |cargo| && cargo[i] != 0
  }

  /** The work of the loading pass on dock `d`: an occupied dock not docked this
      tick has its cargo handled while some is left; once none is left and a
      full tick has passed since the last item was handled, it becomes ready to
      undock. */
  function LoadDock(reg: Registry, cranes: seq<seq<int>>, t: int, d: int): (r: (Registry, seq<Event>))
    requires reg.Sized(|cranes|) && 0 <= d < |cranes|
    ensures r.0.Sized(|cranes|)
    ensures r.0 == reg.(ships := reg.ships[d := r.0.ships[d]], lastTs := reg.lastTs[d := r.0.lastTs[d]],
                        ready := reg.ready[d := r.0.ready[d]])
    ensures r.0.ready[d] <==>
              reg.ready[d] ||
              (reg.status[d] && !reg.recent[d] && !CargoLeft(reg.ships[d].cargo) &&
               reg.lastTs[d] != -1 && t > reg.lastTs[d])
    ensures (!reg.status[d] || reg.recent[d]) ==> r == (reg, [])
    ensures r.0.lastTs[d] == reg.lastTs[d] || (r.0.lastTs[d] == t && r.1 != [])
  {
    if reg.status[d] && !reg.recent[d] then
      var ship := reg.ships[d];
      if CargoLeft(ship.cargo) then
        var h := HandleCranes(ship.cargo, cranes[d], d, ship);
        (reg.(ships := reg.ships[d := ship.(cargo := h.cargo)],
              lastTs := if h.handled then reg.lastTs[d := t] else reg.lastTs), h.events)
      else if reg.lastTs[d] != -1 && t > reg.lastTs[d] then
        (reg.(ready := reg.ready[d := true]), [])
      else (reg, [])
    else (reg, [])
  }

  /** The loading pass over docks `0..k-1`, in dock order. */
  function LoadAll(reg: Registry, cranes: seq<seq<int>>, t: int, k: nat): (r: (Registry, seq<Event>))
    requires reg.Sized(|cranes|) && k <= |cranes|
    ensures r.0.Sized(|cranes|)
    ensures r.0.status == reg.status && r.0.recent == reg.recent && r.0.auth == reg.auth
  {
    if k == 0 then (reg, [])
    else
      var p := LoadAll(reg, cranes, t, k - 1);
      var q := LoadDock(p.0, cranes, t, k - 1);
      (q.0, p.1 + q.1)
  }

  /** The pass over one more dock handles it after the docks before it. */
  lemma LoadAllNext(reg: Registry, cranes: seq<seq<int>>, t: int, k: nat)
    requires reg.Sized(|cranes|) && k < |cranes|
    ensures var p := LoadAll(reg, cranes, t, k);
            var q := LoadDock(p.0, cranes, t, k);
            LoadAll(reg, cranes, t, k + 1) == (q.0, p.1 + q.1)
  {
  }

  /** Each dock ends the loading pass as if it had been handled alone. */
  lemma {:induction false} LoadAllPointwise(reg: Registry, cranes: seq<seq<int>>, t: int, k: nat, d: int)
    requires reg.Sized(|cranes|) && k <= |cranes| && 0 <= d < |cranes|
    ensures var r := LoadAll(reg, cranes, t, k).0;
            var one := LoadDock(reg, cranes, t, d).0;
            if d < k then r.ships[d] == one.ships[d] && r.lastTs[d] == one.lastTs[d] && r.ready[d] == one.ready[d]
            else r.ships[d] == reg.ships[d] && r.lastTs[d] == reg.lastTs[d] && r.ready[d] == reg.ready[d]
    decreases k
  {
    if k > 0 {
      LoadAllPointwise(reg, cranes, t, k - 1, d);
      if d == k - 1 {
        LoadDockLocal(LoadAll(reg, cranes, t, k - 1).0, reg, cranes, t, d);
      }
    }
  }

  /** What the loading pass does to dock `d` depends on dock `d` alone. */
  lemma LoadDockLocal(reg1: Registry, reg2: Registry, cranes: seq<seq<int>>, t: int, d: int)
    requires reg1.Sized(|cranes|) && reg2.Sized(|cranes|) && 0 <= d < |cranes|
    requires reg1.status[d] == reg2.status[d] && reg1.recent[d] == reg2.recent[d]
    requires reg1.ships[d] == reg2.ships[d] && reg1.lastTs[d] == reg2.lastTs[d] && reg1.ready[d] == reg2.ready[d]
    ensures var r1, r2 := LoadDock(reg1, cranes, t, d), LoadDock(reg2, cranes, t, d);
            r1.0.ships[d] == r2.0.ships[d] && r1.0.lastTs[d] == r2.0.lastTs[d] &&
            r1.0.ready[d] == r2.0.ready[d] && r1.1 == r2.1
  {
  }
}
