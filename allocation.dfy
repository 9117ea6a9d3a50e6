// Best-fit dock allocation with timeout eviction: which dock a queued ship
// gets, when it is evicted instead, and what one pass over a queue does.

module Allocation {
  import opened Ships
  import opened Docks

  /** Dock `d` can take a ship of category `c`: it is free, its category is at
      least `c`, and it is below the scan's starting minimum of 1e9. */
  predicate Fits(status: seq<bool>, cats: seq<int>, c: int, d: int)
    requires |status| == |cats|
  {
    0 <= d < |cats| && !status[d] && c <= cats[d] < INF
  }

  /** `d` is the best fit: it fits, no fitting dock has a smaller category, and
      no fitting dock before it has the same category. */
  ghost predicate IsBestFit(status: seq<bool>, cats: seq<int>, c: int, d: int)
    requires |status| == |cats|
  {
    Fits(status, cats, c, d) &&
    (forall e :: 0 <= e < |cats| && Fits(status, cats, c, e) ==> cats[d] <= cats[e]) &&
    (forall e :: 0 <= e < d && Fits(status, cats, c, e) ==> cats[d] < cats[e])
  }

  /** The best-fit dock among docks `0..k-1`, or -1 when none of them fits. */
  function BestFit(status: seq<bool>, cats: seq<int>, c: int, k: nat): (r: int)
    requires |status| == |cats| && k <= |cats|
    ensures -1 <= r < k
  {
    if k == 0 then -1
    else
      var r := BestFit(status, cats, c, k - 1);
      if Fits(status, cats, c, k - 1) && (r == -1 || cats[k - 1] < cats[r]) then k - 1 else r
  }

  /** The scan finds no dock exactly when none of docks `0..k-1` fits, and
      otherwise a fitting dock of least category, the first one on ties. */
  lemma {:induction false} BestFitIsBest(status: seq<bool>, cats: seq<int>, c: int, k: nat)
    requires |status| == |cats| && k <= |cats|
    ensures var r := BestFit(status, cats, c, k);
            (r == -1 <==> forall e :: 0 <= e < k ==> !Fits(status, cats, c, e)) &&
            (r != -1 ==>
               Fits(status, cats, c, r) &&
               (forall e :: 0 <= e < k && Fits(status, cats, c, e) ==> cats[r] <= cats[e]) &&
               (forall e :: 0 <= e < r && Fits(status, cats, c, e) ==> cats[r] < cats[e]))
  {
    if k > 0 {
      BestFitIsBest(status, cats, c, k - 1);
    }
  }

  /** There is at most one best fit. */
  lemma BestFitUnique(status: seq<bool>, cats: seq<int>, c: int, d1: int, d2: int)
    requires |status| == |cats|
    requires IsBestFit(status, cats, c, d1) && IsBestFit(status, cats, c, d2)
    ensures d1 == d2
  {
  }

  /** A regular ship of direction 1 whose waiting time has run out. */
  predicate TimedOut(regular: bool, s: Ship, t: int)
  {
    regular && s.direction == 1 && t > s.timestep + s.waitingTime
  }

  /** The progress of one pass over a queue: the ships left queued so far, the
      registry, and the dock-assigned messages sent so far. */
  datatype Pass = Pass(kept: seq<Ship>, reg: Registry, events: seq<Event>)

  /** The registry after ship `s` is docked at `d` at tick `t`. */
  function Docked(reg: Registry, d: int, s: Ship, t: int): (r: Registry)
    requires 0 <= d < |reg.status| && reg.Sized(|reg.status|)
    ensures r.Sized(|reg.status|)
    ensures r.lastTs == reg.lastTs && r.ready == reg.ready && r.auth == reg.auth
  {
    reg.(status := reg.status[d := true], recent := reg.recent[d := true],
         ships := reg.ships[d := s.(timestep := t)])
  }

  /** What the pass does with ship `s`: keep it queued when no dock fits, drop it
      when it has timed out, dock it at the best fit otherwise. */
  function Place(cats: seq<int>, regular: bool, t: int, a: Pass, s: Ship): (r: Pass)
    requires a.reg.Sized(|cats|)
    ensures r.reg.Sized(|cats|)
    ensures r.kept == a.kept || r.kept == a.kept + [s]
    ensures r.reg.lastTs == a.reg.lastTs && r.reg.ready == a.reg.ready && r.reg.auth == a.reg.auth
  {
    var d := BestFit(a.reg.status, cats, s.category, |cats|);
    if d == -1 then a.(kept := a.kept + [s])
    else if TimedOut(regular, s, t) then a
    else Pass(a.kept, Docked(a.reg, d, s, t), a.events + [DockAssigned(d, s.shipId, s.direction)])
  }

  /** A ship no dock fits stays queued; otherwise, at the best fit, a timed-out
      ship is dropped and any other ship is docked and announced. */
  lemma PlaceOutcome(cats: seq<int>, regular: bool, t: int, a: Pass, s: Ship)
    requires a.reg.Sized(|cats|)
    ensures var r := Place(cats, regular, t, a, s);
            ((forall e :: 0 <= e < |cats| ==> !Fits(a.reg.status, cats, s.category, e)) ==>
               r == a.(kept := a.kept + [s])) &&
            (forall d :: IsBestFit(a.reg.status, cats, s.category, d) ==>
               if TimedOut(regular, s, t) then r == a
               else r == Pass(a.kept, Docked(a.reg, d, s, t), a.events + [DockAssigned(d, s.shipId, s.direction)]))
  {
    BestFitIsBest(a.reg.status, cats, s.category, |cats|);
    forall d | IsBestFit(a.reg.status, cats, s.category, d)
      ensures d == BestFit(a.reg.status, cats, s.category, |cats|)
    {
      BestFitUnique(a.reg.status, cats, s.category, d, BestFit(a.reg.status, cats, s.category, |cats|));
    }
  }

  /** Placing a ship adds to the pass's progress what placing it alone from the
      same registry produces. */
  lemma PlaceFrom(cats: seq<int>, regular: bool, t: int, a: Pass, s: Ship)
    requires a.reg.Sized(|cats|)
    ensures var r := Place(cats, regular, t, Pass([], a.reg, []), s);
            Place(cats, regular, t, a, s) == Pass(a.kept + r.kept, r.reg, a.events + r.events)
  {
    assert a.kept + [] == a.kept && a.events + [] == a.events;
  }

  /** One pass over the queue `ships`, front first, starting from `a`. */
  function Allocate(cats: seq<int>, regular: bool, t: int, a: Pass, ships: seq<Ship>): (r: Pass)
    requires a.reg.Sized(|cats|)
    ensures r.reg.Sized(|cats|)
    ensures r.reg.lastTs == a.reg.lastTs && r.reg.ready == a.reg.ready && r.reg.auth == a.reg.auth
    decreases |ships|
  {
    if ships == [] then a
    else Place(cats, regular, t, Allocate(cats, regular, t, a, ships[..|ships| - 1]), ships[|ships| - 1])
  }

  /** A pass over one more ship places it after the pass over the ones before. */
  lemma AllocateSnoc(cats: seq<int>, regular: bool, t: int, a: Pass, ships: seq<Ship>, j: int)
    requires a.reg.Sized(|cats|) && 0 <= j < |ships|
    ensures Allocate(cats, regular, t, a, ships[..j + 1]) ==
            Place(cats, regular, t, Allocate(cats, regular, t, a, ships[..j]), ships[j])
  {
    assert ships[..j + 1][..j] == ships[..j];
  }

  /** A pass never touches an occupied dock. */
  lemma {:induction false} AllocateKeepsOccupied(cats: seq<int>, regular: bool, t: int, a: Pass, ships: seq<Ship>, d: int)
    requires a.reg.Sized(|cats|) && 0 <= d < |cats| && a.reg.status[d]
    ensures var r := Allocate(cats, regular, t, a, ships);
            r.reg.status[d] && r.reg.recent[d] == a.reg.recent[d] && r.reg.ships[d] == a.reg.ships[d]
    decreases |ships|
  {
    if ships != [] {
      var p := Allocate(cats, regular, t, a, ships[..|ships| - 1]);
      AllocateKeepsOccupied(cats, regular, t, a, ships[..|ships| - 1], d);
      BestFitIsBest(p.reg.status, cats, ships[|ships| - 1].category, |cats|);
    }
  }

  /** Every dock-assigned message of a pass names a dock that was free when the
      pass began and is occupied when it ends, and no dock is named twice. */
  lemma {:induction false} AllocateAssignsFreeDocksOnce(cats: seq<int>, regular: bool, t: int, a: Pass, ships: seq<Ship>)
    requires a.reg.Sized(|cats|)
    ensures var r := Allocate(cats, regular, t, a, ships);
            |a.events| <= |r.events| && r.events[..|a.events|] == a.events &&
            (forall i :: |a.events| <= i < |r.events| ==>
               r.events[i].DockAssigned? && 0 <= r.events[i].dock < |cats| &&
               !a.reg.status[r.events[i].dock] && r.reg.status[r.events[i].dock]) &&
            (forall i, j :: |a.events| <= i < j < |r.events| ==> r.events[i].dock != r.events[j].dock)
    decreases |ships|
  {
    if ships != [] {
      var ships' := ships[..|ships| - 1];
      var s := ships[|ships| - 1];
      AllocateAssignsFreeDocksOnce(cats, regular, t, a, ships');
      var p := Allocate(cats, regular, t, a, ships');
      var d := BestFit(p.reg.status, cats, s.category, |cats|);
      BestFitIsBest(p.reg.status, cats, s.category, |cats|);
      if d != -1 && !TimedOut(regular, s, t) {
        forall i | |a.events| <= i < |p.events|
          ensures p.events[i].dock != d
        {
          assert p.reg.status[p.events[i].dock];
        }
        if a.reg.status[d] {
          AllocateKeepsOccupied(cats, regular, t, a, ships', d);
        }
      }
    }
  }

  /** A dock free when the pass begins either stays free, keeping its record,
      or ends occupied, marked recent, by a ship stamped with the pass's tick. */
  lemma {:induction false} AllocateFillsFree(cats: seq<int>, regular: bool, t: int, a: Pass, ships: seq<Ship>, d: int)
    requires a.reg.Sized(|cats|) && 0 <= d < |cats| && !a.reg.status[d]
    ensures var r := Allocate(cats, regular, t, a, ships);
            if r.reg.status[d] then r.reg.recent[d] && r.reg.ships[d].timestep == t
            else r.reg.ships[d] == a.reg.ships[d]
    decreases |ships|
  {
    if ships != [] {
      var ships' := ships[..|ships| - 1];
      AllocateFillsFree(cats, regular, t, a, ships', d);
    }
  }
}
