// One scheduler tick as a function of the state before it: new requests are
// queued, the emergency queue and then the regular queue are offered docks,
// cargo is handled, ready ships are undocked, and the tick is acknowledged.

module Pipeline {
  import opened Ships
  import opened Docks
  import opened Allocation
  import opened Cargo
  import opened Undocking

  /** The configuration read at start-up: each dock's category, each dock's
      crane capacities, and the number of solvers. */
  datatype Config = Config(cats: seq<int>, cranes: seq<seq<int>>, m: nat)
  {
    ghost predicate Valid()
    {
      |cats| <= MAX_DOCKS && |cranes| == |cats| && 1 <= m <= MAX_SOLVERS &&
      forall d :: 0 <= d < |cats| ==> 0 <= cats[d] <= MAX_DOCK_CATEGORY && |cranes[d]| == cats[d]
    }
  }

  /** What the scheduler holds between ticks: the docks, both queues front
      first, and every message sent so far. */
  datatype State = State(reg: Registry, emergency: seq<Ship>, regular: seq<Ship>, log: seq<Event>)

  /** Queue `s` behind `q`, unless the queue already holds QUEUE_SIZE ships. */
  function Enq(q: seq<Ship>, s: Ship): (r: seq<Ship>)
    ensures |q| <= QUEUE_SIZE ==> |r| <= QUEUE_SIZE
  {
    if |q| == QUEUE_SIZE then q else q + [s]
  }

  /** The queues after the requests `reqs` arrive in order: an emergency ship
      joins the emergency queue and every other ship the regular queue. */
  function Admit(e: seq<Ship>, g: seq<Ship>, reqs: seq<Ship>): (r: (seq<Ship>, seq<Ship>))
    ensures |e| <= QUEUE_SIZE ==> |r.0| <= QUEUE_SIZE
    ensures |g| <= QUEUE_SIZE ==> |r.1| <= QUEUE_SIZE
    decreases |reqs|
  {
    if reqs == [] then (e, g)
    else
      var p := Admit(e, g, reqs[..|reqs| - 1]);
      var s := reqs[|reqs| - 1];
      if s.emergency == 1 then (Enq(p.0, s), p.1) else (p.0, Enq(p.1, s))
  }

  /** The arrival of one more request queues it after the ones before. */
  lemma AdmitSnoc(e: seq<Ship>, g: seq<Ship>, reqs: seq<Ship>, i: int)
    requires 0 <= i < |reqs|
    ensures var p := Admit(e, g, reqs[..i]);
            Admit(e, g, reqs[..i + 1]) ==
              if reqs[i].emergency == 1 then (Enq(p.0, reqs[i]), p.1) else (p.0, Enq(p.1, reqs[i]))
  {
    assert reqs[..i + 1][..i] == reqs[..i];
  }

  /** The emergency requests of `reqs`, in order. */
  function Emergencies(reqs: seq<Ship>): (r: seq<Ship>)
    ensures |r| <= |reqs|
    ensures forall i :: 0 <= i < |r| ==> r[i].emergency == 1
    decreases |reqs|
  {
    if reqs == [] then []
    else
      var p := Emergencies(reqs[..|reqs| - 1]);
      if reqs[|reqs| - 1].emergency == 1 then p + [reqs[|reqs| - 1]] else p
  }

  /** The other requests of `reqs`, in order. */
  function Regulars(reqs: seq<Ship>): (r: seq<Ship>)
    ensures |r| <= |reqs|
    ensures forall i :: 0 <= i < |r| ==> r[i].emergency != 1
    decreases |reqs|
  {
    if reqs == [] then []
    else
      var p := Regulars(reqs[..|reqs| - 1]);
      if reqs[|reqs| - 1].emergency != 1 then p + [reqs[|reqs| - 1]] else p
  }

  /** While neither queue can fill up, every request is queued: the emergency
      ones behind the emergency queue and the rest behind the regular one,
      each in arrival order. */
  lemma {:induction false} AdmitUnderCapacity(e: seq<Ship>, g: seq<Ship>, reqs: seq<Ship>)
    requires |e| + |reqs| <= QUEUE_SIZE && |g| + |reqs| <= QUEUE_SIZE
    ensures Admit(e, g, reqs) == (e + Emergencies(reqs), g + Regulars(reqs))
    decreases |reqs|
  {
    if reqs != [] {
      var reqs' := reqs[..|reqs| - 1];
      AdmitUnderCapacity(e, g, reqs');
      var s := reqs[|reqs| - 1];
      assert |Emergencies(reqs')| <= |reqs'| && |Regulars(reqs')| <= |reqs'|;
      if s.emergency == 1 {
        assert e + Emergencies(reqs') + [s] == e + (Emergencies(reqs') + [s]);
      } else {
        assert g + Regulars(reqs') + [s] == g + (Regulars(reqs') + [s]);
      }
    } else {
      assert e + [] == e && g + [] == g;
    }
  }

  /** The registry with no dock marked as docked this tick. */
  function ClearRecent(reg: Registry): (r: Registry)
    ensures r.recent == seq(|reg.recent|, _ => false)
  {
    reg.(recent := seq(|reg.recent|, _ => false))
  }

  /** The tick's two allocation passes: the emergency queue is offered the
      docks with every recent mark cleared, then the regular queue is offered
      the docks that pass leaves. */
  function Passes(cfg: Config, t: int, reqs: seq<Ship>, st: State): (r: (Pass, Pass))
    requires cfg.Valid() && st.reg.Sized(|cfg.cats|)
    ensures r.1.reg.Sized(|cfg.cats|)
  {
    var (e, g) := Admit(st.emergency, st.regular, reqs);
    var a1 := Allocate(cfg.cats, false, t, Pass([], ClearRecent(st.reg), []), e);
    (a1, Allocate(cfg.cats, true, t, Pass([], a1.reg, []), g))
  }

  /** The state after the tick `t` with new requests `reqs`, where
      `correct(dock, guess)` is a solver's verdict on a guess. */
  function Tick(cfg: Config, t: int, reqs: seq<Ship>, correct: (int, seq<char>) -> bool, st: State): (r: State)
    requires cfg.Valid() && st.reg.Sized(|cfg.cats|)
    ensures r.reg.Sized(|cfg.cats|)
  {
    var (a1, a2) := Passes(cfg, t, reqs, st);
    var l := LoadAll(a2.reg, cfg.cranes, t, |cfg.cats|);
    var u := UndockAll(l.0, cfg.m, correct, |cfg.cats|);
    State(u.0, a1.kept, a2.kept, st.log + a1.events + a2.events + l.1 + u.1 + [TickAdvanced])
  }

  /** The docks at the end of a tick, traced through its phases for one dock:
      `a2` after both allocation passes, `l` after loading. */
  lemma TickDock(cfg: Config, t: int, reqs: seq<Ship>, correct: (int, seq<char>) -> bool, st: State, d: int)
    requires cfg.Valid() && st.reg.Sized(|cfg.cats|) && 0 <= d < |cfg.cats|
    ensures var a2 := Passes(cfg, t, reqs, st).1.reg;
            var l := LoadAll(a2, cfg.cranes, t, |cfg.cats|).0;
            l.Sized(|cfg.cats|) &&
            a2.lastTs == st.reg.lastTs && a2.ready == st.reg.ready &&
            (st.reg.status[d] ==> a2.status[d] && a2.ships[d] == st.reg.ships[d] && !a2.recent[d]) &&
            (!st.reg.status[d] ==>
               if a2.status[d] then a2.recent[d] && a2.ships[d].timestep == t
               else a2.ships[d] == st.reg.ships[d]) &&
            l.status == a2.status && l.recent == a2.recent &&
            (var one := LoadDock(a2, cfg.cranes, t, d).0;
             l.ships[d] == one.ships[d] && l.lastTs[d] == one.lastTs[d] && l.ready[d] == one.ready[d]) &&
            Tick(cfg, t, reqs, correct, st).reg == UndockAll(l, cfg.m, correct, |cfg.cats|).0
  {
    var (e, g) := Admit(st.emergency, st.regular, reqs);
    var reg0 := ClearRecent(st.reg);
    var a1 := Allocate(cfg.cats, false, t, Pass([], reg0, []), e);
    var a2 := Allocate(cfg.cats, true, t, Pass([], a1.reg, []), g).reg;
    assert Passes(cfg, t, reqs, st).1.reg == a2;
    LoadAllPointwise(a2, cfg.cranes, t, |cfg.cats|, d);
    if st.reg.status[d] {
      AllocateKeepsOccupied(cfg.cats, false, t, Pass([], reg0, []), e, d);
      AllocateKeepsOccupied(cfg.cats, true, t, Pass([], a1.reg, []), g, d);
    } else {
      AllocateFillsFree(cfg.cats, false, t, Pass([], reg0, []), e, d);
      if a1.reg.status[d] {
        AllocateKeepsOccupied(cfg.cats, true, t, Pass([], a1.reg, []), g, d);
      } else {
        AllocateFillsFree(cfg.cats, true, t, Pass([], a1.reg, []), g, d);
      }
    }
  }

  /** A tick that starts settled ends settled: no dock is left marked ready, and
      every free dock holds the zero record and no cargo timestamp. */
  lemma TickSettles(cfg: Config, t: int, reqs: seq<Ship>, correct: (int, seq<char>) -> bool, st: State)
    requires cfg.Valid() && st.reg.Sized(|cfg.cats|) && st.reg.Settled()
    ensures Tick(cfg, t, reqs, correct, st).reg.Settled()
  {
    var r := Tick(cfg, t, reqs, correct, st).reg;
    forall d | 0 <= d < |cfg.cats|
      ensures !r.ready[d] && (!r.status[d] ==> r.ships[d] == Zero && r.lastTs[d] == -1)
    {
      TickDock(cfg, t, reqs, correct, st, d);
      var l := LoadAll(Passes(cfg, t, reqs, st).1.reg, cfg.cranes, t, |cfg.cats|).0;
      UndockAllAt(l, cfg.m, correct, |cfg.cats|, d);
    }
  }

  /** A ship docked during a tick has no cargo handled and is not undocked in
      that tick: a dock free when the tick starts that the allocation passes
      fill is still occupied at the end of the tick, by the ship allocation
      placed there, stamped with this tick, with no cargo timestamp and not
      ready. */
  lemma NewArrivalWaits(cfg: Config, t: int, reqs: seq<Ship>, correct: (int, seq<char>) -> bool, st: State, d: int)
    requires cfg.Valid() && st.reg.Sized(|cfg.cats|) && st.reg.Settled() && 0 <= d < |cfg.cats|
    requires !st.reg.status[d]
    ensures var a2 := Passes(cfg, t, reqs, st).1.reg;
            var r := Tick(cfg, t, reqs, correct, st).reg;
            a2.status[d] ==>
              r.status[d] && r.ships[d] == a2.ships[d] && r.ships[d].timestep == t &&
              r.lastTs[d] == -1 && !r.ready[d]
  {
    TickDock(cfg, t, reqs, correct, st, d);
    var l := LoadAll(Passes(cfg, t, reqs, st).1.reg, cfg.cranes, t, |cfg.cats|).0;
    UndockAllAt(l, cfg.m, correct, |cfg.cats|, d);
  }

  /** The loading pass changes nothing when every dock is free. */
  lemma {:induction false} LoadAllIdle(reg: Registry, cranes: seq<seq<int>>, t: int, k: nat)
    requires reg.Sized(|cranes|) && k <= |cranes|
    requires forall d :: 0 <= d < |cranes| ==> !reg.status[d]
    ensures LoadAll(reg, cranes, t, k) == (reg, [])
    decreases k
  {
    if k > 0 {
      LoadAllIdle(reg, cranes, t, k - 1);
      assert LoadDock(reg, cranes, t, k - 1) == (reg, []);
      assert LoadAll(reg, cranes, t, k).1 == [] + [];
    }
  }

  /** The undocking pass changes nothing when no dock is ready. */
  lemma {:induction false} UndockAllIdle(reg: Registry, m: nat, correct: (int, seq<char>) -> bool, k: nat)
    requires reg.Sized(|reg.status|) && k <= |reg.status| && m >= 1
    requires forall d :: 0 <= d < |reg.status| ==> !reg.ready[d]
    ensures UndockAll(reg, m, correct, k) == (reg, [])
    decreases k
  {
    if k > 0 {
      UndockAllIdle(reg, m, correct, k - 1);
      assert UndockReady(reg, k - 1, m, correct) == (reg, []);
      assert UndockAll(reg, m, correct, k).1 == [] + [];
    }
  }

  /** A tick with nothing to do, with no requests, both queues empty and every
      dock free, only clears the recent marks and acknowledges the tick. */
  lemma IdleTick(cfg: Config, t: int, correct: (int, seq<char>) -> bool, st: State)
    requires cfg.Valid() && st.reg.Sized(|cfg.cats|) && st.reg.Settled()
    requires st.emergency == [] && st.regular == []
    requires forall d :: 0 <= d < |cfg.cats| ==> !st.reg.status[d]
    ensures Tick(cfg, t, [], correct, st) == State(ClearRecent(st.reg), [], [], st.log + [TickAdvanced])
  {
    var reg0 := ClearRecent(st.reg);
    LoadAllIdle(reg0, cfg.cranes, t, |cfg.cats|);
    UndockAllIdle(reg0, cfg.m, correct, |cfg.cats|);
  }
}
