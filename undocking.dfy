// Undocking: the secret length of a docked ship, the authentication search
// for a ready dock, and the release of the dock once a solver confirms a
// guess; then the pass over all ready docks at the end of a tick.

module Undocking {
  import opened Ships
  import opened Docks
  import opened AuthSearch

  /** Ticks between docking and the last cargo item handled. */
  function SecretLength(reg: Registry, d: int): int
    requires reg.Sized(|reg.status|) && 0 <= d < |reg.status|
  {
    reg.lastTs[d] - reg.ships[d].timestep
  }

  /** A secret length the search accepts: 1 to MAX_AUTH_STRING_LEN - 1. */
  predicate ValidLength(len: int)
  {
    0 < len < MAX_AUTH_STRING_LEN
  }

  /** The registry once dock `d` is released after secret `w` was confirmed. */
  function Released(reg: Registry, d: int, w: seq<char>): (r: Registry)
    requires reg.Sized(|reg.status|) && 0 <= d < |reg.status|
    ensures r.Sized(|reg.status|)
  {
    reg.(status := reg.status[d := false], ready := reg.ready[d := false],
         ships := reg.ships[d := Zero], lastTs := reg.lastTs[d := -1], auth := reg.auth[d := w])
  }

  /** The registry after a search whose confirmed guess, if any, is `winner`:
      released with that secret, or unchanged. */
  function AfterSearch(reg: Registry, d: int, winner: Option<seq<char>>): (r: Registry)
    requires reg.Sized(|reg.status|) && 0 <= d < |reg.status|
    ensures r.Sized(|reg.status|)
  {
    match winner
    case None => reg
    case Some(w) => Released(reg, d, w)
  }

  /** A turn of the generator's loop that follows turns which confirmed
      nothing: if the completions of symbol `i` leave registry `reg` and append
      to the log what the search over them does, then so do the first `i + 1`
      turns, counted from `reg0` and `log0`. */
  lemma GeneratorTurn(dock: int, g: seq<char>, k: nat, i: nat, count0: nat, m: nat,
                      correct: (int, seq<char>) -> bool, shipId: int, direction: int,
                      reg0: Registry, log0: seq<Event>, found: bool, count: nat, reg: Registry, log: seq<Event>)
    requires m >= 1 && i < 6 && reg0.Sized(|reg0.status|) && 0 <= dock < |reg0.status|
    requires GenerateUpTo(dock, g, k, i, count0, m, correct).winner.None?
    requires var o := GenerateUpTo(dock, g, k, i, count0, m, correct);
             var b := Generate(dock, g + [Alphabet[i]], k, o.count, m, correct);
             found == b.winner.Some? && count == b.count && reg == AfterSearch(reg0, dock, b.winner) &&
             log == if found then (log0 + o.sent) + b.sent + [Undocked(dock, shipId, direction)]
                    else (log0 + o.sent) + b.sent
    ensures var o := GenerateUpTo(dock, g, k, i + 1, count0, m, correct);
            found == o.winner.Some? && count == o.count && reg == AfterSearch(reg0, dock, o.winner) &&
            log == if found then log0 + o.sent + [Undocked(dock, shipId, direction)] else log0 + o.sent
  {
    GenerateUpToNext(dock, g, k, i, count0, m, correct);
    var o := GenerateUpTo(dock, g, k, i, count0, m, correct);
    var b := Generate(dock, g + [Alphabet[i]], k, o.count, m, correct);
    assert log0 + o.sent + b.sent == log0 + (o.sent + b.sent);
  }

  /** The generator's loop at a position with `k` positions left ends after
      turn `i` when that turn confirmed a guess or when `i` is the last turn;
      what the turns did is then what the generator does there. */
  lemma GeneratorDone(dock: int, g: seq<char>, k: nat, i: nat, count0: nat, m: nat,
                      correct: (int, seq<char>) -> bool, shipId: int, direction: int,
                      reg0: Registry, log0: seq<Event>, found: bool, count: nat, reg: Registry, log: seq<Event>)
    requires m >= 1 && 0 < k && i <= 6 && reg0.Sized(|reg0.status|) && 0 <= dock < |reg0.status|
    requires found || i == 6
    requires var o := GenerateUpTo(dock, g, k - 1, i, count0, m, correct);
             found == o.winner.Some? && count == o.count && reg == AfterSearch(reg0, dock, o.winner) &&
             log == if found then log0 + o.sent + [Undocked(dock, shipId, direction)] else log0 + o.sent
    ensures var o := Generate(dock, g, k, count0, m, correct);
            found == o.winner.Some? && count == o.count && reg == AfterSearch(reg0, dock, o.winner) &&
            log == if found then log0 + o.sent + [Undocked(dock, shipId, direction)] else log0 + o.sent
  {
    if found {
      GenerateUpToStops(dock, g, k - 1, i, 6, count0, m, correct);
    }
  }

  /** The guesses `0..k-1` of `cands`, the i-th to solver `i % m`. */
  function Guesses(dock: int, cands: seq<seq<char>>, k: nat, m: nat): (r: seq<Event>)
    requires k <= |cands| && m >= 1
    ensures |r| == k
  {
    seq(k, i requires 0 <= i < k => GuessRequest(i % m, dock, cands[i]))
  }

  /** One undocking attempt on dock `d`: an invalid secret length does nothing;
      otherwise every solver is notified, the candidates are sent in order
      until one is confirmed, and a confirmed secret releases the dock. */
  function Undock(reg: Registry, d: int, m: nat, correct: (int, seq<char>) -> bool): (r: (Registry, seq<Event>))
    requires reg.Sized(|reg.status|) && 0 <= d < |reg.status| && m >= 1
    ensures r.0.Sized(|reg.status|)
    ensures r.0 == reg || r.0 == Released(reg, d, r.0.auth[d])
    ensures !ValidLength(SecretLength(reg, d)) ==> r == (reg, [])
  {
    var len := SecretLength(reg, d);
    if !ValidLength(len) then (reg, [])
    else
      var o := Search(d, Candidates(len), 0, m, correct);
      (AfterSearch(reg, d, o.winner),
       if o.winner.Some? then Broadcast(d, m) + o.sent + [Undocked(d, reg.ships[d].shipId, reg.ships[d].direction)]
       else Broadcast(d, m) + o.sent)
  }

  /** An attempt with a valid secret length notifies every solver, sends the
      candidates in order with the k-th to solver `k % m`, and releases the dock
      exactly when some candidate is confirmed, recording the first confirmed
      one; otherwise it sends every candidate and changes nothing. */
  lemma UndockOutcome(reg: Registry, d: int, m: nat, correct: (int, seq<char>) -> bool)
    requires reg.Sized(|reg.status|) && 0 <= d < |reg.status| && m >= 1
    requires ValidLength(SecretLength(reg, d))
    ensures var cands := Candidates(SecretLength(reg, d));
            var r := Undock(reg, d, m, correct);
            if forall k :: 0 <= k < |cands| ==> !correct(d, cands[k]) then
              r == (reg, Broadcast(d, m) + Guesses(d, cands, |cands|, m))
            else
              exists k :: 0 <= k < |cands| && correct(d, cands[k]) &&
                (forall j :: 0 <= j < k ==> !correct(d, cands[j])) &&
                r == (Released(reg, d, cands[k]),
                      Broadcast(d, m) + Guesses(d, cands, k + 1, m) +
                      [Undocked(d, reg.ships[d].shipId, reg.ships[d].direction)])
  {
    var cands := Candidates(SecretLength(reg, d));
    var o := Search(d, cands, 0, m, correct);
    SearchDispatch(d, cands, 0, m, correct);
    SearchStopsAtFirstConfirmed(d, cands, 0, m, correct);
    assert o.sent == Guesses(d, cands, |o.sent|, m);
    if o.winner.Some? {
      var k := |o.sent| - 1;
      assert correct(d, cands[k]);
    }
  }

  /** A released dock holds a secret a solver confirmed: a string of the
      secret length over the alphabet that neither begins nor ends with '.'. */
  lemma ReleasedSecretIsCandidate(reg: Registry, d: int, m: nat, correct: (int, seq<char>) -> bool)
    requires reg.Sized(|reg.status|) && 0 <= d < |reg.status| && m >= 1 && reg.status[d]
    ensures var r := Undock(reg, d, m, correct).0;
            !r.status[d] ==>
              ValidLength(SecretLength(reg, d)) && correct(d, r.auth[d]) &&
              |r.auth[d]| == SecretLength(reg, d) && OverAlphabet(r.auth[d], 0) && Sendable(r.auth[d]) &&
              r == Released(reg, d, r.auth[d])
  {
    var len := SecretLength(reg, d);
    if ValidLength(len) {
      var o := Search(d, Candidates(len), 0, m, correct);
      SearchStopsAtFirstConfirmed(d, Candidates(len), 0, m, correct);
      if o.winner.Some? {
        CandidatesMembers(len, o.winner.value);
      }
    }
  }

  /** The end-of-tick pass over docks `0..k-1`: each ready dock gets one
      undocking attempt, after which its ready and recent flags are cleared
      whether or not it was released. */
  function UndockAll(reg: Registry, m: nat, correct: (int, seq<char>) -> bool, k: nat): (r: (Registry, seq<Event>))
    requires reg.Sized(|reg.status|) && k <= |reg.status| && m >= 1
    ensures r.0.Sized(|reg.status|)
  {
    if k == 0 then (reg, [])
    else
      var p := UndockAll(reg, m, correct, k - 1);
      var q := UndockReady(p.0, k - 1, m, correct);
      (q.0, p.1 + q.1)
  }

  /** The work of the end-of-tick pass on dock `d`: a ready dock gets one
      undocking attempt, after which its ready and recent flags are cleared
      whether or not it was released; any other dock is left alone. */
  function UndockReady(reg: Registry, d: int, m: nat, correct: (int, seq<char>) -> bool): (r: (Registry, seq<Event>))
    requires reg.Sized(|reg.status|) && 0 <= d < |reg.status| && m >= 1
    ensures r.0.Sized(|reg.status|)
  {
    if reg.ready[d] then
      var q := Undock(reg, d, m, correct);
      (q.0.(ready := q.0.ready[d := false], recent := q.0.recent[d := false]), q.1)
    else (reg, [])
  }

  /** After the pass over docks `0..k-1`, dock `d` is untouched unless it was
      visited and ready; a visited ready dock is left neither ready nor recent,
      and either keeps its ship and cargo timestamp or has been released. */
  lemma {:induction false} UndockAllAt(reg: Registry, m: nat, correct: (int, seq<char>) -> bool, k: nat, d: int)
    requires reg.Sized(|reg.status|) && k <= |reg.status| && m >= 1 && 0 <= d < |reg.status|
    ensures var r := UndockAll(reg, m, correct, k).0;
            if d < k && reg.ready[d] then Serviced(reg, r, d) else Untouched(reg, r, d)
    decreases k
  {
    if k > 0 {
      var p := UndockAll(reg, m, correct, k - 1).0;
      var r := UndockAll(reg, m, correct, k).0;
      assert r == UndockReady(p, k - 1, m, correct).0;
      UndockAllAt(reg, m, correct, k - 1, d);
      UndockReadyAt(p, k - 1, m, correct, d);
      ServicedChain(reg, p, r, d, d < k - 1 && reg.ready[d], d == k - 1 && p.ready[d]);
    }
  }

  /** Two steps, each servicing dock `d` (when `a`, resp. `b`) or leaving it
      alone, of which the second does not service it again, service it or
      leave it alone. */
  lemma ServicedChain(reg: Registry, p: Registry, r: Registry, d: int, a: bool, b: bool)
    requires reg.Sized(|reg.status|) && p.Sized(|reg.status|) && r.Sized(|reg.status|) && 0 <= d < |reg.status|
    requires if a then Serviced(reg, p, d) else Untouched(reg, p, d)
    requires if b then Serviced(p, r, d) else Untouched(p, r, d)
    requires a ==> !b
    ensures !a ==> p.ready[d] == reg.ready[d]
    ensures if a || b then Serviced(reg, r, d) else Untouched(reg, r, d)
  {
  }

  /** The work on dock `e` leaves every other dock alone, and services a
      ready dock `e`. */
  lemma UndockReadyAt(reg: Registry, e: int, m: nat, correct: (int, seq<char>) -> bool, d: int)
    requires reg.Sized(|reg.status|) && 0 <= e < |reg.status| && m >= 1 && 0 <= d < |reg.status|
    ensures var r := UndockReady(reg, e, m, correct).0;
            if d == e && reg.ready[d] then Serviced(reg, r, d) else Untouched(reg, r, d)
  {
    if reg.ready[e] {
      var q := Undock(reg, e, m, correct).0;
      if q != reg {
        assert q == Released(reg, e, q.auth[e]);
      }
    }
  }

  /** Dock `d` of `r` is neither ready nor recent, and either keeps the ship
      and cargo timestamp it has in `reg` or has been released. */
  ghost predicate Serviced(reg: Registry, r: Registry, d: int)
    requires reg.Sized(|reg.status|) && r.Sized(|reg.status|) && 0 <= d < |reg.status|
  {
    !r.ready[d] && !r.recent[d] &&
    ((r.status[d] == reg.status[d] && r.ships[d] == reg.ships[d] && r.lastTs[d] == reg.lastTs[d]) ||
     (!r.status[d] && r.ships[d] == Zero && r.lastTs[d] == -1))
  }

  /** Dock `d` is the same in both registries. */
  ghost predicate Untouched(reg: Registry, reg': Registry, d: int)
    requires reg.Sized(|reg.status|) && reg'.Sized(|reg.status|) && 0 <= d < |reg.status|
  {
    reg'.status[d] == reg.status[d] && reg'.recent[d] == reg.recent[d] && reg'.ships[d] == reg.ships[d] &&
    reg'.lastTs[d] == reg.lastTs[d] && reg'.ready[d] == reg.ready[d] && reg'.auth[d] == reg.auth[d]
  }
}
