// What the undocking search sends: the order in which the recursive generator
// of `undocking` produces candidate secrets, which of them it sends, and the
// round-robin dispatch of those guesses to the solver pool.

module AuthSearch {
  import opened Ships

  /** The symbols of a secret, in the order the generator tries them at each position. */
  const Alphabet: seq<char> := ['5', '6', '7', '8', '9', '.']

  /** Position of a symbol in `Alphabet` (6 for any other character). */
  function Rank(c: char): (r: nat)
    ensures r < 6 <==> c in Alphabet
    ensures r < 6 ==> Alphabet[r] == c
  {
    if c == '5' then 0 else if c == '6' then 1 else if c == '7' then 2
    else if c == '8' then 3 else if c == '9' then 4 else if c == '.' then 5 else 6
  }

  function Pow6(k: nat): nat
  {
    if k == 0 then 1 else 6 * Pow6(k - 1)
  }

  /** Every character of `s` from position `from` on belongs to the alphabet. */
  ghost predicate OverAlphabet(s: seq<char>, from: nat)
  {
    forall j :: from <= j < |s| ==> s[j] in Alphabet
  }

  /** Lexicographic order by alphabet position, first position most significant. */
  predicate LexLess(x: seq<char>, y: seq<char>)
  {
    |x| > 0 && |y| > 0 &&
    (Rank(x[0]) < Rank(y[0]) || (x[0] == y[0] && LexLess(x[1..], y[1..])))
  }

  /** Strictly increasing in `LexLess`. */
  ghost predicate Sorted(ss: seq<seq<char>>)
  {
    forall i, j :: 0 <= i < j < |ss| ==> LexLess(ss[i], ss[j])
  }

  /** The strings `p + w`, `w` any `k` symbols of the alphabet, in the order in
      which the generator, holding `p` in its buffer, reaches them. */
  function Completions(p: seq<char>, k: nat): seq<seq<char>>
    decreases k, 0
  {
    if k == 0 then [p] else Spread(p, k - 1, 6)
  }

  /** The completions of `p` extended by each of the first `i` symbols in turn. */
  function Spread(p: seq<char>, k: nat, i: nat): seq<seq<char>>
    requires i <= 6
    decreases k, 1, i
  {
    if i == 0 then [] else Spread(p, k, i - 1) + Completions(p + [Alphabet[i - 1]], k)
  }

  /** The strings of length `len` the generator reaches, in order. */
  function Words(len: nat): seq<seq<char>>
  {
    Completions([], len)
  }

  /** A string is sent to a solver unless it begins or ends with '.'. */
  predicate Sendable(s: seq<char>)
  {
    |s| > 0 && s[0] != '.' && s[|s| - 1] != '.'
  }

  /** The sendable strings of `ss`, in order. */
  function Filter(ss: seq<seq<char>>): (r: seq<seq<char>>)
    ensures |r| <= |ss|
  {
    if ss == [] then []
    else (if Sendable(ss[0]) then [ss[0]] else []) + Filter(ss[1..])
  }

  /** The guesses the undocking search sends for a secret of length `len`, in order. */
  function Candidates(len: nat): seq<seq<char>>
  {
    Filter(Words(len))
  }

  /** What a search sends, the guess a solver confirmed (if any), and the
      dispatch counter after it. */
  datatype Outcome = Outcome(sent: seq<Event>, winner: Option<seq<char>>, count: nat)

  /** Sends `cands` in order, the one with counter value `c` to solver `c % m`,
      and stops after the first guess that `correct` confirms. */
  function Search(dock: int, cands: seq<seq<char>>, count: nat, m: nat,
                  correct: (int, seq<char>) -> bool): (r: Outcome)
    requires m >= 1
    ensures r.count == count + |r.sent| && |r.sent| <= |cands|
    ensures r.winner.None? ==> |r.sent| == |cands|
    ensures r.winner.Some? ==> |r.sent| > 0 && r.winner.value == cands[|r.sent| - 1]
    decreases |cands|
  {
    if cands == [] then Outcome([], None, count)
    else
      var guess := GuessRequest(count % m, dock, cands[0]);
      if correct(dock, cands[0]) then Outcome([guess], Some(cands[0]), count + 1)
      else
        var rest := Search(dock, cands[1..], count + 1, m, correct);
        Outcome([guess] + rest.sent, rest.winner, rest.count)
  }

  /** The generator's own recursion, as a value: with `g` in the buffer and
      `k` positions still to fill, every completion is tried in order; a
      complete guess is sent to solver `count % m` unless it begins or ends
      with '.', and the first confirmed guess stops the generator. */
  function Generate(dock: int, g: seq<char>, k: nat, count: nat, m: nat,
                    correct: (int, seq<char>) -> bool): (r: Outcome)
    requires m >= 1
    ensures r.count == count + |r.sent|
    decreases k, 0
  {
    if k == 0 then
      if Sendable(g) then
        Outcome([GuessRequest(count % m, dock, g)], if correct(dock, g) then Some(g) else None, count + 1)
      else Outcome([], None, count)
    else GenerateUpTo(dock, g, k - 1, 6, count, m, correct)
  }

  /** The first `i` turns of the generator's loop at position `|g|`: symbol
      `c` is placed there and the `k` positions after it are filled in turn,
      until a guess is confirmed. */
  function GenerateUpTo(dock: int, g: seq<char>, k: nat, i: nat, count: nat, m: nat,
                        correct: (int, seq<char>) -> bool): (r: Outcome)
    requires m >= 1 && i <= 6
    ensures r.count == count + |r.sent|
    decreases k, 1, i
  {
    if i == 0 then Outcome([], None, count)
    else
      var a := GenerateUpTo(dock, g, k, i - 1, count, m, correct);
      if a.winner.Some? then a
      else
        var b := Generate(dock, g + [Alphabet[i - 1]], k, a.count, m, correct);
        Outcome(a.sent + b.sent, b.winner, b.count)
  }

  /** A generator that confirms a guess stops right after sending it: the
      winner was confirmed and is the last guess sent, to solver
      `(count - 1) % m` for the final counter. */
  lemma {:induction false} GenerateEndsWithWinner(dock: int, g: seq<char>, k: nat, count: nat, m: nat,
                                                  correct: (int, seq<char>) -> bool)
    requires m >= 1
    ensures var r := Generate(dock, g, k, count, m, correct);
            r.winner.Some? ==>
              correct(dock, r.winner.value) && r.sent != [] &&
              r.sent[|r.sent| - 1] == GuessRequest((r.count - 1) % m, dock, r.winner.value)
    decreases k, 0
  {
    if k > 0 {
      GenerateUpToEndsWithWinner(dock, g, k - 1, 6, count, m, correct);
    }
  }

  /** The same for the first `i` turns of the generator's loop. */
  lemma {:induction false} GenerateUpToEndsWithWinner(dock: int, g: seq<char>, k: nat, i: nat, count: nat, m: nat,
                                                      correct: (int, seq<char>) -> bool)
    requires m >= 1 && i <= 6
    ensures var r := GenerateUpTo(dock, g, k, i, count, m, correct);
            r.winner.Some? ==>
              correct(dock, r.winner.value) && r.sent != [] &&
              r.sent[|r.sent| - 1] == GuessRequest((r.count - 1) % m, dock, r.winner.value)
    decreases k, 1, i
  {
    if i > 0 {
      GenerateUpToEndsWithWinner(dock, g, k, i - 1, count, m, correct);
      var a := GenerateUpTo(dock, g, k, i - 1, count, m, correct);
      if a.winner.None? {
        GenerateEndsWithWinner(dock, g + [Alphabet[i - 1]], k, a.count, m, correct);
      }
    }
  }

  /** A turn of the loop after turns that confirmed nothing tries the
      completions of the next symbol, continuing the dispatch counter. */
  lemma GenerateUpToNext(dock: int, g: seq<char>, k: nat, i: nat, count: nat, m: nat,
                         correct: (int, seq<char>) -> bool)
    requires m >= 1 && i < 6
    requires GenerateUpTo(dock, g, k, i, count, m, correct).winner.None?
    ensures var a := GenerateUpTo(dock, g, k, i, count, m, correct);
            var b := Generate(dock, g + [Alphabet[i]], k, a.count, m, correct);
            GenerateUpTo(dock, g, k, i + 1, count, m, correct) == Outcome(a.sent + b.sent, b.winner, b.count)
  {
  }

  /** Once a turn of the loop has confirmed a guess, the later turns do
      nothing. */
  lemma {:induction false} GenerateUpToStops(dock: int, g: seq<char>, k: nat, i: nat, j: nat, count: nat, m: nat,
                                             correct: (int, seq<char>) -> bool)
    requires m >= 1 && i <= j <= 6
    requires GenerateUpTo(dock, g, k, i, count, m, correct).winner.Some?
    ensures GenerateUpTo(dock, g, k, j, count, m, correct) == GenerateUpTo(dock, g, k, i, count, m, correct)
    decreases j
  {
    if i < j {
      GenerateUpToStops(dock, g, k, i, j - 1, count, m, correct);
    }
  }

  /** The generator sends exactly the search of the sendable completions of
      `g`, in the order they are reached. */
  lemma {:induction false} GenerateIsSearch(dock: int, g: seq<char>, k: nat, count: nat, m: nat,
                                            correct: (int, seq<char>) -> bool)
    requires m >= 1
    ensures Generate(dock, g, k, count, m, correct) == Search(dock, Filter(Completions(g, k)), count, m, correct)
    decreases k, 0
  {
    if k == 0 {
      assert [g][1..] == [];
      if Sendable(g) {
        assert Filter([g]) == [g] + Filter([]);
      } else {
        assert Filter([g]) == [] + Filter([]);
      }
    } else {
      GenerateUpToIsSearch(dock, g, k - 1, 6, count, m, correct);
    }
  }

  /** The first `i` turns of the loop send the search of the sendable strings
      among the first `i` blocks of the spread. */
  lemma {:induction false} GenerateUpToIsSearch(dock: int, g: seq<char>, k: nat, i: nat, count: nat, m: nat,
                                                correct: (int, seq<char>) -> bool)
    requires m >= 1 && i <= 6
    ensures GenerateUpTo(dock, g, k, i, count, m, correct) == Search(dock, Filter(Spread(g, k, i)), count, m, correct)
    decreases k, 1, i
  {
    if i > 0 {
      GenerateUpToIsSearch(dock, g, k, i - 1, count, m, correct);
      var head, block := Spread(g, k, i - 1), Completions(g + [Alphabet[i - 1]], k);
      FilterAppend(head, block);
      SearchAppend(dock, Filter(head), Filter(block), count, m, correct);
      var a := Search(dock, Filter(head), count, m, correct);
      if a.winner.None? {
        GenerateIsSearch(dock, g + [Alphabet[i - 1]], k, a.count, m, correct);
      }
    }
  }

  /** The k-th guess a search sends is the k-th candidate, and goes to solver
      `(count + k) % m`. */
  lemma {:induction false} SearchDispatch(dock: int, cands: seq<seq<char>>, count: nat, m: nat,
                                          correct: (int, seq<char>) -> bool)
    requires m >= 1
    ensures var r := Search(dock, cands, count, m, correct);
            forall k :: 0 <= k < |r.sent| ==> r.sent[k] == GuessRequest((count + k) % m, dock, cands[k])
    decreases |cands|
  {
    if cands != [] && !correct(dock, cands[0]) {
      SearchDispatch(dock, cands[1..], count + 1, m, correct);
      var rest := Search(dock, cands[1..], count + 1, m, correct);
      var sent := [GuessRequest(count % m, dock, cands[0])] + rest.sent;
      forall k | 0 < k < |sent|
        ensures sent[k] == GuessRequest((count + k) % m, dock, cands[k])
      {
        assert sent[k] == rest.sent[k - 1];
        assert cands[1..][k - 1] == cands[k];
      }
    }
  }

  /** A search stops exactly at the first candidate `correct` confirms; it sends
      every candidate when none is confirmed. */
  lemma {:induction false} SearchStopsAtFirstConfirmed(dock: int, cands: seq<seq<char>>, count: nat, m: nat,
                                                       correct: (int, seq<char>) -> bool)
    requires m >= 1
    ensures var r := Search(dock, cands, count, m, correct);
            (forall k :: 0 <= k < |r.sent| - 1 ==> !correct(dock, cands[k])) &&
            (r.winner.Some? ==> correct(dock, r.winner.value)) &&
            (r.winner.None? ==> forall k :: 0 <= k < |cands| ==> !correct(dock, cands[k]))
    decreases |cands|
  {
    if cands != [] && !correct(dock, cands[0]) {
      SearchStopsAtFirstConfirmed(dock, cands[1..], count + 1, m, correct);
      forall k | 1 <= k < |cands| ensures cands[1..][k - 1] == cands[k] { }
    }
  }

  /** The dock-active notification sent to each of the `m` solvers, solver 0 first. */
  function Broadcast(dock: int, m: nat): (r: seq<Event>)
    ensures |r| == m && forall i :: 0 <= i < m ==> r[i] == DockNotify(i, dock)
  {
    if m == 0 then [] else Broadcast(dock, m - 1) + [DockNotify(m - 1, dock)]
  }

  // ---------------------------------------------------------------------
  // Searching a concatenation

  /** Searching `a + b` searches `a`, and goes on into `b` only if `a` held no winner. */
  lemma {:induction false} SearchAppend(dock: int, a: seq<seq<char>>, b: seq<seq<char>>, count: nat, m: nat,
                                        correct: (int, seq<char>) -> bool)
    requires m >= 1
    ensures var ra := Search(dock, a, count, m, correct);
            Search(dock, a + b, count, m, correct) ==
              if ra.winner.Some? then ra
              else var rb := Search(dock, b, ra.count, m, correct);
                   Outcome(ra.sent + rb.sent, rb.winner, rb.count)
    decreases |a|
  {
    if a == [] {
      assert a + b == b;
    } else {
      assert (a + b)[0] == a[0];
      assert (a + b)[1..] == a[1..] + b;
      var g := GuessRequest(count % m, dock, a[0]);
      if !correct(dock, a[0]) {
        SearchAppend(dock, a[1..], b, count + 1, m, correct);
        var ra := Search(dock, a[1..], count + 1, m, correct);
        var rab := Search(dock, a[1..] + b, count + 1, m, correct);
        var whole := Search(dock, a + b, count, m, correct);
        var first := Search(dock, a, count, m, correct);
        assert first == Outcome([g] + ra.sent, ra.winner, ra.count);
        assert whole == Outcome([g] + rab.sent, rab.winner, rab.count);
        if ra.winner.None? {
          var rb := Search(dock, b, ra.count, m, correct);
          assert rab == Outcome(ra.sent + rb.sent, rb.winner, rb.count);
          assert [g] + (ra.sent + rb.sent) == ([g] + ra.sent) + rb.sent;
          assert whole == Outcome(first.sent + rb.sent, rb.winner, rb.count);
        } else {
          assert rab == ra;
        }
      }
    }
  }

  /** Filtering distributes over concatenation. */
  lemma {:induction false} FilterAppend(a: seq<seq<char>>, b: seq<seq<char>>)
    ensures Filter(a + b) == Filter(a) + Filter(b)
    decreases |a|
  {
    if a == [] {
      assert a + b == b;
    } else {
      assert (a + b)[0] == a[0];
      assert (a + b)[1..] == a[1..] + b;
      FilterAppend(a[1..], b);
      var head := if Sendable(a[0]) then [a[0]] else [];
      calc {
        Filter(a + b);
        head + Filter(a[1..] + b);
        head + (Filter(a[1..]) + Filter(b));
        (head + Filter(a[1..])) + Filter(b);
      }
    }
  }

  /** `Filter` keeps exactly the sendable members. */
  lemma {:induction false} FilterMembers(ss: seq<seq<char>>)
    ensures forall s :: s in Filter(ss) <==> s in ss && Sendable(s)
    decreases |ss|
  {
    if ss != [] {
      FilterMembers(ss[1..]);
      assert ss == [ss[0]] + ss[1..];
    }
  }

  // ---------------------------------------------------------------------
  // What the generator produces

  /** Each completion of `p` by `k` symbols has length `|p| + k`, starts with
      `p` and continues over the alphabet; there are 6^k of them. */
  lemma {:induction false} CompletionsShape(p: seq<char>, k: nat)
    ensures |Completions(p, k)| == Pow6(k)
    ensures forall s :: s in Completions(p, k) ==> Extends(s, p, k)
    decreases k, 0
  {
    if k > 0 {
      SpreadShape(p, k - 1, 6);
      forall s | s in Completions(p, k) ensures Extends(s, p, k) {
        assert Extends(s, p, k - 1 + 1);
      }
    }
  }

  /** `s` is `p` followed by `k` symbols of the alphabet. */
  ghost predicate Extends(s: seq<char>, p: seq<char>, k: nat)
  {
    |s| == |p| + k && s[..|p|] == p && OverAlphabet(s, |p|)
  }

  lemma {:induction false} SpreadShape(p: seq<char>, k: nat, i: nat)
    requires i <= 6
    ensures |Spread(p, k, i)| == i * Pow6(k)
    ensures forall s :: s in Spread(p, k, i) ==> Extends(s, p, k + 1) && Rank(s[|p|]) < i
    decreases k, 1, i
  {
    if i > 0 {
      var q := p + [Alphabet[i - 1]];
      var a, b := Spread(p, k, i - 1), Completions(q, k);
      SpreadShape(p, k, i - 1);
      CompletionsShape(q, k);
      assert Spread(p, k, i) == a + b;
      assert |a + b| == (i - 1) * Pow6(k) + Pow6(k) == i * Pow6(k);
      forall s | s in a + b
        ensures Extends(s, p, k + 1) && Rank(s[|p|]) < i
      {
        if s !in a {
          ExtendedPrefix(p, Alphabet[i - 1], s, k);
        }
      }
    }
  }

  /** A string that extends `p + [c]` extends `p`, with `c` next. */
  lemma ExtendedPrefix(p: seq<char>, c: char, s: seq<char>, k: nat)
    requires c in Alphabet && Extends(s, p + [c], k)
    ensures Extends(s, p, k + 1) && s[|p|] == c
  {
    assert s[..|p|] == s[..|p| + 1][..|p|];
    assert s[|p|] == s[..|p| + 1][|p|];
  }

  /** Every string over the alphabet that extends `p` is reached. */
  lemma {:induction false} CompletionsComplete(p: seq<char>, w: seq<char>)
    requires OverAlphabet(w, 0)
    ensures p + w in Completions(p, |w|)
    decreases |w|
  {
    if w == [] {
      assert p + w == p;
    } else {
      assert w[0] in Alphabet;
      var c := Rank(w[0]);
      var q := p + [Alphabet[c]];
      assert q == p + [w[0]];
      assert OverAlphabet(w[1..], 0) by {
        forall j | 0 <= j < |w[1..]| ensures w[1..][j] in Alphabet {
          assert w[1..][j] == w[j + 1];
        }
      }
      CompletionsComplete(q, w[1..]);
      assert q + w[1..] == p + ([w[0]] + w[1..]) == p + w;
      assert Completions(p, |w|) == Spread(p, |w| - 1, 6);
      assert p + w in Completions(q, |w| - 1);
      SpreadContains(p, |w| - 1, 6, c);
      assert p + w in Spread(p, |w| - 1, 6);
    }
  }

  /** The block of completions that extend `p` by symbol `c` lies inside every spread past `c`. */
  lemma {:induction false} SpreadContains(p: seq<char>, k: nat, i: nat, c: nat)
    requires c < i <= 6
    ensures forall s :: s in Completions(p + [Alphabet[c]], k) ==> s in Spread(p, k, i)
    decreases i
  {
    if c < i - 1 {
      SpreadContains(p, k, i - 1, c);
    }
  }

  /** Two strings that agree on `p` and then differ in a symbol of lower rank are ordered. */
  lemma {:induction false} PrefixLess(p: seq<char>, x: seq<char>, y: seq<char>)
    requires |x| > |p| && |y| > |p| && x[..|p|] == p && y[..|p|] == p
    requires Rank(x[|p|]) < Rank(y[|p|])
    ensures LexLess(x, y)
    decreases |p|
  {
    if |p| > 0 {
      assert x[0] == p[0] == y[0];
      assert x[1..][..|p| - 1] == p[1..] == y[1..][..|p| - 1];
      PrefixLess(p[1..], x[1..], y[1..]);
    }
  }

  /** A concatenation of two sorted sequences, every element of the first below
      every element of the second, is sorted. */
  lemma SortedAppend(a: seq<seq<char>>, b: seq<seq<char>>)
    requires Sorted(a) && Sorted(b)
    requires forall x, y :: x in a && y in b ==> LexLess(x, y)
    ensures Sorted(a + b)
  {
    forall i, j | 0 <= i < j < |a + b|
      ensures LexLess((a + b)[i], (a + b)[j])
    {
      if j < |a| {
        assert (a + b)[i] == a[i] && (a + b)[j] == a[j];
      } else if i >= |a| {
        assert (a + b)[i] == b[i - |a|] && (a + b)[j] == b[j - |a|];
      } else {
        assert (a + b)[i] in a && (a + b)[j] in b;
      }
    }
  }

  /** The generator reaches the completions of `p` in strictly increasing order. */
  lemma {:induction false} CompletionsSorted(p: seq<char>, k: nat)
    ensures Sorted(Completions(p, k))
    decreases k, 0
  {
    if k > 0 {
      SpreadSorted(p, k - 1, 6);
    }
  }

  lemma {:induction false} SpreadSorted(p: seq<char>, k: nat, i: nat)
    requires i <= 6
    ensures Sorted(Spread(p, k, i))
    decreases k, 1, i
  {
    if i > 0 {
      var q := p + [Alphabet[i - 1]];
      var a, b := Spread(p, k, i - 1), Completions(q, k);
      SpreadSorted(p, k, i - 1);
      CompletionsSorted(q, k);
      SpreadShape(p, k, i - 1);
      CompletionsShape(q, k);
      forall x, y | x in a && y in b
        ensures LexLess(x, y)
      {
        ExtendedPrefix(p, Alphabet[i - 1], y, k);
        PrefixLess(p, x, y);
      }
      SortedAppend(a, b);
    }
  }

  /** Filtering keeps a sorted sequence sorted. */
  lemma {:induction false} FilterSorted(ss: seq<seq<char>>)
    requires Sorted(ss)
    ensures Sorted(Filter(ss))
    decreases |ss|
  {
    if ss != [] {
      assert Sorted(ss[1..]) by {
        forall i, j | 0 <= i < j < |ss[1..]| ensures LexLess(ss[1..][i], ss[1..][j]) {
          assert ss[1..][i] == ss[i + 1] && ss[1..][j] == ss[j + 1];
        }
      }
      FilterSorted(ss[1..]);
      FilterMembers(ss[1..]);
      var head := if Sendable(ss[0]) then [ss[0]] else [];
      forall x, y | x in head && y in Filter(ss[1..])
        ensures LexLess(x, y)
      {
        var j :| 0 <= j < |ss[1..]| && ss[1..][j] == y;
        assert ss[j + 1] == y;
      }
      SortedAppend(head, Filter(ss[1..]));
    }
  }

  /** No string is below itself, so a sorted sequence has no repeats. */
  lemma {:induction false} LexLessIrreflexive(x: seq<char>)
    ensures !LexLess(x, x)
    decreases |x|
  {
    if |x| > 0 {
      LexLessIrreflexive(x[1..]);
    }
  }

  // ---------------------------------------------------------------------
  // The candidate list of the undocking search

  /** The candidates for a secret of length `len` are exactly the strings of
      that length over the alphabet that neither begin nor end with '.'. */
  lemma CandidatesMembers(len: nat, s: seq<char>)
    ensures s in Candidates(len) <==> |s| == len && OverAlphabet(s, 0) && Sendable(s)
  {
    FilterMembers(Words(len));
    CompletionsShape([], len);
    if |s| == len && OverAlphabet(s, 0) {
      CompletionsComplete([], s);
      assert [] + s == s;
    }
  }

  /** The candidates come in strictly increasing lexicographic order of
      alphabet position, position 0 varying slowest, hence without repeats. */
  lemma CandidatesOrdered(len: nat)
    ensures Sorted(Candidates(len))
    ensures forall i, j :: 0 <= i < j < |Candidates(len)| ==> Candidates(len)[i] != Candidates(len)[j]
  {
    CompletionsSorted([], len);
    FilterSorted(Words(len));
    forall i, j | 0 <= i < j < |Candidates(len)|
      ensures Candidates(len)[i] != Candidates(len)[j]
    {
      LexLessIrreflexive(Candidates(len)[i]);
    }
  }
}
