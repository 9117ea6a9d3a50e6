// The array-backed ship queue of the scheduler: a fixed buffer of QUEUE_SIZE
// records with front and rear cursors `fr` and `rr` (-1 for an empty queue).

module ShipQueue {
  import opened Ships

  class Queue {
    const requests: array<Ship>
    var fr: int
    var rr: int
    /** The queued requests, front first. */
    ghost var items: seq<Ship>

    /** Either both cursors are -1 and nothing is queued, or they delimit the
        non-empty window of the buffer that holds the queued requests. */
    ghost predicate Valid()
      reads this, requests
    {
      requests.Length == QUEUE_SIZE &&
      ((fr == -1 && rr == -1) || (0 <= fr <= rr < QUEUE_SIZE)) &&
      items == if fr == -1 then [] else requests[fr..rr + 1]
    }

    /** A fresh buffer with both cursors reset (InitQ). */
    constructor ()
      ensures Valid() && fresh(requests)
      ensures fr == -1 && rr == -1 && items == []
    {
      requests := new Ship[QUEUE_SIZE];
      fr, rr := -1, -1;
      items := [];
    }

    /** The number of queued requests (queueCount). */
    function Count(): (c: int)
      reads this, requests
      requires Valid()
      ensures c == |items|
      ensures 0 <= c <= QUEUE_SIZE
    {
      if fr == -1 then 0 else rr - fr + 1
    }

    /** Appends `value` at the rear; a queue whose rear cursor is at the last slot is left as it is. */
    method Enqueue(value: Ship)
      requires Valid()
      modifies this, requests
      ensures Valid()
      ensures old(rr) == QUEUE_SIZE - 1 ==>
                fr == old(fr) && rr == old(rr) && items == old(items)
      ensures old(rr) != QUEUE_SIZE - 1 ==>
                fr == (if old(fr) == -1 then 0 else old(fr)) && rr == old(rr) + 1 &&
                items == old(items) + [value]
    {
      if rr == QUEUE_SIZE - 1 {
        return;
      }
      if fr == -1 {
        fr := 0;
      }
      rr := rr + 1;
      requests[rr] := value;
      items := items + [value];
    }

    /** Removes and returns the front request; an empty queue yields the zero record. */
    method Dequeue() returns (item: Ship)
      requires Valid()
      modifies this
      ensures Valid()
      ensures old(items) == [] ==> item == Zero && fr == old(fr) && rr == old(rr)
      ensures old(items) != [] ==>
                item == old(items)[0] && items == old(items)[1..] &&
                (fr == -1 || fr == old(fr) + 1)
    {
      if fr == -1 {
        return Zero;
      }
      item := requests[fr];
      items := items[1..];
      if fr == rr {
        fr, rr := -1, -1;
      } else {
        fr := fr + 1;
      }
    }

    /** Removes the request at buffer position `index`, shifting the later ones
        one slot towards the front; an index outside `fr..rr` changes nothing
        and yields the zero record. */
    method Delete(index: int) returns (del: Ship)
      requires Valid()
      modifies this, requests
      ensures Valid()
      ensures old(fr == -1 || index < fr || index > rr) ==>
                del == Zero && fr == old(fr) && rr == old(rr) && items == old(items)
      ensures old(fr != -1 && fr <= index <= rr) ==>
                del == old(items)[index - old(fr)] &&
                items == old(items)[..index - old(fr)] + old(items)[index - old(fr) + 1..] &&
                (if old(fr == rr) then fr == -1 && rr == -1 else fr == old(fr) && rr == old(rr) - 1)
    {
      if fr == -1 || index < fr || index > rr {
        return Zero;
      }
      var f, r := fr, rr;
      ghost var w := items;
      assert w == requests[f..r + 1];
      del := requests[index];
      assert del == w[index - f];
      ShiftDown(f, index, r, w);
      items := w[..index - f] + w[index - f + 1..];
      rr := r - 1;
      if rr < f {
        assert |items| == 0;
        fr, rr := -1, -1;
      } else {
        assert items == requests[fr..rr + 1];
      }
    }

    /** Moves the requests after `index` one slot towards the front, which
        drops the one at `index` from the window `lo..hi`. */
    method ShiftDown(lo: int, index: int, hi: int, ghost w: seq<Ship>)
      requires 0 <= lo <= index <= hi < requests.Length && requests[lo..hi + 1] == w
      modifies requests
      ensures requests[lo..hi] == w[..index - lo] + w[index - lo + 1..]
    {
      ghost var a := requests[..];
      assert a[lo..hi + 1] == w;
      var i := index;
      while i < hi
        invariant index <= i <= hi
        invariant forall k :: 0 <= k < index ==> requests[k] == a[k]
        invariant forall k :: index <= k < i ==> requests[k] == a[k + 1]
        invariant forall k :: i <= k < requests.Length ==> requests[k] == a[k]
      {
        requests[i] := requests[i + 1];
        i := i + 1;
      }
      ShiftedWindow(a, requests[..], lo, index, hi);
    }
  }

  /** Shifting the part of `a` after `index` one place left removes `a[index]`
      from the window `a[fr..rr]`. */
  lemma ShiftedWindow(a: seq<Ship>, b: seq<Ship>, fr: int, index: int, rr: int)
    requires |a| == |b| && 0 <= fr <= index <= rr < |a|
    requires forall k :: fr <= k < index ==> b[k] == a[k]
    requires forall k :: index <= k < rr ==> b[k] == a[k + 1]
    ensures b[fr..rr] == a[fr..rr + 1][..index - fr] + a[fr..rr + 1][index - fr + 1..]
  {
    var w := a[fr..rr + 1];
    assert |b[fr..rr]| == |w[..index - fr] + w[index - fr + 1..]|;
    forall k | 0 <= k < rr - fr
      ensures b[fr..rr][k] == (w[..index - fr] + w[index - fr + 1..])[k]
    {
      if k < index - fr {
        assert b[fr + k] == a[fr + k];
      } else {
        assert b[fr + k] == a[fr + k + 1];
      }
    }
  }

  /** The element at position `|kept|` of `kept + ships[j..]` is `ships[j]`;
      removing it, or moving it into `kept`, advances `j`. */
  lemma SplitAt(kept: seq<Ship>, ships: seq<Ship>, j: int)
    requires 0 <= j < |ships|
    ensures var w := kept + ships[j..];
            |kept| < |w| && w[|kept|] == ships[j] &&
            w[..|kept|] + w[|kept| + 1..] == kept + ships[j + 1..] &&
            w == (kept + [ships[j]]) + ships[j + 1..]
  {
    var w := kept + ships[j..];
    assert w[..|kept|] == kept;
    assert w[|kept| + 1..] == ships[j + 1..];
  }

  /** A scan that has reached the end of the queue, which holds the `kept`
      ships followed by `ships[j..]`, has visited every ship. */
  lemma ScanDone(kept: seq<Ship>, ships: seq<Ship>, j: int, items: seq<Ship>)
    requires 0 <= j <= |ships| && items == kept + ships[j..] && |items| <= |kept|
    ensures j == |ships| && ships[..j] == ships
  {
  }
}
