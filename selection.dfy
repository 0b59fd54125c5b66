/**
  The active-item rule of the calendar's refresh, stated on closed intervals
  of instants: an item is active when `now` lies in its interval, and the one
  chosen is the active item that ends soonest, the earliest in list order
  among those ending at the same instant.
*/
module Selection {
  import opened Optional

  /** The closed interval [start, end] of instants an item covers. */
  datatype Span = Span(start: int, end: int)

  predicate Active(s: Span, now: int) {
    s.start <= now <= s.end
  }

  /**
    Index `k` is the one to show: it is active, no active span ends earlier,
    and every active span before it ends strictly later.
  */
  predicate Chosen(spans: seq<Span>, now: int, k: int) {
    && 0 <= k < |spans|
    && Active(spans[k], now)
    && (forall j :: 0 <= j < |spans| && Active(spans[j], now) ==> spans[k].end <= spans[j].end)
    && (forall j :: 0 <= j < k && Active(spans[j], now) ==> spans[k].end < spans[j].end)
  }

  /**
    The refresh scan as a fold over the list: skip a span that ended before
    `now` or starts after it; take the first survivor, and later replace the
    running best only by a span that ends strictly earlier.
  */
  function Select(spans: seq<Span>, now: int): (r: Option<nat>)
    ensures r.None? <==> forall j :: 0 <= j < |spans| ==> !Active(spans[j], now)
    ensures r.Some? ==> Chosen(spans, now, r.value)
    decreases |spans|
  {
    if |spans| == 0 then None
    else
      var n := |spans| - 1;
      var s := spans[n];
      var best := Select(spans[..n], now);
      assert forall j :: 0 <= j < n ==> spans[..n][j] == spans[j];
      if s.end < now || s.start > now then best
      else if best.None? then Some(n)
      else if spans[best.value].end > s.end then Some(n)
      else best
  }

  /** One more step of the scan: what `update`'s loop does with the next span. */
  lemma SelectStep(spans: seq<Span>, now: int, i: int)
    requires 0 <= i < |spans|
    ensures Select(spans[..i + 1], now) ==
      var s, best := spans[i], Select(spans[..i], now);
      if s.end < now || s.start > now then best
      else if best.None? then Some(i)
      else if spans[best.value].end > s.end then Some(i)
      else best
  {
    var prefix := spans[..i + 1];
    assert prefix[..i] == spans[..i];
    var best := Select(spans[..i], now);
    assert best.Some? ==> best.value < i && prefix[best.value] == spans[best.value];
  }

  /** At most one index meets Chosen, so Select finds exactly that one. */
  lemma SelectIsChosen(spans: seq<Span>, now: int, k: int)
    ensures Select(spans, now) == Some(k) <==> Chosen(spans, now, k)
  {
  }

  /** With exactly one active span, that span is selected. */
  lemma SoleActiveIsSelected(spans: seq<Span>, now: int, k: int)
    requires 0 <= k < |spans| && Active(spans[k], now)
    requires forall j :: 0 <= j < |spans| && j != k ==> !Active(spans[j], now)
    ensures Select(spans, now) == Some(k)
  {
  }

  /** Of two active spans, the one ending strictly later is never selected. */
  lemma EarlierEndWins(spans: seq<Span>, now: int, i: int, j: int)
    requires 0 <= i < |spans| && 0 <= j < |spans|
    requires Active(spans[i], now) && Active(spans[j], now)
    requires spans[i].end < spans[j].end
    ensures Select(spans, now) != Some(j)
  {
  }

  /** Among active spans with the same end, an earlier one beats a later one. */
  lemma TieGoesToEarlier(spans: seq<Span>, now: int, i: int, j: int)
    requires 0 <= i < j < |spans|
    requires Active(spans[i], now) && Active(spans[j], now)
    requires spans[i].end == spans[j].end
    ensures Select(spans, now) != Some(j)
  {
  }

  /** No two active spans end at the same instant. */
  predicate DistinctActiveEnds(spans: seq<Span>, now: int) {
    forall p, q :: 0 <= p < q < |spans| && Active(spans[p], now) && Active(spans[q], now) ==>
      spans[p].end != spans[q].end
  }

  /** Every span of `a` also in `b`: `b` picks something whose end is no later. */
  lemma PickInSuperset(a: seq<Span>, b: seq<Span>, now: int)
    requires forall x :: x in a ==> x in b
    ensures Select(a, now).Some? ==>
              Select(b, now).Some? && b[Select(b, now).value].end <= a[Select(a, now).value].end
  {
    var ra := Select(a, now);
    if ra.Some? {
      var x := a[ra.value];
      assert x in b;
      var j :| 0 <= j < |b| && b[j] == x;
      assert Active(b[j], now);
    }
  }

  /**
    List order matters only for ties: two lists holding the same spans agree on
    whether anything is active and on the end of the span picked, and when no
    two active spans end together they pick the same span.
  */
  lemma OrderMattersOnlyForTies(a: seq<Span>, b: seq<Span>, now: int)
    requires multiset(a) == multiset(b)
    ensures Select(a, now).None? <==> Select(b, now).None?
    ensures Select(a, now).Some? ==>
              a[Select(a, now).value].end == b[Select(b, now).value].end
    ensures Select(a, now).Some? && DistinctActiveEnds(a, now) ==>
              a[Select(a, now).value] == b[Select(b, now).value]
  {
    forall x | x in a ensures x in b {
      assert x in multiset(a);
    }
    forall x | x in b ensures x in a {
      assert x in multiset(b);
    }
    PickInSuperset(a, b, now);
    PickInSuperset(b, a, now);
    var ra, rb := Select(a, now), Select(b, now);
    if ra.Some? && DistinctActiveEnds(a, now) {
      var y := b[rb.value];
      assert y in a;
      var p :| 0 <= p < |a| && a[p] == y;
      DistinctEndsPick(a, now, p);
    }
  }

  /** When no two active spans end together, the pick is the only active span with its end. */
  lemma DistinctEndsPick(a: seq<Span>, now: int, p: int)
    requires 0 <= p < |a| && Active(a[p], now)
    requires DistinctActiveEnds(a, now)
    requires Select(a, now).Some? && a[p].end == a[Select(a, now).value].end
    ensures p == Select(a, now).value
  {
  }

  /**
    Both bounds are inclusive: a span that starts exactly at `now`, or ends
    exactly at `now`, is not skipped, so the scan keeps a span and the one it
    keeps ends no later than it.
  */
  lemma BoundsAreInclusive(spans: seq<Span>, now: int, k: int)
    requires 0 <= k < |spans| && spans[k].start <= spans[k].end
    requires now == spans[k].start || now == spans[k].end
    ensures Select(spans, now).Some? && spans[Select(spans, now).value].end <= spans[k].end
  {
    assert Active(spans[k], now);
  }
}
