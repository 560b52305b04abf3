/**
 * A value drawn from a table of (value, occurrences) events: a uniform draw
 * below the total number of occurrences is mapped to an event by walking the
 * running total of occurrences.
 */
module Weighted {
  import opened Outcomes

  datatype Event = Event(value: int, occurrences: int)

  datatype DrawError =
    | NonPositiveTotal       // the uniform draw needs a positive bound
    | EventIndexOutOfRange   // the walk passes the last event

  /** Occurrences of events 0..k-1. */
  function Prefix(events: seq<Event>, k: nat): int
    requires k <= |events|
  {
    if k == 0 then 0 else Prefix(events, k - 1) + events[k - 1].occurrences
  }

  function Total(events: seq<Event>): int
  {
    Prefix(events, |events|)
  }

  ghost predicate NonNegative(events: seq<Event>)
  {
    forall j :: 0 <= j < |events| ==> events[j].occurrences >= 0
  }

  ghost predicate Positive(events: seq<Event>)
  {
    forall j :: 0 <= j < |events| ==> events[j].occurrences > 0
  }

  lemma {:induction false} PrefixMonotone(events: seq<Event>, a: nat, b: nat)
    requires NonNegative(events) && a <= b <= |events|
    ensures 0 <= Prefix(events, a) <= Prefix(events, b)
    ensures Positive(events) ==> (a < b <==> Prefix(events, a) < Prefix(events, b))
    decreases b
  {
    if b > 0 {
      if a < b {
        PrefixMonotone(events, a, b - 1);
      } else {
        PrefixMonotone(events, a - 1, a - 1);
      }
    }
  }

  /**
   * The event the walk returns for the draw `rand`: event 0 for a draw of 0,
   * otherwise the event j whose running totals satisfy
   * Prefix(j) < rand <= Prefix(j + 1).
   */
  ghost predicate Selects(events: seq<Event>, rand: int, j: int)
  {
    0 <= j < |events| && if rand == 0 then j == 0 else Prefix(events, j) < rand <= Prefix(events, j + 1)
  }

  /** The draws below the total that select event j. */
  ghost function Chosen(events: seq<Event>, j: int): set<int>
  {
    set rand | 0 <= rand < Total(events) && Selects(events, rand, j)
  }

  /** The proportional rule: event j takes the draws from Prefix(j) up to, not including, Prefix(j + 1). */
  ghost predicate ProportionalSelects(events: seq<Event>, rand: int, j: int)
  {
    0 <= j < |events| && Prefix(events, j) <= rand < Prefix(events, j + 1)
  }

  ghost function ProportionallyChosen(events: seq<Event>, j: int): set<int>
  {
    set rand | 0 <= rand < Total(events) && ProportionalSelects(events, rand, j)
  }

  class WeightedDistribution {
    /** The events in the order they were read. */
    const events: seq<Event>
    /** The sum of all occurrence counts. */
    const totalOccurances: int

    /** Keep the parsed events and sum their occurrence counts. */
    constructor (parsed: seq<Event>)
      ensures events == parsed
      ensures totalOccurances == Total(parsed)
    {
      var tentativeTotal := 0;
      for k := 0 to |parsed|
        invariant tentativeTotal == Prefix(parsed, k)
      {
        tentativeTotal := tentativeTotal + parsed[k].occurrences;
      }
      events := parsed;
      totalOccurances := tentativeTotal;
    }

    /**
     * The value for the uniform draw `rand` in [0, totalOccurances): walk the
     * running total until it is no longer below `rand`, then return the event
     * before the one the walk stopped at (event 0 when the walk never moved).
     */
    method RandomValue(rand: int) returns (r: Result<int, DrawError>)
      requires totalOccurances > 0 ==> 0 <= rand < totalOccurances
      ensures totalOccurances <= 0 ==> r == Failure(NonPositiveTotal)
      ensures r.Success? ==> exists j :: Selects(events, rand, j) && r.value == events[j].value
      ensures totalOccurances > 0 && totalOccurances == Total(events) ==> r.Success?
    {
      if totalOccurances <= 0 {
        return Failure(NonPositiveTotal);
      }
      var sum, i := 0, 0;
      while rand > sum
        invariant 0 <= i <= |events| && sum == Prefix(events, i)
        invariant forall k :: 0 <= k < i ==> Prefix(events, k) < rand
        decreases |events| - i
      {
        if i == |events| {
          return Failure(EventIndexOutOfRange);
        }
        sum := sum + events[i].occurrences;
        i := i + 1;
      }
      var j := if i == 0 then 0 else i - 1;
      if j >= |events| {
        return Failure(EventIndexOutOfRange);
      }
      return Success(events[j].value);
    }

    /** The walk that selects in proportion to occurrences: stop at the event whose range holds `rand`. */
    method ProportionalValue(rand: int) returns (r: Result<int, DrawError>)
      requires totalOccurances > 0 ==> 0 <= rand < totalOccurances
      ensures totalOccurances <= 0 ==> r == Failure(NonPositiveTotal)
      ensures r.Success? ==> exists j :: ProportionalSelects(events, rand, j) && r.value == events[j].value
      ensures totalOccurances > 0 && totalOccurances == Total(events) ==> r.Success?
    {
      if totalOccurances <= 0 {
        return Failure(NonPositiveTotal);
      }
      var sum, i := 0, 0;
      while i < |events| && sum + events[i].occurrences <= rand
        invariant 0 <= i <= |events| && sum == Prefix(events, i) && sum <= rand
      {
        sum := sum + events[i].occurrences;
        i := i + 1;
      }
      if i == |events| {
        return Failure(EventIndexOutOfRange);
      }
      return Success(events[i].value);
    }
  }

  /** With non-negative occurrences a draw selects at most one event. */
  lemma SelectionIsUnique(events: seq<Event>, rand: int, j: int, k: int)
    requires NonNegative(events) && Selects(events, rand, j) && Selects(events, rand, k)
    ensures j == k
  {
    if j < k {
      PrefixMonotone(events, j + 1, k);
    } else if k < j {
      PrefixMonotone(events, k + 1, j);
    }
  }

  /** A larger draw never selects an earlier event. */
  lemma SelectionIsMonotone(events: seq<Event>, rand1: int, rand2: int, j1: int, j2: int)
    requires NonNegative(events) && 0 <= rand1 <= rand2
    requires Selects(events, rand1, j1) && Selects(events, rand2, j2)
    ensures j1 <= j2
  {
    if j2 < j1 {
      PrefixMonotone(events, j2 + 1, j1);
    }
  }

  /** Every draw in [0, total) selects some event, so the walk always returns a value of the table. */
  lemma {:induction false} SelectionExists(events: seq<Event>, rand: int)
    requires NonNegative(events) && 0 <= rand < Total(events)
    ensures exists j :: Selects(events, rand, j)
  {
    if rand == 0 {
      assert |events| > 0;
      assert Selects(events, rand, 0);
    } else {
      var i := 0;
      while Prefix(events, i + 1) < rand
        invariant 0 <= i < |events| && Prefix(events, i) < rand
        decreases |events| - i
      {
        i := i + 1;
      }
      assert Selects(events, rand, i);
    }
  }

  /** The integers a, a + 1, ..., b - 1. */
  ghost function Range(a: int, b: int): set<int>
    decreases b - a
  {
    if b <= a then {} else Range(a, b - 1) + {b - 1}
  }

  lemma {:induction false} RangeSize(a: int, b: int)
    requires a <= b
    ensures |Range(a, b)| == b - a
    ensures forall x :: x in Range(a, b) <==> a <= x < b
    decreases b - a
  {
    if a < b {
      RangeSize(a, b - 1);
    }
  }

  /**
   * How many of the draws in [0, total) select each event of positive
   * occurrences: the first event is chosen once more than its occurrences,
   * the last once less, and every other event exactly as often as its
   * occurrences (a single event is both, so it gets exactly its occurrences).
   */
  lemma SelectionCount(events: seq<Event>, j: int)
    requires Positive(events) && 0 <= j < |events|
    ensures |Chosen(events, j)| ==
              events[j].occurrences + (if j == 0 then 1 else 0) - (if j == |events| - 1 then 1 else 0)
  {
    var m := |events|;
    PrefixMonotone(events, j, j + 1);
    PrefixMonotone(events, j + 1, m);
    PrefixMonotone(events, 0, j);
    var lo := if j == 0 then 0 else Prefix(events, j) + 1;
    var hi := if j == m - 1 then Total(events) else Prefix(events, j + 1) + 1;
    if j == m - 1 && j >= 1 {
      PrefixMonotone(events, 1, j);
    }
    RangeSize(lo, hi);
    assert Total(events) == Prefix(events, m);
    forall x
      ensures x in Chosen(events, j) <==> x in Range(lo, hi)
    {
      if j > 0 && x == 0 {
        assert !Selects(events, x, j);
      }
    }
    assert Chosen(events, j) == Range(lo, hi);
  }

  /** The proportional rule chooses every event exactly as often as its occurrences. */
  lemma ProportionalCount(events: seq<Event>, j: int)
    requires NonNegative(events) && 0 <= j < |events|
    ensures |ProportionallyChosen(events, j)| == events[j].occurrences
  {
    PrefixMonotone(events, 0, j);
    PrefixMonotone(events, j + 1, |events|);
    RangeSize(Prefix(events, j), Prefix(events, j + 1));
    assert Total(events) == Prefix(events, |events|);
    forall x
      ensures x in ProportionallyChosen(events, j) <==> x in Range(Prefix(events, j), Prefix(events, j + 1))
    {
    }
    assert ProportionallyChosen(events, j) == Range(Prefix(events, j), Prefix(events, j + 1));
  }

  /**
   * Events (10, 1), (20, 3), (30, 1): the walk never returns 30, and returns 10
   * for two of the five draws, where the proportional rule gives each of 10 and
   * 30 one draw.
   */
  lemma LastValueNeverDrawn()
    ensures var events := [Event(10, 1), Event(20, 3), Event(30, 1)];
            && Total(events) == 5
            && (forall rand :: 0 <= rand < 5 ==> !Selects(events, rand, 2))
            && |Chosen(events, 0)| == 2
            && |ProportionallyChosen(events, 0)| == 1 && |ProportionallyChosen(events, 2)| == 1
  {
    var events := [Event(10, 1), Event(20, 3), Event(30, 1)];
    assert Total(events) == 5;
    SelectionCount(events, 2);
    SelectionCount(events, 0);
    ProportionalCount(events, 0);
    ProportionalCount(events, 2);
    assert Chosen(events, 2) == {};
  }
}
