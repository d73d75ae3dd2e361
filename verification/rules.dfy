/** The first two filter passes of the program's entry point. Each walks
    the flights in order and, for each flight, walks its segments until one
    passes the rule's segment test; it then emits the flight and stops
    looking at that flight. A flight is therefore emitted when SOME segment
    passes, at most once, and in input order. Printing is modelled by
    returning the emitted flights; the clock reading is the parameter `now`. */
module Rules {
  import opened Time
  import opened Flights
  import opened Sequences

  // ---------------------------------------------------------------- rule 1

  /** Rule 1's segment test: the segment does not depart before `now`. */
  predicate NotDeparted(s: Segment, now: Instant)
  {
    !IsBefore(s.departure, now)
  }

  /** Rule 1 emits a flight when some segment has not departed by `now`. */
  predicate SomeSegmentNotDeparted(f: Flight, now: Instant)
  {
    exists j :: 0 <= j < |f.segments| && NotDeparted(f.segments[j], now)
  }

  /** The flights rule 1 emits, in order. */
  function PastDepartureSelection(flights: seq<Flight>, now: Instant): seq<Flight>
  {
    Filter((f: Flight) => SomeSegmentNotDeparted(f, now), flights)
  }

  /** Rule 1 as the entry point runs it: the nested loops with the early
      exit out of the segment loop. */
  method PastDeparturePass(flights: seq<Flight>, now: Instant) returns (printed: seq<Flight>)
    ensures printed == PastDepartureSelection(flights, now)
    ensures forall f :: f in printed <==> f in flights && SomeSegmentNotDeparted(f, now)
    ensures forall f ::
              multiset(printed)[f] == if SomeSegmentNotDeparted(f, now) then multiset(flights)[f] else 0
    ensures SubsequenceOf(printed, flights)
  {
    printed := [];
    var i := 0;
    while i < |flights|
      invariant 0 <= i <= |flights|
      invariant printed == PastDepartureSelection(flights[..i], now)
    {
      var segs := flights[i].segments;
      var j := 0;
      while j < |segs|
        invariant 0 <= j <= |segs|
        invariant forall k :: 0 <= k < j ==> !NotDeparted(segs[k], now)
        invariant printed == PastDepartureSelection(flights[..i], now)
      {
        if !IsBefore(segs[j].departure, now) {
          printed := printed + [flights[i]];
          break;
        }
        j := j + 1;
      }
      assert flights[..i + 1] == flights[..i] + [flights[i]];
      FilterSnoc((f: Flight) => SomeSegmentNotDeparted(f, now), flights[..i], flights[i]);
      i := i + 1;
    }
    assert flights[..i] == flights;
    FilterMembership((f: Flight) => SomeSegmentNotDeparted(f, now), flights);
    FilterMultiset((f: Flight) => SomeSegmentNotDeparted(f, now), flights);
    FilterSubsequence((f: Flight) => SomeSegmentNotDeparted(f, now), flights);
  }

  // ---------------------------------------------------------------- rule 2

  /** Rule 2's segment test: the segment does not depart after it arrives. */
  predicate NotInverted(s: Segment)
  {
    !IsAfter(s.departure, s.arrival)
  }

  /** Rule 2 emits a flight when some segment is not inverted. */
  predicate SomeSegmentNotInverted(f: Flight)
  {
    exists j :: 0 <= j < |f.segments| && NotInverted(f.segments[j])
  }

  /** The flights rule 2 emits, in order. */
  function InvertedSegmentSelection(flights: seq<Flight>): seq<Flight>
  {
    Filter((f: Flight) => SomeSegmentNotInverted(f), flights)
  }

  /** Rule 2 as the entry point runs it. */
  method InvertedSegmentPass(flights: seq<Flight>) returns (printed: seq<Flight>)
    ensures printed == InvertedSegmentSelection(flights)
    ensures forall f :: f in printed <==> f in flights && SomeSegmentNotInverted(f)
    ensures forall f ::
              multiset(printed)[f] == if SomeSegmentNotInverted(f) then multiset(flights)[f] else 0
    ensures SubsequenceOf(printed, flights)
  {
    printed := [];
    var i := 0;
    while i < |flights|
      invariant 0 <= i <= |flights|
      invariant printed == InvertedSegmentSelection(flights[..i])
    {
      var segs := flights[i].segments;
      var j := 0;
      while j < |segs|
        invariant 0 <= j <= |segs|
        invariant forall k :: 0 <= k < j ==> !NotInverted(segs[k])
        invariant printed == InvertedSegmentSelection(flights[..i])
      {
        if !IsAfter(segs[j].departure, segs[j].arrival) {
          printed := printed + [flights[i]];
          break;
        }
        j := j + 1;
      }
      assert flights[..i + 1] == flights[..i] + [flights[i]];
      FilterSnoc((f: Flight) => SomeSegmentNotInverted(f), flights[..i], flights[i]);
      i := i + 1;
    }
    assert flights[..i] == flights;
    FilterMembership((f: Flight) => SomeSegmentNotInverted(f), flights);
    FilterMultiset((f: Flight) => SomeSegmentNotInverted(f), flights);
    FilterSubsequence((f: Flight) => SomeSegmentNotInverted(f), flights);
  }

  /** A flight all of whose segments depart after they arrive is never
      emitted by rule 2, and one with a single well-ordered segment always is. */
  lemma InvertedSegmentVerdicts(flights: seq<Flight>, f: Flight)
    requires f in flights
    ensures (forall j :: 0 <= j < |f.segments| ==> IsAfter(f.segments[j].departure, f.segments[j].arrival))
      ==> f !in InvertedSegmentSelection(flights)
    ensures |f.segments| == 1 && f.segments[0].departure <= f.segments[0].arrival
      ==> f in InvertedSegmentSelection(flights)
  {
    FilterMembership((f: Flight) => SomeSegmentNotInverted(f), flights);
  }

  /** Rule 1 judges a flight appended to the list on its own. */
  lemma PastDepartureSnoc(flights: seq<Flight>, f: Flight, now: Instant)
    ensures PastDepartureSelection(flights + [f], now) ==
      PastDepartureSelection(flights, now) + (if SomeSegmentNotDeparted(f, now) then [f] else [])
  {
    FilterSnoc((f: Flight) => SomeSegmentNotDeparted(f, now), flights, f);
  }

  /** Rule 2 judges a flight appended to the list on its own. */
  lemma InvertedSegmentSnoc(flights: seq<Flight>, f: Flight)
    ensures InvertedSegmentSelection(flights + [f]) ==
      InvertedSegmentSelection(flights) + (if SomeSegmentNotInverted(f) then [f] else [])
  {
    FilterSnoc((f: Flight) => SomeSegmentNotInverted(f), flights, f);
  }

  /** Running a pass over its own output changes nothing. */
  lemma SelectionsIdempotent(flights: seq<Flight>, now: Instant)
    ensures PastDepartureSelection(PastDepartureSelection(flights, now), now)
      == PastDepartureSelection(flights, now)
    ensures InvertedSegmentSelection(InvertedSegmentSelection(flights))
      == InvertedSegmentSelection(flights)
  {
    FilterIdempotent((f: Flight) => SomeSegmentNotDeparted(f, now), flights);
    FilterIdempotent((f: Flight) => SomeSegmentNotInverted(f), flights);
  }
}
