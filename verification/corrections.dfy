/** The three filter passes as their comments and headers describe them,
    beside concrete inputs on which the passes as written disagree.
      - Rule 1 is meant to drop a flight that has already departed, i.e.
        whose first segment departs before `now`; as written it keeps a
        flight when any later segment is still in the future.
      - Rule 2 is meant to drop a flight with any segment that departs
        after it arrives; as written it keeps a flight when any one segment
        is well ordered.
      - Rule 3 is meant to keep a flight whose own ground time is at most 2
        hours; as written the counter is shared by all flights, so a flight
        can be dropped because of ground time earlier flights had. */
module Corrections {
  import opened Time
  import opened Flights
  import opened Sequences
  import opened Rules
  import opened GroundRule

  // ---------------------------------------------------------------- rule 1

  /** The flight has not departed: its first segment departs at or after `now`. */
  predicate FirstSegmentNotDeparted(f: Flight, now: Instant)
  {
    |f.segments| >= 1 && NotDeparted(f.segments[0], now)
  }

  function CorrectedPastDepartureSelection(flights: seq<Flight>, now: Instant): seq<Flight>
  {
    Filter((f: Flight) => FirstSegmentNotDeparted(f, now), flights)
  }

  /** The corrected rule 1 keeps exactly the flights whose first departure
      is not before `now`, in order, and a second pass changes nothing. It
      only ever removes more than the rule as written, and agrees with it
      on flights of at most one segment. */
  lemma CorrectedPastDepartureProperties(flights: seq<Flight>, now: Instant)
    ensures forall f :: f in CorrectedPastDepartureSelection(flights, now) <==>
      f in flights && |f.segments| >= 1 && f.segments[0].departure >= now
    ensures SubsequenceOf(CorrectedPastDepartureSelection(flights, now), flights)
    ensures CorrectedPastDepartureSelection(CorrectedPastDepartureSelection(flights, now), now)
      == CorrectedPastDepartureSelection(flights, now)
    ensures forall f :: f in CorrectedPastDepartureSelection(flights, now) ==> f in PastDepartureSelection(flights, now)
    ensures forall f :: f in flights && |f.segments| <= 1 ==>
      (f in CorrectedPastDepartureSelection(flights, now) <==> f in PastDepartureSelection(flights, now))
  {
    FilterMembership((f: Flight) => FirstSegmentNotDeparted(f, now), flights);
    FilterMembership((f: Flight) => SomeSegmentNotDeparted(f, now), flights);
    FilterSubsequence((f: Flight) => FirstSegmentNotDeparted(f, now), flights);
    FilterIdempotent((f: Flight) => FirstSegmentNotDeparted(f, now), flights);
  }

  lemma CorrectedPastDepartureSnoc(flights: seq<Flight>, f: Flight, now: Instant)
    ensures CorrectedPastDepartureSelection(flights + [f], now) ==
      CorrectedPastDepartureSelection(flights, now) + (if FirstSegmentNotDeparted(f, now) then [f] else [])
  {
    FilterSnoc((f: Flight) => FirstSegmentNotDeparted(f, now), flights, f);
  }

  /** A flight whose first leg left a day ago but whose second leg is still
      ahead is emitted by rule 1 as written, and dropped by the corrected rule. */
  lemma PastDepartureCounterexample(now: Instant)
    ensures var f := Flight([Segment(now - Hours(24), now - Hours(22)), Segment(now + Hours(1), now + Hours(2))]);
      PastDepartureSelection([f], now) == [f] && CorrectedPastDepartureSelection([f], now) == []
  {
    var f := Flight([Segment(now - Hours(24), now - Hours(22)), Segment(now + Hours(1), now + Hours(2))]);
    assert NotDeparted(f.segments[1], now);
    assert [f][..0] == [];
  }

  // ---------------------------------------------------------------- rule 2

  /** Every segment of the (non-empty) flight departs no later than it arrives. */
  predicate AllSegmentsNotInverted(f: Flight)
  {
    |f.segments| >= 1 && forall j :: 0 <= j < |f.segments| ==> NotInverted(f.segments[j])
  }

  function CorrectedInvertedSegmentSelection(flights: seq<Flight>): seq<Flight>
  {
    Filter((f: Flight) => AllSegmentsNotInverted(f), flights)
  }

  /** The corrected rule 2 drops every flight that has an inverted segment
      and keeps the rest of the non-empty flights, in order; a second pass
      changes nothing. It keeps a subset of what the rule as written keeps,
      and agrees with it on flights of at most one segment. */
  lemma CorrectedInvertedSegmentProperties(flights: seq<Flight>)
    ensures forall f :: f in CorrectedInvertedSegmentSelection(flights) <==>
      f in flights && |f.segments| >= 1 &&
      !(exists j :: 0 <= j < |f.segments| && f.segments[j].departure > f.segments[j].arrival)
    ensures SubsequenceOf(CorrectedInvertedSegmentSelection(flights), flights)
    ensures CorrectedInvertedSegmentSelection(CorrectedInvertedSegmentSelection(flights))
      == CorrectedInvertedSegmentSelection(flights)
    ensures forall f :: f in CorrectedInvertedSegmentSelection(flights) ==> f in InvertedSegmentSelection(flights)
    ensures forall f :: f in flights && |f.segments| <= 1 ==>
      (f in CorrectedInvertedSegmentSelection(flights) <==> f in InvertedSegmentSelection(flights))
  {
    FilterMembership((f: Flight) => AllSegmentsNotInverted(f), flights);
    FilterSubsequence((f: Flight) => AllSegmentsNotInverted(f), flights);
    FilterIdempotent((f: Flight) => AllSegmentsNotInverted(f), flights);
    CorrectedInvertedSegmentNarrower(flights);
  }

  lemma CorrectedInvertedSegmentNarrower(flights: seq<Flight>)
    requires forall f :: f in CorrectedInvertedSegmentSelection(flights) <==> f in flights && AllSegmentsNotInverted(f)
    ensures forall f :: f in CorrectedInvertedSegmentSelection(flights) ==> f in InvertedSegmentSelection(flights)
    ensures forall f :: f in flights && |f.segments| <= 1 ==>
      (f in CorrectedInvertedSegmentSelection(flights) <==> f in InvertedSegmentSelection(flights))
  {
    FilterMembership((f: Flight) => SomeSegmentNotInverted(f), flights);
    forall f | f in flights && AllSegmentsNotInverted(f)
      ensures SomeSegmentNotInverted(f)
    {
      assert NotInverted(f.segments[0]);
    }
  }

  lemma CorrectedInvertedSegmentSnoc(flights: seq<Flight>, f: Flight)
    ensures CorrectedInvertedSegmentSelection(flights + [f]) ==
      CorrectedInvertedSegmentSelection(flights) + (if AllSegmentsNotInverted(f) then [f] else [])
  {
    FilterSnoc((f: Flight) => AllSegmentsNotInverted(f), flights, f);
  }

  /** A flight whose second segment arrives three hours before it departs
      is emitted by rule 2 as written, because its first segment is well
      ordered, and dropped by the corrected rule. */
  lemma InvertedSegmentCounterexample()
    ensures var f := Flight([Segment(0, Hours(1)), Segment(Hours(5), Hours(2))]);
      InvertedSegmentSelection([f]) == [f] && CorrectedInvertedSegmentSelection([f]) == []
  {
    var f := Flight([Segment(0, Hours(1)), Segment(Hours(5), Hours(2))]);
    assert NotInverted(f.segments[0]);
    assert !NotInverted(f.segments[1]);
    assert [f][..0] == [];
  }

  // ---------------------------------------------------------------- rule 3

  /** The flight's own ground time is within the limit. */
  predicate WithinGroundLimit(f: Flight)
  {
    |f.segments| >= 1 && GroundSum(f.segments) <= Limit
  }

  function CorrectedGroundSelection(flights: seq<Flight>): seq<Flight>
  {
    Filter((f: Flight) => WithinGroundLimit(f), flights)
  }

  /** The corrected rule 3 judges each flight on its own ground time:
      the result over `a + b` is the result over `a` followed by the result
      over `b`, membership depends on the flight alone, and a second pass
      changes nothing. */
  lemma CorrectedGroundProperties(a: seq<Flight>, b: seq<Flight>)
    ensures CorrectedGroundSelection(a + b) == CorrectedGroundSelection(a) + CorrectedGroundSelection(b)
    ensures forall f :: f in CorrectedGroundSelection(a) <==>
      f in a && |f.segments| >= 1 && GroundSum(f.segments) <= 2
    ensures SubsequenceOf(CorrectedGroundSelection(a), a)
    ensures CorrectedGroundSelection(CorrectedGroundSelection(a)) == CorrectedGroundSelection(a)
  {
    FilterConcat((f: Flight) => WithinGroundLimit(f), a, b);
    FilterMembership((f: Flight) => WithinGroundLimit(f), a);
    FilterSubsequence((f: Flight) => WithinGroundLimit(f), a);
    FilterIdempotent((f: Flight) => WithinGroundLimit(f), a);
  }

  lemma CorrectedGroundSnoc(flights: seq<Flight>, f: Flight)
    ensures CorrectedGroundSelection(flights + [f]) ==
      CorrectedGroundSelection(flights) + (if WithinGroundLimit(f) then [f] else [])
  {
    FilterSnoc((f: Flight) => WithinGroundLimit(f), flights, f);
  }

  /** On a single flight with a fresh counter the pass as written and the
      corrected rule agree: the discrepancy needs an earlier flight. */
  lemma GroundPassAgreesOnOneFlight(f: Flight)
    ensures GroundPass([f], 0).printed == CorrectedGroundSelection([f])
  {
    assert [f][..0] == [];
    var n := |f.segments|;
    if n >= 2 {
      var g := GroundSum(f.segments);
      RepeatClosedForm(0, g, n);
      if g > Limit {
        assert n * g >= g by {
          assert n * g == (n - 1) * g + g;
          assert (n - 1) * g >= 0;
        }
      }
    }
  }

  /** A flight with three hours on the ground followed by one with one
      hour: on its own the second flight is emitted, but after the first
      has pushed the shared counter to 6 it is not. The corrected rule
      keeps it either way. */
  lemma GroundCounterexample()
    ensures var long := Flight([Segment(0, Hours(2)), Segment(Hours(5), Hours(6))]);
      var short := Flight([Segment(0, Hours(2)), Segment(Hours(3), Hours(5))]);
      GroundPass([short], 0).printed == [short] &&
      GroundPass([long, short], 0).printed == [] &&
      CorrectedGroundSelection([long, short]) == [short]
  {
    var long := Flight([Segment(0, Hours(2)), Segment(Hours(5), Hours(6))]);
    var short := Flight([Segment(0, Hours(2)), Segment(Hours(3), Hours(5))]);
    TimeOnGroundWholeHours(Hours(2), 3);
    TimeOnGroundWholeHours(Hours(2), 1);
    assert GroundSum(long.segments) == 3;
    assert GroundSum(short.segments) == 1;
    assert [short][..0] == [];
    assert [long, short][..1] == [long];
    assert [long][..0] == [];
    assert GroundPass([long], 0) == Pass([], 6);
  }
}
