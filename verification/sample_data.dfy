/** The fixed demonstration list of the flight builder, with the clock
    reading `now` as a parameter, and what each pass emits on it. All six
    flights are built relative to D = now + 3 days. */
module SampleData {
  import opened Time
  import opened Flights
  import opened Sequences
  import opened Rules
  import opened GroundRule
  import opened Corrections

  /** The flight built from an even number of instants. */
  function Build(dates: seq<Instant>): (f: Flight)
    requires |dates| % 2 == 0
    ensures |f.segments| == |dates| / 2
  {
    CreateFlight(dates).value
  }

  /** The six demonstration flights, in order: a normal two-hour flight; a
      normal two-segment flight; a flight that departed in the past; a
      flight that arrives before it departs; and two flights with more
      than two hours on the ground. */
  function SampleFlights(now: Instant): (flights: seq<Flight>)
    ensures |flights| == 6
    ensures forall i :: 0 <= i < |flights| ==> |flights[i].segments| >= 1
  {
    var d := now + Days(3);
    [ Build([d, d + Hours(2)]),
      Build([d, d + Hours(2), d + Hours(3), d + Hours(5)]),
      Build([d - Days(6), d]),
      Build([d, d - Hours(6)]),
      Build([d, d + Hours(2), d + Hours(5), d + Hours(6)]),
      Build([d, d + Hours(2), d + Hours(3), d + Hours(4), d + Hours(6), d + Hours(7)]) ]
  }

  /** The segments of each demonstration flight. */
  lemma SampleSegments(now: Instant)
    ensures var d, s := now + Days(3), SampleFlights(now);
      s[0].segments == [Segment(d, d + Hours(2))] &&
      s[1].segments == [Segment(d, d + Hours(2)), Segment(d + Hours(3), d + Hours(5))] &&
      s[2].segments == [Segment(d - Days(6), d)] &&
      s[3].segments == [Segment(d, d - Hours(6))] &&
      s[4].segments == [Segment(d, d + Hours(2)), Segment(d + Hours(5), d + Hours(6))] &&
      s[5].segments == [Segment(d, d + Hours(2)), Segment(d + Hours(3), d + Hours(4)), Segment(d + Hours(6), d + Hours(7))]
  {
  }

  /** The demonstration flights do what their comments say: the two-segment
      normal flight has one hour on the ground, the last two flights have
      three, the third flight departs before `now` and the fourth arrives
      before it departs. */
  lemma SampleFacts(now: Instant)
    ensures var s := SampleFlights(now);
      GroundSum(s[1].segments) == 1 &&
      GroundSum(s[4].segments) == 3 &&
      GroundSum(s[5].segments) == 3 &&
      IsBefore(s[2].segments[0].departure, now) &&
      IsBefore(s[3].segments[0].arrival, s[3].segments[0].departure)
  {
    var d := now + Days(3);
    var s := SampleFlights(now);
    SampleSegments(now);
    TimeOnGroundBetweenOffsets(d, 2, 3);
    TimeOnGroundBetweenOffsets(d, 2, 5);
    TimeOnGroundBetweenOffsets(d, 4, 6);
    assert GroundPrefix(s[1].segments, 2) == Connection(s[1].segments, 1);
    assert GroundPrefix(s[4].segments, 2) == Connection(s[4].segments, 1);
    assert GroundPrefix(s[5].segments, 2) == Connection(s[5].segments, 1);
    assert GroundPrefix(s[5].segments, 3) == Connection(s[5].segments, 1) + Connection(s[5].segments, 2);
  }

  /** What the three passes emit on the demonstration list: rule 1 drops
      the flight that departed in the past, rule 2 drops the inverted
      flight, and rule 3 emits the first four flights and leaves the shared
      counter at 16. */
  lemma SamplePasses(now: Instant)
    ensures var s := SampleFlights(now);
      PastDepartureSelection(s, now) == [s[0], s[1], s[3], s[4], s[5]] &&
      InvertedSegmentSelection(s) == [s[0], s[1], s[2], s[4], s[5]] &&
      GroundPass(s, 0) == Pass([s[0], s[1], s[2], s[3]], 16)
  {
    var s := SampleFlights(now);
    SampleSegments(now);
    SampleFacts(now);
    assert NotDeparted(s[0].segments[0], now);
    assert NotDeparted(s[1].segments[0], now);
    assert NotDeparted(s[3].segments[0], now);
    assert NotDeparted(s[4].segments[0], now);
    assert NotDeparted(s[5].segments[0], now);
    assert NotInverted(s[0].segments[0]);
    assert NotInverted(s[1].segments[0]);
    assert NotInverted(s[2].segments[0]);
    assert NotInverted(s[4].segments[0]);
    assert NotInverted(s[5].segments[0]);
    forall k | 0 <= k < 6
      ensures PastDepartureSelection(s[..k + 1], now) ==
        PastDepartureSelection(s[..k], now) + (if SomeSegmentNotDeparted(s[k], now) then [s[k]] else [])
      ensures InvertedSegmentSelection(s[..k + 1]) ==
        InvertedSegmentSelection(s[..k]) + (if SomeSegmentNotInverted(s[k]) then [s[k]] else [])
      ensures GroundPass(s[..k + 1], 0) ==
        Pass(GroundPass(s[..k], 0).printed + (if GroundStep(s[k], GroundPass(s[..k], 0).counter).printed then [s[k]] else []),
             GroundStep(s[k], GroundPass(s[..k], 0).counter).counter)
    {
      assert s[..k + 1] == s[..k] + [s[k]];
      PastDepartureSnoc(s[..k], s[k], now);
      InvertedSegmentSnoc(s[..k], s[k]);
      GroundPassSnoc(s[..k], s[k], 0);
    }
    PrefixesOfSix(s);
  }

  lemma PrefixesOfSix<T>(s: seq<T>)
    requires |s| == 6
    ensures s[..0] == [] && s[..1] == [s[0]] && s[..2] == [s[0], s[1]] &&
      s[..3] == [s[0], s[1], s[2]] && s[..4] == [s[0], s[1], s[2], s[3]] &&
      s[..5] == [s[0], s[1], s[2], s[3], s[4]] && s[..6] == s
  {
  }

  /** What the corrected rules emit on the demonstration list. */
  lemma SampleCorrected(now: Instant)
    ensures var s := SampleFlights(now);
      CorrectedPastDepartureSelection(s, now) == [s[0], s[1], s[3], s[4], s[5]] &&
      CorrectedInvertedSegmentSelection(s) == [s[0], s[1], s[2], s[4], s[5]] &&
      CorrectedGroundSelection(s) == [s[0], s[1], s[2], s[3]]
  {
    SampleCorrectedPastDeparture(now);
    SampleCorrectedInvertedSegment(now);
    SampleCorrectedGround(now);
  }

  lemma SampleCorrectedPastDeparture(now: Instant)
    ensures var s := SampleFlights(now);
      CorrectedPastDepartureSelection(s, now) == [s[0], s[1], s[3], s[4], s[5]]
  {
    var s := SampleFlights(now);
    SampleSegments(now);
    var keep := [true, true, false, true, true, true];
    forall k | 0 <= k < 6
      ensures CorrectedPastDepartureSelection(s[..k + 1], now) ==
        CorrectedPastDepartureSelection(s[..k], now) + (if keep[k] then [s[k]] else [])
    {
      assert s[..k + 1] == s[..k] + [s[k]];
      CorrectedPastDepartureSnoc(s[..k], s[k], now);
    }
    PrefixesOfSix(s);
  }

  lemma SampleCorrectedInvertedSegment(now: Instant)
    ensures var s := SampleFlights(now);
      CorrectedInvertedSegmentSelection(s) == [s[0], s[1], s[2], s[4], s[5]]
  {
    var s := SampleFlights(now);
    SampleSegments(now);
    var keep := [true, true, true, false, true, true];
    forall k | 0 <= k < 6
      ensures CorrectedInvertedSegmentSelection(s[..k + 1]) ==
        CorrectedInvertedSegmentSelection(s[..k]) + (if keep[k] then [s[k]] else [])
    {
      assert s[..k + 1] == s[..k] + [s[k]];
      CorrectedInvertedSegmentSnoc(s[..k], s[k]);
      assert AllSegmentsNotInverted(s[k]) == keep[k];
    }
    PrefixesOfSix(s);
  }

  lemma SampleCorrectedGround(now: Instant)
    ensures var s := SampleFlights(now);
      CorrectedGroundSelection(s) == [s[0], s[1], s[2], s[3]]
  {
    var s := SampleFlights(now);
    SampleSegments(now);
    SampleFacts(now);
    assert GroundSum(s[0].segments) == 0;
    assert GroundSum(s[2].segments) == 0;
    assert GroundSum(s[3].segments) == 0;
    var keep := [true, true, true, true, false, false];
    forall k | 0 <= k < 6
      ensures CorrectedGroundSelection(s[..k + 1]) ==
        CorrectedGroundSelection(s[..k]) + (if keep[k] then [s[k]] else [])
    {
      assert s[..k + 1] == s[..k] + [s[k]];
      CorrectedGroundSnoc(s[..k], s[k]);
    }
    PrefixesOfSix(s);
  }

  /** On the demonstration list the corrected rules emit the same flights
      as the passes as written: its order (low ground time first, only
      single-segment flights in the past or inverted) hides the
      discrepancies. */
  lemma SampleCorrectionsAgree(now: Instant)
    ensures var s := SampleFlights(now);
      CorrectedPastDepartureSelection(s, now) == PastDepartureSelection(s, now) &&
      CorrectedInvertedSegmentSelection(s) == InvertedSegmentSelection(s) &&
      CorrectedGroundSelection(s) == GroundPass(s, 0).printed
  {
    SamplePasses(now);
    SampleCorrected(now);
  }
}
