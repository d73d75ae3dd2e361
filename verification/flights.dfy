/** The flight data model: a segment is one leg (departure, arrival), a
    flight is its legs in travel order, and `CreateFlight` builds a flight
    from a flat list of instants taken two at a time. */
module Flights {
  import opened Time

  /** One leg of travel. No order between the two instants is enforced. */
  datatype Segment = Segment(departure: Instant, arrival: Instant)

  /** An itinerary: its segments in the order they were given. */
  datatype Flight = Flight(segments: seq<Segment>)

  /** The one way building a flight can fail. */
  datatype BuildError = OddNumberOfDates

  datatype Result<T> = Success(value: T) | Failure(error: BuildError)

  /** The segments made from consecutive pairs `(dates[2i], dates[2i+1])`. */
  function Pairs(dates: seq<Instant>): (segs: seq<Segment>)
    requires |dates| % 2 == 0
    ensures |segs| == |dates| / 2
    ensures forall i :: 0 <= i < |segs| ==> segs[i] == Segment(dates[2 * i], dates[2 * i + 1])
    decreases |dates|
  {
    if |dates| == 0 then []
    else [Segment(dates[0], dates[1])] + Pairs(dates[2..])
  }

  /** Builds a flight from departure/arrival instants in alternation; an
      odd count is refused and any even count, zero included, is accepted. */
  function CreateFlight(dates: seq<Instant>): (r: Result<Flight>)
    ensures r.Failure? <==> |dates| % 2 != 0
    ensures r.Failure? ==> r.error == OddNumberOfDates
    ensures r.Success? ==> |r.value.segments| == |dates| / 2
    ensures r.Success? ==> forall i :: 0 <= i < |r.value.segments| ==>
      r.value.segments[i] == Segment(dates[2 * i], dates[2 * i + 1])
  {
    if |dates| % 2 != 0 then Failure(OddNumberOfDates)
    else Success(Flight(Pairs(dates)))
  }

  /** The instants of a flight, flattened back into the builder's input form. */
  function Dates(f: Flight): (dates: seq<Instant>)
    ensures |dates| == 2 * |f.segments|
  {
    DatesOf(f.segments)
  }

  function DatesOf(segs: seq<Segment>): (dates: seq<Instant>)
    ensures |dates| == 2 * |segs|
  {
    if |segs| == 0 then []
    else [segs[0].departure, segs[0].arrival] + DatesOf(segs[1..])
  }

  /** Building from a flight's own instants gives that flight back. */
  lemma {:induction false} CreateFlightOfDates(f: Flight)
    ensures CreateFlight(Dates(f)) == Success(f)
  {
    PairsOfDates(f.segments);
  }

  lemma {:induction false} PairsOfDates(segs: seq<Segment>)
    ensures Pairs(DatesOf(segs)) == segs
    decreases |segs|
  {
    if |segs| > 0 {
      var d := DatesOf(segs);
      assert d[2..] == DatesOf(segs[1..]);
      PairsOfDates(segs[1..]);
      assert segs == [segs[0]] + segs[1..];
    }
  }

  /** A built flight flattens back to exactly the instants it came from. */
  lemma {:induction false} DatesOfCreateFlight(dates: seq<Instant>)
    requires |dates| % 2 == 0
    ensures CreateFlight(dates).Success?
    ensures Dates(CreateFlight(dates).value) == dates
    decreases |dates|
  {
    if |dates| > 0 {
      var segs := Pairs(dates);
      assert segs[1..] == Pairs(dates[2..]);
      DatesOfCreateFlight(dates[2..]);
      assert dates == [dates[0], dates[1]] + dates[2..];
    }
  }
}
