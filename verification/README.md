# Flight filter: a Dafny model

This project models a small Java program that builds a list of flights and
filters it three ways. A `Segment` is one leg of travel, a departure and an
arrival instant. A `Flight` is its segments in travel order.
`FlightBuilder.createFlight` builds a flight from a flat list of instants,
two at a time, and refuses an odd count. The entry point `TestClasses.main`
then makes three passes over the demonstration flights. Each pass prints
the flights it selects:

- rule 1 (past departure) prints a flight when some segment departs at or after now;
- rule 2 (inverted segments) prints a flight when some segment departs no later than it arrives;
- rule 3 (ground time) prints every one-segment flight, whatever the
  counter, and never prints a flight without segments. For a flight of
  two or more segments it adds the flight's whole hours on the ground
  between connections to one counter that is never reset, once per
  segment, and prints the flight on the first addition that leaves the
  counter at or below 2.

Instants are integers: nanoseconds on the local timeline, so one day is
always 24 hours. `isBefore` and `isAfter` become `<` and `>`.
`timeOnGround` is the whole-hour difference truncated toward zero. It is
written out explicitly because Dafny's `/` is Euclidean. Printing is
modelled as returning the printed flights in order, and the clock reading
`now` is a parameter.

Modules (one file each):

- `Sequences` (`sequences.dfy`): order-preserving selection `Filter` and `SubsequenceOf`, with their lemmas.
- `Time` (`time.dfy`): instants, hours, `TimeOnGround`.
- `Flights` (`flights.dfy`): `Segment`, `Flight`, `CreateFlight` and its inverse `Dates`.
- `Rules` (`rules.dfy`): rules 1 and 2, each as the nested loops of the entry point, proved equal to a `Filter`.
- `GroundRule` (`ground_rule.dfy`): rule 3, as a fold that threads the counter and as the nested loops.
- `Corrections` (`corrections.dfy`): the rules as their comments describe them, plus inputs on which the code differs (see Findings).
- `SampleData` (`sample_data.dfy`): the six demonstration flights and what every pass prints on them.

Where the code and a plain reading of the rules disagree, the model
follows the code. Rules 1 and 2 print a flight when SOME segment passes,
not when all do or when the first one does. Rule 3 prints a multi-segment
flight when the running counter is at most 2, not when the flight's own
total exceeds 2, and prints one-segment flights unconditionally. It
also does not sum each flight on its own: a flight of n segments adds its
ground time up to n times, and the counter carries over from one flight
to the next. The corrected readings are modelled separately, in `Corrections`.

## Model

| member | source | states |
|---|---|---|
| Time.TimeOnGround | com.gridnine.testing/src/com/gridnine/testing/TestClasses.java:144-146 | The result r is the whole-hour count of `departure - arrival`, truncated toward zero: for a non-negative difference r >= 0 and r hours <= difference < r+1 hours; for a negative difference r <= 0 and r-1 hours < difference <= r hours |
| Time.TimeOnGroundExact | com.gridnine.testing/src/com/gridnine/testing/TestClasses.java:144-146 | The result equals k exactly when the difference lies in k's truncation interval (both directions) |
| Time.TimeOnGroundWholeHours | com.gridnine.testing/src/com/gridnine/testing/TestClasses.java:144-146 | A difference of exactly k whole hours gives k, for every integer k |
| Time.TimeOnGroundSame | com.gridnine.testing/src/com/gridnine/testing/TestClasses.java:144-146 | Equal arrival and departure give 0 |
| Time.TimeOnGroundAntisymmetric | com.gridnine.testing/src/com/gridnine/testing/TestClasses.java:144-146 | Swapping the two instants negates the result |
| Time.TimeOnGroundSign | com.gridnine.testing/src/com/gridnine/testing/TestClasses.java:144-146 | The result is negative exactly when the departure is at least an hour before the arrival, positive exactly when it is at least an hour after, and 0 within an hour either way |
| Flights.CreateFlight | com.gridnine.testing/src/com/gridnine/testing/TestClasses.java:39-48 | Building fails, with the odd-count error, exactly when the number of instants is odd; the empty list gives a flight with no segments; for 2n instants the flight has n segments, and segment i is (dates[2i], dates[2i+1]) |
| Flights.Pairs | com.gridnine.testing/src/com/gridnine/testing/TestClasses.java:43-46 | The loop's pairing yields half as many segments as instants, segment i taken from positions 2i and 2i+1, in input order |
| Flights.CreateFlightOfDates | com.gridnine.testing/src/com/gridnine/testing/TestClasses.java:39-48 | Round trip: building from a flight's flattened instants succeeds and returns that same flight |
| Flights.DatesOfCreateFlight | com.gridnine.testing/src/com/gridnine/testing/TestClasses.java:39-48 | Round trip: every even-length list builds successfully and flattens back to itself |
| Rules.PastDeparturePass | com.gridnine.testing/src/com/gridnine/testing/TestClasses.java:105-112 | The rule 1 loops print a flight exactly when some segment departs at or after `now`; each input occurrence is printed at most once (multiset count), in input order (subsequence) |
| Rules.InvertedSegmentPass | com.gridnine.testing/src/com/gridnine/testing/TestClasses.java:116-123 | The rule 2 loops print a flight exactly when some segment departs no later than it arrives; each occurrence at most once, in input order |
| Rules.InvertedSegmentVerdicts | com.gridnine.testing/src/com/gridnine/testing/TestClasses.java:116-123 | Rule 2 never prints a flight whose segments are all inverted, and always prints a flight with one well-ordered segment |
| Rules.SelectionsIdempotent | com.gridnine.testing/src/com/gridnine/testing/TestClasses.java:105-123 | Running rule 1 or rule 2 again over its own output changes nothing |
| GroundRule.RepeatCharacterization | com.gridnine.testing/src/com/gridnine/testing/TestClasses.java:132-139 | For a flight with at least two segments, ground time g and entry counter c: the flight is printed exactly when c + t*g <= 2 for some t in 1..n; the loop stops at the first such t and leaves the counter at c + t*g; otherwise it leaves the counter at c + n*g |
| GroundRule.RepeatClosedForm | com.gridnine.testing/src/com/gridnine/testing/TestClasses.java:132-139 | Because each iteration adds the same g, such a flight is printed exactly when c + g <= 2 or c + n*g <= 2 |
| GroundRule.GroundStepCharacterization | com.gridnine.testing/src/com/gridnine/testing/TestClasses.java:128-140 | A flight without segments is never printed and a one-segment flight is printed once; neither changes the counter. A flight of n >= 2 segments behaves as in RepeatCharacterization with g its summed ground time |
| GroundRule.GroundPassConcat | com.gridnine.testing/src/com/gridnine/testing/TestClasses.java:98-142 | The counter is never reset: the pass over a + b equals the pass over a, then the pass over b entered with the counter a leaves |
| GroundRule.GroundPassSubsequence | com.gridnine.testing/src/com/gridnine/testing/TestClasses.java:127-142 | Rule 3 prints flights in input order, each occurrence at most once |
| GroundRule.GroundPassShortFlights | com.gridnine.testing/src/com/gridnine/testing/TestClasses.java:128-131 | Over flights of at most one segment, rule 3 prints exactly the one-segment flights and leaves the counter unchanged |
| GroundRule.GroundTimePass | com.gridnine.testing/src/com/gridnine/testing/TestClasses.java:98-142 | The rule 3 loops, with the counter starting at 0, print exactly the flights of the counter-threading fold and leave its final counter; the output is a subsequence of the input |
| Corrections.CorrectedPastDepartureProperties | com.gridnine.testing/src/com/gridnine/testing/TestClasses.java:103-112 | Corrected rule 1 keeps exactly the flights whose first segment departs at or after `now`, in order and idempotently; it keeps a subset of what the code keeps, and the same on flights of at most one segment |
| Corrections.PastDepartureCounterexample | com.gridnine.testing/src/com/gridnine/testing/TestClasses.java:105-112 | A flight whose first leg departed a day ago and whose second leg is still ahead is printed by the code and dropped by the corrected rule |
| Corrections.CorrectedInvertedSegmentProperties | com.gridnine.testing/src/com/gridnine/testing/TestClasses.java:114-123 | Corrected rule 2 keeps exactly the non-empty flights with no segment departing after it arrives, in order and idempotently; it keeps a subset of what the code keeps, and the same on flights of at most one segment |
| Corrections.InvertedSegmentCounterexample | com.gridnine.testing/src/com/gridnine/testing/TestClasses.java:116-123 | A flight with one well-ordered and one inverted segment is printed by the code and dropped by the corrected rule |
| Corrections.CorrectedGroundProperties | com.gridnine.testing/src/com/gridnine/testing/TestClasses.java:125-142 | Corrected rule 3 keeps exactly the non-empty flights whose own ground time is at most 2 hours; it judges flights independently (distributes over concatenation), keeps order and is idempotent |
| Corrections.GroundPassAgreesOnOneFlight | com.gridnine.testing/src/com/gridnine/testing/TestClasses.java:127-142 | With a fresh counter, the code and the corrected rule agree on every single flight |
| Corrections.GroundCounterexample | com.gridnine.testing/src/com/gridnine/testing/TestClasses.java:98-142 | A one-hour-ground flight is printed on its own but not after a three-hour-ground flight, because the shared counter has reached 6; the corrected rule keeps it |
| SampleData.SampleFlights | com.gridnine.testing/src/com/gridnine/testing/TestClasses.java:18-37 | The demonstration list has six flights, each with at least one segment |
| SampleData.SampleSegments | com.gridnine.testing/src/com/gridnine/testing/TestClasses.java:20-36 | The exact segments of each demonstration flight, relative to D = now + 3 days |
| SampleData.SampleFacts | com.gridnine.testing/src/com/gridnine/testing/TestClasses.java:21-36 | The two-segment normal flight has 1 hour on the ground; both "more than two hours" flights have 3; the third flight departs before now; the fourth arrives before it departs |
| SampleData.SamplePasses | com.gridnine.testing/src/com/gridnine/testing/TestClasses.java:103-142 | On the demonstration list, rule 1 prints all flights but the third, rule 2 all but the fourth, and rule 3 the first four, leaving the counter at 16 |
| SampleData.SampleCorrected | com.gridnine.testing/src/com/gridnine/testing/TestClasses.java:20-36 | The corrected rules keep the same flights on the demonstration list |
| SampleData.SampleCorrectionsAgree | com.gridnine.testing/src/com/gridnine/testing/TestClasses.java:103-142 | On the demonstration list the corrected rules and the code print the same flights, so the demonstration does not show the discrepancies |

## Left out

- Console output, the three headers and the separators (TestClasses.java:99-126): printed flights are returned as sequences instead.
- `Flight.toString` and `Segment.toString` with their date-time pattern (lines 63-66, 86-90): integer instants do not carry calendar fields.
- The ambient clock `LocalDateTime.now()` (lines 19, 107): it becomes the parameter `now`. One snapshot of the flight list is used instead of the code's repeated calls to `createFlights()` inside the loops (lines 105-137), each of which reads the clock again.
- Time.TimeOnGround: does not model the `(int)` narrowing of the `long` hour count, or `long` overflow; integers are unbounded.
- GroundRule.GroundTimePass: does not model the 32-bit wrap-around of the `int` hour counter (TestClasses.java:98, 134); the counter is an unbounded integer, so once the accumulated hours leave the 32-bit range (beyond about ±2^31 hours, some 245,000 years of ground time) the code's counter wraps to the other sign and can print a flight the model does not, or the reverse.
- `Objects.requireNonNull` on segment instants (lines 77-78): Dafny values cannot be null.
- The sharing of the mutable segment list between the builder and the `Flight` (line 58): flights are immutable values.
- A general `filter(flights, rules)` with pluggable rule objects: the source has no such function, only the three inline loops.

## Findings

| source | as written | input that shows it | evidently intended | confidence | as-written member | corrected member |
|---|---|---|---|---|---|---|
| com.gridnine.testing/src/com/gridnine/testing/TestClasses.java:105-112 | A flight is printed as "not departed" when any one of its segments departs at or after now | Segments (now-24h, now-22h), (now+1h, now+2h): printed, though the flight left a day ago | Print a flight only when it has not departed, i.e. its first segment departs at or after now | medium; not executed | Rules.PastDeparturePass, shown by Corrections.PastDepartureCounterexample | Corrections.CorrectedPastDepartureProperties |
| com.gridnine.testing/src/com/gridnine/testing/TestClasses.java:116-123 | A flight is printed when any one of its segments departs no later than it arrives | Segments (0, 1h), (5h, 2h): printed, though its second segment arrives before it departs | Drop every flight that has an inverted segment; the corrected rule also drops flights with no segments, which the code never prints either | medium; not executed | Rules.InvertedSegmentPass, shown by Corrections.InvertedSegmentCounterexample | Corrections.CorrectedInvertedSegmentProperties |
| com.gridnine.testing/src/com/gridnine/testing/TestClasses.java:98-142 | The hour counter is declared once, never reset, and a flight of n segments adds its ground time up to n times | Flights [(0,2h),(5h,6h)] then [(0,2h),(3h,5h)]: the second, with 1 hour on the ground, is not printed because the first pushed the counter to 6 | Judge each flight on its own total ground time, keeping it when that total is at most 2 hours | high; not executed | GroundRule.GroundTimePass, shown by Corrections.GroundCounterexample | Corrections.CorrectedGroundProperties |
