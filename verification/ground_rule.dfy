/** The third filter pass of the program's entry point (ground time).
    One integer counter is declared before the pass and never reset. For
    each flight the pass runs a loop once per segment:
      - a one-segment flight is emitted (its loop runs once);
      - for a flight of n >= 2 segments every iteration adds the flight's
        whole ground time g to the counter, and the first iteration after
        which the counter is at most 2 emits the flight and leaves the loop;
      - a flight without segments runs no iteration and is never emitted.
    So the counter carries over from flight to flight, and a flight of n
    segments can add g up to n times. */
module GroundRule {
  import opened Time
  import opened Flights
  import opened Sequences

  /** The counter bound at or under which a flight is emitted. */
  const Limit: int := 2

  /** Ground hours of the connection into segment `k`: from the arrival of
      segment `k - 1` to the departure of segment `k`. */
  function Connection(segs: seq<Segment>, k: nat): int
    requires 1 <= k < |segs|
  {
    TimeOnGround(segs[k - 1].arrival, segs[k].departure)
  }

  /** Ground hours of the connections into segments 1 .. k - 1. */
  function GroundPrefix(segs: seq<Segment>, k: nat): int
    requires k <= |segs|
  {
    if k <= 1 then 0 else GroundPrefix(segs, k - 1) + Connection(segs, k - 1)
  }

  /** A flight's whole ground time: the sum over all its connections. */
  function GroundSum(segs: seq<Segment>): int
  {
    GroundPrefix(segs, |segs|)
  }

  /** The counter after `t` additions of `g` to `c`. */
  function CounterAfter(c: int, g: int, t: nat): int
  {
    c + t * g
  }

  /** What one flight does to the pass: whether it is emitted, and the
      counter it leaves behind. */
  datatype Step = Step(printed: bool, counter: int)

  /** The segment loop of a flight with at least two segments, with
      `remaining` iterations left, counter `c` and ground time `g`. */
  function Repeat(c: int, g: int, remaining: nat): Step
    decreases remaining
  {
    if remaining == 0 then Step(false, c)
    else if c + g <= Limit then Step(true, c + g)
    else Repeat(c + g, g, remaining - 1)
  }

  /** One flight's part of the pass, entered with counter `c`. */
  function GroundStep(f: Flight, c: int): Step
  {
    var n := |f.segments|;
    if n == 0 then Step(false, c)
    else if n == 1 then Step(true, c)
    else Repeat(c, GroundSum(f.segments), n)
  }

  /** The emitted flights of a whole pass and the final counter. */
  datatype Pass = Pass(printed: seq<Flight>, counter: int)

  /** The pass over `flights` entered with counter `c`: a left fold that
      threads the counter from each flight into the next. */
  function GroundPass(flights: seq<Flight>, c: int): Pass
  {
    if |flights| == 0 then Pass([], c)
    else
      var before := GroundPass(flights[..|flights| - 1], c);
      var f := flights[|flights| - 1];
      var st := GroundStep(f, before.counter);
      Pass(before.printed + (if st.printed then [f] else []), st.counter)
  }

  /** The segment loop emits the flight exactly when the counter is at most
      `Limit` after some number t of additions, 1 <= t <= remaining; it
      stops at the first such t and leaves the counter there; otherwise it
      leaves the counter after all `remaining` additions. */
  lemma {:induction false} RepeatCharacterization(c: int, g: int, m: nat)
    ensures Repeat(c, g, m).printed <==> exists t :: 1 <= t <= m && CounterAfter(c, g, t) <= Limit
    ensures Repeat(c, g, m).printed ==>
      exists t :: 1 <= t <= m && Repeat(c, g, m).counter == CounterAfter(c, g, t) <= Limit &&
        forall u :: 1 <= u < t ==> CounterAfter(c, g, u) > Limit
    ensures !Repeat(c, g, m).printed ==> Repeat(c, g, m).counter == CounterAfter(c, g, m)
    decreases m
  {
    if m > 0 {
      assert CounterAfter(c, g, 1) == c + g;
      var c' := c + g;
      if c' > Limit {
        RepeatCharacterization(c', g, m - 1);
        forall t | 1 <= t <= m - 1
          ensures CounterAfter(c', g, t) == CounterAfter(c, g, t + 1)
        {
          assert (t + 1) * g == t * g + g;
        }
        assert CounterAfter(c', g, m - 1) == CounterAfter(c, g, m) by {
          assert m * g == (m - 1) * g + g;
        }
        if Repeat(c, g, m).printed {
          var t :| 1 <= t <= m - 1 && Repeat(c', g, m - 1).counter == CounterAfter(c', g, t) <= Limit &&
            forall u :: 1 <= u < t ==> CounterAfter(c', g, u) > Limit;
          assert 1 <= t + 1 <= m && Repeat(c, g, m).counter == CounterAfter(c, g, t + 1) <= Limit;
          forall u | 1 <= u < t + 1
            ensures CounterAfter(c, g, u) > Limit
          {
            if u > 1 {
              assert CounterAfter(c', g, u - 1) == CounterAfter(c, g, u) by {
                assert u * g == (u - 1) * g + g;
              }
            }
          }
        } else {
          forall t | 1 <= t <= m
            ensures CounterAfter(c, g, t) > Limit
          {
            if t > 1 {
              assert CounterAfter(c', g, t - 1) == CounterAfter(c, g, t) by {
                assert t * g == (t - 1) * g + g;
              }
            }
          }
        }
      }
    }
  }

  /** Since the counter moves by the same g every time, the segment loop
      emits exactly when the first or the last addition leaves the counter
      at most `Limit`. */
  lemma RepeatClosedForm(c: int, g: int, m: nat)
    ensures Repeat(c, g, m).printed <==>
      m >= 1 && (CounterAfter(c, g, 1) <= Limit || CounterAfter(c, g, m) <= Limit)
  {
    RepeatCharacterization(c, g, m);
    if m >= 1 {
      if CounterAfter(c, g, 1) <= Limit {
        assert 1 <= 1 <= m && CounterAfter(c, g, 1) <= Limit;
      } else if CounterAfter(c, g, m) <= Limit {
        assert 1 <= m <= m && CounterAfter(c, g, m) <= Limit;
      } else {
        forall t | 1 <= t <= m
          ensures CounterAfter(c, g, t) > Limit
        {
          CounterBetweenEnds(c, g, t, m);
        }
      }
    }
  }

  /** Adding the same g again and again moves the counter monotonically,
      so every intermediate value lies between the first and the last. */
  lemma CounterBetweenEnds(c: int, g: int, t: nat, m: nat)
    requires 1 <= t <= m
    ensures CounterAfter(c, g, t) >= CounterAfter(c, g, 1) || CounterAfter(c, g, t) >= CounterAfter(c, g, m)
  {
    if g >= 0 {
      assert (t - 1) * g >= 0;
      assert t * g == (t - 1) * g + g;
    } else {
      assert (m - t) * g <= 0;
      assert m * g == t * g + (m - t) * g;
    }
  }

  /** The trivial cases of one flight's step: without segments it is never
      emitted, with one segment it is always emitted; neither touches the
      counter. With n >= 2 segments and ground time g the flight is emitted
      exactly when c + t * g <= 2 for some 1 <= t <= n, and the counter is
      left at the first such value, or at c + n * g when there is none. */
  lemma GroundStepCharacterization(f: Flight, c: int)
    ensures |f.segments| == 0 ==> GroundStep(f, c) == Step(false, c)
    ensures |f.segments| == 1 ==> GroundStep(f, c) == Step(true, c)
    ensures |f.segments| >= 2 ==>
      var n, g := |f.segments|, GroundSum(f.segments);
      (GroundStep(f, c).printed <==> exists t :: 1 <= t <= n && CounterAfter(c, g, t) <= Limit) &&
      (GroundStep(f, c).printed ==>
        exists t :: 1 <= t <= n && GroundStep(f, c).counter == CounterAfter(c, g, t) <= Limit &&
          forall u :: 1 <= u < t ==> CounterAfter(c, g, u) > Limit) &&
      (!GroundStep(f, c).printed ==> GroundStep(f, c).counter == CounterAfter(c, g, n))
  {
    if |f.segments| >= 2 {
      RepeatCharacterization(c, GroundSum(f.segments), |f.segments|);
    }
  }

  /** The counter is threaded, never reset: a pass over `a + b` is the pass
      over `a` followed by the pass over `b` entered with the counter `a`
      left behind. */
  lemma {:induction false} GroundPassConcat(a: seq<Flight>, b: seq<Flight>, c: int)
    ensures GroundPass(a + b, c) ==
      var pa := GroundPass(a, c);
      var pb := GroundPass(b, pa.counter);
      Pass(pa.printed + pb.printed, pb.counter)
    decreases |b|
  {
    if |b| == 0 {
      assert a + b == a;
    } else {
      var b' := b[..|b| - 1];
      assert (a + b)[..|a + b| - 1] == a + b';
      GroundPassConcat(a, b', c);
    }
  }

  /** A flight appended to the list is judged with the counter the
      earlier flights left behind. */
  lemma GroundPassSnoc(flights: seq<Flight>, f: Flight, c: int)
    ensures GroundPass(flights + [f], c) ==
      var before := GroundPass(flights, c);
      var st := GroundStep(f, before.counter);
      Pass(before.printed + (if st.printed then [f] else []), st.counter)
  {
    assert (flights + [f])[..|flights|] == flights;
  }

  /** The pass emits flights in input order, each at most once per
      occurrence. */
  lemma {:induction false} GroundPassSubsequence(flights: seq<Flight>, c: int)
    ensures SubsequenceOf(GroundPass(flights, c).printed, flights)
    decreases |flights|
  {
    if |flights| > 0 {
      var fs := flights[..|flights| - 1];
      var f := flights[|flights| - 1];
      assert flights == fs + [f];
      GroundPassSubsequence(fs, c);
      SubsequenceOfSnoc(GroundPass(fs, c).printed, fs, f);
      var st := GroundStep(f, GroundPass(fs, c).counter);
      if st.printed {
        assert GroundPass(flights, c).printed == GroundPass(fs, c).printed + [f];
      } else {
        assert GroundPass(flights, c).printed == GroundPass(fs, c).printed;
      }
    }
  }

  /** Flights with at most one segment never move the counter: over such a
      list the pass emits exactly the one-segment flights. */
  lemma {:induction false} GroundPassShortFlights(flights: seq<Flight>, c: int)
    requires forall i :: 0 <= i < |flights| ==> |flights[i].segments| <= 1
    ensures GroundPass(flights, c) == Pass(Filter((f: Flight) => |f.segments| == 1, flights), c)
    decreases |flights|
  {
    if |flights| > 0 {
      GroundPassShortFlights(flights[..|flights| - 1], c);
    }
  }

  /** The pass as the entry point runs it: nested loops over flights,
      segments and connections, with the counter starting at 0. */
  method GroundTimePass(flights: seq<Flight>) returns (printed: seq<Flight>, counter: int)
    ensures Pass(printed, counter) == GroundPass(flights, 0)
    ensures SubsequenceOf(printed, flights)
  {
    printed := [];
    counter := 0;
    var i := 0;
    while i < |flights|
      invariant 0 <= i <= |flights|
      invariant Pass(printed, counter) == GroundPass(flights[..i], 0)
    {
      var segs := flights[i].segments;
      var n := |segs|;
      ghost var entry := counter;
      ghost var before := printed;
      ghost var emitted := false;
      var j := 0;
      while j < n
        invariant 0 <= j <= n
        invariant n == 0 ==> counter == entry && printed == before
        invariant n == 1 ==> counter == entry && printed == before + (if j == 1 then [flights[i]] else [])
        invariant n >= 2 ==> printed == before
        invariant n >= 2 ==> Repeat(counter, GroundSum(segs), n - j) == Repeat(entry, GroundSum(segs), n)
        invariant !emitted
      {
        if n == 1 {
          printed := printed + [flights[i]];
        } else if n > 1 {
          ghost var start := counter;
          var k := 1;
          while k < n
            invariant 1 <= k <= n
            invariant counter == start + GroundPrefix(segs, k)
          {
            counter := counter + TimeOnGround(segs[k - 1].arrival, segs[k].departure);
            k := k + 1;
          }
          if counter <= 2 {
            printed := printed + [flights[i]];
            emitted := true;
            break;
          }
        }
        j := j + 1;
      }
      assert emitted ==> GroundStep(flights[i], entry) == Step(true, counter) && printed == before + [flights[i]];
      assert !emitted ==>
               GroundStep(flights[i], entry) == Step(n == 1, counter) &&
               printed == before + (if n == 1 then [flights[i]] else []);
      assert flights[..i + 1][..i] == flights[..i];
      i := i + 1;
    }
    assert flights[..i] == flights;
    GroundPassSubsequence(flights, 0);
  }
}
