/**
  The two clocks of reordertp.c: the unwrapping of 32-bit RTP timestamps, and the filter that ties
  the sender's clock to the wall clock.
 */
module RtpClock {
  import opened Base

  // ---------------------------------------------------------------------------------------------
  // Timestamp unwrapping
  // ---------------------------------------------------------------------------------------------

  /** The value of the unwrapped timestamp before the first packet. */
  const INITIAL_TIMESTAMP := POW2_32

  /** The new unwrapped timestamp: the last one moved by the signed 32-bit distance to the field. */
  function BuildTimestamp(last: int, timestamp: U32): int {
    last + ((POW2_32 * 3 / 2 + timestamp - last % POW2_32) % POW2_32 - POW2_32 / 2)
  }

  /** The unwrapped timestamp is the one value with the right field in the half-open window around the last. */
  lemma BuildTimestampNearest(last: int, timestamp: U32, next: int)
    ensures next == BuildTimestamp(last, timestamp)
       <==> next % POW2_32 == timestamp && -(POW2_32 / 2) <= next - last < POW2_32 / 2
  {
    var built := BuildTimestamp(last, timestamp);
    var d := POW2_32 * 3 / 2 + timestamp - last % POW2_32;
    assert built == timestamp + (last / POW2_32 - d / POW2_32 + 1) * POW2_32;
    if next % POW2_32 == timestamp && -(POW2_32 / 2) <= next - last < POW2_32 / 2 {
      SameResidue(next, built, POW2_32);
    }
  }

  /** Two numbers of one residue that are less than the modulus apart are equal. */
  lemma SameResidue(a: int, b: int, m: nat)
    requires m > 0 && a % m == b % m && 0 - m < a - b < m
    ensures a == b
  {
    var q := a / m - b / m;
    assert a - b == q * m;
    if q >= 1 { MulMonotone(1, q, m); }
    if q <= -1 { MulMonotone(q, -1, m); }
  }

  /** The unwrapped timestamps of a run of packets whose true timestamps are given. */
  function Unwrapped(last: int, truth: seq<int>): (built: seq<int>)
    ensures |built| == |truth|
    decreases |truth|
  {
    if truth == [] then [] else
      var next := BuildTimestamp(last, truth[0] % POW2_32);
      [next] + Unwrapped(next, truth[1..])
  }

  /** Between two packets the true timestamp moves by less than half of the 32-bit circle (or exactly half, back). */
  predicate SmallMoves(truth: seq<int>) {
    forall k {:trigger truth[k]} :: 0 < k < |truth| ==> -(POW2_32 / 2) <= truth[k] - truth[k - 1] < POW2_32 / 2
  }

  /** One unwrapping step keeps the distance to the true timestamp exactly when the move is small. */
  lemma UnwrapStep(last: int, before: int, after: int)
    requires last % POW2_32 == before % POW2_32
    ensures BuildTimestamp(last, after % POW2_32) - after == last - before
       <==> -(POW2_32 / 2) <= after - before < POW2_32 / 2
  {
    hide BuildTimestamp;
    BuildTimestampNearest(last, after % POW2_32, last + after - before);
    Shifted(last, before, after);
  }

  lemma Shifted(a: int, b: int, c: int)
    requires a % POW2_32 == b % POW2_32
    ensures (a + c - b) % POW2_32 == c % POW2_32
  {
    assert a + c - b == c + (a / POW2_32 - b / POW2_32) * POW2_32;
  }

  /**
    Over a whole run the unwrapped timestamps carry the field of each packet, and they follow the
    true ones at a constant distance exactly when no move is too large.
   */
  lemma {:induction false} UnwrapRun(last: int, truth: seq<int>)
    ensures forall k :: 0 <= k < |truth| ==> Unwrapped(last, truth)[k] % POW2_32 == truth[k] % POW2_32
    ensures SmallMoves(truth)
       <==> forall k :: 0 <= k < |truth| ==>
              Unwrapped(last, truth)[k] - truth[k] == Unwrapped(last, truth)[0] - truth[0]
    decreases |truth|
  {
    if truth != [] {
      var built := Unwrapped(last, truth);
      BuildTimestampNearest(last, truth[0] % POW2_32, built[0]);
      var rest := truth[1..];
      UnwrapRun(built[0], rest);
      var tail := Unwrapped(built[0], rest);
      assert built[1..] == tail;
      forall k | 0 <= k < |truth| ensures built[k] % POW2_32 == truth[k] % POW2_32 {
        if k > 0 {
          assert tail[k - 1] % POW2_32 == rest[k - 1] % POW2_32;
        }
      }
      if |truth| > 1 {
        UnwrapStep(built[0], truth[0], truth[1]);
        assert built[1] == tail[0] == BuildTimestamp(built[0], truth[1] % POW2_32);
        SmallMovesTail(truth);
        if SmallMoves(truth) {
          forall k | 0 <= k < |truth| ensures built[k] - truth[k] == built[0] - truth[0] {
            if k > 0 {
              assert tail[k - 1] - rest[k - 1] == tail[0] - rest[0];
            }
          }
        }
        if forall k :: 0 <= k < |truth| ==> built[k] - truth[k] == built[0] - truth[0] {
          forall k | 0 <= k < |rest| ensures tail[k] - rest[k] == tail[0] - rest[0] {
            assert built[k + 1] - truth[k + 1] == built[0] - truth[0];
            assert built[1] - truth[1] == built[0] - truth[0];
          }
          assert built[1] - truth[1] == built[0] - truth[0];
        }
      }
    }
  }

  /** A move forward by exactly half of the circle is taken for a move back. */
  lemma HalfMoveGoesBack()
    ensures Unwrapped(INITIAL_TIMESTAMP, [0, POW2_32 / 2]) == [POW2_32, POW2_32 - POW2_32 / 2]
  {
    var truth := [0, POW2_32 / 2];
    assert truth[1..] == [POW2_32 / 2] && truth[1..][1..] == [];
  }

  lemma SmallMovesTail(truth: seq<int>)
    requires |truth| > 1
    ensures SmallMoves(truth) <==> SmallMoves(truth[1..]) && -(POW2_32 / 2) <= truth[1] - truth[0] < POW2_32 / 2
  {
    var rest := truth[1..];
    if SmallMoves(rest) && -(POW2_32 / 2) <= truth[1] - truth[0] < POW2_32 / 2 {
      forall k {:trigger truth[k]} | 0 < k < |truth|
        ensures -(POW2_32 / 2) <= truth[k] - truth[k - 1] < POW2_32 / 2
      {
        if k > 1 {
          assert rest[k - 1] == truth[k];
        }
      }
    }
    if SmallMoves(truth) {
      forall k {:trigger rest[k]} | 0 < k < |rest|
        ensures -(POW2_32 / 2) <= rest[k] - rest[k - 1] < POW2_32 / 2
      {
        assert truth[k + 1] == rest[k];
      }
      assert truth[1] == truth[1];
    }
  }

  // ---------------------------------------------------------------------------------------------
  // Clock recovery
  // ---------------------------------------------------------------------------------------------

  const CR_MAX_SPACE_PACKETS := 10

  /** The command-line settings of the filter, in 27 MHz units. */
  datatype ClockConfig = ClockConfig(maxGap: nat, maxJitter: nat, average: nat)

  /** The fields of input_clock_t. */
  datatype Clock = Clock(deltaCr: int, crRef: int, wallRef: int, lastCr: int, spacePackets: int)

  const INITIAL_CLOCK := Clock(0, 0, 0, 0, 0)

  /** The wall-clock date that the filter gives to a date of the sender's clock. */
  function ToWall(c: Clock, clock: int): int {
    c.wallRef + (clock + c.deltaCr - c.crRef)
  }

  /** The distance from the sender's clock to the one extrapolated from the wall clock. */
  function Observed(c: Clock, clock: int, wall: int): int {
    c.crRef + wall - c.wallRef - clock
  }

  datatype Outcome = Reset | Accepted | Ignored

  function ResetTo(clock: int, wall: int): Clock {
    Clock(0, clock, wall, clock, 0)
  }

  /** What one clock reference does to the filter. */
  function FilterRef(cfg: ClockConfig, c: Clock, clock: int, wall: int): (Clock, Outcome)
    requires cfg.average >= 1
  {
    if !(0 - cfg.maxGap <= clock - c.lastCr <= cfg.maxGap) then
      (ResetTo(clock, wall), Reset)
    else
      var diff := Observed(c, clock, wall);
      if !(0 - cfg.maxJitter <= diff - c.deltaCr <= cfg.maxJitter) then
        if c.spacePackets + 1 > CR_MAX_SPACE_PACKETS then
          (ResetTo(clock, wall), Reset)
        else
          (c.(spacePackets := c.spacePackets + 1), Ignored)
      else
        (c.(spacePackets := 0, lastCr := clock,
            deltaCr := TruncDiv(c.deltaCr * (cfg.average - 1) + diff, cfg.average)), Accepted)
  }

  function Abs(x: int): nat {
    if x < 0 then -x else x
  }

  lemma TruncDivBounds(x: int, n: nat)
    requires n >= 1
    ensures var d := TruncDiv(x, n);
            if x >= 0 then d * n <= x < (d + 1) * n else (d - 1) * n < x <= d * n
  {
    if x < 0 {
      var q := -x / n;
      assert q * n <= -x < (q + 1) * n;
      assert (-q - 1) * n == -((q + 1) * n) && -q * n == -(q * n);
    }
  }

  /** A truncated mean with an upward offset: never below the start, never above the rounded-up share. */
  lemma SmoothedUp(delta: int, j: nat, n: nat, x: int, d: int, m: nat)
    requires n >= 1 && x == delta * n + j
    requires d == TruncDiv(x, n) && m == CeilDiv(j, n)
    ensures delta <= d <= delta + m && m <= j
  {
    hide TruncDiv, CeilDiv;
    TruncDivBounds(x, n);
    CeilDivBounds(j, n);
    CeilDivAtMost(j, n);
    assert (delta + m) * n == delta * n + m * n;
    assert (d + 1) * n == d * n + n && (d - 1) * n == d * n - n;
    CancelFactor(delta, d + 1, n);
    CancelFactor(d - 1, delta + m, n);
  }

  /**
    The new offset lies between the old one and the observed one, and it moves by at most the n-th
    part of their distance, rounded up.
   */
  lemma SmoothedBetween(delta: int, target: int, n: nat)
    requires n >= 1
    ensures var d := TruncDiv(delta * (n - 1) + target, n);
            && (delta <= d <= target || target <= d <= delta)
            && Abs(d - delta) <= CeilDiv(Abs(target - delta), n)
  {
    var j := target - delta;
    var x := delta * (n - 1) + target;
    var d := TruncDiv(x, n);
    assert x == delta * n + j;
    if j >= 0 {
      SmoothedUp(delta, j, n, x, d, CeilDiv(j, n));
    } else {
      assert -x == -delta * n + -j;
      SmoothedUp(-delta, -j, n, -x, -d, CeilDiv(-j, n));
    }
  }

  /** The number of ignored references in a row, as the filter counts them. */
  predicate ValidClock(c: Clock) {
    0 <= c.spacePackets <= CR_MAX_SPACE_PACKETS
  }

  /**
    A reference counts if the sender's clock has not jumped and the date that the filter predicts for it is close
    enough.
   */
  lemma OutcomeByPrediction(cfg: ClockConfig, c: Clock, clock: int, wall: int)
    requires cfg.average >= 1 && ValidClock(c)
    ensures var outcome := FilterRef(cfg, c, clock, wall).1;
            var jumped := Abs(clock - c.lastCr) > cfg.maxGap;
            var stray := Abs(ToWall(c, clock) - wall) > cfg.maxJitter;
            && (outcome == Accepted <==> !jumped && !stray)
            && (outcome == Reset <==> jumped || (stray && c.spacePackets == CR_MAX_SPACE_PACKETS))
  {
  }

  /** The mean of n - 1 times the old offset and once the observed one, rounded toward zero. */
  predicate IsMean(mean: int, old_: int, observed: int, n: nat) {
    var sum := old_ * (n - 1) + observed;
    if sum >= 0 then mean * n <= sum < (mean + 1) * n else (mean - 1) * n < sum <= mean * n
  }

  /** What each of the three outcomes means for the dates that the filter gives out afterwards. */
  lemma NewRefEffect(cfg: ClockConfig, c: Clock, clock: int, wall: int)
    requires cfg.average >= 1 && ValidClock(c)
    ensures var (next, outcome) := FilterRef(cfg, c, clock, wall);
            var target := Observed(c, clock, wall);
            && ValidClock(next)
            && next.lastCr == (if outcome == Ignored then c.lastCr else clock)
            && match outcome
               case Reset =>
                 && ToWall(next, clock) == wall && next.spacePackets == 0
                 && forall x :: Observed(next, clock, x) - next.deltaCr == x - wall
               case Ignored =>
                 && next.spacePackets == c.spacePackets + 1
                 && Abs(ToWall(c, clock) - wall) > cfg.maxJitter
                 && forall x :: ToWall(next, x) == ToWall(c, x)
               case Accepted =>
                 && next.spacePackets == 0
                 && Abs(ToWall(next, clock) - wall) <= Abs(ToWall(c, clock) - wall) <= cfg.maxJitter
                 && (c.deltaCr <= next.deltaCr <= target || target <= next.deltaCr <= c.deltaCr)
                 && IsMean(next.deltaCr, c.deltaCr, target, cfg.average)
                 && Abs(next.deltaCr - c.deltaCr) <= CeilDiv(cfg.maxJitter, cfg.average)
                 && forall x :: Observed(next, x, wall) == Observed(c, x, wall)
  {
    var target := Observed(c, clock, wall);
    SmoothedBetween(c.deltaCr, target, cfg.average);
    TruncDivBounds(c.deltaCr * (cfg.average - 1) + target, cfg.average);
    if Abs(target - c.deltaCr) <= cfg.maxJitter {
      DivMonotone(Abs(target - c.deltaCr) + cfg.average - 1, cfg.maxJitter + cfg.average - 1, cfg.average);
    }
  }

  /** A clock reference: the sender's date and the wall date at which it arrived. */
  datatype Ref = Ref(clock: int, wall: int)

  function RunRefs(cfg: ClockConfig, c: Clock, refs: seq<Ref>): (outcomes: seq<Outcome>)
    requires cfg.average >= 1
    ensures |outcomes| == |refs|
    decreases |refs|
  {
    if refs == [] then [] else
      var (next, outcome) := FilterRef(cfg, c, refs[0].clock, refs[0].wall);
      [outcome] + RunRefs(cfg, next, refs[1..])
  }

  function ClockAfter(cfg: ClockConfig, c: Clock, refs: seq<Ref>): Clock
    requires cfg.average >= 1
    decreases |refs|
  {
    if refs == [] then c else
      ClockAfter(cfg, FilterRef(cfg, c, refs[0].clock, refs[0].wall).0, refs[1..])
  }

  /** The sender's date of the last reference before reference k that was not ignored. */
  function Counted(c: Clock, refs: seq<Ref>, outcomes: seq<Outcome>, k: nat): int
    requires k <= |refs| == |outcomes|
    decreases k
  {
    if k == 0 then c.lastCr
    else if outcomes[k - 1] != Ignored then refs[k - 1].clock
    else Counted(c, refs, outcomes, k - 1)
  }

  /** How many references right before reference k were ignored. */
  function Strays(c: Clock, outcomes: seq<Outcome>, k: nat): int
    requires k <= |outcomes|
    decreases k
  {
    if k == 0 then c.spacePackets else if outcomes[k - 1] == Ignored then Strays(c, outcomes, k - 1) + 1 else 0
  }

  lemma {:induction false} CountedTail(c: Clock, refs: seq<Ref>, outcomes: seq<Outcome>, next: Clock, k: nat)
    requires 0 < k <= |refs| == |outcomes|
    requires next.lastCr == (if outcomes[0] != Ignored then refs[0].clock else c.lastCr)
    requires next.spacePackets == (if outcomes[0] == Ignored then c.spacePackets + 1 else 0)
    ensures Counted(c, refs, outcomes, k) == Counted(next, refs[1..], outcomes[1..], k - 1)
    ensures Strays(c, outcomes, k) == Strays(next, outcomes[1..], k - 1)
    decreases k
  {
    if k == 1 {
      assert Counted(c, refs, outcomes, 0) == c.lastCr && Strays(c, outcomes, 0) == c.spacePackets;
    } else {
      CountedTail(c, refs, outcomes, next, k - 1);
    }
  }

  /**
    What becomes of each reference of a run, in terms of the references before it. It has jumped if it is further than
    maxGap from the last one that was not ignored; it is a stray if the date predicted for it is further than maxJitter
    from its own. It resets the filter if it has jumped, or is a stray behind ten that were ignored; it is
    ignored if it is another stray; otherwise it is accepted.
   */
  lemma {:induction false} OutcomeInRun(cfg: ClockConfig, c: Clock, refs: seq<Ref>, k: nat)
    requires cfg.average >= 1 && ValidClock(c) && k < |refs|
    ensures var outcomes := RunRefs(cfg, c, refs);
            var jumped := Abs(refs[k].clock - Counted(c, refs, outcomes, k)) > cfg.maxGap;
            var stray := Abs(ToWall(ClockAfter(cfg, c, refs[..k]), refs[k].clock) - refs[k].wall) > cfg.maxJitter;
            && (outcomes[k] == Reset <==> jumped || (stray && Strays(c, outcomes, k) == 10))
            && (outcomes[k] == Accepted <==> !jumped && !stray)
            && 0 <= Strays(c, outcomes, k) <= 10
    decreases k
  {
    hide FilterRef, ToWall, Observed, Abs;
    var (next, outcome) := FilterRef(cfg, c, refs[0].clock, refs[0].wall);
    var outcomes := RunRefs(cfg, c, refs);
    assert outcomes == [outcome] + RunRefs(cfg, next, refs[1..]);
    OutcomeByPrediction(cfg, c, refs[0].clock, refs[0].wall);
    if k == 0 {
      assert refs[..0] == [];
    } else {
      NextCounts(cfg, c, refs[0].clock, refs[0].wall);
      OutcomeInRun(cfg, next, refs[1..], k - 1);
      assert outcomes[1..] == RunRefs(cfg, next, refs[1..]);
      CountedTail(c, refs, outcomes, next, k);
      assert refs[..k][1..] == refs[1..][..k - 1];
    }
  }

  lemma NextCounts(cfg: ClockConfig, c: Clock, clock: int, wall: int)
    requires cfg.average >= 1 && ValidClock(c)
    ensures var (next, outcome) := FilterRef(cfg, c, clock, wall);
            && ValidClock(next)
            && next.lastCr == (if outcome != Ignored then clock else c.lastCr)
            && next.spacePackets == (if outcome == Ignored then c.spacePackets + 1 else 0)
  {
    NewRefEffect(cfg, c, clock, wall);
  }

  /** Each reference is at most maxGap from the one before it. */
  predicate NoGaps(cfg: ClockConfig, last: int, refs: seq<Ref>) {
    forall k {:trigger refs[k]} :: 0 <= k < |refs| ==>
      Abs(refs[k].clock - (if k == 0 then last else refs[k - 1].clock)) <= cfg.maxGap
  }

  /** A run that is followed: every reference is accepted, and the dates predicted for them are within the jitter. */
  predicate Followed(cfg: ClockConfig, c: Clock, refs: seq<Ref>)
    requires cfg.average >= 1
  {
    forall k :: 0 <= k < |refs| ==>
      && RunRefs(cfg, c, refs)[k] == Accepted
      && Abs(ToWall(ClockAfter(cfg, c, refs[..k]), refs[k].clock) - refs[k].wall) <= cfg.maxJitter
  }

  /**
    However long a stream, as long as no two successive references are more than maxGap apart, and the transit times
    of all differ by no more than maxJitter, every reference is accepted, and each prediction is off by the jitter at
    most.
   */
  lemma {:induction false} SteadyIsFollowed(cfg: ClockConfig, c: Clock, refs: seq<Ref>, lo: int, hi: int)
    requires cfg.average >= 1 && ValidClock(c) && NoGaps(cfg, c.lastCr, refs)
    requires lo <= c.deltaCr <= hi && hi - lo <= cfg.maxJitter
    requires forall k :: 0 <= k < |refs| ==> lo <= Observed(c, refs[k].clock, refs[k].wall) <= hi
    ensures Followed(cfg, c, refs)
    decreases |refs|
  {
    if refs != [] {
      var (next, outcome) := FilterRef(cfg, c, refs[0].clock, refs[0].wall);
      NewRefEffect(cfg, c, refs[0].clock, refs[0].wall);
      OutcomeByPrediction(cfg, c, refs[0].clock, refs[0].wall);
      assert Abs(refs[0].clock - c.lastCr) <= cfg.maxGap;
      var rest := refs[1..];
      assert NoGaps(cfg, next.lastCr, rest) by {
        forall k {:trigger rest[k]} | 0 <= k < |rest|
          ensures Abs(rest[k].clock - (if k == 0 then next.lastCr else rest[k - 1].clock)) <= cfg.maxGap
        {
          assert rest[k] == refs[k + 1];
        }
      }
      forall k | 0 <= k < |rest| ensures lo <= Observed(next, rest[k].clock, rest[k].wall) <= hi {
        assert rest[k] == refs[k + 1];
      }
      SteadyIsFollowed(cfg, next, rest, lo, hi);
      FollowedOn(cfg, c, refs);
    }
  }

  lemma FollowedOn(cfg: ClockConfig, c: Clock, refs: seq<Ref>)
    requires cfg.average >= 1 && refs != []
    requires var (next, outcome) := FilterRef(cfg, c, refs[0].clock, refs[0].wall);
             outcome == Accepted && Followed(cfg, next, refs[1..])
    requires Abs(ToWall(c, refs[0].clock) - refs[0].wall) <= cfg.maxJitter
    ensures Followed(cfg, c, refs)
  {
    hide FilterRef, ToWall, Abs;
    var (next, outcome) := FilterRef(cfg, c, refs[0].clock, refs[0].wall);
    var rest := refs[1..];
    assert RunRefs(cfg, c, refs) == [outcome] + RunRefs(cfg, next, rest);
    forall k | 0 <= k < |refs|
      ensures RunRefs(cfg, c, refs)[k] == Accepted
      ensures Abs(ToWall(ClockAfter(cfg, c, refs[..k]), refs[k].clock) - refs[k].wall) <= cfg.maxJitter
    {
      if k == 0 {
        assert refs[..0] == [];
      } else {
        assert refs[..k][1..] == rest[..k - 1] && refs[k] == rest[k - 1];
        assert RunRefs(cfg, next, rest)[k - 1] == Accepted;
      }
    }
  }

  /** The time between what two references say: how much longer the second one was on the way. */
  function Lag(a: Ref, b: Ref): int {
    (b.wall - a.wall) - (b.clock - a.clock)
  }

  /**
    From the start: the first reference resets the filter if the sender's clock is far from 0, and from then on the
    stream is followed if no gap is too long and no reference lags more than the jitter behind another.
   */
  lemma StreamIsFollowed(cfg: ClockConfig, refs: seq<Ref>)
    requires cfg.average >= 1 && refs != [] && Abs(refs[0].clock) > cfg.maxGap
    requires NoGaps(cfg, refs[0].clock, refs[1..])
    requires forall j, k :: 0 <= j < |refs| && 0 <= k < |refs| ==> Lag(refs[j], refs[k]) <= cfg.maxJitter
    ensures var next := FilterRef(cfg, INITIAL_CLOCK, refs[0].clock, refs[0].wall).0;
            && RunRefs(cfg, INITIAL_CLOCK, refs)[0] == Reset
            && ToWall(next, refs[0].clock) == refs[0].wall
            && Followed(cfg, next, refs[1..])
  {
    var next := FilterRef(cfg, INITIAL_CLOCK, refs[0].clock, refs[0].wall).0;
    var rest := refs[1..];
    var lo, hi := LagBounds(refs);
    NewRefEffect(cfg, INITIAL_CLOCK, refs[0].clock, refs[0].wall);
    forall k | 0 <= k < |rest| ensures lo <= Observed(next, rest[k].clock, rest[k].wall) <= hi {
      assert rest[k] == refs[k + 1];
      assert Observed(next, rest[k].clock, rest[k].wall) == Lag(refs[0], refs[k + 1]);
    }
    SteadyIsFollowed(cfg, next, rest, lo, hi);
  }

  /** The least and the greatest lag behind the first reference. */
  lemma {:induction false} LagBounds(refs: seq<Ref>) returns (lo: int, hi: int)
    requires refs != []
    ensures lo <= 0 <= hi
    ensures forall k :: 0 <= k < |refs| ==> lo <= Lag(refs[0], refs[k]) <= hi
    ensures exists j, k :: 0 <= j < |refs| && 0 <= k < |refs| && Lag(refs[j], refs[k]) == hi - lo
    decreases |refs|
  {
    var n := |refs| - 1;
    if n == 0 {
      lo, hi := 0, 0;
      assert Lag(refs[0], refs[0]) == 0;
    } else {
      var front := refs[..n];
      lo, hi := LagBounds(front);
      var j, k :| 0 <= j < n && 0 <= k < n && Lag(front[j], front[k]) == hi - lo;
      var x := Lag(refs[0], refs[n]);
      if x < lo {
        WidestLag(front, lo, hi, j, k);
        assert Lag(refs[n], refs[k]) == hi - x;
        lo := x;
      } else if x > hi {
        WidestLag(front, lo, hi, j, k);
        assert Lag(refs[j], refs[n]) == x - lo;
        hi := x;
      } else {
        assert Lag(refs[j], refs[k]) == hi - lo;
      }
      forall i | 0 <= i < |refs| ensures lo <= Lag(refs[0], refs[i]) <= hi {
        assert i < n ==> front[i] == refs[i];
      }
    }
  }

  /** If the widest lag is the width of the range, its ends are the ends of the range. */
  lemma WidestLag(refs: seq<Ref>, lo: int, hi: int, j: nat, k: nat)
    requires j < |refs| && k < |refs| && Lag(refs[j], refs[k]) == hi - lo
    requires forall i :: 0 <= i < |refs| ==> lo <= Lag(refs[0], refs[i]) <= hi
    ensures Lag(refs[0], refs[j]) == lo && Lag(refs[0], refs[k]) == hi
  {
    assert Lag(refs[j], refs[k]) == Lag(refs[0], refs[k]) - Lag(refs[0], refs[j]);
  }

  /** Never more than CR_MAX_SPACE_PACKETS references in a row are ignored, wherever in a run one looks. */
  lemma {:induction false} IgnoredInARow(cfg: ClockConfig, c: Clock, refs: seq<Ref>, i: nat, j: nat)
    requires cfg.average >= 1 && ValidClock(c)
    requires i <= j <= |refs|
    requires forall k :: i <= k < j ==> RunRefs(cfg, c, refs)[k] == Ignored
    ensures j - i <= 10 - (if i == 0 then c.spacePackets else 0)
    decreases |refs|
  {
    if j > 0 {
      var outcomes := RunRefs(cfg, c, refs);
      var (next, outcome) := FilterRef(cfg, c, refs[0].clock, refs[0].wall);
      NewRefEffect(cfg, c, refs[0].clock, refs[0].wall);
      assert outcomes == [outcome] + RunRefs(cfg, next, refs[1..]);
      var i' := if i == 0 then 0 else i - 1;
      forall k | i' <= k < j - 1 ensures RunRefs(cfg, next, refs[1..])[k] == Ignored {
        assert outcomes[k + 1] == Ignored;
      }
      if i == 0 {
        assert outcomes[0] == Ignored;
      }
      IgnoredInARow(cfg, next, refs[1..], i', j - 1);
    }
  }

  /** No over-shoot over a run: while nothing resets, the offset stays in any range that holds every observation. */
  lemma {:induction false} OffsetStaysInRange(cfg: ClockConfig, c: Clock, refs: seq<Ref>, lo: int, hi: int)
    requires cfg.average >= 1 && ValidClock(c)
    requires lo <= c.deltaCr <= hi
    requires forall k :: 0 <= k < |refs| ==> lo <= Observed(c, refs[k].clock, refs[k].wall) <= hi
    requires Reset !in RunRefs(cfg, c, refs)
    ensures lo <= ClockAfter(cfg, c, refs).deltaCr <= hi
    decreases |refs|
  {
    if refs != [] {
      var (next, outcome) := FilterRef(cfg, c, refs[0].clock, refs[0].wall);
      NewRefEffect(cfg, c, refs[0].clock, refs[0].wall);
      assert RunRefs(cfg, c, refs) == [outcome] + RunRefs(cfg, next, refs[1..]);
      assert outcome in RunRefs(cfg, c, refs);
      forall x | x in RunRefs(cfg, next, refs[1..]) ensures x in RunRefs(cfg, c, refs) {
      }
      forall k | 0 <= k < |refs[1..]|
        ensures lo <= Observed(next, refs[1..][k].clock, refs[1..][k].wall) <= hi
      {
        assert refs[1..][k] == refs[k + 1];
      }
      OffsetStaysInRange(cfg, next, refs[1..], lo, hi);
    }
  }

  /** The global input_clock, whose fields clock_NewRef overwrites. */
  class InputClock {
    var deltaCr: int
    var crRef: int
    var wallRef: int
    var lastCr: int
    var spacePackets: int

    function View(): Clock
      reads this
    {
      Clock(deltaCr, crRef, wallRef, lastCr, spacePackets)
    }

    constructor ()
      ensures View() == INITIAL_CLOCK
    {
      deltaCr, crRef, wallRef, lastCr, spacePackets := 0, 0, 0, 0, 0;
    }

    method Init()
      modifies this
      ensures View() == INITIAL_CLOCK
    {
      lastCr, crRef, wallRef, deltaCr, spacePackets := 0, 0, 0, 0, 0;
    }

    method NewRef(cfg: ClockConfig, clock: int, wall: int) returns (outcome: Outcome)
      requires cfg.average >= 1
      modifies this
      ensures (View(), outcome) == FilterRef(cfg, old(View()), clock, wall)
    {
      var diff := clock - lastCr;
      if diff > cfg.maxGap || diff < 0 - cfg.maxGap {
        Init();
        crRef, lastCr := clock, clock;
        wallRef := wall;
        return Reset;
      }
      var extrapolated := crRef + wall - wallRef;
      diff := extrapolated - clock;
      var jitter := diff - deltaCr;
      if jitter > cfg.maxJitter || jitter < 0 - cfg.maxJitter {
        spacePackets := spacePackets + 1;
        if spacePackets > CR_MAX_SPACE_PACKETS {
          Init();
          crRef, lastCr := clock, clock;
          wallRef := wall;
          return Reset;
        }
        return Ignored;
      }
      spacePackets := 0;
      lastCr := clock;
      deltaCr := TruncDiv(deltaCr * (cfg.average - 1) + diff, cfg.average);
      return Accepted;
    }
  }
}
