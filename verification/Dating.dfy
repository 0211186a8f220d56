/**
  The dates of reordertp.c: when a packet is due, in terms of when its sender sent it and how long it was on the way.
 */
module Dating {
  import opened Base
  import opened Packets
  import opened RtpClock
  import opened Reorder
  import ReorderBuffer

  /** The clock of this program: 27 MHz. */
  const TICKS_PER_SECOND := 27_000_000

  /** The units in which a sender counts: 90 kHz for transport streams, and milliseconds for anything else. */
  function UnitsPerSecond(isTs: bool): nat {
    if isTs then 90_000 else 1_000
  }

  /** The duration of a sender's units in ticks of 27 MHz. */
  function Ticks(units: int, isTs: bool): int {
    units * (TICKS_PER_SECOND / UnitsPerSecond(isTs))
  }

  /** A packet that drives the clock: it was not resent, and it comes from an input that counts. */
  predicate IsReference(rtp: Rtp, wall: int) {
    !rtp.marker && wall != 0
  }

  /** A packet that is no reference leaves the clock as it was, and is dated by it. */
  lemma OthersLeaveClock(cfg: Config, s: State, rtp: Rtp, wall: int)
    requires cfg.Valid() && rtp.valid && !IsReference(rtp, wall)
    ensures Receive(cfg, s, rtp, wall).clock == s.clock
    ensures Stamped(cfg, s, rtp, wall).date
         == ToWall(s.clock, Scaled(BuildTimestamp(s.timestamp, rtp.timestamp), rtp.isTs)) + cfg.bufferLength
  {
    hide BuildTimestamp;
  }

  /** A reference that is not ignored is due one buffer length after its arrival, give or take the jitter. */
  lemma DueAfterBuffer(cfg: Config, s: State, rtp: Rtp, wall: int)
    requires cfg.Valid() && ValidClock(s.clock) && rtp.valid && IsReference(rtp, wall)
    ensures var scaled := Scaled(BuildTimestamp(s.timestamp, rtp.timestamp), rtp.isTs);
            var outcome := FilterRef(cfg.clock, s.clock, scaled, wall).1;
            var late := Stamped(cfg, s, rtp, wall).date - (wall + cfg.bufferLength);
            && (outcome == Reset ==> late == 0)
            && (outcome == Accepted ==> Abs(late) <= cfg.clock.maxJitter)
  {
    hide BuildTimestamp;
    NewRefEffect(cfg.clock, s.clock, Scaled(BuildTimestamp(s.timestamp, rtp.timestamp), rtp.isTs), wall);
  }

  // ---------------------------------------------------------------------------------------------
  // Constant transit
  // ---------------------------------------------------------------------------------------------

  /** A sender: the unwrapped timestamp, in its own units, that each of its packets has. */
  type Sender = int -> int

  /** A packet is one of the sender's, and if it is a reference it has been on the way for a certain time. */
  predicate OnItsWay(sender: Sender, isTs: bool, transit: int, rtp: Rtp, wall: int) {
    && rtp.isTs == isTs && rtp.timestamp == sender(rtp.ext) % POW2_32
    && (IsReference(rtp, wall) ==> wall == Ticks(sender(rtp.ext), isTs) + transit)
  }

  /**
    All valid packets of a run are the sender's, every reference has been on the way equally long, and
    from one arrival to the next the timestamps move by less than half of the 32-bit circle. The last arrival before
    had the timestamp `last`.
   */
  predicate Regular(sender: Sender, isTs: bool, transit: int, last: int, events: seq<Event>)
    decreases |events|
  {
    events != [] ==>
      if events[0].Recv? && events[0].rtp.valid then
        var now := sender(events[0].rtp.ext);
        && OnItsWay(sender, isTs, transit, events[0].rtp, events[0].wall)
        && -(POW2_32 / 2) <= now - last < POW2_32 / 2
        && Regular(sender, isTs, transit, now, events[1..])
      else Regular(sender, isTs, transit, last, events[1..])
  }

  /** The timestamp and the clock give the last arrival its place on the wall clock. */
  predicate Calibrated(s: State, isTs: bool, transit: int, last: int) {
    && s.timestamp % POW2_32 == last % POW2_32
    && ToWall(s.clock, Scaled(s.timestamp, isTs)) == Ticks(last, isTs) + transit
    && ValidClock(s.clock)
  }

  /** The date that is right for a packet. */
  predicate Dated(cfg: Config, sender: Sender, isTs: bool, transit: int, p: Packet) {
    p.date == Ticks(sender(p.Ext()), isTs) + transit + cfg.bufferLength
  }

  predicate AllDated(cfg: Config, sender: Sender, isTs: bool, transit: int, packets: seq<Packet>) {
    forall k :: 0 <= k < |packets| ==> Dated(cfg, sender, isTs, transit, packets[k])
  }

  /** Moving the timestamp moves the predicted date by the same time. */
  lemma MovesAlike(s: State, isTs: bool, transit: int, last: int, now: int)
    requires Calibrated(s, isTs, transit, last) && -(POW2_32 / 2) <= now - last < POW2_32 / 2
    ensures var next := BuildTimestamp(s.timestamp, now % POW2_32);
            && next % POW2_32 == now % POW2_32
            && ToWall(s.clock, Scaled(next, isTs)) == Ticks(now, isTs) + transit
  {
    hide BuildTimestamp;
    UnwrapStep(s.timestamp, last, now);
    BuildTimestampNearest(s.timestamp, now % POW2_32, BuildTimestamp(s.timestamp, now % POW2_32));
  }

  /** A reference that comes exactly when it is expected changes no prediction. */
  lemma ExpectedChangesNothing(cfg: ClockConfig, c: Clock, clock: int, wall: int, x: int)
    requires cfg.average >= 1 && ValidClock(c) && ToWall(c, clock) == wall
    ensures var next := FilterRef(cfg, c, clock, wall).0; ValidClock(next) && ToWall(next, x) == ToWall(c, x)
  {
    NewRefEffect(cfg, c, clock, wall);
    OutcomeByPrediction(cfg, c, clock, wall);
  }

  lemma ReceiveCalibrated(cfg: Config, s: State, sender: Sender, isTs: bool, transit: int, last: int,
                          rtp: Rtp, wall: int)
    requires cfg.Valid() && Calibrated(s, isTs, transit, last) && rtp.valid
    requires OnItsWay(sender, isTs, transit, rtp, wall) && -(POW2_32 / 2) <= sender(rtp.ext) - last < POW2_32 / 2
    ensures Calibrated(Receive(cfg, s, rtp, wall), isTs, transit, sender(rtp.ext))
    ensures Dated(cfg, sender, isTs, transit, Stamped(cfg, s, rtp, wall))
  {
    hide BuildTimestamp, FilterRef, ToWall, Ticks, ReorderBuffer.Insert, Scaled;
    var next := BuildTimestamp(s.timestamp, rtp.timestamp);
    MovesAlike(s, isTs, transit, last, sender(rtp.ext));
    if IsReference(rtp, wall) {
      ExpectedChangesNothing(cfg.clock, s.clock, Scaled(next, isTs), wall, Scaled(next, isTs));
    }
  }

  /** The first packet of all sets the clock, if it is a reference and the allowed gap is not larger than 6 hours. */
  lemma FirstCalibrates(cfg: Config, retxCount: nat, sender: Sender, isTs: bool, transit: int, rtp: Rtp, wall: int)
    requires cfg.Valid() && cfg.clock.maxGap < 300 * (POW2_32 / 2) && rtp.valid
    requires OnItsWay(sender, isTs, transit, rtp, wall) && IsReference(rtp, wall)
    ensures var s := InitialWorld(retxCount).state;
            && Calibrated(Receive(cfg, s, rtp, wall), isTs, transit, sender(rtp.ext))
            && Dated(cfg, sender, isTs, transit, Stamped(cfg, s, rtp, wall))
  {
    hide BuildTimestamp, FilterRef, Ticks, ReorderBuffer.Insert;
    var next := BuildTimestamp(INITIAL_TIMESTAMP, rtp.timestamp);
    BuildTimestampNearest(INITIAL_TIMESTAMP, rtp.timestamp, next);
    NewRefEffect(cfg.clock, INITIAL_CLOCK, Scaled(next, isTs), wall);
    OutcomeByPrediction(cfg.clock, INITIAL_CLOCK, Scaled(next, isTs), wall);
  }

  lemma {:induction false} RunDates(cfg: Config, w: World, events: seq<Event>,
                                    sender: Sender, isTs: bool, transit: int, last: int)
    requires cfg.Valid() && ReorderBuffer.WellFormed(w.state.buffer) && Calibrated(w.state, isTs, transit, last)
    requires Regular(sender, isTs, transit, last, events) && AllDated(cfg, sender, isTs, transit, w.received)
    ensures AllDated(cfg, sender, isTs, transit, Reorder.Run(cfg, w, events).received)
    decreases |events|
  {
    hide Calibrated, OnItsWay, Dated, Receive, Stamped, ReorderBuffer.Check, ReorderBuffer.Pop;
    if events != [] {
      var t := Step(cfg, w, events[0]);
      if events[0].Recv? && events[0].rtp.valid {
        var rtp, wall := events[0].rtp, events[0].wall;
        ReceiveCalibrated(cfg, w.state, sender, isTs, transit, last, rtp, wall);
        assert t.received == w.received + [Stamped(cfg, w.state, rtp, wall)];
        RunDates(cfg, t, events[1..], sender, isTs, transit, sender(rtp.ext));
      } else {
        StaysCalibrated(w.state, t.state, isTs, transit, last);
        RunDates(cfg, t, events[1..], sender, isTs, transit, last);
      }
    }
  }

  lemma StaysCalibrated(s: State, t: State, isTs: bool, transit: int, last: int)
    requires Calibrated(s, isTs, transit, last) && t.timestamp == s.timestamp && t.clock == s.clock
    ensures Calibrated(t, isTs, transit, last)
  {
  }

  /**
    A run from the start, whose first packet is a reference, and whose references have all been on the way equally
    long: every packet that is received, whether it is a reference or was resent, and whenever it comes in, is dated
    its sender's time, plus the transit time, plus the length of the buffer. So a reference is due exactly
    when the length of the buffer has passed since its arrival, and the others fall in between as they were sent.
   */
  lemma DatesAreSendersTime(cfg: Config, retxCount: nat, events: seq<Event>, sender: Sender, isTs: bool, transit: int)
    requires cfg.Valid() && cfg.clock.maxGap < 300 * (POW2_32 / 2)
    requires events != [] && events[0].Recv? && events[0].rtp.valid && IsReference(events[0].rtp, events[0].wall)
    requires Regular(sender, isTs, transit, sender(events[0].rtp.ext), events)
    ensures var w := Reorder.Run(cfg, InitialWorld(retxCount), events);
            && (forall k :: 0 <= k < |w.received| ==>
                  w.received[k].date == Ticks(sender(w.received[k].Ext()), isTs) + transit + cfg.bufferLength)
            && |w.received| > 0 && w.received[0].date == events[0].wall + cfg.bufferLength
            && (forall p :: p in w.Blocks() || p in w.sent ==>
                  p.date == Ticks(sender(p.Ext()), isTs) + transit + cfg.bufferLength)
  {
    hide Calibrated, Receive, Stamped, ReorderBuffer.Insert, Balanced, Ticks, ReorderBuffer.Check, ReorderBuffer.Pop;
    var w := InitialWorld(retxCount);
    var rtp, wall := events[0].rtp, events[0].wall;
    var t := Step(cfg, w, events[0]);
    FirstCalibrates(cfg, retxCount, sender, isTs, transit, rtp, wall);
    StampKeepsExt(cfg, w.state, rtp, wall);
    assert t.received == [Stamped(cfg, w.state, rtp, wall)];
    RunDates(cfg, t, events[1..], sender, isTs, transit, sender(rtp.ext));
    var r := Reorder.Run(cfg, w, events);
    ReceivedGrows(cfg, t, events[1..]);
    assert forall k :: 0 <= k < |r.received| ==> Dated(cfg, sender, isTs, transit, r.received[k]);
    InitiallyInOrder(retxCount);
    RunBalances(cfg, w, events);
    BalancedDated(cfg, r, sender, isTs, transit);
  }

  lemma BalancedDated(cfg: Config, w: World, sender: Sender, isTs: bool, transit: int)
    requires Balanced(w) && AllDated(cfg, sender, isTs, transit, w.received)
    ensures forall p :: p in w.Blocks() || p in w.sent ==> Dated(cfg, sender, isTs, transit, p)
  {
    hide Dated;
    forall p | p in w.Blocks() || p in w.sent ensures Dated(cfg, sender, isTs, transit, p) {
      assert p in multiset(w.Blocks()) + multiset(w.sent);
      assert p in multiset(w.received);
    }
  }
}
