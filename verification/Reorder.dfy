/** The whole state of reordertp.c as a value, its steps, and what every run keeps. */
module Reorder {
  import opened Base
  import opened Codec
  import opened Packets
  import opened RtpClock
  import opened ReorderBuffer

  /** The settings of the program, in 27 MHz units. */
  datatype Config = Config(clock: ClockConfig, bufferLength: nat, retxDelay: nat, maxRetxBurst: nat) {
    predicate Valid() { clock.average >= 1 }
  }

  datatype State = State(timestamp: int, clock: Clock, buffer: Buffer)

  /** The sender's date of a packet in 27 MHz units: transport streams count at 90 kHz, the rest in milliseconds. */
  function Scaled(timestamp: int, isTs: bool): int {
    timestamp * (if isTs then 300 else 27000)
  }

  /** The new timestamp and clock, and the packet as it will be buffered: dated, with its marker cleared. */
  function Stamp(cfg: Config, timestamp: int, clock: Clock, rtp: Rtp, wall: int): (int, Clock, Packet)
    requires cfg.Valid()
  {
    var next := BuildTimestamp(timestamp, rtp.timestamp);
    var scaled := Scaled(next, rtp.isTs);
    var c := if rtp.marker || wall == 0 then clock else FilterRef(cfg.clock, clock, scaled, wall).0;
    (next, c, Packet(rtp.(marker := false), ToWall(c, scaled) + cfg.bufferLength))
  }

  /** What arrives from the network at a wall date; 0 stands for a packet that must not drive the clock. */
  function Receive(cfg: Config, s: State, rtp: Rtp, wall: int): State
    requires cfg.Valid()
  {
    if !rtp.valid then s else
      var (timestamp, clock, p) := Stamp(cfg, s.timestamp, s.clock, rtp, wall);
      State(timestamp, clock, Insert(s.buffer, p))
  }

  /** The requests that leave for the reported gaps: those of more than maxRetxBurst packets are given up. */
  function Requests(gaps: seq<Gap>, maxRetxBurst: nat): seq<seq<Byte>>
    decreases |gaps|
  {
    if gaps == [] then [] else
      Requests(gaps[..|gaps| - 1], maxRetxBurst)
      + (var g := gaps[|gaps| - 1]; if g.num <= maxRetxBurst then [RetxRequest(g.first, g.num)] else [])
  }

  lemma NoRequests(maxRetxBurst: nat)
    ensures Requests([], maxRetxBurst) == []
  {
  }

  lemma OneRequest(maxRetxBurst: nat)
    ensures Requests([], maxRetxBurst) == []
    ensures forall g: Gap {:trigger Requests([g], maxRetxBurst)} ::
              Requests([g], maxRetxBurst) == if g.num <= maxRetxBurst then [RetxRequest(g.first, g.num)] else []
  {
    forall g: Gap
      ensures Requests([g], maxRetxBurst) == if g.num <= maxRetxBurst then [RetxRequest(g.first, g.num)] else []
    {
      assert [g][..0] == [];
    }
  }

  lemma {:induction false} RequestsJoin(a: seq<Gap>, b: seq<Gap>, maxRetxBurst: nat)
    ensures Requests(a + b, maxRetxBurst) == Requests(a, maxRetxBurst) + Requests(b, maxRetxBurst)
    decreases |b|
  {
    if b == [] {
      assert a + b == a;
    } else {
      assert (a + b)[..|a + b| - 1] == a + b[..|b| - 1];
      RequestsJoin(a, b[..|b| - 1], maxRetxBurst);
    }
  }

  // ---------------------------------------------------------------------------------------------
  // Runs
  // ---------------------------------------------------------------------------------------------

  /** What the main loop does, in whatever order the network and the clock dictate. */
  datatype Event = Recv(rtp: Rtp, wall: int) | Send | Check(now: int)

  /** The state, with the logs of what was received, sent and dropped, and of the gaps that were reported. */
  datatype World = World(state: State, received: seq<Packet>, sent: seq<Packet>, dropped: seq<Packet>, gaps: seq<Gap>)
  {
    function Blocks(): seq<Packet> { state.buffer.blocks }
  }

  function Stamped(cfg: Config, s: State, rtp: Rtp, wall: int): Packet
    requires cfg.Valid()
  {
    Stamp(cfg, s.timestamp, s.clock, rtp, wall).2
  }

  function Step(cfg: Config, w: World, e: Event): (r: World)
    requires cfg.Valid() && WellFormed(w.state.buffer)
    ensures WellFormed(r.state.buffer)
  {
    match e
    case Recv(rtp, wall) =>
      if !rtp.valid then w else
        InsertKeepsCursors(w.state.buffer, Stamped(cfg, w.state, rtp, wall));
        w.(state := Receive(cfg, w.state, rtp, wall), received := w.received + [Stamped(cfg, w.state, rtp, wall)])
    case Send =>
      if w.Blocks() == [] then w else
        w.(state := w.state.(buffer := Pop(w.state.buffer)), sent := w.sent + [w.Blocks()[0]])
    case Check(now) =>
      var r := ReorderBuffer.Check(w.state.buffer, 0, now + cfg.retxDelay, cfg.retxDelay);
      w.(state := w.state.(buffer := r.buffer), dropped := w.dropped + r.dropped, gaps := w.gaps + r.gaps)
  }

  function Run(cfg: Config, w: World, events: seq<Event>): (r: World)
    requires cfg.Valid() && WellFormed(w.state.buffer)
    ensures WellFormed(r.state.buffer)
    decreases |events|
  {
    if events == [] then w else Run(cfg, Step(cfg, w, events[0]), events[1..])
  }

  function InitialWorld(retxCount: nat): (w: World)
    ensures WellFormed(w.state.buffer)
  {
    World(State(INITIAL_TIMESTAMP, INITIAL_CLOCK, Buffer([], seq(retxCount, _ => -1))), [], [], [], [])
  }

  /** Every received block was sent, is buffered, or was dropped: none twice, none lost, none made up. */
  predicate Balanced(w: World) {
    multiset(w.received) == multiset(w.sent) + multiset(w.Blocks()) + multiset(w.dropped)
  }

  lemma RecvBalances(cfg: Config, w: World, rtp: Rtp, wall: int)
    requires cfg.Valid() && WellFormed(w.state.buffer) && Balanced(w)
    ensures Balanced(Step(cfg, w, Recv(rtp, wall)))
  {
    hide Stamp, Insert;
    InsertKeepsCursors(w.state.buffer, Stamped(cfg, w.state, rtp, wall));
  }

  lemma SendBalances(cfg: Config, w: World)
    requires cfg.Valid() && WellFormed(w.state.buffer) && Balanced(w)
    ensures Balanced(Step(cfg, w, Send))
  {
    if w.Blocks() != [] {
      assert w.Blocks() == [w.Blocks()[0]] + w.Blocks()[1..];
    }
  }

  lemma CheckBalances(cfg: Config, w: World, now: int)
    requires cfg.Valid() && WellFormed(w.state.buffer) && Balanced(w)
    ensures Balanced(Step(cfg, w, Check(now)))
  {
    hide ReorderBuffer.Check, HoldsAll, Ordered, Window;
    CheckKeeps(w.state.buffer, 0, now + cfg.retxDelay, cfg.retxDelay);
  }

  lemma StepBalances(cfg: Config, w: World, e: Event)
    requires cfg.Valid() && WellFormed(w.state.buffer) && Balanced(w)
    ensures Balanced(Step(cfg, w, e))
  {
    hide Balanced, Step;
    match e
    case Recv(rtp, wall) => RecvBalances(cfg, w, rtp, wall);
    case Send => SendBalances(cfg, w);
    case Check(now) => CheckBalances(cfg, w, now);
  }

  /** Conservation over every run. */
  lemma {:induction false} RunBalances(cfg: Config, w: World, events: seq<Event>)
    requires cfg.Valid() && WellFormed(w.state.buffer) && Balanced(w)
    ensures Balanced(Run(cfg, w, events))
    decreases |events|
  {
    hide Balanced, Step;
    if events != [] {
      StepBalances(cfg, w, events[0]);
      RunBalances(cfg, Step(cfg, w, events[0]), events[1..]);
    }
  }

  // ---------------------------------------------------------------------------------------------
  // Runs in a half-space window
  // ---------------------------------------------------------------------------------------------

  function LastSent(w: World): int
    requires w.sent != []
  {
    w.sent[|w.sent| - 1].Ext()
  }

  /**
    A packet is in time: less than half of the circle away from everything buffered, and not older than the last
    sent.
   */
  predicate InTime(w: World, rtp: Rtp) {
    Near(w.Blocks(), rtp.ext) && (w.sent != [] ==> LastSent(w) <= rtp.ext)
  }

  /** Every arrival of a run is in time when it comes. */
  predicate Smooth(cfg: Config, w: World, events: seq<Event>)
    requires cfg.Valid() && WellFormed(w.state.buffer)
    decreases |events|
  {
    events != [] ==>
      && (events[0].Recv? && events[0].rtp.valid ==> InTime(w, events[0].rtp))
      && Smooth(cfg, Step(cfg, w, events[0]), events[1..])
  }

  predicate HasExt(packets: seq<Packet>, x: int) {
    exists k :: 0 <= k < |packets| && packets[k].Ext() == x
  }

  /**
    The buffer is sorted in one window, goes on where the log of sent packets ends, and nothing received is missing.
   */
  predicate InOrder(w: World) {
    && Ordered(w.Blocks()) && Window(w.Blocks())
    && Ordered(w.sent)
    && (w.sent != [] && w.Blocks() != [] ==> LastSent(w) <= w.Blocks()[0].Ext())
    && Complete(w)
  }

  /** The number of every received packet was sent or is buffered. */
  predicate Complete(w: World) {
    forall p :: p in w.received ==> HasExt(w.sent, p.Ext()) || HasExt(w.Blocks(), p.Ext())
  }

  /** In a window, holding a sequence number is holding the extended number. */
  lemma HoldsInWindow(kept: seq<Packet>, blocks: seq<Packet>, x: int)
    requires HoldsAll(kept, blocks) && Window(blocks) && multiset(kept) <= multiset(blocks) && HasExt(blocks, x)
    ensures HasExt(kept, x)
  {
    var k :| 0 <= k < |blocks| && blocks[k].Ext() == x;
    var j :| 0 <= j < |kept| && kept[j].Seqnum() == blocks[k].Seqnum();
    assert kept[j] in multiset(blocks);
    SameSeqnum(kept[j].Ext(), x);
  }

  lemma SameSeqnum(a: int, b: int)
    requires a % POW2_16 == b % POW2_16 && -HALF < a - b < HALF
    ensures a == b
  {
    assert (a - b) % POW2_16 == 0;
  }

  lemma RecvInOrder(cfg: Config, w: World, rtp: Rtp, wall: int)
    requires cfg.Valid() && WellFormed(w.state.buffer) && InOrder(w)
    requires rtp.valid && InTime(w, rtp)
    ensures InOrder(Step(cfg, w, Recv(rtp, wall)))
  {
    hide Stamp, Near, Insert, Complete;
    var p := Stamped(cfg, w.state, rtp, wall);
    StampKeepsExt(cfg, w.state, rtp, wall);
    InsertKeepsOrder(w.state.buffer, p);
    InsertHead(w.state.buffer, p);
    RecvComplete(cfg, w, rtp, wall);
  }

  lemma RecvComplete(cfg: Config, w: World, rtp: Rtp, wall: int)
    requires cfg.Valid() && WellFormed(w.state.buffer) && Complete(w) && rtp.valid
    ensures Complete(Step(cfg, w, Recv(rtp, wall)))
  {
    hide Stamp, Insert, HasExt;
    var p := Stamped(cfg, w.state, rtp, wall);
    InsertHas(w.state.buffer, p);
    assert Step(cfg, w, Recv(rtp, wall)).received == w.received + [p];
  }

  lemma StampKeepsExt(cfg: Config, s: State, rtp: Rtp, wall: int)
    requires cfg.Valid()
    ensures Stamped(cfg, s, rtp, wall).Ext() == rtp.ext
  {
  }

  /** After an insertion the buffer holds the numbers it held, and the new one. */
  lemma InsertHas(b: Buffer, p: Packet)
    ensures forall x :: HasExt(b.blocks, x) || x == p.Ext() ==> HasExt(Insert(b, p).blocks, x)
  {
    var k := InsertAt(b.blocks, p.Seqnum());
    var r := Insert(b, p).blocks;
    forall x | HasExt(b.blocks, x) || x == p.Ext() ensures HasExt(r, x) {
      if x == p.Ext() {
        assert r[k].Ext() == x;
      } else {
        var j :| 0 <= j < |b.blocks| && b.blocks[j].Ext() == x;
        assert r[if j < k then j else j + 1].Ext() == x;
      }
    }
  }

  /** The head after an insertion is the old head or the new block. */
  lemma InsertHead(b: Buffer, p: Packet)
    ensures Insert(b, p).blocks != []
    ensures Insert(b, p).blocks[0] == p || (b.blocks != [] && Insert(b, p).blocks[0] == b.blocks[0])
  {
  }

  lemma SendInOrder(cfg: Config, w: World)
    requires cfg.Valid() && WellFormed(w.state.buffer) && InOrder(w)
    ensures InOrder(Step(cfg, w, Send))
  {
    if w.Blocks() != [] {
      var r := Step(cfg, w, Send);
      assert r.sent == w.sent + [w.Blocks()[0]];
      forall p | p in r.received ensures HasExt(r.sent, p.Ext()) || HasExt(r.Blocks(), p.Ext()) {
        if HasExt(w.sent, p.Ext()) {
          var k :| 0 <= k < |w.sent| && w.sent[k].Ext() == p.Ext();
          assert r.sent[k].Ext() == p.Ext();
        } else {
          var k :| 0 <= k < |w.Blocks()| && w.Blocks()[k].Ext() == p.Ext();
          if k == 0 {
            assert r.sent[|w.sent|].Ext() == p.Ext();
          } else {
            assert r.Blocks()[k - 1].Ext() == p.Ext();
          }
        }
      }
    }
  }

  lemma CheckInOrder(cfg: Config, w: World, now: int)
    requires cfg.Valid() && WellFormed(w.state.buffer) && InOrder(w)
    ensures InOrder(Step(cfg, w, Check(now)))
  {
    hide ReorderBuffer.Check, HasExt;
    CheckKeeps(w.state.buffer, 0, now + cfg.retxDelay, cfg.retxDelay);
    var r := Step(cfg, w, Check(now));
    forall p | p in r.received ensures HasExt(r.sent, p.Ext()) || HasExt(r.Blocks(), p.Ext()) {
      if HasExt(w.Blocks(), p.Ext()) {
        HoldsInWindow(r.Blocks(), w.Blocks(), p.Ext());
      }
    }
    if w.sent != [] && r.Blocks() != [] {
      assert r.Blocks()[0] in multiset(w.Blocks());
    }
  }

  lemma StepInOrder(cfg: Config, w: World, e: Event)
    requires cfg.Valid() && WellFormed(w.state.buffer) && InOrder(w)
    requires e.Recv? && e.rtp.valid ==> InTime(w, e.rtp)
    ensures InOrder(Step(cfg, w, e))
  {
    hide InOrder, Step, InTime;
    match e
    case Recv(rtp, wall) =>
      if rtp.valid {
        RecvInOrder(cfg, w, rtp, wall);
      } else {
        InvalidIsIgnored(cfg, w, rtp, wall);
      }
    case Send => SendInOrder(cfg, w);
    case Check(now) => CheckInOrder(cfg, w, now);
  }

  /**
    Over every run in which each arrival is in time: the log of sent packets never goes back, the buffer
    stays sorted, and the number of every packet received so far was sent or is buffered.
   */
  lemma {:induction false} RunInOrder(cfg: Config, w: World, events: seq<Event>)
    requires cfg.Valid() && WellFormed(w.state.buffer) && InOrder(w) && Smooth(cfg, w, events)
    ensures InOrder(Run(cfg, w, events))
    decreases |events|
  {
    hide InOrder, Step, InTime;
    if events != [] {
      StepInOrder(cfg, w, events[0]);
      RunInOrder(cfg, Step(cfg, w, events[0]), events[1..]);
    }
  }

  /** What was received is never forgotten. */
  lemma {:induction false} ReceivedGrows(cfg: Config, w: World, events: seq<Event>)
    requires cfg.Valid() && WellFormed(w.state.buffer)
    ensures w.received <= Run(cfg, w, events).received
    decreases |events|
  {
    hide Receive, Stamped, ReorderBuffer.Check, Pop;
    if events != [] {
      var v := Step(cfg, w, events[0]);
      assert w.received <= v.received;
      ReceivedGrows(cfg, v, events[1..]);
    }
  }

  lemma InvalidIsIgnored(cfg: Config, w: World, rtp: Rtp, wall: int)
    requires cfg.Valid() && WellFormed(w.state.buffer) && !rtp.valid
    ensures Step(cfg, w, Recv(rtp, wall)) == w
  {
  }

  lemma InitiallyInOrder(retxCount: nat)
    ensures InOrder(InitialWorld(retxCount)) && Balanced(InitialWorld(retxCount))
    ensures var cursors := InitialWorld(retxCount).state.buffer.cursors;
            |cursors| == retxCount && forall i :: 0 <= i < retxCount ==> cursors[i] == EMPTY_CURSOR
  {
  }

  /**
    Being in time is what order needs: after a packet in the window arrives and the head is sent,
    the log is still in order if and only if the packet is not older than the last one sent.
   */
  lemma LateArrivalBreaksOrder(cfg: Config, w: World, rtp: Rtp, wall: int)
    requires cfg.Valid() && WellFormed(w.state.buffer) && InOrder(w)
    requires rtp.valid && Near(w.Blocks(), rtp.ext) && w.sent != []
    ensures Ordered(Run(cfg, w, [Recv(rtp, wall), Send]).sent) <==> LastSent(w) <= rtp.ext
  {
    hide Stamp, Near;
    var events := [Recv(rtp, wall), Send];
    var a := Step(cfg, w, events[0]);
    var r := Step(cfg, a, Send);
    assert events[1..] == [Send] && [Send][1..] == [];
    assert Run(cfg, w, events) == Run(cfg, a, [Send]) == Run(cfg, r, []) == r;
    var p := Stamped(cfg, w.state, rtp, wall);
    StampKeepsExt(cfg, w.state, rtp, wall);
    if LastSent(w) <= rtp.ext {
      RecvInOrder(cfg, w, rtp, wall);
      SendInOrder(cfg, a);
    } else {
      InsertAtSplits(w.Blocks(), rtp.ext);
      assert a.Blocks()[0] == p;
      assert r.sent[|w.sent|] == p && r.sent[|w.sent| - 1].Ext() == LastSent(w);
    }
  }

  /** Packet 1 arrives and is sent, then packet 0: the log goes back. */
  lemma LateArrivalIsSent(cfg: Config, retxCount: nat)
    requires cfg.Valid()
    ensures var late, next := Rtp(true, 0, 0, true, false, 0), Rtp(true, 1, 0, true, false, 0);
            var w := Run(cfg, InitialWorld(retxCount), [Recv(next, 0), Send, Recv(late, 0), Send]);
            |w.sent| == 2 && w.sent[0].Ext() == 1 && w.sent[1].Ext() == 0 && !Ordered(w.sent)
  {
    hide Stamp;
    var late, next := Rtp(true, 0, 0, true, false, 0), Rtp(true, 1, 0, true, false, 0);
    var w0 := InitialWorld(retxCount);
    var w1, w2 := SendAtOnce(cfg, w0, next);
    var w3, w4 := SendAtOnce(cfg, w2, late);
    var events := [Recv(next, 0), Send, Recv(late, 0), Send];
    assert events[1..] == [Send, Recv(late, 0), Send] && events[1..][1..] == [Recv(late, 0), Send];
    assert events[1..][1..][1..] == [Send] && [Send][1..] == [];
    assert Run(cfg, w0, events) == Run(cfg, w1, events[1..]) == Run(cfg, w2, events[1..][1..])
        == Run(cfg, w3, [Send]) == Run(cfg, w4, []) == w4;
  }

  /** A packet that comes to an empty buffer is the next to be sent. */
  lemma SendAtOnce(cfg: Config, w: World, rtp: Rtp) returns (a: World, b: World)
    requires cfg.Valid() && WellFormed(w.state.buffer) && w.Blocks() == [] && rtp.valid
    ensures a == Step(cfg, w, Recv(rtp, 0)) && WellFormed(a.state.buffer) && b == Step(cfg, a, Send)
    ensures b.Blocks() == [] && |b.sent| == |w.sent| + 1
    ensures b.sent[..|w.sent|] == w.sent && b.sent[|w.sent|].Ext() == rtp.ext
  {
    hide Stamp;
    StampKeepsExt(cfg, w.state, rtp, 0);
    a := Step(cfg, w, Recv(rtp, 0));
    b := Step(cfg, a, Send);
    assert a.Blocks() == [Stamped(cfg, w.state, rtp, 0)];
  }
}
