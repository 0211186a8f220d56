/**
  Repair over the steps of the protocol: what a check asks for, what the server puts on the way, and what
  the client has once that has come through, whatever else happens in between.
 */
module Exchange {
  import opened Base
  import opened Codec
  import opened Packets
  import opened Protocol
  import Reorder
  import ReorderBuffer
  import AskOnce
  import Repair
  import RetxServer

  // ---------------------------------------------------------------------------------------------
  // The client's part of a run
  // ---------------------------------------------------------------------------------------------

  /** What an action is to the client. */
  function EventOf(s: System, a: Action): seq<Reorder.Event> {
    match a
    case Deliver(rtp, wall) => if rtp in s.data then [Reorder.Recv(rtp, wall)] else []
    case Due => [Reorder.Send]
    case Look(date) => [Reorder.Check(date)]
    case _ => []
  }

  function Events(cfg: Settings, s: System, actions: seq<Action>): seq<Reorder.Event>
    requires cfg.client.Valid() && ReorderBuffer.WellFormed(s.client.state.buffer)
    decreases |actions|
  {
    if actions == [] then [] else EventOf(s, actions[0]) + Events(cfg, Step(cfg, s, actions[0]), actions[1..])
  }

  lemma StepIsEvent(cfg: Settings, s: System, a: Action, events: seq<Reorder.Event>)
    requires cfg.client.Valid() && ReorderBuffer.WellFormed(s.client.state.buffer)
    ensures Reorder.Run(cfg.client, s.client, EventOf(s, a) + events)
         == Reorder.Run(cfg.client, Step(cfg, s, a).client, events)
  {
    hide Reorder.Step, Reorder.Requests;
    if EventOf(s, a) == [] {
      assert EventOf(s, a) + events == events;
    } else {
      assert (EventOf(s, a) + events)[1..] == events;
    }
  }

  /** The client of every run of the protocol has made a run of its own. */
  lemma {:induction false} ClientRuns(cfg: Settings, s: System, actions: seq<Action>)
    requires cfg.client.Valid() && ReorderBuffer.WellFormed(s.client.state.buffer)
    ensures Run(cfg, s, actions).client == Reorder.Run(cfg.client, s.client, Events(cfg, s, actions))
    decreases |actions|
  {
    hide Step, EventOf;
    if actions != [] {
      var t := Step(cfg, s, actions[0]);
      ClientRuns(cfg, t, actions[1..]);
      StepIsEvent(cfg, s, actions[0], Events(cfg, t, actions[1..]));
    }
  }

  /** Every packet that a run delivers is in time when it comes. */
  predicate Timely(cfg: Settings, s: System, actions: seq<Action>)
    requires cfg.client.Valid() && ReorderBuffer.WellFormed(s.client.state.buffer)
  {
    Reorder.Smooth(cfg.client, s.client, Events(cfg, s, actions))
  }

  // ---------------------------------------------------------------------------------------------
  // What only grows
  // ---------------------------------------------------------------------------------------------

  lemma {:induction false} HistoryGrows(cfg: Settings, s: System, actions: seq<Action>)
    requires cfg.client.Valid() && ReorderBuffer.WellFormed(s.client.state.buffer)
    ensures s.history <= Run(cfg, s, actions).history
    decreases |actions|
  {
    hide RetxServer.Handle, RetxServer.Push, Reorder.Step, Reorder.Requests;
    if actions != [] {
      var t := Step(cfg, s, actions[0]);
      HistoryGrows(cfg, t, actions[1..]);
      assert s.history <= t.history;
    }
  }

  // ---------------------------------------------------------------------------------------------
  // The request
  // ---------------------------------------------------------------------------------------------

  /** Two numbers of a list of packets, with others between them of which the list has none. */
  predicate Hole(blocks: seq<Packet>, lo: int, hi: int) {
    && 1 < hi - lo < ReorderBuffer.HALF
    && Reorder.HasExt(blocks, lo) && Reorder.HasExt(blocks, hi)
    && forall x :: lo < x < hi ==> !Reorder.HasExt(blocks, x)
  }

  /** The request for what is missing between two numbers. */
  function RequestBetween(lo: int, hi: int): seq<Byte>
    requires 1 < hi - lo < ReorderBuffer.HALF
  {
    RetxRequest((lo + 1) % POW2_16, hi - lo - 1)
  }

  /** Dropping blocks whose number is held by others neither makes nor fills a hole. */
  lemma SameHoles(blocks: seq<Packet>, kept: seq<Packet>, dropped: seq<Packet>, lo: int, hi: int)
    requires ReorderBuffer.Keeps(blocks, kept, dropped) && ReorderBuffer.Window(blocks) && Hole(kept, lo, hi)
    ensures Hole(blocks, lo, hi)
  {
    hide Reorder.HasExt, ReorderBuffer.HoldsAll, ReorderBuffer.Window, ReorderBuffer.Ordered;
    Repair.HasExtSame(kept, blocks, lo);
    Repair.HasExtSame(kept, blocks, hi);
    forall x | lo < x < hi ensures !Reorder.HasExt(blocks, x) {
      if Reorder.HasExt(blocks, x) {
        Reorder.HoldsInWindow(kept, blocks, x);
      }
    }
  }

  /** Some block of a number is dated up to a limit. */
  predicate DueBy(blocks: seq<Packet>, x: int, limit: int) {
    exists k :: 0 <= k < |blocks| && blocks[k].Ext() == x && blocks[k].date <= limit
  }

  /** The pass of cursor c looks as far ahead as some block of a number. */
  predicate DueFor(c: int, blocks: seq<Packet>, x: int, date: int, cfg: Settings) {
    DueBy(blocks, x, date + (c + 1) * cfg.client.retxDelay)
  }

  lemma DueBefore(blocks: seq<Packet>, kept: seq<Packet>, x: int, limit: int)
    requires DueBy(kept, x, limit) && multiset(kept) <= multiset(blocks)
    ensures DueBy(blocks, x, limit)
  {
    var k :| 0 <= k < |kept| && kept[k].Ext() == x && kept[k].date <= limit;
    assert kept[k] in multiset(blocks);
  }

  /**
    Every request of a check is for a hole in the buffer, not for a large one, and not for one whose end is dated
    after what the pass that found it looks ahead.
   */
  lemma {:induction false} CheckAsks(b: ReorderBuffer.Buffer, i: nat, limit: int, delay: int,
                                     maxRetxBurst: nat, request: seq<Byte>)
      returns (lo: int, hi: int, c: nat)
    requires ReorderBuffer.WellFormed(b) && i <= |b.cursors|
    requires ReorderBuffer.Ordered(b.blocks) && ReorderBuffer.Window(b.blocks)
    requires request in Reorder.Requests(ReorderBuffer.Check(b, i, limit, delay).gaps, maxRetxBurst)
    ensures Hole(b.blocks, lo, hi) && request == RequestBetween(lo, hi) && hi - lo - 1 <= maxRetxBurst
    ensures i <= c < |b.cursors| && DueBy(b.blocks, hi, limit + (c - i) * delay)
    decreases |b.cursors| - i
  {
    hide Hole, ReorderBuffer.Pass, ReorderBuffer.Ordered, ReorderBuffer.Window, RetxRequest, Reorder.Requests,
         Repair.GapAt;
    if i == |b.cursors| {
      Reorder.NoRequests(maxRetxBurst);
    } else {
      var r := ReorderBuffer.Pass(b, i, limit);
      var s := ReorderBuffer.Check(r.buffer, i + 1, limit + delay, delay);
      ReorderBuffer.PassKeeps(b, i, limit);
      Reorder.RequestsJoin(r.gaps, s.gaps, maxRetxBurst);
      if request in Reorder.Requests(r.gaps, maxRetxBurst) {
        var k, g := Repair.WalkedGap(b, i, limit, maxRetxBurst, request);
        lo, hi := PassAsks(r.buffer.blocks, k, g);
        c := i;
        ReorderBuffer.PassIsDue(b, i, limit);
        assert DueBy(r.buffer.blocks, hi, limit) by { assert r.buffer.blocks[k + 1].date <= limit; }
        assert limit + (c - i) * delay == limit;
      } else {
        lo, hi, c := CheckAsks(r.buffer, i + 1, limit + delay, delay, maxRetxBurst, request);
        assert limit + (c - i) * delay == limit + delay + (c - (i + 1)) * delay;
      }
      SameHoles(b.blocks, r.buffer.blocks, r.dropped, lo, hi);
      DueBefore(b.blocks, r.buffer.blocks, hi, limit + (c - i) * delay);
    }
  }

  /** Neighbours of a sorted list have no number between them. */
  lemma PassAsks(blocks: seq<Packet>, k: nat, g: ReorderBuffer.Gap) returns (lo: int, hi: int)
    requires ReorderBuffer.Ordered(blocks) && ReorderBuffer.Window(blocks) && Repair.GapAt(blocks, k, g)
    ensures lo == blocks[k].Ext() && hi == blocks[k + 1].Ext()
    ensures Hole(blocks, lo, hi) && RetxRequest(g.first, g.num) == RequestBetween(lo, hi) && g.num == hi - lo - 1
  {
    hide RetxRequest;
    Repair.GapIsWide(blocks, k, g);
    ReorderBuffer.GapIsMissing(blocks[k], blocks[k + 1]);
    lo, hi := blocks[k].Ext(), blocks[k + 1].Ext();
  }

  /** The requests that a check sends. */
  function NewRequests(cfg: Settings, s: System, date: int): seq<seq<Byte>>
    requires cfg.client.Valid() && ReorderBuffer.WellFormed(s.client.state.buffer)
  {
    var gaps := Reorder.Step(cfg.client, s.client, Reorder.Check(date)).gaps;
    Reorder.Requests(if |s.client.gaps| <= |gaps| then gaps[|s.client.gaps|..] else [], cfg.client.maxRetxBurst)
  }

  lemma LookAsks(cfg: Settings, s: System, date: int, request: seq<Byte>) returns (lo: nat, hi: nat)
    requires cfg.client.Valid() && ReorderBuffer.WellFormed(s.client.state.buffer)
    requires Safe(s) && Reorder.InOrder(s.client)
    requires request in NewRequests(cfg, s, date)
    ensures Hole(s.client.Blocks(), lo, hi) && hi < |s.history|
    ensures request == RequestBetween(lo, hi) && hi - lo - 1 <= cfg.client.maxRetxBurst
    ensures request in Step(cfg, s, Look(date)).requests
    ensures exists c :: 0 <= c < |s.client.state.buffer.cursors| && DueFor(c, s.client.Blocks(), hi, date, cfg)
  {
    hide ReorderBuffer.Check, Reorder.Requests, RetxRequest, Reorder.Complete, ReorderBuffer.Ordered,
         ReorderBuffer.Window, QueueGenuine, Numbered, DueBy;
    var c := cfg.client;
    var r := ReorderBuffer.Check(s.client.state.buffer, 0, date + c.retxDelay, c.retxDelay);
    assert (s.client.gaps + r.gaps)[|s.client.gaps|..] == r.gaps;
    var l, h, n := CheckAsks(s.client.state.buffer, 0, date + c.retxDelay, c.retxDelay, c.maxRetxBurst, request);
    GenuineNumber(s.history, s.client.Blocks(), l);
    GenuineNumber(s.history, s.client.Blocks(), h);
    lo, hi := l, h;
    assert date + c.retxDelay + (n - 0) * c.retxDelay == date + (n + 1) * c.retxDelay;
    assert DueFor(n, s.client.Blocks(), hi, date, cfg);
  }

  lemma GenuineNumber(history: seq<Rtp>, packets: seq<Packet>, x: int)
    requires AllGenuine(history, packets) && Reorder.HasExt(packets, x)
    ensures 0 <= x < |history|
  {
  }

  // ---------------------------------------------------------------------------------------------
  // Which holes are asked for
  // ---------------------------------------------------------------------------------------------

  /**
    A cursor has the number hi before it: it is null, or on a block of at most lo; and every block
    behind it, up to one of number hi, is dated up to the limit.
   */
  predicate InReach(b: ReorderBuffer.Buffer, i: nat, lo: int, hi: int, limit: int)
    requires ReorderBuffer.WellFormed(b) && i < |b.cursors|
  {
    && (b.cursors[i] != ReorderBuffer.EMPTY_CURSOR ==> b.blocks[b.cursors[i]].Ext() <= lo)
    && exists m :: b.cursors[i] < m < |b.blocks| && DueUpTo(b.blocks, b.cursors[i], m, hi, limit)
  }

  predicate DueUpTo(blocks: seq<Packet>, c: int, m: int, hi: int, limit: int)
    requires -1 <= c < m < |blocks|
  {
    blocks[m].Ext() == hi && forall k :: c < k <= m ==> blocks[k].date <= limit
  }

  /** Dropping a block that repeats its predecessor's number neither makes a hole nor fills one. */
  lemma DropKeepsHole(blocks: seq<Packet>, c: nat, lo: int, hi: int)
    requires Hole(blocks, lo, hi) && 0 < c < |blocks| && blocks[c].Ext() == blocks[c - 1].Ext()
    ensures Hole(ReorderBuffer.Without(blocks, c), lo, hi)
  {
    hide ReorderBuffer.Without;
    var r := ReorderBuffer.Without(blocks, c);
    forall x ensures Reorder.HasExt(r, x) <==> Reorder.HasExt(blocks, x) {
      if Reorder.HasExt(blocks, x) {
        var k :| 0 <= k < |blocks| && blocks[k].Ext() == x;
        assert r[if k < c then k else k - 1].Ext() == x;
      }
      if Reorder.HasExt(r, x) {
        var k :| 0 <= k < |r| && r[k].Ext() == x;
        assert blocks[if k < c then k else k + 1].Ext() == x;
      }
    }
  }

  /** The same for what a cursor has before it. */
  lemma DropKeepsReach(b: ReorderBuffer.Buffer, c: nat, i: nat, lo: int, hi: int, limit: int)
    requires ReorderBuffer.WellFormed(b) && i < |b.cursors| && InReach(b, i, lo, hi, limit) && lo < hi
    requires 0 < c < |b.blocks| && b.blocks[c].Ext() == b.blocks[c - 1].Ext()
    ensures ReorderBuffer.WellFormed(ReorderBuffer.Remove(b, c)) && i < |ReorderBuffer.Remove(b, c).cursors|
    ensures InReach(ReorderBuffer.Remove(b, c), i, lo, hi, limit)
  {
    hide ReorderBuffer.Without;
    var r := ReorderBuffer.Remove(b, c);
    var at := b.cursors[i];
    var m :| at < m < |b.blocks| && DueUpTo(b.blocks, at, m, hi, limit);
    var m' := if m < c then m else m - 1;
    assert m == c ==> at < c - 1;
    assert r.cursors[i] < m' < |r.blocks|;
    assert DueUpTo(r.blocks, r.cursors[i], m', hi, limit);
  }

  /** The pass of another cursor leaves the hole and what is before the cursor. */
  lemma {:induction false} OtherPassKeepsReach(b: ReorderBuffer.Buffer, j: nat, passLimit: int, i: nat,
                                               lo: int, hi: int, limit: int)
    requires ReorderBuffer.WellFormed(b) && ReorderBuffer.Window(b.blocks)
    requires i < |b.cursors| && j < |b.cursors| && i != j
    requires Hole(b.blocks, lo, hi) && InReach(b, i, lo, hi, limit)
    ensures Hole(ReorderBuffer.Pass(b, j, passLimit).buffer.blocks, lo, hi)
    ensures InReach(ReorderBuffer.Pass(b, j, passLimit).buffer, i, lo, hi, limit)
    decreases |b.blocks| - b.cursors[j]
  {
    hide ReorderBuffer.Consecutive, ReorderBuffer.GapBetween, ReorderBuffer.Without, ReorderBuffer.Window, Hole,
         InReach;
    var c := b.cursors[j];
    if c + 1 < |b.blocks| && b.blocks[c + 1].date <= passLimit {
      if c != ReorderBuffer.EMPTY_CURSOR && b.blocks[c + 1].Seqnum() == b.blocks[c].Seqnum() {
        SameNumber(b.blocks, c + 1, c);
        HoleIsWide(b.blocks, lo, hi);
        DropKeepsHole(b.blocks, c + 1, lo, hi);
        DropKeepsReach(b, c + 1, i, lo, hi, limit);
        ReorderBuffer.WithoutWindow(b.blocks, c + 1);
        OtherPassKeepsReach(ReorderBuffer.Remove(b, c + 1), j, passLimit, i, lo, hi, limit);
      } else {
        AdvanceKeepsReach(b, j, i, lo, hi, limit);
        OtherPassKeepsReach(ReorderBuffer.Advance(b, j), j, passLimit, i, lo, hi, limit);
      }
    }
  }

  lemma HoleIsWide(blocks: seq<Packet>, lo: int, hi: int)
    requires Hole(blocks, lo, hi)
    ensures 1 < hi - lo < ReorderBuffer.HALF
  {
  }

  lemma SameNumber(blocks: seq<Packet>, j: nat, k: nat)
    requires ReorderBuffer.Window(blocks) && j < |blocks| && k < |blocks| && blocks[j].Seqnum() == blocks[k].Seqnum()
    ensures blocks[j].Ext() == blocks[k].Ext()
  {
    Reorder.SameSeqnum(blocks[j].Ext(), blocks[k].Ext());
  }

  lemma AdvanceKeepsReach(b: ReorderBuffer.Buffer, j: nat, i: nat, lo: int, hi: int, limit: int)
    requires ReorderBuffer.WellFormed(b) && i < |b.cursors| && j < |b.cursors| && i != j && InReach(b, i, lo, hi, limit)
    requires b.cursors[j] + 1 < |b.blocks|
    ensures ReorderBuffer.WellFormed(ReorderBuffer.Advance(b, j))
    ensures InReach(ReorderBuffer.Advance(b, j), i, lo, hi, limit)
  {
  }

  /** In a sorted list the block behind one of at most lo is one of at most lo, or the other side of the hole. */
  lemma NextToHole(blocks: seq<Packet>, c: nat, lo: int, hi: int)
    requires ReorderBuffer.Ordered(blocks) && Hole(blocks, lo, hi) && c + 1 < |blocks| && blocks[c].Ext() <= lo
    ensures blocks[c + 1].Ext() <= lo || (blocks[c].Ext() == lo && blocks[c + 1].Ext() == hi)
  {
    var l :| 0 <= l < |blocks| && blocks[l].Ext() == lo;
    var h :| 0 <= h < |blocks| && blocks[h].Ext() == hi;
    assert Reorder.HasExt(blocks, blocks[c + 1].Ext());
  }

  lemma HeadBeforeHole(blocks: seq<Packet>, lo: int, hi: int)
    requires ReorderBuffer.Ordered(blocks) && Hole(blocks, lo, hi)
    ensures blocks != [] && blocks[0].Ext() <= lo
  {
    var l :| 0 <= l < |blocks| && blocks[l].Ext() == lo;
  }

  /** A cursor that moves over a block in front of the hole still has it before it. */
  lemma StepKeepsReach(b: ReorderBuffer.Buffer, i: nat, lo: int, hi: int, limit: int)
    requires ReorderBuffer.WellFormed(b) && i < |b.cursors| && InReach(b, i, lo, hi, limit) && lo < hi
    requires b.cursors[i] + 1 < |b.blocks| && b.blocks[b.cursors[i] + 1].Ext() <= lo
    ensures ReorderBuffer.WellFormed(ReorderBuffer.Advance(b, i))
    ensures InReach(ReorderBuffer.Advance(b, i), i, lo, hi, limit)
  {
    var c := b.cursors[i];
    var m :| c < m < |b.blocks| && DueUpTo(b.blocks, c, m, hi, limit);
    assert DueUpTo(b.blocks, c + 1, m, hi, limit);
  }

  lemma ReachIsDue(b: ReorderBuffer.Buffer, i: nat, lo: int, hi: int, limit: int)
    requires ReorderBuffer.WellFormed(b) && i < |b.cursors| && InReach(b, i, lo, hi, limit)
    ensures b.cursors[i] + 1 < |b.blocks| && b.blocks[b.cursors[i] + 1].date <= limit
    ensures b.cursors[i] != ReorderBuffer.EMPTY_CURSOR ==> b.blocks[b.cursors[i]].Ext() <= lo
  {
  }

  function GapOf(lo: int, hi: int): ReorderBuffer.Gap
    requires 1 < hi - lo < ReorderBuffer.HALF
  {
    ReorderBuffer.Gap((lo + 1) % POW2_16, hi - lo - 1)
  }

  /** The pass of a cursor reports every hole that is in its reach. */
  lemma {:induction false} PassFinds(b: ReorderBuffer.Buffer, i: nat, limit: int, lo: int, hi: int)
    requires ReorderBuffer.WellFormed(b) && i < |b.cursors|
    requires ReorderBuffer.Ordered(b.blocks) && ReorderBuffer.Window(b.blocks)
    requires Hole(b.blocks, lo, hi) && InReach(b, i, lo, hi, limit) && 1 < hi - lo < ReorderBuffer.HALF
    ensures GapOf(lo, hi) in ReorderBuffer.Pass(b, i, limit).gaps
    decreases |b.blocks| - b.cursors[i]
  {
    hide ReorderBuffer.Consecutive, ReorderBuffer.GapBetween, ReorderBuffer.Without, ReorderBuffer.Window,
         ReorderBuffer.Ordered, Hole, InReach;
    ReachIsDue(b, i, lo, hi, limit);
    var c := b.cursors[i];
    if c == ReorderBuffer.EMPTY_CURSOR {
      HeadBeforeHole(b.blocks, lo, hi);
      StepKeepsReach(b, i, lo, hi, limit);
      PassFinds(ReorderBuffer.Advance(b, i), i, limit, lo, hi);
    } else if b.blocks[c + 1].Seqnum() == b.blocks[c].Seqnum() {
      SameNumber(b.blocks, c + 1, c);
      DropKeepsHole(b.blocks, c + 1, lo, hi);
      DropKeepsReach(b, c + 1, i, lo, hi, limit);
      ReorderBuffer.WithoutWindow(b.blocks, c + 1);
      ReorderBuffer.WithoutOrdered(b.blocks, c + 1);
      PassFinds(ReorderBuffer.Remove(b, c + 1), i, limit, lo, hi);
    } else {
      NextToHole(b.blocks, c, lo, hi);
      if b.blocks[c + 1].Ext() <= lo {
        StepKeepsReach(b, i, lo, hi, limit);
        PassFinds(ReorderBuffer.Advance(b, i), i, limit, lo, hi);
      } else {
        ReorderBuffer.GapIsMissing(b.blocks[c], b.blocks[c + 1]);
      }
    }
  }

  /** A whole check reports every hole that is in the reach of some cursor, as far as its own pass looks ahead. */
  lemma {:induction false} CheckFinds(b: ReorderBuffer.Buffer, j: nat, limit: int, delay: int, i: nat, lo: int, hi: int)
    requires ReorderBuffer.WellFormed(b) && j <= i < |b.cursors|
    requires ReorderBuffer.Ordered(b.blocks) && ReorderBuffer.Window(b.blocks)
    requires Hole(b.blocks, lo, hi) && 1 < hi - lo < ReorderBuffer.HALF
    requires InReach(b, i, lo, hi, limit + (i - j) * delay)
    ensures GapOf(lo, hi) in AskOnce.Asked(b, j, limit, delay, i)
    decreases i - j
  {
    hide ReorderBuffer.Pass, ReorderBuffer.Window, ReorderBuffer.Ordered, Hole, InReach, ReorderBuffer.HoldsAll;
    if j == i {
      assert limit + (i - j) * delay == limit;
      PassFinds(b, i, limit, lo, hi);
    } else {
      OtherPassKeepsReach(b, j, limit, i, lo, hi, limit + (i - j) * delay);
      ReorderBuffer.PassKeeps(b, j, limit);
      assert limit + (i - j) * delay == limit + delay + (i - (j + 1)) * delay;
      CheckFinds(ReorderBuffer.Pass(b, j, limit).buffer, j + 1, limit + delay, delay, i, lo, hi);
    }
  }

  lemma {:induction false} GapIsRequested(gaps: seq<ReorderBuffer.Gap>, g: ReorderBuffer.Gap, maxRetxBurst: nat)
    requires g in gaps && g.num <= maxRetxBurst
    ensures RetxRequest(g.first, g.num) in Reorder.Requests(gaps, maxRetxBurst)
    decreases |gaps|
  {
    hide RetxRequest;
    if g != gaps[|gaps| - 1] {
      GapIsRequested(gaps[..|gaps| - 1], g, maxRetxBurst);
    }
  }

  /**
    What a check asks for: in the buffer of a client in order, take a hole of at most maxRetxBurst numbers,
    and a cursor that is null or not behind it. If the blocks behind that cursor, up to the end of the hole,
    are dated no later than its pass looks ahead, which is i + 1 delays for cursor i, then the request for exactly the
    missing numbers leaves.
   */
  lemma HoleIsRequested(cfg: Settings, s: System, date: int, i: nat, lo: int, hi: int)
    requires cfg.client.Valid() && ReorderBuffer.WellFormed(s.client.state.buffer) && Reorder.InOrder(s.client)
    requires i < |s.client.state.buffer.cursors|
    requires Hole(s.client.Blocks(), lo, hi) && hi - lo - 1 <= cfg.client.maxRetxBurst
    requires InReach(s.client.state.buffer, i, lo, hi, date + (i + 1) * cfg.client.retxDelay)
    ensures 1 < hi - lo < ReorderBuffer.HALF
    ensures RequestBetween(lo, hi) in NewRequests(cfg, s, date)
    ensures RequestBetween(lo, hi) in Step(cfg, s, Look(date)).requests
  {
    hide ReorderBuffer.Check, Reorder.Requests, RetxRequest, Reorder.Complete, ReorderBuffer.Ordered,
         ReorderBuffer.Window, InReach, AskOnce.Asked;
    var c := cfg.client;
    var b := s.client.state.buffer;
    var limit := date + c.retxDelay;
    var r := ReorderBuffer.Check(b, 0, limit, c.retxDelay);
    assert limit + (i - 0) * c.retxDelay == date + (i + 1) * c.retxDelay;
    CheckFinds(b, 0, limit, c.retxDelay, i, lo, hi);
    AskOnce.AskedIsReported(b, 0, limit, c.retxDelay, i, GapOf(lo, hi));
    assert (s.client.gaps + r.gaps)[|s.client.gaps|..] == r.gaps;
    GapIsRequested(r.gaps, GapOf(lo, hi), c.maxRetxBurst);
  }

  // ---------------------------------------------------------------------------------------------
  // The answer
  // ---------------------------------------------------------------------------------------------

  /**
    Whenever the request for a hole reaches the server, it puts exactly the missing packets back on the way if
    and only if the oldest of them is still queued.
   */
  lemma ServeAnswers(cfg: Settings, s: System, t: System, lo: nat, hi: nat)
    requires cfg.client.Valid() && ReorderBuffer.WellFormed(t.client.state.buffer)
    requires Safe(t) && |t.queue| <= POW2_16 && s.history <= t.history
    requires 1 < hi - lo < ReorderBuffer.HALF && hi < |s.history| && RequestBetween(lo, hi) in t.requests
    ensures Step(cfg, t, Serve(RequestBetween(lo, hi))).data == t.data + multiset(MarkedAll(s.history[lo + 1..hi]))
       <==> |t.history| - |t.queue| <= lo + 1
  {
    hide Safe, Step, RetxRequest, MarkedAll;
    ServeResends(cfg, t, lo + 1, hi - lo - 1);
    assert t.history[lo + 1..lo + 1 + (hi - lo - 1)] == s.history[lo + 1..hi];
  }

  // ---------------------------------------------------------------------------------------------
  // The delivery
  // ---------------------------------------------------------------------------------------------

  /** A delivered packet is received under its number. */
  lemma DeliverReceives(cfg: Settings, s: System, rtp: Rtp, wall: int)
    requires cfg.client.Valid() && ReorderBuffer.WellFormed(s.client.state.buffer)
    requires rtp in s.data && rtp.valid
    ensures Reorder.HasExt(Step(cfg, s, Deliver(rtp, wall)).client.received, rtp.ext)
  {
    hide Reorder.Stamp, Reorder.Receive;
    var p := Reorder.Stamped(cfg.client, s.client.state, rtp, wall);
    Reorder.StampKeepsExt(cfg.client, s.client.state, rtp, wall);
    var received := Step(cfg, s, Deliver(rtp, wall)).client.received;
    assert received[|s.client.received|] == p;
  }

  /** A packet that is emitted can reach the client, under the next number of the server. */
  lemma EmittedCanArrive(cfg: Settings, s: System, content: Rtp, now: U64, wall: int)
    requires cfg.client.Valid() && ReorderBuffer.WellFormed(s.client.state.buffer) && !s.dead && content.valid
    ensures var rtp := content.(ext := |s.history|);
            var t := Step(cfg, s, Emit(content, now));
            && rtp in t.data && t.history == s.history + [rtp]
            && Reorder.HasExt(Step(cfg, t, Deliver(rtp, wall)).client.received, |s.history|)
  {
    hide RetxServer.Push, Reorder.Step;
    DeliverReceives(cfg, Step(cfg, s, Emit(content, now)), content.(ext := |s.history|), wall);
  }

  /** While both ends of a hole are still buffered, what is missing in it comes in time. */
  lemma ResentIsInTime(w: Reorder.World, lo: int, hi: int, rtp: Rtp)
    requires Reorder.InOrder(w) && Reorder.HasExt(w.Blocks(), lo) && Reorder.HasExt(w.Blocks(), hi)
    requires lo <= rtp.ext <= hi
    ensures Reorder.InTime(w, rtp)
  {
    hide Reorder.Complete;
    var i :| 0 <= i < |w.Blocks()| && w.Blocks()[i].Ext() == lo;
    var j :| 0 <= j < |w.Blocks()| && w.Blocks()[j].Ext() == hi;
    assert w.Blocks()[0].Ext() <= lo;
  }

  /** What the client has passed on so far, and what it will pass on next. */
  function Output(w: Reorder.World): seq<Packet> {
    w.sent + w.Blocks()
  }

  lemma OutputOrdered(w: Reorder.World)
    requires Reorder.InOrder(w)
    ensures ReorderBuffer.Ordered(Output(w))
  {
    hide Reorder.Complete, ReorderBuffer.Window;
    var out := Output(w);
    forall i, j | 0 <= i < j < |out| ensures out[i].Ext() <= out[j].Ext() {
      if i < |w.sent| <= j {
        assert out[i].Ext() <= Reorder.LastSent(w) <= w.Blocks()[0].Ext() <= out[j].Ext();
      }
    }
  }

  lemma OutputHas(w: Reorder.World, x: int)
    requires Reorder.Complete(w) && Reorder.HasExt(w.received, x)
    ensures Reorder.HasExt(Output(w), x)
  {
    var k :| 0 <= k < |w.received| && w.received[k].Ext() == x;
    assert w.received[k] in w.received;
    if Reorder.HasExt(w.sent, x) {
      var j :| 0 <= j < |w.sent| && w.sent[j].Ext() == x;
      assert Output(w)[j].Ext() == x;
    } else {
      var j :| 0 <= j < |w.Blocks()| && w.Blocks()[j].Ext() == x;
      assert Output(w)[|w.sent| + j].Ext() == x;
    }
  }

  lemma SentGapFree(w: Reorder.World, lo: int, hi: int)
    requires Repair.GapFree(Output(w), lo, hi)
    ensures Repair.GapFree(w.sent, lo, hi)
  {
    hide ReorderBuffer.Consecutive;
    forall k {:trigger w.sent[k]} | 0 < k < |w.sent| && lo <= w.sent[k - 1].Ext() && w.sent[k].Ext() <= hi
      ensures w.sent[k].Seqnum() == w.sent[k - 1].Seqnum() || ReorderBuffer.Consecutive(w.sent[k - 1], w.sent[k])
    {
      assert Output(w)[k] == w.sent[k] && Output(w)[k - 1] == w.sent[k - 1];
    }
  }

  /** A client in order that has received every number of a stretch leaves no gap there. */
  lemma ReceivedIsGapFree(w: Reorder.World, lo: int, hi: int)
    requires Reorder.InOrder(w)
    requires forall x :: lo <= x <= hi ==> Reorder.HasExt(w.received, x)
    ensures Repair.GapFree(Output(w), lo, hi) && Repair.GapFree(w.sent, lo, hi)
  {
    hide Repair.GapFree, Reorder.HasExt, ReorderBuffer.Ordered, Output;
    OutputOrdered(w);
    forall x | lo <= x <= hi ensures Reorder.HasExt(Output(w), x) {
      OutputHas(w, x);
    }
    Repair.CoveredIsGapFree(Output(w), lo, hi);
    SentGapFree(w, lo, hi);
  }

  /**
    Over every run whose deliveries are in time, with sends, checks and all that the server and the network do in
    between: what the client has sent and buffered is sorted, and has no gap in a stretch of which every number was
    received.
   */
  lemma DeliveredIsGapFree(cfg: Settings, s: System, actions: seq<Action>, lo: int, hi: int)
    requires cfg.client.Valid() && ReorderBuffer.WellFormed(s.client.state.buffer)
    requires Reorder.InOrder(s.client) && Timely(cfg, s, actions)
    requires forall x :: lo <= x <= hi ==> Reorder.HasExt(Run(cfg, s, actions).client.received, x)
    ensures var w := Run(cfg, s, actions).client;
            ReorderBuffer.Ordered(Output(w)) && Repair.GapFree(Output(w), lo, hi) && Repair.GapFree(w.sent, lo, hi)
  {
    hide Run, Reorder.Run, Reorder.InOrder, Reorder.Smooth, Reorder.HasExt, Repair.GapFree, Output,
         ReorderBuffer.Ordered;
    ClientRuns(cfg, s, actions);
    Reorder.RunInOrder(cfg.client, s.client, Events(cfg, s, actions));
    var w := Run(cfg, s, actions).client;
    OutputOrdered(w);
    ReceivedIsGapFree(w, lo, hi);
  }

  // ---------------------------------------------------------------------------------------------
  // The whole exchange
  // ---------------------------------------------------------------------------------------------

  /** Whatever was buffered at some time has been received by any later time. */
  lemma BufferedIsReceived(cfg: Settings, s: System, actions: seq<Action>, x: int)
    requires cfg.client.Valid() && ReorderBuffer.WellFormed(s.client.state.buffer)
    requires Reorder.Balanced(s.client) && Reorder.HasExt(s.client.Blocks(), x)
    ensures Reorder.HasExt(Run(cfg, s, actions).client.received, x)
  {
    hide Run, Reorder.Run, Reorder.HasExt;
    Repair.HasExtSame(s.client.Blocks(), s.client.received, x);
    ClientRuns(cfg, s, actions);
    Reorder.ReceivedGrows(cfg.client, s.client, Events(cfg, s, actions));
    PrefixHasExt(s.client.received, Run(cfg, s, actions).client.received, x);
  }

  lemma PrefixHasExt(a: seq<Packet>, b: seq<Packet>, x: int)
    requires a <= b && Reorder.HasExt(a, x)
    ensures Reorder.HasExt(b, x)
  {
    var k :| 0 <= k < |a| && a[k].Ext() == x;
    assert b[k] == a[k];
  }

  /**
    A client in order checks for missing packets, and one of its requests is on the way. It is for a hole in the
    buffer. Anything may happen until it reaches the server, and again until some later time.
    The server puts exactly the missing packets back on the way if and only if its queue still reaches back to them.
    And if by that later time every missing number was received, all in time, then what the client has sent on and
    still buffers has no gap where the hole was.
   */
  lemma ExchangeRepairs(cfg: Settings, s: System, date: int, request: seq<Byte>,
                        before: seq<Action>, after: seq<Action>)
      returns (lo: nat, hi: nat)
    requires cfg.client.Valid() && ReorderBuffer.WellFormed(s.client.state.buffer)
    requires Safe(s) && Reorder.InOrder(s.client) && Reorder.Balanced(s.client)
    requires request in NewRequests(cfg, s, date)
    ensures Hole(s.client.Blocks(), lo, hi) && hi < |s.history|
    ensures request == RequestBetween(lo, hi)
    ensures var t := Run(cfg, s, [Look(date)] + before);
            var u := Step(cfg, t, Serve(request));
            request in t.requests && |t.queue| <= POW2_16 ==>
              (u.data == t.data + multiset(MarkedAll(s.history[lo + 1..hi])) <==> |t.history| - |t.queue| <= lo + 1)
    ensures var actions := [Look(date)] + before + [Serve(request)] + after;
            var w := Run(cfg, s, actions).client;
            Timely(cfg, s, actions) && (forall x :: lo < x < hi ==> Reorder.HasExt(w.received, x)) ==>
              ReorderBuffer.Ordered(Output(w)) && Repair.GapFree(Output(w), lo, hi) && Repair.GapFree(w.sent, lo, hi)
  {
    hide Run, Safe, Reorder.InOrder, Reorder.Balanced, Reorder.HasExt, Timely, NewRequests, RequestBetween,
         Repair.GapFree, Output, ReorderBuffer.Ordered, Step, MarkedAll;
    lo, hi := LookAsks(cfg, s, date, request);
    var t := Run(cfg, s, [Look(date)] + before);
    AlwaysSafe(cfg, s, [Look(date)] + before);
    HistoryGrows(cfg, s, [Look(date)] + before);
    if request in t.requests && |t.queue| <= POW2_16 {
      ServeAnswers(cfg, s, t, lo, hi);
    }
    HoleCloses(cfg, s, [Look(date)] + before + [Serve(request)] + after, lo, hi);
  }

  /** A hole closes once what is missing in it was received in time. */
  lemma HoleCloses(cfg: Settings, s: System, actions: seq<Action>, lo: int, hi: int)
    requires cfg.client.Valid() && ReorderBuffer.WellFormed(s.client.state.buffer)
    requires Reorder.InOrder(s.client) && Reorder.Balanced(s.client) && Hole(s.client.Blocks(), lo, hi)
    ensures var w := Run(cfg, s, actions).client;
            Timely(cfg, s, actions) && (forall x :: lo < x < hi ==> Reorder.HasExt(w.received, x)) ==>
              ReorderBuffer.Ordered(Output(w)) && Repair.GapFree(Output(w), lo, hi) && Repair.GapFree(w.sent, lo, hi)
  {
    hide Run, Reorder.InOrder, Reorder.Balanced, Reorder.HasExt, Timely, Repair.GapFree, Output, ReorderBuffer.Ordered;
    var w := Run(cfg, s, actions).client;
    if Timely(cfg, s, actions) && (forall x :: lo < x < hi ==> Reorder.HasExt(w.received, x)) {
      BufferedIsReceived(cfg, s, actions, lo);
      BufferedIsReceived(cfg, s, actions, hi);
      DeliveredIsGapFree(cfg, s, actions, lo, hi);
    }
  }

  // ---------------------------------------------------------------------------------------------
  // A prompt answer
  // ---------------------------------------------------------------------------------------------

  /** The packets reach the client one after the other. */
  function DeliverAll(packets: seq<Rtp>, wall: int): seq<Action>
    decreases |packets|
  {
    if packets == [] then [] else [Deliver(packets[0], wall)] + DeliverAll(packets[1..], wall)
  }

  lemma TimelyStep(cfg: Settings, s: System, a: Action, rest: seq<Action>)
    requires cfg.client.Valid() && ReorderBuffer.WellFormed(s.client.state.buffer)
    requires Timely(cfg, Step(cfg, s, a), rest)
    requires a.Deliver? ==> Reorder.InTime(s.client, a.rtp)
    ensures Timely(cfg, s, [a] + rest)
  {
    hide Reorder.Step, Reorder.InTime, Reorder.Requests, RetxServer.Push, RetxServer.Handle;
    assert ([a] + rest)[1..] == rest;
    var events := Events(cfg, Step(cfg, s, a), rest);
    if EventOf(s, a) == [] {
      assert EventOf(s, a) + events == events;
    } else {
      assert (EventOf(s, a) + events)[1..] == events;
    }
  }

  lemma RunStep(cfg: Settings, s: System, a: Action, rest: seq<Action>)
    requires cfg.client.Valid() && ReorderBuffer.WellFormed(s.client.state.buffer)
    ensures Run(cfg, s, [a] + rest) == Run(cfg, Step(cfg, s, a), rest)
  {
    assert ([a] + rest)[1..] == rest;
  }

  /** After a delivery the client is in order and still has its numbers, and the other packets are on their way. */
  lemma DeliverKeeps(cfg: Settings, s: System, packets: seq<Rtp>, wall: int, lo: int, hi: int)
    requires cfg.client.Valid() && ReorderBuffer.WellFormed(s.client.state.buffer) && Reorder.InOrder(s.client)
    requires packets != [] && packets[0].valid && Reorder.InTime(s.client, packets[0]) && multiset(packets) <= s.data
    requires Reorder.HasExt(s.client.Blocks(), lo) && Reorder.HasExt(s.client.Blocks(), hi)
    ensures var t := Step(cfg, s, Deliver(packets[0], wall));
            && Reorder.InOrder(t.client) && multiset(packets[1..]) <= t.data
            && Reorder.HasExt(t.client.Blocks(), lo) && Reorder.HasExt(t.client.Blocks(), hi)
  {
    hide Reorder.InOrder, Reorder.InTime, Reorder.HasExt, Reorder.Stamp, ReorderBuffer.Insert;
    var rtp := packets[0];
    assert packets == [rtp] + packets[1..];
    assert rtp in multiset(packets);
    Reorder.RecvInOrder(cfg.client, s.client, rtp, wall);
    Reorder.InsertHas(s.client.state.buffer, Reorder.Stamped(cfg.client, s.client.state, rtp, wall));
  }

  /** Packets from between two buffered numbers that are delivered at once are all in time, and are all received. */
  lemma {:induction false} BurstIsReceived(cfg: Settings, s: System, packets: seq<Rtp>, wall: int, lo: int, hi: int)
    requires cfg.client.Valid() && ReorderBuffer.WellFormed(s.client.state.buffer) && Reorder.InOrder(s.client)
    requires Reorder.HasExt(s.client.Blocks(), lo) && Reorder.HasExt(s.client.Blocks(), hi)
    requires forall i :: 0 <= i < |packets| ==> packets[i].valid && lo <= packets[i].ext <= hi
    requires multiset(packets) <= s.data
    ensures Timely(cfg, s, DeliverAll(packets, wall))
    ensures forall i :: 0 <= i < |packets| ==>
              Reorder.HasExt(Run(cfg, s, DeliverAll(packets, wall)).client.received, packets[i].ext)
    decreases |packets|
  {
    hide Run, Step, Events, Timely, Reorder.InOrder, Reorder.HasExt, Reorder.InTime, Reorder.Run;
    if packets == [] {
      assert Timely(cfg, s, []) by { NothingIsTimely(cfg, s); }
    } else {
      var a, rest := Deliver(packets[0], wall), DeliverAll(packets[1..], wall);
      ResentIsInTime(s.client, lo, hi, packets[0]);
      DeliverKeeps(cfg, s, packets, wall, lo, hi);
      var t := Step(cfg, s, a);
      BurstIsReceived(cfg, t, packets[1..], wall, lo, hi);
      TimelyStep(cfg, s, a, rest);
      RunStep(cfg, s, a, rest);
      assert packets[0] in multiset(packets);
      DeliverReceives(cfg, s, packets[0], wall);
      ClientRuns(cfg, t, rest);
      Reorder.ReceivedGrows(cfg.client, t.client, Events(cfg, t, rest));
      var w := Run(cfg, t, rest).client;
      PrefixHasExt(t.client.received, w.received, packets[0].ext);
      forall i | 0 <= i < |packets| ensures Reorder.HasExt(w.received, packets[i].ext) {
        assert i > 0 ==> packets[i] == packets[1..][i - 1];
      }
    }
  }

  lemma NothingIsTimely(cfg: Settings, s: System)
    requires cfg.client.Valid() && ReorderBuffer.WellFormed(s.client.state.buffer)
    ensures Timely(cfg, s, [])
  {
  }

  /** A check leaves a client in order with the numbers that it had. */
  lemma LookKeeps(cfg: Settings, s: System, date: int, x: int)
    requires cfg.client.Valid() && ReorderBuffer.WellFormed(s.client.state.buffer)
    requires Reorder.InOrder(s.client) && Reorder.HasExt(s.client.Blocks(), x)
    ensures Reorder.InOrder(Step(cfg, s, Look(date)).client)
    ensures Reorder.HasExt(Step(cfg, s, Look(date)).client.Blocks(), x)
  {
    hide ReorderBuffer.Check, Reorder.HasExt, Reorder.Complete, Reorder.Requests, ReorderBuffer.HoldsAll,
         ReorderBuffer.Window, ReorderBuffer.Ordered;
    var c := cfg.client;
    Reorder.CheckInOrder(c, s.client, date);
    ReorderBuffer.CheckKeeps(s.client.state.buffer, 0, date + c.retxDelay, c.retxDelay);
    Reorder.HoldsInWindow(Step(cfg, s, Look(date)).client.Blocks(), s.client.Blocks(), x);
  }

  /**
    If the request gets through, the queue reaches back far enough, and the answer comes at once, then every packet of
    it is in time, and the hole is closed.
   */
  lemma PromptAnswerCloses(cfg: Settings, s: System, date: int, lo: nat, hi: nat, wall: int)
    requires cfg.client.Valid() && ReorderBuffer.WellFormed(s.client.state.buffer)
    requires Safe(s) && Reorder.InOrder(s.client) && Reorder.Balanced(s.client)
    requires Hole(s.client.Blocks(), lo, hi) && hi < |s.history| && 1 < hi - lo < ReorderBuffer.HALF
    requires RequestBetween(lo, hi) in Step(cfg, s, Look(date)).requests
    requires lo + 1 < hi <= |s.history| && |s.queue| <= POW2_16 && |s.history| - |s.queue| <= lo + 1
    requires forall i :: lo < i < hi ==> s.history[i].valid
    ensures var actions := [Look(date)]
                           + ([Serve(RequestBetween(lo, hi))] + DeliverAll(MarkedAll(s.history[lo + 1..hi]), wall));
            Timely(cfg, s, actions) && Repair.GapFree(Output(Run(cfg, s, actions).client), lo, hi)
  {
    hide Run, Safe, Step, Reorder.InOrder, Reorder.Balanced, Reorder.HasExt, Timely, RequestBetween,
         Repair.GapFree, Output, MarkedAll, DeliverAll;
    var request := RequestBetween(lo, hi);
    var packets := MarkedAll(s.history[lo + 1..hi]);
    var t := Step(cfg, s, Look(date));
    var u := Step(cfg, t, Serve(request));
    LookKeeps(cfg, s, date, lo);
    LookKeeps(cfg, s, date, hi);
    AlwaysSafe(cfg, s, [Look(date)]);
    OneStep(cfg, s, Look(date));
    LookServer(cfg, s, date);
    ServeAnswers(cfg, s, t, lo, hi);
    ServeClient(cfg, t, request);
    StretchMarked(s, lo, hi);
    BurstIsReceived(cfg, u, packets, wall, lo, hi);
    var rest := [Serve(request)] + DeliverAll(packets, wall);
    TimelyStep(cfg, t, Serve(request), DeliverAll(packets, wall));
    TimelyStep(cfg, s, Look(date), rest);
    RunStep(cfg, t, Serve(request), DeliverAll(packets, wall));
    RunStep(cfg, s, Look(date), rest);
    var w := Run(cfg, u, DeliverAll(packets, wall)).client;
    forall x | lo < x < hi ensures Reorder.HasExt(w.received, x) {
      assert packets[x - lo - 1].ext == x;
    }
    HoleCloses(cfg, s, [Look(date)] + rest, lo, hi);
  }

  /** So it is for every request that a check sends. */
  lemma PromptAnswerRepairs(cfg: Settings, s: System, date: int, request: seq<Byte>, wall: int)
      returns (lo: nat, hi: nat)
    requires cfg.client.Valid() && ReorderBuffer.WellFormed(s.client.state.buffer)
    requires Safe(s) && Reorder.InOrder(s.client) && Reorder.Balanced(s.client)
    requires request in NewRequests(cfg, s, date) && |s.queue| <= POW2_16
    ensures Hole(s.client.Blocks(), lo, hi) && hi < |s.history| && request == RequestBetween(lo, hi)
    ensures var actions := [Look(date)] + ([Serve(request)] + DeliverAll(MarkedAll(s.history[lo + 1..hi]), wall));
            |s.history| - |s.queue| <= lo + 1 && (forall i :: lo < i < hi ==> s.history[i].valid) ==>
              Timely(cfg, s, actions) && Repair.GapFree(Output(Run(cfg, s, actions).client), lo, hi)
  {
    hide Run, Safe, Step, Reorder.InOrder, Reorder.Balanced, Timely, NewRequests, RequestBetween, Repair.GapFree,
         Output, MarkedAll, DeliverAll, Reorder.HasExt;
    lo, hi := LookAsks(cfg, s, date, request);
    if |s.history| - |s.queue| <= lo + 1 && (forall i :: lo < i < hi ==> s.history[i].valid) {
      PromptAnswerCloses(cfg, s, date, lo, hi, wall);
    }
  }

  /**
    And so it is for every hole that is in the reach of some cursor: the next check asks for it, and a prompt
    answer from a queue that reaches back far enough closes it.
   */
  lemma HoleIsRepaired(cfg: Settings, s: System, date: int, i: nat, lo: nat, hi: nat, wall: int)
    requires cfg.client.Valid() && ReorderBuffer.WellFormed(s.client.state.buffer)
    requires Safe(s) && Reorder.InOrder(s.client) && Reorder.Balanced(s.client)
    requires i < |s.client.state.buffer.cursors|
    requires Hole(s.client.Blocks(), lo, hi) && hi - lo - 1 <= cfg.client.maxRetxBurst
    requires InReach(s.client.state.buffer, i, lo, hi, date + (i + 1) * cfg.client.retxDelay)
    requires |s.queue| <= POW2_16 && |s.history| - |s.queue| <= lo + 1
    requires forall x :: lo < x < hi && x < |s.history| ==> s.history[x].valid
    ensures lo + 1 < hi < |s.history| && hi - lo < ReorderBuffer.HALF
    ensures var actions := [Look(date)]
                           + ([Serve(RequestBetween(lo, hi))] + DeliverAll(MarkedAll(s.history[lo + 1..hi]), wall));
            Timely(cfg, s, actions) && Repair.GapFree(Output(Run(cfg, s, actions).client), lo, hi)
  {
    hide Run, Step, Reorder.InOrder, Reorder.Balanced, Timely, NewRequests, RequestBetween, Repair.GapFree,
         Output, MarkedAll, DeliverAll, Reorder.HasExt, InReach, Genuine, QueueGenuine;
    HoleIsRequested(cfg, s, date, i, lo, hi);
    assert hi < |s.history| by { GenuineNumber(s.history, s.client.Blocks(), hi); }
    PromptAnswerCloses(cfg, s, date, lo, hi, wall);
  }

  lemma OneStep(cfg: Settings, s: System, a: Action)
    requires cfg.client.Valid() && ReorderBuffer.WellFormed(s.client.state.buffer)
    ensures Run(cfg, s, [a]) == Step(cfg, s, a)
  {
    hide Step;
    assert [a][1..] == [];
  }

  lemma LookServer(cfg: Settings, s: System, date: int)
    requires cfg.client.Valid() && ReorderBuffer.WellFormed(s.client.state.buffer)
    ensures var t := Step(cfg, s, Look(date)); t.history == s.history && t.queue == s.queue
  {
  }

  lemma ServeClient(cfg: Settings, s: System, request: seq<Byte>)
    requires cfg.client.Valid() && ReorderBuffer.WellFormed(s.client.state.buffer)
    ensures Step(cfg, s, Serve(request)).client == s.client
  {
    hide RetxServer.Handle;
  }

  lemma StretchMarked(s: System, lo: nat, hi: nat)
    requires Safe(s) && lo < hi <= |s.history| && forall i :: lo < i < hi ==> s.history[i].valid
    ensures var packets := MarkedAll(s.history[lo + 1..hi]);
            forall i :: 0 <= i < |packets| ==> packets[i].valid && packets[i].ext == lo + 1 + i
  {
    var packets := MarkedAll(s.history[lo + 1..hi]);
    forall i | 0 <= i < |packets| ensures packets[i].valid && packets[i].ext == lo + 1 + i {
      assert s.history[lo + 1..hi][i] == s.history[lo + 1 + i];
    }
  }

  // ---------------------------------------------------------------------------------------------
  // How long a packet can be asked for
  // ---------------------------------------------------------------------------------------------

  /** The packets that a run emits, numbered from k, with their dates. */
  function Emissions(actions: seq<Action>, k: nat): seq<RetxServer.Sent>
    decreases |actions|
  {
    if actions == [] then []
    else if actions[0].Emit? then
      [RetxServer.Sent(actions[0].content.(ext := k), actions[0].now)] + Emissions(actions[1..], k + 1)
    else Emissions(actions[1..], k)
  }

  /** The server has sent what was emitted, and its queue is what pushing that one after the other makes it. */
  predicate HasEmitted(cfg: Settings, s: System, sent: seq<RetxServer.Sent>) {
    && |s.history| == |sent|
    && s.queue == RetxServer.PushAll(sent, cfg.retxBuffer)
  }

  lemma EmitEmits(cfg: Settings, s: System, sent: seq<RetxServer.Sent>, content: Rtp, now: U64)
    requires cfg.client.Valid() && ReorderBuffer.WellFormed(s.client.state.buffer)
    requires !s.dead && HasEmitted(cfg, s, sent)
    ensures HasEmitted(cfg, Step(cfg, s, Emit(content, now)),
                       sent + [RetxServer.Sent(content.(ext := |s.history|), now)])
  {
    hide RetxServer.Push;
    var all := sent + [RetxServer.Sent(content.(ext := |s.history|), now)];
    assert all[..|all| - 1] == sent;
  }

  lemma OthersEmitNothing(cfg: Settings, s: System, sent: seq<RetxServer.Sent>, a: Action)
    requires cfg.client.Valid() && ReorderBuffer.WellFormed(s.client.state.buffer)
    requires HasEmitted(cfg, s, sent) && !a.Emit?
    ensures HasEmitted(cfg, Step(cfg, s, a), sent)
  {
    hide RetxServer.PushAll, RetxServer.Handle, Reorder.Step, Reorder.Requests;
  }

  lemma {:induction false} RunEmits(cfg: Settings, s: System, sent: seq<RetxServer.Sent>, actions: seq<Action>)
    requires cfg.client.Valid() && ReorderBuffer.WellFormed(s.client.state.buffer)
    requires Safe(s) && HasEmitted(cfg, s, sent)
    ensures HasEmitted(cfg, Run(cfg, s, actions), sent + Emissions(actions, |sent|))
    decreases |actions|
  {
    hide Safe, Step, HasEmitted;
    if actions == [] {
      assert sent + [] == sent;
    } else {
      var a := actions[0];
      var t := Step(cfg, s, a);
      AlwaysSafe(cfg, s, [a]);
      OneStep(cfg, s, a);
      if a.Emit? {
        SafeLives(cfg, s, sent);
        EmitEmits(cfg, s, sent, a.content, a.now);
        var one := RetxServer.Sent(a.content.(ext := |sent|), a.now);
        RunEmits(cfg, t, sent + [one], actions[1..]);
        Associates(sent, [one], Emissions(actions[1..], |sent| + 1));
      } else {
        OthersEmitNothing(cfg, s, sent, a);
        RunEmits(cfg, t, sent, actions[1..]);
      }
    }
  }

  lemma SafeLives(cfg: Settings, s: System, sent: seq<RetxServer.Sent>)
    requires Safe(s) && HasEmitted(cfg, s, sent)
    ensures !s.dead && |s.history| == |sent|
  {
  }

  /** In a list in date order, what is recent is a tail, and the limit tells which. */
  lemma {:induction false} RecentIsTail(q: seq<RetxServer.Queued>, limit: int, x: nat)
    requires RetxServer.ByDate(q) && x < |q|
    ensures |RetxServer.Recent(q, limit)| <= |q|
    ensures q[x].date >= limit <==> |q| - |RetxServer.Recent(q, limit)| <= x
    decreases |q|
  {
    if q[0].date >= limit {
      RetxServer.AllRecent(q, limit);
    } else if x > 0 {
      RecentIsTail(q[1..], limit, x - 1);
    } else if |q| > 1 {
      RecentIsTail(q[1..], limit, 0);
    } else {
      assert q[1..] == [];
    }
  }

  /** The server of a run from the start has the packets of that run and no others. */
  lemma StartEmits(cfg: Settings, retxCount: nat, actions: seq<Action>)
    requires cfg.client.Valid()
    ensures HasEmitted(cfg, Run(cfg, Start(retxCount), actions), Emissions(actions, 0))
    ensures Safe(Run(cfg, Start(retxCount), actions))
  {
    hide Run, Safe, Step;
    StartSafe(retxCount);
    AlwaysSafe(cfg, Start(retxCount), actions);
    RunEmits(cfg, Start(retxCount), [], actions);
    assert [] + Emissions(actions, 0) == Emissions(actions, 0);
  }

  /**
    Over every run from the start, with a monotonic clock older than the buffer is long: a request for packets x and
    following is answered with exactly these if and only if packet x was emitted no longer before the last one than the
    buffer is long.
   */
  lemma ResentWhileRecent(cfg: Settings, retxCount: nat, actions: seq<Action>, x: nat, num: nat)
    requires cfg.client.Valid()
    requires var sent := Emissions(actions, 0);
             RetxServer.Monotonic(sent) && forall i :: 0 <= i < |sent| ==> cfg.retxBuffer <= sent[i].date
    requires var s := Run(cfg, Start(retxCount), actions);
             && |s.queue| <= POW2_16 && 0 < num < POW2_16 && x + num <= |s.history|
             && RetxRequest(x % POW2_16, num) in s.requests
    ensures var s := Run(cfg, Start(retxCount), actions);
            var sent := Emissions(actions, 0);
            && x + num <= |sent| == |s.history|
            && (Step(cfg, s, Serve(RetxRequest(x % POW2_16, num))).data
                == s.data + multiset(MarkedAll(s.history[x..x + num]))
                <==> sent[|sent| - 1].date - cfg.retxBuffer <= sent[x].date)
  {
    hide Run, Safe, Step, RetxRequest, MarkedAll, RetxServer.PushAll, RetxServer.Recent, RetxServer.Monotonic,
         RetxServer.ByDate;
    var s := Run(cfg, Start(retxCount), actions);
    var sent := Emissions(actions, 0);
    StartEmits(cfg, retxCount, actions);
    RetxServer.QueueIsWindow(sent, cfg.retxBuffer);
    RetxServer.EntriesByDate(sent);
    RecentIsTail(RetxServer.Entries(sent), sent[|sent| - 1].date - cfg.retxBuffer, x);
    ServeResends(cfg, s, x, num);
  }
}
