/**
  What a retransmission cursor asks for over a whole run of reordertp.c: its number never goes back, so it asks for
  each missing packet at most once.
 */
module AskOnce {
  import opened Base
  import opened Packets
  import opened ReorderBuffer
  import opened Reorder

  // ---------------------------------------------------------------------------------------------
  // The numbers that gaps stand for
  // ---------------------------------------------------------------------------------------------

  /** The numbers from one up to, but not including, another. */
  function Numbers(a: int, b: int): (xs: seq<int>)
    ensures forall k :: 0 <= k < |xs| ==> a <= xs[k] == a + k < b
  {
    seq(if a < b then b - a else 0, k => a + k)
  }

  /** The numbers that are missing between the neighbours of a list. */
  function Missing(blocks: seq<Packet>): seq<int>
    decreases |blocks|
  {
    if |blocks| < 2 then [] else Numbers(blocks[0].Ext() + 1, blocks[1].Ext()) + Missing(blocks[1..])
  }

  /** The sequence numbers that some reported gaps consist of. */
  function Spelled(gaps: seq<Gap>): seq<U16> {
    if gaps == [] then [] else ReorderBuffer.Run(gaps[0].first, gaps[0].num) + Spelled(gaps[1..])
  }

  function Wire(xs: seq<int>): (r: seq<U16>)
    ensures |r| == |xs|
  {
    seq(|xs|, k requires 0 <= k < |xs| => xs[k] % POW2_16)
  }

  predicate Increasing(xs: seq<int>) {
    forall j, k :: 0 <= j < k < |xs| ==> xs[j] < xs[k]
  }

  lemma {:induction false} SpelledJoin(a: seq<Gap>, b: seq<Gap>)
    ensures Spelled(a + b) == Spelled(a) + Spelled(b)
    decreases |a|
  {
    if a == [] {
      assert a + b == b;
    } else {
      assert (a + b)[1..] == a[1..] + b;
      SpelledJoin(a[1..], b);
      Associates(ReorderBuffer.Run(a[0].first, a[0].num), Spelled(a[1..]), Spelled(b));
    }
  }

  lemma WireJoin(a: seq<int>, b: seq<int>)
    ensures Wire(a + b) == Wire(a) + Wire(b)
  {
  }

  lemma GapSpells(p: Packet, q: Packet)
    requires 0 < q.Ext() - p.Ext() < HALF
    ensures (if Consecutive(p, q) then [] else ReorderBuffer.Run(GapBetween(p, q).first, GapBetween(p, q).num))
         == Wire(Numbers(p.Ext() + 1, q.Ext()))
  {
    GapRun(p, q);
    var r, w := ReorderBuffer.Run(p.Ext() + 1, q.Ext() - p.Ext() - 1), Wire(Numbers(p.Ext() + 1, q.Ext()));
    assert |r| == |w|;
    forall k | 0 <= k < |r| ensures r[k] == w[k] {
      assert Numbers(p.Ext() + 1, q.Ext())[k] == p.Ext() + 1 + k;
    }
  }

  /** In a window, the gaps of a list spell what is missing in it. */
  lemma {:induction false} GapsSpellMissing(blocks: seq<Packet>)
    requires Ordered(blocks) && Window(blocks) && NoAdjacentEqual(blocks)
    ensures Spelled(GapsOf(blocks)) == Wire(Missing(blocks))
    decreases |blocks|
  {
    hide Ordered, Window, NoAdjacentEqual, Consecutive, GapBetween, Wire, Numbers;
    if |blocks| < 2 {
      assert Wire([]) == [];
    } else {
      var p, q := blocks[0], blocks[1];
      FillTilesTail(blocks);
      GapsSpellMissing(blocks[1..]);
      GapSpells(p, q);
      WireJoin(Numbers(p.Ext() + 1, q.Ext()), Missing(blocks[1..]));
      if !Consecutive(p, q) {
        var g := GapBetween(p, q);
        assert GapsOf(blocks) == [g] + GapsOf(blocks[1..]) && ([g] + GapsOf(blocks[1..]))[1..] == GapsOf(blocks[1..]);
      } else {
        assert [] + Spelled(GapsOf(blocks[1..])) == Spelled(GapsOf(blocks[1..]));
      }
    }
  }

  /** Numbers strictly between the ends of a list. */
  predicate Inner(xs: seq<int>, blocks: seq<Packet>) {
    && (xs != [] ==> |blocks| > 1)
    && (|blocks| > 1 ==> forall k :: 0 <= k < |xs| ==> blocks[0].Ext() < xs[k] < blocks[|blocks| - 1].Ext())
  }

  /** What is missing in a sorted list comes in order, strictly between its ends. */
  lemma {:induction false} MissingIncreases(blocks: seq<Packet>)
    requires Ordered(blocks)
    ensures Increasing(Missing(blocks)) && Inner(Missing(blocks), blocks)
    decreases |blocks|
  {
    if |blocks| > 1 {
      var tail := blocks[1..];
      assert tail[|tail| - 1] == blocks[|blocks| - 1] && tail[0] == blocks[1];
      MissingIncreases(tail);
      var xs, ys := Numbers(blocks[0].Ext() + 1, blocks[1].Ext()), Missing(tail);
      JoinIncreases(xs, ys, blocks[1].Ext());
      forall k | 0 <= k < |xs + ys| ensures blocks[0].Ext() < (xs + ys)[k] < blocks[|blocks| - 1].Ext() {
        assert blocks[0].Ext() <= blocks[1].Ext() <= blocks[|blocks| - 1].Ext();
        assert k < |xs| ==> (xs + ys)[k] == xs[k];
        assert k >= |xs| ==> (xs + ys)[k] == ys[k - |xs|];
      }
    }
  }

  lemma JoinIncreases(xs: seq<int>, ys: seq<int>, x: int)
    requires Increasing(xs) && Increasing(ys)
    requires forall k :: 0 <= k < |xs| ==> xs[k] <= x
    requires forall k :: 0 <= k < |ys| ==> x < ys[k]
    ensures Increasing(xs + ys)
  {
  }

  // ---------------------------------------------------------------------------------------------
  // How far a cursor has come
  // ---------------------------------------------------------------------------------------------

  /** The number of the block that a cursor is on; a null cursor has come as far as the last packet sent. */
  function Reach(b: Buffer, last: Option<int>, i: nat): Option<int>
    requires WellFormed(b) && i < |b.cursors|
  {
    if b.cursors[i] == EMPTY_CURSOR then last else Some(b.blocks[b.cursors[i]].Ext())
  }

  predicate AtLeast(a: Option<int>, b: Option<int>) {
    b.Some? ==> a.Some? && a.value >= b.value
  }

  /** Numbers that come strictly behind one place, and up to another. */
  predicate Within(xs: seq<int>, from: Option<int>, to: Option<int>) {
    && (from.Some? ==> forall k :: 0 <= k < |xs| ==> from.value < xs[k])
    && (xs != [] ==> to.Some?)
    && (to.Some? ==> forall k :: 0 <= k < |xs| ==> xs[k] <= to.value)
  }

  /** The last packet sent is not newer than the head. */
  predicate Behind(last: Option<int>, blocks: seq<Packet>) {
    last.Some? && blocks != [] ==> last.value <= blocks[0].Ext()
  }

  lemma BehindKept(last: Option<int>, blocks: seq<Packet>, kept: seq<Packet>)
    requires Behind(last, blocks) && Ordered(blocks) && multiset(kept) <= multiset(blocks)
    ensures Behind(last, kept)
  {
    if kept != [] {
      assert kept[0] in multiset(blocks);
    }
  }

  /** A cursor is null before and after, or on blocks of one number. */
  predicate SameReach(b: Buffer, r: Buffer, i: nat)
    requires WellFormed(b) && WellFormed(r) && i < |b.cursors| == |r.cursors|
  {
    && (b.cursors[i] == EMPTY_CURSOR <==> r.cursors[i] == EMPTY_CURSOR)
    && (b.cursors[i] != EMPTY_CURSOR ==> r.blocks[r.cursors[i]].Ext() == b.blocks[b.cursors[i]].Ext())
  }

  lemma DropKeepsReach(b: Buffer, k: nat, i: nat)
    requires WellFormed(b) && Window(b.blocks) && i < |b.cursors| && 0 < k < |b.blocks|
    requires b.blocks[k].Seqnum() == b.blocks[k - 1].Seqnum()
    ensures WellFormed(Remove(b, k)) && |Remove(b, k).cursors| == |b.cursors| && SameReach(b, Remove(b, k), i)
  {
    SameSeqnum(b.blocks[k].Ext(), b.blocks[k - 1].Ext());
  }

  /** The pass of one cursor leaves the others where they are. */
  lemma {:induction false} OtherPass(b: Buffer, j: nat, limit: int, i: nat)
    requires WellFormed(b) && Window(b.blocks) && j < |b.cursors| && i < |b.cursors| && i != j
    ensures SameReach(b, Pass(b, j, limit).buffer, i)
    decreases |b.blocks| - b.cursors[j]
  {
    hide Consecutive, GapBetween, Without, Window;
    var c := b.cursors[j];
    if c + 1 < |b.blocks| && b.blocks[c + 1].date <= limit {
      if c != EMPTY_CURSOR && b.blocks[c + 1].Seqnum() == b.blocks[c].Seqnum() {
        DropKeepsReach(b, c + 1, i);
        WithoutWindow(b.blocks, c + 1);
        OtherPass(Remove(b, c + 1), j, limit, i);
      } else {
        OtherPass(Advance(b, j), j, limit, i);
      }
    }
  }

  /** A cursor's own pass takes it forward, and asks for numbers between where it was and where it is then. */
  lemma OwnPass(b: Buffer, i: nat, limit: int, last: Option<int>) returns (xs: seq<int>)
    requires WellFormed(b) && Ordered(b.blocks) && Window(b.blocks) && i < |b.cursors| && Behind(last, b.blocks)
    ensures Spelled(Pass(b, i, limit).gaps) == Wire(xs) && Increasing(xs)
    ensures var r := Pass(b, i, limit).buffer;
            && Within(xs, Reach(b, last, i), Reach(r, last, i))
            && AtLeast(Reach(r, last, i), Reach(b, last, i))
  {
    hide Pass, GapsOf, Missing, Spelled, Wire, Increasing, NoAdjacentEqual, Window, Exhausted, HoldsAll, Ordered,
         Behind, Within, AtLeast, Walked, Inner;
    var r := Pass(b, i, limit).buffer;
    PassAdvances(b, i, limit);
    PassWalks(b, i, limit);
    PassKeeps(b, i, limit);
    BehindKept(last, b.blocks, r.blocks);
    var w := Walked(b, r, i);
    WalkIsOrdered(b, r, i);
    GapsSpellMissing(w);
    MissingIncreases(w);
    xs := Missing(w);
    WalkReach(b, r, i, last, xs);
  }

  /** Numbers strictly between the ends of a walk lie between where the cursor was and where it is. */
  lemma WalkReach(b: Buffer, r: Buffer, i: nat, last: Option<int>, xs: seq<int>)
    requires WellFormed(b) && WellFormed(r) && i < |b.cursors| == |r.cursors| && b.cursors[i] <= r.cursors[i]
    requires Ordered(r.blocks) && Behind(last, r.blocks)
    requires forall k :: 0 <= k <= b.cursors[i] ==> r.blocks[k] == b.blocks[k]
    requires Inner(xs, Walked(b, r, i))
    ensures Within(xs, Reach(b, last, i), Reach(r, last, i)) && AtLeast(Reach(r, last, i), Reach(b, last, i))
  {
    var w := Walked(b, r, i);
    if w != [] {
      var a := if b.cursors[i] == EMPTY_CURSOR then 0 else b.cursors[i];
      assert w[0] == r.blocks[a] && w[|w| - 1] == r.blocks[r.cursors[i]];
      assert r.blocks[0].Ext() <= r.blocks[a].Ext() <= r.blocks[r.cursors[i]].Ext();
    }
  }

  lemma WalkIsOrdered(b: Buffer, r: Buffer, i: nat)
    requires WellFormed(b) && WellFormed(r) && i < |b.cursors| == |r.cursors| && b.cursors[i] <= r.cursors[i]
    requires Ordered(r.blocks) && Window(r.blocks)
    ensures Ordered(Walked(b, r, i)) && Window(Walked(b, r, i))
  {
  }

  // ---------------------------------------------------------------------------------------------
  // A whole check
  // ---------------------------------------------------------------------------------------------

  /** The gaps that the pass of cursor i reports, in a check that begins with pass j. */
  function Asked(b: Buffer, j: nat, limit: int, delay: int, i: nat): seq<Gap>
    requires WellFormed(b) && j <= |b.cursors|
    decreases |b.cursors| - j
  {
    if j == |b.cursors| then []
    else if j == i then Pass(b, i, limit).gaps
    else Asked(Pass(b, j, limit).buffer, j + 1, limit + delay, delay, i)
  }

  /** Every gap that a check reports comes from the pass of some cursor. */
  lemma {:induction false} AskedBySome(b: Buffer, j: nat, limit: int, delay: int, g: Gap) returns (i: nat)
    requires WellFormed(b) && j <= |b.cursors| && g in ReorderBuffer.Check(b, j, limit, delay).gaps
    ensures j <= i < |b.cursors| && g in Asked(b, j, limit, delay, i)
    decreases |b.cursors| - j
  {
    hide Pass;
    if g in Pass(b, j, limit).gaps {
      i := j;
    } else {
      i := AskedBySome(Pass(b, j, limit).buffer, j + 1, limit + delay, delay, g);
    }
  }

  /** The gaps that the passes of the cursors from i on report, in a check that begins with pass j. */
  function AskedFrom(b: Buffer, j: nat, limit: int, delay: int, i: nat): seq<Gap>
    requires WellFormed(b) && j <= i <= |b.cursors|
    decreases |b.cursors| - i
  {
    if i == |b.cursors| then [] else Asked(b, j, limit, delay, i) + AskedFrom(b, j, limit, delay, i + 1)
  }

  lemma {:induction false} AskedFromLater(b: Buffer, j: nat, limit: int, delay: int, i: nat)
    requires WellFormed(b) && j < i <= |b.cursors|
    ensures AskedFrom(b, j, limit, delay, i) == AskedFrom(Pass(b, j, limit).buffer, j + 1, limit + delay, delay, i)
    decreases |b.cursors| - i
  {
    hide Pass;
    if i < |b.cursors| {
      AskedFromLater(b, j, limit, delay, i + 1);
    }
  }

  /** A check reports all that the passes of its cursors find, one cursor after the other, and nothing else. */
  lemma {:induction false} CheckReportsAll(b: Buffer, j: nat, limit: int, delay: int)
    requires WellFormed(b) && j <= |b.cursors|
    ensures ReorderBuffer.Check(b, j, limit, delay).gaps == AskedFrom(b, j, limit, delay, j)
    decreases |b.cursors| - j
  {
    hide Pass;
    if j < |b.cursors| {
      CheckReportsAll(Pass(b, j, limit).buffer, j + 1, limit + delay, delay);
      AskedFromLater(b, j, limit, delay, j + 1);
    }
  }

  lemma {:induction false} AskedIsReported(b: Buffer, j: nat, limit: int, delay: int, i: nat, g: Gap)
    requires WellFormed(b) && j <= i < |b.cursors| && g in Asked(b, j, limit, delay, i)
    ensures g in ReorderBuffer.Check(b, j, limit, delay).gaps
    decreases |b.cursors| - j
  {
    hide Pass;
    if j < i {
      AskedIsReported(Pass(b, j, limit).buffer, j + 1, limit + delay, delay, i, g);
    }
  }

  lemma {:induction false} OtherPasses(b: Buffer, j: nat, limit: int, delay: int, i: nat)
    requires WellFormed(b) && Window(b.blocks) && i < j <= |b.cursors|
    ensures SameReach(b, ReorderBuffer.Check(b, j, limit, delay).buffer, i)
    decreases |b.cursors| - j
  {
    hide Pass, Window, HoldsAll;
    if j < |b.cursors| {
      OtherPass(b, j, limit, i);
      PassKeeps(b, j, limit);
      OtherPasses(Pass(b, j, limit).buffer, j + 1, limit + delay, delay, i);
    }
  }

  lemma {:induction false} CheckAsksOnce(b: Buffer, j: nat, limit: int, delay: int, i: nat, last: Option<int>)
      returns (xs: seq<int>)
    requires WellFormed(b) && Ordered(b.blocks) && Window(b.blocks) && j <= i < |b.cursors| && Behind(last, b.blocks)
    ensures Spelled(Asked(b, j, limit, delay, i)) == Wire(xs) && Increasing(xs)
    ensures var r := ReorderBuffer.Check(b, j, limit, delay).buffer;
            && Within(xs, Reach(b, last, i), Reach(r, last, i))
            && AtLeast(Reach(r, last, i), Reach(b, last, i))
    decreases |b.cursors| - j
  {
    hide Pass, Spelled, Wire, Increasing, Within, Ordered, Window, Behind, HoldsAll;
    var r := Pass(b, j, limit).buffer;
    PassKeeps(b, j, limit);
    BehindKept(last, b.blocks, r.blocks);
    if j == i {
      xs := OwnPass(b, i, limit, last);
      OtherPasses(r, j + 1, limit + delay, delay, i);
    } else {
      OtherPass(b, j, limit, i);
      xs := CheckAsksOnce(r, j + 1, limit + delay, delay, i, last);
    }
  }

  // ---------------------------------------------------------------------------------------------
  // Runs
  // ---------------------------------------------------------------------------------------------

  function LastNumber(w: World): Option<int> {
    if w.sent == [] then None else Some(LastSent(w))
  }

  /** How far cursor i has come. */
  function Come(w: World, i: nat): Option<int>
    requires WellFormed(w.state.buffer) && i < |w.state.buffer.cursors|
  {
    Reach(w.state.buffer, LastNumber(w), i)
  }

  /** The gaps that cursor i reports in a step, and in a run. */
  function AskedIn(cfg: Config, w: World, e: Event, i: nat): seq<Gap>
    requires cfg.Valid() && WellFormed(w.state.buffer)
  {
    if e.Check? then Asked(w.state.buffer, 0, e.now + cfg.retxDelay, cfg.retxDelay, i) else []
  }

  function AskedOver(cfg: Config, w: World, events: seq<Event>, i: nat): seq<Gap>
    requires cfg.Valid() && WellFormed(w.state.buffer)
    decreases |events|
  {
    if events == [] then [] else
      AskedIn(cfg, w, events[0], i) + AskedOver(cfg, Step(cfg, w, events[0]), events[1..], i)
  }

  lemma RecvKeepsReach(cfg: Config, w: World, rtp: Rtp, wall: int, i: nat)
    requires cfg.Valid() && WellFormed(w.state.buffer) && i < |w.state.buffer.cursors|
    ensures var r := Step(cfg, w, Recv(rtp, wall));
            |r.state.buffer.cursors| == |w.state.buffer.cursors| && Come(r, i) == Come(w, i)
  {
    hide Stamp, Insert;
    if rtp.valid {
      var p := Stamped(cfg, w.state, rtp, wall);
      InsertKeepsCursors(w.state.buffer, p);
      var r := Step(cfg, w, Recv(rtp, wall));
      assert r.state.buffer == Insert(w.state.buffer, p) && r.sent == w.sent;
      assert SameTarget(w.state.buffer, r.state.buffer, i);
    }
  }

  lemma SendKeepsReach(cfg: Config, w: World, i: nat)
    requires cfg.Valid() && WellFormed(w.state.buffer) && i < |w.state.buffer.cursors| && InOrder(w)
    ensures var r := Step(cfg, w, Send);
            |r.state.buffer.cursors| == |w.state.buffer.cursors| && AtLeast(Come(r, i), Come(w, i))
  {
    hide Complete, Window;
    if w.Blocks() != [] {
      PopKeepsCursors(w.state.buffer);
    }
  }

  /** In a step a cursor asks for numbers behind where it was, and up to where it is then; it never goes back. */
  lemma StepAsksOnce(cfg: Config, w: World, e: Event, i: nat) returns (xs: seq<int>)
    requires cfg.Valid() && WellFormed(w.state.buffer) && i < |w.state.buffer.cursors| && InOrder(w)
    ensures |Step(cfg, w, e).state.buffer.cursors| == |w.state.buffer.cursors|
    ensures Spelled(AskedIn(cfg, w, e, i)) == Wire(xs) && Increasing(xs)
    ensures Within(xs, Come(w, i), Come(Step(cfg, w, e), i)) && AtLeast(Come(Step(cfg, w, e), i), Come(w, i))
  {
    hide Complete, Window, Ordered, ReorderBuffer.Check, Stamp, Stamped, Receive, Asked;
    xs := [];
    match e
    case Recv(rtp, wall) => RecvKeepsReach(cfg, w, rtp, wall, i);
    case Send => SendKeepsReach(cfg, w, i);
    case Check(now) =>
      xs := CheckAsksOnce(w.state.buffer, 0, now + cfg.retxDelay, cfg.retxDelay, i, LastNumber(w));
  }

  /**
    Over every run in which each arrival is in time, a cursor reports as missing, over all its passes, numbers that
    only ever increase: none of them twice, and none that it had come past before.
   */
  lemma {:induction false} RunAsksOnce(cfg: Config, w: World, events: seq<Event>, i: nat) returns (xs: seq<int>)
    requires cfg.Valid() && WellFormed(w.state.buffer) && i < |w.state.buffer.cursors|
    requires InOrder(w) && Smooth(cfg, w, events)
    ensures |Reorder.Run(cfg, w, events).state.buffer.cursors| == |w.state.buffer.cursors|
    ensures Spelled(AskedOver(cfg, w, events, i)) == Wire(xs) && Increasing(xs)
    ensures Within(xs, Come(w, i), Come(Reorder.Run(cfg, w, events), i))
    ensures AtLeast(Come(Reorder.Run(cfg, w, events), i), Come(w, i))
    decreases |events|
  {
    hide InOrder, Step, InTime, AskedIn, Spelled, Wire, Increasing, Within, Come;
    if events == [] {
      xs := [];
      NothingAsked(Come(w, i));
    } else {
      var t := Step(cfg, w, events[0]);
      var now := StepAsksOnce(cfg, w, events[0], i);
      StepInOrder(cfg, w, events[0]);
      var later := RunAsksOnce(cfg, t, events[1..], i);
      xs := now + later;
      SpelledJoin(AskedIn(cfg, w, events[0], i), AskedOver(cfg, t, events[1..], i));
      WireJoin(now, later);
      JoinWithin(now, later, Come(w, i), Come(t, i), Come(Reorder.Run(cfg, w, events), i));
    }
  }

  lemma NothingAsked(a: Option<int>)
    ensures Spelled([]) == Wire([]) && Increasing([]) && Within([], a, a)
  {
  }

  lemma JoinWithin(xs: seq<int>, ys: seq<int>, a: Option<int>, b: Option<int>, c: Option<int>)
    requires Increasing(xs) && Increasing(ys) && Within(xs, a, b) && Within(ys, b, c)
    requires AtLeast(b, a) && AtLeast(c, b)
    ensures Increasing(xs + ys) && Within(xs + ys, a, c)
  {
    if xs != [] {
      JoinIncreases(xs, ys, b.value);
    } else {
      assert xs + ys == ys;
    }
  }
}
