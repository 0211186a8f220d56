/**
  End-to-end repair: what reordertp.c asks for when it sees a gap, what aggregartp.c answers, and what
  the answer does to the gap.
 */
module Repair {
  import opened Base
  import opened Codec
  import opened Packets
  import opened ReorderBuffer
  import Reorder
  import RetxServer

  // ---------------------------------------------------------------------------------------------
  // From a reported gap to the request
  // ---------------------------------------------------------------------------------------------

  /** The gap between the neighbours at k and k + 1. */
  predicate GapAt(blocks: seq<Packet>, k: nat, g: Gap) {
    && k + 1 < |blocks|
    && blocks[k].Seqnum() != blocks[k + 1].Seqnum()
    && !Consecutive(blocks[k], blocks[k + 1])
    && g == GapBetween(blocks[k], blocks[k + 1])
  }

  /** Every gap of a list lies between two of its neighbours. */
  lemma {:induction false} GapHasNeighbours(blocks: seq<Packet>, g: Gap) returns (k: nat)
    requires NoAdjacentEqual(blocks) && g in GapsOf(blocks)
    ensures GapAt(blocks, k, g)
    decreases |blocks|
  {
    NoAdjacentEqualTail(blocks);
    if g in GapsOf(blocks[1..]) {
      k := GapHasNeighbours(blocks[1..], g);
      k := k + 1;
    } else {
      k := 0;
      assert blocks[1].Seqnum() != blocks[0].Seqnum();
    }
  }

  /** Every request that leaves is about one of the reported gaps, and not about a large one. */
  lemma {:induction false} RequestHasGap(gaps: seq<Gap>, maxRetxBurst: nat, request: seq<Byte>) returns (g: Gap)
    requires request in Reorder.Requests(gaps, maxRetxBurst)
    ensures g in gaps && g.num <= maxRetxBurst && request == RetxRequest(g.first, g.num)
    decreases |gaps|
  {
    hide RetxRequest;
    g := gaps[|gaps| - 1];
    if request in Reorder.Requests(gaps[..|gaps| - 1], maxRetxBurst) {
      g := RequestHasGap(gaps[..|gaps| - 1], maxRetxBurst, request);
    }
  }

  /** A gap of the walked stretch is a gap of the whole buffer. */
  lemma WalkedGap(b: Buffer, i: nat, limit: int, maxRetxBurst: nat, request: seq<Byte>) returns (k: nat, g: Gap)
    requires WellFormed(b) && i < |b.cursors|
    requires request in Reorder.Requests(Pass(b, i, limit).gaps, maxRetxBurst)
    ensures GapAt(Pass(b, i, limit).buffer.blocks, k, g)
    ensures b.cursors[i] < k + 1 <= Pass(b, i, limit).buffer.cursors[i]
    ensures g.num <= maxRetxBurst && request == RetxRequest(g.first, g.num)
  {
    hide RetxRequest, Pass, Reorder.Requests, GapBetween, Consecutive, GapsOf, NoAdjacentEqual;
    PassWalks(b, i, limit);
    var r := Pass(b, i, limit);
    var w := Walked(b, r.buffer, i);
    g := RequestHasGap(r.gaps, maxRetxBurst, request);
    k := GapHasNeighbours(w, g);
    var start: nat := if b.cursors[i] == EMPTY_CURSOR then 0 else b.cursors[i];
    assert w[k] == r.buffer.blocks[start + k] && w[k + 1] == r.buffer.blocks[start + k + 1];
    k := start + k;
  }

  // ---------------------------------------------------------------------------------------------
  // From the request to the answer
  // ---------------------------------------------------------------------------------------------

  /** The queue holds every packet strictly between two extended numbers. */
  predicate HoldsBetween(queue: seq<RetxServer.Queued>, a: int, b: int) {
    queue != [] && queue[0].rtp.ext <= a + 1 && b <= queue[0].rtp.ext + |queue|
  }

  /** The answer consists of the packets strictly between two extended numbers, in order. */
  predicate Between(packets: seq<Rtp>, a: int, b: int) {
    |packets| == b - a - 1 && RetxServer.CountFrom(packets, a + 1)
  }

  /**
    A request for a gap is understood, and it is answered with exactly the missing packets if and only if they are
    all queued.
   */
  lemma GapAnswered(p: Packet, q: Packet, queue: seq<RetxServer.Queued>)
    requires 1 < q.Ext() - p.Ext() < HALF
    requires RetxServer.Consecutive(queue)
    ensures var g := GapBetween(p, q);
            var reply := RetxServer.Handle(queue, RetxRequest(g.first, g.num));
            reply.Resent? && (Between(reply.packets, p.Ext(), q.Ext()) <==> HoldsBetween(queue, p.Ext(), q.Ext()))
  {
    hide RetxServer.Answer, RetxServer.Consecutive, RetxServer.CountFrom, GapBetween;
    var g := GapBetween(p, q);
    GapIsMissing(p, q);
    RetxRoundTrip(RetxRequest(g.first, g.num), g.first, g.num);
    RetxServer.AnswerExact(queue, p.Ext() + 1, q.Ext() - p.Ext() - 1);
  }

  // ---------------------------------------------------------------------------------------------
  // From the answer to the closed gap
  // ---------------------------------------------------------------------------------------------

  function InsertAll(b: Buffer, arrivals: seq<Packet>): Buffer
    decreases |arrivals|
  {
    if arrivals == [] then b else InsertAll(Insert(b, arrivals[0]), arrivals[1..])
  }

  lemma WindowSplit(blocks: seq<Packet>, arrivals: seq<Packet>)
    requires Window(blocks + arrivals) && arrivals != []
    ensures Window(blocks) && Near(blocks, arrivals[0].Ext())
  {
    var all := blocks + arrivals;
    assert all[|blocks|] == arrivals[0];
    assert forall i :: 0 <= i < |blocks| ==> all[i] == blocks[i];
  }

  /** A window is about which blocks there are, not about their order. */
  lemma WindowByMultiset(a: seq<Packet>, b: seq<Packet>)
    requires Window(a) && multiset(b) == multiset(a)
    ensures Window(b)
  {
    forall i, j | 0 <= i < |b| && 0 <= j < |b| ensures -HALF < b[i].Ext() - b[j].Ext() < HALF {
      assert b[i] in multiset(b) && b[j] in multiset(b);
      assert b[i] in a && b[j] in a;
    }
  }

  lemma InsertWindow(b: Buffer, arrivals: seq<Packet>)
    requires Window(b.blocks + arrivals) && arrivals != []
    ensures Window(Insert(b, arrivals[0]).blocks + arrivals[1..])
    ensures multiset(Insert(b, arrivals[0]).blocks + arrivals[1..]) == multiset(b.blocks + arrivals)
  {
    var r := Insert(b, arrivals[0]).blocks;
    SpliceMultiset(b.blocks, InsertAt(b.blocks, arrivals[0].Seqnum()), arrivals[0]);
    assert arrivals == [arrivals[0]] + arrivals[1..];
    assert multiset(r + arrivals[1..]) == multiset(b.blocks) + multiset{arrivals[0]} + multiset(arrivals[1..]);
    WindowByMultiset(b.blocks + arrivals, r + arrivals[1..]);
  }

  /** Whatever arrives, in whatever order, ends up in one sorted buffer with what was there. */
  lemma {:induction false} InsertAllSorts(b: Buffer, arrivals: seq<Packet>)
    requires Ordered(b.blocks) && Window(b.blocks + arrivals)
    ensures Ordered(InsertAll(b, arrivals).blocks)
    ensures multiset(InsertAll(b, arrivals).blocks) == multiset(b.blocks + arrivals)
    decreases |arrivals|
  {
    hide Window, Near, Ordered, Insert;
    if arrivals == [] {
      assert b.blocks + arrivals == b.blocks;
    } else {
      WindowSplit(b.blocks, arrivals);
      InsertKeepsOrder(b, arrivals[0]);
      InsertWindow(b, arrivals);
      InsertAllSorts(Insert(b, arrivals[0]), arrivals[1..]);
    }
  }

  /** Between two extended numbers no two neighbours leave anything out. */
  predicate GapFree(blocks: seq<Packet>, a: int, b: int) {
    forall k {:trigger blocks[k]} :: 0 < k < |blocks| && a <= blocks[k - 1].Ext() && blocks[k].Ext() <= b ==>
      blocks[k].Seqnum() == blocks[k - 1].Seqnum() || Consecutive(blocks[k - 1], blocks[k])
  }

  /** A sorted list with every number of a stretch has no gap in it. */
  lemma CoveredIsGapFree(blocks: seq<Packet>, a: int, b: int)
    requires Ordered(blocks)
    requires forall x :: a <= x <= b ==> Reorder.HasExt(blocks, x)
    ensures GapFree(blocks, a, b)
  {
    forall k {:trigger blocks[k]} | 0 < k < |blocks| && a <= blocks[k - 1].Ext() && blocks[k].Ext() <= b
      ensures blocks[k].Seqnum() == blocks[k - 1].Seqnum() || Consecutive(blocks[k - 1], blocks[k])
    {
      var x := blocks[k - 1].Ext();
      if x < b {
        NothingSkipped(blocks, k, x + 1);
      }
      NextSeqnum(x);
    }
  }

  /** In a sorted list that has the number behind a block's, the next block has at most that. */
  lemma NothingSkipped(blocks: seq<Packet>, k: nat, x: int)
    requires Ordered(blocks) && 0 < k < |blocks|
    requires Reorder.HasExt(blocks, x) && blocks[k - 1].Ext() < x
    ensures blocks[k].Ext() <= x
  {
    var j :| 0 <= j < |blocks| && blocks[j].Ext() == x;
    assert k <= j;
  }

  lemma NextSeqnum(x: int)
    ensures (x + 1) % POW2_16 == (x % POW2_16 + 1) % POW2_16
  {
  }

  /** The arrivals bring a packet for each of the extended numbers strictly between two. */
  predicate Brings(arrivals: seq<Packet>, a: int, b: int) {
    forall x :: a < x < b ==> Reorder.HasExt(arrivals, x)
  }

  /** A packet has arrived for each packet of an answer. */
  predicate Arrived(packets: seq<Rtp>, arrivals: seq<Packet>) {
    forall i :: 0 <= i < |packets| ==> Reorder.HasExt(arrivals, packets[i].ext)
  }

  /** An answer that arrives in full brings every missing number. */
  lemma AnswerBrings(packets: seq<Rtp>, arrivals: seq<Packet>, a: int, b: int)
    requires Between(packets, a, b) && Arrived(packets, arrivals)
    ensures Brings(arrivals, a, b)
  {
    forall x | a < x < b ensures Reorder.HasExt(arrivals, x) {
      assert packets[x - a - 1].ext == x;
    }
  }

  lemma HasExtSame(from: seq<Packet>, to: seq<Packet>, x: int)
    requires Reorder.HasExt(from, x) && multiset(from) <= multiset(to)
    ensures Reorder.HasExt(to, x)
  {
    var k :| 0 <= k < |from| && from[k].Ext() == x;
    assert from[k] in multiset(to);
  }

  lemma GapCloses(b: Buffer, k: nat, arrivals: seq<Packet>)
    requires Ordered(b.blocks) && Window(b.blocks + arrivals) && k + 1 < |b.blocks|
    requires Brings(arrivals, b.blocks[k].Ext(), b.blocks[k + 1].Ext())
    ensures GapFree(InsertAll(b, arrivals).blocks, b.blocks[k].Ext(), b.blocks[k + 1].Ext())
  {
    hide GapFree, Window, InsertAll;
    var r := InsertAll(b, arrivals).blocks;
    var lo, hi := b.blocks[k].Ext(), b.blocks[k + 1].Ext();
    InsertAllSorts(b, arrivals);
    forall x | lo <= x <= hi ensures Reorder.HasExt(r, x) {
      if x == lo || x == hi {
        assert b.blocks[if x == lo then k else k + 1].Ext() == x;
        HasExtSame(b.blocks, r, x);
      } else {
        HasExtSame(arrivals, r, x);
      }
    }
    CoveredIsGapFree(r, lo, hi);
  }

  // ---------------------------------------------------------------------------------------------
  // The whole exchange
  // ---------------------------------------------------------------------------------------------

  /**
    Take any request that a pass over an ordered buffer in a half-space window sends. It is the request for the
    gap between two neighbours. A server with a consecutive queue understands it, and its answer is
    exactly the missing packets if and only if its queue still holds them all. Once the packets of such an
    answer have arrived, in any order and among any others of the window, that stretch of the buffer has no gap; and
    packets with the missing numbers close it wherever they come from.
   */
  lemma EndToEnd(b: Buffer, i: nat, limit: int, maxRetxBurst: nat, request: seq<Byte>, queue: seq<RetxServer.Queued>)
      returns (k: nat)
    requires WellFormed(b) && i < |b.cursors|
    requires Ordered(b.blocks) && Window(b.blocks)
    requires request in Reorder.Requests(Pass(b, i, limit).gaps, maxRetxBurst)
    requires RetxServer.Consecutive(queue)
    ensures k + 1 < |Pass(b, i, limit).buffer.blocks|
    ensures var r := Pass(b, i, limit).buffer;
            var g := GapBetween(r.blocks[k], r.blocks[k + 1]);
            var lo, hi := r.blocks[k].Ext(), r.blocks[k + 1].Ext();
            var reply := RetxServer.Handle(queue, request);
            && request == RetxRequest(g.first, g.num) && g.num <= maxRetxBurst
            && lo + 1 < hi
            && reply.Resent?
            && (Between(reply.packets, lo, hi) <==> HoldsBetween(queue, lo, hi))
            && (HoldsBetween(queue, lo, hi) ==>
                  forall arrivals :: Window(r.blocks + arrivals) && Arrived(reply.packets, arrivals)
                                     ==> GapFree(InsertAll(r, arrivals).blocks, lo, hi))
            && (forall arrivals :: Window(r.blocks + arrivals) && Brings(arrivals, lo, hi)
                                   ==> GapFree(InsertAll(r, arrivals).blocks, lo, hi))
  {
    hide Pass, RetxRequest, Reorder.Requests, GapBetween, Between, HoldsBetween, RetxServer.Handle,
         RetxServer.Consecutive, GapFree, InsertAll, Brings, Arrived, Window;
    var g;
    k, g := WalkedGap(b, i, limit, maxRetxBurst, request);
    PassKeeps(b, i, limit);
    var r := Pass(b, i, limit).buffer;
    GapIsWide(r.blocks, k, g);
    GapAnswered(r.blocks[k], r.blocks[k + 1], queue);
    GapClosesAnyhow(r, k, RetxServer.Handle(queue, request));
  }

  /** A gap closes for all arrivals that bring it, and for all that bring an answer with the packets between. */
  lemma GapClosesAnyhow(r: Buffer, k: nat, reply: RetxServer.Reply)
    requires Ordered(r.blocks) && k + 1 < |r.blocks|
    ensures var lo, hi := r.blocks[k].Ext(), r.blocks[k + 1].Ext();
            && (forall arrivals :: Window(r.blocks + arrivals) && Brings(arrivals, lo, hi)
                                   ==> GapFree(InsertAll(r, arrivals).blocks, lo, hi))
            && (reply.Resent? && Between(reply.packets, lo, hi) ==>
                  forall arrivals :: Window(r.blocks + arrivals) && Arrived(reply.packets, arrivals)
                                     ==> GapFree(InsertAll(r, arrivals).blocks, lo, hi))
  {
    hide GapFree, InsertAll, Brings, Arrived, Window, Between, Ordered;
    var lo, hi := r.blocks[k].Ext(), r.blocks[k + 1].Ext();
    forall arrivals | Window(r.blocks + arrivals) && Brings(arrivals, lo, hi)
      ensures GapFree(InsertAll(r, arrivals).blocks, lo, hi)
    {
      GapCloses(r, k, arrivals);
    }
    if reply.Resent? && Between(reply.packets, lo, hi) {
      forall arrivals | Window(r.blocks + arrivals) && Arrived(reply.packets, arrivals)
        ensures GapFree(InsertAll(r, arrivals).blocks, lo, hi)
      {
        AnswerBrings(reply.packets, arrivals, lo, hi);
      }
    }
  }

  lemma GapIsWide(blocks: seq<Packet>, k: nat, g: Gap)
    requires Ordered(blocks) && Window(blocks) && GapAt(blocks, k, g)
    ensures 1 < blocks[k + 1].Ext() - blocks[k].Ext() < HALF
  {
    GapIsMissing(blocks[k], blocks[k + 1]);
  }
}
