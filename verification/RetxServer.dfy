/**
  The retransmission side of aggregartp.c: a queue of the packets sent lately, purged by date, and the
  answers to retransmission requests.
 */
module RetxServer {
  import opened Base
  import opened Codec
  import opened Packets

  /** A queued packet with the date at which it was sent. */
  datatype Queued = Queued(rtp: Rtp, date: int)

  // ---------------------------------------------------------------------------------------------
  // The queue as a value
  // ---------------------------------------------------------------------------------------------

  /**
    The date below which blocks are purged: an unsigned difference, which wraps when the clock is younger than the
    buffer.
   */
  function Threshold(now: U64, buffer: U64): U64 {
    (now - buffer) % POW2_64
  }

  function Purge(q: seq<Queued>, threshold: int): seq<Queued> {
    if q != [] && q[0].date < threshold then Purge(q[1..], threshold) else q
  }

  /** Queues a packet, marked as one that must not drive the receiver's clock, and purges what is too old. */
  function Push(q: seq<Queued>, rtp: Rtp, now: U64, buffer: U64): seq<Queued> {
    Purge(q + [Queued(rtp.(marker := true), now)], Threshold(now, buffer))
  }

  predicate ByDate(q: seq<Queued>) {
    forall i, j :: 0 <= i < j < |q| ==> q[i].date <= q[j].date
  }

  /** The blocks of a list that are dated at or after a limit, in order. */
  function Recent(q: seq<Queued>, limit: int): seq<Queued> {
    if q == [] then []
    else (if q[0].date >= limit then [q[0]] else []) + Recent(q[1..], limit)
  }

  lemma {:induction false} RecentJoin(a: seq<Queued>, b: seq<Queued>, limit: int)
    ensures Recent(a + b, limit) == Recent(a, limit) + Recent(b, limit)
    decreases |a|
  {
    if a == [] {
      assert a + b == b;
    } else {
      assert (a + b)[1..] == a[1..] + b;
      RecentJoin(a[1..], b, limit);
      var head := if a[0].date >= limit then [a[0]] else [];
      Associates(head, Recent(a[1..], limit), Recent(b, limit));
    }
  }

  lemma {:induction false} RecentTwice(q: seq<Queued>, limit: int, later: int)
    requires limit <= later
    ensures Recent(Recent(q, limit), later) == Recent(q, later)
    decreases |q|
  {
    if q != [] {
      RecentTwice(q[1..], limit, later);
      var r := Recent(q[1..], limit);
      if q[0].date >= limit {
        assert Recent(q, limit) == [q[0]] + r && ([q[0]] + r)[1..] == r;
      } else {
        assert Recent(q, limit) == r;
      }
    }
  }

  lemma {:induction false} AllRecent(q: seq<Queued>, limit: int)
    requires forall i :: 0 <= i < |q| ==> q[i].date >= limit
    ensures Recent(q, limit) == q
    decreases |q|
  {
    if q != [] {
      AllRecent(q[1..], limit);
    }
  }

  /** On a list in date order, popping from the head is filtering. */
  lemma {:induction false} PurgeIsRecent(q: seq<Queued>, threshold: int)
    requires ByDate(q)
    ensures Purge(q, threshold) == Recent(q, threshold)
    decreases |q|
  {
    if q != [] {
      if q[0].date < threshold {
        PurgeIsRecent(q[1..], threshold);
      } else {
        AllRecent(q, threshold);
      }
    }
  }

  lemma {:induction false} RecentByDate(q: seq<Queued>, limit: int)
    requires ByDate(q)
    ensures ByDate(Recent(q, limit))
    ensures forall x :: x in Recent(q, limit) ==> x in q
    decreases |q|
  {
    if q != [] {
      RecentByDate(q[1..], limit);
      var r := Recent(q[1..], limit);
      forall i | 0 <= i < |r| ensures q[0].date <= r[i].date {
        assert r[i] in r;
      }
    }
  }

  /** A packet that is sent at a date. */
  datatype Sent = Sent(rtp: Rtp, date: U64)

  function Entries(sent: seq<Sent>): (r: seq<Queued>)
    ensures |r| == |sent|
  {
    seq(|sent|, i requires 0 <= i < |sent| => Queued(sent[i].rtp.(marker := true), sent[i].date))
  }

  /** The queue after a run of packets. */
  function PushAll(sent: seq<Sent>, buffer: U64): seq<Queued>
    decreases |sent|
  {
    if sent == [] then [] else
      var last := sent[|sent| - 1];
      Push(PushAll(sent[..|sent| - 1], buffer), last.rtp, last.date, buffer)
  }

  predicate Monotonic(sent: seq<Sent>) {
    forall i, j :: 0 <= i < j < |sent| ==> sent[i].date <= sent[j].date
  }

  /**
    With a clock that never goes back and is older than the buffer is long, the queue always holds
    exactly the packets sent during the last `buffer` ticks, in order, the newest one included.
   */
  lemma {:induction false} QueueIsWindow(sent: seq<Sent>, buffer: U64)
    requires Monotonic(sent) && sent != []
    requires forall i :: 0 <= i < |sent| ==> buffer <= sent[i].date
    ensures var last := sent[|sent| - 1];
            && PushAll(sent, buffer) == Recent(Entries(sent), last.date - buffer)
            && ByDate(PushAll(sent, buffer))
            && PushAll(sent, buffer) != []
            && PushAll(sent, buffer)[|PushAll(sent, buffer)| - 1] == Queued(last.rtp.(marker := true), last.date)
    decreases |sent|
  {
    hide ByDate, Recent, Push;
    var n := |sent| - 1;
    var last := sent[n];
    var older := sent[..n];
    var before := if older == [] then last.date - buffer else older[n - 1].date - buffer;
    assert Entries(sent) == Entries(older) + [Queued(last.rtp.(marker := true), last.date)];
    EntriesByDate(sent);
    if older == [] {
      NothingRecent(before);
      assert Entries(older) == [];
    } else {
      QueueIsWindow(older, buffer);
    }
    PushStep(Entries(older), last, buffer, before);
  }

  lemma NothingRecent(limit: int)
    ensures Recent([], limit) == []
  {
  }

  lemma EntriesByDate(sent: seq<Sent>)
    requires Monotonic(sent)
    ensures ByDate(Entries(sent))
  {
  }

  lemma ByDateRecent(q: seq<Queued>, entry: Queued, limit: int)
    requires ByDate(q + [entry])
    ensures ByDate(Recent(q, limit) + [entry])
  {
    var all := q + [entry];
    assert all[|q|] == entry;
    assert ByDate(q) by {
      forall i, j | 0 <= i < j < |q| ensures q[i].date <= q[j].date {
        assert all[i] == q[i] && all[j] == q[j];
      }
    }
    RecentByDate(q, limit);
    var r := Recent(q, limit) + [entry];
    forall i, j | 0 <= i < j < |r| ensures r[i].date <= r[j].date {
      assert r[i] in Recent(q, limit);
      var k :| 0 <= k < |q| && q[k] == r[i];
      assert all[k] == r[i];
    }
  }

  lemma PlainThreshold(now: U64, buffer: U64)
    requires buffer <= now
    ensures Threshold(now, buffer) == now - buffer
  {
  }

  lemma OneRecent(entry: Queued, limit: int)
    requires entry.date >= limit
    ensures Recent([entry], limit) == [entry]
  {
    assert [entry][1..] == [];
  }

  /** One push onto a queue that is the window of what was sent before leaves the window of what was sent. */
  lemma PushStep(sent: seq<Queued>, last: Sent, buffer: U64, before: int)
    requires ByDate(sent + [Queued(last.rtp.(marker := true), last.date)])
    requires buffer <= last.date && before <= last.date - buffer
    ensures var entry := Queued(last.rtp.(marker := true), last.date);
            var q := Push(Recent(sent, before), last.rtp, last.date, buffer);
            && q == Recent(sent + [entry], last.date - buffer)
            && ByDate(q) && q != [] && q[|q| - 1] == entry
  {
    hide ByDate, Recent, Purge, Threshold;
    var entry := Queued(last.rtp.(marker := true), last.date);
    var limit := last.date - buffer;
    var q := Recent(sent, before);
    PlainThreshold(last.date, buffer);
    ByDateRecent(sent, entry, before);
    PurgeIsRecent(q + [entry], limit);
    RecentJoin(q, [entry], limit);
    RecentJoin(sent, [entry], limit);
    RecentTwice(sent, before, limit);
    OneRecent(entry, limit);
    RecentByDate(q + [entry], limit);
  }

  /** While the clock is younger than the buffer is long, the difference wraps and the whole queue is purged. */
  lemma {:induction false} YoungClockPurgesAll(q: seq<Queued>, rtp: Rtp, now: U64, buffer: U64)
    requires ByDate(q) && forall i :: 0 <= i < |q| ==> q[i].date <= now
    ensures Push(q, rtp, now, buffer) == [] <==> now < buffer
    decreases |q|
  {
    var entry := Queued(rtp.(marker := true), now);
    var all := q + [entry];
    assert all[|q|] == entry;
    PurgeIsRecent(all, Threshold(now, buffer));
    RecentJoin(q, [entry], Threshold(now, buffer));
    assert Recent([entry], Threshold(now, buffer)) == if now >= Threshold(now, buffer) then [entry] else [];
    if now < buffer {
      assert Threshold(now, buffer) == now - buffer + POW2_64;
      NoneRecent(q, Threshold(now, buffer));
    } else {
      assert Threshold(now, buffer) == now - buffer;
    }
  }

  /** At date 0, with a buffer of one tick, the packet just queued is gone. */
  lemma FirstPacketPurged(rtp: Rtp)
    ensures Push([], rtp, 0, 1) == []
  {
    YoungClockPurgesAll([], rtp, 0, 1);
  }

  lemma {:induction false} NoneRecent(q: seq<Queued>, limit: int)
    requires forall i :: 0 <= i < |q| ==> q[i].date < limit
    ensures Recent(q, limit) == []
    decreases |q|
  {
    if q != [] {
      NoneRecent(q[1..], limit);
    }
  }

  // ---------------------------------------------------------------------------------------------
  // Answers
  // ---------------------------------------------------------------------------------------------

  /** The position of the first block with a sequence number, or the length of the queue. */
  function Find(q: seq<Queued>, seqnum: U16): (k: nat)
    ensures k <= |q|
    ensures forall i :: 0 <= i < k ==> q[i].rtp.Seqnum() != seqnum
    ensures k < |q| ==> q[k].rtp.Seqnum() == seqnum
  {
    if q == [] || q[0].rtp.Seqnum() == seqnum then 0 else 1 + Find(q[1..], seqnum)
  }

  function Packed(q: seq<Queued>): (r: seq<Rtp>)
    ensures |r| == |q|
  {
    seq(|q|, i requires 0 <= i < |q| => q[i].rtp)
  }

  lemma PackedSnoc(q: seq<Queued>, i: nat, k: nat)
    requires i <= k < |q|
    ensures Packed(q[i..k + 1]) == Packed(q[i..k]) + [q[k].rtp]
  {
  }

  /** The answer to a request: the block it names and those behind it, as many as asked for or as there are. */
  function Answer(q: seq<Queued>, seqnum: U16, num: nat): seq<Rtp> {
    var k := Find(q, seqnum);
    Packed(q[k..if k + num <= |q| then k + num else |q|])
  }

  /** An ill-formed request ends the program. */
  datatype Reply = Dies | Resent(packets: seq<Rtp>)

  /** What a datagram is answered with; only its first bytes are read, and an empty one is passed over. */
  function Handle(q: seq<Queued>, datagram: seq<Byte>): Reply {
    if datagram == [] then Resent([])
    else if |datagram| < RETX_HEADER_SIZE || !RetxCheck(datagram) then Dies
    else Resent(Answer(q, RetxGetSeqnum(datagram), RetxGetNum(datagram)))
  }

  /** Which datagrams end the program, and which are passed over; only the first eight bytes of one matter. */
  lemma HandleOnHeader(q: seq<Queued>, datagram: seq<Byte>)
    ensures Handle(q, datagram).Dies?
       <==> 0 < |datagram| < RETX_HEADER_SIZE
            || (|datagram| >= RETX_HEADER_SIZE && datagram[..4] != [0x52, 0x45, 0x54, 0x58])
    ensures datagram == [] ==> Handle(q, datagram) == Resent([])
    ensures |datagram| > RETX_HEADER_SIZE ==> Handle(q, datagram) == Handle(q, datagram[..RETX_HEADER_SIZE])
  {
    if |datagram| >= RETX_HEADER_SIZE {
      var four := datagram[..4];
      assert four == [datagram[0], datagram[1], datagram[2], datagram[3]];
    }
  }

  /** The queue holds consecutive extended numbers, fewer than would meet on the 16-bit circle. */
  predicate Consecutive(q: seq<Queued>) {
    && |q| <= POW2_16
    && (forall i {:trigger q[i]} :: 0 <= i < |q| ==> q[i].rtp.ext == q[0].rtp.ext + i)
  }

  /** The packets carry the extended numbers from x on. */
  predicate CountFrom(packets: seq<Rtp>, x: int) {
    forall i {:trigger packets[i]} :: 0 <= i < |packets| ==> packets[i].ext == x + i
  }

  /** In a consecutive queue a sequence number is found at the one block that has its extended number. */
  lemma FindExt(q: seq<Queued>, x: int)
    requires Consecutive(q) && q != [] && 0 <= x - q[0].rtp.ext < |q|
    ensures Find(q, x % POW2_16) == x - q[0].rtp.ext
  {
    var k := Find(q, x % POW2_16);
    var j := x - q[0].rtp.ext;
    assert q[j].rtp.ext == x;
  }

  /** A request is answered with exactly the packets it is about if and only if the queue still holds them all. */
  lemma AnswerExact(q: seq<Queued>, x: int, num: nat)
    requires Consecutive(q) && num > 0
    ensures |Answer(q, x % POW2_16, num)| == num && CountFrom(Answer(q, x % POW2_16, num), x)
       <==> q != [] && q[0].rtp.ext <= x && x + num <= q[0].rtp.ext + |q|
  {
    var k := Find(q, x % POW2_16);
    var packets := Answer(q, x % POW2_16, num);
    if q != [] && q[0].rtp.ext <= x && x + num <= q[0].rtp.ext + |q| {
      FindExt(q, x);
      forall i {:trigger packets[i]} | 0 <= i < |packets| ensures packets[i].ext == x + i {
        assert packets[i] == q[k + i].rtp;
      }
    }
    if |packets| == num && CountFrom(packets, x) {
      assert packets[0] == q[k].rtp && packets[0].ext == x + 0;
      assert q[k].rtp.ext == q[0].rtp.ext + k;
    }
  }

  /** Whatever is asked for, what is there of it is sent: from packet x on, as many as asked for or as the queue has. */
  lemma AnswerAvailable(q: seq<Queued>, x: int, num: nat)
    requires Consecutive(q)
    ensures var packets := Answer(q, x % POW2_16, num);
            if q != [] && 0 <= x - q[0].rtp.ext < |q| then
              && CountFrom(packets, x)
              && |packets| == (if num <= |q| - (x - q[0].rtp.ext) then num else |q| - (x - q[0].rtp.ext))
            else
              |packets| <= num
    ensures (forall i :: 0 <= i < |q| ==> q[i].rtp.Seqnum() != x % POW2_16) ==> Answer(q, x % POW2_16, num) == []
  {
    var k := Find(q, x % POW2_16);
    var packets := Answer(q, x % POW2_16, num);
    if q != [] && 0 <= x - q[0].rtp.ext < |q| {
      FindExt(q, x);
      forall i {:trigger packets[i]} | 0 <= i < |packets| ensures packets[i].ext == x + i {
        assert packets[i] == q[k + i].rtp;
      }
    }
  }

  // ---------------------------------------------------------------------------------------------
  // The queue as it runs
  // ---------------------------------------------------------------------------------------------

  class Node {
    var data: Rtp
    var date: U64
    var next: Node?

    constructor (data: Rtp)
      ensures this.data == data
    {
      this.data := data;
    }
  }

  ghost function NodeAt(nodes: seq<Node>, k: int): Node? {
    if 0 <= k < |nodes| then nodes[k] else null
  }

  /** The singly linked list from p_retx_first to p_retx_last. */
  class Queue {
    const buffer: U64
    var first: Node?
    var last: Node?

    ghost var nodes: seq<Node>
    ghost var contents: seq<Queued>

    /** The pointers from the head on spell the nodes, and each node holds its entry. */
    ghost predicate Listed()
      reads this, nodes
    {
      && |nodes| == |contents|
      && (forall j, k :: 0 <= j < k < |nodes| ==> nodes[j] != nodes[k])
      && first == NodeAt(nodes, 0)
      && (forall k {:trigger nodes[k].next} :: 0 <= k < |nodes| ==> nodes[k].next == NodeAt(nodes, k + 1))
      && (forall k {:trigger nodes[k].data} {:trigger nodes[k].date} :: 0 <= k < |nodes| ==>
            Queued(nodes[k].data, nodes[k].date) == contents[k])
    }

    ghost predicate Valid()
      reads this, nodes
    {
      Listed() && last == NodeAt(nodes, |nodes| - 1)
    }

    constructor (buffer: U64)
      ensures Valid() && contents == [] && this.buffer == buffer
    {
      this.buffer := buffer;
      first, last := null, null;
      nodes, contents := [], [];
    }

    /** Puts a block at the tail. */
    method Append(block: Node)
      requires Valid() && block !in nodes && block.next == null
      modifies this, nodes`next
      ensures Valid()
      ensures nodes == old(nodes) + [block]
      ensures contents == old(contents) + [Queued(block.data, block.date)]
    {
      if last != null {
        last.next := block;
        last := block;
      } else {
        last, first := block, block;
      }
      contents := contents + [Queued(block.data, block.date)];
      nodes := nodes + [block];
    }

    /** Queues a block that was just sent, and purges the old ones. */
    method RetxQueue(block: Node, now: U64)
      requires Valid() && block !in nodes
      modifies this, nodes`next, block
      ensures Valid()
      ensures contents == Push(old(contents), old(block.data), now, buffer)
    {
      block.date := now;
      block.next := null;
      block.data := block.data.(marker := true);
      Append(block);
      ghost var all := contents;
      ghost var limit := Threshold(now, buffer);
      while first != null && first.date < (now - buffer) % POW2_64
        invariant Listed() && (first != null ==> last == NodeAt(nodes, |nodes| - 1))
        invariant Purge(all, limit) == Purge(contents, limit)
        decreases |contents|
      {
        first := first.next;
        contents := contents[1..];
        nodes := nodes[1..];
      }
      if first == null {
        last := null;
      }
    }

    /** Answers a request for retransmission, for which it reads no more than the size of one. */
    method RetxHandle(datagram: seq<Byte>) returns (reply: Reply)
      requires Valid()
      ensures reply == Handle(contents, datagram)
    {
      var request := if |datagram| <= RETX_HEADER_SIZE then datagram else datagram[..RETX_HEADER_SIZE];
      if |request| <= 0 {
        return Resent([]);
      }
      if |request| != RETX_HEADER_SIZE || !RetxCheck(request) {
        return Dies;
      }
      var seqnum := RetxGetSeqnum(request);
      var num: int := RetxGetNum(request);
      var block := first;
      ghost var k := 0;
      while block != null
        invariant 0 <= k <= |nodes| && block == NodeAt(nodes, k)
        invariant forall i :: 0 <= i < k ==> contents[i].rtp.Seqnum() != seqnum
        decreases |nodes| - k
      {
        if block.data.Seqnum() == seqnum {
          break;
        }
        block := block.next;
        k := k + 1;
      }
      if block == null {
        return Resent([]);
      }
      ghost var start := k;
      var sent := [];
      while num > 0 && block != null
        invariant start <= k <= |nodes| && block == NodeAt(nodes, k)
        invariant 0 <= num && num + (k - start) == RetxGetNum(request)
        invariant sent == Packed(contents[start..k])
        decreases num
      {
        assert contents[k] == Queued(nodes[k].data, nodes[k].date);
        PackedSnoc(contents, start, k);
        sent := sent + [block.data];
        block := block.next;
        num := num - 1;
        k := k + 1;
      }
      return Resent(sent);
    }
  }
}
