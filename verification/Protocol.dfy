/**
  aggregartp.c and reordertp.c as two parties over a network that loses, reorders and duplicates what
  they send each other, step by step.
 */
module Protocol {
  import opened Base
  import opened Codec
  import opened Packets
  import Reorder
  import ReorderBuffer
  import RetxServer

  /**
    The server's packets so far, in the order of their extended numbers, its retransmission queue, and
    whether it has died of an ill-formed request; the packets and the requests under way; the client.
   */
  datatype System = System(
    history: seq<Rtp>,
    queue: seq<RetxServer.Queued>,
    dead: bool,
    data: multiset<Rtp>,
    requests: multiset<seq<Byte>>,
    client: Reorder.World)

  datatype Action =
    | Emit(content: Rtp, now: U64)          // the server reads a packet, numbers it, sends it and queues it
    | Serve(request: seq<Byte>)             // a request reaches the server
    | Deliver(rtp: Rtp, wall: int)          // a packet reaches the client
    | Due                                   // the client sends the head of its buffer
    | Look(date: int)                       // the client checks for missing packets
    | LoseData(rtp: Rtp)
    | DoubleData(rtp: Rtp)
    | LoseRequest(request: seq<Byte>)
    | DoubleRequest(request: seq<Byte>)

  datatype Settings = Settings(client: Reorder.Config, retxBuffer: U64)

  /** A step; an action that is not possible changes nothing. */
  function Step(cfg: Settings, s: System, a: Action): (r: System)
    requires cfg.client.Valid() && ReorderBuffer.WellFormed(s.client.state.buffer)
    ensures ReorderBuffer.WellFormed(r.client.state.buffer)
  {
    match a
    case Emit(content, now) =>
      if s.dead then s else
        var rtp := content.(ext := |s.history|);
        s.(history := s.history + [rtp],
           queue := RetxServer.Push(s.queue, rtp, now, cfg.retxBuffer),
           data := s.data + multiset{rtp})
    case Serve(request) =>
      if s.dead || request !in s.requests then s else
        var t := s.(requests := s.requests - multiset{request});
        (match RetxServer.Handle(s.queue, request)
         case Dies => t.(dead := true)
         case Resent(packets) => t.(data := s.data + multiset(packets)))
    case Deliver(rtp, wall) =>
      if rtp !in s.data then s else
        s.(data := s.data - multiset{rtp}, client := Reorder.Step(cfg.client, s.client, Reorder.Recv(rtp, wall)))
    case Due =>
      s.(client := Reorder.Step(cfg.client, s.client, Reorder.Send))
    case Look(date) =>
      var client := Reorder.Step(cfg.client, s.client, Reorder.Check(date));
      var gaps := client.gaps[|s.client.gaps|..];
      s.(client := client, requests := s.requests + multiset(Reorder.Requests(gaps, cfg.client.maxRetxBurst)))
    case LoseData(rtp) => s.(data := s.data - multiset{rtp})
    case DoubleData(rtp) => if rtp in s.data then s.(data := s.data + multiset{rtp}) else s
    case LoseRequest(request) => s.(requests := s.requests - multiset{request})
    case DoubleRequest(request) => if request in s.requests then s.(requests := s.requests + multiset{request}) else s
  }

  function Run(cfg: Settings, s: System, actions: seq<Action>): (r: System)
    requires cfg.client.Valid() && ReorderBuffer.WellFormed(s.client.state.buffer)
    ensures ReorderBuffer.WellFormed(r.client.state.buffer)
    decreases |actions|
  {
    if actions == [] then s else Run(cfg, Step(cfg, s, actions[0]), actions[1..])
  }

  function Start(retxCount: nat): (s: System)
    ensures ReorderBuffer.WellFormed(s.client.state.buffer)
  {
    System([], [], false, multiset{}, multiset{}, Reorder.InitialWorld(retxCount))
  }

  // ---------------------------------------------------------------------------------------------
  // Safety
  // ---------------------------------------------------------------------------------------------

  /** A packet is the one that the server sent under its number, but for the marker. */
  predicate Genuine(history: seq<Rtp>, rtp: Rtp) {
    0 <= rtp.ext < |history| && rtp.(marker := false) == history[rtp.ext].(marker := false)
  }

  predicate AllGenuine(history: seq<Rtp>, packets: seq<Packet>) {
    forall i :: 0 <= i < |packets| ==> Genuine(history, packets[i].rtp) && !packets[i].rtp.marker
  }

  /** The queue holds the last packets of the history, in order. */
  predicate QueueGenuine(history: seq<Rtp>, queue: seq<RetxServer.Queued>) {
    && |queue| <= |history|
    && forall i {:trigger queue[i]} :: 0 <= i < |queue| ==>
         queue[i].rtp == history[|history| - |queue| + i].(marker := true)
         && queue[i].rtp.ext == |history| - |queue| + i
  }

  predicate Numbered(history: seq<Rtp>) {
    forall i {:trigger history[i]} :: 0 <= i < |history| ==> history[i].ext == i
  }

  predicate IsRequest(request: seq<Byte>) {
    |request| == RETX_HEADER_SIZE && RetxCheck(request)
  }

  /** Nothing is made up, whatever the network does; and no request kills the server. */
  predicate Safe(s: System) {
    && !s.dead
    && Numbered(s.history)
    && QueueGenuine(s.history, s.queue)
    && (forall rtp :: rtp in s.data ==> Genuine(s.history, rtp))
    && (forall request :: request in s.requests ==> IsRequest(request))
    && AllGenuine(s.history, s.client.received)
    && AllGenuine(s.history, s.client.Blocks())
    && AllGenuine(s.history, s.client.sent)
    && AllGenuine(s.history, s.client.dropped)
  }

  lemma {:induction false} PurgeIsSuffix(q: seq<RetxServer.Queued>, threshold: int) returns (k: nat)
    ensures k <= |q| && RetxServer.Purge(q, threshold) == q[k..]
    decreases |q|
  {
    if q != [] && q[0].date < threshold {
      k := PurgeIsSuffix(q[1..], threshold);
      k := k + 1;
    } else {
      k := 0;
    }
  }

  lemma PushGenuine(history: seq<Rtp>, queue: seq<RetxServer.Queued>, rtp: Rtp, now: U64, buffer: U64)
    requires QueueGenuine(history, queue) && rtp.ext == |history|
    ensures QueueGenuine(history + [rtp], RetxServer.Push(queue, rtp, now, buffer))
  {
    var all := queue + [RetxServer.Queued(rtp.(marker := true), now)];
    var k := PurgeIsSuffix(all, RetxServer.Threshold(now, buffer));
    var q := RetxServer.Push(queue, rtp, now, buffer);
    forall i {:trigger q[i]} | 0 <= i < |q|
      ensures q[i].rtp == (history + [rtp])[|history| + 1 - |q| + i].(marker := true)
              && q[i].rtp.ext == |history| + 1 - |q| + i
    {
      assert q[i] == all[k + i];
      if k + i < |queue| {
        assert all[k + i] == queue[k + i];
      }
    }
  }

  lemma GenuineGrows(history: seq<Rtp>, more: seq<Rtp>, packets: seq<Packet>)
    requires AllGenuine(history, packets)
    ensures AllGenuine(history + more, packets)
  {
  }

  lemma EmitSafe(cfg: Settings, s: System, content: Rtp, now: U64)
    requires cfg.client.Valid() && ReorderBuffer.WellFormed(s.client.state.buffer) && Safe(s)
    ensures Safe(Step(cfg, s, Emit(content, now)))
  {
    hide AllGenuine, QueueGenuine, RetxServer.Push;
    var rtp := content.(ext := |s.history|);
    PushGenuine(s.history, s.queue, rtp, now, cfg.retxBuffer);
    GenuineGrows(s.history, [rtp], s.client.received);
    GenuineGrows(s.history, [rtp], s.client.Blocks());
    GenuineGrows(s.history, [rtp], s.client.sent);
    GenuineGrows(s.history, [rtp], s.client.dropped);
  }

  lemma AnswerGenuine(history: seq<Rtp>, queue: seq<RetxServer.Queued>, seqnum: U16, num: nat, rtp: Rtp)
    requires QueueGenuine(history, queue) && rtp in RetxServer.Answer(queue, seqnum, num) && Numbered(history)
    ensures Genuine(history, rtp)
  {
    var k := RetxServer.Find(queue, seqnum);
    var i :| 0 <= i < |RetxServer.Answer(queue, seqnum, num)| && RetxServer.Answer(queue, seqnum, num)[i] == rtp;
    assert rtp == queue[k + i].rtp;
  }

  lemma ServeSafe(cfg: Settings, s: System, request: seq<Byte>)
    requires cfg.client.Valid() && ReorderBuffer.WellFormed(s.client.state.buffer) && Safe(s)
    ensures Safe(Step(cfg, s, Serve(request)))
  {
    hide AllGenuine, QueueGenuine, RetxServer.Answer, Genuine;
    if request in s.requests {
      var seqnum, num := RetxGetSeqnum(request), RetxGetNum(request);
      forall rtp | rtp in RetxServer.Answer(s.queue, seqnum, num) ensures Genuine(s.history, rtp) {
        AnswerGenuine(s.history, s.queue, seqnum, num, rtp);
      }
    }
  }

  lemma InsertGenuine(history: seq<Rtp>, b: ReorderBuffer.Buffer, p: Packet)
    requires AllGenuine(history, b.blocks) && Genuine(history, p.rtp) && !p.rtp.marker
    ensures AllGenuine(history, ReorderBuffer.Insert(b, p).blocks)
  {
    var k := ReorderBuffer.InsertAt(b.blocks, p.Seqnum());
    var r := ReorderBuffer.Insert(b, p).blocks;
    forall i | 0 <= i < |r| ensures Genuine(history, r[i].rtp) && !r[i].rtp.marker {
      assert i != k ==> r[i] == b.blocks[if i < k then i else i - 1];
    }
  }

  lemma DeliverSafe(cfg: Settings, s: System, rtp: Rtp, wall: int)
    requires cfg.client.Valid() && ReorderBuffer.WellFormed(s.client.state.buffer) && Safe(s)
    ensures Safe(Step(cfg, s, Deliver(rtp, wall)))
  {
    hide QueueGenuine, ReorderBuffer.Insert, Numbered;
    if rtp in s.data && rtp.valid {
      var p := Reorder.Stamped(cfg.client, s.client.state, rtp, wall);
      assert p.rtp == rtp.(marker := false) && Genuine(s.history, p.rtp);
      InsertGenuine(s.history, s.client.state.buffer, p);
    }
  }

  lemma SubGenuine(history: seq<Rtp>, from: seq<Packet>, to: seq<Packet>)
    requires AllGenuine(history, from) && multiset(to) <= multiset(from)
    ensures AllGenuine(history, to)
  {
    forall i | 0 <= i < |to| ensures Genuine(history, to[i].rtp) && !to[i].rtp.marker {
      assert to[i] in multiset(from);
    }
  }

  lemma JoinGenuine(history: seq<Rtp>, a: seq<Packet>, b: seq<Packet>)
    requires AllGenuine(history, a) && AllGenuine(history, b)
    ensures AllGenuine(history, a + b)
  {
  }

  lemma {:induction false} RequestsWellFormed(gaps: seq<ReorderBuffer.Gap>, maxRetxBurst: nat, request: seq<Byte>)
    requires request in Reorder.Requests(gaps, maxRetxBurst)
    ensures IsRequest(request)
    decreases |gaps|
  {
    if request in Reorder.Requests(gaps[..|gaps| - 1], maxRetxBurst) {
      RequestsWellFormed(gaps[..|gaps| - 1], maxRetxBurst, request);
    }
  }

  lemma LookSafe(cfg: Settings, s: System, now: int)
    requires cfg.client.Valid() && ReorderBuffer.WellFormed(s.client.state.buffer) && Safe(s)
    ensures Safe(Step(cfg, s, Look(now)))
  {
    hide AllGenuine, QueueGenuine, ReorderBuffer.Check, IsRequest, Reorder.Requests, Numbered, Genuine,
         ReorderBuffer.HoldsAll, ReorderBuffer.Ordered, ReorderBuffer.Window;
    var c := cfg.client;
    var b := s.client.state.buffer;
    ReorderBuffer.CheckKeeps(b, 0, now + c.retxDelay, c.retxDelay);
    var r := ReorderBuffer.Check(b, 0, now + c.retxDelay, c.retxDelay);
    SubGenuine(s.history, b.blocks, r.buffer.blocks);
    SubGenuine(s.history, b.blocks, r.dropped);
    JoinGenuine(s.history, s.client.dropped, r.dropped);
    assert (s.client.gaps + r.gaps)[|s.client.gaps|..] == r.gaps;
    forall request | request in Reorder.Requests(r.gaps, c.maxRetxBurst) ensures IsRequest(request) {
      RequestsWellFormed(r.gaps, c.maxRetxBurst, request);
    }
  }

  lemma DueSafe(cfg: Settings, s: System)
    requires cfg.client.Valid() && ReorderBuffer.WellFormed(s.client.state.buffer) && Safe(s)
    ensures Safe(Step(cfg, s, Due))
  {
    hide QueueGenuine, Genuine, Numbered;
    if s.client.Blocks() != [] {
      JoinGenuine(s.history, s.client.sent, [s.client.Blocks()[0]]);
    }
  }

  lemma NetworkSafe(cfg: Settings, s: System, a: Action)
    requires cfg.client.Valid() && ReorderBuffer.WellFormed(s.client.state.buffer) && Safe(s)
    requires a.LoseData? || a.DoubleData? || a.LoseRequest? || a.DoubleRequest?
    ensures Safe(Step(cfg, s, a))
  {
    hide AllGenuine, QueueGenuine, Genuine, Numbered, IsRequest;
  }

  /**
    In every reachable state, whatever was lost, reordered, duplicated or resent on the way: each
    packet that the client has received, buffered, dropped or sent on is the one that the server sent
    under its number, with the marker cleared; the server's queue is the tail of what it sent; and no request
    under way can kill the server.
   */
  lemma {:induction false} AlwaysSafe(cfg: Settings, s: System, actions: seq<Action>)
    requires cfg.client.Valid() && ReorderBuffer.WellFormed(s.client.state.buffer) && Safe(s)
    ensures Safe(Run(cfg, s, actions))
    decreases |actions|
  {
    hide Safe, Step;
    if actions != [] {
      var a := actions[0];
      match a {
        case Emit(content, now) => EmitSafe(cfg, s, content, now);
        case Serve(request) => ServeSafe(cfg, s, request);
        case Deliver(rtp, wall) => DeliverSafe(cfg, s, rtp, wall);
        case Due => DueSafe(cfg, s);
        case Look(now) => LookSafe(cfg, s, now);
        case _ => NetworkSafe(cfg, s, a);
      }
      AlwaysSafe(cfg, Step(cfg, s, a), actions[1..]);
    }
  }

  lemma StartSafe(retxCount: nat)
    ensures Safe(Start(retxCount))
  {
  }

  /**
    In a safe state the queue is fit for repair exactly while it does not span the whole circle of sequence numbers.
   */
  lemma QueueIsConsecutive(s: System)
    requires Safe(s)
    ensures RetxServer.Consecutive(s.queue) <==> |s.queue| <= POW2_16
  {
    forall i {:trigger s.queue[i]} | 0 <= i < |s.queue| ensures s.queue[i].rtp.ext == s.queue[0].rtp.ext + i {
      assert s.queue[i].rtp.ext == |s.history| - |s.queue| + i;
      assert s.queue[0].rtp.ext == |s.history| - |s.queue| + 0;
    }
  }

  function MarkedAll(packets: seq<Rtp>): (r: seq<Rtp>)
    ensures |r| == |packets|
  {
    seq(|packets|, i requires 0 <= i < |packets| => packets[i].(marker := true))
  }

  /**
    A request for packets of the history that reaches the server puts exactly those packets back on the way, marked
    as resent, if and only if the queue still reaches back to the first of them.
   */
  lemma ServeResends(cfg: Settings, s: System, x: nat, num: nat)
    requires cfg.client.Valid() && ReorderBuffer.WellFormed(s.client.state.buffer) && Safe(s)
    requires |s.queue| <= POW2_16 && 0 < num < POW2_16 && RetxRequest(x % POW2_16, num) in s.requests
    requires x + num <= |s.history|
    ensures Step(cfg, s, Serve(RetxRequest(x % POW2_16, num))).data
            == s.data + multiset(MarkedAll(s.history[x..x + num]))
       <==> |s.history| - |s.queue| <= x
  {
    hide Safe, Step, RetxRequest, RetxServer.Answer, MarkedAll;
    var packets := RetxServer.Answer(s.queue, x % POW2_16, num);
    var wanted := MarkedAll(s.history[x..x + num]);
    ServeIsAnswer(cfg, s, x % POW2_16, num);
    AnswerIsHistory(s, x, num);
    if s.data + multiset(packets) == s.data + multiset(wanted) {
      assert wanted[0] in multiset(packets) by { InTheSame(s.data, multiset(packets), multiset(wanted), wanted[0]); }
      QueuedNumbers(s, x % POW2_16, num, wanted[0]);
      assert wanted[0].ext == x by { FirstMarked(s, x, num); }
    }
  }

  lemma InTheSame(a: multiset<Rtp>, b: multiset<Rtp>, c: multiset<Rtp>, rtp: Rtp)
    requires a + b == a + c && rtp in c
    ensures rtp in b
  {
    assert (a + b)[rtp] == (a + c)[rtp];
  }

  lemma FirstMarked(s: System, x: nat, num: nat)
    requires Safe(s) && 0 < num && x + num <= |s.history|
    ensures MarkedAll(s.history[x..x + num])[0].ext == x
  {
    assert s.history[x..x + num][0] == s.history[x];
  }

  lemma ServeIsAnswer(cfg: Settings, s: System, seqnum: U16, num: U16)
    requires cfg.client.Valid() && ReorderBuffer.WellFormed(s.client.state.buffer) && Safe(s)
    requires RetxRequest(seqnum, num) in s.requests
    ensures Step(cfg, s, Serve(RetxRequest(seqnum, num))).data
         == s.data + multiset(RetxServer.Answer(s.queue, seqnum, num))
  {
    hide RetxRequest, RetxServer.Answer, AllGenuine, QueueGenuine, Genuine, Numbered;
    RetxRoundTrip(RetxRequest(seqnum, num), seqnum, num);
  }

  /** The answer to a request that the queue covers is the stretch of the history, marked. */
  lemma AnswerIsHistory(s: System, x: nat, num: nat)
    requires Safe(s) && |s.queue| <= POW2_16 && 0 < num && x + num <= |s.history|
    ensures |s.history| - |s.queue| <= x ==>
              RetxServer.Answer(s.queue, x % POW2_16, num) == MarkedAll(s.history[x..x + num])
  {
    hide AllGenuine, Genuine;
    var start := |s.history| - |s.queue|;
    if start <= x {
      QueueIsConsecutive(s);
      assert s.queue[0].rtp.ext == start + 0;
      RetxServer.FindExt(s.queue, x);
      var packets := RetxServer.Answer(s.queue, x % POW2_16, num);
      forall i | 0 <= i < num ensures packets[i] == MarkedAll(s.history[x..x + num])[i] {
        assert packets[i] == s.queue[x - start + i].rtp;
      }
    }
  }

  /** Whatever the server answers with is still queued. */
  lemma QueuedNumbers(s: System, seqnum: U16, num: nat, rtp: Rtp)
    requires Safe(s) && rtp in RetxServer.Answer(s.queue, seqnum, num)
    ensures |s.history| - |s.queue| <= rtp.ext
  {
    var k := RetxServer.Find(s.queue, seqnum);
    var packets := RetxServer.Answer(s.queue, seqnum, num);
    var i :| 0 <= i < |packets| && packets[i] == rtp;
    assert rtp == s.queue[k + i].rtp;
  }
}
