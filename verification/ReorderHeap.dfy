/**
  reordertp.c as it runs: a doubly linked list of blocks, with retransmission cursors that point into
  it. Every method is tied to the function of ReorderBuffer or Reorder that says what it does to the list.
 */
module ReorderHeap {
  import opened Base
  import opened Codec
  import opened Packets
  import opened RtpClock
  import opened ReorderBuffer
  import R = Reorder

  class Block {
    var data: Rtp
    var date: int
    var seqnum: U16
    var next: Block?
    var prev: Block?

    constructor (data: Rtp)
      ensures this.data == data
    {
      this.data := data;
    }
  }

  /** The node at a position of the list; NULL stands for both ends. */
  ghost function NodeAt(nodes: seq<Block>, k: int): Block? {
    if 0 <= k < |nodes| then nodes[k] else null
  }

  /** The nodes without the one at position k. */
  ghost function WithoutNode(nodes: seq<Block>, k: nat): (r: seq<Block>)
    requires k < |nodes|
    ensures |r| == |nodes| - 1
    ensures forall j {:trigger r[j]} :: 0 <= j < |r| ==> r[j] == nodes[if j < k then j else j + 1]
  {
    nodes[..k] + nodes[k + 1..]
  }

  /** The nodes with a new one at position k. */
  ghost function WithNode(nodes: seq<Block>, k: nat, block: Block): (r: seq<Block>)
    requires k <= |nodes|
    ensures |r| == |nodes| + 1 && r[k] == block
    ensures forall j {:trigger r[j]} :: 0 <= j < |r| && j != k ==> r[j] == nodes[if j < k then j else j - 1]
  {
    nodes[..k] + [block] + nodes[k..]
  }

  /** Every node of one list is a node of another. */
  ghost predicate Within(nodes: seq<Block>, others: seq<Block>) {
    forall j {:trigger nodes[j]} :: 0 <= j < |nodes| ==> nodes[j] in others
  }

  ghost predicate Distinct(nodes: seq<Block>) {
    forall j, k :: 0 <= j < k < |nodes| ==> nodes[j] != nodes[k]
  }

  lemma Apart(nodes: seq<Block>, k: nat)
    requires Distinct(nodes) && k < |nodes|
    ensures forall j {:trigger nodes[j]} :: 0 <= j < |nodes| && j != k ==> nodes[j] != nodes[k]
  {
  }

  lemma DistinctWithout(nodes: seq<Block>, k: nat)
    requires Distinct(nodes) && k < |nodes|
    ensures Distinct(WithoutNode(nodes, k))
  {
  }

  lemma DistinctWith(nodes: seq<Block>, k: nat, block: Block)
    requires Distinct(nodes) && k <= |nodes| && block !in nodes
    ensures Distinct(WithNode(nodes, k, block))
  {
  }

  class Reorderer {
    const cfg: R.Config
    const retx: array<Block?>
    const clock: InputClock
    var lastTimestamp: int
    var first: Block?
    var last: Block?

    ghost var nodes: seq<Block>
    ghost var buffer: Buffer

    ghost predicate Backward()
      reads this, nodes
    {
      forall k {:trigger nodes[k].prev} :: 0 <= k < |nodes| ==> nodes[k].prev == NodeAt(nodes, k - 1)
    }

    ghost predicate Forward()
      reads this, nodes
    {
      forall k {:trigger nodes[k].next} :: 0 <= k < |nodes| ==> nodes[k].next == NodeAt(nodes, k + 1)
    }

    ghost predicate Packed()
      reads this, nodes
    {
      && |nodes| == |buffer.blocks|
      && (forall k {:trigger nodes[k].data} {:trigger nodes[k].date} {:trigger nodes[k].seqnum} :: 0 <= k < |nodes| ==>
            Packet(nodes[k].data, nodes[k].date) == buffer.blocks[k] && nodes[k].seqnum == nodes[k].data.Seqnum())
    }

    /** The pointers spell the sequence of nodes, forward and backward, and each node holds its packet. */
    ghost predicate Linked()
      reads this, nodes
    {
      && Packed() && Distinct(nodes)
      && first == NodeAt(nodes, 0) && last == NodeAt(nodes, |nodes| - 1)
      && Backward() && Forward()
    }

    /** Every cursor is null or points to a node that is still in the list. */
    ghost predicate CursorsInList()
      reads this, retx
    {
      && |buffer.cursors| == retx.Length
      && (forall i :: 0 <= i < retx.Length ==> -1 <= buffer.cursors[i] < |nodes|)
      && (forall i :: 0 <= i < retx.Length ==> retx[i] == NodeAt(nodes, buffer.cursors[i]))
    }

    ghost predicate Valid()
      reads this, nodes, retx
      ensures Valid() ==> WellFormed(buffer) && |nodes| == |buffer.blocks| && |buffer.cursors| == retx.Length
    {
      Linked() && CursorsInList() && cfg.Valid()
    }

    ghost function View(): R.State
      reads this, clock
    {
      R.State(lastTimestamp, clock.View(), buffer)
    }

    constructor (cfg: R.Config, retxCount: nat)
      requires cfg.Valid()
      ensures Valid() && fresh(retx) && fresh(clock)
      ensures View() == R.State(INITIAL_TIMESTAMP, INITIAL_CLOCK, Buffer([], seq(retxCount, _ => -1)))
    {
      this.cfg := cfg;
      retx := new Block?[retxCount](_ => null);
      clock := new InputClock();
      lastTimestamp := INITIAL_TIMESTAMP;
      first, last := null, null;
      nodes := [];
      buffer := Buffer([], seq(retxCount, _ => -1));
    }

    /** The cursors on a block move to another target. */
    method RetxMoved(block: Block, target: Block?)
      modifies retx
      ensures forall i :: 0 <= i < retx.Length ==> retx[i] == if old(retx[i]) == block then target else old(retx[i])
    {
      for i := 0 to retx.Length
        invariant forall j :: 0 <= j < i ==> retx[j] == if old(retx[j]) == block then target else old(retx[j])
        invariant forall j :: i <= j < retx.Length ==> retx[j] == old(retx[j])
      {
        if retx[i] == block {
          retx[i] := target;
        }
      }
    }

    /** No cursor may outlive a block that was sent. */
    method RetxPacketSent(block: Block)
      modifies retx
      ensures forall i :: 0 <= i < retx.Length ==> retx[i] == if old(retx[i]) == block then null else old(retx[i])
    {
      RetxMoved(block, null);
    }

    /** The pointer surgery that takes a block other than the head out of the list. */
    method Unlink(block: Block, ghost k: nat)
      requires Linked() && 0 < k < |nodes| && nodes[k] == block
      modifies this`last, this`nodes, this`buffer, nodes`prev, nodes`next
      ensures Linked()
      ensures buffer == Remove(old(buffer), k)
      ensures nodes == WithoutNode(old(nodes), k)
    {
      hide ShiftDown, WithoutNode, Distinct;
      DistinctWithout(nodes, k);
      Apart(nodes, k - 1);
      if k + 1 < |nodes| {
        Apart(nodes, k + 1);
      }
      block.prev.next := block.next;
      if block.next != null {
        block.next.prev := block.prev;
      } else {
        last := block.prev;
      }
      buffer := Remove(buffer, k);
      nodes := WithoutNode(nodes, k);
      assert Backward() by { hide Forward, Packed; }
      assert Forward() by { hide Backward, Packed; }
      assert Packed() by { hide Forward, Backward; }
    }

    /** Takes a block other than the head out of the list; its cursors fall back to its predecessor. */
    method RetxDereference(block: Block, ghost k: nat)
      requires Valid() && 0 < k < |nodes| && nodes[k] == block
      modifies this`last, this`nodes, this`buffer, nodes`prev, nodes`next, retx
      ensures Valid()
      ensures buffer == Remove(old(buffer), k)
      ensures nodes == WithoutNode(old(nodes), k)
    {
      RetxMoved(block, block.prev);
      Unlink(block, k);
      assert CursorsInList() by {
        hide Linked;
      }
    }

    /** The pointer surgery that takes the head off the list. */
    method Unhead()
      requires Linked() && first != null
      modifies this`first, this`last, this`nodes, this`buffer, nodes`prev, nodes`next
      ensures Linked()
      ensures buffer == Pop(old(buffer)) && nodes == old(nodes)[1..]
    {
      hide ShiftDown;
      ghost var before := nodes;
      first := first.next;
      if first == null {
        last := null;
      } else {
        first.prev := null;
      }
      buffer := Pop(buffer);
      nodes := nodes[1..];
      assert forall j :: 0 <= j < |nodes| ==> nodes[j] == before[j + 1];
      assert Backward() by { hide Forward, Packed; }
      assert Forward() by { hide Backward, Packed; }
      assert Packed() by { hide Backward, Forward; }
    }

    /** Sends the head of the list. */
    method PacketSend() returns (sent: Rtp)
      requires Valid() && first != null
      modifies this`first, this`last, this`nodes, this`buffer, nodes`prev, nodes`next, retx
      ensures Valid()
      ensures old(buffer.blocks) != [] && sent == old(buffer.blocks[0].rtp)
      ensures buffer == Pop(old(buffer)) && nodes == old(nodes)[1..]
    {
      var block := first;
      Unhead();
      sent := block.data;
      RetxPacketSent(block);
    }

    /**
      With a block put in at position k, and one pointer changed to it, the pointers still go back through the list.
     */
    lemma BackwardWith(before: seq<Block>, k: nat, block: Block)
      requires k <= |before| && nodes == WithNode(before, k, block) && block.prev == NodeAt(before, k - 1)
      requires forall j {:trigger before[j].prev} :: 0 <= j < |before| ==>
                 before[j].prev == if j == k then block else NodeAt(before, j - 1)
      ensures Backward()
    {
      hide WithNode;
      forall j {:trigger nodes[j].prev} | 0 <= j < |nodes| ensures nodes[j].prev == NodeAt(nodes, j - 1) {
        assert j > k ==> nodes[j] == before[j - 1];
        assert j < k ==> nodes[j] == before[j];
        assert j > k + 1 ==> nodes[j - 1] == before[j - 2];
        assert 0 < j <= k ==> nodes[j - 1] == before[j - 1];
      }
    }

    /** The same for the pointers that go forward. */
    lemma ForwardWith(before: seq<Block>, k: nat, block: Block)
      requires k <= |before| && nodes == WithNode(before, k, block) && block.next == NodeAt(before, k)
      requires forall j {:trigger before[j].next} :: 0 <= j < |before| ==>
                 before[j].next == if j == k - 1 then block else NodeAt(before, j + 1)
      ensures Forward()
    {
      hide WithNode;
      forall j {:trigger nodes[j].next} | 0 <= j < |nodes| ensures nodes[j].next == NodeAt(nodes, j + 1) {
        assert j > k ==> nodes[j] == before[j - 1];
        assert j < k ==> nodes[j] == before[j];
        assert k <= j < |before| ==> nodes[j + 1] == before[j];
        assert j + 1 < k ==> nodes[j + 1] == before[j + 1];
      }
    }

    /** With a block put in at position k of nodes and packets, each node still holds its packet. */
    lemma PackedWith(before: seq<Block>, blocks: seq<Packet>, k: nat, block: Block)
      requires k <= |before| == |blocks| && nodes == WithNode(before, k, block)
      requires buffer.blocks == Splice(blocks, k, Packet(block.data, block.date)) && block.seqnum == block.data.Seqnum()
      requires forall j {:trigger before[j]} :: 0 <= j < |before| ==>
                 Packet(before[j].data, before[j].date) == blocks[j] && before[j].seqnum == before[j].data.Seqnum()
      ensures Packed()
    {
      hide WithNode, Splice;
      forall j {:trigger nodes[j]} | 0 <= j < |nodes|
        ensures Packet(nodes[j].data, nodes[j].date) == buffer.blocks[j] && nodes[j].seqnum == nodes[j].data.Seqnum()
      {
        assert j != k ==> nodes[j] == before[if j < k then j else j - 1];
      }
    }

    /** Puts a block in front of the list. */
    method LinkFirst(block: Block)
      requires Linked() && block !in nodes && block.seqnum == block.data.Seqnum()
      requires InsertAt(buffer.blocks, block.seqnum) == 0
      modifies this`first, this`last, this`nodes, this`buffer, nodes`prev, block`prev, block`next
      ensures Linked()
      ensures buffer == Insert(old(buffer), Packet(block.data, block.date)) && nodes == WithNode(old(nodes), 0, block)
    {
      hide ShiftUp, WithNode, Splice, Distinct, InsertAt;
      ghost var before, blocks := nodes, buffer.blocks;
      DistinctWith(nodes, 0, block);
      if 0 < |nodes| { Apart(nodes, 0); }
      block.next := first;
      if first != null {
        first.prev := block;
      } else {
        last := block;
      }
      block.prev := null;
      first := block;
      buffer := Insert(buffer, Packet(block.data, block.date));
      nodes := WithNode(nodes, 0, block);
      assert Backward() by { hide Forward, Packed; BackwardWith(before, 0, block); }
      assert Forward() by { hide Backward, Packed; ForwardWith(before, 0, block); }
      assert Packed() by { hide Backward, Forward; PackedWith(before, blocks, 0, block); }
    }

    /** Puts a block behind another one. */
    method LinkBehind(block: Block, prev: Block, ghost k: nat)
      requires Linked() && block !in nodes && block.seqnum == block.data.Seqnum()
      requires k == InsertAt(buffer.blocks, block.seqnum) && prev == NodeAt(nodes, k - 1)
      modifies this`last, this`nodes, this`buffer, nodes`prev, nodes`next, block`prev, block`next
      ensures Linked()
      ensures buffer == Insert(old(buffer), Packet(block.data, block.date)) && nodes == WithNode(old(nodes), k, block)
    {
      hide ShiftUp, WithNode, Splice, Distinct, InsertAt;
      ghost var before, blocks := nodes, buffer.blocks;
      DistinctWith(nodes, k, block);
      Apart(nodes, k - 1);
      if k < |nodes| { Apart(nodes, k); }
      block.prev := prev;
      block.next := prev.next;
      prev.next := block;
      if block.next != null {
        block.next.prev := block;
      } else {
        last := block;
      }
      buffer := Insert(buffer, Packet(block.data, block.date));
      nodes := WithNode(nodes, k, block);
      assert Backward() by { hide Forward, Packed; BackwardWith(before, k, block); }
      assert Forward() by { hide Backward, Packed; ForwardWith(before, k, block); }
      assert Packed() by { hide Backward, Forward; PackedWith(before, blocks, k, block); }
    }

    /** Goes back from the tail past every newer block. */
    method ScanBack(seqnum: U16) returns (prev: Block?, ghost k: nat)
      requires Linked()
      ensures k == InsertAt(buffer.blocks, seqnum) && prev == NodeAt(nodes, k - 1)
    {
      hide Distinct, Forward;
      prev, k := last, |nodes|;
      assert buffer.blocks[..k] == buffer.blocks;
      while prev != null && Newer(prev.seqnum, seqnum)
        invariant 0 <= k <= |nodes| && prev == NodeAt(nodes, k - 1)
        invariant InsertAt(buffer.blocks[..k], seqnum) == InsertAt(buffer.blocks, seqnum)
        decreases k
      {
        assert buffer.blocks[..k][..k - 1] == buffer.blocks[..k - 1];
        assert buffer.blocks[..k][k - 1] == buffer.blocks[k - 1];
        prev := prev.prev;
        k := k - 1;
      }
    }

    /** Unwraps the timestamp of a block, lets it drive the clock unless it is a resent one, and dates it. */
    method Stamp(block: Block, wall: int)
      requires cfg.Valid() && block.data.valid
      modifies this`lastTimestamp, clock, block`data, block`date, block`seqnum
      ensures var p := Packet(block.data, block.date);
              && R.Stamp(cfg, old(lastTimestamp), old(clock.View()), old(block.data), wall)
                 == (lastTimestamp, clock.View(), p)
              && block.seqnum == block.data.Seqnum()
    {
      hide BuildTimestamp, FilterRef;
      lastTimestamp := BuildTimestamp(lastTimestamp, block.data.timestamp);
      var scaled := R.Scaled(lastTimestamp, block.data.isTs);
      var date := wall;
      if block.data.marker {
        date := 0;
      }
      block.data := block.data.(marker := false);
      if date != 0 {
        var _ := clock.NewRef(cfg.clock, scaled, date);
      }
      block.date := ToWall(clock.View(), scaled) + cfg.bufferLength;
      block.seqnum := block.data.Seqnum();
    }

    /** Links a block in at the place of its number; the cursors stay on their blocks. */
    method Link(block: Block)
      requires Valid() && block !in nodes && block.seqnum == block.data.Seqnum()
      modifies this`first, this`last, this`nodes, this`buffer, nodes`prev, nodes`next, block`prev, block`next
      ensures Valid()
      ensures buffer == Insert(old(buffer), Packet(block.data, block.date))
      ensures Within(nodes, old(nodes) + [block])
    {
      hide InsertAt;
      var prev;
      ghost var k;
      prev, k := ScanBack(block.seqnum);
      if prev == null {
        LinkFirst(block);
      } else {
        LinkBehind(block, prev, k);
      }
      assert CursorsInList() by {
        hide Linked;
      }
    }

    /** Receives a block at a wall date; 0 stands for a block that must not drive the clock. */
    method PacketRecv(block: Block, wall: int)
      requires Valid() && block !in nodes
      modifies this`lastTimestamp, this`first, this`last, this`nodes, this`buffer, clock, nodes`prev, nodes`next, block
      ensures Valid()
      ensures View() == R.Receive(cfg, old(View()), old(block.data), wall)
      ensures Within(nodes, old(nodes) + [block])
    {
      hide R.Stamp, Insert;
      if !block.data.valid {
        return;
      }
      Stamp(block, wall);
      assert Valid();
      Link(block);
    }

    /** Builds a request in a buffer of its own, to be sent off. */
    method BuildRequest(first: U16, num: U16) returns (request: seq<Byte>)
      ensures request == RetxRequest(first, num)
    {
      var buffer := new Byte[RETX_HEADER_SIZE];
      RetxInit(buffer);
      RetxSetSeqnum(buffer, first);
      RetxSetNum(buffer, num);
      request := buffer[..];
    }

    /** Moves a cursor to the next block. */
    method MoveCursor(i: nat, current: Block)
      requires Valid() && i < retx.Length && current == NodeAt(nodes, buffer.cursors[i] + 1)
      modifies this`buffer, retx
      ensures Valid() && buffer == Advance(old(buffer), i)
    {
      retx[i] := current;
      buffer := Advance(buffer, i);
    }

    /** One turn of a retransmission pass: cursor i moves over one block, or that block is a duplicate and goes. */
    method RetxStep(i: nat, limit: int)
        returns (more: bool, requests: seq<seq<Byte>>, ghost gaps: seq<Gap>, ghost dropped: seq<Packet>)
      requires Valid() && i < retx.Length
      modifies this`last, this`nodes, this`buffer, nodes`prev, nodes`next, retx
      ensures Valid() && Within(nodes, old(nodes))
      ensures var r := Pass(buffer, i, limit);
              Pass(old(buffer), i, limit) == Checked(r.buffer, gaps + r.gaps, dropped + r.dropped)
      ensures requests == R.Requests(gaps, cfg.maxRetxBurst)
      ensures if more then |nodes| - buffer.cursors[i] < old(|nodes| - buffer.cursors[i])
              else Pass(buffer, i, limit) == Checked(buffer, [], [])
    {
      hide RetxRequest, Pass, R.Requests, GapBetween, Consecutive, Distinct, Backward, Without;
      ghost var b := buffer;
      ghost var c := buffer.cursors[i];
      PassTurn(b, i, limit);
      R.OneRequest(cfg.maxRetxBurst);
      requests, gaps, dropped := [], [], [];
      var prev := retx[i];
      var current := if prev != null then prev.next else first;
      assert current == NodeAt(nodes, c + 1);
      if current == null || current.date > limit {
        return false, requests, gaps, dropped;
      }
      MoveCursor(i, current);
      if prev == null {
        return true, requests, gaps, dropped;
      }
      if current.seqnum == prev.seqnum {
        dropped := [b.blocks[c + 1]];
        RetxDereference(current, c + 1);
        return true, requests, gaps, dropped;
      }
      requests, gaps := RequestMissing(prev, current, b.blocks[c], b.blocks[c + 1]);
      return true, requests, gaps, dropped;
    }

    /** Requests what is missing between two neighbours, unless it is too much. */
    method RequestMissing(prev: Block, current: Block, ghost p: Packet, ghost q: Packet)
        returns (requests: seq<seq<Byte>>, ghost gaps: seq<Gap>)
      requires prev.seqnum == p.Seqnum() && current.seqnum == q.Seqnum()
      ensures gaps == if Consecutive(p, q) then [] else [GapBetween(p, q)]
      ensures requests == R.Requests(gaps, cfg.maxRetxBurst)
    {
      hide RetxRequest, R.Requests;
      R.OneRequest(cfg.maxRetxBurst);
      requests, gaps := [], [];
      if current.seqnum != (prev.seqnum + 1) % POW2_16 {
        var num := (POW2_16 + current.seqnum - (prev.seqnum + 1)) % POW2_16;
        gaps := [Gap((prev.seqnum + 1) % POW2_16, num)];
        if num <= cfg.maxRetxBurst {
          var request := BuildRequest((prev.seqnum + 1) % POW2_16, num);
          requests := [request];
        }
      }
    }

    /** One retransmission pass: cursor i walks to the limit, dropping duplicates and requesting what is missing. */
    method RetxPass(i: nat, limit: int)
        returns (requests: seq<seq<Byte>>, ghost gaps: seq<Gap>, ghost dropped: seq<Packet>)
      requires Valid() && i < retx.Length
      modifies this`last, this`nodes, this`buffer, nodes`prev, nodes`next, retx
      ensures Valid() && Within(nodes, old(nodes))
      ensures Checked(buffer, gaps, dropped) == Pass(old(buffer), i, limit)
      ensures requests == R.Requests(gaps, cfg.maxRetxBurst)
    {
      hide Pass, R.Requests, Linked, CursorsInList;
      requests, gaps, dropped := [], [], [];
      assert requests == R.Requests(gaps, cfg.maxRetxBurst) by { R.NoRequests(cfg.maxRetxBurst); }
      var more := true;
      while more
        invariant Valid() && Within(nodes, old(nodes))
        invariant var rest := Pass(buffer, i, limit);
                  Pass(old(buffer), i, limit) == Checked(rest.buffer, gaps + rest.gaps, dropped + rest.dropped)
        invariant requests == R.Requests(gaps, cfg.maxRetxBurst)
        invariant !more ==> Pass(buffer, i, limit) == Checked(buffer, [], [])
        decreases more, |nodes| - buffer.cursors[i]
      {
        ghost var before := gaps;
        var newRequests;
        ghost var newGaps, newDropped;
        more, newRequests, newGaps, newDropped := RetxStep(i, limit);
        requests, gaps, dropped := requests + newRequests, gaps + newGaps, dropped + newDropped;
        R.RequestsJoin(before, newGaps, cfg.maxRetxBurst);
      }
    }

    /** The whole check at a wall date: pass i looks (i + 1) delays ahead of it. */
    method RetxCheck(now: int) returns (requests: seq<seq<Byte>>, ghost gaps: seq<Gap>, ghost dropped: seq<Packet>)
      requires Valid()
      modifies this`last, this`nodes, this`buffer, nodes`prev, nodes`next, retx
      ensures Valid() && Within(nodes, old(nodes))
      ensures Checked(buffer, gaps, dropped) == Check(old(buffer), 0, now + cfg.retxDelay, cfg.retxDelay)
      ensures requests == R.Requests(gaps, cfg.maxRetxBurst)
    {
      hide Pass, R.Requests, Linked, CursorsInList;
      requests, gaps, dropped := [], [], [];
      assert requests == R.Requests(gaps, cfg.maxRetxBurst) by { R.NoRequests(cfg.maxRetxBurst); }
      ghost var limit := now + cfg.retxDelay;
      for i := 0 to retx.Length
        invariant Valid() && Within(nodes, old(nodes))
        invariant limit == now + (i + 1) * cfg.retxDelay
        invariant var rest := Check(buffer, i, limit, cfg.retxDelay);
                  Check(old(buffer), 0, now + cfg.retxDelay, cfg.retxDelay)
                  == Checked(rest.buffer, gaps + rest.gaps, dropped + rest.dropped)
        invariant requests == R.Requests(gaps, cfg.maxRetxBurst)
      {
        ghost var before := gaps;
        var newRequests;
        ghost var newGaps, newDropped;
        newRequests, newGaps, newDropped := RetxPass(i, now + (i + 1) * cfg.retxDelay);
        requests, gaps, dropped := requests + newRequests, gaps + newGaps, dropped + newDropped;
        R.RequestsJoin(before, newGaps, cfg.maxRetxBurst);
        limit := limit + cfg.retxDelay;
      }
    }

    /** The head of the main loop: sends whatever is due within the next millisecond, reading the clock each time. */
    method SendDue(wall: nat -> int) returns (sent: seq<Rtp>)
      requires Valid()
      modifies this`first, this`last, this`nodes, this`buffer, nodes`prev, nodes`next, retx
      ensures Valid() && Within(nodes, old(nodes))
      ensures |sent| <= |old(buffer.blocks)| && buffer.blocks == old(buffer.blocks)[|sent|..]
      ensures forall k :: 0 <= k < |sent| ==>
                sent[k] == old(buffer.blocks)[k].rtp && old(buffer.blocks)[k].date <= wall(k) + 26999
      ensures buffer.blocks != [] ==> wall(|sent|) + 26999 < buffer.blocks[0].date
    {
      sent := [];
      while first != null && first.date <= wall(|sent|) + 26999
        invariant Valid() && Within(nodes, old(nodes))
        invariant |sent| <= |old(buffer.blocks)| && buffer.blocks == old(buffer.blocks)[|sent|..]
        invariant forall k :: 0 <= k < |sent| ==>
                    sent[k] == old(buffer.blocks)[k].rtp && old(buffer.blocks)[k].date <= wall(k) + 26999
        decreases |buffer.blocks|
      {
        assert first == nodes[0] && buffer.blocks[0] == Packet(nodes[0].data, nodes[0].date);
        var one := PacketSend();
        sent := sent + [one];
      }
    }
  }
}
