/**
  The reorder buffer of reordertp.c as a value: the blocks in list order, and the retransmission
  cursors as positions in that list. Every function is what one C function does to the list.
 */
module ReorderBuffer {
  import opened Base
  import opened Packets

  /** A cursor is -1 when pp_retx[i] is NULL, and otherwise the position of the block it points to. */
  datatype Buffer = Buffer(blocks: seq<Packet>, cursors: seq<int>)

  const EMPTY_CURSOR := -1

  predicate WellFormed(b: Buffer) {
    forall i :: 0 <= i < |b.cursors| ==> -1 <= b.cursors[i] < |b.blocks|
  }

  // ---------------------------------------------------------------------------------------------
  // Insertion and sending
  // ---------------------------------------------------------------------------------------------

  /** The number of blocks that stay ahead of a new one: the scan goes back from the tail past newer blocks. */
  function InsertAt(blocks: seq<Packet>, seqnum: U16): (k: nat)
    ensures k <= |blocks|
  {
    if blocks != [] && Newer(blocks[|blocks| - 1].Seqnum(), seqnum)
    then InsertAt(blocks[..|blocks| - 1], seqnum)
    else |blocks|
  }

  function ShiftUp(cursors: seq<int>, k: nat): (r: seq<int>)
    ensures |r| == |cursors|
  {
    seq(|cursors|, i requires 0 <= i < |cursors| => if cursors[i] >= k then cursors[i] + 1 else cursors[i])
  }

  function Splice(blocks: seq<Packet>, k: nat, p: Packet): (r: seq<Packet>)
    requires k <= |blocks|
    ensures |r| == |blocks| + 1 && r[k] == p
    ensures forall i :: 0 <= i < k ==> r[i] == blocks[i]
    ensures forall i :: k < i < |r| ==> r[i] == blocks[i - 1]
  {
    blocks[..k] + [p] + blocks[k..]
  }

  function Insert(b: Buffer, p: Packet): Buffer {
    var k := InsertAt(b.blocks, p.Seqnum());
    Buffer(Splice(b.blocks, k, p), ShiftUp(b.cursors, k))
  }

  function ShiftDown(cursors: seq<int>, k: nat): (r: seq<int>)
    ensures |r| == |cursors|
  {
    seq(|cursors|, i requires 0 <= i < |cursors| => if cursors[i] >= k then cursors[i] - 1 else cursors[i])
  }

  /** Sending the head: a cursor on it becomes null, and the others keep their block. */
  function Pop(b: Buffer): Buffer
    requires b.blocks != []
  {
    Buffer(b.blocks[1..], ShiftDown(b.cursors, 0))
  }

  function Without(blocks: seq<Packet>, k: nat): (r: seq<Packet>)
    requires k < |blocks|
    ensures |r| == |blocks| - 1
    ensures forall i :: 0 <= i < k ==> r[i] == blocks[i]
    ensures forall i :: k <= i < |r| ==> r[i] == blocks[i + 1]
  {
    blocks[..k] + blocks[k + 1..]
  }

  /** Dropping a block that is not the head: a cursor on it moves to its predecessor. */
  function Remove(b: Buffer, k: nat): Buffer
    requires 0 < k < |b.blocks|
  {
    Buffer(Without(b.blocks, k), ShiftDown(b.cursors, k))
  }

  // ---------------------------------------------------------------------------------------------
  // Retransmission checks
  // ---------------------------------------------------------------------------------------------

  /** A run of missing sequence numbers. */
  datatype Gap = Gap(first: U16, num: U16)

  predicate Consecutive(p: Packet, q: Packet) {
    q.Seqnum() == (p.Seqnum() + 1) % POW2_16
  }

  /** What the check computes as missing between two neighbours of different sequence numbers. */
  function GapBetween(p: Packet, q: Packet): Gap {
    Gap((p.Seqnum() + 1) % POW2_16, (POW2_16 + q.Seqnum() - (p.Seqnum() + 1)) % POW2_16)
  }

  datatype Checked = Checked(buffer: Buffer, gaps: seq<Gap>, dropped: seq<Packet>)

  function Advance(b: Buffer, i: nat): Buffer
    requires i < |b.cursors|
  {
    b.(cursors := b.cursors[i := b.cursors[i] + 1])
  }

  /** One pass: cursor i walks on while the next block is dated up to the limit. */
  function Pass(b: Buffer, i: nat, limit: int): (r: Checked)
    requires WellFormed(b) && i < |b.cursors|
    ensures WellFormed(r.buffer) && |r.buffer.cursors| == |b.cursors|
    decreases |b.blocks| - b.cursors[i]
  {
    var c := b.cursors[i];
    if c + 1 == |b.blocks| || b.blocks[c + 1].date > limit then
      Checked(b, [], [])
    else if c == EMPTY_CURSOR then
      Pass(Advance(b, i), i, limit)
    else if b.blocks[c + 1].Seqnum() == b.blocks[c].Seqnum() then
      var r := Pass(Remove(b, c + 1), i, limit);
      r.(dropped := [b.blocks[c + 1]] + r.dropped)
    else
      var r := Pass(Advance(b, i), i, limit);
      if Consecutive(b.blocks[c], b.blocks[c + 1]) then r
      else r.(gaps := [GapBetween(b.blocks[c], b.blocks[c + 1])] + r.gaps)
  }

  /** One turn of a pass, as a step: what the pass does from the next state on is what it still had to do. */
  lemma PassTurn(b: Buffer, i: nat, limit: int)
    requires WellFormed(b) && i < |b.cursors|
    ensures var c, all := b.cursors[i], Pass(b, i, limit);
            if c + 1 == |b.blocks| || b.blocks[c + 1].date > limit then
              all == Checked(b, [], [])
            else if c != EMPTY_CURSOR && b.blocks[c + 1].Seqnum() == b.blocks[c].Seqnum() then
              var r := Pass(Remove(Advance(b, i), c + 1), i, limit);
              all == Checked(r.buffer, r.gaps, [b.blocks[c + 1]] + r.dropped)
            else
              var r := Pass(Advance(b, i), i, limit);
              all == if c == EMPTY_CURSOR || Consecutive(b.blocks[c], b.blocks[c + 1]) then r
                     else Checked(r.buffer, [GapBetween(b.blocks[c], b.blocks[c + 1])] + r.gaps, r.dropped)
  {
    var c := b.cursors[i];
    if 0 <= c && c + 1 < |b.blocks| {
      assert Remove(Advance(b, i), c + 1).cursors == Remove(b, c + 1).cursors;
    }
  }

  /** The passes from i on; each looks `delay` further than the one before. */
  function Check(b: Buffer, i: nat, limit: int, delay: int): (r: Checked)
    requires WellFormed(b) && i <= |b.cursors|
    ensures WellFormed(r.buffer) && |r.buffer.cursors| == |b.cursors|
    decreases |b.cursors| - i
  {
    if i == |b.cursors| then Checked(b, [], []) else
      var r := Pass(b, i, limit);
      var s := Check(r.buffer, i + 1, limit + delay, delay);
      Checked(s.buffer, r.gaps + s.gaps, r.dropped + s.dropped)
  }

  // ---------------------------------------------------------------------------------------------
  // Order
  // ---------------------------------------------------------------------------------------------

  /** Half of the sequence number circle. */
  const HALF := POW2_16 / 2

  predicate Ordered(blocks: seq<Packet>) {
    forall i, j :: 0 <= i < j < |blocks| ==> blocks[i].Ext() <= blocks[j].Ext()
  }

  /** Every buffered number is less than half of the circle away from x. */
  predicate Near(blocks: seq<Packet>, x: int) {
    forall i :: 0 <= i < |blocks| ==> -HALF < blocks[i].Ext() - x < HALF
  }

  predicate Window(blocks: seq<Packet>) {
    forall i, j :: 0 <= i < |blocks| && 0 <= j < |blocks| ==> -HALF < blocks[i].Ext() - blocks[j].Ext() < HALF
  }

  /** In a half-space window the scan stops right after the last block that is not newer: stable insertion. */
  lemma {:induction false} InsertAtSplits(blocks: seq<Packet>, x: int)
    requires Ordered(blocks) && Near(blocks, x)
    ensures var k := InsertAt(blocks, x % POW2_16);
            && (forall i :: 0 <= i < k ==> blocks[i].Ext() <= x)
            && (forall i :: k <= i < |blocks| ==> x < blocks[i].Ext())
    decreases |blocks|
  {
    if blocks != [] {
      var last := blocks[|blocks| - 1];
      NewerIsAhead(last.Ext(), x);
      if Newer(last.Seqnum(), x % POW2_16) {
        InsertAtSplits(blocks[..|blocks| - 1], x);
      }
    }
  }

  /** The place of a block of extended number x: after everything up to x, before everything above it. */
  predicate SplitsAt(blocks: seq<Packet>, k: nat, x: int) {
    && k <= |blocks|
    && (forall i :: 0 <= i < k ==> blocks[i].Ext() <= x)
    && (forall i :: k <= i < |blocks| ==> x < blocks[i].Ext())
  }

  lemma SpliceMultiset(blocks: seq<Packet>, k: nat, p: Packet)
    requires k <= |blocks|
    ensures multiset(Splice(blocks, k, p)) == multiset(blocks) + multiset{p}
  {
    assert blocks == blocks[..k] + blocks[k..];
  }

  lemma SpliceOrdered(blocks: seq<Packet>, k: nat, p: Packet)
    requires Ordered(blocks) && SplitsAt(blocks, k, p.Ext())
    ensures Ordered(Splice(blocks, k, p))
  {
    var r := Splice(blocks, k, p);
    forall i, j | 0 <= i < j < |r| ensures r[i].Ext() <= r[j].Ext() {
      var i' := if i < k then i else i - 1;
      var j' := if j < k then j else j - 1;
      assert i != k && j != k ==> r[i] == blocks[i'] && r[j] == blocks[j'];
    }
  }

  lemma SpliceWindow(blocks: seq<Packet>, k: nat, p: Packet)
    requires Window(blocks) && Near(blocks, p.Ext()) && k <= |blocks|
    ensures Window(Splice(blocks, k, p))
  {
    var r := Splice(blocks, k, p);
    forall i, j | 0 <= i < |r| && 0 <= j < |r| ensures -HALF < r[i].Ext() - r[j].Ext() < HALF {
      assert i == k || r[i] in blocks;
      assert j == k || r[j] in blocks;
    }
  }

  /**
    In a half-space window, insertion keeps the buffer sorted by extended number, adds exactly the new
    block, and puts it after its equals.
   */
  lemma InsertKeepsOrder(b: Buffer, p: Packet)
    requires Ordered(b.blocks) && Window(b.blocks) && Near(b.blocks, p.Ext())
    ensures Ordered(Insert(b, p).blocks) && Window(Insert(b, p).blocks)
    ensures multiset(Insert(b, p).blocks) == multiset(b.blocks) + multiset{p}
    ensures exists k: nat ::
              SplitsAt(b.blocks, k, p.Ext()) && Insert(b, p).blocks == b.blocks[..k] + [p] + b.blocks[k..]
  {
    InsertAtSplits(b.blocks, p.Ext());
    var k := InsertAt(b.blocks, p.Seqnum());
    SpliceMultiset(b.blocks, k, p);
    SpliceOrdered(b.blocks, k, p);
    SpliceWindow(b.blocks, k, p);
  }

  /** A cursor of one buffer designates the same block in another, or is null in both. */
  predicate SameTarget(b: Buffer, r: Buffer, i: nat)
    requires WellFormed(b) && WellFormed(r) && i < |b.cursors| == |r.cursors|
  {
    (b.cursors[i] == EMPTY_CURSOR <==> r.cursors[i] == EMPTY_CURSOR)
    && (b.cursors[i] != EMPTY_CURSOR ==> r.blocks[r.cursors[i]] == b.blocks[b.cursors[i]])
  }

  /** Without any window, insertion still adds exactly the new block and moves no cursor to another block. */
  lemma InsertKeepsCursors(b: Buffer, p: Packet)
    requires WellFormed(b)
    ensures WellFormed(Insert(b, p)) && |Insert(b, p).cursors| == |b.cursors|
    ensures multiset(Insert(b, p).blocks) == multiset(b.blocks) + multiset{p}
    ensures forall i :: 0 <= i < |b.cursors| ==> SameTarget(b, Insert(b, p), i)
  {
    SpliceMultiset(b.blocks, InsertAt(b.blocks, p.Seqnum()), p);
  }

  /** Sending the head resets the cursors on it, and moves no other cursor to another block. */
  lemma PopKeepsCursors(b: Buffer)
    requires WellFormed(b) && b.blocks != []
    ensures WellFormed(Pop(b)) && |Pop(b).cursors| == |b.cursors|
    ensures forall i :: 0 <= i < |b.cursors| ==>
              if b.cursors[i] == 0 then Pop(b).cursors[i] == EMPTY_CURSOR else SameTarget(b, Pop(b), i)
  {
  }

  /** Dropping a block moves the cursors on it to its predecessor, and no other cursor to another block. */
  lemma RemoveKeepsCursors(b: Buffer, k: nat)
    requires WellFormed(b) && 0 < k < |b.blocks|
    ensures WellFormed(Remove(b, k)) && |Remove(b, k).cursors| == |b.cursors|
    ensures forall i :: 0 <= i < |b.cursors| ==>
              if b.cursors[i] == k
              then Remove(b, k).cursors[i] == k - 1 && Remove(b, k).blocks[k - 1] == b.blocks[k - 1]
              else SameTarget(b, Remove(b, k), i)
  {
  }

  // ---------------------------------------------------------------------------------------------
  // What one pass does
  // ---------------------------------------------------------------------------------------------

  /** The blocks that a pass has walked over: from its starting cursor, or from the head, to its final cursor. */
  function Walked(b: Buffer, r: Buffer, i: nat): seq<Packet>
    requires WellFormed(b) && WellFormed(r) && i < |b.cursors| == |r.cursors|
    requires b.cursors[i] <= r.cursors[i]
  {
    r.blocks[if b.cursors[i] == EMPTY_CURSOR then 0 else b.cursors[i] .. r.cursors[i] + 1]
  }

  predicate NoAdjacentEqual(blocks: seq<Packet>) {
    forall k {:trigger blocks[k]} :: 0 < k < |blocks| ==> blocks[k].Seqnum() != blocks[k - 1].Seqnum()
  }

  /** The gaps between the neighbours of a list, in order. */
  function GapsOf(blocks: seq<Packet>): seq<Gap>
    decreases |blocks|
  {
    if |blocks| < 2 then []
    else if Consecutive(blocks[0], blocks[1]) then GapsOf(blocks[1..])
    else [GapBetween(blocks[0], blocks[1])] + GapsOf(blocks[1..])
  }

  /** The next block after cursor i is absent or dated after the limit. */
  predicate Exhausted(b: Buffer, i: nat, limit: int)
    requires WellFormed(b) && i < |b.cursors|
  {
    b.cursors[i] + 1 < |b.blocks| ==> b.blocks[b.cursors[i] + 1].date > limit
  }

  /**
    A pass only ever goes forward, leaves the list up to its starting cursor alone, and stops at a block that is not
    due.
   */
  lemma {:induction false} PassAdvances(b: Buffer, i: nat, limit: int)
    requires WellFormed(b) && i < |b.cursors|
    ensures var r := Pass(b, i, limit).buffer;
            && b.cursors[i] <= r.cursors[i]
            && (forall k :: 0 <= k <= b.cursors[i] ==> r.blocks[k] == b.blocks[k])
            && Exhausted(r, i, limit)
    decreases |b.blocks| - b.cursors[i]
  {
    hide Consecutive, GapBetween, Without;
    var c := b.cursors[i];
    if c + 1 < |b.blocks| && b.blocks[c + 1].date <= limit {
      if c != EMPTY_CURSOR && b.blocks[c + 1].Seqnum() == b.blocks[c].Seqnum() {
        PassAdvances(Remove(b, c + 1), i, limit);
      } else {
        PassAdvances(Advance(b, i), i, limit);
      }
    }
  }

  /** The blocks behind one place, up to another, are dated up to a limit. */
  predicate DueBetween(blocks: seq<Packet>, a: int, b: int, limit: int)
    requires -1 <= a && b < |blocks|
  {
    forall k :: a < k <= b ==> blocks[k].date <= limit
  }

  /** Every block that a pass goes over is due. */
  lemma {:induction false} PassIsDue(b: Buffer, i: nat, limit: int)
    requires WellFormed(b) && i < |b.cursors|
    ensures DueBetween(Pass(b, i, limit).buffer.blocks, b.cursors[i], Pass(b, i, limit).buffer.cursors[i], limit)
    decreases |b.blocks| - b.cursors[i]
  {
    hide Consecutive, GapBetween, Without, Exhausted;
    var c := b.cursors[i];
    PassAdvances(b, i, limit);
    if c + 1 < |b.blocks| && b.blocks[c + 1].date <= limit {
      if c != EMPTY_CURSOR && b.blocks[c + 1].Seqnum() == b.blocks[c].Seqnum() {
        var a := Remove(b, c + 1);
        PassIsDue(a, i, limit);
        assert a.cursors[i] == c && Pass(b, i, limit).buffer == Pass(a, i, limit).buffer;
      } else {
        PassAdvances(Advance(b, i), i, limit);
        PassIsDue(Advance(b, i), i, limit);
      }
    }
  }

  /**
    A pass leaves no two neighbours of equal number in what it walked, and reports exactly the gaps
    between the neighbours that it walked.
   */
  lemma {:induction false} PassWalks(b: Buffer, i: nat, limit: int)
    requires WellFormed(b) && i < |b.cursors|
    ensures b.cursors[i] <= Pass(b, i, limit).buffer.cursors[i]
    ensures NoAdjacentEqual(Walked(b, Pass(b, i, limit).buffer, i))
    ensures Pass(b, i, limit).gaps == GapsOf(Walked(b, Pass(b, i, limit).buffer, i))
    decreases |b.blocks| - b.cursors[i]
  {
    hide NoAdjacentEqual, GapsOf, Consecutive, GapBetween, Exhausted;
    PassAdvances(b, i, limit);
    var c := b.cursors[i];
    var r := Pass(b, i, limit);
    var w := Walked(b, r.buffer, i);
    if c + 1 == |b.blocks| || b.blocks[c + 1].date > limit {
      ShortWalk(w);
    } else if c == EMPTY_CURSOR {
      PassWalks(Advance(b, i), i, limit);
    } else if b.blocks[c + 1].Seqnum() == b.blocks[c].Seqnum() {
      PassWalks(Remove(b, c + 1), i, limit);
    } else {
      var a := Advance(b, i);
      PassWalks(a, i, limit);
      PassAdvances(a, i, limit);
      assert r.buffer == Pass(a, i, limit).buffer;
      WalkTail(b, a, r.buffer, i);
      LongWalk(w);
    }
  }

  /** A walk that starts one block later is the rest of the walk. */
  lemma WalkTail(b: Buffer, a: Buffer, r: Buffer, i: nat)
    requires WellFormed(b) && WellFormed(r) && i < |b.cursors| == |r.cursors| && b.cursors[i] >= 0
    requires a == Advance(b, i) && WellFormed(a) && a.cursors[i] <= r.cursors[i]
    requires forall k :: 0 <= k <= a.cursors[i] ==> r.blocks[k] == b.blocks[k]
    ensures var w := Walked(b, r, i);
            |w| > 1 && w[0] == b.blocks[b.cursors[i]] && w[1] == b.blocks[b.cursors[i] + 1] && w[1..] == Walked(a, r, i)
  {
  }

  lemma ShortWalk(w: seq<Packet>)
    requires |w| <= 1
    ensures NoAdjacentEqual(w) && GapsOf(w) == []
  {
  }

  lemma LongWalk(w: seq<Packet>)
    requires |w| > 1 && NoAdjacentEqual(w[1..]) && w[0].Seqnum() != w[1].Seqnum()
    ensures NoAdjacentEqual(w)
    ensures GapsOf(w) == if Consecutive(w[0], w[1]) then GapsOf(w[1..]) else [GapBetween(w[0], w[1])] + GapsOf(w[1..])
  {
    forall k {:trigger w[k]} | 0 < k < |w| ensures w[k].Seqnum() != w[k - 1].Seqnum() {
      if k > 1 {
        assert w[1..][k - 1] == w[k];
      }
    }
  }

  // ---------------------------------------------------------------------------------------------
  // What a check keeps
  // ---------------------------------------------------------------------------------------------

  predicate Holds(blocks: seq<Packet>, seqnum: U16) {
    exists k :: 0 <= k < |blocks| && blocks[k].Seqnum() == seqnum
  }

  /** Every sequence number of one list is in the other. */
  predicate HoldsAll(blocks: seq<Packet>, others: seq<Packet>) {
    forall k :: 0 <= k < |others| ==> Holds(blocks, others[k].Seqnum())
  }

  lemma WithoutOrdered(blocks: seq<Packet>, k: nat)
    requires k < |blocks| && Ordered(blocks)
    ensures Ordered(Without(blocks, k))
  {
    var r := Without(blocks, k);
    forall i, j | 0 <= i < j < |r| ensures r[i].Ext() <= r[j].Ext() {
      assert r[i] == blocks[if i < k then i else i + 1];
      assert r[j] == blocks[if j < k then j else j + 1];
    }
  }

  lemma WithoutWindow(blocks: seq<Packet>, k: nat)
    requires k < |blocks| && Window(blocks)
    ensures Window(Without(blocks, k))
  {
    var r := Without(blocks, k);
    forall i, j | 0 <= i < |r| && 0 <= j < |r| ensures -HALF < r[i].Ext() - r[j].Ext() < HALF {
      assert r[i] in blocks && r[j] in blocks;
    }
  }

  lemma WithoutHolds(blocks: seq<Packet>, k: nat)
    requires 0 < k < |blocks| && blocks[k].Seqnum() == blocks[k - 1].Seqnum()
    ensures HoldsAll(Without(blocks, k), blocks)
  {
    var r := Without(blocks, k);
    forall j | 0 <= j < |blocks| ensures Holds(r, blocks[j].Seqnum()) {
      assert r[if j < k then j else j - 1].Seqnum() == blocks[j].Seqnum();
    }
  }

  lemma WithoutMultiset(blocks: seq<Packet>, k: nat)
    requires k < |blocks|
    ensures multiset(blocks) == multiset(Without(blocks, k)) + multiset{blocks[k]}
  {
    assert blocks == blocks[..k] + [blocks[k]] + blocks[k + 1..];
  }

  lemma HoldsAllTransitive(a: seq<Packet>, b: seq<Packet>, c: seq<Packet>)
    requires HoldsAll(a, b) && HoldsAll(b, c)
    ensures HoldsAll(a, c)
  {
  }

  /** Keeping some blocks of a list and dropping others loses no sequence number, and accounts for every block. */
  predicate Keeps(blocks: seq<Packet>, kept: seq<Packet>, dropped: seq<Packet>) {
    && multiset(blocks) == multiset(kept) + multiset(dropped)
    && HoldsAll(kept, blocks)
    && (Ordered(blocks) ==> Ordered(kept))
    && (Window(blocks) ==> Window(kept))
  }

  lemma KeepsItself(blocks: seq<Packet>)
    ensures Keeps(blocks, blocks, [])
  {
  }

  lemma KeepsTransitive(blocks: seq<Packet>, kept: seq<Packet>, dropped: seq<Packet>,
                        last: seq<Packet>, more: seq<Packet>)
    requires Keeps(blocks, kept, dropped) && Keeps(kept, last, more)
    ensures Keeps(blocks, last, dropped + more)
  {
    HoldsAllTransitive(last, kept, blocks);
  }

  /** Dropping one block that repeats its predecessor's number. */
  lemma WithoutKeeps(blocks: seq<Packet>, k: nat)
    requires 0 < k < |blocks| && blocks[k].Seqnum() == blocks[k - 1].Seqnum()
    ensures Keeps(blocks, Without(blocks, k), [blocks[k]])
  {
    WithoutMultiset(blocks, k);
    WithoutHolds(blocks, k);
    if Ordered(blocks) { WithoutOrdered(blocks, k); }
    if Window(blocks) { WithoutWindow(blocks, k); }
  }

  lemma {:induction false} PassKeeps(b: Buffer, i: nat, limit: int)
    requires WellFormed(b) && i < |b.cursors|
    ensures Keeps(b.blocks, Pass(b, i, limit).buffer.blocks, Pass(b, i, limit).dropped)
    decreases |b.blocks| - b.cursors[i]
  {
    hide Keeps;
    var c := b.cursors[i];
    if c + 1 == |b.blocks| || b.blocks[c + 1].date > limit {
      KeepsItself(b.blocks);
    } else if c != EMPTY_CURSOR && b.blocks[c + 1].Seqnum() == b.blocks[c].Seqnum() {
      var a := Remove(b, c + 1);
      WithoutKeeps(b.blocks, c + 1);
      PassKeeps(a, i, limit);
      var r := Pass(a, i, limit);
      KeepsTransitive(b.blocks, a.blocks, [b.blocks[c + 1]], r.buffer.blocks, r.dropped);
    } else {
      PassKeeps(Advance(b, i), i, limit);
    }
  }

  /** Checking all the cursors drops only blocks whose number another buffered block still holds. */
  lemma {:induction false} CheckKeeps(b: Buffer, i: nat, limit: int, delay: int)
    requires WellFormed(b) && i <= |b.cursors|
    ensures Keeps(b.blocks, Check(b, i, limit, delay).buffer.blocks, Check(b, i, limit, delay).dropped)
    decreases |b.cursors| - i
  {
    hide Keeps;
    if i == |b.cursors| {
      KeepsItself(b.blocks);
    } else {
      PassKeeps(b, i, limit);
      var r := Pass(b, i, limit);
      CheckKeeps(r.buffer, i + 1, limit + delay, delay);
      var s := Check(r.buffer, i + 1, limit + delay, delay);
      KeepsTransitive(b.blocks, r.buffer.blocks, r.dropped, s.buffer.blocks, s.dropped);
    }
  }

  // ---------------------------------------------------------------------------------------------
  // Gaps
  // ---------------------------------------------------------------------------------------------

  /** In a half-space window a reported gap is exactly the run of numbers between two neighbours. */
  lemma GapIsMissing(p: Packet, q: Packet)
    requires 0 < q.Ext() - p.Ext() < HALF
    ensures Consecutive(p, q) <==> q.Ext() == p.Ext() + 1
    ensures GapBetween(p, q) == Gap((p.Ext() + 1) % POW2_16, q.Ext() - p.Ext() - 1)
  {
    var d := q.Ext() - p.Ext() - 1;
    var x := POW2_16 + q.Seqnum() - (p.Seqnum() + 1);
    assert (x - d) % POW2_16 == 0 by {
      assert x - d == (p.Ext() / POW2_16 - q.Ext() / POW2_16 + 1) * POW2_16;
    }
  }

  function Run(first: int, num: nat): (s: seq<U16>)
    ensures |s| == num
  {
    seq(num, k => (first + k) % POW2_16)
  }

  /** The numbers of the walked blocks, with the reported gaps filled in where the walk reported them. */
  function Fill(blocks: seq<Packet>, gaps: seq<Gap>): seq<U16>
    requires gaps == GapsOf(blocks)
    decreases |blocks|
  {
    if blocks == [] then []
    else if |blocks| == 1 then [blocks[0].Seqnum()]
    else if Consecutive(blocks[0], blocks[1]) then [blocks[0].Seqnum()] + Fill(blocks[1..], gaps)
    else [blocks[0].Seqnum()] + Run(gaps[0].first, gaps[0].num) + Fill(blocks[1..], gaps[1..])
  }

  lemma FillStep(blocks: seq<Packet>)
    requires |blocks| > 1
    ensures var p, q := blocks[0], blocks[1];
            Fill(blocks, GapsOf(blocks))
            == [p.Seqnum()]
            + (if Consecutive(p, q) then [] else Run(GapBetween(p, q).first, GapBetween(p, q).num))
            + Fill(blocks[1..], GapsOf(blocks[1..]))
  {
    var p, q, gaps := blocks[0], blocks[1], GapsOf(blocks);
    if !Consecutive(p, q) {
      assert gaps == [GapBetween(p, q)] + GapsOf(blocks[1..]);
      assert gaps[1..] == GapsOf(blocks[1..]);
    }
  }

  lemma RunStep(first: int, d: nat, m: nat)
    ensures Run(first, 1 + d + m) == [first % POW2_16] + Run(first + 1, d) + Run(first + 1 + d, m)
  {
    RunJoins(first, 1 + d, m);
    RunJoins(first, 1, d);
    assert Run(first, 1) == [first % POW2_16];
  }

  /** In a window, the reported gap spells the numbers strictly between two blocks, and no gap means there are none. */
  lemma GapRun(p: Packet, q: Packet)
    requires 0 < q.Ext() - p.Ext() < HALF
    ensures Run(p.Ext() + 1, q.Ext() - p.Ext() - 1)
         == if Consecutive(p, q) then [] else Run(GapBetween(p, q).first, GapBetween(p, q).num)
  {
    GapIsMissing(p, q);
    RunMod(p.Ext() + 1, q.Ext() - p.Ext() - 1);
  }

  /** Blocks and gaps together run through every number from the first block to the last, once each. */
  lemma {:induction false} FillTiles(blocks: seq<Packet>)
    requires Ordered(blocks) && Window(blocks) && NoAdjacentEqual(blocks) && blocks != []
    ensures Fill(blocks, GapsOf(blocks)) == Run(blocks[0].Ext(), blocks[|blocks| - 1].Ext() - blocks[0].Ext() + 1)
    decreases |blocks|
  {
    hide Consecutive, GapBetween, Ordered, Window, NoAdjacentEqual;
    if |blocks| > 1 {
      var p, q, z := blocks[0], blocks[1], blocks[|blocks| - 1];
      FillTilesTail(blocks);
      FillTiles(blocks[1..]);
      FillStep(blocks);
      GapRun(p, q);
      RunStep(p.Ext(), q.Ext() - p.Ext() - 1, z.Ext() - q.Ext() + 1);
    }
  }

  lemma FillTilesTail(blocks: seq<Packet>)
    requires |blocks| > 1
    requires Ordered(blocks) && Window(blocks) && NoAdjacentEqual(blocks)
    ensures Ordered(blocks[1..]) && Window(blocks[1..]) && NoAdjacentEqual(blocks[1..])
    ensures 0 < blocks[1].Ext() - blocks[0].Ext() < HALF
    ensures blocks[1].Ext() <= blocks[|blocks| - 1].Ext()
  {
    NoAdjacentEqualTail(blocks);
    assert blocks[1].Seqnum() != blocks[0].Seqnum();
  }

  lemma RunJoins(first: int, a: nat, b: nat)
    ensures Run(first, a) + Run(first + a, b) == Run(first, a + b)
  {
    var s := Run(first, a) + Run(first + a, b);
    forall k | 0 <= k < a + b ensures s[k] == Run(first, a + b)[k] {
      assert k >= a ==> first + a + (k - a) == first + k;
    }
  }

  lemma NoAdjacentEqualTail(blocks: seq<Packet>)
    requires |blocks| > 1 && NoAdjacentEqual(blocks)
    ensures NoAdjacentEqual(blocks[1..])
  {
    forall k {:trigger blocks[1..][k]} | 0 < k < |blocks[1..]|
      ensures blocks[1..][k].Seqnum() != blocks[1..][k - 1].Seqnum()
    {
      assert blocks[k + 1].Seqnum() != blocks[k].Seqnum();
    }
  }

  lemma RunMod(first: int, num: nat)
    ensures Run(first % POW2_16, num) == Run(first, num)
  {
    forall k | 0 <= k < num ensures Run(first % POW2_16, num)[k] == Run(first, num)[k] {
      assert first + k == first % POW2_16 + k + (first / POW2_16) * POW2_16;
    }
  }

  /**
    A pass that starts from a null cursor on an ordered buffer in a half-space window: what it
    walked, together with the gaps it reported, tiles the interval of numbers from the head to the cursor.
   */
  lemma PassTiles(b: Buffer, i: nat, limit: int)
    requires WellFormed(b) && i < |b.cursors| && b.cursors[i] == EMPTY_CURSOR
    requires Ordered(b.blocks) && Window(b.blocks)
    requires b.blocks != [] && b.blocks[0].date <= limit
    ensures var r := Pass(b, i, limit);
            var c := r.buffer.cursors[i];
            && 0 <= c && r.buffer.blocks[0] == b.blocks[0] && b.blocks[0].Ext() <= r.buffer.blocks[c].Ext()
            && NoAdjacentEqual(r.buffer.blocks[..c + 1])
            && r.gaps == GapsOf(r.buffer.blocks[..c + 1])
            && Fill(r.buffer.blocks[..c + 1], r.gaps)
               == Run(b.blocks[0].Ext(), r.buffer.blocks[c].Ext() - b.blocks[0].Ext() + 1)
  {
    hide Consecutive, GapBetween, NoAdjacentEqual, GapsOf, Fill;
    var r := Pass(b, i, limit);
    var c := r.buffer.cursors[i];
    PassWalks(b, i, limit);
    PassKeeps(b, i, limit);
    PassFromHead(b, i, limit);
    assert Walked(b, r.buffer, i) == r.buffer.blocks[..c + 1];
    FillTiles(r.buffer.blocks[..c + 1]);
  }

  lemma PassFromHead(b: Buffer, i: nat, limit: int)
    requires WellFormed(b) && i < |b.cursors| && b.cursors[i] == EMPTY_CURSOR
    requires b.blocks != [] && b.blocks[0].date <= limit
    ensures 0 <= Pass(b, i, limit).buffer.cursors[i] && Pass(b, i, limit).buffer.blocks[0] == b.blocks[0]
  {
    PassAdvances(Advance(b, i), i, limit);
  }
}
