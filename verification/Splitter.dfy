/** The weighted load balancer of aggregartp.c, and the share of the bytes that each output gets. */
module Splitter {
  import opened Base

  /** The fields of output_t that the balancer uses. */
  datatype Output = Output(weight: nat, weightedSize: nat, remainder: nat)

  /** The number of outputs before the first one of weight 0, where the loops of the balancer stop. */
  function Active(outputs: seq<Output>): (n: nat)
    ensures n <= |outputs|
    ensures forall i :: 0 <= i < n ==> outputs[i].weight >= 1
    ensures n < |outputs| ==> outputs[n].weight == 0
  {
    if outputs == [] || outputs[0].weight == 0 then 0 else 1 + Active(outputs[1..])
  }

  /** The balancer divides by the weight of the first output, so that one must not be 0. */
  predicate Playable(outputs: seq<Output>) {
    outputs != [] && outputs[0].weight >= 1
  }

  /** The first output of least weighted size among the first n. */
  predicate IsLeast(outputs: seq<Output>, n: nat, k: nat) {
    && k < n <= |outputs|
    && (forall i :: 0 <= i < n ==> outputs[k].weightedSize <= outputs[i].weightedSize)
    && (forall i :: 0 <= i < k ==> outputs[k].weightedSize < outputs[i].weightedSize)
  }

  function LeastIndex(outputs: seq<Output>, n: nat): (k: nat)
    requires 1 <= n <= |outputs|
    ensures IsLeast(outputs, n, k)
  {
    if n == 1 then 0 else
      var k := LeastIndex(outputs, n - 1);
      if outputs[n - 1].weightedSize < outputs[k].weightedSize then n - 1 else k
  }

  lemma LeastUnique(outputs: seq<Output>, n: nat, j: nat, k: nat)
    requires IsLeast(outputs, n, j) && IsLeast(outputs, n, k)
    ensures j == k
  {
    assert outputs[j].weightedSize <= outputs[k].weightedSize <= outputs[j].weightedSize;
  }

  /** Every active output gives up the same amount. */
  function Rebase(outputs: seq<Output>, least: nat): (r: seq<Output>)
    requires forall i :: 0 <= i < Active(outputs) ==> least <= outputs[i].weightedSize
    ensures |r| == |outputs|
  {
    seq(|outputs|, i requires 0 <= i < |outputs| =>
      if i < Active(outputs) then outputs[i].(weightedSize := outputs[i].weightedSize - least) else outputs[i])
  }

  function Charge(o: Output, size: nat): Output
    requires o.weight >= 1
  {
    o.(weightedSize := o.weightedSize + (size + o.remainder) / o.weight,
       remainder := (size + o.remainder) % o.weight)
  }

  /** The outputs keep their weights, and so the same ones stay active. */
  lemma {:induction false} ActiveByWeight(a: seq<Output>, b: seq<Output>)
    requires |a| == |b| && forall i :: 0 <= i < |a| ==> a[i].weight == b[i].weight
    ensures Active(a) == Active(b)
    decreases |a|
  {
    if a != [] && a[0].weight != 0 {
      ActiveByWeight(a[1..], b[1..]);
    }
  }

  // ---------------------------------------------------------------------------------------------
  // Runs
  // ---------------------------------------------------------------------------------------------

  /** A data packet is charged to the output that carries it; a resent one picks an output and is not charged. */
  datatype Event = Data(size: nat) | Resend

  /** The outputs, the bytes charged to each, and the total of the minima taken off so far. */
  datatype Ledger = Ledger(outputs: seq<Output>, charged: seq<nat>, base: nat)

  /** What one event does to the outputs, as NextOutput and SendData do it, and to the account of the bytes. */
  function Step(l: Ledger, e: Event): (r: Ledger)
    requires Playable(l.outputs) && |l.charged| == |l.outputs|
    ensures Playable(r.outputs) && |r.charged| == |r.outputs| == |l.outputs|
    ensures forall i :: 0 <= i < |l.outputs| ==> r.outputs[i].weight == l.outputs[i].weight
  {
    var k := LeastIndex(l.outputs, Active(l.outputs));
    var least := l.outputs[k].weightedSize;
    var rebased := Rebase(l.outputs, least);
    match e
    case Data(size) =>
      Ledger(rebased[k := Charge(rebased[k], size)], l.charged[k := l.charged[k] + size], l.base + least)
    case Resend =>
      Ledger(rebased, l.charged, l.base + least)
  }

  /**
    Picks the output for the next packet, and takes the least weighted size off every active output.
    The ledger is the account of the run so far.
   */
  method NextOutput(outputs: array<Output>, ghost l: Ledger) returns (k: nat)
    requires Playable(outputs[..]) && l.outputs == outputs[..] && |l.charged| == outputs.Length
    modifies outputs
    ensures IsLeast(l.outputs, Active(l.outputs), k) && k == LeastIndex(l.outputs, Active(l.outputs))
    ensures outputs[..] == Step(l, Resend).outputs
  {
    hide LeastIndex, Active;
    ghost var n := Active(l.outputs);
    var min := outputs[0].weightedSize;
    k := 0;
    var i := 1;
    while i < outputs.Length && outputs[i].weight != 0
      invariant 1 <= i <= n && IsLeast(l.outputs, i, k) && min == l.outputs[k].weightedSize
    {
      if outputs[i].weightedSize < min {
        min := outputs[i].weightedSize;
        k := i;
      }
      i := i + 1;
    }
    LeastUnique(l.outputs, n, k, LeastIndex(l.outputs, n));
    i := 0;
    while i < outputs.Length && outputs[i].weight != 0
      invariant 0 <= i <= n
      invariant forall j :: 0 <= j < i ==> outputs[j] == l.outputs[j].(weightedSize := l.outputs[j].weightedSize - min)
      invariant forall j :: i <= j < outputs.Length ==> outputs[j] == l.outputs[j]
    {
      outputs[i] := outputs[i].(weightedSize := outputs[i].weightedSize - min);
      i := i + 1;
    }
  }

  /** Picks the output for a packet and charges it. */
  method SendData(outputs: array<Output>, size: nat, ghost l: Ledger) returns (k: nat)
    requires Playable(outputs[..]) && l.outputs == outputs[..] && |l.charged| == outputs.Length
    modifies outputs
    ensures IsLeast(l.outputs, Active(l.outputs), k) && k == LeastIndex(l.outputs, Active(l.outputs))
    ensures outputs[..] == Step(l, Data(size)).outputs
  {
    hide LeastIndex, Active, Rebase, Charge;
    k := NextOutput(outputs, l);
    ghost var rebased := outputs[..];
    outputs[k] := Charge(outputs[k], size);
    assert outputs[..] == rebased[k := Charge(rebased[k], size)];
  }

  function Run(l: Ledger, events: seq<Event>): (r: Ledger)
    requires Playable(l.outputs) && |l.charged| == |l.outputs|
    ensures Playable(r.outputs) && |r.charged| == |r.outputs| == |l.outputs|
    ensures forall i :: 0 <= i < |l.outputs| ==> r.outputs[i].weight == l.outputs[i].weight
    decreases |events|
  {
    if events == [] then l else Run(Step(l, events[0]), events[1..])
  }

  /**
    What one active output was charged, against its weight, its debt and the common base; its debt stays below one
    packet.
   */
  predicate Settled(o: Output, charged: nat, base: nat, maxSize: nat) {
    && o.remainder < o.weight
    && charged == o.weight * (o.weightedSize + base) + o.remainder
    && o.weight * o.weightedSize + o.remainder <= maxSize + o.weight - 1
  }

  predicate Fair(l: Ledger, maxSize: nat) {
    && Playable(l.outputs) && |l.charged| == |l.outputs|
    && (forall i :: 0 <= i < Active(l.outputs) ==> Settled(l.outputs[i], l.charged[i], l.base, maxSize))
    && (forall i :: Active(l.outputs) <= i < |l.outputs| ==> l.charged[i] == 0)
  }

  lemma RebaseSettled(o: Output, charged: nat, base: nat, maxSize: nat, least: nat)
    requires Settled(o, charged, base, maxSize) && least <= o.weightedSize
    ensures Settled(o.(weightedSize := o.weightedSize - least), charged, base + least, maxSize)
  {
    MulMonotone(o.weightedSize - least, o.weightedSize, o.weight);
    assert (o.weightedSize - least) * o.weight == o.weight * (o.weightedSize - least);
    assert o.weightedSize - least + (base + least) == o.weightedSize + base;
  }

  lemma ChargeSettled(o: Output, charged: nat, base: nat, maxSize: nat, size: nat)
    requires Settled(o, charged, base, maxSize) && o.weightedSize == 0 && size <= maxSize && o.weight >= 1
    ensures Settled(Charge(o, size), charged + size, base, maxSize)
  {
    var q, r := (size + o.remainder) / o.weight, (size + o.remainder) % o.weight;
    assert o.weight * q + r == size + o.remainder;
    assert o.weight * (q + base) == o.weight * q + o.weight * base;
    assert o.weight * (0 + base) == o.weight * base;
  }

  lemma StepFair(l: Ledger, e: Event, maxSize: nat)
    requires Fair(l, maxSize) && (e.Data? ==> e.size <= maxSize)
    ensures Fair(Step(l, e), maxSize)
  {
    hide Settled, Charge;
    var n := Active(l.outputs);
    var k := LeastIndex(l.outputs, n);
    var least := l.outputs[k].weightedSize;
    var r := Step(l, e);
    ActiveByWeight(l.outputs, r.outputs);
    forall i | 0 <= i < n ensures Settled(r.outputs[i], r.charged[i], r.base, maxSize) {
      RebaseSettled(l.outputs[i], l.charged[i], l.base, maxSize, least);
      if e.Data? && i == k {
        ChargeSettled(Rebase(l.outputs, least)[k], l.charged[k], l.base + least, maxSize, e.size);
      }
    }
  }

  /** The invariant of the balancer over every run, resends included. */
  lemma {:induction false} RunFair(l: Ledger, events: seq<Event>, maxSize: nat)
    requires Fair(l, maxSize)
    requires forall e :: e in events && e.Data? ==> e.size <= maxSize
    ensures Fair(Run(l, events), maxSize)
    decreases |events|
  {
    hide Fair, Step;
    if events != [] {
      assert Playable(l.outputs) && |l.charged| == |l.outputs| by { FairPlayable(l, maxSize); }
      StepFair(l, events[0], maxSize);
      assert forall e :: e in events[1..] ==> e in events;
      RunFair(Step(l, events[0]), events[1..], maxSize);
    }
  }

  lemma FairPlayable(l: Ledger, maxSize: nat)
    requires Fair(l, maxSize)
    ensures Playable(l.outputs) && |l.charged| == |l.outputs|
  {
  }

  function Start(weights: seq<nat>): (l: Ledger)
    ensures |l.outputs| == |l.charged| == |weights|
    ensures forall i :: 0 <= i < |weights| ==> l.outputs[i].weight == weights[i]
  {
    Ledger(seq(|weights|, i requires 0 <= i < |weights| => Output(weights[i], 0, 0)), seq(|weights|, _ => 0), 0)
  }

  lemma StartFair(weights: seq<nat>, maxSize: nat)
    requires weights != [] && weights[0] >= 1
    ensures Fair(Start(weights), maxSize)
  {
  }

  lemma SettledBounds(o: Output, charged: nat, base: nat, maxSize: nat)
    requires Settled(o, charged, base, maxSize)
    ensures base * o.weight <= charged <= base * o.weight + maxSize + o.weight - 1
    ensures o.weightedSize <= maxSize && o.remainder < o.weight
  {
    assert o.weight * (o.weightedSize + base) == o.weight * o.weightedSize + base * o.weight;
    if o.weightedSize > maxSize {
      MulMonotone(maxSize + 1, o.weightedSize, o.weight);
      MulMonotone(1, o.weight, maxSize);
    }
  }

  /**
    Byte fairness: whatever packets up to maxSize bytes are sent from the start, every active output
    carries its weight times a common total, up to one packet more. A debt never exceeds one packet,
    so the 32-bit fields do not wrap.
   */
  lemma ShareOfBytes(weights: seq<nat>, events: seq<Event>, maxSize: nat, j: nat)
    requires weights != [] && weights[0] >= 1
    requires forall e :: e in events && e.Data? ==> e.size <= maxSize
    requires j < Active(Start(weights).outputs)
    ensures var r := Run(Start(weights), events);
            && r.base * weights[j] <= r.charged[j] <= r.base * weights[j] + maxSize + weights[j] - 1
            && r.outputs[j].weightedSize <= maxSize && r.outputs[j].remainder < weights[j]
  {
    hide Settled, Run;
    var l := Start(weights);
    StartFair(weights, maxSize);
    RunFair(l, events, maxSize);
    var r := Run(l, events);
    ActiveByWeight(l.outputs, r.outputs);
    SettledBounds(r.outputs[j], r.charged[j], r.base, maxSize);
  }

  lemma CrossWeights(ci: int, cj: int, wi: nat, wj: nat, base: nat, slack: int)
    requires ci <= base * wi + slack && base * wj <= cj
    ensures ci * wj - cj * wi <= wj * slack
  {
    MulMonotone(ci, base * wi + slack, wj);
    MulMonotone(base * wj, cj, wi);
    assert (base * wi + slack) * wj == base * wi * wj + wj * slack;
    assert base * wj * wi == base * wi * wj;
  }

  /** Two active outputs stay within one packet of each other, each counted in the other's weight. */
  lemma PairwiseShare(weights: seq<nat>, events: seq<Event>, maxSize: nat, i: nat, j: nat)
    requires weights != [] && weights[0] >= 1
    requires forall e :: e in events && e.Data? ==> e.size <= maxSize
    requires i < Active(Start(weights).outputs) && j < Active(Start(weights).outputs)
    ensures var r := Run(Start(weights), events);
            r.charged[i] * weights[j] - r.charged[j] * weights[i] <= weights[j] * (maxSize + weights[i] - 1)
  {
    hide Run;
    ShareOfBytes(weights, events, maxSize, i);
    ShareOfBytes(weights, events, maxSize, j);
    var r := Run(Start(weights), events);
    CrossWeights(r.charged[i], r.charged[j], weights[i], weights[j], r.base, maxSize + weights[i] - 1);
  }

  function Total(charged: seq<nat>): nat {
    if charged == [] then 0 else charged[0] + Total(charged[1..])
  }

  function DataBytes(events: seq<Event>): nat {
    if events == [] then 0 else (if events[0].Data? then events[0].size else 0) + DataBytes(events[1..])
  }

  lemma {:induction false} TotalUpdate(charged: seq<nat>, k: nat, size: nat)
    requires k < |charged|
    ensures Total(charged[k := charged[k] + size]) == Total(charged) + size
    decreases |charged|
  {
    if k > 0 {
      TotalUpdate(charged[1..], k - 1, size);
      assert charged[k := charged[k] + size][1..] == charged[1..][k - 1 := charged[k] + size];
    } else {
      assert charged[0 := charged[0] + size][1..] == charged[1..];
    }
  }

  lemma StepBytes(l: Ledger, e: Event)
    requires Playable(l.outputs) && |l.charged| == |l.outputs|
    ensures Total(Step(l, e).charged) == Total(l.charged) + (if e.Data? then e.size else 0)
  {
    hide Rebase, Charge, Total;
    if e.Data? {
      TotalUpdate(l.charged, LeastIndex(l.outputs, Active(l.outputs)), e.size);
    }
  }

  /** Every data byte is charged to exactly one output. */
  lemma {:induction false} BytesConserved(l: Ledger, events: seq<Event>)
    requires Playable(l.outputs) && |l.charged| == |l.outputs|
    ensures Total(Run(l, events).charged) == Total(l.charged) + DataBytes(events)
    decreases |events|
  {
    hide Step;
    if events != [] {
      StepBytes(l, events[0]);
      BytesConserved(Step(l, events[0]), events[1..]);
    }
  }
}
