/**
  ingests.c: dating the payloads of a transport stream by its program clock references (section
  2.4.3.5 of ISO/IEC 13818-1), which count at 27 MHz modulo 2^33 * 300.
 */
module Ingests {
  import opened Base
  import opened Codec
  import opened AuxFile

  const PCR_WRAP := 0x2_0000_0000 * 300
  const MAX_PCR_GAP := 500 * 27000

  /** A clock reference as a packet carries it, with an extension below 300. */
  type Pcr = x: int | 0 <= x < PCR_WRAP

  /** The static variables of the program, and the dates written so far. Before the first PCR, lastPcr is PCR_WRAP. */
  datatype State = State(
    init: bool,
    tsSinceOutput: int,
    lastPcr: int,
    lastPcrDiff: int,
    lastNbPayloads: int,
    lastStc: int,
    dates: seq<int>)

  const INITIAL := State(true, 0, PCR_WRAP, 0, 0, 0, [])

  // ---------------------------------------------------------------------------------------------
  // Steps
  // ---------------------------------------------------------------------------------------------

  /** Payload i of nb gets the date at the end of its share of the duration. */
  function ShareDate(base: int, nb: nat, duration: int, i: nat): int
    requires i < nb
  {
    base + duration * (i + 1) / nb
  }

  function ShareDates(base: int, nb: nat, duration: int): (r: seq<int>)
    ensures |r| == nb
  {
    seq(nb, i requires 0 <= i < nb => ShareDate(base, nb, duration, i))
  }

  function WriteDates(s: State, nb: nat, duration: int): State {
    s.(dates := s.dates + ShareDates(s.lastStc, nb, duration), lastStc := s.lastStc + duration)
  }

  /** Dates what has come since the last output; the first time, the lead-in before it as well. */
  function DateBatch(s: State, n: nat): State
    requires n >= 1 && s.lastNbPayloads >= 0
  {
    if s.tsSinceOutput <= 0 then s else
      var nb := CeilDiv(s.tsSinceOutput, n);
      DivMonotone(n, s.tsSinceOutput + n - 1, n);
      var t :=
        if s.init then WriteDates(s, s.lastNbPayloads, s.lastPcrDiff * s.lastNbPayloads / nb).(init := false) else s;
      WriteDates(t, nb, s.lastPcrDiff).(tsSinceOutput := s.tsSinceOutput - nb * n, lastNbPayloads := nb)
  }

  /** The first PCR: what came before it will be dated once a duration is known. */
  function DeferLeadIn(s: State, n: nat): State
    requires n >= 1
  {
    var nb := CeilDiv(s.tsSinceOutput, n);
    s.(lastNbPayloads := nb, tsSinceOutput := s.tsSinceOutput - nb * n)
  }

  /** The time between two PCRs, unless the program takes them for a discontinuity. */
  function PcrDiff(last: Pcr, pcr: Pcr): Option<int> {
    if PCR_WRAP + pcr - last < MAX_PCR_GAP then Some(PCR_WRAP + pcr - last)
    else if pcr < last || pcr - last > MAX_PCR_GAP then None
    else Some(pcr - last)
  }

  /** The step that the program goes by from a PCR on. */
  function NextDiff(s: State, x: Pcr): int
    requires 0 <= s.lastPcr < PCR_WRAP
  {
    match PcrDiff(s.lastPcr, x) case Some(d) => d case None => s.lastPcrDiff
  }

  /** One packet of the stream, with the PCR it carries, if any. */
  function Handle(s: State, n: nat, pcr: Option<Pcr>): State
    requires n >= 1 && s.lastNbPayloads >= 0 && 0 <= s.lastPcr <= PCR_WRAP
  {
    var t := s.(tsSinceOutput := s.tsSinceOutput + 1);
    match pcr
    case None => t
    case Some(x) =>
      if t.lastPcr == PCR_WRAP then DeferLeadIn(t.(lastPcr := x), n)
      else
        DateBatch(t.(lastPcrDiff := NextDiff(t, x), lastPcr := x), n)
  }

  // ---------------------------------------------------------------------------------------------
  // Accounting
  // ---------------------------------------------------------------------------------------------

  /** The payloads of the lead-in that still wait for a date. */
  function Deferred(s: State): int {
    if s.init then s.lastNbPayloads else 0
  }

  /** The dates written so far never go back, and they end at the current date. */
  predicate Dated(s: State) {
    && 0 <= s.lastStc
    && Sorted(s.dates)
    && (forall i :: 0 <= i < |s.dates| ==> 0 <= s.dates[i] <= s.lastStc)
    && (s.dates != [] ==> s.dates[|s.dates| - 1] == s.lastStc)
  }

  /** Every packet handled is in a payload that has its date or waits for it, or is counted as not output yet. */
  predicate Counted(s: State, n: nat, handled: nat) {
    && 0 - n < s.tsSinceOutput
    && (|s.dates| + Deferred(s)) * n + s.tsSinceOutput == handled
  }

  predicate Sound(s: State, n: nat, handled: nat) {
    && n >= 1
    && 0 <= s.lastPcr <= PCR_WRAP && 0 <= s.lastPcrDiff <= MAX_PCR_GAP
    && Dated(s) && Counted(s, n, handled)
    && (s.init ==> s.dates == [] && s.lastStc == 0)
    && (if s.lastPcr == PCR_WRAP then s == INITIAL.(tsSinceOutput := handled) else s.lastNbPayloads >= 1)
  }

  lemma MulDiv(a: int, b: nat)
    requires b >= 1
    ensures a * b / b == a
  {
    DivUnique(a, b, a * b);
  }

  /** Within one output the shares never go back, and the last one takes the whole duration. */
  lemma ShareBounds(base: int, nb: nat, duration: nat, i: nat, j: nat)
    requires i <= j < nb
    ensures base <= ShareDate(base, nb, duration, i) <= ShareDate(base, nb, duration, j) <= base + duration
    ensures j == nb - 1 ==> ShareDate(base, nb, duration, j) == base + duration
  {
    MulMonotone(i + 1, j + 1, duration);
    MulMonotone(j + 1, nb, duration);
    assert duration * (i + 1) == (i + 1) * duration && duration * (j + 1) == (j + 1) * duration;
    assert nb * duration == duration * nb;
    DivMonotone(0, duration * (i + 1), nb);
    DivMonotone(duration * (i + 1), duration * (j + 1), nb);
    DivMonotone(duration * (j + 1), duration * nb, nb);
    MulDiv(duration, nb);
  }

  lemma CancelLe(a: int, b: int, n: nat)
    requires n >= 1 && a * n <= b * n
    ensures a <= b
  {
    if b < a {
      MulMonotone(b + 1, a, n);
    }
  }

  /**
    Constant rate: the lead-in and the rest of the file, nb payloads that share the duration diff * nb / per,
    come within one tick of what a rate of `per` payloads in `diff` gives them.
   */
  lemma ConstantRate(base: int, nb: nat, diff: nat, per: nat, i: nat)
    requires i < nb && per >= 1
    ensures base + diff * (i + 1) / per - 1
         <= ShareDate(base, nb, diff * nb / per, i)
         <= base + diff * (i + 1) / per
  {
    var n := i + 1;
    var d := diff * nb / per;
    var s := d * n / nb;
    var x := diff * n / per;
    Quotient(diff * nb, per);
    Quotient(d * n, nb);
    Quotient(diff * n, per);
    Upper(nb, diff, per, n, d, s, x);
    Lower(nb, diff, per, n, d, s, x);
  }

  lemma Quotient(a: nat, b: nat)
    requires b >= 1
    ensures 0 <= a / b && a / b * b <= a < a / b * b + b
  {
  }

  lemma Upper(nb: nat, diff: nat, per: nat, n: nat, d: nat, s: nat, x: nat)
    requires nb >= 1 && per >= 1
    requires d * per <= diff * nb && s * nb <= d * n && diff * n < x * per + per
    ensures s <= x
  {
    Scaled(s * nb, d * n, per, s, nb, d, n);
    Scaled(d * per, diff * nb, n, d, per, diff, nb);
    Swap(diff, nb, n);
    Swap(d, n, per);
    CancelLe(s * per, diff * n, nb);
    Distribute(x, 1, per);
    CancelFactor(s, x + 1, per);
  }

  /** Products of equal-sided factors, scaled: from a * b <= c * e follows (a * m) * b <= (c * e) * m. */
  lemma Scaled(p: int, q: int, m: nat, a: int, b: int, c: int, e: int)
    requires p == a * b && q == c * e && p <= q
    ensures a * m * b <= c * e * m
  {
    MulMonotone(p, q, m);
    Swap(a, b, m);
  }

  lemma Lower(nb: nat, diff: nat, per: nat, n: nat, d: nat, s: nat, x: nat)
    requires nb >= 1 && per >= 1 && 1 <= n <= nb
    requires diff * nb < d * per + per && d * n < s * nb + nb && x * per <= diff * n
    ensures x <= s + 1
  {
    LowerDuration(nb, diff, per, n, d);
    LowerShare(nb, per, n, d, s);
    MulMonotone(n, nb, per);
    Distribute(s + 1, 1, per);
    Distribute((s + 1) * per, per, nb);
    Swap(1, per, nb);
    CancelFactor(diff * n, (s + 2) * per, nb);
    CancelFactor(x, s + 2, per);
  }

  lemma LowerDuration(nb: nat, diff: nat, per: nat, n: nat, d: nat)
    requires n >= 1 && diff * nb < d * per + per
    ensures diff * n * nb < d * n * per + n * per
  {
    MulMonotone(diff * nb + 1, d * per + per, n);
    Distribute(diff * nb, 1, n);
    Distribute(d * per, per, n);
    Swap(diff, nb, n);
    Swap(d, per, n);
  }

  lemma LowerShare(nb: nat, per: nat, n: nat, d: nat, s: nat)
    requires per >= 1 && d * n < s * nb + nb
    ensures d * n * per < (s + 1) * per * nb
  {
    MulMonotone(d * n + 1, s * nb + nb, per);
    Distribute(d * n, 1, per);
    Distribute(s, 1, nb);
    Swap(s + 1, nb, per);
  }

  lemma Distribute(a: int, b: int, c: int)
    ensures (a + b) * c == a * c + b * c
  {
  }

  lemma Swap(a: int, b: int, c: int)
    ensures a * b * c == a * c * b && b * c == c * b
  {
  }

  lemma SharesDated(base: nat, nb: nat, duration: nat)
    ensures var r := ShareDates(base, nb, duration);
            && Sorted(r)
            && (forall i :: 0 <= i < nb ==> base <= r[i] <= base + duration)
            && (nb > 0 ==> r[nb - 1] == base + duration)
  {
    hide ShareDate;
    var r := ShareDates(base, nb, duration);
    forall i, j | 0 <= i < j < |r| ensures r[i] <= r[j] {
      ShareBounds(base, nb, duration, i, j);
    }
    forall i | 0 <= i < nb ensures base <= r[i] <= base + duration {
      ShareBounds(base, nb, duration, i, i);
    }
    if nb > 0 {
      ShareBounds(base, nb, duration, nb - 1, nb - 1);
    }
  }

  /** Writing a batch of dates keeps them in order. */
  lemma WriteDatesDated(s: State, nb: nat, duration: nat)
    requires Dated(s) && (nb == 0 ==> duration == 0)
    ensures Dated(WriteDates(s, nb, duration))
  {
    hide ShareDates;
    var r := ShareDates(s.lastStc, nb, duration);
    SharesDated(s.lastStc, nb, duration);
    var t := WriteDates(s, nb, duration);
    forall i, j | 0 <= i < j < |t.dates| ensures t.dates[i] <= t.dates[j] {
      assert i < |s.dates| <= j ==> t.dates[i] == s.dates[i] <= s.lastStc <= r[j - |s.dates|] == t.dates[j];
    }
  }

  /** The number of payloads that a packet balance amounts to; a balance that is not positive amounts to none. */
  lemma PayloadCount(ts: int, n: nat)
    requires n >= 1 && 0 - n < ts
    ensures var nb := CeilDiv(ts, n);
            && 0 - n < ts - nb * n <= 0
            && (if ts > 0 then nb >= 1 else nb == 0)
  {
    var nb := CeilDiv(ts, n);
    CeilDivBounds(ts, n);
    assert (nb - 1) * n == nb * n - n;
    if ts > 0 {
      CancelFactor(0, nb, n);
    } else {
      CancelFactor(-1, nb, n);
      CancelFactor(nb - 1, 0, n);
    }
  }

  lemma DateBatchSound(s: State, n: nat, handled: nat)
    requires Sound(s, n, handled) && s.lastPcr != PCR_WRAP
    ensures Sound(DateBatch(s, n), n, handled)
    ensures s.tsSinceOutput > 0 ==> !DateBatch(s, n).init
  {
    hide Dated, ShareDates;
    if s.tsSinceOutput > 0 {
      var nb := CeilDiv(s.tsSinceOutput, n);
      PayloadCount(s.tsSinceOutput, n);
      var t := s;
      if s.init {
        LeadInIsPositive(s.lastPcrDiff, s.lastNbPayloads, nb);
        WriteDatesDated(s, s.lastNbPayloads, s.lastPcrDiff * s.lastNbPayloads / nb);
        t := WriteDates(s, s.lastNbPayloads, s.lastPcrDiff * s.lastNbPayloads / nb);
        InitIsNoDate(t);
        t := t.(init := false);
      }
      WriteDatesDated(t, nb, s.lastPcrDiff);
      var r := WriteDates(t, nb, s.lastPcrDiff);
      assert DateBatch(s, n) == r.(tsSinceOutput := s.tsSinceOutput - nb * n, lastNbPayloads := nb);
      FieldsAreNoDate(r, DateBatch(s, n));
      assert (|t.dates| + nb) * n == |t.dates| * n + nb * n;
      LastStcGrows(t, nb, s.lastPcrDiff);
    }
  }

  lemma LeadInIsPositive(diff: nat, lastNb: nat, nb: nat)
    requires nb >= 1
    ensures 0 <= diff * lastNb / nb
  {
    DivMonotone(0, diff * lastNb, nb);
  }

  lemma InitIsNoDate(s: State)
    requires Dated(s)
    ensures Dated(s.(init := false))
  {
  }

  lemma FieldsAreNoDate(s: State, t: State)
    requires Dated(s) && t.dates == s.dates && t.lastStc == s.lastStc
    ensures Dated(t)
  {
  }

  lemma LastStcGrows(s: State, nb: nat, duration: nat)
    ensures |WriteDates(s, nb, duration).dates| == |s.dates| + nb
  {
  }

  lemma DeferLeadInSound(s: State, n: nat, handled: nat, pcr: Pcr)
    requires n >= 1 && handled >= 1 && s == INITIAL.(tsSinceOutput := handled)
    ensures Sound(DeferLeadIn(s.(lastPcr := pcr), n), n, handled)
    ensures DeferLeadIn(s.(lastPcr := pcr), n).lastNbPayloads == CeilDiv(handled, n)
  {
    PayloadCount(handled, n);
  }

  /** The difference that the program takes is the step modulo the wrap while that is short enough, or else none. */
  lemma PcrDiffExact(last: int, next: int)
    requires 0 <= next - last < PCR_WRAP
    ensures var d := next - last;
            var wraps := next % PCR_WRAP < last % PCR_WRAP;
            PcrDiff(last % PCR_WRAP, next % PCR_WRAP)
            == if d < MAX_PCR_GAP || (d == MAX_PCR_GAP && !wraps) then Some(d) else None
  {
    PcrStep(last, next);
  }

  /** The counter has 33 bits at 90 kHz and counts 300 parts of each; the longest step is 500 ms. */
  lemma StepsInNumbers()
    ensures PcrDiff(2_576_980_377_599, 0) == Some(1) && PcrDiff(2_576_980_377_500, 13_499_899) == Some(13_499_999)
    ensures PcrDiff(0, 13_500_000) == Some(13_500_000) && PcrDiff(0, 13_500_001) == None && PcrDiff(1, 0) == None
  {
  }

  /** A step of the full length is taken when it starts at 0, but not when the counter wraps in it. */
  lemma LongestStepLost()
    ensures PcrDiff(0, MAX_PCR_GAP) == Some(MAX_PCR_GAP)
    ensures PcrDiff(PCR_WRAP - 1, MAX_PCR_GAP - 1) == None
    ensures (MAX_PCR_GAP - 1 - (PCR_WRAP - 1)) % PCR_WRAP == MAX_PCR_GAP
  {
  }

  lemma ShortIsTaken(last: int, next: int)
    requires ShortStep(last, next)
    ensures PcrDiff(last % PCR_WRAP, next % PCR_WRAP) == Some(next - last)
  {
    hide PcrDiff;
    PcrDiffExact(last, next);
  }

  lemma PcrStep(last: int, next: int)
    requires 0 <= next - last < PCR_WRAP
    ensures next % PCR_WRAP - last % PCR_WRAP
         == if next % PCR_WRAP < last % PCR_WRAP then next - last - PCR_WRAP else next - last
  {
    var a, b := last % PCR_WRAP, next % PCR_WRAP;
    var k := next / PCR_WRAP - last / PCR_WRAP;
    assert next - last == b - a + k * PCR_WRAP;
    assert 0 <= k <= 1;
  }

  lemma HandleSound(s: State, n: nat, handled: nat, pcr: Option<Pcr>)
    requires Sound(s, n, handled)
    ensures Sound(Handle(s, n, pcr), n, handled + 1)
  {
    hide Dated;
    var t := s.(tsSinceOutput := s.tsSinceOutput + 1);
    FieldsAreNoDate(s, t);
    match pcr
    case None =>
    case Some(x) =>
      if s.lastPcr == PCR_WRAP {
        DeferLeadInSound(t, n, handled + 1, x);
      } else {
        var u := t.(lastPcrDiff := NextDiff(t, x), lastPcr := x);
        FieldsAreNoDate(t, u);
        DateBatchSound(u, n, handled + 1);
      }
  }

  /** The packets of a stream, one after the other. Every state on the way is sound. */
  function Run(s: State, n: nat, handled: nat, pcrs: seq<Option<Pcr>>): (r: State)
    requires Sound(s, n, handled)
    ensures Sound(r, n, handled + |pcrs|)
    decreases |pcrs|
  {
    if pcrs == [] then s else
      HandleSound(s, n, handled, pcrs[0]);
      Run(Handle(s, n, pcrs[0]), n, handled + 1, pcrs[1..])
  }

  lemma InitiallySound(n: nat)
    requires n >= 1
    ensures Sound(INITIAL, n, 0)
  {
  }

  /** The state at the end of a stream. */
  function RunAll(n: nat, pcrs: seq<Option<Pcr>>): (r: State)
    requires n >= 1
    ensures Sound(r, n, |pcrs|)
  {
    InitiallySound(n);
    Run(INITIAL, n, 0, pcrs)
  }

  /** The end of the file: what is left gets the pace of the last output, unless the last step took no time. */
  function Finish(s: State, n: nat): State
    requires n >= 1 && 0 - n < s.tsSinceOutput && (s.lastPcrDiff != 0 ==> s.lastNbPayloads >= 1)
  {
    if s.lastPcrDiff == 0 then s else
      PayloadCount(s.tsSinceOutput, n);
      var nb := CeilDiv(s.tsSinceOutput, n);
      WriteDates(s, nb, s.lastPcrDiff * nb / s.lastNbPayloads)
  }

  /** The auxiliary file that the program makes of a stream. */
  function Ingested(n: nat, pcrs: seq<Option<Pcr>>): seq<int>
    requires n >= 1
  {
    Finish(RunAll(n, pcrs), n).dates
  }

  // ---------------------------------------------------------------------------------------------
  // The finished file
  // ---------------------------------------------------------------------------------------------

  lemma FinishDated(s: State, n: nat, handled: nat)
    requires Sound(s, n, handled)
    ensures Dated(Finish(s, n))
  {
    hide Dated, WriteDates;
    if s.lastPcrDiff != 0 {
      PayloadCount(s.tsSinceOutput, n);
      var nb := CeilDiv(s.tsSinceOutput, n);
      LeadInIsPositive(s.lastPcrDiff, nb, s.lastNbPayloads);
      if nb == 0 {
        ZeroShare(s.lastPcrDiff, s.lastNbPayloads);
      }
      WriteDatesDated(s, nb, s.lastPcrDiff * nb / s.lastNbPayloads);
    }
  }

  lemma ZeroShare(diff: nat, nb: nat)
    requires nb >= 1
    ensures diff * 0 / nb == 0
  {
  }

  /** The dates of every finished file never go back. */
  lemma IngestedSorted(n: nat, pcrs: seq<Option<Pcr>>)
    requires n >= 1
    ensures Sorted(Ingested(n, pcrs)) && forall i :: 0 <= i < |Ingested(n, pcrs)| ==> 0 <= Ingested(n, pcrs)[i]
  {
    FinishDated(RunAll(n, pcrs), n, |pcrs|);
  }

  // ---------------------------------------------------------------------------------------------
  // The state after a stream, in terms of the stream
  // ---------------------------------------------------------------------------------------------

  /** The number of packets up to the first PCR, which is included; 0 if there is none. */
  function UpToFirst(pcrs: seq<Option<int>>): (k: nat)
    ensures k <= |pcrs| && (k > 0 ==> pcrs[k - 1].Some?)
    ensures forall i :: 0 <= i < |pcrs| && (k > 0 ==> i < k - 1) ==> pcrs[i].None?
    decreases |pcrs|
  {
    if pcrs == [] then 0 else
      var n := |pcrs| - 1;
      var k := UpToFirst(pcrs[..n]);
      if k > 0 then k else if pcrs[n].Some? then n + 1 else 0
  }

  /** The number of packets up to the last PCR, which is included; 0 if there is none. */
  function UpToLast(pcrs: seq<Option<int>>): (k: nat)
    ensures k <= |pcrs| && (k > 0 ==> pcrs[k - 1].Some?)
    ensures forall i :: k <= i < |pcrs| ==> pcrs[i].None?
    decreases |pcrs|
  {
    if pcrs == [] then 0 else
      var n := |pcrs| - 1;
      if pcrs[n].Some? then n + 1 else UpToLast(pcrs[..n])
  }

  /** The last step between two PCRs that is not taken for a discontinuity; 0 if there is none. */
  function LastStep(pcrs: seq<Option<Pcr>>): int
    decreases |pcrs|
  {
    if pcrs == [] then 0 else
      var n := |pcrs| - 1;
      var l := UpToLast(pcrs[..n]);
      if l == 0 || pcrs[n].None? then LastStep(pcrs[..n])
      else match PcrDiff(pcrs[l - 1].value, pcrs[n].value) case Some(d) => d case None => LastStep(pcrs[..n])
  }

  /** The number of payloads of the last output; before the first one, that of the lead-in. */
  function LastBatch(n: nat, pcrs: seq<Option<Pcr>>): int
    requires n >= 1
    decreases |pcrs|
  {
    if pcrs == [] then 0 else
      var m := |pcrs| - 1;
      var l := UpToLast(pcrs[..m]);
      if pcrs[m].None? then LastBatch(n, pcrs[..m])
      else if l == 0 then CeilDiv(m + 1, n)
      else if CeilDiv(l, n) < CeilDiv(m + 1, n) then CeilDiv(m + 1, n) - CeilDiv(l, n)
      else LastBatch(n, pcrs[..m])
  }

  /** Payloads that are counted already come off the packets and off the payloads alike. */
  lemma CeilDivShift(a: int, q: int, n: nat)
    requires n >= 1
    ensures CeilDiv(a - q * n, n) == CeilDiv(a, n) - q
  {
    var c := CeilDiv(a - q * n, n);
    CeilDivBounds(a - q * n, n);
    assert (c + q) * n == c * n + q * n && (c + q - 1) * n == (c - 1) * n + q * n;
    CeilDivUnique(c + q, n, a);
  }

  lemma CeilDivMonotone(a: int, b: int, n: nat)
    requires n >= 1 && a <= b
    ensures CeilDiv(a, n) <= CeilDiv(b, n)
  {
    DivMonotone(a + n - 1, b + n - 1, n);
  }

  lemma {:induction false} RunSnoc(s: State, n: nat, handled: nat, pcrs: seq<Option<Pcr>>, pcr: Option<Pcr>)
    requires Sound(s, n, handled)
    ensures Sound(Run(s, n, handled, pcrs), n, handled + |pcrs|)
    ensures Run(s, n, handled, pcrs + [pcr]) == Handle(Run(s, n, handled, pcrs), n, pcr)
    decreases |pcrs|
  {
    hide Sound, Handle;
    SoundFacts(s, n, handled);
    if pcrs == [] {
      HandleSound(s, n, handled, pcr);
      assert [] + [pcr] == [pcr] && [pcr][1..] == [];
      RunNothing(Handle(s, n, pcr), n, handled + 1);
    } else {
      HandleSound(s, n, handled, pcrs[0]);
      assert (pcrs + [pcr])[1..] == pcrs[1..] + [pcr];
      RunSnoc(Handle(s, n, pcrs[0]), n, handled + 1, pcrs[1..], pcr);
    }
  }

  lemma RunNothing(s: State, n: nat, handled: nat)
    requires Sound(s, n, handled)
    ensures Run(s, n, handled, []) == s
  {
  }

  lemma RunAllSnoc(n: nat, pcrs: seq<Option<Pcr>>)
    requires n >= 1 && pcrs != []
    ensures var front := pcrs[..|pcrs| - 1];
            Sound(RunAll(n, front), n, |pcrs| - 1) && RunAll(n, pcrs) == Handle(RunAll(n, front), n, pcrs[|pcrs| - 1])
  {
    hide Sound, Handle, Run;
    InitiallySound(n);
    var front := pcrs[..|pcrs| - 1];
    assert pcrs == front + [pcrs[|pcrs| - 1]];
    RunSnoc(INITIAL, n, 0, front, pcrs[|pcrs| - 1]);
    SoundFacts(RunAll(n, front), n, |pcrs| - 1);
  }

  /** What the static variables say about the stream so far. */
  predicate Reflects(s: State, n: nat, pcrs: seq<Option<Pcr>>)
    requires n >= 1
  {
    var f, l := UpToFirst(pcrs), UpToLast(pcrs);
    && (f == 0 <==> l == 0) && f <= l
    && s.lastPcr == (if l == 0 then PCR_WRAP else pcrs[l - 1].value)
    && s.lastPcrDiff == LastStep(pcrs)
    && s.tsSinceOutput == |pcrs| - CeilDiv(l, n) * n
    && (s.init <==> CeilDiv(f, n) == CeilDiv(l, n))
    && (s.init ==> s.lastNbPayloads == CeilDiv(f, n))
    && s.lastNbPayloads == LastBatch(n, pcrs)
    && |s.dates| == if s.init then 0 else CeilDiv(l, n)
  }

  /** A batch dates what there is up to its PCR, if that is in a new payload. */
  lemma BatchReflects(s: State, n: nat, f: nat, l: nat, h: nat)
    requires n >= 1 && 0 < f <= l <= h
    requires s.tsSinceOutput == h - CeilDiv(l, n) * n && s.lastNbPayloads >= 0 && 0 - n < s.tsSinceOutput
    requires s.init <==> CeilDiv(f, n) == CeilDiv(l, n)
    requires s.init ==> s.lastNbPayloads == CeilDiv(f, n)
    requires |s.dates| == if s.init then 0 else CeilDiv(l, n)
    ensures var r := DateBatch(s, n);
            && r.lastPcr == s.lastPcr && r.lastPcrDiff == s.lastPcrDiff
            && r.tsSinceOutput == h - CeilDiv(h, n) * n
            && (r.init <==> CeilDiv(f, n) == CeilDiv(h, n))
            && (r.init ==> r.lastNbPayloads == CeilDiv(f, n))
            && r.lastNbPayloads == (if CeilDiv(l, n) < CeilDiv(h, n) then CeilDiv(h, n) - CeilDiv(l, n)
                                    else s.lastNbPayloads)
            && |r.dates| == (if r.init then 0 else CeilDiv(h, n))
  {
    hide CeilDiv, ShareDate;
    CeilDivShift(h, CeilDiv(l, n), n);
    CeilDivMonotone(f, l, n);
    PayloadCount(s.tsSinceOutput, n);
    var nb := CeilDiv(s.tsSinceOutput, n);
    assert (CeilDiv(l, n) + nb) * n == CeilDiv(l, n) * n + nb * n;
  }

  /** The first PCR defers what came up to it. */
  lemma DeferReflects(s: State, n: nat)
    requires n >= 1
    ensures var r := DeferLeadIn(s, n);
            && r == s.(lastNbPayloads := CeilDiv(s.tsSinceOutput, n),
                       tsSinceOutput := s.tsSinceOutput - CeilDiv(s.tsSinceOutput, n) * n)
  {
  }

  lemma NoPayloads(n: nat)
    requires n >= 1
    ensures CeilDiv(0, n) == 0
  {
    PayloadCount(0, n);
  }

  /** At any time the static variables are those that the stream so far determines. */
  lemma {:induction false} AlwaysReflects(n: nat, pcrs: seq<Option<Pcr>>)
    requires n >= 1
    ensures Reflects(RunAll(n, pcrs), n, pcrs)
    decreases |pcrs|
  {
    hide CeilDiv, DateBatch, DeferLeadIn, RunAll, Dated;
    NoPayloads(n);
    if pcrs == [] {
      RunAllNothing(n);
    } else {
      var front := pcrs[..|pcrs| - 1];
      AlwaysReflects(n, front);
      RunAllSnoc(n, pcrs);
      HandleReflects(RunAll(n, front), n, pcrs);
    }
  }

  lemma RunAllNothing(n: nat)
    requires n >= 1
    ensures RunAll(n, []) == INITIAL
  {
  }

  lemma HandleReflects(s: State, n: nat, pcrs: seq<Option<Pcr>>)
    requires n >= 1 && pcrs != [] && Sound(s, n, |pcrs| - 1) && Reflects(s, n, pcrs[..|pcrs| - 1])
    ensures Reflects(Handle(s, n, pcrs[|pcrs| - 1]), n, pcrs)
  {
    hide CeilDiv, DateBatch, DeferLeadIn, Dated, PcrDiff;
    var front, x := pcrs[..|pcrs| - 1], pcrs[|pcrs| - 1];
    var f, l := UpToFirst(front), UpToLast(front);
    var t := s.(tsSinceOutput := s.tsSinceOutput + 1);
    NoPayloads(n);
    if x.Some? {
      if l == 0 {
        DeferReflects(t.(lastPcr := x.value), n);
        assert 0 * n == 0;
      } else {
        assert pcrs[l - 1] == front[l - 1];
        BatchReflects(t.(lastPcrDiff := LastStep(pcrs), lastPcr := x.value), n, f, l, |pcrs|);
      }
    }
  }

  /**
    How many dates the finished file has: those up to the last PCR, unless it is in the payload of the first; and
    those behind it, unless the last step that counted took no time. Hence each payload has a date if and only if
    there is no payload, or the last PCR comes in a later payload than the first and either the last step took
    time or there is no payload behind.
   */
  lemma EntryCount(n: nat, pcrs: seq<Option<Pcr>>)
    requires n >= 1
    ensures var first, last, all := CeilDiv(UpToFirst(pcrs), n), CeilDiv(UpToLast(pcrs), n), CeilDiv(|pcrs|, n);
            && |Ingested(n, pcrs)|
               == (if first < last then last else 0) + (if LastStep(pcrs) != 0 then all - last else 0)
            && (|Ingested(n, pcrs)| == all
                <==> all == 0 || (first < last && (LastStep(pcrs) != 0 || last == all)))
  {
    hide CeilDiv, RunAll, Dated, ShareDates, UpToFirst, UpToLast, LastStep;
    var s := RunAll(n, pcrs);
    var f, l := UpToFirst(pcrs), UpToLast(pcrs);
    AlwaysReflects(n, pcrs);
    CeilDivShift(|pcrs|, CeilDiv(l, n), n);
    CeilDivMonotone(f, l, n);
    CeilDivMonotone(l, |pcrs|, n);
    PayloadCount(s.tsSinceOutput, n);
    StepNeedsPcr(pcrs);
    NoPayloads(n);
    if l > 0 {
      PayloadCount(l, n);
    }
  }

  /** Four payloads of one packet, whose last step takes no time: the last payload gets no date. */
  lemma LastPayloadUndated()
    ensures |Ingested(1, [Some(0), Some(100), Some(100), None])| == 3
  {
    hide RunAll, Finish;
    var pcrs: seq<Option<Pcr>> := [Some(0), Some(100), Some(100), None];
    EntryCount(1, pcrs);
    assert pcrs[..3] == [Some(0), Some(100), Some(100)] && pcrs[..3][..2] == [Some(0), Some(100)];
    assert pcrs[..3][..2][..1] == [Some(0)] && pcrs[..3][..2][..1][..0] == [];
  }

  /** A step took time only if there was a PCR. */
  lemma {:induction false} StepNeedsPcr(pcrs: seq<Option<Pcr>>)
    ensures LastStep(pcrs) != 0 ==> UpToLast(pcrs) > 0
    decreases |pcrs|
  {
    if pcrs != [] {
      StepNeedsPcr(pcrs[..|pcrs| - 1]);
    }
  }

  // ---------------------------------------------------------------------------------------------
  // Timing
  // ---------------------------------------------------------------------------------------------

  /** What the stream carries of PCRs whose true, unwrapped values are given. */
  function Fields(truth: seq<Option<int>>): (r: seq<Option<Pcr>>)
    ensures |r| == |truth|
  {
    seq(|truth|, i requires 0 <= i < |truth| => match truth[i] case None => None case Some(x) => Some(x % PCR_WRAP))
  }

  /** The last true PCR. */
  function LastTruth(last: int, truth: seq<Option<int>>): int
    decreases |truth|
  {
    if truth == [] then last
    else LastTruth(if truth[0].Some? then truth[0].value else last, truth[1..])
  }

  predicate ShortStep(last: int, next: int) {
    && 0 <= next - last <= MAX_PCR_GAP
    && (next - last < MAX_PCR_GAP || next % PCR_WRAP >= last % PCR_WRAP)
  }

  /**
    Every PCR comes soon enough after the one before, and in a later payload. The last one before was packet
    number `place` of the `handled` packets so far, and had the value `last`.
   */
  predicate Regular(n: nat, place: nat, handled: nat, last: int, truth: seq<Option<int>>)
    requires n >= 1
    decreases |truth|
  {
    truth != [] ==>
      match truth[0]
      case None => Regular(n, place, handled + 1, last, truth[1..])
      case Some(next) =>
        && ShortStep(last, next) && CeilDiv(place, n) < CeilDiv(handled + 1, n)
        && Regular(n, handled + 1, handled + 1, next, truth[1..])
  }

  /** The duration of the payloads up to a PCR, if they go at the rate of those up to the next one. */
  function LeadIn(n: nat, place: nat, handled: nat, last: int, truth: seq<Option<int>>): int
    requires n >= 1
    decreases |truth|
  {
    if truth == [] then 0
    else if truth[0].None? then LeadIn(n, place, handled + 1, last, truth[1..])
    else LeadInUpTo(CeilDiv(place, n), CeilDiv(handled + 1, n), truth[0].value - last)
  }

  function LeadInUpTo(first: int, second: int, duration: int): int {
    if first < second then duration * first / (second - first) else 0
  }

  /** The state after a PCR and some packets without one. */
  predicate Behind(s: State, n: nat, place: nat, handled: nat, last: int)
    requires n >= 1
  {
    && 0 < place <= handled
    && s.lastPcr == last % PCR_WRAP
    && s.tsSinceOutput == handled - CeilDiv(place, n) * n
    && (s.init ==> s.lastNbPayloads == CeilDiv(place, n))
  }

  /** What a batch appends: before the first one, the lead-in, whose last payload ends it. */
  lemma BatchAppends(s: State, n: nat)
    requires n >= 1 && s.lastNbPayloads >= 0 && s.lastPcrDiff >= 0
    ensures s.dates <= DateBatch(s, n).dates
    ensures s.tsSinceOutput > 0 && s.init && s.lastNbPayloads >= 1 ==>
              var lead := s.lastPcrDiff * s.lastNbPayloads / CeilDiv(s.tsSinceOutput, n);
              var k := |s.dates| + s.lastNbPayloads - 1;
              k < |DateBatch(s, n).dates| && DateBatch(s, n).dates[k] == s.lastStc + lead
  {
    hide CeilDiv, ShareDate;
    PayloadCount(if s.tsSinceOutput > 0 then s.tsSinceOutput else 0, n);
    if s.tsSinceOutput > 0 && s.init && s.lastNbPayloads >= 1 {
      var nb := CeilDiv(s.tsSinceOutput, n);
      LeadInIsPositive(s.lastPcrDiff, s.lastNbPayloads, nb);
      var lead := s.lastPcrDiff * s.lastNbPayloads / nb;
      ShareBounds(s.lastStc, s.lastNbPayloads, lead, s.lastNbPayloads - 1, s.lastNbPayloads - 1);
      var t := WriteDates(s, s.lastNbPayloads, lead);
      assert t.dates[|s.dates| + s.lastNbPayloads - 1] == s.lastStc + lead;
      assert t.dates <= DateBatch(s, n).dates;
    }
  }

  /** What a batch does to the counters. */
  lemma BatchMoves(s: State, n: nat)
    requires n >= 1 && s.lastNbPayloads >= 0 && s.tsSinceOutput > 0
    ensures var r := DateBatch(s, n);
            var nb := CeilDiv(s.tsSinceOutput, n);
            && nb >= 1 && !r.init && r.lastPcr == s.lastPcr
            && r.tsSinceOutput == s.tsSinceOutput - nb * n
            && r.lastStc == s.lastStc + (if s.init then s.lastPcrDiff * s.lastNbPayloads / nb else 0) + s.lastPcrDiff
  {
    hide CeilDiv, ShareDates;
    PayloadCount(s.tsSinceOutput, n);
  }

  /** A regular PCR moves the current date by exactly the true time, after the lead-in the first time. */
  lemma RegularStep(s: State, n: nat, place: nat, handled: nat, last: int, next: int)
    requires Sound(s, n, handled) && Behind(s, n, place, handled, last)
    requires ShortStep(last, next) && CeilDiv(place, n) < CeilDiv(handled + 1, n)
    ensures var r := Handle(s, n, Some(next % PCR_WRAP));
            var first := CeilDiv(place, n);
            var lead := if s.init then LeadInUpTo(first, CeilDiv(handled + 1, n), next - last) else 0;
            && !r.init && Behind(r, n, handled + 1, handled + 1, next)
            && r.lastStc == s.lastStc + lead + (next - last)
            && (s.init ==> 1 <= first <= |r.dates| && r.dates[first - 1] == lead)
  {
    hide Dated, DateBatch, CeilDiv, PcrDiff;
    var t := s.(tsSinceOutput := s.tsSinceOutput + 1, lastPcrDiff := next - last, lastPcr := next % PCR_WRAP);
    ShortIsTaken(last, next);
    CeilDivShift(handled + 1, CeilDiv(place, n), n);
    PayloadCount(t.tsSinceOutput, n);
    PayloadCount(place, n);
    var nb := CeilDiv(t.tsSinceOutput, n);
    assert (CeilDiv(place, n) + nb) * n == CeilDiv(place, n) * n + nb * n;
    assert Handle(s, n, Some(next % PCR_WRAP)) == DateBatch(t, n);
    BatchAppends(t, n);
    BatchMoves(t, n);
  }

  lemma FieldsTail(truth: seq<Option<int>>)
    requires truth != []
    ensures Fields(truth)[1..] == Fields(truth[1..])
  {
  }

  /** Dates that are written stay. */
  lemma {:induction false} DatesStay(s: State, n: nat, handled: nat, pcrs: seq<Option<Pcr>>)
    requires Sound(s, n, handled)
    ensures s.dates <= Run(s, n, handled, pcrs).dates
    decreases |pcrs|
  {
    hide Sound, DateBatch, Dated;
    SoundFacts(s, n, handled);
    if pcrs != [] {
      HandleSound(s, n, handled, pcrs[0]);
      HandleAppends(s, n, handled, pcrs[0]);
      DatesStay(Handle(s, n, pcrs[0]), n, handled + 1, pcrs[1..]);
    }
  }

  lemma HandleAppends(s: State, n: nat, handled: nat, pcr: Option<Pcr>)
    requires Sound(s, n, handled)
    ensures s.dates <= Handle(s, n, pcr).dates
  {
    hide DateBatch, Dated;
    if pcr.Some? && s.lastPcr != PCR_WRAP {
      var x := pcr.value;
      BatchAppends(s.(tsSinceOutput := s.tsSinceOutput + 1, lastPcrDiff := NextDiff(s, x), lastPcr := x), n);
    }
  }

  /**
    Over every regular stream, from any PCR on: the current date moves by the true time between the PCRs, however
    often the counter wraps, after the lead-in if that has no dates yet; and the last payload of that ends when it does.
   */
  lemma {:induction false} RegularTiming(s: State, n: nat, place: nat, handled: nat, last: int, truth: seq<Option<int>>)
    requires Sound(s, n, handled) && Behind(s, n, place, handled, last) && Regular(n, place, handled, last, truth)
    ensures var r := Run(s, n, handled, Fields(truth));
            var lead := if s.init then LeadIn(n, place, handled, last, truth) else 0;
            && r.lastPcr == LastTruth(last, truth) % PCR_WRAP
            && r.lastStc == s.lastStc + lead + (LastTruth(last, truth) - last)
            && (r.dates != [] ==> r.dates[|r.dates| - 1] == r.lastStc)
            && (s.init && !r.init ==>
                  1 <= CeilDiv(place, n) <= |r.dates| && r.dates[CeilDiv(place, n) - 1] == lead)
            && (truth != [] && truth[|truth| - 1].Some? ==>
                  !r.init && LastTruth(last, truth) == truth[|truth| - 1].value)
    decreases |truth|
  {
    hide Sound, LeadInUpTo, CeilDiv, ShortStep, Handle;
    SoundFacts(s, n, handled);
    if truth != [] {
      var pcr, rest := Fields(truth)[0], Fields(truth[1..]);
      HandleSound(s, n, handled, pcr);
      FieldsTail(truth);
      var t := Handle(s, n, pcr);
      if truth[0].Some? {
        var next := truth[0].value;
        RegularStep(s, n, place, handled, last, next);
        RegularTiming(t, n, handled + 1, handled + 1, next, truth[1..]);
        DatesStay(t, n, handled + 1, rest);
      } else {
        PlainStep(s, n, place, handled, last);
        RegularTiming(t, n, place, handled + 1, last, truth[1..]);
      }
    }
  }

  lemma PlainStep(s: State, n: nat, place: nat, handled: nat, last: int)
    requires Sound(s, n, handled) && Behind(s, n, place, handled, last)
    ensures Handle(s, n, None) == s.(tsSinceOutput := s.tsSinceOutput + 1)
    ensures Behind(Handle(s, n, None), n, place, handled + 1, last)
  {
  }

  /** A stream with k packets before its first PCR. */
  function Stream(k: nat, first: int, truth: seq<Option<int>>): (pcrs: seq<Option<Pcr>>)
    ensures |pcrs| == k + 1 + |truth|
  {
    seq(k, _ => None) + [Some(first % PCR_WRAP)] + Fields(truth)
  }

  lemma {:induction false} RunJoins(s: State, n: nat, handled: nat, a: seq<Option<Pcr>>, b: seq<Option<Pcr>>)
    requires Sound(s, n, handled)
    ensures Sound(Run(s, n, handled, a), n, handled + |a|)
    ensures Run(s, n, handled, a + b) == Run(Run(s, n, handled, a), n, handled + |a|, b)
    decreases |a|
  {
    hide Sound, Handle;
    SoundFacts(s, n, handled);
    if a == [] {
      assert a + b == b;
    } else {
      HandleSound(s, n, handled, a[0]);
      assert (a + b)[1..] == a[1..] + b;
      RunJoins(Handle(s, n, a[0]), n, handled + 1, a[1..], b);
    }
  }

  /** The state right behind the first PCR. */
  lemma FirstPcr(n: nat, k: nat, first: int)
    requires n >= 1
    ensures var s := RunAll(n, Stream(k, first, []));
            Sound(s, n, k + 1) && Behind(s, n, k + 1, k + 1, first) && s.init && s.lastStc == 0
  {
    hide CeilDiv, RunAll, Dated, UpToFirst, UpToLast, LastStep;
    var pcrs := Stream(k, first, []);
    assert pcrs[k] == Some(first % PCR_WRAP);
    assert UpToFirst(pcrs) == UpToLast(pcrs) == k + 1;
    AlwaysReflects(n, pcrs);
  }

  /** The payload that packet h is in, both counted from 0. */
  function PayloadOf(h: nat, n: nat): nat
    requires n >= 1
  {
    h / n
  }

  /** It is the last of the payloads that the first h + 1 packets make. */
  lemma PayloadIsLast(h: nat, n: nat)
    requires n >= 1
    ensures CeilDiv(h + 1, n) - 1 == PayloadOf(h, n)
  {
    assert (h + 1) + n - 1 == h + n;
    assert h / n * n <= h < (h / n + 1) * n;
    assert (h / n + 1) * n == h / n * n + n && (h / n + 2) * n == (h / n + 1) * n + n;
    DivUnique(h / n + 1, n, h + n);
  }

  /**
    The dates of the finished file. If a stream is regular from its first PCR, which is packet k, up to some later
    one, then whatever follows: the payload of the first PCR is dated with the duration of the lead-in, and that of
    the later one with the duration of the lead-in and the true time elapsed since the first PCR.
   */
  lemma PcrDates(n: nat, k: nat, first: int, truth: seq<Option<int>>, rest: seq<Option<Pcr>>)
    requires n >= 1 && truth != [] && truth[|truth| - 1].Some?
    requires Regular(n, k + 1, k + 1, first, truth)
    ensures var dates := Ingested(n, Stream(k, first, truth) + rest);
            var lead := LeadIn(n, k + 1, k + 1, first, truth);
            && PayloadOf(k, n) <= PayloadOf(k + |truth|, n) < |dates|
            && dates[PayloadOf(k, n)] == lead
            && dates[PayloadOf(k + |truth|, n)] == lead + (truth[|truth| - 1].value - first)
  {
    hide Sound, Run, LeadIn, CeilDiv, Behind, Regular, Finish, PayloadOf;
    var a, b := Stream(k, first, []), Fields(truth);
    var s := RunAll(n, a);
    FirstPcr(n, k, first);
    RegularTiming(s, n, k + 1, k + 1, first, truth);
    InitiallySound(n);
    assert a + b == Stream(k, first, truth);
    RunJoins(INITIAL, n, 0, a, b);
    RunJoins(INITIAL, n, 0, a + b, rest);
    var r := RunAll(n, a + b);
    DatesStay(r, n, |a + b|, rest);
    FinishAppends(RunAll(n, a + b + rest), n, |a + b + rest|);
    DatesUpTo(n, k, first, truth);
    PayloadIsLast(k, n);
    PayloadIsLast(k + |truth|, n);
    CeilDivMonotone(k + 1, k + 1 + |truth|, n);
  }

  lemma FinishAppends(s: State, n: nat, handled: nat)
    requires Sound(s, n, handled)
    ensures n >= 1 && 0 - n < s.tsSinceOutput && (s.lastPcrDiff != 0 ==> s.lastNbPayloads >= 1)
    ensures s.dates <= Finish(s, n).dates
  {
    hide Dated;
  }

  /** Right behind a PCR that has been dated, there is a date for each payload so far. */
  lemma DatesUpTo(n: nat, k: nat, first: int, truth: seq<Option<int>>)
    requires n >= 1 && truth != [] && truth[|truth| - 1].Some?
    ensures var r := RunAll(n, Stream(k, first, truth));
            !r.init ==> |r.dates| == CeilDiv(k + 1 + |truth|, n) && r.dates != []
  {
    hide CeilDiv, RunAll, UpToFirst, UpToLast, LastStep;
    var pcrs := Stream(k, first, truth);
    assert pcrs[k + |truth|] == Fields(truth)[|truth| - 1];
    assert UpToLast(pcrs) == |pcrs|;
    AlwaysReflects(n, pcrs);
    PayloadCount(|pcrs|, n);
  }

  lemma SoundFacts(s: State, n: nat, handled: nat)
    requires Sound(s, n, handled)
    ensures s.dates != [] ==> s.dates[|s.dates| - 1] == s.lastStc
    ensures n >= 1 && 0 - n < s.tsSinceOutput && s.lastNbPayloads >= 0 && 0 <= s.lastPcr <= PCR_WRAP
  {
  }

  // ---------------------------------------------------------------------------------------------
  // Every entry of the finished file
  // ---------------------------------------------------------------------------------------------

  /** Part m of nb equal parts of a duration. */
  function Part(duration: int, m: int, nb: int): int
    requires nb >= 1
  {
    duration * m / nb
  }

  /** How many dates an output writes, those of the lead-in included, and the one of its payload m, counted from 1. */
  lemma OutputEntry(s: State, n: nat, m: nat)
    requires n >= 1 && s.lastNbPayloads >= 1 && s.lastPcrDiff >= 0 && s.tsSinceOutput > 0
    ensures var r := DateBatch(s, n);
            var nb := CeilDiv(s.tsSinceOutput, n);
            nb >= 1 &&
            var lead := if s.init then Part(s.lastPcrDiff, s.lastNbPayloads, nb) else 0;
            var q := |s.dates| + (if s.init then s.lastNbPayloads else 0);
            && |r.dates| == q + nb && s.dates <= r.dates
            && (1 <= m <= nb ==> r.dates[q + m - 1] == s.lastStc + lead + Part(s.lastPcrDiff, m, nb))
  {
    hide CeilDiv, ShareDate;
    PayloadCount(s.tsSinceOutput, n);
    var nb := CeilDiv(s.tsSinceOutput, n);
    LeadInIsPositive(s.lastPcrDiff, s.lastNbPayloads, nb);
    if 1 <= m <= nb {
      var lead := if s.init then Part(s.lastPcrDiff, s.lastNbPayloads, nb) else 0;
      ShareIsPart(s.lastStc + lead, nb, s.lastPcrDiff, m);
    }
  }

  /** The date of payload m of the lead-in. */
  lemma LeadEntry(s: State, n: nat, m: nat)
    requires n >= 1 && s.lastPcrDiff >= 0 && s.tsSinceOutput > 0 && s.init && 1 <= m <= s.lastNbPayloads
    ensures var r := DateBatch(s, n);
            var nb := CeilDiv(s.tsSinceOutput, n);
            nb >= 1 &&
            var lead := Part(s.lastPcrDiff, s.lastNbPayloads, nb);
            && |s.dates| + m <= |r.dates|
            && r.dates[|s.dates| + m - 1] == s.lastStc + Part(lead, m, s.lastNbPayloads)
  {
    hide CeilDiv, ShareDate;
    PayloadCount(s.tsSinceOutput, n);
    var nb := CeilDiv(s.tsSinceOutput, n);
    LeadInIsPositive(s.lastPcrDiff, s.lastNbPayloads, nb);
    ShareIsPart(s.lastStc, s.lastNbPayloads, Part(s.lastPcrDiff, s.lastNbPayloads, nb), m);
  }

  lemma IsPart(duration: int, m: int, nb: int)
    requires nb >= 1
    ensures Part(duration, m, nb) == duration * m / nb
  {
  }

  lemma ShareIsPart(base: int, nb: nat, duration: int, m: nat)
    requires 1 <= m <= nb
    ensures ShareDates(base, nb, duration)[m - 1] == base + Part(duration, m, nb)
  {
  }

  /** Nothing of a duration, and all of it. */
  lemma PartEnds(duration: int, nb: int)
    requires nb >= 1
    ensures Part(duration, 0, nb) == 0 && Part(duration, nb, nb) == duration
  {
    MulDiv(duration, nb);
  }

  /** What the finished file has of the dates that were written up to some packet. */
  lemma WrittenStays(n: nat, pcrs: seq<Option<Pcr>>, h: nat)
    requires n >= 1 && h <= |pcrs|
    ensures RunAll(n, pcrs[..h]).dates <= Ingested(n, pcrs)
  {
    hide Sound, Run, Finish;
    InitiallySound(n);
    var a, b := pcrs[..h], pcrs[h..];
    assert a + b == pcrs;
    RunJoins(INITIAL, n, 0, a, b);
    DatesStay(RunAll(n, a), n, |a|, b);
    FinishAppends(RunAll(n, pcrs), n, |pcrs|);
  }

  /** The places of two PCRs with none between them. */
  predicate Successive(pcrs: seq<Option<Pcr>>, l: nat, h: nat) {
    && 0 < l < h <= |pcrs| && pcrs[l - 1].Some? && pcrs[h - 1].Some?
    && forall x :: l <= x < h - 1 ==> pcrs[x].None?
  }

  lemma {:induction false} LastOfPrefix(pcrs: seq<Option<Pcr>>, l: nat, k: nat)
    requires 0 < l <= k <= |pcrs| && pcrs[l - 1].Some? && forall x :: l <= x < k ==> pcrs[x].None?
    ensures UpToLast(pcrs[..k]) == l
  {
    hide UpToLast;
    var r := UpToLast(pcrs[..k]);
    assert pcrs[..k][l - 1] == pcrs[l - 1];
    assert r > 0 && pcrs[..k][r - 1] == pcrs[r - 1];
  }

  lemma NextDiffBounds(s: State, x: Pcr)
    requires 0 <= s.lastPcr < PCR_WRAP && 0 <= s.lastPcrDiff <= MAX_PCR_GAP
    ensures 0 <= NextDiff(s, x) <= MAX_PCR_GAP
  {
  }

  /** The state before and after a PCR that is in a later payload than the PCR before it. */
  lemma AtNextPcr(n: nat, pcrs: seq<Option<Pcr>>, l: nat, h: nat) returns (s: State)
    requires n >= 1 && Successive(pcrs, l, h) && CeilDiv(l, n) < CeilDiv(h, n)
    ensures s.lastPcrDiff == LastStep(pcrs[..h]) >= 0 && s.lastNbPayloads >= 1 && s.lastStc >= 0
    ensures RunAll(n, pcrs[..h]) == DateBatch(s, n)
    ensures s.tsSinceOutput > 0 && CeilDiv(s.tsSinceOutput, n) == CeilDiv(h, n) - CeilDiv(l, n)
    ensures (s.init <==> CeilDiv(UpToFirst(pcrs[..h]), n) == CeilDiv(l, n))
    ensures s.init ==> s.lastNbPayloads == CeilDiv(l, n) && s.dates == [] && s.lastStc == 0
    ensures !s.init ==> |s.dates| == CeilDiv(l, n) >= 1 && s.dates[CeilDiv(l, n) - 1] == s.lastStc
  {
    hide RunAll, CeilDiv, UpToLast, DateBatch, PcrDiff;
    var now, front := pcrs[..h], pcrs[..h - 1];
    assert now[..h - 1] == front;
    LastOfPrefix(pcrs, l, h - 1);
    AlwaysReflects(n, front);
    RunAllSnoc(n, now);
    var t := RunAll(n, front);
    s := t.(tsSinceOutput := t.tsSinceOutput + 1, lastPcrDiff := NextDiff(t, pcrs[h - 1].value),
            lastPcr := pcrs[h - 1].value);
    CeilDivShift(h, CeilDiv(l, n), n);
    PayloadCount(s.tsSinceOutput, n);
    PayloadCount(l, n);
    NextDiffBounds(t, pcrs[h - 1].value);
    assert pcrs[l - 1] == front[l - 1] == now[l - 1];
  }

  /** From the last payload before an output to the last one of it, the dates are interpolated. */
  lemma BatchInterpolates(s: State, n: nat, q: nat, nb: nat, m: nat)
    requires n >= 1 && s.lastNbPayloads >= 1 && s.lastPcrDiff >= 0 && s.tsSinceOutput > 0
    requires nb == CeilDiv(s.tsSinceOutput, n) && m <= nb
    requires s.init ==> s.lastNbPayloads == q && s.dates == []
    requires !s.init ==> |s.dates| == q >= 1 && s.dates[q - 1] == s.lastStc
    ensures nb >= 1 && q >= 1
    ensures var r := DateBatch(s, n).dates;
            && |r| == q + nb
            && r[q - 1 + m] == r[q - 1] + Part(s.lastPcrDiff, m, nb)
            && r[q - 1 + nb] == r[q - 1] + s.lastPcrDiff
  {
    hide CeilDiv, Part, DateBatch;
    PayloadCount(s.tsSinceOutput, n);
    PartEnds(s.lastPcrDiff, nb);
    OutputEntry(s, n, m);
    OutputEntry(s, n, nb);
    if s.init {
      PartEnds(Part(s.lastPcrDiff, q, nb), q);
      LeadEntry(s, n, q);
    }
  }

  /**
    Between two PCRs, whatever the stream before and behind: if payloads i < j are those of two successive PCRs,
    the payloads from i to j are dated by linear interpolation, and payload j comes behind payload i by the
    step of the second PCR.
   */
  lemma Interpolated(n: nat, pcrs: seq<Option<Pcr>>, l: nat, h: nat, m: nat)
    requires n >= 1 && Successive(pcrs, l, h) && PayloadOf(l - 1, n) < PayloadOf(h - 1, n)
    requires m <= PayloadOf(h - 1, n) - PayloadOf(l - 1, n)
    ensures var dates := Ingested(n, pcrs);
            var i, j := PayloadOf(l - 1, n), PayloadOf(h - 1, n);
            && j < |dates|
            && dates[j] - dates[i] == LastStep(pcrs[..h])
            && dates[i + m] == dates[i] + (dates[j] - dates[i]) * m / (j - i)
  {
    hide Ingested, RunAll, CeilDiv, DateBatch, Part, PayloadOf, LastStep, Successive, UpToFirst;
    PlacesOf(pcrs, l, h);
    PayloadIsLast(l - 1, n);
    PayloadIsLast(h - 1, n);
    var s := AtNextPcr(n, pcrs, l, h);
    var nb := CeilDiv(h, n) - CeilDiv(l, n);
    BatchInterpolates(s, n, CeilDiv(l, n), nb, m);
    IsPart(s.lastPcrDiff, m, nb);
    WrittenStays(n, pcrs, h);
  }

  lemma PlacesOf(pcrs: seq<Option<Pcr>>, l: nat, h: nat)
    requires Successive(pcrs, l, h)
    ensures 0 < l < h <= |pcrs|
  {
  }

  /**
    The lead-in, up to the payload of the first PCR: its payloads are dated at the rate between the payload of that
    PCR and that of the first PCR in a later one, to within one tick.
   */
  lemma LeadInDated(n: nat, pcrs: seq<Option<Pcr>>, l: nat, h: nat, p: nat)
    requires n >= 1 && Successive(pcrs, l, h) && PayloadOf(l - 1, n) < PayloadOf(h - 1, n)
    requires UpToFirst(pcrs) > 0 && PayloadOf(UpToFirst(pcrs) - 1, n) == PayloadOf(l - 1, n)
    requires p <= PayloadOf(l - 1, n)
    ensures var dates := Ingested(n, pcrs);
            var i, j := PayloadOf(l - 1, n), PayloadOf(h - 1, n);
            && j < |dates|
            && (dates[j] - dates[i]) * (p + 1) / (j - i) - 1 <= dates[p] <= (dates[j] - dates[i]) * (p + 1) / (j - i)
  {
    hide Ingested, RunAll, CeilDiv, DateBatch, Part, PayloadOf, LastStep, Successive, UpToFirst;
    PlacesOf(pcrs, l, h);
    PayloadIsLast(l - 1, n);
    PayloadIsLast(h - 1, n);
    PayloadIsLast(UpToFirst(pcrs) - 1, n);
    FirstOfPrefix(pcrs, l, h);
    var s := AtNextPcr(n, pcrs, l, h);
    var nb := CeilDiv(h, n) - CeilDiv(l, n);
    LeadEntry(s, n, p + 1);
    Interpolated(n, pcrs, l, h, 0);
    WrittenStays(n, pcrs, h);
    LeadShare(s.lastPcrDiff, s.lastNbPayloads, nb, p);
    assert DateBatch(s, n).dates[|s.dates| + p] == Ingested(n, pcrs)[p];
  }

  lemma FirstOfPrefix(pcrs: seq<Option<Pcr>>, l: nat, h: nat)
    requires Successive(pcrs, l, h)
    ensures UpToFirst(pcrs[..h]) == UpToFirst(pcrs)
  {
    hide UpToFirst;
    var a, b := UpToFirst(pcrs[..h]), UpToFirst(pcrs);
    assert pcrs[..h][l - 1].Some?;
    assert a > 0 && b > 0;
    assert pcrs[..h][a - 1] == pcrs[a - 1];
    assert b <= l;
    assert pcrs[..h][b - 1] == pcrs[b - 1];
  }

  lemma LeadShare(diff: nat, nb: nat, per: nat, p: nat)
    requires p < nb && per >= 1
    ensures diff * (p + 1) / per - 1 <= Part(Part(diff, nb, per), p + 1, nb) <= diff * (p + 1) / per
  {
    ConstantRate(0, nb, diff, per, p);
  }

  /**
    The rest, behind the payload of the last PCR: its payloads go on at the rate of the last output, to within one
    tick, from the date of that payload, or from 0 if nothing was dated before.
   */
  lemma RestDated(n: nat, pcrs: seq<Option<Pcr>>, m: nat)
    requires n >= 1 && LastStep(pcrs) != 0 && m < CeilDiv(|pcrs|, n) - CeilDiv(UpToLast(pcrs), n)
    ensures var dates := Ingested(n, pcrs);
            var last := CeilDiv(UpToLast(pcrs), n);
            var flushed := CeilDiv(UpToFirst(pcrs), n) < last;
            var b := if flushed then last else 0;
            && last >= 1 && LastBatch(n, pcrs) >= 1 && b + m < |dates|
            && var base := if flushed then dates[last - 1] else 0;
               var due := base + LastStep(pcrs) * (m + 1) / LastBatch(n, pcrs);
               due - 1 <= dates[b + m] <= due
  {
    hide CeilDiv, RunAll, ShareDate, ShareDates, UpToFirst, UpToLast, LastStep, LastBatch;
    var s := RunAll(n, pcrs);
    var last := CeilDiv(UpToLast(pcrs), n);
    AlwaysReflects(n, pcrs);
    StepNeedsPcr(pcrs);
    CeilDivMonotone(UpToFirst(pcrs), UpToLast(pcrs), n);
    PayloadCount(UpToLast(pcrs), n);
    CeilDivShift(|pcrs|, last, n);
    PayloadCount(s.tsSinceOutput, n);
    var nb := CeilDiv(|pcrs|, n) - last;
    LeadInIsPositive(s.lastPcrDiff, nb, s.lastNbPayloads);
    ConstantRate(s.lastStc, nb, s.lastPcrDiff, s.lastNbPayloads, m);
    FinishEntries(s, n, nb, m);
  }

  lemma FinishEntries(s: State, n: nat, nb: nat, m: nat)
    requires n >= 1 && 0 - n < s.tsSinceOutput && s.lastPcrDiff > 0 && s.lastNbPayloads >= 1
    requires nb == CeilDiv(s.tsSinceOutput, n) && m < nb
    ensures var dates := Finish(s, n).dates;
            && |dates| == |s.dates| + nb && s.dates <= dates
            && dates[|s.dates| + m] == ShareDate(s.lastStc, nb, s.lastPcrDiff * nb / s.lastNbPayloads, m)
  {
    hide CeilDiv, ShareDate;
  }

  // ---------------------------------------------------------------------------------------------
  // Ingest, then seek
  // ---------------------------------------------------------------------------------------------

  /** More packets than any file has: 2^37 of them are some 25 terabytes. */
  const MANY_PACKETS := 0x20_0000_0000

  lemma DivAtMost(a: nat, b: nat)
    requires b >= 1
    ensures 0 <= a / b <= a
  {
    DivMonotone(0, a, b);
    MulMonotone(1, b, a / b);
    assert a / b * b <= a;
  }

  /** A share of a duration that is no longer than the longest step. */
  lemma ShareAtMost(diff: nat, nb: nat, per: nat)
    requires per >= 1 && diff <= MAX_PCR_GAP
    ensures 0 <= diff * nb / per <= MAX_PCR_GAP * nb
  {
    MulMonotone(diff, MAX_PCR_GAP, nb);
    DivAtMost(diff * nb, per);
  }

  lemma BatchAdds(s: State, n: nat)
    requires n >= 1 && s.lastNbPayloads >= 0 && 0 <= s.lastPcrDiff <= MAX_PCR_GAP
    ensures DateBatch(s, n).lastStc
         <= s.lastStc + MAX_PCR_GAP * (if s.init then s.lastNbPayloads else 0) + MAX_PCR_GAP
  {
    hide CeilDiv, ShareDates;
    if s.tsSinceOutput > 0 {
      PayloadCount(s.tsSinceOutput, n);
      ShareAtMost(s.lastPcrDiff, s.lastNbPayloads, CeilDiv(s.tsSinceOutput, n));
    }
  }

  /**
    The dates cannot run ahead of the packets: each PCR adds one step at most, and the lead-in one for each payload.
   */
  lemma {:induction false} StcBounded(n: nat, pcrs: seq<Option<Pcr>>)
    requires n >= 1
    ensures RunAll(n, pcrs).lastStc <= 2 * MAX_PCR_GAP * |pcrs|
    decreases |pcrs|
  {
    hide RunAll, DateBatch, CeilDiv, Dated, Reflects;
    if pcrs == [] {
      RunAllNothing(n);
    } else {
      var front, x := pcrs[..|pcrs| - 1], pcrs[|pcrs| - 1];
      var s := RunAll(n, front);
      StcBounded(n, front);
      RunAllSnoc(n, pcrs);
      LeadInBounded(n, front);
      if x.Some? && s.lastPcr != PCR_WRAP {
        BatchAdds(s.(tsSinceOutput := s.tsSinceOutput + 1, lastPcrDiff := NextDiff(s, x.value), lastPcr := x.value), n);
      }
    }
  }

  lemma LeadInBounded(n: nat, pcrs: seq<Option<Pcr>>)
    requires n >= 1
    ensures var s := RunAll(n, pcrs); s.init ==> s.lastNbPayloads <= |pcrs| && s.lastStc == 0
  {
    hide RunAll, CeilDiv, Dated, LastStep;
    AlwaysReflects(n, pcrs);
    CeilDivAtMost(UpToFirst(pcrs), n);
  }

  /** The dates of a file fit a signed 64-bit integer, unless it is larger than any file. */
  lemma IngestedFits(n: nat, pcrs: seq<Option<Pcr>>)
    requires n >= 1 && |pcrs| <= MANY_PACKETS
    ensures Fitting(Ingested(n, pcrs))
  {
    hide RunAll, CeilDiv, ShareDates;
    var s := RunAll(n, pcrs);
    StcBounded(n, pcrs);
    FinishDated(s, n, |pcrs|);
    FinishAdds(s, n, |pcrs|);
  }

  lemma FinishAdds(s: State, n: nat, handled: nat)
    requires Sound(s, n, handled)
    ensures Finish(s, n).lastStc <= s.lastStc + MAX_PCR_GAP * handled
  {
    hide CeilDiv, Dated, ShareDates;
    if s.lastPcrDiff != 0 {
      var ts := s.tsSinceOutput;
      PayloadCount(ts, n);
      ShareAtMost(s.lastPcrDiff, CeilDiv(ts, n), s.lastNbPayloads);
      MulMonotone(0, |s.dates| + Deferred(s), n);
      if ts > 0 {
        CeilDivAtMost(ts, n);
      }
    }
  }

  /**
    On any file that the program makes, a positive relative search goes to exactly the first payload
    dated at or after the target, or behind the last one if there is none; it fails only on an empty file, or
    if the target leaves the range of int64_t.
   */
  lemma IngestThenSeek(n: nat, pcrs: seq<Option<Pcr>>, wanted: int, r: int)
    requires n >= 1 && |pcrs| <= MANY_PACKETS && 0 < wanted < POW2_63
    ensures var dates := Ingested(n, pcrs);
            IsLookup(AuxBytes(dates), wanted, false, r) ==>
              r == if dates != [] && dates[0] + wanted < POW2_63 then FirstAtOrAfter(dates, dates[0] + wanted) else -1
  {
    hide Ingested, IsLookup, Fitting;
    IngestedSorted(n, pcrs);
    IngestedFits(n, pcrs);
    var dates := Ingested(n, pcrs);
    if IsLookup(AuxBytes(dates), wanted, false, r) {
      if dates == [] {
        NothingToFind(wanted, r);
      } else {
        RelativeSeek(dates, wanted, r);
      }
    }
  }

  lemma NothingToFind(wanted: int, r: int)
    requires IsLookup(AuxBytes([]), wanted, false, r)
    ensures r == -1
  {
  }

  // ---------------------------------------------------------------------------------------------
  // Where the integers of the program suffice
  // ---------------------------------------------------------------------------------------------

  const POW2_31 := 0x8000_0000

  /** The longest stretch without a PCR, in payloads, for which a product of two of them and a step fits 64 bits. */
  const LONG_STRETCH := 0x10_0000

  const LARGE_PAYLOAD := 0x400

  /** Neither before the first PCR nor behind any is there a stretch of more than 2^20 payloads without one. */
  predicate Paced(n: nat, pcrs: seq<Option<Pcr>>) {
    && 1 <= n <= LARGE_PAYLOAD && |pcrs| <= MANY_PACKETS
    && forall k :: 0 <= k <= |pcrs| ==> k - UpToLast(pcrs[..k]) <= LONG_STRETCH * n
  }

  predicate FitsInt(x: int) {
    0 - POW2_31 <= x < POW2_31
  }

  predicate FitsUint64(x: int) {
    0 <= x < POW2_64
  }

  /** Dating some payloads: the largest product is that of the last share. */
  predicate AuxFits(base: int, nb: int, duration: int) {
    FitsInt(nb) && FitsUint64(duration * nb) && FitsUint64(base + duration)
  }

  predicate OutputFits(s: State, n: nat)
    requires n >= 1
  {
    s.tsSinceOutput > 0 ==>
      var nb := CeilDiv(s.tsSinceOutput, n);
      && FitsInt(nb * n) && nb >= 1
      && var lead := if s.init then s.lastPcrDiff * s.lastNbPayloads / nb else 0;
         && (s.init ==> FitsUint64(s.lastPcrDiff * s.lastNbPayloads) && AuxFits(s.lastStc, s.lastNbPayloads, lead))
         && AuxFits(s.lastStc + lead, nb, s.lastPcrDiff)
  }

  /** Everything that is computed for a packet is in the range of its type. */
  predicate HandleFits(s: State, n: nat, pcr: Option<Pcr>)
    requires n >= 1
  {
    && FitsInt(s.tsSinceOutput + n) && FitsInt(s.lastNbPayloads)
    && match pcr
       case None => true
       case Some(x) =>
         if s.lastPcr == PCR_WRAP then FitsInt(CeilDiv(s.tsSinceOutput + 1, n) * n)
         else 0 <= s.lastPcr < PCR_WRAP
              && OutputFits(s.(tsSinceOutput := s.tsSinceOutput + 1, lastPcrDiff := NextDiff(s, x)), n)
  }

  predicate FinishFits(s: State, n: nat)
    requires n >= 1
  {
    s.lastPcrDiff != 0 ==>
      var nb := CeilDiv(s.tsSinceOutput, n);
      && s.lastNbPayloads >= 1 && FitsInt(s.tsSinceOutput + n - 1)
      && FitsUint64(s.lastPcrDiff * nb) && AuxFits(s.lastStc, nb, s.lastPcrDiff * nb / s.lastNbPayloads)
  }

  /** The packet balance of a paced stream, and the payloads that it amounts to. */
  lemma BalanceBounded(n: nat, pcrs: seq<Option<Pcr>>, k: nat)
    requires Paced(n, pcrs) && k <= |pcrs|
    ensures var s := RunAll(n, pcrs[..k]);
            && 0 - n < s.tsSinceOutput <= LONG_STRETCH * n
            && 0 <= CeilDiv(s.tsSinceOutput + 1, n) <= LONG_STRETCH + 1
            && 0 <= CeilDiv(s.tsSinceOutput, n) <= LONG_STRETCH + 1
  {
    hide RunAll, CeilDiv, Dated, UpToFirst, UpToLast, LastStep;
    var s := RunAll(n, pcrs[..k]);
    var l := UpToLast(pcrs[..k]);
    AlwaysReflects(n, pcrs[..k]);
    CeilDivBounds(l, n);
    PayloadsBounded(s.tsSinceOutput + 1, n);
    PayloadsBounded(s.tsSinceOutput, n);
  }

  lemma PayloadsBounded(ts: int, n: nat)
    requires n >= 1 && 0 - n < ts <= LONG_STRETCH * n + 1
    ensures 0 <= CeilDiv(ts, n) <= LONG_STRETCH + 1
  {
    hide CeilDiv;
    PayloadCount(ts, n);
    CeilDivBounds(ts, n);
    CancelFactor(CeilDiv(ts, n) - 1, LONG_STRETCH + 1, n);
  }

  lemma {:induction false} NbBounded(n: nat, pcrs: seq<Option<Pcr>>, k: nat)
    requires Paced(n, pcrs) && k <= |pcrs|
    ensures 0 <= RunAll(n, pcrs[..k]).lastNbPayloads <= LONG_STRETCH + 1
    decreases k
  {
    hide RunAll, CeilDiv, Dated, Paced, ShareDates, Counted;
    if k == 0 {
      PacedIsPositive(n, pcrs);
      RunAllNothing(n);
    } else {
      NbBounded(n, pcrs, k - 1);
      PacedIsPositive(n, pcrs);
      BalanceBounded(n, pcrs, k - 1);
      var now := pcrs[..k];
      assert now[..k - 1] == pcrs[..k - 1];
      RunAllSnoc(n, now);
    }
  }

  lemma PacedIsPositive(n: nat, pcrs: seq<Option<Pcr>>)
    requires Paced(n, pcrs)
    ensures n >= 1
  {
  }

  lemma ProductFits(a: nat, b: nat)
    requires a <= MAX_PCR_GAP * (LONG_STRETCH + 1) && b <= LONG_STRETCH + 1
    ensures FitsUint64(a * b)
  {
    MulMonotone(a, MAX_PCR_GAP * (LONG_STRETCH + 1), b);
    MulMonotone(0, a, b);
  }

  /** A lead-in or a rest whose payloads are not too many. */
  lemma ShareFits(base: nat, nb: nat, diff: nat, per: nat)
    requires per >= 1 && diff <= MAX_PCR_GAP && nb <= LONG_STRETCH + 1 && base <= 3 * MAX_PCR_GAP * MANY_PACKETS
    ensures FitsUint64(diff * nb) && AuxFits(base, nb, diff * nb / per)
    ensures 0 <= diff * nb / per <= MAX_PCR_GAP * (LONG_STRETCH + 1)
  {
    ShareAtMost(diff, nb, per);
    ProductFits(diff, nb);
    ProductFits(diff * nb / per, nb);
  }

  lemma OutputIsFit(s: State, n: nat)
    requires 1 <= n <= LARGE_PAYLOAD
    requires 0 <= s.lastPcrDiff <= MAX_PCR_GAP && 0 <= s.lastStc <= 2 * MAX_PCR_GAP * MANY_PACKETS
    requires 0 - n < s.tsSinceOutput && 0 <= CeilDiv(s.tsSinceOutput, n) <= LONG_STRETCH + 1
    requires 0 <= s.lastNbPayloads <= LONG_STRETCH + 1
    ensures OutputFits(s, n)
  {
    hide CeilDiv;
    if s.tsSinceOutput > 0 {
      var nb := CeilDiv(s.tsSinceOutput, n);
      PayloadCount(s.tsSinceOutput, n);
      MulMonotone(nb, LONG_STRETCH + 1, n);
      MulMonotone(0, nb, n);
      ShareFits(s.lastStc, s.lastNbPayloads, s.lastPcrDiff, nb);
      ProductFits(s.lastPcrDiff, nb);
    }
  }

  /**
    Where the program computes in int and uint64_t, no result leaves its range, at any packet and at the end, if no
    stretch without a PCR is longer than 2^20 payloads. So the unbounded integers of this model lose nothing there.
   */
  lemma NothingWraps(n: nat, pcrs: seq<Option<Pcr>>, k: nat)
    requires Paced(n, pcrs) && k < |pcrs|
    ensures HandleFits(RunAll(n, pcrs[..k]), n, pcrs[k]) && FinishFits(RunAll(n, pcrs), n)
  {
    hide RunAll, CeilDiv, Dated, OutputFits, Counted, UpToLast;
    var s := RunAll(n, pcrs[..k]);
    BalanceBounded(n, pcrs, k);
    NbBounded(n, pcrs, k);
    StcBounded(n, pcrs[..k]);
    SoundAtEnd(s, n, k);
    if pcrs[k].Some? && s.lastPcr != PCR_WRAP {
      OutputIsFit(s.(tsSinceOutput := s.tsSinceOutput + 1, lastPcrDiff := NextDiff(s, pcrs[k].value)), n);
    }
    MulMonotone(CeilDiv(s.tsSinceOutput + 1, n), LONG_STRETCH + 1, n);
    MulMonotone(0, CeilDiv(s.tsSinceOutput + 1, n), n);
    EndFits(n, pcrs);
  }

  lemma EndFits(n: nat, pcrs: seq<Option<Pcr>>)
    requires Paced(n, pcrs)
    ensures FinishFits(RunAll(n, pcrs), n)
  {
    hide RunAll, CeilDiv, Dated, Counted, UpToLast;
    var s := RunAll(n, pcrs);
    assert pcrs[..|pcrs|] == pcrs;
    BalanceBounded(n, pcrs, |pcrs|);
    StcBounded(n, pcrs);
    SoundAtEnd(s, n, |pcrs|);
    if s.lastPcrDiff != 0 {
      ShareFits(s.lastStc, CeilDiv(s.tsSinceOutput, n), s.lastPcrDiff, s.lastNbPayloads);
    }
  }

  // ---------------------------------------------------------------------------------------------
  // The program
  // ---------------------------------------------------------------------------------------------

  /** The program with its static variables, and the auxiliary file it appends to. */
  class Ingester {
    const tsInPayload: nat
    var init: bool
    var tsSinceOutput: int
    var lastPcr: int
    var lastPcrDiff: int
    var lastNbPayloads: int
    var lastStc: int
    var aux: seq<Byte>

    ghost var dates: seq<int>

    ghost function View(): State
      reads this
    {
      State(init, tsSinceOutput, lastPcr, lastPcrDiff, lastNbPayloads, lastStc, dates)
    }

    /** The file holds the bytes of the dates. */
    ghost predicate Valid()
      reads this
    {
      aux == AuxBytes(dates)
    }

    constructor (tsInPayload: nat)
      ensures Valid() && View() == INITIAL && this.tsInPayload == tsInPayload
    {
      this.tsInPayload := tsInPayload;
      init := true;
      tsSinceOutput, lastPcr, lastPcrDiff, lastNbPayloads, lastStc := 0, PCR_WRAP, 0, 0, 0;
      aux, dates := [], [];
    }

    /** Dates payloads: fills a buffer of their dates, and writes it to the file. */
    method OutputAux(nb: nat, duration: nat)
      requires Valid() && lastStc >= 0
      modifies this`aux, this`lastStc, this`dates
      ensures Valid() && View() == WriteDates(old(View()), nb, duration)
      ensures lastStc == old(lastStc) + duration
    {
      hide ShareDate, STCBytes, AuxBytes;
      var buffer := new Byte[STC_SIZE * nb];
      ghost var shares := ShareDates(lastStc, nb, duration);
      assert buffer[..0] == [] == AuxBytes(shares[..0]) by { NoAuxBytes(); }
      for i := 0 to nb
        invariant buffer[..STC_SIZE * i] == AuxBytes(shares[..i])
        modifies buffer
      {
        ShareBounds(lastStc, nb, duration, i, i);
        var stc := ShareDate(lastStc, nb, duration, i);
        ToSTC(buffer, STC_SIZE * i, stc);
        assert buffer[..STC_SIZE * (i + 1)] == buffer[..STC_SIZE * i] + STCBytes(stc);
        assert shares[..i + 1] == shares[..i] + [stc];
        AuxBytesSnoc(shares[..i], stc);
      }
      assert buffer[..] == buffer[..STC_SIZE * nb] && shares[..nb] == shares;
      lastStc := lastStc + duration;
      AuxBytesJoin(dates, shares);
      aux := aux + buffer[..];
      dates := dates + shares;
    }

    method Output()
      requires Valid() && tsInPayload >= 1 && lastStc >= 0 && lastNbPayloads >= 0 && lastPcrDiff >= 0
      modifies this
      ensures Valid() && View() == DateBatch(old(View()), tsInPayload)
    {
      hide WriteDates, CeilDiv;
      if tsSinceOutput <= 0 {
        return;
      }
      var nb := CeilDiv(tsSinceOutput, tsInPayload);
      assert nb >= 1 by { PayloadCount(tsSinceOutput, tsInPayload); }
      if init {
        LeadInIsPositive(lastPcrDiff, lastNbPayloads, nb);
        OutputAux(lastNbPayloads, lastPcrDiff * lastNbPayloads / nb);
        init := false;
      }
      OutputAux(nb, lastPcrDiff);
      tsSinceOutput := tsSinceOutput - nb * tsInPayload;
      lastNbPayloads := nb;
    }

    method OutputFirst()
      requires tsInPayload >= 1
      modifies this`lastNbPayloads, this`tsSinceOutput
      ensures View() == DeferLeadIn(old(View()), tsInPayload)
    {
      lastNbPayloads := (tsSinceOutput + tsInPayload - 1) / tsInPayload;
      tsSinceOutput := tsSinceOutput - lastNbPayloads * tsInPayload;
    }

    /** One packet of the stream. */
    method TSHandle(pcr: Option<Pcr>, ghost handled: nat)
      requires Valid() && Sound(View(), tsInPayload, handled)
      modifies this
      ensures Valid() && View() == Handle(old(View()), tsInPayload, pcr)
      ensures Sound(View(), tsInPayload, handled + 1)
    {
      hide Sound, DateBatch, DeferLeadIn;
      HandleSound(View(), tsInPayload, handled, pcr);
      SoundFacts(View(), tsInPayload, handled);
      SoundAtEnd(View(), tsInPayload, handled);
      tsSinceOutput := tsSinceOutput + 1;
      if pcr.Some? {
        var x := pcr.value;
        if lastPcr == PCR_WRAP {
          lastPcr := x;
          OutputFirst();
          return;
        }
        if PCR_WRAP + x - lastPcr < MAX_PCR_GAP {
          lastPcrDiff := PCR_WRAP + x - lastPcr;
        } else if x < lastPcr || x - lastPcr > MAX_PCR_GAP {
          // a discontinuity: the slope stays
        } else {
          lastPcrDiff := x - lastPcr;
        }
        lastPcr := x;
        Output();
      }
    }

    method OutputLast()
      requires Valid() && tsInPayload >= 1 && 0 - tsInPayload < tsSinceOutput
      requires lastStc >= 0 && lastNbPayloads >= 1 && lastPcrDiff > 0
      modifies this
      ensures Valid() && View() == Finish(old(View()), tsInPayload)
    {
      PayloadCount(tsSinceOutput, tsInPayload);
      var nb := (tsSinceOutput + tsInPayload - 1) / tsInPayload;
      LeadInIsPositive(lastPcrDiff, nb, lastNbPayloads);
      OutputAux(nb, lastPcrDiff * nb / lastNbPayloads);
    }

    /** The whole program: from a stream to its auxiliary file. */
    method Ingest(pcrs: seq<Option<Pcr>>)
      requires Valid() && View() == INITIAL && tsInPayload >= 1
      modifies this
      ensures aux == AuxBytes(Ingested(tsInPayload, pcrs))
    {
      hide Sound, Handle, Finish;
      InitiallySound(tsInPayload);
      ghost var n := tsInPayload;
      for i := 0 to |pcrs|
        invariant Valid() && Sound(View(), n, i)
        invariant Run(View(), n, i, pcrs[i..]) == RunAll(n, pcrs)
      {
        assert pcrs[i..][1..] == pcrs[i + 1..];
        TSHandle(pcrs[i], i);
      }
      SoundAtEnd(View(), n, |pcrs|);
      if lastPcrDiff != 0 {
        OutputLast();
      }
    }
  }

  lemma NoAuxBytes()
    ensures AuxBytes([]) == []
  {
  }

  lemma AuxBytesSnoc(dates: seq<int>, stc: int)
    ensures AuxBytes(dates + [stc]) == AuxBytes(dates) + STCBytes(stc)
  {
    assert (dates + [stc])[..|dates|] == dates;
  }

  lemma SoundAtEnd(s: State, n: nat, handled: nat)
    requires Sound(s, n, handled)
    ensures n >= 1 && 0 - n < s.tsSinceOutput && s.lastStc >= 0 && s.lastPcrDiff >= 0
    ensures s.lastPcrDiff != 0 ==> s.lastNbPayloads >= 1
    ensures s.lastPcrDiff == 0 ==> Finish(s, n) == s
  {
  }
}
