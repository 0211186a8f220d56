/** The pacing of file playback in multicat.c: each packet waits for its date, counted from one pair of anchors. */
module Pacing {
  const MAX_LATENESS := 27000000

  /**
    The dates, on the file's clock and on the wall clock, from which both are counted; a wall date of 0 means none
    yet.
   */
  datatype Anchors = Anchors(stc: int, wall: int)

  /** The packet's date on the wall clock. */
  function Scheduled(a: Anchors, stc: int): int {
    a.wall + (stc - a.stc)
  }

  /** The anchors after a packet of date stc came up at a wall date, and how long it sleeps. */
  function Delay(a: Anchors, stc: int, wall: int): (Anchors, nat) {
    if a.wall == 0 then (Anchors(stc, wall), 0)
    else
      var delay := Scheduled(a, stc) - wall;
      if delay > 0 then (a, delay)
      else if delay < -MAX_LATENESS then (Anchors(stc, wall), 0)
      else (a, 0)
  }

  /** A packet that comes up for sending: its date and the wall date. */
  datatype Arrival = Arrival(stc: int, wall: int)

  /** The wall dates at which the packets leave. */
  function Releases(a: Anchors, arrivals: seq<Arrival>): (r: seq<int>)
    ensures |r| == |arrivals|
    decreases |arrivals|
  {
    if arrivals == [] then [] else
      var (next, delay) := Delay(a, arrivals[0].stc, arrivals[0].wall);
      [arrivals[0].wall + delay] + Releases(next, arrivals[1..])
  }

  /** No packet comes up too late, so the anchors stay. */
  predicate OnTime(a: Anchors, arrivals: seq<Arrival>) {
    forall i :: 0 <= i < |arrivals| ==> arrivals[i].wall <= Scheduled(a, arrivals[i].stc) + MAX_LATENESS
  }

  /**
    While the anchors stay, a packet leaves at its date, or when it comes up if that is later: errors do not add up.
   */
  lemma {:induction false} ReleasedOnSchedule(a: Anchors, arrivals: seq<Arrival>, k: nat)
    requires a.wall != 0 && OnTime(a, arrivals) && k < |arrivals|
    ensures var due := Scheduled(a, arrivals[k].stc);
            Releases(a, arrivals)[k] == if arrivals[k].wall < due then due else arrivals[k].wall
    decreases |arrivals|
  {
    assert arrivals[0].wall <= Scheduled(a, arrivals[0].stc) + MAX_LATENESS;
    if k > 0 {
      ReleasedOnSchedule(a, arrivals[1..], k - 1);
    }
  }

  /**
    However many packets lie between two of them, their distance on the wire is off by at most the allowed lateness.
   */
  lemma NoDrift(a: Anchors, arrivals: seq<Arrival>, j: nat, k: nat)
    requires a.wall != 0 && OnTime(a, arrivals) && j < |arrivals| && k < |arrivals|
    ensures var r := Releases(a, arrivals);
            -27_000_000 <= (r[k] - r[j]) - (arrivals[k].stc - arrivals[j].stc) <= 27_000_000
  {
    ReleasedOnSchedule(a, arrivals, j);
    ReleasedOnSchedule(a, arrivals, k);
  }

  /** A packet comes up more than a second behind its date, counted from another one. */
  predicate TooLate(from: Arrival, a: Arrival) {
    a.wall > from.wall + (a.stc - from.stc) + 27_000_000
  }

  /** The packet from which packet k is counted: the first one, or the last one up to it that was too late. */
  function CountedFrom(arrivals: seq<Arrival>, k: nat): (a: nat)
    requires k < |arrivals|
    ensures a <= k
    decreases k
  {
    if k == 0 then 0 else
      var a := CountedFrom(arrivals, k - 1);
      if TooLate(arrivals[a], arrivals[k]) then k else a
  }

  /** The anchors before packet k comes up. */
  function AnchorsAt(a: Anchors, arrivals: seq<Arrival>, k: nat): Anchors
    requires k <= |arrivals|
    decreases k
  {
    if k == 0 then a else Delay(AnchorsAt(a, arrivals, k - 1), arrivals[k - 1].stc, arrivals[k - 1].wall).0
  }

  lemma {:induction false} AnchorsTail(a: Anchors, arrivals: seq<Arrival>, k: nat)
    requires 0 < k <= |arrivals|
    ensures AnchorsAt(a, arrivals, k) == AnchorsAt(Delay(a, arrivals[0].stc, arrivals[0].wall).0, arrivals[1..], k - 1)
    decreases k
  {
    if k > 1 {
      AnchorsTail(a, arrivals, k - 1);
    }
  }

  lemma {:induction false} ReleaseAt(a: Anchors, arrivals: seq<Arrival>, k: nat)
    requires k < |arrivals|
    ensures Releases(a, arrivals)[k]
         == arrivals[k].wall + Delay(AnchorsAt(a, arrivals, k), arrivals[k].stc, arrivals[k].wall).1
    decreases k
  {
    if k > 0 {
      AnchorsTail(a, arrivals, k);
      ReleaseAt(Delay(a, arrivals[0].stc, arrivals[0].wall).0, arrivals[1..], k - 1);
    }
  }

  /** The anchors are those of the packet from which the next one is counted. */
  lemma {:induction false} AnchorsAreCounted(arrivals: seq<Arrival>, k: nat)
    requires k < |arrivals| && forall j :: 0 <= j < |arrivals| ==> arrivals[j].wall != 0
    ensures var from := arrivals[CountedFrom(arrivals, k)];
            AnchorsAt(Anchors(0, 0), arrivals, k + 1) == Anchors(from.stc, from.wall)
    decreases k
  {
    if k > 0 {
      AnchorsAreCounted(arrivals, k - 1);
    } else {
      assert AnchorsAt(Anchors(0, 0), arrivals, 0) == Anchors(0, 0);
    }
  }

  /**
    Every packet of a playback, from the start: it leaves at its date, counted from the first packet or from the last
    one that was too late, or when it comes up if that is later; one that is too late leaves at once.
   */
  lemma EveryRelease(arrivals: seq<Arrival>, k: nat)
    requires k < |arrivals| && forall j :: 0 <= j < |arrivals| ==> arrivals[j].wall != 0
    ensures var from := arrivals[CountedFrom(arrivals, k)];
            var due := from.wall + (arrivals[k].stc - from.stc);
            Releases(Anchors(0, 0), arrivals)[k] == if arrivals[k].wall < due then due else arrivals[k].wall
  {
    ReleaseAt(Anchors(0, 0), arrivals, k);
    if k > 0 {
      AnchorsAreCounted(arrivals, k - 1);
    }
  }

  /** The static variables of file_Delay. */
  class Pacer {
    var fileFirstStc: int
    var fileFirstWall: int

    function View(): Anchors
      reads this
    {
      Anchors(fileFirstStc, fileFirstWall)
    }

    constructor ()
      ensures View() == Anchors(0, 0)
    {
      fileFirstStc, fileFirstWall := 0, 0;
    }

    /** Decides how long to sleep before a packet is sent. */
    method FileDelay(stc: int, wall: int) returns (sleep: nat)
      modifies this
      ensures (View(), sleep) == Delay(old(View()), stc, wall)
    {
      sleep := 0;
      if fileFirstWall == 0 {
        fileFirstWall := wall;
        fileFirstStc := stc;
      } else {
        var delay := (stc - fileFirstStc) - (wall - fileFirstWall);
        if delay > 0 {
          sleep := delay;
        } else if delay < -MAX_LATENESS {
          fileFirstWall := wall;
          fileFirstStc := stc;
        }
      }
    }
  }
}
