/** Auxiliary files: one 64-bit date for each payload, and the search for a date in such a file (util.c). */
module AuxFile {
  import opened Base
  import opened Codec

  /** The bytes of an auxiliary file with the given dates. */
  function AuxBytes(dates: seq<int>): (file: seq<Byte>)
    ensures |file| == STC_SIZE * |dates|
  {
    if dates == [] then [] else AuxBytes(dates[..|dates| - 1]) + STCBytes(dates[|dates| - 1])
  }

  lemma {:induction false} AuxBytesJoin(a: seq<int>, b: seq<int>)
    ensures AuxBytes(a + b) == AuxBytes(a) + AuxBytes(b)
    decreases |b|
  {
    if b == [] {
      assert a + b == a;
    } else {
      assert (a + b)[..|a + b| - 1] == a + b[..|b| - 1];
      AuxBytesJoin(a, b[..|b| - 1]);
    }
  }

  /** The number of whole entries of a file. */
  function Entries(file: seq<Byte>): nat {
    |file| / STC_SIZE
  }

  function Entry(file: seq<Byte>, k: nat): (stc: U64)
    requires k < Entries(file)
  {
    FromSTC(file[k * STC_SIZE..(k + 1) * STC_SIZE])
  }

  /** A file gives back the dates it was made of. */
  lemma {:induction false} EntryOfAux(dates: seq<int>, k: nat)
    requires k < |dates| && 0 <= dates[k] < POW2_64
    ensures k < Entries(AuxBytes(dates)) && Entry(AuxBytes(dates), k) == dates[k]
    decreases |dates|
  {
    hide STCBytes, FromSTC;
    var n := |dates| - 1;
    var file := AuxBytes(dates);
    var older := AuxBytes(dates[..n]);
    if k == n {
      assert file[k * STC_SIZE..(k + 1) * STC_SIZE] == STCBytes(dates[n]);
      STCRoundTrip(dates[n]);
    } else {
      EntryOfAux(dates[..n], k);
      assert file[k * STC_SIZE..(k + 1) * STC_SIZE] == older[k * STC_SIZE..(k + 1) * STC_SIZE];
    }
  }

  // ---------------------------------------------------------------------------------------------
  // Searching
  // ---------------------------------------------------------------------------------------------

  /** The date that a search is for: counted from the last entry when negative, from the first when relative. */
  function Target(file: seq<Byte>, wanted: int, absolute: bool): int
    requires Entries(file) >= 1
  {
    if wanted < 0 then ToInt64(wanted + Entry(file, Entries(file) - 1))
    else if !absolute then ToInt64(wanted + Entry(file, 0))
    else wanted
  }

  predicate SortedEntries(file: seq<Byte>) {
    forall i, j :: 0 <= i < j < Entries(file) ==> Entry(file, i) <= Entry(file, j)
  }

  /** k separates the entries below a date from those at or above it, entry 0 apart. */
  predicate Separates(file: seq<Byte>, target: int, k: int) {
    && 1 <= k <= Entries(file)
    && (forall i :: 1 <= i < k ==> Entry(file, i) < target)
    && (forall i :: k <= i < Entries(file) ==> target <= Entry(file, i))
  }

  /** What LookupAuxFile returns: -1 for no entry or a date before 0, and otherwise a place between two entries. */
  predicate IsLookup(file: seq<Byte>, wanted: int, absolute: bool, r: int) {
    if Entries(file) == 0 || Target(file, wanted, absolute) < 0 then r == -1
    else
      var target := Target(file, wanted, absolute);
      && 1 <= r <= Entries(file)
      && (r > 1 ==> Entry(file, r - 1) < target)
      && (r < Entries(file) ==> target <= Entry(file, r))
      && (SortedEntries(file) ==> Separates(file, target, r))
  }

  /** Finds a date in the bytes of an auxiliary file, by halving. It never returns entry 0. */
  method LookupAuxFile(file: seq<Byte>, wanted: int, absolute: bool) returns (r: int)
    requires -POW2_63 <= wanted < POW2_63
    ensures IsLookup(file, wanted, absolute, r)
  {
    hide FromSTC;
    if |file| < STC_SIZE {
      return -1;
    }
    var offset1, offset2 := 0, |file| / STC_SIZE;
    var target := Target(file, wanted, absolute);
    if target < 0 {
      return -1;
    }
    while true
      invariant 0 <= offset1 < offset2 <= Entries(file)
      invariant offset1 > 0 ==> Entry(file, offset1) < target
      invariant offset2 < Entries(file) ==> target <= Entry(file, offset2)
      decreases offset2 - offset1
    {
      var mid := (offset1 + offset2) / 2;
      if offset1 == mid {
        break;
      }
      if Entry(file, mid) >= target {
        offset2 := mid;
      } else {
        offset1 := mid;
      }
    }
    r := offset2;
  }

  /** The position of the first date at or after a limit, or the number of dates. */
  function FirstAtOrAfter(dates: seq<int>, limit: int): (k: nat)
    ensures k <= |dates|
    ensures forall i :: 0 <= i < k ==> dates[i] < limit
    ensures k < |dates| ==> limit <= dates[k]
  {
    if dates == [] || dates[0] >= limit then 0 else 1 + FirstAtOrAfter(dates[1..], limit)
  }

  predicate Sorted(dates: seq<int>) {
    forall i, j :: 0 <= i < j < |dates| ==> dates[i] <= dates[j]
  }

  /** Dates that fit a signed 64-bit integer. */
  predicate Fitting(dates: seq<int>) {
    forall i :: 0 <= i < |dates| ==> 0 <= dates[i] < POW2_63
  }

  lemma EntriesOfAux(dates: seq<int>)
    requires Fitting(dates)
    ensures Entries(AuxBytes(dates)) == |dates|
    ensures forall i :: 0 <= i < |dates| ==> Entry(AuxBytes(dates), i) == dates[i]
  {
    hide AuxBytes, Entry;
    forall i | 0 <= i < |dates| ensures Entry(AuxBytes(dates), i) == dates[i] {
      EntryOfAux(dates, i);
    }
  }

  /** In sorted dates only one place separates those below a target from the rest. */
  lemma SeparatesOnce(dates: seq<int>, target: int, k: nat, r: int)
    requires k == FirstAtOrAfter(dates, target) && k >= 1
    requires 1 <= r <= |dates|
    requires forall i :: 1 <= i < r ==> dates[i] < target
    requires forall i :: r <= i < |dates| ==> target <= dates[i]
    ensures r == k
  {
    assert r < |dates| ==> target <= dates[r];
    assert k < |dates| ==> target <= dates[k];
  }

  lemma FitsInt64(x: int)
    requires -POW2_63 <= x < POW2_63
    ensures ToInt64(x) == x
  {
  }

  /** What a search returns for a target that is not negative. */
  lemma SeekTarget(dates: seq<int>, wanted: int, absolute: bool, target: int, r: int)
    requires dates != [] && Sorted(dates) && Fitting(dates) && target >= 0
    requires Target(AuxBytes(dates), wanted, absolute) == target
    requires IsLookup(AuxBytes(dates), wanted, absolute, r)
    ensures r == if dates[0] < target then FirstAtOrAfter(dates, target) else 1
  {
    hide AuxBytes, Entry, Entries, Target;
    var file := AuxBytes(dates);
    EntriesOfAux(dates);
    assert SortedEntries(file);
    if dates[0] < target {
      SeparatesOnce(dates, target, FirstAtOrAfter(dates, target), r);
    } else if |dates| > 1 {
      assert dates[0] <= dates[1] == Entry(file, 1);
    }
  }

  /**
    A positive relative search in a file of sorted dates returns exactly the first entry at or after the
    target, or the number of entries if there is none; a search for the first date itself returns 1. It fails exactly
    when the target leaves the range of int64_t.
   */
  lemma RelativeSeek(dates: seq<int>, wanted: int, r: int)
    requires dates != [] && Sorted(dates) && Fitting(dates) && 0 <= wanted < POW2_63
    requires IsLookup(AuxBytes(dates), wanted, false, r)
    ensures r == if dates[0] + wanted >= POW2_63 then -1
                 else if wanted == 0 then 1
                 else FirstAtOrAfter(dates, dates[0] + wanted)
  {
    hide AuxBytes, Entry, Entries, Separates, SortedEntries, ToInt64;
    var target := dates[0] + wanted;
    EntriesOfAux(dates);
    if target < POW2_63 {
      FitsInt64(target);
      assert Target(AuxBytes(dates), wanted, false) == target;
      SeekTarget(dates, wanted, false, target, r);
    } else {
      LeavesInt64(target);
    }
  }

  lemma LeavesInt64(x: int)
    requires POW2_63 <= x < POW2_64
    ensures ToInt64(x) < 0
  {
  }

  /**
    A negative search counts back from the last entry, whether it is absolute or not. It fails exactly if that goes
    beyond 0; otherwise it returns the first entry at or after the target, unless that is entry 0.
   */
  lemma BackwardSeek(dates: seq<int>, wanted: int, absolute: bool, r: int)
    requires dates != [] && Sorted(dates) && Fitting(dates) && -POW2_63 <= wanted < 0
    requires IsLookup(AuxBytes(dates), wanted, absolute, r)
    ensures var target := dates[|dates| - 1] + wanted;
            r == if target < 0 then -1 else if dates[0] < target then FirstAtOrAfter(dates, target) else 1
  {
    hide AuxBytes, Entry, Entries, Separates, SortedEntries, ToInt64;
    var target := dates[|dates| - 1] + wanted;
    EntriesOfAux(dates);
    FitsInt64(target);
    assert Target(AuxBytes(dates), wanted, absolute) == target;
    if target >= 0 {
      SeekTarget(dates, wanted, absolute, target, r);
    }
  }

  /**
    An absolute search returns the first entry at or after the target unless that is entry 0, which
    it never returns: then it returns 1, and the first payload is skipped.
   */
  lemma AbsoluteSeek(dates: seq<int>, wanted: int, r: int)
    requires dates != [] && Sorted(dates) && Fitting(dates) && 0 <= wanted < POW2_63
    requires IsLookup(AuxBytes(dates), wanted, true, r)
    ensures r == if dates[0] < wanted then FirstAtOrAfter(dates, wanted) else 1
  {
    hide AuxBytes, Entry, Entries, IsLookup;
    EntriesOfAux(dates);
    SeekTarget(dates, wanted, true, wanted, r);
  }
}
