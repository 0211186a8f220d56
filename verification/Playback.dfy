/** Playing a file from a place given by its date: what ingests.c has dated, as multicat.c starts and reads it. */
module Playback {
  import opened Base
  import opened Codec
  import opened AuxFile
  import opened DirStore
  import Ingests

  /** What is played of two files from payload k on. */
  function PlayedFrom(data: seq<Byte>, aux: seq<Byte>, size: nat, k: nat): seq<Record>
    requires size >= 1
  {
    ReadFile(DropTo(data, k * size), DropTo(aux, k * STC_SIZE), size)
  }

  /**
    Any data file, with the auxiliary file that ingest makes of a stream: a relative search that succeeds starts the
    playback right behind all the payloads that are dated before the target, and plays everything else, in order
    and with the dates that ingest gave it.
   */
  lemma IngestThenPlay(n: nat, pcrs: seq<Option<Ingests.Pcr>>, data: seq<Byte>, size: nat, wanted: int, k: nat)
    requires n >= 1 && size >= 1 && |pcrs| <= Ingests.MANY_PACKETS && 0 < wanted < POW2_63
    ensures var dates := Ingests.Ingested(n, pcrs);
            var aux := AuxBytes(dates);
            var all, played := ReadFile(data, aux, size), PlayedFrom(data, aux, size, k);
            IsLookup(aux, wanted, false, k) ==>
              && dates != []
              && |all| <= |dates|
              && (forall i :: 0 <= i < |all| ==> all[i].stc == dates[i])
              && played == (if k <= |all| then all[k..] else [])
              && (forall i :: 0 <= i < |all| ==> (all[i].stc < dates[0] + wanted <==> i < k))
  {
    hide Ingests.Ingested, IsLookup, ReadFile, AuxBytes, DropTo, Fitting, Entry;
    var dates := Ingests.Ingested(n, pcrs);
    var aux := AuxBytes(dates);
    var all := ReadFile(data, aux, size);
    Ingests.IngestThenSeek(n, pcrs, wanted, k);
    Ingests.IngestedFits(n, pcrs);
    Ingests.IngestedSorted(n, pcrs);
    EntriesOfAux(dates);
    ReadFileSkips(data, aux, size, k);
    forall i | 0 <= i < |all| ensures i < |dates| && all[i].stc == dates[i] {
      ReadFileDates(data, aux, size, i);
    }
    if |all| > 0 {
      ReadFileDates(data, aux, size, |all| - 1);
    }
    if IsLookup(aux, wanted, false, k) {
      SplitAtFirst(dates, dates[0] + wanted, k);
    }
  }

  /** In sorted dates, the first at or after a limit splits them. */
  lemma SplitAtFirst(dates: seq<int>, limit: int, k: nat)
    requires Sorted(dates) && k == FirstAtOrAfter(dates, limit)
    ensures forall i :: 0 <= i < |dates| ==> (dates[i] < limit <==> i < k)
  {
  }
}
