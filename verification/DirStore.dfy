/**
  The directory format of multicat.c: payloads and their dates in parallel files that are rotated by date,
  repaired when they are opened for writing, and read back one file after the other.
 */
module DirStore {
  import opened Base
  import opened Codec
  import opened AuxFile

  /** A payload with its date. */
  datatype Record = Record(payload: seq<Byte>, stc: int)

  /** A data file and its auxiliary file. */
  datatype Pair = Pair(data: seq<Byte>, aux: seq<Byte>)

  const NO_FILES := Pair([], [])

  type Directory = map<nat, Pair>

  // ---------------------------------------------------------------------------------------------
  // One pair of files
  // ---------------------------------------------------------------------------------------------

  function Stcs(records: seq<Record>): (r: seq<int>)
    ensures |r| == |records|
  {
    seq(|records|, i requires 0 <= i < |records| => records[i].stc)
  }

  function Payloads(records: seq<Record>): seq<Byte> {
    if records == [] then [] else records[0].payload + Payloads(records[1..])
  }

  /** The files that hold the records. */
  function Encoded(records: seq<Record>): Pair {
    Pair(Payloads(records), AuxBytes(Stcs(records)))
  }

  /** Payloads of one size, and dates that fit a signed 64-bit integer. */
  predicate Sized(records: seq<Record>, size: nat) {
    forall i :: 0 <= i < |records| ==> |records[i].payload| == size && 0 < records[i].stc < POW2_63
  }

  lemma {:induction false} PayloadsJoin(a: seq<Record>, b: seq<Record>)
    ensures Payloads(a + b) == Payloads(a) + Payloads(b)
    decreases |a|
  {
    if a == [] {
      assert a + b == b;
    } else {
      assert (a + b)[1..] == a[1..] + b;
      PayloadsJoin(a[1..], b);
    }
  }

  lemma {:induction false} PayloadsSize(records: seq<Record>, size: nat)
    requires Sized(records, size)
    ensures |Payloads(records)| == |records| * size
    decreases |records|
  {
    if records != [] {
      PayloadsSize(records[1..], size);
      assert |records| * size == |records[1..]| * size + size;
    }
  }

  function Join(a: Pair, b: Pair): Pair {
    Pair(a.data + b.data, a.aux + b.aux)
  }

  lemma EncodedJoin(a: seq<Record>, b: seq<Record>)
    ensures Encoded(a + b) == Join(Encoded(a), Encoded(b))
  {
    PayloadsJoin(a, b);
    assert Stcs(a + b) == Stcs(a) + Stcs(b);
    AuxBytesJoin(Stcs(a), Stcs(b));
  }

  // ---------------------------------------------------------------------------------------------
  // Repair
  // ---------------------------------------------------------------------------------------------

  /** The number of packets that both files hold in full. */
  function WholePackets(p: Pair, size: nat): nat
    requires size >= 1
  {
    if |p.data| / size <= |p.aux| / STC_SIZE then |p.data| / size else |p.aux| / STC_SIZE
  }

  /** What is left of two files after a repair. */
  function Repaired(p: Pair, size: nat): Pair
    requires size >= 1
  {
    var m := WholePackets(p, size);
    WholeFits(p, size);
    Pair(p.data[..m * size], p.aux[..m * STC_SIZE])
  }

  lemma WholeFits(p: Pair, size: nat)
    requires size >= 1
    ensures WholePackets(p, size) * size <= |p.data|
    ensures WholePackets(p, size) * STC_SIZE <= |p.aux|
  {
    MulMonotone(WholePackets(p, size), |p.data| / size, size);
  }

  /** Checks the sizes of two files, and truncates them to the same number of whole packets. */
  method CheckFileSizes(p: Pair, size: nat) returns (r: Pair)
    requires size >= 1
    ensures r == Repaired(p, size)
  {
    WholeFits(p, size);
    r := p;
    var filePackets := |p.data| / size;
    assert filePackets * size <= |p.data|;
    if |p.data| % size != 0 {
      r := r.(data := p.data[..filePackets * size]);
    }
    var auxPackets := |p.aux| / STC_SIZE;
    if |p.aux| % STC_SIZE != 0 {
      r := r.(aux := p.aux[..auxPackets * STC_SIZE]);
    }
    assert r == Pair(p.data[..filePackets * size], p.aux[..auxPackets * STC_SIZE]);
    if filePackets < auxPackets {
      r := r.(aux := r.aux[..filePackets * STC_SIZE]);
    } else if auxPackets < filePackets {
      MulMonotone(auxPackets, filePackets, size);
      r := r.(data := r.data[..auxPackets * size]);
    }
  }

  /** The first m records of two files are in the first m shares of each. */
  lemma EncodedPrefix(records: seq<Record>, size: nat, m: nat)
    requires Sized(records, size) && m <= |records|
    ensures m * size <= |Encoded(records).data| && m * STC_SIZE <= |Encoded(records).aux|
    ensures Encoded(records[..m]) == Pair(Encoded(records).data[..m * size], Encoded(records).aux[..m * STC_SIZE])
  {
    hide AuxBytes;
    assert records == records[..m] + records[m..];
    EncodedJoin(records[..m], records[m..]);
    PayloadsSize(records[..m], size);
  }

  lemma PrefixPackets(length: nat, cut: nat, size: nat)
    requires size >= 1 && cut <= length * size
    ensures cut / size <= length
  {
    DivMonotone(cut, length * size, size);
    DivUnique(length, size, length * size);
  }

  /**
    Repair after a crash: wherever the two files were cut off, both are left with the same whole packets,
    as many as the shorter one holds, and each of them still has its own date.
   */
  lemma RepairKeepsPairs(records: seq<Record>, size: nat, a: nat, b: nat)
    requires size >= 1 && Sized(records, size)
    requires a <= |Encoded(records).data| && b <= |Encoded(records).aux|
    ensures var m := if a / size <= b / STC_SIZE then a / size else b / STC_SIZE;
            && m <= |records|
            && Repaired(Pair(Encoded(records).data[..a], Encoded(records).aux[..b]), size) == Encoded(records[..m])
  {
    hide AuxBytes, Payloads;
    var full := Encoded(records);
    PayloadsSize(records, size);
    PrefixPackets(|records|, a, size);
    var p := Pair(full.data[..a], full.aux[..b]);
    var m := WholePackets(p, size);
    WholeFits(p, size);
    EncodedPrefix(records, size, m);
    assert p.data[..m * size] == full.data[..m * size];
    assert p.aux[..m * STC_SIZE] == full.aux[..m * STC_SIZE];
  }

  // ---------------------------------------------------------------------------------------------
  // Writing
  // ---------------------------------------------------------------------------------------------

  /** The number of the file for a date; a date that is not positive counts from the present. */
  function GetDirFile(rotate: nat, wanted: int, present: nat): nat
    requires rotate >= 1
  {
    var w := if wanted <= 0 then wanted + present else wanted;
    if w <= 0 then 0 else w / rotate
  }

  /**
    The file for a date: a positive one is in the period of the file's number, one that is not positive
    counts from the present, and what is then still not positive goes to file 0.
   */
  lemma GetDirFileCovers(rotate: nat, wanted: int, present: nat)
    requires rotate >= 1
    ensures var f := GetDirFile(rotate, wanted, present);
            var date := if wanted > 0 then wanted else wanted + present;
            if date > 0 then f * rotate <= date < (f + 1) * rotate else f == 0
  {
  }

  function FileOf(rotate: nat, r: Record): nat
    requires rotate >= 1
  {
    if r.stc <= 0 then 0 else r.stc / rotate
  }

  function Lookup(files: Directory, f: nat): Pair {
    if f in files then files[f] else NO_FILES
  }

  /** The records of a file number, in the order in which they were written. */
  function Group(rotate: nat, records: seq<Record>, f: nat): seq<Record>
    requires rotate >= 1
    decreases |records|
  {
    if records == [] then [] else
      var last := records[|records| - 1];
      Group(rotate, records[..|records| - 1], f) + (if FileOf(rotate, last) == f then [last] else [])
  }

  /** What a pair of files is after some records were written to the directory. */
  function After(rotate: nat, size: nat, before: Directory, records: seq<Record>, f: nat): Pair
    requires rotate >= 1 && size >= 1 && Sized(records, size)
  {
    var group := Group(rotate, records, f);
    if group == [] then Lookup(before, f)
    else Join(Repaired(Lookup(before, f), size), Encoded(group))
  }

  /** Files that are whole as the writer leaves them are left alone by the next repair. */
  lemma RepairOfJoin(p: Pair, records: seq<Record>, size: nat)
    requires size >= 1 && Sized(records, size)
    ensures var q := Join(Repaired(p, size), Encoded(records)); Repaired(q, size) == q
  {
    hide AuxBytes, Payloads;
    var q := Join(Repaired(p, size), Encoded(records));
    var m := WholePackets(p, size);
    WholeFits(p, size);
    PayloadsSize(records, size);
    var n := m + |records|;
    assert n * size == m * size + |records| * size;
    assert |q.data| == n * size && |q.aux| == n * STC_SIZE;
    DivUnique(n, size, n * size);
    assert q.data[..|q.data|] == q.data && q.aux[..|q.aux|] == q.aux;
  }

  lemma {:induction false} GroupSized(rotate: nat, records: seq<Record>, f: nat, size: nat)
    requires rotate >= 1 && Sized(records, size)
    ensures Sized(Group(rotate, records, f), size)
    ensures forall r :: r in Group(rotate, records, f) ==> r in records && FileOf(rotate, r) == f
    decreases |records|
  {
    if records != [] {
      GroupSized(rotate, records[..|records| - 1], f, size);
    }
  }

  /** Opening for writing leaves the same files whether the writer comes back to them or comes for the first time. */
  lemma OpenedFile(rotate: nat, size: nat, before: Directory, records: seq<Record>, f: nat)
    requires rotate >= 1 && size >= 1 && Sized(records, size)
    ensures var whole := Join(Repaired(Lookup(before, f), size), Encoded(Group(rotate, records, f)));
            && Repaired(After(rotate, size, before, records, f), size) == whole
            && (Group(rotate, records, f) != [] ==> After(rotate, size, before, records, f) == whole)
  {
    hide Payloads, AuxBytes, Repaired, Group;
    var group := Group(rotate, records, f);
    GroupSized(rotate, records, f, size);
    RepairOfJoin(Lookup(before, f), group, size);
    if group == [] {
      NothingEncoded();
    }
  }

  lemma NothingEncoded()
    ensures Encoded([]) == NO_FILES
  {
  }

  lemma OneEncoded(r: Record)
    ensures Encoded([r]) == Pair(r.payload, STCBytes(r.stc))
  {
    hide STCBytes;
    assert Stcs([r]) == [r.stc] && [r.stc][..0] == [];
    assert AuxBytes([r.stc]) == AuxBytes([]) + STCBytes(r.stc) == [] + STCBytes(r.stc);
    assert [r][1..] == [] && Payloads([r]) == r.payload + [];
  }

  /** One more record goes to the end of its own file, and to no other. */
  lemma WrittenFile(rotate: nat, size: nat, before: Directory, records: seq<Record>, r: Record, f: nat)
    requires rotate >= 1 && size >= 1 && Sized(records + [r], size)
    ensures Sized(records, size)
    ensures Group(rotate, records + [r], f) == Group(rotate, records, f) + (if FileOf(rotate, r) == f then [r] else [])
    ensures After(rotate, size, before, records + [r], f)
         == if FileOf(rotate, r) == f
            then Join(Join(Repaired(Lookup(before, f), size), Encoded(Group(rotate, records, f))),
                      Pair(r.payload, STCBytes(r.stc)))
            else After(rotate, size, before, records, f)
  {
    hide Payloads, AuxBytes, STCBytes, Repaired, Join;
    assert Sized(records, size) by {
      forall i | 0 <= i < |records| ensures |records[i].payload| == size && 0 < records[i].stc < POW2_63 {
        assert (records + [r])[i] == records[i];
      }
    }
    assert (records + [r])[..|records|] == records && (records + [r])[|records|] == r;
    var group := Group(rotate, records, f);
    EncodedJoin(group, [r]);
    OneEncoded(r);
    JoinAssociates(Repaired(Lookup(before, f), size), Encoded(group), Encoded([r]));
    if FileOf(rotate, r) == f {
      assert Group(rotate, records + [r], f) == group + [r];
    } else {
      assert Group(rotate, records + [r], f) == group;
    }
  }

  lemma JoinAssociates(a: Pair, b: Pair, c: Pair)
    ensures Join(Join(a, b), c) == Join(a, Join(b, c))
  {
  }

  /**
    What a writer that starts with one directory has made of it: every file is as it was before, until a record
    belongs to it; then it is repaired, and holds the records of its number behind what the repair left.
   */
  ghost predicate Written(before: Directory, after: Directory, rotate: nat, size: nat, records: seq<Record>)
    requires rotate >= 1 && size >= 1 && Sized(records, size)
  {
    && (forall f :: Lookup(after, f) == After(rotate, size, before, records, f))
    && (forall f :: f in after <==> f in before || Group(rotate, records, f) != [])
  }

  /** The writer, with the directory it writes to. */
  class Writer {
    const rotate: nat
    const size: nat
    var files: Directory
    var open: bool
    var current: nat

    ghost const before: Directory
    ghost var written: seq<Record>

    ghost predicate Valid()
      reads this
    {
      && rotate >= 1 && size >= 1
      && Sized(written, size)
      && (open ==> current in files && Group(rotate, written, current) != [])
      && Written(before, files, rotate, size, written)
    }

    constructor (rotate: nat, size: nat, files: Directory)
      requires rotate >= 1 && size >= 1
      ensures Valid() && written == [] && before == files && this.rotate == rotate && this.size == size
    {
      this.rotate, this.size, this.files := rotate, size, files;
      before := files;
      open, current := false, 0;
      written := [];
    }

    /** Opens a pair of files for writing: checks their sizes, and creates them if there are none. */
    method OpenDirFile(f: nat)
      requires size >= 1
      modifies this`files
      ensures files == old(files)[f := Repaired(Lookup(old(files), f), size)]
    {
      var p := CheckFileSizes(Lookup(files, f), size);
      files := files[f := p];
    }

    /** Appends a payload and its date to the open files. */
    method FileWrite(payload: seq<Byte>, stc: U64)
      requires current in files
      modifies this`files
      ensures files == old(files)[current := Join(old(files)[current], Pair(payload, STCBytes(stc)))]
    {
      var buffer := new Byte[STC_SIZE];
      ToSTC(buffer, 0, stc);
      assert buffer[..] == STCBytes(stc);
      files := files[current := Pair(files[current].data + payload, files[current].aux + buffer[..])];
    }

    /** Writes a record to the file of its date. */
    method DirWrite(payload: seq<Byte>, stc: U64, present: nat)
      requires Valid() && |payload| == size && 0 < stc < POW2_63
      modifies this
      ensures Valid() && written == old(written) + [Record(payload, stc)]
    {
      hide After, Group, Encoded, Join, Repaired, STCBytes;
      ghost var r := Record(payload, stc);
      var f := GetDirFile(rotate, stc, present);
      assert f == FileOf(rotate, r);
      SizedSnoc(written, r, size);
      OpenedFile(rotate, size, before, written, f);
      if !open || f != current {
        current := f;
        open := true;
        OpenDirFile(f);
      }
      FileWrite(payload, stc);
      forall g: nat
        ensures Lookup(files, g) == After(rotate, size, before, written + [r], g)
        ensures Group(rotate, written + [r], g) == Group(rotate, written, g) + (if f == g then [r] else [])
      {
        WrittenFile(rotate, size, before, written, r, g);
      }
      written := written + [r];
    }
  }

  lemma SizedSnoc(records: seq<Record>, r: Record, size: nat)
    requires Sized(records, size) && |r.payload| == size && 0 < r.stc < POW2_63
    ensures Sized(records + [r], size)
  {
  }

  // ---------------------------------------------------------------------------------------------
  // Reading
  // ---------------------------------------------------------------------------------------------

  function Least(a: nat, b: nat): nat {
    if a <= b then a else b
  }

  /**
    What successive reads get from two open files: up to `size` bytes of payload and a date, as long as there are
    both.
   */
  function ReadFile(data: seq<Byte>, aux: seq<Byte>, size: nat): seq<Record>
    requires size >= 1
    decreases |data|
  {
    if data == [] || |aux| < STC_SIZE then [] else
      var n := Least(size, |data|);
      [Record(data[..n], FromSTC(aux))] + ReadFile(data[n..], aux[STC_SIZE..], size)
  }

  /** What is left of a file behind a place. */
  function DropTo(s: seq<Byte>, n: nat): seq<Byte> {
    if n <= |s| then s[n..] else []
  }

  /** Two files from the same number of shares on give what they give without as many records. */
  lemma {:induction false} ReadFileSkips(data: seq<Byte>, aux: seq<Byte>, size: nat, k: nat)
    requires size >= 1
    ensures var all := ReadFile(data, aux, size);
            ReadFile(DropTo(data, k * size), DropTo(aux, k * STC_SIZE), size) == if k <= |all| then all[k..] else []
    decreases k
  {
    hide FromSTC, DropTo, ReadFile;
    if k == 0 {
      DropNothing(data);
      DropNothing(aux);
    } else if data != [] && |aux| >= STC_SIZE {
      var n := Least(size, |data|);
      ReadFileSkips(data[n..], aux[STC_SIZE..], size, k - 1);
      SkipOne(data, size, k);
      SkipOne(aux, STC_SIZE, k);
      var r := ReadFileHead(data, aux, size);
      var rest := ReadFile(data[n..], aux[STC_SIZE..], size);
      assert k - 1 <= |rest| ==> ([r] + rest)[k..] == rest[k - 1..];
    } else {
      SkipShort(data, aux, size, k);
      ReadNothing(data, aux, size);
      ReadNothing(DropTo(data, k * size), DropTo(aux, k * STC_SIZE), size);
    }
  }

  lemma ReadFileHead(data: seq<Byte>, aux: seq<Byte>, size: nat) returns (r: Record)
    requires size >= 1 && data != [] && |aux| >= STC_SIZE
    ensures ReadFile(data, aux, size) == [r] + ReadFile(data[Least(size, |data|)..], aux[STC_SIZE..], size)
  {
    hide FromSTC;
    r := ReadFile(data, aux, size)[0];
  }

  lemma ReadNothing(data: seq<Byte>, aux: seq<Byte>, size: nat)
    requires size >= 1 && (data == [] || |aux| < STC_SIZE)
    ensures ReadFile(data, aux, size) == []
  {
  }

  lemma DropNothing(s: seq<Byte>)
    ensures DropTo(s, 0) == s
  {
  }

  lemma SkipOne(s: seq<Byte>, size: nat, k: nat)
    requires size >= 1 && k >= 1
    ensures k * size >= 0 && (k - 1) * size >= 0
    ensures DropTo(s, k * size) == DropTo(s[Least(size, |s|)..], (k - 1) * size)
  {
    assert k * size == (k - 1) * size + size;
  }

  lemma SkipShort(data: seq<Byte>, aux: seq<Byte>, size: nat, k: nat)
    requires size >= 1 && k >= 1 && (data == [] || |aux| < STC_SIZE)
    ensures DropTo(data, k * size) == [] || |DropTo(aux, k * STC_SIZE)| < STC_SIZE
  {
  }

  /** The records that are read have the dates of the auxiliary file, in order. */
  lemma {:induction false} ReadFileDates(data: seq<Byte>, aux: seq<Byte>, size: nat, i: nat)
    requires size >= 1 && i < |ReadFile(data, aux, size)|
    ensures i < Entries(aux) && ReadFile(data, aux, size)[i].stc == Entry(aux, i)
    decreases i
  {
    hide FromSTC;
    if i == 0 {
      FromSTCHead(aux);
    } else {
      var n := Least(size, |data|);
      ReadFileDates(data[n..], aux[STC_SIZE..], size, i - 1);
      EntryTail(aux, i);
    }
  }

  lemma FromSTCHead(aux: seq<Byte>)
    requires |aux| >= STC_SIZE
    ensures Entries(aux) > 0 && FromSTC(aux) == Entry(aux, 0)
  {
  }

  lemma EntryTail(aux: seq<Byte>, i: nat)
    requires |aux| >= STC_SIZE && 0 < i && i - 1 < Entries(aux[STC_SIZE..])
    ensures i < Entries(aux) && Entry(aux, i) == Entry(aux[STC_SIZE..], i - 1)
  {
    hide FromSTC;
    SliceOfDrop(aux, STC_SIZE, i * STC_SIZE, (i + 1) * STC_SIZE);
  }

  lemma SliceOfDrop(s: seq<Byte>, d: nat, i: nat, j: nat)
    requires d <= i <= j <= |s|
    ensures s[i..j] == s[d..][i - d..j - d]
  {
  }

  /** The file numbers from f on. */
  function NumbersFrom(files: Directory, f: nat): set<nat> {
    set k | k in files.Keys && k >= f
  }

  lemma NumbersShrink(files: Directory, f: nat)
    requires f in files
    ensures NumbersFrom(files, f + 1) < NumbersFrom(files, f)
  {
    assert f in NumbersFrom(files, f) && f !in NumbersFrom(files, f + 1);
  }

  /** What successive reads get from file f on, up to the first number for which there is no file. */
  function ReadDir(files: Directory, f: nat, size: nat): seq<Record>
    requires size >= 1
    decreases NumbersFrom(files, f)
  {
    if f !in files then [] else
      NumbersShrink(files, f);
      ReadFile(files[f].data, files[f].aux, size) + ReadDir(files, f + 1, size)
  }

  /** Files that hold records give back those records. */
  lemma {:induction false} ReadEncoded(records: seq<Record>, size: nat)
    requires size >= 1 && Sized(records, size)
    ensures ReadFile(Encoded(records).data, Encoded(records).aux, size) == records
    decreases |records|
  {
    hide AuxBytes, FromSTC, STCBytes;
    if records != [] {
      var r, rest := records[0], records[1..];
      assert records == [r] + rest;
      EncodedJoin([r], rest);
      OneEncoded(r);
      STCRoundTrip(r.stc);
      var data, aux := Encoded(records).data, Encoded(records).aux;
      assert data[..size] == r.payload && data[size..] == Encoded(rest).data;
      assert aux[STC_SIZE..] == Encoded(rest).aux;
      assert FromSTC(aux) == r.stc by { FromSTCPrefix(STCBytes(r.stc), Encoded(rest).aux); }
      ReadEncoded(rest, size);
    }
  }

  lemma FromSTCPrefix(a: seq<Byte>, b: seq<Byte>)
    requires |a| >= STC_SIZE
    ensures FromSTC(a + b) == FromSTC(a)
  {
  }

  /** The directory holds exactly the records, each in the file of its date. */
  ghost predicate Holds(files: Directory, rotate: nat, size: nat, records: seq<Record>)
    requires rotate >= 1 && size >= 1 && Sized(records, size)
  {
    forall f: nat {:trigger f in files} ::
      && (f in files <==> Group(rotate, records, f) != [])
      && (f in files ==> files[f] == Encoded(Group(rotate, records, f)))
  }

  /** What a writer leaves of an empty directory. */
  lemma WriterHolds(files: Directory, rotate: nat, size: nat, records: seq<Record>)
    requires rotate >= 1 && size >= 1 && Sized(records, size)
    requires Written(map[], files, rotate, size, records)
    ensures Holds(files, rotate, size, records)
  {
    hide Encoded;
    forall f: nat | f in files ensures files[f] == Encoded(Group(rotate, records, f)) {
      var e := Encoded(Group(rotate, records, f));
      assert files[f] == Lookup(files, f);
      assert Repaired(NO_FILES, size) == NO_FILES;
      assert [] + e.data == e.data && [] + e.aux == e.aux;
    }
  }

  lemma {:induction false} GroupJoin(rotate: nat, a: seq<Record>, b: seq<Record>, f: nat, size: nat)
    requires rotate >= 1 && Sized(a, size) && Sized(b, size)
    ensures Sized(a + b, size)
    ensures Group(rotate, a + b, f) == Group(rotate, a, f) + Group(rotate, b, f)
    decreases |b|
  {
    if b == [] {
      assert a + b == a;
    } else {
      assert (a + b)[..|a + b| - 1] == a + b[..|b| - 1];
      GroupJoin(rotate, a, b[..|b| - 1], f, size);
    }
  }

  lemma {:induction false} GroupOfOne(rotate: nat, records: seq<Record>, f: nat, g: nat, size: nat)
    requires rotate >= 1 && Sized(records, size)
    requires forall r :: r in records ==> FileOf(rotate, r) == f
    ensures Group(rotate, records, g) == if f == g then records else []
    decreases |records|
  {
    if records != [] {
      var n := |records| - 1;
      GroupOfOne(rotate, records[..n], f, g, size);
      assert records == records[..n] + [records[n]];
    }
  }

  lemma {:induction false} GroupOfNone(rotate: nat, records: seq<Record>, f: nat, size: nat)
    requires rotate >= 1 && Sized(records, size)
    requires forall r :: r in records ==> FileOf(rotate, r) != f
    ensures Group(rotate, records, f) == []
    decreases |records|
  {
    if records != [] {
      GroupOfNone(rotate, records[..|records| - 1], f, size);
    }
  }

  /** Reading from file f on gives the records of that file first, and nothing if there are none. */
  lemma ReadHeld(files: Directory, rotate: nat, size: nat, records: seq<Record>, f: nat)
    requires rotate >= 1 && size >= 1 && Sized(records, size) && Holds(files, rotate, size, records)
    ensures f in files <==> Group(rotate, records, f) != []
    ensures ReadDir(files, f, size)
         == if f in files then Group(rotate, records, f) + ReadDir(files, f + 1, size) else []
  {
    hide Encoded, Group, ReadFile;
    if f in files {
      GroupSized(rotate, records, f, size);
      ReadEncoded(Group(rotate, records, f), size);
    }
  }

  predicate AllIn(rotate: nat, records: seq<Record>, f: nat)
    requires rotate >= 1
  {
    forall r :: r in records ==> FileOf(rotate, r) == f
  }

  predicate AllBelow(rotate: nat, records: seq<Record>, f: nat)
    requires rotate >= 1
  {
    forall r :: r in records ==> FileOf(rotate, r) < f
  }

  predicate AllAbove(rotate: nat, records: seq<Record>, f: nat)
    requires rotate >= 1
  {
    forall r :: r in records ==> FileOf(rotate, r) > f
  }

  /** Each record goes to the file of the one before it, or to the next one. */
  predicate Steady(rotate: nat, records: seq<Record>)
    requires rotate >= 1
  {
    forall i {:trigger records[i]} :: 0 < i < |records| ==>
      0 <= FileOf(rotate, records[i]) - FileOf(rotate, records[i - 1]) <= 1
  }

  /** Reading file after file only ever steps to the next one. */
  lemma {:induction false} ReadIsSteady(files: Directory, rotate: nat, size: nat, records: seq<Record>, f: nat)
    requires rotate >= 1 && size >= 1 && Sized(records, size) && Holds(files, rotate, size, records)
    ensures var s := ReadDir(files, f, size);
            && (s != [] ==> FileOf(rotate, s[0]) == f)
            && Steady(rotate, s)
    decreases NumbersFrom(files, f)
  {
    hide Encoded, Group, ReadDir, FileOf, NumbersFrom, Holds;
    ReadHeld(files, rotate, size, records, f);
    if f in files {
      NumbersShrink(files, f);
      var group := Group(rotate, records, f);
      GroupSized(rotate, records, f, size);
      ReadIsSteady(files, rotate, size, records, f + 1);
      var rest := ReadDir(files, f + 1, size);
      var s := group + rest;
      assert ReadDir(files, f, size) == s;
      forall i {:trigger s[i]} | 0 < i < |s| ensures 0 <= FileOf(rotate, s[i]) - FileOf(rotate, s[i - 1]) <= 1 {
        assert i > |group| ==> s[i] == rest[i - |group|] && s[i - 1] == rest[i - |group| - 1];
        assert i <= |group| ==> s[i - 1] in group;
        assert i < |group| ==> s[i] in group;
      }
    }
  }

  /** The number of leading records of file f. */
  function Leading(rotate: nat, records: seq<Record>, f: nat): (k: nat)
    requires rotate >= 1
    ensures k <= |records|
    ensures forall i :: 0 <= i < k ==> FileOf(rotate, records[i]) == f
    ensures k < |records| ==> FileOf(rotate, records[k]) != f
    decreases |records|
  {
    if records == [] || FileOf(rotate, records[0]) != f then 0 else 1 + Leading(rotate, records[1..], f)
  }

  /** From the first of some steady records on, no file number is below the first. */
  lemma {:induction false} SteadyGrows(rotate: nat, records: seq<Record>, i: nat)
    requires rotate >= 1 && Steady(rotate, records) && i < |records|
    ensures FileOf(rotate, records[0]) <= FileOf(rotate, records[i])
    decreases i
  {
    if i > 0 {
      SteadyGrows(rotate, records, i - 1);
    }
  }

  /** Steady records split into those of their first file and steady ones from the next file on. */
  lemma SteadySplits(rotate: nat, records: seq<Record>, f: nat, size: nat) returns (k: nat)
    requires rotate >= 1 && Sized(records, size) && Steady(rotate, records)
    requires records != [] && FileOf(rotate, records[0]) == f
    ensures 0 < k <= |records|
    ensures AllIn(rotate, records[..k], f)
    ensures AllAbove(rotate, records[k..], f)
    ensures Steady(rotate, records[k..])
    ensures records[k..] != [] ==> FileOf(rotate, records[k..][0]) == f + 1
  {
    k := Leading(rotate, records, f);
    var rest := records[k..];
    forall i {:trigger rest[i]} | 0 < i < |rest|
      ensures 0 <= FileOf(rotate, rest[i]) - FileOf(rotate, rest[i - 1]) <= 1
    {
      assert rest[i] == records[k + i] && rest[i - 1] == records[k + i - 1];
    }
    if rest != [] {
      assert 0 <= FileOf(rotate, records[k]) - FileOf(rotate, records[k - 1]) <= 1;
      forall r | r in rest ensures FileOf(rotate, r) > f {
        var i :| 0 <= i < |rest| && rest[i] == r;
        SteadyGrows(rotate, rest, i);
      }
    }
  }

  /** Steady records are read back from the file where they begin, whatever files lie below. */
  lemma {:induction false} SteadyReadsBack(files: Directory, rotate: nat, size: nat,
                                           below: seq<Record>, records: seq<Record>, f: nat)
    requires rotate >= 1 && size >= 1 && Sized(below, size) && Sized(records, size) && Sized(below + records, size)
    requires Holds(files, rotate, size, below + records)
    requires AllBelow(rotate, below, f)
    requires Steady(rotate, records) && (records != [] ==> FileOf(rotate, records[0]) == f)
    ensures ReadDir(files, f, size) == records
    decreases |records|
  {
    hide Encoded, Group, ReadDir, Holds, Steady, FileOf, AllIn, AllBelow, AllAbove, Sized;
    ReadHeld(files, rotate, size, below + records, f);
    if records == [] {
      NothingBelow(rotate, below, f, size);
      assert below + records == below;
    } else {
      var k := SteadySplits(rotate, records, f, size);
      SplitBelow(rotate, below, records, k, f, size);
      SteadyReadsBack(files, rotate, size, below + records[..k], records[k..], f + 1);
    }
  }

  /** The records of file f move below, and the later ones stay. */
  lemma SplitBelow(rotate: nat, below: seq<Record>, records: seq<Record>, k: nat, f: nat, size: nat)
    requires rotate >= 1 && Sized(below, size) && Sized(records, size) && k <= |records|
    requires AllBelow(rotate, below, f) && AllIn(rotate, records[..k], f) && AllAbove(rotate, records[k..], f)
    ensures below + records == below + records[..k] + records[k..]
    ensures records == records[..k] + records[k..]
    ensures Sized(below + records[..k], size) && Sized(records[k..], size)
    ensures AllBelow(rotate, below + records[..k], f + 1)
    ensures Group(rotate, below + records, f) == records[..k]
  {
    hide Group, AllIn, AllBelow, AllAbove;
    SizedSlices(records, k, size);
    BelowGrows(rotate, below, records[..k], f, size);
    assert below + records == below + records[..k] + records[k..];
    GroupInMiddle(rotate, below, records[..k], records[k..], f, size);
  }

  lemma NothingBelow(rotate: nat, below: seq<Record>, f: nat, size: nat)
    requires rotate >= 1 && Sized(below, size) && AllBelow(rotate, below, f)
    ensures Group(rotate, below, f) == []
  {
    GroupOfNone(rotate, below, f, size);
  }

  lemma SizedSlices(records: seq<Record>, k: nat, size: nat)
    requires Sized(records, size) && k <= |records|
    ensures Sized(records[..k], size) && Sized(records[k..], size)
  {
  }

  lemma BelowGrows(rotate: nat, below: seq<Record>, now: seq<Record>, f: nat, size: nat)
    requires rotate >= 1 && Sized(below, size) && Sized(now, size)
    requires AllBelow(rotate, below, f)
    requires AllIn(rotate, now, f)
    ensures Sized(below + now, size)
    ensures AllBelow(rotate, below + now, f + 1)
  {
  }

  lemma GroupInMiddle(rotate: nat, below: seq<Record>, now: seq<Record>, later: seq<Record>, f: nat, size: nat)
    requires rotate >= 1 && Sized(below, size) && Sized(now, size) && Sized(later, size)
    requires AllBelow(rotate, below, f)
    requires AllIn(rotate, now, f)
    requires AllAbove(rotate, later, f)
    ensures Sized(below + now + later, size) && Group(rotate, below + now + later, f) == now
  {
    hide Group;
    GroupOfNone(rotate, below, f, size);
    GroupOfOne(rotate, now, f, f, size);
    GroupOfNone(rotate, later, f, size);
    GroupJoin(rotate, below, now, f, size);
    GroupJoin(rotate, below + now, later, f, size);
  }

  /**
    The round trip: reading from the first file gives back exactly what was written if and only if
    each packet went to the file of the one before it or to the next one, that is, if the dates never went
    back to an older file and no rotation period stayed empty. (A seek of the program starts further on:
    SeekLeavesFirst.)
   */
  lemma WriteThenRead(files: Directory, rotate: nat, size: nat, records: seq<Record>)
    requires rotate >= 1 && size >= 1 && Sized(records, size) && Holds(files, rotate, size, records)
    requires records != []
    ensures ReadDir(files, FileOf(rotate, records[0]), size) == records <==> Steady(rotate, records)
  {
    hide Holds, Group;
    var f := FileOf(rotate, records[0]);
    ReadIsSteady(files, rotate, size, records, f);
    if Steady(rotate, records) {
      assert [] + records == records;
      SteadyReadsBack(files, rotate, size, [], records, f);
    }
  }

  /** Dates that never go back, with no rotation period left out, make a steady sequence. */
  lemma DatesAreSteady(rotate: nat, size: nat, records: seq<Record>)
    requires rotate >= 1 && Sized(records, size)
    requires forall i {:trigger records[i]} :: 0 < i < |records| ==>
               records[i - 1].stc <= records[i].stc < (FileOf(rotate, records[i - 1]) + 2) * rotate
    ensures Steady(rotate, records)
  {
    forall i {:trigger records[i]} | 0 < i < |records|
      ensures 0 <= FileOf(rotate, records[i]) - FileOf(rotate, records[i - 1]) <= 1
    {
      DivMonotone(records[i - 1].stc, records[i].stc, rotate);
      var a, b := FileOf(rotate, records[i - 1]), FileOf(rotate, records[i]);
      assert b * rotate <= records[i].stc;
      CancelFactor(b, a + 2, rotate);
    }
  }

  // ---------------------------------------------------------------------------------------------
  // Writing on after a crash
  // ---------------------------------------------------------------------------------------------

  /** Files that hold records in full are left alone by a repair. */
  lemma RepairOfWhole(records: seq<Record>, size: nat)
    requires size >= 1 && Sized(records, size)
    ensures Repaired(Encoded(records), size) == Encoded(records)
  {
    hide AuxBytes, Payloads;
    var e := Encoded(records);
    PayloadsSize(records, size);
    RepairKeepsPairs(records, size, |e.data|, |e.aux|);
    DivUnique(|records|, size, |e.data|);
    assert records[..|records|] == records && e.data[..|e.data|] == e.data && e.aux[..|e.aux|] == e.aux;
  }

  /** The records of each file, of some old records whose last file lost its tail, and new ones. */
  lemma GroupAfterTear(rotate: nat, size: nat,
                       older: seq<Record>, group: seq<Record>, m: nat, more: seq<Record>, f: nat, g: nat)
    requires rotate >= 1 && Sized(older, size) && Sized(group, size) && Sized(more, size) && m <= |group|
    requires AllBelow(rotate, older, f) && AllIn(rotate, group, f)
    ensures Sized(older + group, size) && Sized(older + group[..m] + more, size)
    ensures Group(rotate, older + group, g) == if g == f then group else Group(rotate, older, g)
    ensures Group(rotate, older + group[..m] + more, g)
         == (if g == f then group[..m] else Group(rotate, older, g)) + Group(rotate, more, g)
  {
    hide Group, FileOf;
    SizedSlices(group, m, size);
    GroupJoin(rotate, older, group, g, size);
    GroupJoin(rotate, older, group[..m], g, size);
    GroupJoin(rotate, older + group[..m], more, g, size);
    GroupOfOne(rotate, group, f, g, size);
    GroupOfOne(rotate, group[..m], f, g, size);
    if g == f {
      GroupOfNone(rotate, older, f, size);
      assert [] + group == group && [] + group[..m] == group[..m];
    } else {
      assert Group(rotate, older, g) + [] == Group(rotate, older, g);
    }
  }

  /** The records of which both files still have all, when the one is cut at a and the other at b. */
  function Surviving(group: seq<Record>, size: nat, a: nat, b: nat): (r: seq<Record>)
    requires size >= 1
  {
    var m := Least(a / size, b / STC_SIZE);
    if m <= |group| then group[..m] else group
  }

  /** A directory whose pair of files f, which held a group of records, was cut off at a and b. */
  ghost predicate TornAt(files: Directory, torn: Directory, group: seq<Record>, f: nat, a: nat, b: nat) {
    && a <= |Encoded(group).data| && b <= |Encoded(group).aux|
    && torn == files[f := Pair(Encoded(group).data[..a], Encoded(group).aux[..b])]
  }

  lemma TornRepaired(files: Directory, torn: Directory, group: seq<Record>, f: nat, a: nat, b: nat, size: nat)
    requires size >= 1 && Sized(group, size) && TornAt(files, torn, group, f, a, b)
    ensures Repaired(Lookup(torn, f), size) == Encoded(Surviving(group, size, a, b))
    ensures Sized(Surviving(group, size, a, b), size)
  {
    hide Encoded, Repaired;
    RepairKeepsPairs(group, size, a, b);
  }

  /** One file after the crash and the repair. */
  lemma FileAfterTear(files: Directory, torn: Directory, rotate: nat, size: nat,
                      older: seq<Record>, group: seq<Record>, more: seq<Record>, f: nat, a: nat, b: nat, g: nat)
    requires rotate >= 1 && size >= 1 && Sized(older, size) && Sized(group, size) && Sized(more, size)
    requires Sized(older + group, size) && Holds(files, rotate, size, older + group)
    requires Group(rotate, older + group, g) == if g == f then group else Group(rotate, older, g)
    requires Group(rotate, more, f) != [] && TornAt(files, torn, group, f, a, b)
    ensures g in torn <==> g == f || Group(rotate, older, g) != []
    ensures After(rotate, size, torn, more, g)
         == Encoded((if g == f then Surviving(group, size, a, b) else Group(rotate, older, g)) + Group(rotate, more, g))
  {
    hide Encoded, Group, Repaired, Join, Surviving, Sized;
    var kept, added := Group(rotate, older, g), Group(rotate, more, g);
    TornRepaired(files, torn, group, f, a, b, size);
    GroupSized(rotate, older, g, size);
    NothingEncoded();
    RepairOfWhole(kept, size);
    EncodedJoin(if g == f then Surviving(group, size, a, b) else kept, added);
    if g != f {
      assert g in files <==> kept != [];
      assert Lookup(torn, g) == Encoded(kept);
      assert added == [] ==> kept + added == kept;
    }
  }

  /**
    A crash and its repair: the two files that were written last are torn off anywhere, and a writer then adds
    records, some of them to these files. The directory then holds exactly the old records, but for those that either of
    the files has lost, and the new ones. Reading gives just that if and only if it is steady.
   */
  lemma TornThenWritten(files: Directory, torn: Directory, after: Directory, rotate: nat, size: nat,
                        older: seq<Record>, group: seq<Record>, more: seq<Record>, f: nat, a: nat, b: nat)
    requires rotate >= 1 && size >= 1 && Sized(older, size) && Sized(group, size) && Sized(more, size)
    requires Sized(older + group, size) && Holds(files, rotate, size, older + group)
    requires AllBelow(rotate, older, f) && AllIn(rotate, group, f)
    requires TornAt(files, torn, group, f, a, b)
    requires Written(torn, after, rotate, size, more) && Group(rotate, more, f) != []
    ensures Sized(older + Surviving(group, size, a, b) + more, size)
    ensures Holds(after, rotate, size, older + Surviving(group, size, a, b) + more)
    ensures var all := older + Surviving(group, size, a, b) + more;
            all != [] && (ReadDir(after, FileOf(rotate, all[0]), size) == all <==> Steady(rotate, all))
  {
    hide Encoded, Group, Sized, AllIn, AllBelow, Surviving, After, ReadDir, Steady, FileOf, TornAt;
    var kept := Surviving(group, size, a, b);
    var all := older + kept + more;
    SurvivingIsPrefix(group, size, a, b);
    GroupAfterTear(rotate, size, older, group, |kept|, more, f, f);
    forall g: nat {:trigger g in after}
      ensures g in after <==> Group(rotate, all, g) != []
      ensures g in after ==> after[g] == Encoded(Group(rotate, all, g))
    {
      GroupAfterTear(rotate, size, older, group, |kept|, more, f, g);
      FileAfterTear(files, torn, rotate, size, older, group, more, f, a, b, g);
      assert g in after ==> after[g] == Lookup(after, g);
    }
    assert more != [] by { NoGroup(rotate, f); }
    WriteThenRead(after, rotate, size, all);
  }

  lemma SurvivingIsPrefix(group: seq<Record>, size: nat, a: nat, b: nat)
    requires size >= 1
    ensures var kept := Surviving(group, size, a, b); |kept| <= |group| && kept == group[..|kept|]
  {
  }

  lemma NoGroup(rotate: nat, f: nat)
    requires rotate >= 1
    ensures Group(rotate, [], f) == []
  {
  }

  // ---------------------------------------------------------------------------------------------
  // Reading a torn pair that was not repaired
  // ---------------------------------------------------------------------------------------------

  /** What is left of a payload that was cut, if its date is still there. */
  function Fragment(group: seq<Record>, size: nat, a: nat, b: nat): seq<Record>
    requires size >= 1
  {
    var k, n := a / size, a % size;
    if n != 0 && k < b / STC_SIZE && k < |group| && n <= |group[k].payload|
    then [Record(group[k].payload[..n], group[k].stc)]
    else []
  }

  lemma OneLess(a: nat, size: nat)
    requires 1 <= size <= a
    ensures a / size >= 1 && (a - size) / size == a / size - 1 && (a - size) % size == a % size
  {
    var q := a / size;
    DivMonotone(size, a, size);
    DivUnique(1, size, size);
    assert a == q * size + a % size && (q - 1) * size == q * size - size;
    DivUnique(q - 1, size, a - size);
    assert a - size == (a - size) / size * size + (a - size) % size;
  }

  lemma Below(a: nat, size: nat)
    requires a < size
    ensures a / size == 0 && a % size == a
  {
  }

  /** Cut off both behind their first record, two files are those of the rest, cut off. */
  lemma CutBehindFirst(group: seq<Record>, size: nat, a: nat, b: nat)
    requires size >= 1 && Sized(group, size) && group != []
    requires size <= a <= |Encoded(group).data| && STC_SIZE <= b <= |Encoded(group).aux|
    ensures var data, aux := Encoded(group).data[..a], Encoded(group).aux[..b];
            var rest := Encoded(group[1..]);
            && a - size <= |rest.data| && b - STC_SIZE <= |rest.aux|
            && data[..size] == group[0].payload && data[size..] == rest.data[..a - size]
            && aux[STC_SIZE..] == rest.aux[..b - STC_SIZE] && FromSTC(aux) == group[0].stc
  {
    hide AuxBytes, Payloads, FromSTC, STCBytes;
    var r := group[0];
    assert group == [r] + group[1..];
    EncodedJoin([r], group[1..]);
    OneEncoded(r);
    STCRoundTrip(r.stc);
    var aux := Encoded(group).aux[..b];
    assert aux == STCBytes(r.stc) + aux[STC_SIZE..];
    FromSTCPrefix(STCBytes(r.stc), aux[STC_SIZE..]);
  }

  /** A data file that is cut within its first payload. */
  lemma ReadHead(group: seq<Record>, size: nat, a: nat, b: nat)
    requires size >= 1 && Sized(group, size) && group != []
    requires 0 < a < size && a <= |Encoded(group).data| && STC_SIZE <= b <= |Encoded(group).aux|
    ensures ReadFile(Encoded(group).data[..a], Encoded(group).aux[..b], size)
         == [Record(group[0].payload[..a], group[0].stc)]
  {
    hide AuxBytes, Payloads, FromSTC, STCBytes;
    var r := group[0];
    assert group == [r] + group[1..];
    EncodedJoin([r], group[1..]);
    OneEncoded(r);
    STCRoundTrip(r.stc);
    var data, aux := Encoded(group).data[..a], Encoded(group).aux[..b];
    assert aux == STCBytes(r.stc) + aux[STC_SIZE..];
    FromSTCPrefix(STCBytes(r.stc), aux[STC_SIZE..]);
    assert data == r.payload[..a] && data[..a] == data && data[a..] == [];
    assert ReadFile(data, aux, size) == [Record(data[..a], FromSTC(aux))] + ReadFile(data[a..], aux[STC_SIZE..], size);
  }

  /** Wherever the two files of some records were cut off: reading them gives the surviving records, and a fragment. */
  lemma {:induction false} ReadTorn(group: seq<Record>, size: nat, a: nat, b: nat)
    requires size >= 1 && Sized(group, size)
    requires a <= |Encoded(group).data| && b <= |Encoded(group).aux|
    ensures ReadFile(Encoded(group).data[..a], Encoded(group).aux[..b], size)
         == Surviving(group, size, a, b) + Fragment(group, size, a, b)
    decreases |group|
  {
    hide Encoded, FromSTC, Surviving, Fragment;
    if a == 0 || b < STC_SIZE || group == [] {
      NothingEncoded();
      TornToNothing(group, size, a, b);
    } else if a < size {
      ReadHead(group, size, a, b);
      TornInHead(group, size, a, b);
    } else {
      CutBehindFirst(group, size, a, b);
      OneLess(a, size);
      SizedSlices(group, 1, size);
      var data, aux, rest := Encoded(group).data[..a], Encoded(group).aux[..b], group[1..];
      ReadTorn(rest, size, a - size, b - STC_SIZE);
      TornStep(group, size, a, b);
      assert ReadFile(data, aux, size) == [group[0]] + ReadFile(data[size..], aux[STC_SIZE..], size);
      Associates([group[0]],
                 Surviving(rest, size, a - size, b - STC_SIZE), Fragment(rest, size, a - size, b - STC_SIZE));
    }
  }

  lemma TornToNothing(group: seq<Record>, size: nat, a: nat, b: nat)
    requires size >= 1 && (a == 0 || b < STC_SIZE || group == [])
    ensures Surviving(group, size, a, b) == [] && Fragment(group, size, a, b) == []
  {
    Below(0, size);
    DivMonotone(0, a, size);
  }

  lemma TornInHead(group: seq<Record>, size: nat, a: nat, b: nat)
    requires size >= 1 && group != [] && |group[0].payload| == size && 0 < a < size && STC_SIZE <= b
    ensures Surviving(group, size, a, b) == []
    ensures Fragment(group, size, a, b) == [Record(group[0].payload[..a], group[0].stc)]
  {
    Below(a, size);
    OneLess(b, STC_SIZE);
  }

  lemma TornStep(group: seq<Record>, size: nat, a: nat, b: nat)
    requires group != [] && 1 <= size <= a && STC_SIZE <= b
    requires a / size >= 1 && (a - size) / size == a / size - 1 && (a - size) % size == a % size
    ensures Surviving(group, size, a, b) == [group[0]] + Surviving(group[1..], size, a - size, b - STC_SIZE)
    ensures Fragment(group, size, a, b) == Fragment(group[1..], size, a - size, b - STC_SIZE)
  {
    OneLess(b, STC_SIZE);
  }

  /** The data file was cut between two payloads, or there is no date for the payload in which it was cut. */
  predicate CleanCut(size: nat, a: nat, b: nat)
    requires size >= 1
  {
    a % size == 0 || b / STC_SIZE <= a / size
  }

  lemma FragmentOrNot(group: seq<Record>, size: nat, a: nat, b: nat)
    requires size >= 1 && Sized(group, size)
    requires a <= |Encoded(group).data| && b <= |Encoded(group).aux|
    ensures Fragment(group, size, a, b) == [] <==> CleanCut(size, a, b)
    ensures forall r :: r in Fragment(group, size, a, b) ==> exists i :: 0 <= i < |group| && group[i].stc == r.stc
  {
    hide AuxBytes, Payloads;
  }

  /** Reading torn files gives exactly the surviving records if and only if the cut was clean. */
  lemma CleanlyTorn(group: seq<Record>, size: nat, a: nat, b: nat)
    requires size >= 1 && Sized(group, size)
    requires a <= |Encoded(group).data| && b <= |Encoded(group).aux|
    ensures ReadFile(Encoded(group).data[..a], Encoded(group).aux[..b], size) == Surviving(group, size, a, b)
       <==> CleanCut(size, a, b)
  {
    hide Encoded, Surviving, Fragment, CleanCut, ReadFile;
    ReadTorn(group, size, a, b);
    FragmentOrNot(group, size, a, b);
  }

  /** A transport packet of 188 bytes that lost its tail, but not its date, is read as a shorter record. */
  lemma FragmentIsRead(r: Record, a: nat)
    requires |r.payload| == 188 && 0 < r.stc < POW2_63 && 0 < a < 188
    ensures ReadFile(Encoded([r]).data[..a], Encoded([r]).aux, 188) == [Record(r.payload[..a], r.stc)]
    ensures !CleanCut(188, a, STC_SIZE)
  {
    hide STCBytes, ReadFile, Surviving, Fragment, Encoded;
    OneEncoded(r);
    ReadTorn([r], 188, a, STC_SIZE);
    TornInHead([r], 188, a, STC_SIZE);
    Below(a, 188);
    assert Encoded([r]).aux[..STC_SIZE] == Encoded([r]).aux;
  }

  /** Two directories that have the same files from g up to f are read alike up to f. */
  lemma {:induction false} ReadUpTo(files: Directory, other: Directory, g: nat, f: nat, size: nat)
      returns (head: seq<Record>)
    requires size >= 1 && g <= f
    requires forall h :: g <= h < f ==> h in files && h in other && files[h] == other[h]
    ensures ReadDir(files, g, size) == head + ReadDir(files, f, size)
    ensures ReadDir(other, g, size) == head + ReadDir(other, f, size)
    decreases f - g
  {
    hide ReadFile;
    if g == f {
      head := [];
    } else {
      var rest := ReadUpTo(files, other, g + 1, f, size);
      var now := ReadFile(files[g].data, files[g].aux, size);
      Associates(now, rest, ReadDir(files, f, size));
      Associates(now, rest, ReadDir(other, f, size));
      head := now + rest;
    }
  }

  /** Two directories that have the same files from g on are read alike. */
  lemma {:induction false} ReadAlike(files: Directory, other: Directory, g: nat, size: nat)
    requires size >= 1
    requires forall h :: h >= g ==> (h in files <==> h in other) && (h in files ==> files[h] == other[h])
    ensures ReadDir(files, g, size) == ReadDir(other, g, size)
    decreases NumbersFrom(files, g)
  {
    hide ReadFile, NumbersFrom;
    if g in files {
      NumbersShrink(files, g);
      ReadAlike(files, other, g + 1, size);
    }
  }

  /** Steady records are in every file between that of the first and that of the last. */
  lemma {:induction false} SteadyCovers(rotate: nat, records: seq<Record>, h: nat) returns (i: nat)
    requires rotate >= 1 && Steady(rotate, records) && records != []
    requires FileOf(rotate, records[0]) <= h <= FileOf(rotate, records[|records| - 1])
    ensures i < |records| && FileOf(rotate, records[i]) == h
    decreases |records|
  {
    hide FileOf;
    var n := |records| - 1;
    if h == FileOf(rotate, records[n]) {
      i := n;
    } else {
      assert 0 <= FileOf(rotate, records[n]) - FileOf(rotate, records[n - 1]) <= 1;
      i := SteadyCovers(rotate, records[..n], h);
    }
  }

  lemma {:induction false} GroupHas(rotate: nat, records: seq<Record>, f: nat, i: nat)
    requires rotate >= 1 && i < |records| && FileOf(rotate, records[i]) == f
    ensures Group(rotate, records, f) != []
    decreases |records|
  {
    hide FileOf;
    if i < |records| - 1 {
      GroupHas(rotate, records[..|records| - 1], f, i);
    }
  }

  /** Records that begin with the file of a number, and go on steadily. */
  predicate GoesOn(rotate: nat, records: seq<Record>, f: nat)
    requires rotate >= 1
  {
    records == [] || (FileOf(rotate, records[0]) == f && Steady(rotate, records))
  }

  /**
    The files above f, if they hold what a writer has added since, are read back if and only if that goes on behind
    f.
   */
  lemma ReadAbove(torn: Directory, after: Directory, rotate: nat, size: nat, more: seq<Record>, f: nat)
    requires rotate >= 1 && size >= 1 && Sized(more, size) && AllAbove(rotate, more, f)
    requires Written(torn, after, rotate, size, more) && forall g :: g in torn ==> g <= f
    ensures ReadDir(after, f + 1, size) == more <==> GoesOn(rotate, more, f + 1)
  {
    hide Encoded, Group, ReadDir, Repaired, Steady, FileOf;
    var upper: Directory := map g: nat | g in after && g > f :: after[g];
    ReadAlike(after, upper, f + 1, size);
    forall g: nat ensures g <= f ==> Group(rotate, more, g) == [] {
      if g <= f { GroupOfNone(rotate, more, g, size); }
    }
    forall g: nat
      ensures Lookup(upper, g) == After(rotate, size, map[], more, g)
      ensures g in upper <==> Group(rotate, more, g) != []
    {
      assert g > f ==> Lookup(torn, g) == NO_FILES && Lookup(upper, g) == Lookup(after, g);
    }
    assert Written(map[], upper, rotate, size, more);
    WriterHolds(upper, rotate, size, more);
    ReadIsSteady(upper, rotate, size, more, f + 1);
    if more == [] {
      ReadHeld(upper, rotate, size, more, f + 1);
      NoGroup(rotate, f + 1);
    } else if FileOf(rotate, more[0]) == f + 1 {
      WriteThenRead(upper, rotate, size, more);
    }
  }

  /** Reading up to the torn pair, if the writer has added nothing up to it. */
  lemma ReadToTear(files: Directory, torn: Directory, after: Directory, rotate: nat, size: nat,
                   older: seq<Record>, group: seq<Record>, more: seq<Record>, f: nat, a: nat, b: nat)
    requires rotate >= 1 && size >= 1 && Sized(older, size) && Sized(group, size) && Sized(more, size)
    requires Sized(older + group, size) && Holds(files, rotate, size, older + group)
    requires AllBelow(rotate, older, f) && AllIn(rotate, group, f) && AllAbove(rotate, more, f)
    requires group != [] && Steady(rotate, older + group)
    requires TornAt(files, torn, group, f, a, b) && Written(torn, after, rotate, size, more)
    ensures forall g :: g in torn ==> g <= f
    ensures ReadDir(after, FileOf(rotate, (older + group)[0]), size)
         == older + (Surviving(group, size, a, b) + Fragment(group, size, a, b) + ReadDir(after, f + 1, size))
  {
    hide Encoded, Group, ReadFile, ReadDir, Repaired, Steady, FileOf, Surviving, Fragment, AllIn, AllBelow, AllAbove,
         Holds, Sized, Written;
    var all := older + group;
    var first := FileOf(rotate, all[0]);
    TearFacts(files, torn, after, rotate, size, older, group, more, f, a, b);
    var head := ReadUpTo(files, after, first, f, size);
    WriteThenRead(files, rotate, size, all);
    ReadHeld(files, rotate, size, all, f);
    ReadHeld(files, rotate, size, all, f + 1);
    assert group + [] == group;
    SameTail(head, older, group);
    ReadTorn(group, size, a, b);
    ReadPair(after, f, size);
  }

  lemma ReadPair(files: Directory, f: nat, size: nat)
    requires size >= 1 && f in files
    ensures ReadDir(files, f, size) == ReadFile(files[f].data, files[f].aux, size) + ReadDir(files, f + 1, size)
  {
  }

  lemma SameTail(a: seq<Record>, b: seq<Record>, c: seq<Record>)
    requires a + c == b + c
    ensures a == b
  {
    assert |a| == |b|;
    assert a == (a + c)[..|a|] && b == (b + c)[..|b|];
  }

  lemma NothingSized(size: nat)
    ensures Sized([], size)
  {
  }

  /** The files of the torn directory: the torn pair is the last one, and those below are all there. */
  lemma TearFacts(files: Directory, torn: Directory, after: Directory, rotate: nat, size: nat,
                  older: seq<Record>, group: seq<Record>, more: seq<Record>, f: nat, a: nat, b: nat)
    requires rotate >= 1 && size >= 1 && Sized(older, size) && Sized(group, size) && Sized(more, size)
    requires Sized(older + group, size) && Holds(files, rotate, size, older + group)
    requires AllBelow(rotate, older, f) && AllIn(rotate, group, f) && AllAbove(rotate, more, f)
    requires group != [] && Steady(rotate, older + group)
    requires TornAt(files, torn, group, f, a, b) && Written(torn, after, rotate, size, more)
    ensures var first := FileOf(rotate, (older + group)[0]);
            && first <= f && f in files && f + 1 !in files && Group(rotate, older + group, f) == group
            && (forall h :: first <= h < f ==> h in files && h in after && files[h] == after[h])
    ensures f in after && after[f] == torn[f]
    ensures forall g :: g in torn ==> g <= f
  {
    hide Encoded, Group, Repaired, FileOf, Steady, Sized;
    var all := older + group;
    var first := FileOf(rotate, all[0]);
    assert first <= f by { assert all[0] in older || all[0] in group; }
    assert all[|all| - 1] == group[|group| - 1] && group[|group| - 1] in group;
    forall g: nat
      ensures g > f ==> g !in files
      ensures g == f ==> Group(rotate, all, g) == group
    {
      NothingSized(size);
      GroupAfterTear(rotate, size, older, group, 0, [], f, g);
      if g > f { GroupOfNone(rotate, older, g, size); }
    }
    forall h: nat | h <= f
      ensures Group(rotate, more, h) == []
      ensures h != f && h in files ==> h in after && files[h] == after[h]
    {
      GroupOfNone(rotate, more, h, size);
      assert Lookup(after, h) == Lookup(torn, h);
    }
    forall h: nat | first <= h < f ensures h in files {
      var i := SteadyCovers(rotate, all, h);
      GroupHas(rotate, all, h, i);
    }
    assert Lookup(after, f) == Lookup(torn, f);
  }

  /**
    A crash without a repair: the two files that were written last are torn off anywhere, and a writer adds
    nothing to them, but may go on in later files. Reading then gives the old records, but for those that either
    of the files has lost, and the new ones, if and only if the cut was clean and the new ones go on in the next file.
   */
  lemma TornThenLater(files: Directory, torn: Directory, after: Directory, rotate: nat, size: nat,
                      older: seq<Record>, group: seq<Record>, more: seq<Record>, f: nat, a: nat, b: nat)
    requires rotate >= 1 && size >= 1 && Sized(older, size) && Sized(group, size) && Sized(more, size)
    requires Sized(older + group, size) && Holds(files, rotate, size, older + group)
    requires AllBelow(rotate, older, f) && AllIn(rotate, group, f) && AllAbove(rotate, more, f)
    requires group != [] && Steady(rotate, older + group)
    requires TornAt(files, torn, group, f, a, b) && Written(torn, after, rotate, size, more)
    ensures ReadDir(after, FileOf(rotate, (older + group)[0]), size) == older + Surviving(group, size, a, b) + more
       <==> CleanCut(size, a, b) && GoesOn(rotate, more, f + 1)
  {
    hide Encoded, Group, ReadFile, ReadDir, Repaired, Steady, Surviving, Fragment, AllBelow, Holds,
         Sized, Written, CleanCut, GoesOn, FileOf;
    var kept, cut, later := Surviving(group, size, a, b), Fragment(group, size, a, b), ReadDir(after, f + 1, size);
    ReadToTear(files, torn, after, rotate, size, older, group, more, f, a, b);
    ReadAbove(torn, after, rotate, size, more, f);
    FragmentOrNot(group, size, a, b);
    assert cut != [] && more != [] ==> cut[0] != more[0] by { FragmentIsBelow(rotate, size, group, more, f, a, b); }
    Cancel(older, kept, cut, later, more);
  }

  lemma FragmentIsBelow(rotate: nat, size: nat, group: seq<Record>, more: seq<Record>, f: nat, a: nat, b: nat)
    requires rotate >= 1 && size >= 1 && AllIn(rotate, group, f) && AllAbove(rotate, more, f)
    ensures var cut := Fragment(group, size, a, b); cut != [] && more != [] ==> cut[0] != more[0]
  {
    var cut := Fragment(group, size, a, b);
    if cut != [] && more != [] {
      assert group[a / size] in group && more[0] in more;
      assert FileOf(rotate, cut[0]) == f;
    }
  }

  /** Behind a common beginning, what is read is what was added if there is no fragment before it. */
  lemma Cancel(older: seq<Record>, kept: seq<Record>, cut: seq<Record>, later: seq<Record>, more: seq<Record>)
    requires cut != [] && more != [] ==> cut[0] != more[0]
    ensures older + (kept + cut + later) == older + kept + more <==> cut == [] && later == more
  {
    var x, y := older + (kept + cut + later), older + kept + more;
    var n := |older| + |kept|;
    assert x[n..] == cut + later && y[n..] == more;
    assert x[..n] == older + kept == y[..n];
    assert x == x[..n] + x[n..] && y == y[..n] + y[n..];
    assert cut != [] ==> (cut + later)[0] == cut[0];
    assert cut == [] ==> cut + later == later;
  }

  // ---------------------------------------------------------------------------------------------
  // The reader
  // ---------------------------------------------------------------------------------------------

  /** What is left to read behind a place in file f. */
  function ReadBehind(files: Directory, f: nat, dataPos: nat, auxPos: nat, size: nat): seq<Record>
    requires size >= 1 && f in files
  {
    ReadFile(DropTo(files[f].data, dataPos), DropTo(files[f].aux, auxPos), size) + ReadDir(files, f + 1, size)
  }

  /** What is left to read from record k of file f on. */
  function ReadFrom(files: Directory, f: nat, k: nat, size: nat): seq<Record>
    requires size >= 1 && f in files
  {
    ReadBehind(files, f, k * size, k * STC_SIZE, size)
  }

  lemma ReadNext(files: Directory, f: nat, size: nat)
    requires size >= 1
    ensures ReadDir(files, f, size) == if f in files then ReadBehind(files, f, 0, 0, size) else []
  {
  }

  /** There is a file of a number, and it has dates. */
  predicate HasEntries(files: Directory, f: nat) {
    f in files && Entries(files[f].aux) > 0
  }

  /** What a read brings: a record, or the end of the program, which a missing file causes. */
  datatype ReadResult = Exits | Got(record: Record)

  /** The reader, with the place it has reached. */
  class Reader {
    const files: Directory
    const rotate: nat
    const size: nat
    var open: bool
    var current: nat
    var dataPos: nat
    var auxPos: nat

    ghost predicate Valid()
      reads this
    {
      rotate >= 1 && size >= 1 && (open ==> current in files)
    }

    ghost function Remaining(): seq<Record>
      requires Valid()
      reads this
    {
      if open then ReadBehind(files, current, dataPos, auxPos, size) else []
    }

    constructor (files: Directory, rotate: nat, size: nat)
      requires rotate >= 1 && size >= 1
      ensures Valid() && !open && this.files == files && this.rotate == rotate && this.size == size
    {
      this.files, this.rotate, this.size := files, rotate, size;
      open, current, dataPos, auxPos := false, 0, 0, 0;
    }

    /** Reads a payload and its date from the open files; there may be neither, or no date for the payload. */
    method FileRead() returns (r: Option<Record>)
      requires Valid() && open
      modifies this`dataPos, this`auxPos
      ensures Valid()
      ensures match r
              case None => old(Remaining()) == ReadDir(files, current + 1, size)
              case Some(record) => old(Remaining()) == [record] + Remaining()
    {
      hide FromSTC, ReadDir;
      var data, aux := DropTo(files[current].data, dataPos), DropTo(files[current].aux, auxPos);
      ghost var later := ReadDir(files, current + 1, size);
      var n := Least(size, |data|);
      if n == 0 {
        assert [] + later == later;
        return None;
      }
      assert DropTo(files[current].data, dataPos + n) == data[n..];
      dataPos := dataPos + n;
      if |aux| < STC_SIZE {
        assert [] + later == later;
        return None;
      }
      assert DropTo(files[current].aux, auxPos + STC_SIZE) == aux[STC_SIZE..];
      auxPos := auxPos + STC_SIZE;
      r := Some(Record(data[..n], FromSTC(aux)));
      Associates([r.value], ReadFile(data[n..], aux[STC_SIZE..], size), later);
    }

    /** Reads the next record, going on to the next files as long as there are any. */
    method DirRead() returns (r: ReadResult)
      requires Valid() && open
      modifies this`open, this`current, this`dataPos, this`auxPos
      ensures Valid()
      ensures match r
              case Exits => old(Remaining()) == [] && !open
              case Got(record) => old(Remaining()) == [record] + Remaining() && open
    {
      hide ReadBehind, ReadDir, NumbersFrom;
      ghost var all := Remaining();
      var next := FileRead();
      while next.None?
        invariant Valid() && open
        invariant match next
                  case None => all == ReadDir(files, current + 1, size)
                  case Some(record) => all == [record] + Remaining()
        decreases next.None?, NumbersFrom(files, current + 1)
      {
        current := current + 1;
        ReadNext(files, current, size);
        if current !in files {
          open := false;
          return Exits;
        }
        NumbersShrink(files, current);
        dataPos, auxPos := 0, 0;
        next := FileRead();
      }
      r := Got(next.value);
    }

    /** Starts reading at a date: in its file, or at most one file later. */
    method DirInitRead(pos: int, present: nat) returns (found: bool)
      requires Valid() && -POW2_63 <= pos < POW2_63 && present < POW2_63
      modifies this
      ensures Valid() && found == open
      ensures var wanted := if pos <= 0 then pos + present else pos;
              var f := if wanted <= 0 then 0 else wanted / rotate;
              && (found <==> wanted > 0 && (HasEntries(files, f) || HasEntries(files, f + 1)))
              && (found ==> current == if HasEntries(files, f) then f else f + 1)
              && (found ==> exists k: nat :: IsLookup(files[current].aux, wanted, true, k)
                                             && dataPos == k * size && auxPos == k * STC_SIZE)
    {
      hide FromSTC;
      open := false;
      var wanted := if pos <= 0 then pos + present else pos;
      if wanted <= 0 {
        return false;
      }
      current := GetDirFile(rotate, wanted, present);
      var k := LookupDirAuxFile(current, wanted);
      if k < 0 {
        current := current + 1;
        k := LookupDirAuxFile(current, wanted);
        if k < 0 {
          return false;
        }
      }
      open := true;
      dataPos, auxPos := k * size, k * STC_SIZE;
      return true;
    }

    /** Looks a date up in the auxiliary file of a number, if there is one. */
    method LookupDirAuxFile(f: nat, wanted: int) returns (k: int)
      requires 0 < wanted < POW2_63
      ensures if f in files then IsLookup(files[f].aux, wanted, true, k) else k == -1
      ensures k == -1 <==> !HasEntries(files, f)
      ensures k != -1 ==> k >= 0
    {
      if f !in files {
        return -1;
      }
      k := LookupAuxFile(files[f].aux, wanted, true);
    }
  }

  // ---------------------------------------------------------------------------------------------
  // Seeking in a directory
  // ---------------------------------------------------------------------------------------------

  /** The records of file f are those from a to b, and those behind go on with the next file. */
  predicate Around(rotate: nat, records: seq<Record>, f: nat, a: nat, b: nat)
    requires rotate >= 1
  {
    && a < b <= |records|
    && AllBelow(rotate, records[..a], f) && AllIn(rotate, records[a..b], f) && AllAbove(rotate, records[b..], f)
    && Steady(rotate, records[b..]) && (records[b..] != [] ==> FileOf(rotate, records[b..][0]) == f + 1)
  }

  lemma AroundBounds(rotate: nat, records: seq<Record>, f: nat, a: nat, b: nat)
    requires rotate >= 1 && Around(rotate, records, f, a, b)
    ensures a < b <= |records|
  {
  }

  /** Steady records split around the records of one file. */
  lemma {:induction false} SplitAround(rotate: nat, records: seq<Record>, f: nat, size: nat) returns (a: nat, b: nat)
    requires rotate >= 1 && Sized(records, size) && Steady(rotate, records) && Group(rotate, records, f) != []
    ensures Around(rotate, records, f, a, b)
    decreases |records|
  {
    hide FileOf, AllIn, AllBelow, AllAbove;
    if FileOf(rotate, records[0]) == f {
      a := 0;
      b := SteadySplits(rotate, records, f, size);
      assert records[0..b] == records[..b];
      NoneBelow(rotate, records[..0], f);
    } else if FileOf(rotate, records[0]) < f {
      var rest := records[1..];
      SteadyTail(rotate, records);
      TailGroup(rotate, records, f, size);
      a, b := SplitAround(rotate, rest, f, size);
      SplitShift(rotate, records, f, a, b);
      a, b := a + 1, b + 1;
    } else {
      NotInGroup(rotate, records, f, size);
    }
  }

  lemma NoneBelow(rotate: nat, records: seq<Record>, f: nat)
    requires rotate >= 1 && records == []
    ensures AllBelow(rotate, records, f)
  {
  }

  lemma TailGroup(rotate: nat, records: seq<Record>, f: nat, size: nat)
    requires rotate >= 1 && Sized(records, size) && records != [] && FileOf(rotate, records[0]) != f
    ensures Sized(records[1..], size) && Group(rotate, records[1..], f) == Group(rotate, records, f)
  {
    var rest := records[1..];
    assert records == [records[0]] + rest;
    SizedSlices(records, 1, size);
    GroupJoin(rotate, [records[0]], rest, f, size);
    GroupOfNone(rotate, [records[0]], f, size);
  }

  lemma SplitShift(rotate: nat, records: seq<Record>, f: nat, a: nat, b: nat)
    requires rotate >= 1 && records != [] && FileOf(rotate, records[0]) < f && a <= b <= |records[1..]|
    requires AllBelow(rotate, records[1..][..a], f)
    ensures AllBelow(rotate, records[..a + 1], f)
    ensures records[a + 1..b + 1] == records[1..][a..b] && records[b + 1..] == records[1..][b..]
  {
    hide FileOf;
    assert records[..a + 1] == [records[0]] + records[1..][..a];
    assert records[a + 1..b + 1] == records[1..][a..b];
    assert records[b + 1..] == records[1..][b..];
  }

  lemma NotInGroup(rotate: nat, records: seq<Record>, f: nat, size: nat)
    requires rotate >= 1 && Sized(records, size)
    requires records != [] && FileOf(rotate, records[0]) > f && Steady(rotate, records)
    ensures Group(rotate, records, f) == []
  {
    hide FileOf;
    forall r | r in records ensures FileOf(rotate, r) != f {
      var i :| 0 <= i < |records| && records[i] == r;
      SteadyGrows(rotate, records, i);
    }
    GroupOfNone(rotate, records, f, size);
  }

  lemma SteadyTail(rotate: nat, records: seq<Record>)
    requires rotate >= 1 && records != [] && Steady(rotate, records)
    ensures Steady(rotate, records[1..])
  {
    hide FileOf;
    var rest := records[1..];
    forall i {:trigger rest[i]} | 0 < i < |rest|
      ensures 0 <= FileOf(rotate, rest[i]) - FileOf(rotate, rest[i - 1]) <= 1
    {
      assert rest[i] == records[i + 1] && rest[i - 1] == records[i];
    }
  }

  /** Reading from record k of a file on gives the rest of its records. */
  lemma ReadFromMiddle(group: seq<Record>, k: nat, size: nat)
    requires size >= 1 && Sized(group, size) && k <= |group|
    ensures ReadFile(DropTo(Encoded(group).data, k * size), DropTo(Encoded(group).aux, k * STC_SIZE), size)
         == group[k..]
  {
    hide AuxBytes, ReadFile;
    assert group == group[..k] + group[k..];
    EncodedJoin(group[..k], group[k..]);
    SizedSlices(group, k, size);
    PayloadsSize(group[..k], size);
    assert DropTo(Encoded(group).data, k * size) == Encoded(group[k..]).data;
    assert DropTo(Encoded(group).aux, k * STC_SIZE) == Encoded(group[k..]).aux;
    ReadEncoded(group[k..], size);
  }

  /** The first date at or after a limit in a list whose head lies entirely below it. */
  lemma {:induction false} FirstBehind(a: seq<int>, b: seq<int>, limit: int)
    requires forall i :: 0 <= i < |a| ==> a[i] < limit
    ensures FirstAtOrAfter(a + b, limit) == |a| + FirstAtOrAfter(b, limit)
    decreases |a|
  {
    if a == [] {
      assert a + b == b;
    } else {
      assert (a + b)[1..] == a[1..] + b;
      FirstBehind(a[1..], b, limit);
    }
  }

  /** The first date at or after a limit in the front part of a list, if there is one in it. */
  lemma {:induction false} FirstInFront(a: seq<int>, b: seq<int>, limit: int)
    requires forall i :: 0 <= i < |b| ==> b[i] >= limit
    ensures FirstAtOrAfter(a + b, limit) == FirstAtOrAfter(a, limit)
    decreases |a|
  {
    if a == [] {
      assert a + b == b;
    } else {
      assert (a + b)[1..] == a[1..] + b;
      FirstInFront(a[1..], b, limit);
    }
  }

  lemma BelowPos(rotate: nat, r: Record, f: nat, pos: int)
    requires rotate >= 1 && pos > 0 && f == pos / rotate
    ensures FileOf(rotate, r) < f ==> r.stc < pos
    ensures FileOf(rotate, r) > f ==> r.stc >= pos
  {
    if r.stc > 0 {
      if r.stc >= pos { DivMonotone(pos, r.stc, rotate); }
      if r.stc <= pos { DivMonotone(r.stc, pos, rotate); }
    }
  }

  lemma StcsSplit(records: seq<Record>, a: nat, b: nat)
    requires a <= b <= |records|
    ensures Stcs(records) == Stcs(records[..a]) + (Stcs(records[a..b]) + Stcs(records[b..]))
  {
  }

  lemma FirstInStore(rotate: nat, records: seq<Record>, f: nat, a: nat, b: nat, pos: int)
    requires rotate >= 1 && pos > 0 && f == pos / rotate && a <= b <= |records|
    requires Around(rotate, records, f, a, b)
    ensures FirstAtOrAfter(Stcs(records), pos) == a + FirstAtOrAfter(Stcs(records[a..b]), pos)
  {
    hide FileOf;
    forall i | 0 <= i < a ensures Stcs(records[..a])[i] < pos {
      assert records[..a][i] in records[..a];
      BelowPos(rotate, records[..a][i], f, pos);
    }
    forall i | 0 <= i < |records| - b ensures Stcs(records[b..])[i] >= pos {
      assert records[b..][i] in records[b..];
      BelowPos(rotate, records[b..][i], f, pos);
    }
    StcsSplit(records, a, b);
    FirstBehind(Stcs(records[..a]), Stcs(records[a..b]) + Stcs(records[b..]), pos);
    FirstInFront(Stcs(records[a..b]), Stcs(records[b..]), pos);
  }

  /** What is read from record k of file f on: the rest of its records, and all the later ones. */
  lemma ReadBehindIsSuffix(files: Directory, rotate: nat, size: nat,
                           below: seq<Record>, group: seq<Record>, later: seq<Record>, f: nat, k: nat)
    requires rotate >= 1 && size >= 1 && Sized(below, size) && Sized(group, size) && Sized(later, size)
    requires Sized(below + group + later, size) && Holds(files, rotate, size, below + group + later)
    requires AllBelow(rotate, below, f) && AllIn(rotate, group, f) && AllAbove(rotate, later, f)
    requires Steady(rotate, later) && (later != [] ==> FileOf(rotate, later[0]) == f + 1)
    requires f in files && k <= |group|
    ensures files[f] == Encoded(group) && Group(rotate, below + group + later, f) == group
    ensures ReadFrom(files, f, k, size) == group[k..] + later
  {
    hide Encoded, Group, ReadFile, ReadDir, FileOf, AllIn, AllBelow, AllAbove, Steady;
    GroupInMiddle(rotate, below, group, later, f, size);
    ReadFromMiddle(group, k, size);
    BelowGrows(rotate, below, group, f, size);
    SteadyReadsBack(files, rotate, size, below + group, later, f + 1);
  }

  /** File f begins before a date. */
  predicate BeginsBefore(rotate: nat, records: seq<Record>, f: nat, pos: int)
    requires rotate >= 1
  {
    Group(rotate, records, f) != [] && Group(rotate, records, f)[0].stc < pos
  }

  /**
    Seeking in a directory of steady records with sorted dates, at a date whose file f exists: reading starts
    at the first record dated at or after it if and only if that file begins before it. Otherwise the first
    record of the file, although it is late enough, is skipped.
   */
  lemma SeekInDirectory(files: Directory, rotate: nat, size: nat, records: seq<Record>, pos: int,
                         f: nat, first: nat, k: nat, dataPos: nat, auxPos: nat)
    requires rotate >= 1 && size >= 1 && Sized(records, size) && Steady(rotate, records)
    requires Holds(files, rotate, size, records) && Sorted(Stcs(records))
    requires 0 < pos < POW2_63 && f == pos / rotate && f in files
    requires first == FirstAtOrAfter(Stcs(records), pos)
    requires IsLookup(files[f].aux, pos, true, k) && dataPos == k * size && auxPos == k * STC_SIZE
    ensures ReadBehind(files, f, dataPos, auxPos, size) == records[first..] <==> BeginsBefore(rotate, records, f, pos)
    ensures !BeginsBefore(rotate, records, f, pos) ==>
              first < |records| && ReadBehind(files, f, dataPos, auxPos, size) == records[first + 1..]
  {
    hide Encoded, Group, ReadBehind, FileOf, Steady, IsLookup, Around, Holds, Sized, Sorted;
    ReadHeld(files, rotate, size, records, f);
    var a, b := SplitAround(rotate, records, f, size);
    AroundBounds(rotate, records, f, a, b);
    FirstInStore(rotate, records, f, a, b, pos);
    ReadInside(files, rotate, size, records, f, a, b, 0);
    LookupInGroup(records, size, a, b, pos, k);
    ReadInside(files, rotate, size, records, f, a, b, k);
    if first == a + k {
      assert records[a + k..] == records[first..];
    } else {
      assert |records[a + k..]| != |records[first..]|;
    }
  }

  /** Reading from record k of file f on gives a suffix of all the records. */
  lemma ReadInside(files: Directory, rotate: nat, size: nat, records: seq<Record>, f: nat, a: nat, b: nat, k: nat)
    requires rotate >= 1 && size >= 1 && Sized(records, size) && Holds(files, rotate, size, records) && f in files
    requires a + k <= b <= |records| && Around(rotate, records, f, a, b)
    ensures a < b && files[f] == Encoded(records[a..b]) && Group(rotate, records, f) == records[a..b]
    ensures ReadFrom(files, f, k, size) == records[a + k..]
  {
    hide Encoded, Group, ReadFrom, FileOf, Steady, AllIn, AllBelow, AllAbove, Holds, Sized;
    var below, group, later := Parts(rotate, records, f, a, b, size);
    ReadBehindIsSuffix(files, rotate, size, below, group, later, f, k);
    SuffixOfParts(records, a, b, k);
  }

  lemma Parts(rotate: nat, records: seq<Record>, f: nat, a: nat, b: nat, size: nat)
      returns (below: seq<Record>, group: seq<Record>, later: seq<Record>)
    requires rotate >= 1 && Sized(records, size) && Around(rotate, records, f, a, b)
    ensures a < b <= |records| && below == records[..a] && group == records[a..b] && later == records[b..]
    ensures records == below + group + later
    ensures Sized(below, size) && Sized(group, size) && Sized(later, size)
    ensures AllBelow(rotate, below, f) && AllIn(rotate, group, f) && AllAbove(rotate, later, f)
    ensures Steady(rotate, later) && (later != [] ==> FileOf(rotate, later[0]) == f + 1)
  {
    below, group, later := records[..a], records[a..b], records[b..];
    SizedSlices(records, b, size);
    SizedSlices(records[..b], a, size);
    assert records[..b][..a] == below && records[..b][a..] == group;
  }

  lemma SuffixOfParts(records: seq<Record>, a: nat, b: nat, k: nat)
    requires a <= b <= |records| && k <= b - a
    ensures records[a..b][k..] + records[b..] == records[a + k..]
  {
  }

  lemma LookupInGroup(records: seq<Record>, size: nat, a: nat, b: nat, pos: int, k: nat)
    requires Sized(records, size) && Sorted(Stcs(records)) && a < b <= |records| && 0 < pos < POW2_63
    requires IsLookup(Encoded(records[a..b]).aux, pos, true, k)
    ensures var dates := Stcs(records[a..b]);
            && k <= b - a
            && k == (if records[a].stc < pos then FirstAtOrAfter(dates, pos) else 1)
            && (records[a].stc >= pos ==> FirstAtOrAfter(dates, pos) == 0)
  {
    hide IsLookup, AuxBytes;
    var dates := Stcs(records[a..b]);
    assert Fitting(dates);
    assert Sorted(dates) by {
      forall i, j | 0 <= i < j < |dates| ensures dates[i] <= dates[j] {
        assert dates[i] == Stcs(records)[a + i] && dates[j] == Stcs(records)[a + j];
      }
    }
    AbsoluteSeek(dates, pos, k);
  }

  /** Steady records skip no file, so if there is none of a number, those of the next one are the first. */
  lemma NothingBefore(rotate: nat, records: seq<Record>, f: nat, a: nat, b: nat)
    requires rotate >= 1 && Steady(rotate, records) && Around(rotate, records, f + 1, a, b)
    requires Group(rotate, records, f) == []
    ensures a == 0
  {
    hide FileOf, Group;
    if a > 0 {
      assert records[..a][a - 1] == records[a - 1] && records[a..b][0] == records[a];
      assert records[..a][a - 1] in records[..a] && records[a..b][0] in records[a..b];
      assert 0 <= FileOf(rotate, records[a]) - FileOf(rotate, records[a - 1]) <= 1;
      GroupHas(rotate, records, f, a - 1);
    }
  }

  /** A seek to the period before the first file starts in that file, but always skips its first record. */
  lemma SeekBeforeDirectory(files: Directory, rotate: nat, size: nat, records: seq<Record>, pos: int,
                            f: nat, k: nat, dataPos: nat, auxPos: nat)
    requires rotate >= 1 && size >= 1 && Sized(records, size) && Steady(rotate, records)
    requires Holds(files, rotate, size, records) && Sorted(Stcs(records))
    requires 0 < pos < POW2_63 && f == pos / rotate && f !in files && f + 1 in files
    requires IsLookup(files[f + 1].aux, pos, true, k) && dataPos == k * size && auxPos == k * STC_SIZE
    ensures records != [] && FirstAtOrAfter(Stcs(records), pos) == 0
    ensures ReadBehind(files, f + 1, dataPos, auxPos, size) == records[1..]
  {
    hide Encoded, Group, ReadBehind, FileOf, Steady, IsLookup, Around, Holds, Sized, Sorted;
    ReadHeld(files, rotate, size, records, f);
    ReadHeld(files, rotate, size, records, f + 1);
    var a, b := SplitAround(rotate, records, f + 1, size);
    AroundBounds(rotate, records, f + 1, a, b);
    NothingBefore(rotate, records, f, a, b);
    ReadInside(files, rotate, size, records, f + 1, a, b, 0);
    FirstOfGroup(rotate, records, f + 1, a, b);
    BelowPos(rotate, records[0], f, pos);
    LookupInGroup(records, size, a, b, pos, k);
    ReadInside(files, rotate, size, records, f + 1, a, b, k);
  }

  lemma FirstOfGroup(rotate: nat, records: seq<Record>, f: nat, a: nat, b: nat)
    requires rotate >= 1 && Around(rotate, records, f, a, b)
    ensures FileOf(rotate, records[a]) == f
  {
    hide FileOf;
    assert records[a..b][0] == records[a] && records[a..b][0] in records[a..b];
  }

  /** Wherever a seek leads to in a file, reading starts behind the first record of the whole directory. */
  lemma SeekLeavesFirst(files: Directory, rotate: nat, size: nat, records: seq<Record>, pos: int, f: nat, k: nat)
      returns (j: nat)
    requires rotate >= 1 && size >= 1 && Sized(records, size) && Steady(rotate, records)
    requires Holds(files, rotate, size, records)
    requires 0 < pos < POW2_63 && f in files && IsLookup(files[f].aux, pos, true, k)
    ensures 1 <= j <= |records| && ReadFrom(files, f, k, size) == records[j..]
  {
    hide Encoded, Group, ReadFrom, FileOf, Steady, IsLookup, Around, Holds, Sized;
    ReadHeld(files, rotate, size, records, f);
    var a, b := SplitAround(rotate, records, f, size);
    AroundBounds(rotate, records, f, a, b);
    ReadInside(files, rotate, size, records, f, a, b, 0);
    LookupBounds(records[a..b], size, pos, k) by { SizedPart(records, a, b, size); }
    ReadInside(files, rotate, size, records, f, a, b, k);
    j := a + k;
  }

  lemma SizedPart(records: seq<Record>, a: nat, b: nat, size: nat)
    requires Sized(records, size) && a <= b <= |records|
    ensures Sized(records[a..b], size)
  {
  }

  lemma LookupBounds(group: seq<Record>, size: nat, pos: int, k: nat)
    requires Sized(group, size) && group != [] && 0 < pos < POW2_63
    requires IsLookup(Encoded(group).aux, pos, true, k)
    ensures 1 <= k <= |group|
  {
    hide AuxBytes, Entry, Entries;
    EntriesOfAux(Stcs(group));
  }

  /** One record, and a seek to exactly its date: the record is skipped. */
  lemma SeekSkips(r: Record)
    requires |r.payload| == 1 && r.stc == 10
    ensures var files: Directory := map[1 := Encoded([r])];
            && Sized([r], 1) && Holds(files, 10, 1, [r]) && Steady(10, [r]) && Sorted(Stcs([r]))
            && IsLookup(files[1].aux, r.stc, true, 1) && ReadFrom(files, 1, 1, 1) == []
  {
    hide Encoded, ReadFrom, IsLookup, Holds;
    var files: Directory := map[1 := Encoded([r])];
    OneHeld(files, r);
    OneLookup(r);
    assert [] + [r] + [] == [r] && [r][1..] == [];
    ReadBehindIsSuffix(files, 10, 1, [], [r], [], 1, 1);
  }

  lemma OneHeld(files: Directory, r: Record)
    requires |r.payload| == 1 && r.stc == 10 && files == map[1 := Encoded([r])]
    ensures Sized([r], 1) && Holds(files, 10, 1, [r])
  {
    hide Encoded;
    assert [r][..0] == [];
    assert forall f :: Group(10, [r], f) == if f == 1 then [r] else [];
  }

  lemma OneLookup(r: Record)
    requires 0 < r.stc < POW2_63
    ensures IsLookup(Encoded([r]).aux, r.stc, true, 1)
  {
    hide AuxBytes, Entry, Entries;
    assert Stcs([r]) == [r.stc];
    EntriesOfAux([r.stc]);
  }
}
