/** The byte formats of util.h: the 64-bit dates of an auxiliary file and the retransmission request. */
module Codec {
  import opened Base

  const STC_SIZE := 8
  const RETX_HEADER_SIZE := 8

  // ---------------------------------------------------------------------------------------------
  // Dates: eight bytes, most significant first
  // ---------------------------------------------------------------------------------------------

  /** Reads the date stored in the first eight bytes. */
  function FromSTC(aux: seq<Byte>): (stc: U64)
    requires |aux| >= STC_SIZE
  {
    aux[0] as int * 0x100_0000_0000_0000
    + aux[1] as int * 0x1_0000_0000_0000
    + aux[2] as int * 0x100_0000_0000
    + aux[3] as int * 0x1_0000_0000
    + aux[4] as int * 0x100_0000
    + aux[5] as int * 0x1_0000
    + aux[6] as int * 0x100
    + aux[7]
  }

  /** The eight bytes that stand for a date; anything above 64 bits is lost. */
  function STCBytes(stc: int): (aux: seq<Byte>)
    ensures |aux| == STC_SIZE
  {
    [ stc / 0x100_0000_0000_0000 % 0x100,
      stc / 0x1_0000_0000_0000 % 0x100,
      stc / 0x100_0000_0000 % 0x100,
      stc / 0x1_0000_0000 % 0x100,
      stc / 0x100_0000 % 0x100,
      stc / 0x1_0000 % 0x100,
      stc / 0x100 % 0x100,
      stc % 0x100 ]
  }

  /** Writes the low 64 bits of a date into a buffer, leaving every other byte alone. */
  method ToSTC(aux: array<Byte>, offset: nat, stc: nat)
    requires offset + STC_SIZE <= aux.Length
    modifies aux
    ensures forall k :: 0 <= k < STC_SIZE ==> aux[offset + k] == STCBytes(stc)[k]
    ensures forall j :: 0 <= j < aux.Length && !(offset <= j < offset + STC_SIZE) ==> aux[j] == old(aux[j])
  {
    aux[offset] := stc / 0x100_0000_0000_0000 % 0x100;
    aux[offset + 1] := stc / 0x1_0000_0000_0000 % 0x100;
    aux[offset + 2] := stc / 0x100_0000_0000 % 0x100;
    aux[offset + 3] := stc / 0x1_0000_0000 % 0x100;
    aux[offset + 4] := stc / 0x100_0000 % 0x100;
    aux[offset + 5] := stc / 0x1_0000 % 0x100;
    aux[offset + 6] := stc / 0x100 % 0x100;
    aux[offset + 7] := stc % 0x100;
  }

  /** Dividing by 0x100 once more is dividing by the next power. */
  lemma NestedQuotients(x: nat)
    ensures x / 0x100 / 0x100 == x / 0x1_0000
    ensures x / 0x1_0000 / 0x100 == x / 0x100_0000
    ensures x / 0x100_0000 / 0x100 == x / 0x1_0000_0000
    ensures x / 0x1_0000_0000 / 0x100 == x / 0x100_0000_0000
    ensures x / 0x100_0000_0000 / 0x100 == x / 0x1_0000_0000_0000
    ensures x / 0x1_0000_0000_0000 / 0x100 == x / 0x100_0000_0000_0000
  {
  }

  /** What is left of a number when its last k digits are taken off, one after the other. */
  function Quotient(x: nat, k: nat): nat {
    if k == 0 then x else Quotient(x, k - 1) / 0x100
  }

  lemma QuotientUnrolled(x: nat)
    ensures Quotient(x, 0) == x && Quotient(x, 1) == x / 0x100 && Quotient(x, 2) == x / 0x100 / 0x100
    ensures Quotient(x, 3) == Quotient(x, 2) / 0x100 && Quotient(x, 4) == Quotient(x, 3) / 0x100
    ensures Quotient(x, 5) == Quotient(x, 4) / 0x100 && Quotient(x, 6) == Quotient(x, 5) / 0x100
    ensures Quotient(x, 7) == Quotient(x, 6) / 0x100
  {
  }

  /** The bytes of a date are its digits. */
  lemma BytesAreDigits(stc: U64)
    ensures var aux := STCBytes(stc);
            && aux[7] == Quotient(stc, 0) % 0x100 && aux[6] == Quotient(stc, 1) % 0x100
            && aux[5] == Quotient(stc, 2) % 0x100 && aux[4] == Quotient(stc, 3) % 0x100
            && aux[3] == Quotient(stc, 4) % 0x100 && aux[2] == Quotient(stc, 5) % 0x100
            && aux[1] == Quotient(stc, 6) % 0x100 && aux[0] == Quotient(stc, 7)
  {
    hide Quotient;
    QuotientUnrolled(stc);
    NestedQuotients(stc);
  }

  lemma QuotientStep(x: nat, k: nat)
    ensures Quotient(x, k) == Quotient(x, k + 1) * 0x100 + Quotient(x, k) % 0x100
  {
  }

  /** A date survives being written and read back. */
  lemma STCRoundTrip(stc: U64)
    ensures FromSTC(STCBytes(stc)) == stc
  {
    hide STCBytes, Quotient;
    BytesAreDigits(stc);
    QuotientStep(stc, 0);
    QuotientStep(stc, 1);
    QuotientStep(stc, 2);
    QuotientStep(stc, 3);
    QuotientStep(stc, 4);
    QuotientStep(stc, 5);
    QuotientStep(stc, 6);
    QuotientUnrolled(stc);
  }

  /** Appending a digit and taking it off again. */
  lemma Digit(h: nat, b: Byte)
    ensures (h * 0x100 + b) / 0x100 == h && (h * 0x100 + b) % 0x100 == b
  {
  }

  /** The number made of the first n of eight bytes. */
  function Head(aux: seq<Byte>, n: nat): nat
    requires n <= |aux|
  {
    if n == 0 then 0 else Head(aux, n - 1) * 0x100 + aux[n - 1]
  }

  lemma HeadIsDate(aux: seq<Byte>)
    requires |aux| == STC_SIZE
    ensures FromSTC(aux) == Head(aux, 8)
  {
    assert Head(aux, 1) == aux[0] && Head(aux, 2) == Head(aux, 1) * 0x100 + aux[1];
    assert Head(aux, 3) == Head(aux, 2) * 0x100 + aux[2] && Head(aux, 4) == Head(aux, 3) * 0x100 + aux[3];
    assert Head(aux, 5) == Head(aux, 4) * 0x100 + aux[4] && Head(aux, 6) == Head(aux, 5) * 0x100 + aux[5];
    assert Head(aux, 7) == Head(aux, 6) * 0x100 + aux[6] && Head(aux, 8) == Head(aux, 7) * 0x100 + aux[7];
  }

  lemma HeadDigit(aux: seq<Byte>, n: nat)
    requires 0 < n <= |aux|
    ensures Head(aux, n) / 0x100 == Head(aux, n - 1) && Head(aux, n) % 0x100 == aux[n - 1]
  {
    Digit(Head(aux, n - 1), aux[n - 1]);
  }

  /** The layout of a date: as many bytes as there are, most significant first. */
  lemma STCLayout(aux: seq<Byte>)
    requires |aux| >= STC_SIZE
    ensures FromSTC(aux) == Head(aux, 8)
  {
    HeadIsDate(aux[..8]);
    HeadOfPrefix(aux, 8);
  }

  lemma {:induction false} HeadOfPrefix(aux: seq<Byte>, n: nat)
    requires n <= 8 <= |aux|
    ensures Head(aux[..8], n) == Head(aux, n)
    decreases n
  {
    if n > 0 {
      HeadOfPrefix(aux, n - 1);
    }
  }

  /** Eight bytes survive being read and written back: no two byte strings stand for one date. */
  lemma STCBytesRoundTrip(aux: seq<Byte>)
    requires |aux| == STC_SIZE
    ensures STCBytes(FromSTC(aux)) == aux
  {
    hide FromSTC, Head;
    HeadIsDate(aux);
    NestedQuotients(Head(aux, 8));
    HeadDigit(aux, 8);
    HeadDigit(aux, 7);
    HeadDigit(aux, 6);
    HeadDigit(aux, 5);
    HeadDigit(aux, 4);
    HeadDigit(aux, 3);
    HeadDigit(aux, 2);
    HeadDigit(aux, 1);
    TopByte(aux);
  }

  lemma TopByte(aux: seq<Byte>)
    requires |aux| == STC_SIZE
    ensures Head(aux, 1) == aux[0] && Head(aux, 8) / 0x1_0000_0000_0000 / 0x100 == Head(aux, 8) / 0x100_0000_0000_0000
  {
    NestedQuotients(Head(aux, 8));
  }

  // ---------------------------------------------------------------------------------------------
  // Retransmission requests: "RETX", the first missing sequence number, the number of packets
  // ---------------------------------------------------------------------------------------------

  const RETX_MAGIC: seq<Byte> := [0x52, 0x45, 0x54, 0x58]

  predicate RetxCheck(retx: seq<Byte>)
    requires |retx| >= RETX_HEADER_SIZE
  {
    retx[0] == RETX_MAGIC[0] && retx[1] == RETX_MAGIC[1] && retx[2] == RETX_MAGIC[2] && retx[3] == RETX_MAGIC[3]
  }

  function RetxGetSeqnum(retx: seq<Byte>): U16
    requires |retx| >= RETX_HEADER_SIZE
  {
    retx[4] as int * 0x100 + retx[5]
  }

  function RetxGetNum(retx: seq<Byte>): U16
    requires |retx| >= RETX_HEADER_SIZE
  {
    retx[6] as int * 0x100 + retx[7]
  }

  /** The bytes of a request, as the three writers below lay them out. */
  function RetxRequest(seqnum: U16, num: U16): (retx: seq<Byte>)
    ensures |retx| == RETX_HEADER_SIZE
  {
    RETX_MAGIC + [seqnum / 0x100, seqnum % 0x100, num / 0x100, num % 0x100]
  }

  method RetxInit(retx: array<Byte>)
    requires retx.Length >= RETX_HEADER_SIZE
    modifies retx
    ensures retx[..] == RETX_MAGIC + old(retx[4..])
  {
    retx[0], retx[1], retx[2], retx[3] := 0x52, 0x45, 0x54, 0x58;
  }

  method RetxSetSeqnum(retx: array<Byte>, seqnum: U16)
    requires retx.Length >= RETX_HEADER_SIZE
    modifies retx
    ensures retx[..] == old(retx[..4]) + [seqnum / 0x100, seqnum % 0x100] + old(retx[6..])
  {
    retx[4], retx[5] := seqnum / 0x100, seqnum % 0x100;
  }

  method RetxSetNum(retx: array<Byte>, num: U16)
    requires retx.Length >= RETX_HEADER_SIZE
    modifies retx
    ensures retx[..] == old(retx[..6]) + [num / 0x100, num % 0x100] + old(retx[8..])
  {
    retx[6], retx[7] := num / 0x100, num % 0x100;
  }

  /** The layout of a request: the letters RETX, the first number and the count, most significant byte first. */
  lemma RetxLayout(seqnum: U16, num: U16)
    ensures var retx := RetxRequest(seqnum, num);
            && retx[0] == 'R' as int && retx[1] == 'E' as int && retx[2] == 'T' as int && retx[3] == 'X' as int
            && retx[4] as int * 0x100 + retx[5] == seqnum && retx[6] as int * 0x100 + retx[7] == num
  {
  }

  /** What a request says is what its reader gets, and a well-marked header is the request it spells. */
  lemma RetxRoundTrip(retx: seq<Byte>, seqnum: U16, num: U16)
    requires |retx| == RETX_HEADER_SIZE
    ensures RetxCheck(retx) && RetxGetSeqnum(retx) == seqnum && RetxGetNum(retx) == num
       <==> retx == RetxRequest(seqnum, num)
  {
    if RetxCheck(retx) && RetxGetSeqnum(retx) == seqnum && RetxGetNum(retx) == num {
      assert retx == RetxRequest(seqnum, num);
    }
  }
}
