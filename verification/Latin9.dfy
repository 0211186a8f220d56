/** The in-place transcoder of util.c, from UTF-8 (section 3 of RFC 3629) to Latin-9 (ISO/IEC 8859-15). */
module Latin9 {
  import opened Base

  // ---------------------------------------------------------------------------------------------
  // Characters
  // ---------------------------------------------------------------------------------------------

  /** The program's table: the Latin-9 byte for a code point, or 256 if it has none. */
  function ToLatin9(code: nat): (b: nat)
    ensures b <= 256
  {
    if code < 256 then code
    else match code
    case 0x0152 => 188
    case 0x0153 => 189
    case 0x0160 => 166
    case 0x0161 => 168
    case 0x0178 => 190
    case 0x017D => 180
    case 0x017E => 184
    case 0x20AC => 164
    case _ => 256
  }

  /** Latin-9 itself: the code point that a byte stands for. */
  function FromLatin9(b: Byte): nat {
    match b
    case 164 => 0x20AC
    case 166 => 0x0160
    case 168 => 0x0161
    case 180 => 0x017D
    case 184 => 0x017E
    case 188 => 0x0152
    case 189 => 0x0153
    case 190 => 0x0178
    case _ => b
  }

  /**
    The table finds the byte of every character of Latin-9. It also finds one for the eight code points
    below 256 that are not in Latin-9, although that byte stands for another character.
   */
  lemma TablePreimage(code: nat, b: Byte)
    ensures ToLatin9(code) == b <==> code == FromLatin9(b) || code == b
  {
  }

  /** The code points below 256 that Latin-9 has replaced. */
  const REPLACED: set<nat> := {0xA4, 0xA6, 0xA8, 0xB4, 0xB8, 0xBC, 0xBD, 0xBE}

  /** A code point that the table knows comes back unless it is one of the eight. */
  lemma KnownComesBack(code: nat)
    requires ToLatin9(code) < 256
    ensures FromLatin9(ToLatin9(code)) == code <==> code !in REPLACED
  {
  }

  /** The currency sign, which Latin-9 does not have, comes out as the byte of the euro sign. */
  lemma CurrencyBecomesEuro()
    ensures ToLatin9(0xA4) == ToLatin9(0x20AC) == 0xA4 && FromLatin9(0xA4) == 0x20AC
  {
  }

  // ---------------------------------------------------------------------------------------------
  // Decoding
  // ---------------------------------------------------------------------------------------------

  /** The length of the sequence that a byte begins; 0 for a byte that begins none. */
  function SequenceLength(b: Byte): (k: nat)
    ensures k <= 6
  {
    if b < 128 then 1
    else if b < 192 then 0
    else if b < 224 then 2
    else if b < 240 then 3
    else if b < 248 then 4
    else if b < 252 then 5
    else if b < 254 then 6
    else 0
  }

  /** The payload bits of the first byte of a sequence of k bytes: the low 7 - k. */
  function LeadBits(b: Byte, k: nat): nat
    requires 2 <= k <= 6
  {
    b % (if k == 2 then 32 else if k == 3 then 16 else if k == 4 then 8 else if k == 5 then 4 else 2)
  }

  predicate Continues(b: Byte) {
    b / 64 == 2
  }

  predicate AllContinue(s: seq<Byte>) {
    forall j :: 1 <= j < |s| ==> Continues(s[j])
  }

  /** The code point of a sequence, six bits from each byte behind the first. */
  function Code(s: seq<Byte>, k: nat): nat
    requires 2 <= k <= 6 && 1 <= |s| <= k
  {
    if |s| == 1 then LeadBits(s[0], k) else Code(s[..|s| - 1], k) * 64 + s[|s| - 1] % 64
  }

  /** What a whole sequence contributes to the output. */
  function Emitted(s: seq<Byte>): (r: seq<Byte>)
    requires 2 <= |s| <= 6
    ensures |r| <= 1
  {
    if AllContinue(s) && ToLatin9(Code(s, |s|)) < 256
    then [ToLatin9(Code(s, |s|))]
    else []
  }

  /** The output for an input; an input that ends within a sequence ends the output. */
  function Decode(s: seq<Byte>): (r: seq<Byte>)
    ensures |r| <= |s|
    decreases |s|
  {
    if s == [] then [] else
      var k := SequenceLength(s[0]);
      if k == 0 then Decode(s[1..])
      else if k == 1 then [s[0]] + Decode(s[1..])
      else if k > |s| then []
      else Emitted(s[..k]) + Decode(s[k..])
  }

  /** Reads the sequence of k bytes at a position: whether its bytes continue it, and its code point. */
  method ReadSequence(input: array<Byte>, start: nat, k: nat) returns (continues: bool, code: nat)
    requires 2 <= k <= 6 && start + k <= input.Length
    ensures continues == AllContinue(input[start..start + k])
    ensures code == Code(input[start..start + k], k)
  {
    hide LeadBits, Continues;
    continues := true;
    code := LeadBits(input[start], k);
    assert input[start..start + 1] == [input[start]];
    for j := 1 to k
      invariant continues == AllContinue(input[start..start + j])
      invariant code == Code(input[start..start + j], k)
    {
      assert input[start..start + j + 1] == input[start..start + j] + [input[start + j]];
      assert input[start..start + j + 1][..j] == input[start..start + j];
      continues := continues && Continues(input[start + j]);
      code := code * 64 + input[start + j] % 64;
    }
  }

  /** The number of bytes before the terminating zero. */
  function StringLength(s: seq<Byte>): (n: nat)
    requires 0 in s
    ensures n < |s| && s[n] == 0 && 0 !in s[..n]
  {
    if s[0] == 0 then 0 else
      assert s == [s[0]] + s[1..];
      1 + StringLength(s[1..])
  }

  method StrLen(input: array<Byte>) returns (length: nat)
    requires 0 in input[..]
    ensures length == StringLength(input[..])
  {
    length := 0;
    while input[length] != 0
      invariant length <= StringLength(input[..])
      decreases input.Length - length
    {
      length := length + 1;
    }
  }

  /** One turn of the decoder. */
  lemma DecodeTurn(s: seq<Byte>)
    requires s != []
    ensures var k := SequenceLength(s[0]);
            Decode(s) == if k == 0 then Decode(s[1..])
                         else if k == 1 then [s[0]] + Decode(s[1..])
                         else if k > |s| then []
                         else Emitted(s[..k]) + Decode(s[k..])
  {
  }

  /** Stores one byte of output, if there is one, below the place that is read next. */
  method Put(input: array<Byte>, out: nat, bytes: seq<Byte>) returns (next: nat)
    requires |bytes| <= 1 && out + |bytes| <= input.Length
    modifies input
    ensures next == out + |bytes|
    ensures input[..next] == old(input[..out]) + bytes
    ensures forall j :: next <= j < input.Length ==> input[j] == old(input[j])
  {
    next := out;
    if |bytes| == 1 {
      input[out] := bytes[0];
      next := out + 1;
    }
  }

  /**
    Reads the sequence at a position: what it contributes, and where the next one is; past the end, decoding is
    over.
   */
  method NextCharacter(input: array<Byte>, start: nat, length: nat, ghost todo: seq<Byte>)
      returns (bytes: seq<Byte>, after: nat)
    requires start < length <= input.Length && todo == input[start..length]
    ensures start < after && |bytes| <= 1 && |bytes| <= after - start
    ensures Decode(todo) == if after > length then [] else bytes + Decode(todo[after - start..])
  {
    hide Emitted, Code, SequenceLength, Decode, ToLatin9, AllContinue;
    DecodeTurn(todo);
    var k := SequenceLength(input[start]);
    bytes := [];
    if k == 0 {
      after := start + 1;
      assert [] + Decode(todo[1..]) == Decode(todo[1..]);
    } else if k == 1 {
      bytes := [input[start]];
      after := start + 1;
    } else {
      after := start + k;
      if start + k - 1 >= length {
        return;
      }
      var continues, code := ReadSequence(input, start, k);
      assert input[start..start + k] == todo[..k];
      EmittedIs(todo[..k]);
      if continues {
        var c := ToLatin9(code);
        if c < 256 {
          bytes := [c];
        }
      }
    }
  }

  /** A buffer whose string was replaced by the decoding of its bytes; what lies behind the string is as it was. */
  ghost predicate Transcoded(before: seq<Byte>, after: seq<Byte>)
    requires 0 in before
  {
    var length := StringLength(before);
    var r := Decode(before[..length]);
    && |after| == |before| && |r| <= length
    && after[..|r|] == r && after[|r|] == 0
    && after[length + 1..] == before[length + 1..]
  }

  /**
    Overwrites the string in a buffer with its own Latin-9 form. What is stored never runs ahead of what is
    read, so the result is that of decoding the original bytes.
   */
  method Utf8ToLatin9(input: array<Byte>)
    requires 0 in input[..]
    modifies input
    ensures Transcoded(old(input[..]), input[..])
  {
    hide Emitted, Code, SequenceLength, StringLength, Decode, ToLatin9, AllContinue;
    ghost var all := input[..];
    var length := StrLen(input);
    ghost var s, done := all[..length], [];
    var next, out := 0, 0;
    assert s[0..] == s;
    while next < length
      invariant 0 <= out <= next <= length
      invariant forall j :: next <= j < input.Length ==> input[j] == all[j]
      invariant input[..out] == done && Decode(s) == done + Decode(s[next..])
    {
      ghost var todo := s[next..];
      assert todo == input[next..length];
      var bytes, after := NextCharacter(input, next, length, todo);
      if after > length {
        break;
      }
      assert s[after..] == todo[after - next..];
      Associates(done, bytes, Decode(s[after..]));
      next := after;
      out := Put(input, out, bytes);
      done := done + bytes;
    }
    DecodeNothing();
    assert next >= length ==> s[next..] == [];
    assert Decode(s) == done + [] == done;
    input[out] := 0;
    assert input[..out] == done;
  }

  lemma DecodeNothing()
    ensures Decode([]) == []
  {
  }

  lemma EmittedIs(s: seq<Byte>)
    requires 2 <= |s| <= 6
    ensures Emitted(s) == if AllContinue(s) && ToLatin9(Code(s, |s|)) < 256 then [ToLatin9(Code(s, |s|))] else []
  {
  }

  // ---------------------------------------------------------------------------------------------
  // Encoding
  // ---------------------------------------------------------------------------------------------

  const UNICODE_SIZE := 0x11_0000

  /** The UTF-8 encoding of a code point. */
  function Utf8(code: nat): (s: seq<Byte>)
    requires code < UNICODE_SIZE
    ensures 1 <= |s| <= 4
  {
    if code < 0x80 then [code]
    else if code < 0x800 then [0xC0 + code / 0x40, 0x80 + code % 0x40]
    else if code < 0x1_0000 then [0xE0 + code / 0x1000, 0x80 + code / 0x40 % 0x40, 0x80 + code % 0x40]
    else [0xF0 + code / 0x4_0000, 0x80 + code / 0x1000 % 0x40, 0x80 + code / 0x40 % 0x40, 0x80 + code % 0x40]
  }

  function Utf8Text(codes: seq<nat>): seq<Byte>
    requires forall i :: 0 <= i < |codes| ==> codes[i] < UNICODE_SIZE
  {
    if codes == [] then [] else Utf8(codes[0]) + Utf8Text(codes[1..])
  }

  /** The Latin-9 bytes of the code points that the table knows. */
  function Latin9Text(codes: seq<nat>): seq<Byte> {
    if codes == [] then []
    else (if ToLatin9(codes[0]) < 256 then [ToLatin9(codes[0])] else []) + Latin9Text(codes[1..])
  }

  /** The code point of a sequence, written out. */
  lemma CodeUnrolled(s: seq<Byte>, k: nat)
    requires 2 <= k <= 6 && 2 <= |s| <= k && |s| <= 4
    ensures var lead := LeadBits(s[0], k);
            Code(s, k) == if |s| == 2 then lead * 64 + s[1] % 64
                          else if |s| == 3 then (lead * 64 + s[1] % 64) * 64 + s[2] % 64
                          else ((lead * 64 + s[1] % 64) * 64 + s[2] % 64) * 64 + s[3] % 64
  {
    hide LeadBits;
    assert Code(s[..1], k) == LeadBits(s[0], k);
    assert s[..2][..1] == s[..1];
    if |s| == 2 {
      assert s[..2] == s;
    } else if |s| == 3 {
      assert s[..3] == s && s[..3][..2] == s[..2];
    } else {
      assert s[..4] == s && s[..4][..3] == s[..3] && s[..3][..2] == s[..2];
    }
  }

  lemma Utf8Shape(code: nat)
    requires 0x80 <= code < UNICODE_SIZE
    ensures var s := Utf8(code); |s| >= 2 && SequenceLength(s[0]) == |s| && AllContinue(s)
  {
  }

  /** A sequence of more than one byte is read back as the code point that it encodes. */
  lemma Utf8Code(code: nat)
    requires 0x80 <= code < UNICODE_SIZE
    ensures var s := Utf8(code);
            |s| >= 2 && SequenceLength(s[0]) == |s| && AllContinue(s) && Code(s, |s|) == code
  {
    hide Code, SequenceLength, AllContinue, LeadBits;
    var s := Utf8(code);
    Utf8Shape(code);
    CodeUnrolled(s, |s|);
    LeadOf(s[0], |s|);
    Digits(code);
  }

  /** The first byte of a sequence carries what it has above its marker. */
  lemma LeadOf(b: Byte, k: nat)
    requires 2 <= k <= 4
    ensures k == 2 && 0xC0 <= b < 0xE0 ==> LeadBits(b, k) == b - 0xC0
    ensures k == 3 && 0xE0 <= b < 0xF0 ==> LeadBits(b, k) == b - 0xE0
    ensures k == 4 && 0xF0 <= b < 0xF8 ==> LeadBits(b, k) == b - 0xF0
  {
  }

  /** A code point is the number of its base-64 digits. */
  lemma Digits(code: nat)
    ensures code == code / 0x40 * 64 + (0x80 + code % 0x40) % 64
    ensures code / 0x40 == code / 0x1000 * 64 + (0x80 + code / 0x40 % 0x40) % 64
    ensures code / 0x1000 == code / 0x4_0000 * 64 + (0x80 + code / 0x1000 % 0x40) % 64
  {
    var q := code / 0x40;
    var p := q / 0x40;
    assert code / 0x1000 == p && code / 0x4_0000 == p / 0x40;
  }

  /** Decoding takes exactly the first character off. */
  lemma DecodeOne(code: nat, rest: seq<Byte>)
    requires code < UNICODE_SIZE
    ensures Decode(Utf8(code) + rest) == (if ToLatin9(code) < 256 then [ToLatin9(code)] else []) + Decode(rest)
  {
    hide ToLatin9, Code;
    var s := Utf8(code);
    var all := s + rest;
    DecodeTurn(all);
    assert all[0] == s[0];
    if code < 0x80 {
      assert ToLatin9(code) == code by { TablePreimage(code, code); }
      assert all[1..] == rest;
    } else {
      Utf8Code(code);
      assert all[..|s|] == s && all[|s|..] == rest;
    }
  }

  // ---------------------------------------------------------------------------------------------
  // Anything else that a string may hold
  // ---------------------------------------------------------------------------------------------

  /** The number that the low six bits of some bytes spell, behind a first part. */
  function Spelled(first: nat, s: seq<Byte>): nat
    decreases |s|
  {
    if s == [] then first else Spelled(first, s[..|s| - 1]) * 64 + s[|s| - 1] % 64
  }

  /** The length and the payload of a first byte, by the number of its leading ones. */
  lemma LeadByte(b: Byte)
    ensures 0xC0 <= b < 0xE0 ==> SequenceLength(b) == 2 && LeadBits(b, 2) == b - 0xC0
    ensures 0xE0 <= b < 0xF0 ==> SequenceLength(b) == 3 && LeadBits(b, 3) == b - 0xE0
    ensures 0xF0 <= b < 0xF8 ==> SequenceLength(b) == 4 && LeadBits(b, 4) == b - 0xF0
    ensures 0xF8 <= b < 0xFC ==> SequenceLength(b) == 5 && LeadBits(b, 5) == b - 0xF8
    ensures 0xFC <= b < 0xFE ==> SequenceLength(b) == 6 && LeadBits(b, 6) == b - 0xFC
    ensures b < 0x80 <==> SequenceLength(b) == 1
    ensures 0x80 <= b < 0xC0 || b >= 0xFE <==> SequenceLength(b) == 0
  {
  }

  lemma {:induction false} CodeIsSpelled(s: seq<Byte>, k: nat)
    requires 2 <= k <= 6 && 1 <= |s| <= k
    ensures Code(s, k) == Spelled(LeadBits(s[0], k), s[1..])
    decreases |s|
  {
    hide LeadBits;
    if |s| > 1 {
      CodeIsSpelled(s[..|s| - 1], k);
      assert s[1..][..|s[1..]| - 1] == s[..|s| - 1][1..];
    }
  }

  /** A byte that begins no sequence is passed over. */
  lemma StrayByte(b: Byte, rest: seq<Byte>)
    requires 0x80 <= b < 0xC0 || b >= 0xFE
    ensures Decode([b] + rest) == Decode(rest)
  {
    assert ([b] + rest)[1..] == rest;
  }

  /** A byte below 128 is left as it is. */
  lemma PlainByte(b: Byte, rest: seq<Byte>)
    requires b < 0x80
    ensures Decode([b] + rest) == [b] + Decode(rest)
  {
    assert ([b] + rest)[1..] == rest;
  }

  /**
    A sequence of the length that its first byte says is taken off as a whole. It gives the byte of the number that it
    spells, in the shortest form or not, if the table has one; it gives nothing if it has none, or if one of
    its other bytes is not one that continues a sequence.
   */
  lemma WholeSequence(s: seq<Byte>, rest: seq<Byte>)
    requires s != [] && 2 <= SequenceLength(s[0]) == |s|
    ensures var code := Spelled(LeadBits(s[0], |s|), s[1..]);
            var whole := forall j :: 1 <= j < |s| ==> 0x80 <= s[j] < 0xC0;
            Decode(s + rest) == (if whole && ToLatin9(code) < 256 then [ToLatin9(code)] else []) + Decode(rest)
  {
    hide ToLatin9, Code, LeadBits, Decode, SequenceLength;
    var all := s + rest;
    DecodeTurn(all);
    CodeIsSpelled(s, |s|);
    assert all[0] == s[0] && all[..|s|] == s && all[|s|..] == rest;
  }

  /** An input that ends within a sequence ends the output. */
  lemma CutSequence(s: seq<Byte>)
    requires s != [] && |s| < SequenceLength(s[0])
    ensures Decode(s) == []
  {
  }

  /** Decoding the UTF-8 form of any text gives the Latin-9 form of those of its characters that the table knows. */
  lemma {:induction false} DecodeText(codes: seq<nat>)
    requires forall i :: 0 <= i < |codes| ==> codes[i] < UNICODE_SIZE
    ensures Decode(Utf8Text(codes)) == Latin9Text(codes)
    decreases |codes|
  {
    hide Decode, Utf8, ToLatin9;
    if codes == [] {
      DecodeNothing();
    } else {
      DecodeOne(codes[0], Utf8Text(codes[1..]));
      DecodeText(codes[1..]);
    }
  }

  function Codes(latin9: seq<Byte>): (r: seq<nat>)
    ensures |r| == |latin9|
    ensures forall i :: 0 <= i < |r| ==> r[i] < UNICODE_SIZE
  {
    if latin9 == [] then [] else [FromLatin9(latin9[0])] + Codes(latin9[1..])
  }

  /** The Latin-9 form of the code points of a Latin-9 text is that text. */
  lemma {:induction false} CodesRoundTrip(latin9: seq<Byte>)
    ensures Latin9Text(Codes(latin9)) == latin9
    decreases |latin9|
  {
    hide ToLatin9, FromLatin9;
    if latin9 != [] {
      var c := FromLatin9(latin9[0]);
      TablePreimage(c, latin9[0]);
      CodesRoundTrip(latin9[1..]);
      assert Codes(latin9)[1..] == Codes(latin9[1..]);
    }
  }

  /** The transcoder undoes the UTF-8 encoding of every Latin-9 text. */
  lemma Latin9RoundTrip(latin9: seq<Byte>)
    ensures Decode(Utf8Text(Codes(latin9))) == latin9
  {
    DecodeText(Codes(latin9));
    CodesRoundTrip(latin9);
  }

  // ---------------------------------------------------------------------------------------------
  // Texts in a buffer
  // ---------------------------------------------------------------------------------------------

  /** A text without the zero character is encoded without a zero byte. */
  lemma {:induction false} NoZeroByte(codes: seq<nat>)
    requires forall i :: 0 <= i < |codes| ==> 0 < codes[i] < UNICODE_SIZE
    ensures 0 !in Utf8Text(codes)
    decreases |codes|
  {
    if codes != [] {
      NoZeroByte(codes[1..]);
      assert 0 !in Utf8(codes[0]);
    }
  }

  lemma {:induction false} FirstZero(s: seq<Byte>, k: nat)
    requires k < |s| && s[k] == 0 && forall i :: 0 <= i < k ==> s[i] != 0
    ensures 0 in s && StringLength(s) == k
    decreases k
  {
    if k > 0 {
      FirstZero(s[1..], k - 1);
    }
  }

  lemma StringIs(text: seq<Byte>, tail: seq<Byte>)
    requires 0 !in text
    ensures var all := text + [0] + tail; 0 in all && StringLength(all) == |text| && all[..|text|] == text
  {
    FirstZero(text + [0] + tail, |text|);
  }

  /** What the transcoder leaves of a string that anything may follow. */
  lemma StringTranscoded(text: seq<Byte>, tail: seq<Byte>, after: seq<Byte>)
    requires 0 !in text
    ensures var before := text + [0] + tail; 0 in before && (Transcoded(before, after) ==> Decode(text) + [0] <= after)
  {
    hide StringLength, Decode;
    StringIs(text, tail);
    if Transcoded(text + [0] + tail, after) {
      var r := Decode(text);
      assert after[..|r| + 1] == after[..|r|] + [after[|r|]];
    }
  }

  /** Any text without the zero character, in a buffer with anything behind it: its known characters are left. */
  lemma TextInBuffer(codes: seq<nat>, tail: seq<Byte>, after: seq<Byte>)
    requires forall i :: 0 <= i < |codes| ==> 0 < codes[i] < UNICODE_SIZE
    ensures var before := Utf8Text(codes) + [0] + tail;
            0 in before && (Transcoded(before, after) ==> Latin9Text(codes) + [0] <= after)
  {
    hide Utf8Text, Transcoded, Decode, Latin9Text;
    NoZeroByte(codes);
    StringTranscoded(Utf8Text(codes), tail, after);
    DecodeText(codes);
  }

  /** The transcoder leaves in its buffer every Latin-9 text whose encoding it finds there. */
  lemma BufferRoundTrip(latin9: seq<Byte>, tail: seq<Byte>, after: seq<Byte>)
    requires 0 !in latin9
    ensures var before := Utf8Text(Codes(latin9)) + [0] + tail;
            0 in before && (Transcoded(before, after) ==> latin9 + [0] <= after)
  {
    hide Utf8Text, Transcoded, FromLatin9;
    NonzeroCodes(latin9);
    TextInBuffer(Codes(latin9), tail, after);
    CodesRoundTrip(latin9);
  }

  lemma {:induction false} NonzeroCodes(latin9: seq<Byte>)
    requires 0 !in latin9
    ensures forall i :: 0 <= i < |latin9| ==> 0 < Codes(latin9)[i]
    decreases |latin9|
  {
    if latin9 != [] {
      NonzeroCodes(latin9[1..]);
      assert FromLatin9(latin9[0]) > 0;
    }
  }

  lemma {:induction false} Latin9TextSize(codes: seq<nat>)
    ensures |Latin9Text(codes)| <= |codes|
    decreases |codes|
  {
    hide ToLatin9;
    if codes != [] {
      Latin9TextSize(codes[1..]);
    }
  }

  /**
    The text that a reader of Latin-9 sees is the one that was encoded if and only if the table knows all its
    characters and none of them is one of the eight.
   */
  lemma {:induction false} TextComesOutRight(codes: seq<nat>)
    requires forall i :: 0 <= i < |codes| ==> codes[i] < UNICODE_SIZE
    ensures Codes(Decode(Utf8Text(codes))) == codes
       <==> forall i :: 0 <= i < |codes| ==> ToLatin9(codes[i]) < 256 && codes[i] !in REPLACED
    decreases |codes|
  {
    hide ToLatin9, FromLatin9, Decode, Utf8Text;
    DecodeText(codes);
    if codes != [] {
      var c, rest := codes[0], codes[1..];
      TextComesOutRight(rest);
      DecodeText(rest);
      Latin9TextSize(rest);
      if ToLatin9(c) < 256 {
        KnownComesBack(c);
        assert Latin9Text(codes)[1..] == Latin9Text(rest);
        assert Codes(Latin9Text(codes)) == [FromLatin9(ToLatin9(c))] + Codes(Latin9Text(rest));
        assert codes == [c] + rest;
      } else {
        assert Latin9Text(codes) == Latin9Text(rest);
        assert |Codes(Latin9Text(rest))| < |codes|;
      }
      AllOrHead(codes);
    }
  }

  /** A condition on all characters of a text is one on the first and on the rest. */
  lemma AllOrHead(codes: seq<nat>)
    requires codes != []
    ensures (forall i :: 0 <= i < |codes| ==> ToLatin9(codes[i]) < 256 && codes[i] !in REPLACED)
       <==> ToLatin9(codes[0]) < 256 && codes[0] !in REPLACED
            && (forall i :: 0 <= i < |codes[1..]| ==> ToLatin9(codes[1..][i]) < 256 && codes[1..][i] !in REPLACED)
  {
    hide ToLatin9;
    if forall i :: 0 <= i < |codes[1..]| ==> ToLatin9(codes[1..][i]) < 256 && codes[1..][i] !in REPLACED {
      assert forall i :: 0 < i < |codes| ==> codes[i] == codes[1..][i - 1];
    }
  }
}
