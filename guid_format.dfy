/** The text form of a partition's unique GUID that
    get_unique_guid_for_partition writes: 36 lowercase hex digits and
    hyphens followed by a NUL. The first three groups render their bytes in
    reverse order and the last two in stored order: the text form of
    section 3 of RFC 4122 applied to the byte layout of Appendix A of the
    UEFI specification, where the first three fields are stored
    little-endian. */
module GuidFormat {
  import opened AvbIo

  /** The 16 raw bytes of a GPT entry's unique partition GUID. */
  type Guid = s: seq<bv8> | |s| == 16 witness seq(16, _ => 0 as bv8)

  const HexDigits: string := "0123456789abcdef"

  /** The characters set_hex writes for a byte: the hex digit of its high
      nibble, then the hex digit of its low nibble. */
  function HexPair(value: bv8): string
  {
    [HexDigits[(value >> 4) as int], HexDigits[(value & 0x0f) as int]]
  }

  /** `s` holds the two digits of `value` at `at` and `at + 1`. */
  predicate PairAt(s: string, at: nat, value: bv8)
  {
    at + 2 <= |s| && s[at] == HexPair(value)[0] && s[at + 1] == HexPair(value)[1]
  }

  /** Text `s` with the two digits of `value` put at `at`. */
  function PutPair(s: string, at: nat, value: bv8): (r: string)
    requires at + 2 <= |s|
    ensures |r| == |s|
  {
    s[at := HexPair(value)[0]][at + 1 := HexPair(value)[1]]
  }

  /** set_hex: the two digits of `value` written at `at`, nothing else
      touched. */
  method SetHex(buf: array<char>, at: nat, value: bv8)
    requires at + 2 <= buf.Length
    modifies buf
    ensures buf[..] == PutPair(old(buf[..]), at, value)
  {
    var hexDigits := HexDigits;
    buf[at] := hexDigits[value >> 4];
    buf[at + 1] := hexDigits[value & 0x0f];
  }

  /** Putting a pair reads back as that pair and changes nothing else. */
  lemma PutPairContents(s: string, at: nat, value: bv8, i: nat)
    requires at + 2 <= |s| && i < |s|
    ensures PairAt(PutPair(s, at, value), at, value)
    ensures i != at && i != at + 1 ==> PutPair(s, at, value)[i] == s[i]
  {
  }

  /** When the text up to `at` is already in place, putting the pair the
      text holds at `at` extends the finished part by two characters and
      leaves everything from `end` on alone. */
  lemma PutPairExtends(s: string, text: string, at: nat, value: bv8, end: nat)
    requires at + 2 <= end <= |s| && at + 2 <= |text|
    requires s[..at] == text[..at] && PairAt(text, at, value)
    ensures PutPair(s, at, value)[..at + 2] == text[..at + 2]
    ensures PutPair(s, at, value)[end..] == s[end..]
  {
    var r := PutPair(s, at, value);
    forall i | 0 <= i < at
      ensures r[i] == text[i]
    {
      assert s[..at][i] == text[..at][i];
    }
  }

  /** Two pairs in a row, as the four-digit runs are written. */
  lemma PutTwoPairsExtend(s: string, text: string, at: nat, a: bv8, b: bv8, end: nat)
    requires at + 4 <= end <= |s| && at + 4 <= |text|
    requires s[..at] == text[..at] && PairAt(text, at, a) && PairAt(text, at + 2, b)
    ensures PutPair(PutPair(s, at, a), at + 2, b)[..at + 4] == text[..at + 4]
    ensures PutPair(PutPair(s, at, a), at + 2, b)[end..] == s[end..]
  {
    PutPairExtends(s, text, at, a, end);
    PutPairExtends(PutPair(s, at, a), text, at + 2, b, end);
  }

  /** The same for a single character (the hyphens and the NUL). */
  lemma PutCharExtends(s: string, text: string, at: nat, c: char, end: nat)
    requires at + 1 <= end <= |s| && at + 1 <= |text|
    requires s[..at] == text[..at] && text[at] == c
    ensures s[at := c][..at + 1] == text[..at + 1]
    ensures s[at := c][end..] == s[end..]
  {
    forall i | 0 <= i < at
      ensures s[at := c][i] == text[i]
    {
      assert s[..at][i] == text[..at][i];
    }
  }

  /** The hex digits of a run of bytes, each byte rendered as by set_hex. */
  function HexBytes(bytes: seq<bv8>): string
  {
    seq(2 * |bytes|, i requires 0 <= i < 2 * |bytes| => HexPair(bytes[i / 2])[i % 2])
  }

  /** The k-th byte's two digits sit at 2k in HexBytes. */
  lemma HexBytesAt(bytes: seq<bv8>, k: nat)
    requires k < |bytes|
    ensures PairAt(HexBytes(bytes), 2 * k, bytes[k])
  {
    assert (2 * k) / 2 == k && (2 * k + 1) / 2 == k;
  }

  /** Appending a byte appends its two digits. */
  lemma HexBytesSnoc(bytes: seq<bv8>, b: bv8)
    ensures HexBytes(bytes + [b]) == HexBytes(bytes) + HexPair(b)
  {
    var l, r := HexBytes(bytes + [b]), HexBytes(bytes) + HexPair(b);
    forall i | 0 <= i < |l|
      ensures l[i] == r[i]
    {
      if i < 2 * |bytes| {
        assert (bytes + [b])[i / 2] == bytes[i / 2];
      }
    }
  }

  /** The 37 characters the formatter writes for a GUID, terminator included. */
  function GuidString(u: Guid): (s: string)
    ensures |s| == 37 && s[8] == '-' && s[13] == '-' && s[18] == '-' && s[23] == '-' && s[36] == '\0'
  {
    HexBytes([u[3], u[2], u[1], u[0]]) + "-" +
    HexBytes([u[5], u[4]]) + "-" +
    HexBytes([u[7], u[6]]) + "-" +
    HexBytes(u[8..10]) + "-" +
    HexBytes(u[10..16]) + "\0"
  }

  /** Which stored byte is rendered j-th: 3,2,1,0 | 5,4 | 7,6 | 8,9 | 10..15.
      The permutation is its own inverse. */
  function RenderedByte(j: nat): (k: nat)
    requires j < 16
    ensures k < 16
  {
    if j < 4 then 3 - j else if j < 6 then 9 - j else if j < 8 then 13 - j else j
  }

  lemma RenderedByteSelfInverse(j: nat)
    requires j < 16
    ensures RenderedByte(RenderedByte(j)) == j
  {
  }

  /** Where the digits of the j-th rendered byte start: two characters for
      each byte before it and one for each hyphen before it. */
  function DigitPosition(j: nat): nat
  {
    2 * j + (if j < 4 then 0 else if j < 6 then 1 else if j < 8 then 2 else if j < 10 then 3 else 4)
  }

  /** `s` is a rendering of `u`: 37 characters, hyphens at 8, 13, 18 and
      23, the NUL at 36, and the two digits of the j-th rendered byte at
      DigitPosition(j). PairsInPlace below states the same layout as
      sixteen separate facts, in the order get_unique_guid_for_partition
      writes them; the general form here is what quantified reasoning
      (uniqueness, parsing) needs, the spelled-out form is what the
      write-by-write proofs need, and PairsInPlaceRenders links the two. */
  predicate RendersGuid(s: string, u: Guid)
  {
    |s| == 37 && s[8] == '-' && s[13] == '-' && s[18] == '-' && s[23] == '-' && s[36] == '\0' &&
    forall j :: 0 <= j < 16 ==> PairAt(s, DigitPosition(j), u[RenderedByte(j)])
  }

  lemma GuidStringGroups(u: Guid)
    ensures |GuidString(u)| == 37
    ensures GuidString(u)[0..8] == HexBytes([u[3], u[2], u[1], u[0]])
    ensures GuidString(u)[9..13] == HexBytes([u[5], u[4]])
    ensures GuidString(u)[14..18] == HexBytes([u[7], u[6]])
    ensures GuidString(u)[19..23] == HexBytes(u[8..10])
    ensures GuidString(u)[24..36] == HexBytes(u[10..16])
    ensures GuidString(u)[8] == '-' && GuidString(u)[13] == '-'
    ensures GuidString(u)[18] == '-' && GuidString(u)[23] == '-'
    ensures GuidString(u)[36] == '\0'
  {
  }

  /** Inside a run of digits that is HexBytes(bytes), the k-th byte's two
      digits sit 2k characters in. */
  lemma FieldDigits(s: string, start: nat, bytes: seq<bv8>, k: nat)
    requires start + 2 * |bytes| <= |s| && s[start..start + 2 * |bytes|] == HexBytes(bytes)
    requires k < |bytes|
    ensures PairAt(s, start + 2 * k, bytes[k])
  {
    HexBytesAt(bytes, k);
    var h := HexBytes(bytes);
    assert s[start + 2 * k] == h[2 * k] && s[start + 2 * k + 1] == h[2 * k + 1];
  }

  /** The pairs of the time-low field, at 0, 2, 4 and 6. */
  lemma TimeLowPairs(s: string, u: Guid)
    requires 8 <= |s| && s[0..8] == HexBytes([u[3], u[2], u[1], u[0]])
    ensures PairAt(s, 0, u[3]) && PairAt(s, 2, u[2]) && PairAt(s, 4, u[1]) && PairAt(s, 6, u[0])
  {
    var timeLow := [u[3], u[2], u[1], u[0]];
    FieldDigits(s, 0, timeLow, 0);
    FieldDigits(s, 0, timeLow, 1);
    FieldDigits(s, 0, timeLow, 2);
    FieldDigits(s, 0, timeLow, 3);
  }

  /** The two pairs of a two-byte field starting at `start`. */
  lemma ShortFieldPairs(s: string, start: nat, a: bv8, b: bv8)
    requires start + 4 <= |s| && s[start..start + 4] == HexBytes([a, b])
    ensures PairAt(s, start, a) && PairAt(s, start + 2, b)
  {
    FieldDigits(s, start, [a, b], 0);
    FieldDigits(s, start, [a, b], 1);
  }

  /** The pairs of the node field, at 24, 26, ..., 34. */
  lemma NodePairs(s: string, u: Guid)
    requires 36 <= |s| && s[24..36] == HexBytes(u[10..16])
    ensures PairAt(s, 24, u[10]) && PairAt(s, 26, u[11]) && PairAt(s, 28, u[12])
    ensures PairAt(s, 30, u[13]) && PairAt(s, 32, u[14]) && PairAt(s, 34, u[15])
  {
    var node := u[10..16];
    FieldDigits(s, 24, node, 0);
    FieldDigits(s, 24, node, 1);
    FieldDigits(s, 24, node, 2);
    FieldDigits(s, 24, node, 3);
    FieldDigits(s, 24, node, 4);
    FieldDigits(s, 24, node, 5);
  }

  /** The sixteen pairs, the hyphens and the NUL of a rendering of `u`, at
      the positions get_unique_guid_for_partition writes them. */
  predicate PairsInPlace(s: string, u: Guid)
  {
    |s| == 37 &&
    PairAt(s, 0, u[3]) && PairAt(s, 2, u[2]) && PairAt(s, 4, u[1]) && PairAt(s, 6, u[0]) &&
    PairAt(s, 9, u[5]) && PairAt(s, 11, u[4]) &&
    PairAt(s, 14, u[7]) && PairAt(s, 16, u[6]) &&
    PairAt(s, 19, u[8]) && PairAt(s, 21, u[9]) &&
    PairAt(s, 24, u[10]) && PairAt(s, 26, u[11]) && PairAt(s, 28, u[12]) &&
    PairAt(s, 30, u[13]) && PairAt(s, 32, u[14]) && PairAt(s, 34, u[15]) &&
    s[8] == '-' && s[13] == '-' && s[18] == '-' && s[23] == '-' && s[36] == '\0'
  }

  /** The formatter's output has every pair in place. */
  lemma GuidStringPairs(u: Guid)
    ensures PairsInPlace(GuidString(u), u)
  {
    GuidStringGroups(u);
    var s := GuidString(u);
    TimeLowPairs(s, u);
    ShortFieldPairs(s, 9, u[5], u[4]);
    ShortFieldPairs(s, 14, u[7], u[6]);
    assert u[8..10] == [u[8], u[9]];
    ShortFieldPairs(s, 19, u[8], u[9]);
    NodePairs(s, u);
  }

  /** The pairs in place, read through DigitPosition and RenderedByte. */
  lemma PairsInPlaceRenders(s: string, u: Guid)
    requires PairsInPlace(s, u)
    ensures RendersGuid(s, u)
  {
    forall j | 0 <= j < 16
      ensures PairAt(s, DigitPosition(j), u[RenderedByte(j)])
    {
      if j < 8 {
        if j < 4 { assert j == 0 || j == 1 || j == 2 || j == 3; }
        else { assert j == 4 || j == 5 || j == 6 || j == 7; }
      } else {
        if j < 12 { assert j == 8 || j == 9 || j == 10 || j == 11; }
        else { assert j == 12 || j == 13 || j == 14 || j == 15; }
      }
    }
  }

  /** Every character of the formatter's output pinned down. */
  lemma GuidStringLayout(u: Guid)
    ensures RendersGuid(GuidString(u), u)
  {
    GuidStringPairs(u);
    PairsInPlaceRenders(GuidString(u), u);
  }

  /** Which rendered byte the digit at position i belongs to (i not a
      hyphen and below 36). */
  function DigitSlot(i: nat): (j: nat)
    requires i < 36 && i != 8 && i != 13 && i != 18 && i != 23
    ensures j < 16 && DigitPosition(j) <= i < DigitPosition(j) + 2
  {
    (i - (if i < 8 then 0 else if i < 13 then 1 else if i < 18 then 2 else if i < 23 then 3 else 4)) / 2
  }

  /** Two renderings of the same GUID are the same text. */
  lemma RenderingsAgree(s: string, t: string, u: Guid)
    requires RendersGuid(s, u) && RendersGuid(t, u)
    ensures s == t
  {
    forall i | 0 <= i < 37
      ensures s[i] == t[i]
    {
      if i != 8 && i != 13 && i != 18 && i != 23 && i != 36 {
        var j := DigitSlot(i);
        assert PairAt(s, DigitPosition(j), u[RenderedByte(j)]);
        assert PairAt(t, DigitPosition(j), u[RenderedByte(j)]);
      }
    }
  }

  /** The layout determines the text: a string is a rendering of `u`
      exactly when it is the formatter's output for `u`. */
  lemma RendersGuidIffGuidString(s: string, u: Guid)
    ensures RendersGuid(s, u) <==> s == GuidString(u)
  {
    GuidStringLayout(u);
    if RendersGuid(s, u) {
      RenderingsAgree(s, GuidString(u), u);
    }
  }

  // The five functions below spell out, field by field, the writes that
  // get_unique_guid_for_partition makes. The method's ghost copy of the
  // buffer follows them, so that each field is proved on its own.

  /** The writes of the time-low field: bytes 3, 2, 1, 0 and the hyphen at 8. */
  function TimeLowWrites(s: string, u: Guid): (r: string)
    requires 37 <= |s|
    ensures |r| == |s|
  {
    PutPair(PutPair(PutPair(PutPair(s, 0, u[3]), 2, u[2]), 4, u[1]), 6, u[0])[8 := '-']
  }

  lemma TimeLowWritesExtend(s: string, text: string, u: Guid)
    requires 37 <= |s| && PairsInPlace(text, u)
    ensures TimeLowWrites(s, u)[..9] == text[..9]
    ensures TimeLowWrites(s, u)[37..] == s[37..]
  {
    assert s[..0] == text[..0];
    PutTwoPairsExtend(s, text, 0, u[3], u[2], 37);
    var s2 := PutPair(PutPair(s, 0, u[3]), 2, u[2]);
    PutTwoPairsExtend(s2, text, 4, u[1], u[0], 37);
    var s4 := PutPair(PutPair(s2, 4, u[1]), 6, u[0]);
    PutCharExtends(s4, text, 8, '-', 37);
    assert TimeLowWrites(s, u) == s4[8 := '-'];
  }


  /** The writes of the time-mid field: bytes 5, 4 and the hyphen at 13. */
  function TimeMidWrites(s: string, u: Guid): (r: string)
    requires 37 <= |s|
    ensures |r| == |s|
  {
    PutPair(PutPair(s, 9, u[5]), 11, u[4])[13 := '-']
  }

  lemma TimeMidWritesExtend(s: string, text: string, u: Guid)
    requires 37 <= |s| && PairsInPlace(text, u)
    requires s[..9] == text[..9]
    ensures TimeMidWrites(s, u)[..14] == text[..14]
    ensures TimeMidWrites(s, u)[37..] == s[37..]
  {
    PutTwoPairsExtend(s, text, 9, u[5], u[4], 37);
    PutCharExtends(PutPair(PutPair(s, 9, u[5]), 11, u[4]), text, 13, '-', 37);
  }

  /** The writes of the time-high field: bytes 7, 6 and the hyphen at 18. */
  function TimeHighWrites(s: string, u: Guid): (r: string)
    requires 37 <= |s|
    ensures |r| == |s|
  {
    PutPair(PutPair(s, 14, u[7]), 16, u[6])[18 := '-']
  }

  lemma TimeHighWritesExtend(s: string, text: string, u: Guid)
    requires 37 <= |s| && PairsInPlace(text, u)
    requires s[..14] == text[..14]
    ensures TimeHighWrites(s, u)[..19] == text[..19]
    ensures TimeHighWrites(s, u)[37..] == s[37..]
  {
    PutTwoPairsExtend(s, text, 14, u[7], u[6], 37);
    PutCharExtends(PutPair(PutPair(s, 14, u[7]), 16, u[6]), text, 18, '-', 37);
  }

  /** The writes of the clock-sequence field: bytes 8, 9 and the hyphen at 23. */
  function ClockSeqWrites(s: string, u: Guid): (r: string)
    requires 37 <= |s|
    ensures |r| == |s|
  {
    PutPair(PutPair(s, 19, u[8]), 21, u[9])[23 := '-']
  }

  lemma ClockSeqWritesExtend(s: string, text: string, u: Guid)
    requires 37 <= |s| && PairsInPlace(text, u)
    requires s[..19] == text[..19]
    ensures ClockSeqWrites(s, u)[..24] == text[..24]
    ensures ClockSeqWrites(s, u)[37..] == s[37..]
  {
    PutTwoPairsExtend(s, text, 19, u[8], u[9], 37);
    PutCharExtends(PutPair(PutPair(s, 19, u[8]), 21, u[9]), text, 23, '-', 37);
  }

  /** The writes of the node field: bytes 10 to 15 and the NUL at 36. */
  function NodeWrites(s: string, u: Guid): (r: string)
    requires 37 <= |s|
    ensures |r| == |s|
  {
    PutPair(PutPair(PutPair(PutPair(PutPair(PutPair(s, 24, u[10]), 26, u[11]), 28, u[12]), 30, u[13]), 32, u[14]), 34, u[15])[36 := '\0']
  }

  lemma NodeWritesExtend(s: string, text: string, u: Guid)
    requires 37 <= |s| && PairsInPlace(text, u)
    requires s[..24] == text[..24]
    ensures NodeWrites(s, u)[..37] == text[..37]
    ensures NodeWrites(s, u)[37..] == s[37..]
  {
    PutTwoPairsExtend(s, text, 24, u[10], u[11], 37);
    var s2 := PutPair(PutPair(s, 24, u[10]), 26, u[11]);
    PutTwoPairsExtend(s2, text, 28, u[12], u[13], 37);
    var s4 := PutPair(PutPair(s2, 28, u[12]), 30, u[13]);
    PutTwoPairsExtend(s4, text, 32, u[14], u[15], 37);
    PutCharExtends(PutPair(PutPair(s4, 32, u[14]), 34, u[15]), text, 36, '\0', 37);
  }


  /** What get_unique_guid_for_partition's writes leave in a buffer `s`:
      the five fields in the order of the code. */
  function GuidWrites(s: string, u: Guid): (r: string)
    requires 37 <= |s|
    ensures |r| == |s|
  {
    NodeWrites(ClockSeqWrites(TimeHighWrites(TimeMidWrites(TimeLowWrites(s, u), u), u), u), u)
  }

  /** Those writes leave any text with the pairs, hyphens and NUL of `u`
      in place in the first 37 characters, and the rest of the buffer alone. */
  lemma GuidWritesPlace(s: string, text: string, u: Guid)
    requires 37 <= |s| && PairsInPlace(text, u)
    ensures GuidWrites(s, u)[..37] == text
    ensures GuidWrites(s, u)[37..] == s[37..]
  {
    var s1 := TimeLowWrites(s, u);
    TimeLowWritesExtend(s, text, u);
    var s2 := TimeMidWrites(s1, u);
    TimeMidWritesExtend(s1, text, u);
    var s3 := TimeHighWrites(s2, u);
    TimeHighWritesExtend(s2, text, u);
    var s4 := ClockSeqWrites(s3, u);
    ClockSeqWritesExtend(s3, text, u);
    NodeWritesExtend(s4, text, u);
  }

  /** So they put the formatter's output in the first 37 characters. */
  lemma GuidWritesRender(s: string, u: Guid)
    requires 37 <= |s|
    ensures GuidWrites(s, u)[..37] == GuidString(u)
    ensures GuidWrites(s, u)[37..] == s[37..]
  {
    GuidStringPairs(u);
    GuidWritesPlace(s, GuidString(u), u);
  }

  /** The value of bytes read most significant first. */
  function BigEndian(bytes: seq<bv8>): nat
    decreases |bytes|
  {
    if bytes == [] then 0 else BigEndian(bytes[..|bytes| - 1]) * 256 + bytes[|bytes| - 1] as int
  }

  /** The value of bytes stored least significant first. */
  function LittleEndian(bytes: seq<bv8>): nat
    decreases |bytes|
  {
    if bytes == [] then 0 else bytes[0] as int + 256 * LittleEndian(bytes[1..])
  }

  function Reversed(bytes: seq<bv8>): (r: seq<bv8>)
    ensures |r| == |bytes|
  {
    seq(|bytes|, i requires 0 <= i < |bytes| => bytes[|bytes| - 1 - i])
  }

  /** Bytes stored least significant first have the value of the reversed
      bytes read most significant first. */
  lemma {:induction false} LittleEndianReversed(bytes: seq<bv8>)
    ensures LittleEndian(bytes) == BigEndian(Reversed(bytes))
    decreases |bytes|
  {
    if bytes != [] {
      LittleEndianReversed(bytes[1..]);
      var r := Reversed(bytes);
      assert r[..|r| - 1] == Reversed(bytes[1..]);
      assert r[|r| - 1] == bytes[0];
    }
  }

  /** `width` lowercase hex digits of `v` (taken modulo 16^width), most
      significant first: how a number is printed with "%0*x". */
  function HexNumber(v: nat, width: nat): (s: string)
    ensures |s| == width
  {
    if width == 0 then "" else HexNumber(v / 16, width - 1) + [HexDigits[v % 16]]
  }

  /** The nibbles set_hex extracts, as integers. */
  lemma Nibbles(b: bv8)
    ensures (b >> 4) as int == b as int / 16 && (b & 0x0f) as int == b as int % 16
  {
  }

  /** The hex digits of v * 256 + c: the two last ones are those of c
      and the others those of v. */
  lemma ShiftByte(v: nat, c: nat)
    requires c < 256
    ensures (v * 256 + c) / 16 / 16 == v
    ensures (v * 256 + c) / 16 % 16 == c / 16 && (v * 256 + c) % 16 == c % 16
  {
    assert (v * 256 + c) / 16 == v * 16 + c / 16;
  }

  /** The last two digits of a number printed `width + 2` wide. */
  lemma HexNumberLastTwo(x: nat, width: nat)
    ensures HexNumber(x, width + 2) == HexNumber(x / 16 / 16, width) + [HexDigits[x / 16 % 16], HexDigits[x % 16]]
  {
    assert HexNumber(x, width + 2) == HexNumber(x / 16, width + 1) + [HexDigits[x % 16]];
  }

  /** Appending a byte's value c to a number appends the two hex digits
      of c. */
  lemma HexNumberAppendByte(v: nat, c: nat, width: nat)
    requires c < 256
    ensures HexNumber(v * 256 + c, width + 2) == HexNumber(v, width) + [HexDigits[c / 16], HexDigits[c % 16]]
  {
    ShiftByte(v, c);
    HexNumberLastTwo(v * 256 + c, width);
  }

  /** The digits set_hex writes for a byte are the two hex digits of its
      value. */
  lemma HexPairDigits(b: bv8)
    ensures HexPair(b) == [HexDigits[b as int / 16], HexDigits[b as int % 16]]
  {
    Nibbles(b);
  }

  /** The set_hex digits of a run of bytes are the hex digits of its
      big-endian value. */
  lemma {:induction false} HexNumberBigEndian(bytes: seq<bv8>)
    ensures HexNumber(BigEndian(bytes), 2 * |bytes|) == HexBytes(bytes)
    decreases |bytes|
  {
    if bytes != [] {
      var init, last := bytes[..|bytes| - 1], bytes[|bytes| - 1];
      HexNumberBigEndian(init);
      HexNumberAppendByte(BigEndian(init), last as int, 2 * |init|);
      HexPairDigits(last);
      HexBytesSnoc(init, last);
      assert bytes == init + [last];
    }
  }

  /** The set_hex digits of bytes stored least significant first, taken
      in reverse, are the hex digits of their value. */
  lemma LittleEndianDigits(bytes: seq<bv8>)
    ensures HexNumber(LittleEndian(bytes), 2 * |bytes|) == HexBytes(Reversed(bytes))
  {
    LittleEndianReversed(bytes);
    HexNumberBigEndian(Reversed(bytes));
  }

  /** The reference definition: the GUID's five fields, the first three
      read little-endian and the last two big-endian, each printed as
      fixed-width lowercase hex and joined by hyphens. */
  lemma GuidStringFields(u: Guid)
    ensures GuidString(u) ==
              HexNumber(LittleEndian(u[0..4]), 8) + "-" +
              HexNumber(LittleEndian(u[4..6]), 4) + "-" +
              HexNumber(LittleEndian(u[6..8]), 4) + "-" +
              HexNumber(BigEndian(u[8..10]), 4) + "-" +
              HexNumber(BigEndian(u[10..16]), 12) + "\0"
  {
    var timeLow, timeMid, timeHigh := HexBytes([u[3], u[2], u[1], u[0]]), HexBytes([u[5], u[4]]), HexBytes([u[7], u[6]]);
    var clockSeq, node := HexBytes(u[8..10]), HexBytes(u[10..16]);
    assert HexNumber(LittleEndian(u[0..4]), 8) == timeLow by {
      assert Reversed(u[0..4]) == [u[3], u[2], u[1], u[0]];
      LittleEndianDigits(u[0..4]);
    }
    assert HexNumber(LittleEndian(u[4..6]), 4) == timeMid by {
      assert Reversed(u[4..6]) == [u[5], u[4]];
      LittleEndianDigits(u[4..6]);
    }
    assert HexNumber(LittleEndian(u[6..8]), 4) == timeHigh by {
      assert Reversed(u[6..8]) == [u[7], u[6]];
      LittleEndianDigits(u[6..8]);
    }
    HexNumberBigEndian(u[8..10]);
    HexNumberBigEndian(u[10..16]);
    assert GuidString(u) == timeLow + "-" + timeMid + "-" + timeHigh + "-" + clockSeq + "-" + node + "\0";
  }

  /** The fixed input/output pair: stored bytes 33 22 11 00 55 44 77 66
      88 99 aa bb cc dd ee ff render as 00112233-4455-6677-8899-aabbccddeeff. */
  lemma GuidStringExample(u: Guid)
    requires u == [0x33, 0x22, 0x11, 0x00, 0x55, 0x44, 0x77, 0x66,
                   0x88, 0x99, 0xaa, 0xbb, 0xcc, 0xdd, 0xee, 0xff]
    ensures GuidString(u) == "00112233" + "-" + "4455" + "-" + "6677" + "-" + "8899" + "-" + "aabbccddeeff" + "\0"
  {
    var text := "00112233" + "-" + "4455" + "-" + "6677" + "-" + "8899" + "-" + "aabbccddeeff" + "\0";
    ExampleInPlace(text, u);
    PairsInPlaceRenders(text, u);
    RendersGuidIffGuidString(text, u);
  }

  lemma ExampleInPlace(text: string, u: Guid)
    requires u == [0x33, 0x22, 0x11, 0x00, 0x55, 0x44, 0x77, 0x66,
                   0x88, 0x99, 0xaa, 0xbb, 0xcc, 0xdd, 0xee, 0xff]
    requires text == "00112233" + "-" + "4455" + "-" + "6677" + "-" + "8899" + "-" + "aabbccddeeff" + "\0"
    ensures PairsInPlace(text, u)
  {
    assert u[0] == 0x33 && u[1] == 0x22 && u[2] == 0x11 && u[3] == 0x00;
    assert u[4] == 0x55 && u[5] == 0x44 && u[6] == 0x77 && u[7] == 0x66;
    assert u[8] == 0x88 && u[9] == 0x99 && u[10] == 0xaa && u[11] == 0xbb;
    assert u[12] == 0xcc && u[13] == 0xdd && u[14] == 0xee && u[15] == 0xff;
    ExampleGroups(text);
    ExampleTimeLow(text);
    ExampleShortFields(text);
    ExampleNode(text);
  }

  lemma ExampleGroups(text: string)
    requires text == "00112233" + "-" + "4455" + "-" + "6677" + "-" + "8899" + "-" + "aabbccddeeff" + "\0"
    ensures |text| == 37 && text[0..8] == "00112233" && text[9..13] == "4455" && text[14..18] == "6677"
    ensures text[19..23] == "8899" && text[24..36] == "aabbccddeeff"
    ensures text[8] == '-' && text[13] == '-' && text[18] == '-' && text[23] == '-' && text[36] == '\0'
  {
  }

  lemma ExampleTimeLow(text: string)
    requires 8 <= |text| && text[0..8] == "00112233"
    ensures PairAt(text, 0, 0x00) && PairAt(text, 2, 0x11) && PairAt(text, 4, 0x22) && PairAt(text, 6, 0x33)
  {
    assert text[0] == '0' && text[1] == '0' && text[2] == '1' && text[3] == '1';
    assert text[4] == '2' && text[5] == '2' && text[6] == '3' && text[7] == '3';
  }

  lemma ExampleShortFields(text: string)
    requires 23 <= |text| && text[9..13] == "4455" && text[14..18] == "6677" && text[19..23] == "8899"
    ensures PairAt(text, 9, 0x44) && PairAt(text, 11, 0x55) && PairAt(text, 14, 0x66) && PairAt(text, 16, 0x77)
    ensures PairAt(text, 19, 0x88) && PairAt(text, 21, 0x99)
  {
    assert text[9] == '4' && text[10] == '4' && text[11] == '5' && text[12] == '5';
    assert text[14] == '6' && text[15] == '6' && text[16] == '7' && text[17] == '7';
    assert text[19] == '8' && text[20] == '8' && text[21] == '9' && text[22] == '9';
  }

  lemma ExampleNode(text: string)
    requires 36 <= |text| && text[24..36] == "aabbccddeeff"
    ensures PairAt(text, 24, 0xaa) && PairAt(text, 26, 0xbb) && PairAt(text, 28, 0xcc)
    ensures PairAt(text, 30, 0xdd) && PairAt(text, 32, 0xee) && PairAt(text, 34, 0xff)
  {
    assert text[24] == 'a' && text[25] == 'a' && text[26] == 'b' && text[27] == 'b';
    assert text[28] == 'c' && text[29] == 'c' && text[30] == 'd' && text[31] == 'd';
    assert text[32] == 'e' && text[33] == 'e' && text[34] == 'f' && text[35] == 'f';
  }

  predicate IsHexDigit(c: char)
  {
    '0' <= c <= '9' || 'a' <= c <= 'f'
  }

  /** set_hex's table holds lowercase hex digits only. */
  lemma HexDigitsAreHex(n: nat)
    requires n < 16
    ensures IsHexDigit(HexDigits[n])
  {
    if n < 8 {
      if n < 4 { assert n == 0 || n == 1 || n == 2 || n == 3; }
      else { assert n == 4 || n == 5 || n == 6 || n == 7; }
    } else {
      if n < 12 { assert n == 8 || n == 9 || n == 10 || n == 11; }
      else { assert n == 12 || n == 13 || n == 14 || n == 15; }
    }
  }

  /** The value of a lowercase hex digit: its index in set_hex's table. */
  function HexNibble(c: char): (v: bv8)
    requires IsHexDigit(c)
    ensures v < 16 && HexDigits[v as int] == c
  {
    if c == '0' then 0 else if c == '1' then 1 else if c == '2' then 2 else if c == '3' then 3
    else if c == '4' then 4 else if c == '5' then 5 else if c == '6' then 6 else if c == '7' then 7
    else if c == '8' then 8 else if c == '9' then 9 else if c == 'a' then 10 else if c == 'b' then 11
    else if c == 'c' then 12 else if c == 'd' then 13 else if c == 'e' then 14 else 15
  }

  /** Reading a digit of the table back gives its index. */
  lemma HexNibbleOfDigit(n: bv8)
    requires n < 16
    ensures HexNibble(HexDigits[n as int]) == n
  {
    if n < 8 {
      if n < 4 { assert n == 0 || n == 1 || n == 2 || n == 3; }
      else { assert n == 4 || n == 5 || n == 6 || n == 7; }
    } else {
      if n < 12 { assert n == 8 || n == 9 || n == 10 || n == 11; }
      else { assert n == 12 || n == 13 || n == 14 || n == 15; }
    }
  }

  /** A byte is its two nibbles put back together. */
  lemma NibblesJoin(h: bv8, l: bv8)
    requires h < 16 && l < 16
    ensures ((h << 4) | l) >> 4 == h && ((h << 4) | l) & 0x0f == l
  {
  }

  lemma NibblesSplit(b: bv8)
    ensures ((b >> 4) << 4) | (b & 0x0f) == b
  {
  }

  /** The byte whose set_hex digits are `hi`, `lo`. */
  function ParseHexPair(hi: char, lo: char): (b: bv8)
    requires IsHexDigit(hi) && IsHexDigit(lo)
    ensures HexPair(b) == [hi, lo]
  {
    var h, l := HexNibble(hi), HexNibble(lo);
    NibblesJoin(h, l);
    (h << 4) | l
  }

  /** set_hex's digits are hex digits and read back as the byte written. */
  lemma ParseHexPairOfHexPair(b: bv8)
    ensures IsHexDigit(HexPair(b)[0]) && IsHexDigit(HexPair(b)[1])
    ensures ParseHexPair(HexPair(b)[0], HexPair(b)[1]) == b
  {
    var h, l := b >> 4, b & 0x0f;
    HexDigitsAreHex(h as int);
    HexDigitsAreHex(l as int);
    HexNibbleOfDigit(h);
    HexNibbleOfDigit(l);
    NibblesSplit(b);
  }

  /** The shape of the formatter's output: 37 characters, hyphens at 8, 13,
      18 and 23, the NUL at 36 and lowercase hex digits everywhere else. */
  predicate IsGuidString(s: string)
  {
    |s| == 37 && s[8] == '-' && s[13] == '-' && s[18] == '-' && s[23] == '-' && s[36] == '\0' &&
    forall i :: 0 <= i < 36 && i != 8 && i != 13 && i != 18 && i != 23 ==> IsHexDigit(s[i])
  }

  /** Reads a GUID back from its text form, undoing the byte order. */
  function ParseGuidString(s: string): (r: Option<Guid>)
    ensures r.Some? <==> IsGuidString(s)
  {
    if !IsGuidString(s) then None
    else
      var u: Guid := seq(16, k requires 0 <= k < 16 => ParsedByte(s, k));
      Some(u)
  }

  /** Stored byte k, read from the two digits of the RenderedByte(k)-th
      rendered byte. */
  function ParsedByte(s: string, k: nat): bv8
    requires IsGuidString(s) && k < 16
  {
    var p := DigitPosition(RenderedByte(k));
    ParseHexPair(s[p], s[p + 1])
  }

  /** The j-th pair of a text of the right shape renders the byte read
      back for it. */
  lemma ParsedPair(s: string, j: nat)
    requires IsGuidString(s) && j < 16
    ensures PairAt(s, DigitPosition(j), ParseGuidString(s).value[RenderedByte(j)])
  {
    RenderedByteSelfInverse(j);
    var p := DigitPosition(j);
    assert ParseGuidString(s).value[RenderedByte(j)] == ParseHexPair(s[p], s[p + 1]);
  }

  /** Every text of the right shape is the formatter's output for the GUID
      read back from it. */
  lemma ParseGuidStringSound(s: string)
    requires IsGuidString(s)
    ensures GuidString(ParseGuidString(s).value) == s
  {
    var u := ParseGuidString(s).value;
    forall j | 0 <= j < 16
      ensures PairAt(s, DigitPosition(j), u[RenderedByte(j)])
    {
      ParsedPair(s, j);
    }
    RendersGuidIffGuidString(s, u);
  }

  /** A rendering has the text shape: lowercase hex digits wherever there
      is no hyphen or NUL. */
  lemma RenderingIsGuidString(s: string, u: Guid)
    requires RendersGuid(s, u)
    ensures IsGuidString(s)
  {
    forall i | 0 <= i < 36 && i != 8 && i != 13 && i != 18 && i != 23
      ensures IsHexDigit(s[i])
    {
      var j := DigitSlot(i);
      assert PairAt(s, DigitPosition(j), u[RenderedByte(j)]);
      ParseHexPairOfHexPair(u[RenderedByte(j)]);
    }
  }

  /** In particular the formatter's output has it. */
  lemma GuidStringIsGuidString(u: Guid)
    ensures IsGuidString(GuidString(u))
  {
    GuidStringLayout(u);
    RenderingIsGuidString(GuidString(u), u);
  }

  /** Each byte read back from a rendering of `u` is the byte of `u`. */
  lemma ParsedByteOfRendering(s: string, u: Guid, k: nat)
    requires k < 16 && RendersGuid(s, u) && IsGuidString(s)
    ensures ParsedByte(s, k) == u[k]
  {
    var j := RenderedByte(k);
    RenderedByteSelfInverse(k);
    assert PairAt(s, DigitPosition(j), u[k]);
    ParseHexPairOfHexPair(u[k]);
  }

  /** A rendering of `u` reads back as `u`. */
  lemma ParseRendering(s: string, u: Guid)
    requires RendersGuid(s, u)
    ensures ParseGuidString(s) == Some(u)
  {
    RenderingIsGuidString(s, u);
    var v := ParseGuidString(s).value;
    forall k | 0 <= k < 16
      ensures v[k] == u[k]
    {
      ParsedByteOfRendering(s, u, k);
    }
    assert v == u;
  }

  /** The formatter's output reads back as the GUID it was made from. */
  lemma ParseGuidStringRoundTrip(u: Guid)
    ensures ParseGuidString(GuidString(u)) == Some(u)
  {
    GuidStringLayout(u);
    ParseRendering(GuidString(u), u);
  }

  /** Different GUIDs give different text. */
  lemma GuidStringInjective(u: Guid, v: Guid)
    requires GuidString(u) == GuidString(v)
    ensures u == v
  {
    ParseGuidStringRoundTrip(u);
    ParseGuidStringRoundTrip(v);
  }
}
