/**
 * The encoding choice of read_srt_file: a UTF-8 byte order mark selects
 * "utf-8-sig", otherwise bytes that are well-formed UTF-8 select "utf-8", and
 * anything else falls back to "cp1251". Only the choice and whether the chosen
 * decoder accepts the bytes are modelled, not the decoded characters.
 */
module Encodings {

  newtype byte = x: int | 0 <= x < 256

  /** The UTF-8 byte order mark EF BB BF. */
  const Bom: seq<byte> := [0xEF, 0xBB, 0xBF]

  /** raw.startswith(b"\xef\xbb\xbf"). */
  predicate HasBom(raw: seq<byte>)
  {
    |raw| >= 3 && raw[..3] == Bom
  }

  // ---------------------------------------------------------------- well-formed UTF-8

  /** A continuation byte within the range lo..hi (80..BF in general). */
  predicate InRange(raw: seq<byte>, p: nat, lo: byte, hi: byte)
  {
    p < |raw| && lo <= raw[p] <= hi
  }

  /**
   * The length of the well-formed UTF-8 sequence that starts at p, or 0 when
   * none does (table 3-7 of the Unicode Standard, chapter 3: no overlong forms,
   * no surrogates, nothing above U+10FFFF).
   */
  function CharLen(raw: seq<byte>, p: nat): (n: nat)
    requires p < |raw|
    ensures n <= 4 && p + n <= |raw|
  {
    var b := raw[p];
    if b <= 0x7F then 1
    else if 0xC2 <= b <= 0xDF then
      (if InRange(raw, p + 1, 0x80, 0xBF) then 2 else 0)
    else if b == 0xE0 then
      (if InRange(raw, p + 1, 0xA0, 0xBF) && InRange(raw, p + 2, 0x80, 0xBF) then 3 else 0)
    else if 0xE1 <= b <= 0xEC || b == 0xEE || b == 0xEF then
      (if InRange(raw, p + 1, 0x80, 0xBF) && InRange(raw, p + 2, 0x80, 0xBF) then 3 else 0)
    else if b == 0xED then
      (if InRange(raw, p + 1, 0x80, 0x9F) && InRange(raw, p + 2, 0x80, 0xBF) then 3 else 0)
    else if b == 0xF0 then
      (if InRange(raw, p + 1, 0x90, 0xBF) && InRange(raw, p + 2, 0x80, 0xBF)
          && InRange(raw, p + 3, 0x80, 0xBF) then 4 else 0)
    else if 0xF1 <= b <= 0xF3 then
      (if InRange(raw, p + 1, 0x80, 0xBF) && InRange(raw, p + 2, 0x80, 0xBF)
          && InRange(raw, p + 3, 0x80, 0xBF) then 4 else 0)
    else if b == 0xF4 then
      (if InRange(raw, p + 1, 0x80, 0x8F) && InRange(raw, p + 2, 0x80, 0xBF)
          && InRange(raw, p + 3, 0x80, 0xBF) then 4 else 0)
    else 0
  }

  /** raw[p..] is a sequence of well-formed UTF-8 characters. */
  predicate ValidFrom(raw: seq<byte>, p: nat)
    requires p <= |raw|
    decreases |raw| - p
  {
    p == |raw| || (CharLen(raw, p) > 0 && ValidFrom(raw, p + CharLen(raw, p)))
  }

  /** raw.decode("utf-8") succeeds. */
  predicate IsValidUtf8(raw: seq<byte>)
  {
    ValidFrom(raw, 0)
  }

  /** cp1251 maps every byte to a character except 0x98, which it leaves undefined. */
  predicate IsValidCp1251(raw: seq<byte>)
  {
    0x98 !in raw
  }

  // ---------------------------------------------------------------- read_srt_file

  datatype Codec = Utf8Sig | Utf8 | Cp1251

  /** The codec name read_srt_file returns beside the text. */
  function CodecName(c: Codec): (name: string)
    ensures |name| >= 5
  {
    match c
    case Utf8Sig => "utf-8-sig"
    case Utf8 => "utf-8"
    case Cp1251 => "cp1251"
  }

  /** The decoder that was tried, and whether it raised UnicodeDecodeError. */
  datatype ReadResult = Decoded(codec: Codec) | DecodeFailed(codec: Codec)

  /**
   * read_srt_file without the file: the BOM test comes first, then a strict
   * UTF-8 decode, whose failure alone sends the bytes to cp1251. The utf-8-sig
   * and cp1251 decodes are outside the try, so their failures propagate.
   */
  function ReadSrtEncoding(raw: seq<byte>): (r: ReadResult)
    ensures r.codec == Utf8Sig <==> HasBom(raw)
    ensures r.codec == Utf8 <==> !HasBom(raw) && IsValidUtf8(raw)
    ensures r.codec == Cp1251 <==> !HasBom(raw) && !IsValidUtf8(raw)
    ensures r.DecodeFailed? <==>
      (HasBom(raw) && !IsValidUtf8(raw[3..])) || (!HasBom(raw) && !IsValidUtf8(raw) && !IsValidCp1251(raw))
  {
    if HasBom(raw) then
      (if IsValidUtf8(raw[3..]) then Decoded(Utf8Sig) else DecodeFailed(Utf8Sig))
    else if IsValidUtf8(raw) then Decoded(Utf8)
    else if IsValidCp1251(raw) then Decoded(Cp1251)
    else DecodeFailed(Cp1251)
  }

  // ---------------------------------------------------------------- properties

  /** Pure ASCII is well-formed UTF-8. */
  lemma {:induction false} AsciiIsUtf8(raw: seq<byte>, p: nat)
    requires p <= |raw|
    requires forall q :: p <= q < |raw| ==> raw[q] <= 0x7F
    ensures ValidFrom(raw, p)
    decreases |raw| - p
  {
    if p < |raw| {
      AsciiIsUtf8(raw, p + 1);
    }
  }

  /** ASCII without a BOM is read as "utf-8", and the read succeeds. */
  lemma AsciiReadsAsUtf8(raw: seq<byte>)
    requires forall q :: 0 <= q < |raw| ==> raw[q] <= 0x7F
    ensures ReadSrtEncoding(raw) == Decoded(Utf8)
  {
    AsciiIsUtf8(raw, 0);
    if |raw| >= 3 {
      assert raw[..3][0] == raw[0];
    }
  }

  /** Validity from a position depends only on the bytes from there on. */
  lemma {:induction false} ValidFromShift(pre: seq<byte>, rest: seq<byte>, p: nat)
    requires p <= |rest|
    ensures ValidFrom(pre + rest, |pre| + p) <==> ValidFrom(rest, p)
    decreases |rest| - p
  {
    if p < |rest| {
      CharLenShift(pre, rest, p);
      if CharLen(rest, p) > 0 {
        ValidFromShift(pre, rest, p + CharLen(rest, p));
      }
    }
  }

  /** The length of the character at a position depends only on the bytes from there on. */
  lemma CharLenShift(pre: seq<byte>, rest: seq<byte>, p: nat)
    requires p < |rest|
    ensures CharLen(pre + rest, |pre| + p) == CharLen(rest, p)
  {
    var s := pre + rest;
    assert forall q :: p <= q < |rest| ==> s[|pre| + q] == rest[q];
  }

  /**
   * The BOM is itself a well-formed UTF-8 character (U+FEFF), so bytes that start
   * with it and continue in valid UTF-8 would also pass the strict "utf-8" decode:
   * only the order of the tests makes them "utf-8-sig".
   */
  lemma BomIsUtf8(rest: seq<byte>)
    ensures IsValidUtf8(Bom + rest) <==> IsValidUtf8(rest)
    ensures HasBom(Bom + rest)
  {
    var s := Bom + rest;
    assert s[..3] == Bom;
    assert CharLen(s, 0) == 3;
    ValidFromShift(Bom, rest, 0);
  }

  /** With a BOM the codec is "utf-8-sig" whatever follows; the read fails only if the rest is not UTF-8. */
  lemma BomWins(rest: seq<byte>)
    ensures ReadSrtEncoding(Bom + rest).codec == Utf8Sig
    ensures ReadSrtEncoding(Bom + rest).Decoded? <==> IsValidUtf8(rest)
  {
    var s := Bom + rest;
    assert s[..3] == Bom && s[3..] == rest;
  }

  /** A continuation byte cannot start a character. */
  lemma ContinuationFirstInvalid(raw: seq<byte>)
    requires |raw| >= 1 && 0x80 <= raw[0] <= 0xBF
    ensures !IsValidUtf8(raw)
  {
  }

  /** "Привет" in cp1251 (CF F0 E8 E2 E5 F2) is not UTF-8, so it is read as cp1251. */
  lemma Cp1251Example()
    ensures ReadSrtEncoding([0xCF, 0xF0, 0xE8, 0xE2, 0xE5, 0xF2]) == Decoded(Cp1251)
  {
    var raw: seq<byte> := [0xCF, 0xF0, 0xE8, 0xE2, 0xE5, 0xF2];
    assert CharLen(raw, 0) == 0;
    assert raw[..3] != Bom by {
      assert raw[..3][0] == 0xCF;
    }
  }
}
