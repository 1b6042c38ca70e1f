/**
 * The public UUID layer over the Base58 codec: UUID strings (with or
 * without hyphens) to 22-character Base58 strings and back, the byte-level
 * entry points, the "must" wrappers, and random version-4 generation.
 *
 * Go's two-result functions `(T, error)` are modelled as pairs whose second
 * component is `None` for a nil error.
 */
module B58Uuid {
  import opened Wrappers
  import opened Radix
  import Base58

  /** The errors of the public layer. `Codec` carries a codec error through unchanged. */
  datatype Error =
    | ErrInvalidUUID                 // the UUID string is malformed
    | ErrInvalidB58UUID              // the Base58 string cannot be decoded
    | ErrOverflow                    // the Base58 string denotes more than 128 bits
    | Codec(e: Base58.DecodeError)   // a codec error, as DecodeBytes returns it
    | RandomSource                   // the random source failed

  /** Sixteen zero bytes: Go's zero value of `[16]byte`. */
  function ZeroUUID(): (z: seq<byte>)
    ensures |z| == Base58.ByteLength && BytesToNat(z) == 0
  {
    ValueOfZeros(16, 256);
    Zeros(16)
  }

  // ---------------------------------------------------------------------
  // Hexadecimal digits (what `encoding/hex` and `%x` compute)

  predicate IsHexDigit(c: char)
  {
    ('0' <= c <= '9') || ('a' <= c <= 'f') || ('A' <= c <= 'F')
  }

  /** A lower-case hexadecimal digit, as `%x` writes them. */
  predicate IsLowerHexDigit(c: char)
  {
    ('0' <= c <= '9') || ('a' <= c <= 'f')
  }

  predicate IsLowerHex(s: string)
  {
    forall i | 0 <= i < |s| :: IsLowerHexDigit(s[i])
  }

  /** The value of a hexadecimal digit of either case. */
  function HexValue(c: char): (v: nat)
    requires IsHexDigit(c)
    ensures v < 16
  {
    if c <= '9' then c as int - '0' as int
    else if c <= 'F' then c as int - 'A' as int + 10
    else c as int - 'a' as int + 10
  }

  /** The lower-case digit for a value below 16. */
  function HexDigit(v: nat): (c: char)
    requires v < 16
    ensures IsLowerHexDigit(c) && IsHexDigit(c) && HexValue(c) == v
  {
    if v < 10 then ('0' as int + v) as char else ('a' as int + (v - 10)) as char
  }

  /** Lower-case digits are the digits HexDigit writes. */
  lemma HexDigitOfValue(c: char)
    requires IsLowerHexDigit(c)
    ensures IsHexDigit(c) && HexDigit(HexValue(c)) == c
  {
  }

  /** What `hex.DecodeString` accepts: an even number of hexadecimal digits. */
  predicate IsHexString(s: string)
  {
    |s| % 2 == 0 && forall i | 0 <= i < |s| :: IsHexDigit(s[i])
  }

  /** The byte written by the digit pair at 2i, 2i+1. */
  function PairByte(s: string, i: nat): byte
    requires 2 * i + 1 < |s| && IsHexDigit(s[2 * i]) && IsHexDigit(s[2 * i + 1])
  {
    HexValue(s[2 * i]) * 16 + HexValue(s[2 * i + 1])
  }

  /**
   * `hex.DecodeString`: every pair of digits becomes one byte, high digit
   * first; it fails on an odd length or on any non-hexadecimal character.
   */
  function HexDecode(s: string): (r: Option<seq<byte>>)
    ensures r.Some? <==> IsHexString(s)
    ensures r.Some? ==>
      |r.value| * 2 == |s| && forall i | 0 <= i < |r.value| :: r.value[i] == PairByte(s, i)
    decreases |s|
  {
    if |s| == 0 then Some([])
    else if |s| == 1 || !IsHexDigit(s[0]) || !IsHexDigit(s[1]) then None
    else
      match HexDecode(s[2..])
      case None => None
      case Some(rest) =>
        assert forall i | 0 <= i < |rest| :: PairByte(s[2..], i) == PairByte(s, i + 1);
        Some([PairByte(s, 0)] + rest)
  }

  /** Lower-case hexadecimal text of some bytes, two digits per byte (`%x`). */
  function HexEncode(b: seq<byte>): (s: string)
    ensures |s| == 2 * |b| && IsLowerHex(s)
  {
    if b == [] then [] else [HexDigit(b[0] / 16), HexDigit(b[0] % 16)] + HexEncode(b[1..])
  }

  /** Decoding the hexadecimal text of bytes gives the bytes back. */
  lemma {:induction false} HexRoundTrip(b: seq<byte>)
    ensures HexDecode(HexEncode(b)) == Some(b)
  {
    if b != [] {
      HexRoundTrip(b[1..]);
      var s := HexEncode(b);
      assert s[2..] == HexEncode(b[1..]);
      assert PairByte(s, 0) == b[0];
      assert b == [b[0]] + b[1..];
    }
  }

  /** Hexadecimal text in lower case is the text of the bytes it decodes to. */
  lemma {:induction false} HexEncodeOfDecode(s: string)
    requires IsHexString(s) && IsLowerHex(s)
    ensures HexEncode(HexDecode(s).value) == s
    decreases |s|
  {
    if s != [] {
      var b := HexDecode(s).value;
      assert IsHexString(s[2..]);
      HexEncodeOfDecode(s[2..]);
      assert b[1..] == HexDecode(s[2..]).value;
      HexDigitOfValue(s[0]);
      HexDigitOfValue(s[1]);
      var hi, lo := HexValue(s[0]), HexValue(s[1]);
      assert b[0] == hi * 16 + lo;
      assert b[0] / 16 == hi && b[0] % 16 == lo;
      assert HexEncode(b) == [HexDigit(hi), HexDigit(lo)] + HexEncode(b[1..]);
      assert s == [s[0], s[1]] + s[2..];
    }
  }

  /** Hexadecimal text of a concatenation. */
  lemma {:induction false} HexEncodeConcat(a: seq<byte>, b: seq<byte>)
    ensures HexEncode(a + b) == HexEncode(a) + HexEncode(b)
  {
    if a != [] {
      var head := [HexDigit(a[0] / 16), HexDigit(a[0] % 16)];
      assert (a + b)[0] == a[0];
      assert (a + b)[1..] == a[1..] + b;
      HexEncodeConcat(a[1..], b);
      calc {
        HexEncode(a + b);
        head + HexEncode(a[1..] + b);
        head + (HexEncode(a[1..]) + HexEncode(b));
        (head + HexEncode(a[1..])) + HexEncode(b);
        HexEncode(a) + HexEncode(b);
      }
    } else {
      assert a + b == b;
    }
  }

  // ---------------------------------------------------------------------
  // Hyphens

  /** `strings.ReplaceAll(s, "-", "")`: s with every hyphen removed. */
  function StripHyphens(s: string): (r: string)
    ensures '-' !in r && |r| <= |s|
  {
    if s == [] then []
    else (if s[0] == '-' then [] else [s[0]]) + StripHyphens(s[1..])
  }

  /** Removing hyphens keeps every other character, the same number of times. */
  lemma {:induction false} StripHyphensContents(s: string)
    ensures multiset(StripHyphens(s)) == multiset(s)['-' := 0]
  {
    if s != [] {
      StripHyphensContents(s[1..]);
      assert s == [s[0]] + s[1..];
    }
  }

  /** Every character other than a hyphen survives. */
  lemma StripHyphensKeeps(s: string, i: nat)
    requires i < |s| && s[i] != '-'
    ensures s[i] in StripHyphens(s)
  {
    StripHyphensContents(s);
    assert s[i] in multiset(s);
    assert multiset(StripHyphens(s))[s[i]] == multiset(s)[s[i]] > 0;
    assert s[i] in multiset(StripHyphens(s));
  }

  /** A string without hyphens is left as it is. */
  lemma {:induction false} StripHyphensNoHyphens(s: string)
    requires '-' !in s
    ensures StripHyphens(s) == s
  {
    if s != [] {
      StripHyphensNoHyphens(s[1..]);
    }
  }

  lemma StripHyphensIdempotent(s: string)
    ensures StripHyphens(StripHyphens(s)) == StripHyphens(s)
  {
    StripHyphensNoHyphens(StripHyphens(s));
  }

  /** Hyphen removal works piecewise. */
  lemma {:induction false} StripHyphensConcat(a: string, b: string)
    ensures StripHyphens(a + b) == StripHyphens(a) + StripHyphens(b)
  {
    if a != [] {
      var head := if a[0] == '-' then [] else [a[0]];
      assert (a + b)[0] == a[0];
      assert (a + b)[1..] == a[1..] + b;
      StripHyphensConcat(a[1..], b);
      calc {
        StripHyphens(a + b);
        head + StripHyphens(a[1..] + b);
        head + (StripHyphens(a[1..]) + StripHyphens(b));
        (head + StripHyphens(a[1..])) + StripHyphens(b);
        StripHyphens(a) + StripHyphens(b);
      }
    } else {
      assert a + b == b;
    }
  }

  // ---------------------------------------------------------------------
  // Parsing and formatting UUID strings

  /**
   * What `parseUUID` computes: remove every hyphen, then require exactly 32
   * hexadecimal digits of either case, read as 16 bytes. Any other input is
   * ErrInvalidUUID.
   */
  function ParsedUUID(s: string): (r: Result<seq<byte>, Error>)
    ensures r.Success? <==> |StripHyphens(s)| == 32 && IsHexString(StripHyphens(s))
    ensures r.Success? ==> |r.value| == Base58.ByteLength
    ensures r.Success? ==> forall i | 0 <= i < 16 :: r.value[i] == PairByte(StripHyphens(s), i)
    ensures r.Failure? ==> r.error == ErrInvalidUUID
  {
    var t := StripHyphens(s);
    if |t| != 32 then Failure(ErrInvalidUUID)
    else
      match HexDecode(t)
      case None => Failure(ErrInvalidUUID)
      case Some(b) =>
        // The source's "decoded length is not 16" failure cannot happen.
        assert |b| == Base58.ByteLength;
        Success(b)
  }

  /**
   * `parseUUID`: the string is stripped of hyphens, its length checked,
   * hex-decoded and copied into a fresh 16-byte array; on any failure the
   * array is left all zero and ErrInvalidUUID is returned.
   */
  method ParseUUID(uuidStr: string) returns (uuid: array<byte>, err: Option<Error>)
    ensures fresh(uuid) && uuid.Length == Base58.ByteLength
    ensures ParsedUUID(uuidStr).Success? ==> err == None && uuid[..] == ParsedUUID(uuidStr).value
    ensures ParsedUUID(uuidStr).Failure? ==> err == Some(ErrInvalidUUID) && uuid[..] == ZeroUUID()
  {
    uuid := new byte[Base58.ByteLength](_ => 0);
    var s := StripHyphens(uuidStr);
    if |s| != 32 {
      return uuid, Some(ErrInvalidUUID);
    }
    var bytes := HexDecode(s);
    if bytes.None? {
      return uuid, Some(ErrInvalidUUID);
    }
    // The source's "decoded length is not 16" failure cannot happen.
    assert |bytes.value| == Base58.ByteLength;
    forall i | 0 <= i < Base58.ByteLength {
      uuid[i] := bytes.value[i];
    }
    err := None;
  }

  /** Hyphens stand after the 8th, 12th, 16th and 20th hexadecimal digit. */
  predicate IsHyphenPosition(i: int)
  {
    i == 8 || i == 13 || i == 18 || i == 23
  }

  /** The canonical text form: 36 characters, lower-case digits, hyphens at 8, 13, 18, 23. */
  predicate IsCanonical(s: string)
  {
    |s| == 36 &&
    forall i | 0 <= i < 36 :: if IsHyphenPosition(i) then s[i] == '-' else IsLowerHexDigit(s[i])
  }

  /** `formatUUID`: the groups of 4, 2, 2, 2 and 6 bytes in lower-case hexadecimal, joined by hyphens. */
  function FormatUUID(u: seq<byte>): (s: string)
    requires |u| == Base58.ByteLength
    ensures IsCanonical(s)
  {
    var s := HexEncode(u[0..4]) + "-" + HexEncode(u[4..6]) + "-" + HexEncode(u[6..8]) + "-" +
      HexEncode(u[8..10]) + "-" + HexEncode(u[10..16]);
    assert forall i | 0 <= i < 8 :: s[i] == HexEncode(u[0..4])[i];
    assert forall i | 9 <= i < 13 :: s[i] == HexEncode(u[4..6])[i - 9];
    assert forall i | 14 <= i < 18 :: s[i] == HexEncode(u[6..8])[i - 14];
    assert forall i | 19 <= i < 23 :: s[i] == HexEncode(u[8..10])[i - 19];
    assert forall i | 24 <= i < 36 :: s[i] == HexEncode(u[10..16])[i - 24];
    s
  }

  /** Five groups joined by hyphens. */
  function Join(a: string, b: string, c: string, d: string, e: string): string
  {
    a + "-" + b + "-" + c + "-" + d + "-" + e
  }

  /** One hyphen and a hyphen-free group after it. */
  lemma StripHyphenJoin(x: string, y: string)
    requires '-' !in y
    ensures StripHyphens(x + "-" + y) == StripHyphens(x) + y
  {
    StripHyphensConcat(x + "-", y);
    StripHyphensConcat(x, "-");
    StripHyphensNoHyphens(y);
  }

  /** Removing the four hyphens between five hyphen-free groups concatenates them. */
  lemma StripJoin(a: string, b: string, c: string, d: string, e: string)
    requires '-' !in a && '-' !in b && '-' !in c && '-' !in d && '-' !in e
    ensures StripHyphens(Join(a, b, c, d, e)) == a + b + c + d + e
    ensures multiset(Join(a, b, c, d, e))['-'] == 4
  {
    StripHyphensNoHyphens(a);
    StripHyphenJoin(a, b);
    StripHyphenJoin(a + "-" + b, c);
    StripHyphenJoin(a + "-" + b + "-" + c, d);
    StripHyphenJoin(a + "-" + b + "-" + c + "-" + d, e);
    assert multiset(a)['-'] == 0 && multiset(b)['-'] == 0 && multiset(c)['-'] == 0;
    assert multiset(d)['-'] == 0 && multiset(e)['-'] == 0;
  }

  /** The hexadecimal text of 16 bytes, cut at the group boundaries. */
  lemma HexEncodeGroups(u: seq<byte>)
    requires |u| == Base58.ByteLength
    ensures HexEncode(u) ==
      HexEncode(u[0..4]) + HexEncode(u[4..6]) + HexEncode(u[6..8]) + HexEncode(u[8..10]) + HexEncode(u[10..16])
  {
    assert u == u[0..4] + u[4..6] + u[6..8] + u[8..10] + u[10..16];
    HexEncodeConcat(u[0..4] + u[4..6] + u[6..8] + u[8..10], u[10..16]);
    HexEncodeConcat(u[0..4] + u[4..6] + u[6..8], u[8..10]);
    HexEncodeConcat(u[0..4] + u[4..6], u[6..8]);
    HexEncodeConcat(u[0..4], u[4..6]);
  }

  /** The formatted string holds exactly four hyphens, and removing them leaves the 32 hex digits of u. */
  lemma FormatUUIDDigits(u: seq<byte>)
    requires |u| == Base58.ByteLength
    ensures StripHyphens(FormatUUID(u)) == HexEncode(u)
    ensures multiset(FormatUUID(u))['-'] == 4
  {
    var a, b, c, d, e := HexEncode(u[0..4]), HexEncode(u[4..6]), HexEncode(u[6..8]),
      HexEncode(u[8..10]), HexEncode(u[10..16]);
    assert FormatUUID(u) == Join(a, b, c, d, e);
    assert '-' !in a && '-' !in b && '-' !in c && '-' !in d && '-' !in e;
    StripJoin(a, b, c, d, e);
    HexEncodeGroups(u);
  }

  /** Parsing a formatted UUID gives the bytes back. */
  lemma ParseFormat(u: seq<byte>)
    requires |u| == Base58.ByteLength
    ensures ParsedUUID(FormatUUID(u)) == Success(u)
  {
    FormatUUIDDigits(u);
    HexRoundTrip(u);
  }

  /** A canonical string is its five digit groups joined by hyphens. */
  lemma CanonicalGroups(s: string)
    requires IsCanonical(s)
    ensures s == Join(s[0..8], s[9..13], s[14..18], s[19..23], s[24..36])
    ensures IsLowerHex(s[0..8]) && IsLowerHex(s[9..13]) && IsLowerHex(s[14..18])
    ensures IsLowerHex(s[19..23]) && IsLowerHex(s[24..36])
  {
    var j := Join(s[0..8], s[9..13], s[14..18], s[19..23], s[24..36]);
    forall i | 0 <= i < 36 ensures s[i] == j[i] {
      assert IsHyphenPosition(i) ==> s[i] == '-';
    }
    forall i | 0 <= i < 8 ensures IsLowerHexDigit(s[0..8][i]) {
      assert !IsHyphenPosition(i);
    }
    forall i | 0 <= i < 4 ensures IsLowerHexDigit(s[9..13][i]) && IsLowerHexDigit(s[14..18][i]) && IsLowerHexDigit(s[19..23][i]) {
      assert !IsHyphenPosition(9 + i) && !IsHyphenPosition(14 + i) && !IsHyphenPosition(19 + i);
    }
    forall i | 0 <= i < 12 ensures IsLowerHexDigit(s[24..36][i]) {
      assert !IsHyphenPosition(24 + i);
    }
  }

  /** A lower-case hex group has no hyphen, and concatenated groups are lower-case hex. */
  lemma LowerHexGroups(a: string, b: string, c: string, d: string, e: string)
    requires IsLowerHex(a) && IsLowerHex(b) && IsLowerHex(c) && IsLowerHex(d) && IsLowerHex(e)
    ensures '-' !in a && '-' !in b && '-' !in c && '-' !in d && '-' !in e
    ensures IsLowerHex(a + b + c + d + e)
  {
    LowerHexConcat(a, b);
    LowerHexConcat(a + b, c);
    LowerHexConcat(a + b + c, d);
    LowerHexConcat(a + b + c + d, e);
  }

  lemma LowerHexConcat(a: string, b: string)
    requires IsLowerHex(a) && IsLowerHex(b)
    ensures IsLowerHex(a + b)
  {
    forall i | 0 <= i < |a + b| ensures IsLowerHexDigit((a + b)[i]) {
      if i >= |a| {
        assert (a + b)[i] == b[i - |a|];
      }
    }
  }

  /** Removing the hyphens of a canonical string leaves its 32 lower-case digits, group after group. */
  lemma CanonicalDigits(s: string)
    requires IsCanonical(s)
    ensures StripHyphens(s) == s[0..8] + s[9..13] + s[14..18] + s[19..23] + s[24..36]
    ensures IsHexString(StripHyphens(s)) && |StripHyphens(s)| == 32 && IsLowerHex(StripHyphens(s))
  {
    CanonicalGroups(s);
    var a, b, c, d, e := s[0..8], s[9..13], s[14..18], s[19..23], s[24..36];
    LowerHexGroups(a, b, c, d, e);
    StripJoin(a, b, c, d, e);
  }

  /** A canonical string is parsed, and formatting the result gives the same string. */
  lemma FormatParse(s: string)
    requires IsCanonical(s)
    ensures ParsedUUID(s).Success? && FormatUUID(ParsedUUID(s).value) == s
  {
    CanonicalDigits(s);
    var t := StripHyphens(s);
    HexEncodeOfDecode(t);
    var u := ParsedUUID(s).value;
    HexEncodeGroups(u);
    GroupsEqual(HexEncode(u[0..4]), HexEncode(u[4..6]), HexEncode(u[6..8]), HexEncode(u[8..10]), HexEncode(u[10..16]),
      s[0..8], s[9..13], s[14..18], s[19..23], s[24..36]);
    CanonicalGroups(s);
  }

  /** Equal concatenations of groups of equal lengths have equal groups. */
  lemma GroupsEqual(a: string, b: string, c: string, d: string, e: string,
                    a': string, b': string, c': string, d': string, e': string)
    requires |a| == |a'| && |b| == |b'| && |c| == |c'| && |d| == |d'| && |e| == |e'|
    requires a + b + c + d + e == a' + b' + c' + d' + e'
    ensures a == a' && b == b' && c == c' && d == d' && e == e'
  {
    var x, y := a + b + c + d + e, a' + b' + c' + d' + e';
    assert a == x[..|a|] && a' == y[..|a|];
    assert b == x[|a|..|a| + |b|] && b' == y[|a|..|a| + |b|];
    assert c == x[|a| + |b|..|a| + |b| + |c|] && c' == y[|a| + |b|..|a| + |b| + |c|];
    assert d == x[|a| + |b| + |c|..|a| + |b| + |c| + |d|] && d' == y[|a| + |b| + |c|..|a| + |b| + |c| + |d|];
    assert e == x[|a| + |b| + |c| + |d|..] && e' == y[|a| + |b| + |c| + |d|..];
  }

  // ---------------------------------------------------------------------
  // The public entry points

  /**
   * `Encode`: parse the UUID string, then encode its 16 bytes; a string that
   * does not parse gives "" and ErrInvalidUUID.
   */
  function Encode(uuidStr: string): (r: (string, Option<Error>))
    ensures r.1 == None <==> ParsedUUID(uuidStr).Success?
    ensures r.1 != None ==> r.0 == "" && r.1 == Some(ErrInvalidUUID)
    ensures r.1 == None ==>
      |r.0| == Base58.EncodedLength && Base58.Decoded(r.0) == Success(ParsedUUID(uuidStr).value)
  {
    match ParsedUUID(uuidStr)
    case Failure(e) => ("", Some(e))
    case Success(u) =>
      Base58.RoundTrip(u);
      (Base58.Encoded(u), None)
  }

  /** `EncodeBytes`: the codec's encoding of 16 bytes, which decodes back to them. */
  function EncodeBytes(u: seq<byte>): (r: string)
    requires |u| == Base58.ByteLength
    ensures |r| == Base58.EncodedLength && Base58.IsBase58(r)
    ensures Base58.Decoded(r) == Success(u)
  {
    Base58.RoundTrip(u);
    Base58.Encoded(u)
  }

  /**
   * `Decode`: the empty string is ErrInvalidB58UUID before the codec is
   * consulted; a codec overflow becomes ErrOverflow and every other codec
   * failure ErrInvalidB58UUID; a success is formatted as a canonical UUID.
   */
  function Decode(b58: string): (r: (string, Option<Error>))
    ensures b58 == "" ==> r == ("", Some(ErrInvalidB58UUID))
    ensures r.1 == None <==> Base58.Decoded(b58).Success?
    ensures r.1 == Some(ErrOverflow) <==> Base58.Decoded(b58) == Failure(Base58.Overflow)
    ensures r.1 != None ==> r.0 == "" && (r.1 == Some(ErrOverflow) || r.1 == Some(ErrInvalidB58UUID))
    ensures r.1 == None ==> IsCanonical(r.0) && ParsedUUID(r.0) == Success(Base58.Decoded(b58).value)
  {
    if b58 == "" then ("", Some(ErrInvalidB58UUID))
    else
      match Base58.Decoded(b58)
      case Failure(Overflow) => ("", Some(ErrOverflow))
      case Failure(_) => ("", Some(ErrInvalidB58UUID))
      case Success(u) =>
        Base58.DecodedSucceeds(b58);
        ParseFormat(u);
        (FormatUUID(u), None)
  }

  /**
   * `DecodeBytes`: the empty string is ErrInvalidB58UUID; otherwise the
   * codec's result, its error passed through unchanged. A failure comes
   * with sixteen zero bytes.
   */
  function DecodeBytes(b58: string): (r: (seq<byte>, Option<Error>))
    ensures |r.0| == Base58.ByteLength
    ensures b58 == "" ==> r == (ZeroUUID(), Some(ErrInvalidB58UUID))
    ensures b58 != "" && Base58.Decoded(b58).Failure? ==>
      r == (ZeroUUID(), Some(Codec(Base58.Decoded(b58).error)))
    ensures r.1 == None <==> Base58.Decoded(b58).Success?
    ensures r.1 == None ==> r.0 == Base58.Decoded(b58).value
  {
    if b58 == "" then (ZeroUUID(), Some(ErrInvalidB58UUID))
    else
      match Base58.Decoded(b58)
      case Failure(e) => (ZeroUUID(), Some(Codec(e)))
      case Success(u) =>
        Base58.DecodedSucceeds(b58);
        (u, None)
  }

  /** `MustEncode`: Encode for a caller that guarantees the UUID string parses (the source panics otherwise). */
  function MustEncode(uuidStr: string): (r: string)
    requires ParsedUUID(uuidStr).Success?
    ensures Encode(uuidStr) == (r, None)
    ensures |r| == Base58.EncodedLength
  {
    Encode(uuidStr).0
  }

  /** `MustDecode`: Decode for a caller that guarantees the string decodes (the source panics otherwise). */
  function MustDecode(b58: string): (r: string)
    requires Base58.Decoded(b58).Success?
    ensures Decode(b58) == (r, None)
    ensures IsCanonical(r)
  {
    Decode(b58).0
  }

  // ---------------------------------------------------------------------
  // What the entry points promise together

  /** The bytes round trip through the public byte-level API. */
  lemma BytesRoundTrip(u: seq<byte>)
    requires |u| == Base58.ByteLength
    ensures DecodeBytes(EncodeBytes(u)) == (u, None)
  {
  }

  /** The empty string is rejected by both decoders with ErrInvalidB58UUID, never with a codec error. */
  lemma EmptyRejected()
    ensures Decode("") == ("", Some(ErrInvalidB58UUID))
    ensures DecodeBytes("") == (ZeroUUID(), Some(ErrInvalidB58UUID))
  {
  }

  /** Hyphens are ignored wherever they stand: the hyphenated and the bare form encode alike. */
  lemma EncodeIgnoresHyphens(s: string)
    ensures Encode(s) == Encode(StripHyphens(s))
  {
    StripHyphensIdempotent(s);
  }

  /** Any UUID string that parses decodes back to the canonical form of its bytes. */
  lemma EncodeDecode(s: string)
    requires ParsedUUID(s).Success?
    ensures Decode(Encode(s).0) == (FormatUUID(ParsedUUID(s).value), None)
  {
  }

  /** A canonical UUID string survives encoding and decoding unchanged. */
  lemma CanonicalRoundTrip(s: string)
    requires IsCanonical(s)
    ensures Encode(s).1 == None && Decode(Encode(s).0) == (s, None)
  {
    FormatParse(s);
    EncodeDecode(s);
  }

  /** A 22-character string that decodes is the encoding of what it decodes to. */
  lemma DecodeEncode(b58: string)
    requires |b58| == Base58.EncodedLength && Decode(b58).1 == None
    ensures Encode(Decode(b58).0) == (b58, None)
  {
    Base58.DecodedEncodedCanonical(b58);
    var u := Base58.Decoded(b58).value;
    Base58.DecodedSucceeds(b58);
    ParseFormat(u);
  }

  // ---------------------------------------------------------------------
  // Version-4 generation

  /** The UUID version: the high nibble of byte 6. */
  function Version(u: seq<byte>): nat
    requires |u| == Base58.ByteLength
  {
    u[6] / 16
  }

  /** The UUID variant: the top two bits of byte 8. */
  function Variant(u: seq<byte>): nat
    requires |u| == Base58.ByteLength
  {
    u[8] / 64
  }

  /** Go's `a & b` on non-negative integers, bit by bit from the lowest. */
  function BitAnd(a: nat, b: nat): (r: nat)
    ensures r <= a && r <= b
  {
    if a == 0 || b == 0 then 0
    else 2 * BitAnd(a / 2, b / 2) + (if a % 2 == 1 && b % 2 == 1 then 1 else 0)
  }

  /** Go's `a | b` on non-negative integers, bit by bit from the lowest. */
  function BitOr(a: nat, b: nat): (r: nat)
    ensures a <= r && b <= r && r <= a + b
  {
    if a == 0 then b
    else if b == 0 then a
    else 2 * BitOr(a / 2, b / 2) + (if a % 2 == 1 || b % 2 == 1 then 1 else 0)
  }

  /** Masking with 2^k - 1 keeps the k lowest bits, for the masks up to six bits. */
  lemma {:induction false} LowMask(a: nat)
    ensures BitAnd(a, 0x01) == a % 0x02 && BitAnd(a, 0x03) == a % 0x04
    ensures BitAnd(a, 0x07) == a % 0x08 && BitAnd(a, 0x0F) == a % 0x10
    ensures BitAnd(a, 0x1F) == a % 0x20 && BitAnd(a, 0x3F) == a % 0x40
  {
    if a > 0 {
      var h := a / 2;
      LowMask(h);
      HalfMod(a, 0x02);
      HalfMod(a, 0x04);
      HalfMod(a, 0x08);
      HalfMod(a, 0x10);
      HalfMod(a, 0x20);
      assert BitAnd(a, 0x01) == 2 * BitAnd(h, 0x00) + a % 2;
      assert BitAnd(a, 0x03) == 2 * BitAnd(h, 0x01) + a % 2;
      assert BitAnd(a, 0x07) == 2 * BitAnd(h, 0x03) + a % 2;
      assert BitAnd(a, 0x0F) == 2 * BitAnd(h, 0x07) + a % 2;
      assert BitAnd(a, 0x1F) == 2 * BitAnd(h, 0x0F) + a % 2;
      assert BitAnd(a, 0x3F) == 2 * BitAnd(h, 0x1F) + a % 2;
    }
  }

  /** Splitting off the lowest bit: a mod 2m is twice (a/2 mod m) plus that bit. */
  lemma HalfMod(a: nat, m: nat)
    requires m == 0x02 || m == 0x04 || m == 0x08 || m == 0x10 || m == 0x20
    ensures a % (2 * m) == 2 * ((a / 2) % m) + a % 2
  {
    var t, s := (a / 2) / m, (a / 2) % m;
    assert a == (2 * m) * t + (2 * s + a % 2);
    ModOfMulAdd(t, 2 * m, 2 * s + a % 2);
  }

  lemma ModOfMulAdd(q: nat, m: nat, d: nat)
    requires (m == 0x04 || m == 0x08 || m == 0x10 || m == 0x20 || m == 0x40) && d < m
    ensures (m * q + d) % m == d
  {
  }

  /** Or-ing in bits above the k lowest adds them. */
  lemma {:induction false} BitOrHigh(a: nat, c: nat, k: nat)
    requires a < Pow(2, k)
    ensures BitOr(a, c * Pow(2, k)) == a + c * Pow(2, k)
  {
    if k > 0 && a > 0 && c > 0 {
      var p := Pow(2, k - 1);
      assert c * Pow(2, k) == 2 * (c * p);
      BitOrHigh(a / 2, c, k - 1);
    }
  }

  /** `(b & 0x0f) | 0x40`: high nibble 4, low nibble kept. */
  function WithVersion4(b: byte): (r: byte)
    ensures r / 16 == 4 && r % 16 == b % 16
  {
    LowMask(b);
    BitOrHigh(b % 16, 4, 4);
    BitOr(BitAnd(b, 0x0F), 0x40)
  }

  /** `(b & 0x3f) | 0x80`: top bits 10, low six bits kept. */
  function WithRfcVariant(b: byte): (r: byte)
    ensures r / 64 == 2 && r % 64 == b % 64
  {
    LowMask(b);
    BitOrHigh(b % 64, 2, 6);
    BitOr(BitAnd(b, 0x3F), 0x80)
  }

  /**
   * Sixteen random bytes made a version-4, RFC 4122 variant UUID: the
   * version and variant bits are set and nothing else changes.
   */
  function Version4Bytes(random: seq<byte>): (u: seq<byte>)
    requires |random| == Base58.ByteLength
    ensures |u| == Base58.ByteLength && Version(u) == 4 && Variant(u) == 2
    ensures u[6] % 16 == random[6] % 16 && u[8] % 64 == random[8] % 64
    ensures forall i | 0 <= i < Base58.ByteLength && i != 6 && i != 8 :: u[i] == random[i]
  {
    random[6 := WithVersion4(random[6])][8 := WithRfcVariant(random[8])]
  }

  /** The two in-place assignments of `generateUUIDv4`. */
  method SetVersionAndVariant(uuid: array<byte>)
    requires uuid.Length == Base58.ByteLength
    modifies uuid
    ensures uuid[..] == Version4Bytes(old(uuid[..]))
  {
    uuid[6] := WithVersion4(uuid[6]);
    uuid[8] := WithRfcVariant(uuid[8]);
  }

  /**
   * `generateUUIDv4`, with the output of the random source as a parameter
   * (None when it fails): the random bytes are read into a fresh array and
   * the version and variant bits set in place.
   */
  method GenerateUUIDv4(random: Option<seq<byte>>) returns (uuid: array<byte>, err: Option<Error>)
    requires random.Some? ==> |random.value| == Base58.ByteLength
    ensures fresh(uuid) && uuid.Length == Base58.ByteLength
    ensures random.None? ==> err == Some(RandomSource)
    ensures random.Some? ==> err == None && uuid[..] == Version4Bytes(random.value)
  {
    uuid := new byte[Base58.ByteLength](_ => 0);
    if random.None? {
      return uuid, Some(RandomSource);
    }
    forall i | 0 <= i < Base58.ByteLength {
      uuid[i] := random.value[i];
    }
    SetVersionAndVariant(uuid);
    err := None;
  }

  /** `New`: a fresh version-4 UUID, encoded; "" and the error if the random source fails. */
  method New(random: Option<seq<byte>>) returns (b58: string, err: Option<Error>)
    requires random.Some? ==> |random.value| == Base58.ByteLength
    ensures random.None? ==> b58 == "" && err == Some(RandomSource)
    ensures random.Some? ==> err == None && b58 == EncodeBytes(Version4Bytes(random.value))
  {
    var uuid, e := GenerateUUIDv4(random);
    if e != None {
      return "", e;
    }
    b58 := Base58.Encode(uuid[..]);
    err := None;
  }

  /** What `New` hands out decodes to a version-4 UUID of the RFC 4122 variant. */
  lemma NewIsVersion4(random: seq<byte>)
    requires |random| == Base58.ByteLength
    ensures DecodeBytes(EncodeBytes(Version4Bytes(random))).1 == None
    ensures Version(DecodeBytes(EncodeBytes(Version4Bytes(random))).0) == 4
    ensures Variant(DecodeBytes(EncodeBytes(Version4Bytes(random))).0) == 2
  {
    BytesRoundTrip(Version4Bytes(random));
  }

  // ---------------------------------------------------------------------
  // Known UUID strings

  /** The UUID 550e8400-e29b-41d4-a716-446655440000, as its bytes: encoding, decoding and both byte-level calls. */
  lemma ExampleRfc()
    ensures EncodeBytes([0x55, 0x0e, 0x84, 0x00, 0xe2, 0x9b, 0x41, 0xd4, 0xa7, 0x16, 0x44, 0x66, 0x55, 0x44, 0x00, 0x00]) == "BWBeN28Vb7cMEx7Ym8AUzs"
    ensures Encode(FormatUUID([0x55, 0x0e, 0x84, 0x00, 0xe2, 0x9b, 0x41, 0xd4, 0xa7, 0x16, 0x44, 0x66, 0x55, 0x44, 0x00, 0x00])) == ("BWBeN28Vb7cMEx7Ym8AUzs", None)
    ensures Decode("BWBeN28Vb7cMEx7Ym8AUzs") == (FormatUUID([0x55, 0x0e, 0x84, 0x00, 0xe2, 0x9b, 0x41, 0xd4, 0xa7, 0x16, 0x44, 0x66, 0x55, 0x44, 0x00, 0x00]), None)
    ensures DecodeBytes("BWBeN28Vb7cMEx7Ym8AUzs") == ([0x55, 0x0e, 0x84, 0x00, 0xe2, 0x9b, 0x41, 0xd4, 0xa7, 0x16, 0x44, 0x66, 0x55, 0x44, 0x00, 0x00], None)
  {
    var u: seq<byte> := [0x55, 0x0e, 0x84, 0x00, 0xe2, 0x9b, 0x41, 0xd4, 0xa7, 0x16, 0x44, 0x66, 0x55, 0x44, 0x00, 0x00];
    Base58.VectorRfcExample();
    ParseFormat(u);
  }

  /** The UUID 00000000-0000-0000-0000-000000000000, as its bytes: encoding, decoding and both byte-level calls. */
  lemma ExampleNil()
    ensures EncodeBytes([0x00, 0x00, 0x00, 0x00, 0x00, 0x00, 0x00, 0x00, 0x00, 0x00, 0x00, 0x00, 0x00, 0x00, 0x00, 0x00]) == "1111111111111111111111"
    ensures Encode(FormatUUID([0x00, 0x00, 0x00, 0x00, 0x00, 0x00, 0x00, 0x00, 0x00, 0x00, 0x00, 0x00, 0x00, 0x00, 0x00, 0x00])) == ("1111111111111111111111", None)
    ensures Decode("1111111111111111111111") == (FormatUUID([0x00, 0x00, 0x00, 0x00, 0x00, 0x00, 0x00, 0x00, 0x00, 0x00, 0x00, 0x00, 0x00, 0x00, 0x00, 0x00]), None)
    ensures DecodeBytes("1111111111111111111111") == ([0x00, 0x00, 0x00, 0x00, 0x00, 0x00, 0x00, 0x00, 0x00, 0x00, 0x00, 0x00, 0x00, 0x00, 0x00, 0x00], None)
  {
    var u: seq<byte> := [0x00, 0x00, 0x00, 0x00, 0x00, 0x00, 0x00, 0x00, 0x00, 0x00, 0x00, 0x00, 0x00, 0x00, 0x00, 0x00];
    Base58.VectorZero();
    ParseFormat(u);
  }

  /** The UUID ffffffff-ffff-ffff-ffff-ffffffffffff, as its bytes: encoding, decoding and both byte-level calls. */
  lemma ExampleMax()
    ensures EncodeBytes([0xff, 0xff, 0xff, 0xff, 0xff, 0xff, 0xff, 0xff, 0xff, 0xff, 0xff, 0xff, 0xff, 0xff, 0xff, 0xff]) == "YcVfxkQb6JRzqk5kF2tNLv"
    ensures Encode(FormatUUID([0xff, 0xff, 0xff, 0xff, 0xff, 0xff, 0xff, 0xff, 0xff, 0xff, 0xff, 0xff, 0xff, 0xff, 0xff, 0xff])) == ("YcVfxkQb6JRzqk5kF2tNLv", None)
    ensures Decode("YcVfxkQb6JRzqk5kF2tNLv") == (FormatUUID([0xff, 0xff, 0xff, 0xff, 0xff, 0xff, 0xff, 0xff, 0xff, 0xff, 0xff, 0xff, 0xff, 0xff, 0xff, 0xff]), None)
    ensures DecodeBytes("YcVfxkQb6JRzqk5kF2tNLv") == ([0xff, 0xff, 0xff, 0xff, 0xff, 0xff, 0xff, 0xff, 0xff, 0xff, 0xff, 0xff, 0xff, 0xff, 0xff, 0xff], None)
  {
    var u: seq<byte> := [0xff, 0xff, 0xff, 0xff, 0xff, 0xff, 0xff, 0xff, 0xff, 0xff, 0xff, 0xff, 0xff, 0xff, 0xff, 0xff];
    Base58.VectorMax();
    ParseFormat(u);
  }

  /** The UUID deadbeef-cafe-babe-0123-456789abcdef, as its bytes: encoding, decoding and both byte-level calls. */
  lemma ExampleDeadBeef()
    ensures EncodeBytes([0xde, 0xad, 0xbe, 0xef, 0xca, 0xfe, 0xba, 0xbe, 0x01, 0x23, 0x45, 0x67, 0x89, 0xab, 0xcd, 0xef]) == "UVqy39vS4tbfPzthw5VEKg"
    ensures Encode(FormatUUID([0xde, 0xad, 0xbe, 0xef, 0xca, 0xfe, 0xba, 0xbe, 0x01, 0x23, 0x45, 0x67, 0x89, 0xab, 0xcd, 0xef])) == ("UVqy39vS4tbfPzthw5VEKg", None)
    ensures Decode("UVqy39vS4tbfPzthw5VEKg") == (FormatUUID([0xde, 0xad, 0xbe, 0xef, 0xca, 0xfe, 0xba, 0xbe, 0x01, 0x23, 0x45, 0x67, 0x89, 0xab, 0xcd, 0xef]), None)
    ensures DecodeBytes("UVqy39vS4tbfPzthw5VEKg") == ([0xde, 0xad, 0xbe, 0xef, 0xca, 0xfe, 0xba, 0xbe, 0x01, 0x23, 0x45, 0x67, 0x89, 0xab, 0xcd, 0xef], None)
  {
    var u: seq<byte> := [0xde, 0xad, 0xbe, 0xef, 0xca, 0xfe, 0xba, 0xbe, 0x01, 0x23, 0x45, 0x67, 0x89, 0xab, 0xcd, 0xef];
    Base58.VectorDeadBeef();
    ParseFormat(u);
  }

  /** A UUID string cut short after the fourth group is rejected. */
  lemma ExampleTooShort()
    ensures Encode("550e8400-e29b-41d4-a716") == ("", Some(ErrInvalidUUID))
  {
  }

  /** A UUID string ending in the non-hexadecimal 'g' is rejected. */
  lemma ExampleNotHex(bad: string)
    requires bad == "550e8400-e29b-41d4-a716-44665544000g"
    ensures Encode(bad) == ("", Some(ErrInvalidUUID))
  {
    StripHyphensKeeps(bad, 35);
    var t := StripHyphens(bad);
    var j :| 0 <= j < |t| && t[j] == 'g';
    assert !IsHexDigit(t[j]);
  }

  /** The empty string is neither a UUID string nor a Base58 string. */
  lemma ExampleEmpty()
    ensures Encode("") == ("", Some(ErrInvalidUUID)) && Decode("") == ("", Some(ErrInvalidB58UUID))
  {
  }

  /** A string of the look-alike digit '0' is not Base58. */
  lemma ExampleZeros(zeros: string)
    requires zeros == "0000000000000000"
    ensures Decode(zeros) == ("", Some(ErrInvalidB58UUID))
  {
    assert zeros[..0] == [];
    Base58.DecodedInvalidChar(zeros, '0');
  }

  /** A string of the look-alike letter 'O' is not Base58. */
  lemma ExampleOhs(ohs: string)
    requires ohs == "OOOOOOOOOOOOOOOO"
    ensures Decode(ohs) == ("", Some(ErrInvalidB58UUID))
  {
    assert ohs[..0] == [];
    Base58.DecodedInvalidChar(ohs, 'O');
  }
}
