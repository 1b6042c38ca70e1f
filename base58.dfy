/**
 * The fixed-width Base58 codec for 128-bit values: 16 big-endian bytes to
 * exactly 22 characters of the Bitcoin alphabet, and back.
 *
 * `Encoded` and `Decoded` are reference definitions of what the codec
 * computes; the methods `Encode` and `Decode` follow the source's loops and
 * are proved to compute exactly them. The lemmas after the methods state
 * the codec's promises about the reference definitions.
 */
module Base58 {
  import opened Wrappers
  import opened Radix
  import opened Base58Alphabet

  /** Every encoding has exactly this many characters. */
  const EncodedLength: nat := 22

  /** A decoded value is always this many bytes. */
  const ByteLength: nat := 16

  /** The largest 128-bit value, 2^128 - 1: decoding fails above it. */
  const MaxUUID: nat := 0xffff_ffff_ffff_ffff_ffff_ffff_ffff_ffff

  /** Why decoding failed: the three distinct errors the source returns. */
  datatype DecodeError =
    | Empty                // the input string is empty
    | InvalidChar(c: char) // c is the first character outside the alphabet
    | Overflow             // the digits read so far already exceed MaxUUID

  /** Every character of s is accepted by decoding. */
  predicate IsBase58(s: string)
  {
    forall i | 0 <= i < |s| :: InAlphabet(s[i])
  }

  function DigitsOf(s: string): (ds: seq<nat>)
    requires IsBase58(s)
    ensures |ds| == |s| && IsDigits(ds, 58)
  {
    seq(|s|, i requires 0 <= i < |s| => DigitOf(s[i]))
  }

  /** The number a string of alphabet characters denotes, most significant digit first. */
  function ValueOf(s: string): nat
    requires IsBase58(s)
  {
    Value(DigitsOf(s), 58)
  }

  /** Base-58 digits written as alphabet characters; decoding reads the same digits back. */
  function Spell(ds: seq<nat>): (s: string)
    requires IsDigits(ds, 58)
    ensures |s| == |ds| && IsBase58(s) && DigitsOf(s) == ds
  {
    seq(|ds|, i requires 0 <= i < |ds| => CharOf(ds[i]))
  }

  function Reversed<T>(s: seq<T>): seq<T>
  {
    seq(|s|, i requires 0 <= i < |s| => s[|s| - 1 - i])
  }

  /**
   * Reference encoding: the 22 base-58 digits of the bytes' value, as
   * characters. Every encoding is exactly 22 alphabet characters and
   * denotes the big-endian value of the bytes.
   */
  function Encoded(data: seq<byte>): (s: string)
    requires |data| == ByteLength
    ensures |s| == EncodedLength && IsBase58(s)
    ensures ValueOf(s) == BytesToNat(data)
  {
    PowFacts();
    FixedValue(BytesToNat(data), 58, EncodedLength);
    Spell(Fixed(BytesToNat(data), 58, EncodedLength))
  }

  /** The length of the longest prefix of s that decoding accepts character by character. */
  function LongestDigitPrefix(s: string): (k: nat)
    ensures k <= |s| && IsBase58(s[..k])
    ensures k < |s| ==> !InAlphabet(s[k])
  {
    if s == [] || !InAlphabet(s[0]) then 0
    else
      var k := LongestDigitPrefix(s[1..]);
      assert s[..k + 1] == [s[0]] + s[1..][..k];
      k + 1
  }

  /**
   * Reference decoding. The value is checked against MaxUUID after every
   * digit and digit values never decrease along a prefix, so the input
   * overflows exactly when its longest acceptable prefix is already too
   * large; otherwise the first unacceptable character is reported; otherwise
   * the value is returned as 16 big-endian bytes.
   */
  function Decoded(s: string): (r: Result<seq<byte>, DecodeError>)
    ensures r == Failure(Empty) <==> s == []
    ensures r.Success? ==> |r.value| == ByteLength && IsBase58(s) && ValueOf(s) <= MaxUUID
    ensures r.Failure? && r.error.InvalidChar? ==> r.error.c in s && !InAlphabet(r.error.c)
  {
    if s == [] then Failure(Empty)
    else
      var k := LongestDigitPrefix(s);
      if ValueOf(s[..k]) > MaxUUID then Failure(Overflow)
      else if k < |s| then Failure(InvalidChar(s[k]))
      else
        assert s[..k] == s;
        Success(NatToBytes(ValueOf(s[..k]), ByteLength))
  }

  // ---------------------------------------------------------------------
  // The source's algorithms

  /**
   * Encode: repeated division by 58 collects the digits least significant
   * first, an in-place reversal puts them in order, and '1' is prepended
   * until the string has 22 characters.
   */
  method Encode(data: seq<byte>) returns (s: string)
    requires |data| == ByteLength
    ensures s == Encoded(data)
  {
    var num: nat := BytesToNat(data);
    ghost var n := num;

    // Characters least significant first; what is left in `num` spells
    // the leading characters still to come.
    var result: seq<char> := [];
    assert Reversed(result) == [];
    while num > 0
      invariant Spell(Minimal(num, 58)) + Reversed(result) == Spell(Minimal(n, 58))
      decreases num
    {
      var remainder := num % 58;
      AlphabetAt(remainder);
      SpellStep(num, result);
      result := result + [Alphabet[remainder]];
      num := num / 58;
    }

    // Reverse the characters in place: now they spell Minimal(n, 58).
    var buf := new char[|result|](i requires 0 <= i < |result| => result[i]);
    assert buf[..] == result;
    ReverseInPlace(buf);
    s := buf[..];

    // Pad with the zero digit '1' to the full width.
    ghost var w := Spell(Minimal(n, 58));
    EncodedFits(data);
    AlphabetAt(0);
    assert s == Ones(0) + w;
    while |s| < EncodedLength
      invariant |w| <= |s| <= EncodedLength && s == Ones(|s| - |w|) + w
      decreases EncodedLength - |s|
    {
      OnesCons(|s| - |w|, w);
      s := [Alphabet[0]] + s;
    }
    EncodedPadding(data);
  }

  /** One division step moves the last character of `num`'s spelling to the front of the collected ones. */
  lemma SpellStep(num: nat, result: string)
    requires num > 0
    ensures Spell(Minimal(num / 58, 58)) + Reversed(result + [CharOf(num % 58)]) ==
      Spell(Minimal(num, 58)) + Reversed(result)
  {
    var d := num % 58;
    SpellAppend(Minimal(num / 58, 58), [d]);
    ReversedAppend(result, CharOf(d));
    assert Spell([d]) == [CharOf(d)];
  }

  /** The minimal spelling of sixteen bytes never exceeds the width. */
  lemma EncodedFits(data: seq<byte>)
    requires |data| == ByteLength
    ensures |Minimal(BytesToNat(data), 58)| <= EncodedLength
  {
    PowFacts();
    MinimalLength(BytesToNat(data), 58, EncodedLength);
  }

  lemma OnesCons(j: nat, w: string)
    ensures ['1'] + (Ones(j) + w) == Ones(j + 1) + w
  {
    assert ['1'] + Ones(j) == Ones(j + 1);
  }

  /** The two-index swap loop of the source, reversing an array in place. */
  method ReverseInPlace(a: array<char>)
    modifies a
    ensures a[..] == Reversed(old(a[..]))
  {
    var i, j := 0, a.Length - 1;
    while i < j
      invariant 0 <= i <= j + 1 && i + j == a.Length - 1
      invariant forall k | 0 <= k < a.Length ::
        a[k] == if k < i || j < k then old(a[a.Length - 1 - k]) else old(a[k])
    {
      a[i], a[j] := a[j], a[i];
      i, j := i + 1, j - 1;
    }
  }

  /**
   * Decode: reject the empty string, then read left to right, rejecting a
   * character outside the alphabet and checking the accumulated value
   * against MaxUUID after every digit; finally the value's minimal
   * big-endian bytes are left-padded with zeros to 16.
   */
  method Decode(s: string) returns (r: Result<seq<byte>, DecodeError>)
    ensures r == Decoded(s)
  {
    if s == [] {
      return Failure(Empty);
    }
    var num: nat := 0;
    for i := 0 to |s|
      invariant IsBase58(s[..i]) && num == ValueOf(s[..i]) && num <= MaxUUID
    {
      var c := s[i];
      LookupAgrees(c);
      if c as int > 255 {
        FirstInvalidAt(s, i);
        return Failure(InvalidChar(c));
      }
      var ind := ReverseAlphabet[c as int];
      if ind == Invalid {
        FirstInvalidAt(s, i);
        return Failure(InvalidChar(c));
      }
      ValueOfStep(s, i);
      num := num * 58 + ind;
      if num > MaxUUID {
        OverflowAt(s, i + 1);
        return Failure(Overflow);
      }
    }
    assert s[..|s|] == s;
    AcceptedAll(s);

    var bytes: seq<byte> := Minimal(num, 256);
    PaddedBytes(num);
    if |bytes| < ByteLength {
      bytes := Zeros(ByteLength - |bytes|) + bytes;
    } else {
      assert Zeros(0) + bytes == bytes;
    }
    assert bytes == NatToBytes(num, ByteLength);
    // The source's defensive "more than 16 bytes" failure cannot happen.
    assert |bytes| <= ByteLength;

    var result := new byte[ByteLength];
    forall k | 0 <= k < ByteLength {
      result[k] := bytes[k];
    }
    assert result[..] == bytes;
    r := Success(result[..]);
  }

  // ---------------------------------------------------------------------
  // Arithmetic and prefix facts used by the methods

  /** The size facts behind the fixed width: 58^21 <= 2^128 - 1 < 58^22. */
  lemma PowFacts()
    ensures Pow(256, ByteLength) == MaxUUID + 1
    ensures Pow(58, EncodedLength - 1) <= MaxUUID < Pow(58, EncodedLength)
  {
    assert Pow(256, 4) == 4294967296;
    assert Pow(256, 8) == 18446744073709551616;
    assert Pow(256, 12) == 79228162514264337593543950336;
    assert Pow(256, 16) == 340282366920938463463374607431768211456;
    assert Pow(58, 4) == 11316496;
    assert Pow(58, 8) == 128063081718016;
    assert Pow(58, 12) == 1449225352009601191936;
    assert Pow(58, 16) == 16400152899115243850138976256;
    assert Pow(58, 20) == 185592264682226060569122324245118976;
    assert Pow(58, 21) == 10764351351569111513009094806216900608;
    assert Pow(58, 22) == 624332378391008467754527498760580235264;
  }

  lemma ReversedAppend<T>(s: seq<T>, x: T)
    ensures Reversed(s + [x]) == [x] + Reversed(s)
  {
    var a, b := Reversed(s + [x]), [x] + Reversed(s);
    forall i | 0 <= i < |a| ensures a[i] == b[i] {
      if i > 0 {
        assert a[i] == s[|s| - i];
      }
    }
  }

  /** Every prefix of an acceptable string reads the same digits as the string. */
  lemma PrefixDigits(s: string, j: nat, k: nat)
    requires j <= k <= |s| && IsBase58(s[..k])
    ensures IsBase58(s[..j]) && DigitsOf(s[..j]) == DigitsOf(s[..k])[..j]
  {
    assert s[..j] == s[..k][..j];
  }

  /** Reading one more digit multiplies by 58 and adds it. */
  lemma ValueOfStep(s: string, i: nat)
    requires i < |s| && IsBase58(s[..i]) && InAlphabet(s[i])
    ensures IsBase58(s[..i + 1])
    ensures ValueOf(s[..i + 1]) == ValueOf(s[..i]) * 58 + DigitOf(s[i])
  {
    assert s[..i + 1] == s[..i] + [s[i]];
    assert DigitsOf(s[..i + 1]) == DigitsOf(s[..i]) + [DigitOf(s[i])];
    ValueAppend(DigitsOf(s[..i]), DigitOf(s[i]), 58);
  }

  /** A longer acceptable prefix never has a smaller value. */
  lemma ValueOfMonotone(s: string, j: nat, k: nat)
    requires j <= k <= |s| && IsBase58(s[..k])
    ensures IsBase58(s[..j]) && ValueOf(s[..j]) <= ValueOf(s[..k])
  {
    PrefixDigits(s, j, k);
    ValuePrefixMonotone(DigitsOf(s[..k]), j, 58);
  }

  /** Any acceptable prefix is no longer than the longest one. */
  lemma {:induction false} WithinLongestPrefix(s: string, j: nat)
    requires j <= |s| && IsBase58(s[..j])
    ensures j <= LongestDigitPrefix(s)
    decreases j
  {
    if j > 0 {
      assert s[..j][0] == s[0];
      assert s[1..][..j - 1] == s[..j][1..];
      WithinLongestPrefix(s[1..], j - 1);
    }
  }

  /**
   * A value of at most MaxUUID has at most 16 minimal big-endian bytes, and
   * left-padding them with zeros to 16 gives its 16-byte form.
   */
  lemma PaddedBytes(n: nat)
    requires n <= MaxUUID
    ensures |Minimal(n, 256)| <= ByteLength
    ensures Zeros(ByteLength - |Minimal(n, 256)|) + Minimal(n, 256) == NatToBytes(n, ByteLength)
  {
    PowFacts();
    var m := Minimal(n, 256);
    MinimalValue(n, 256);
    MinimalLength(n, 256, ByteLength);
    var z := Zeros(ByteLength - |m|);
    ValueLeadingZeros(z, m, 256);
    assert IsDigits(z + m, 256);
    FixedOfValue(z + m, 256);
  }

  /** A string of alphabet characters whose value fits decodes to that value. */
  lemma AcceptedAll(s: string)
    requires s != [] && IsBase58(s) && ValueOf(s) <= MaxUUID
    ensures Decoded(s) == Success(NatToBytes(ValueOf(s), ByteLength))
  {
    WithinLongestPrefix(s, |s|);
    assert s[..|s|] == s;
  }

  /** The first unacceptable character after an acceptable prefix of value at most MaxUUID is reported. */
  lemma FirstInvalidAt(s: string, i: nat)
    requires i < |s| && IsBase58(s[..i]) && !InAlphabet(s[i]) && ValueOf(s[..i]) <= MaxUUID
    ensures Decoded(s) == Failure(InvalidChar(s[i]))
  {
    WithinLongestPrefix(s, i);
  }

  /** An acceptable prefix whose value exceeds MaxUUID makes decoding overflow. */
  lemma OverflowAt(s: string, j: nat)
    requires 0 < j <= |s| && IsBase58(s[..j]) && ValueOf(s[..j]) > MaxUUID
    ensures Decoded(s) == Failure(Overflow)
  {
    WithinLongestPrefix(s, j);
    ValueOfMonotone(s, j, LongestDigitPrefix(s));
  }

  // ---------------------------------------------------------------------
  // What the codec promises

  /** An alphabet string spells its own digits. */
  lemma SpellDigitsOf(s: string)
    requires IsBase58(s)
    ensures Spell(DigitsOf(s)) == s
  {
    var t := Spell(DigitsOf(s));
    forall i | 0 <= i < |s| ensures t[i] == s[i] {
      assert t[i] == CharOf(DigitOf(s[i]));
    }
  }

  /** A fixed-width digit string is the minimal one behind enough zeros. */
  lemma FixedIsPaddedMinimal(n: nat, base: Base, w: nat)
    requires n < Pow(base, w)
    ensures |Minimal(n, base)| <= w
    ensures Fixed(n, base, w) == Zeros(w - |Minimal(n, base)|) + Minimal(n, base)
  {
    var m := Minimal(n, base);
    MinimalLength(n, base, w);
    MinimalValue(n, base);
    var z := Zeros(w - |m|);
    ValueLeadingZeros(z, m, base);
    assert IsDigits(z + m, base);
    FixedValue(n, base, w);
    ValueInjective(Fixed(n, base, w), z + m, base);
  }

  /** Spelling distributes over concatenation. */
  lemma SpellAppend(a: seq<nat>, b: seq<nat>)
    requires IsDigits(a, 58) && IsDigits(b, 58)
    ensures IsDigits(a + b, 58) && Spell(a + b) == Spell(a) + Spell(b)
  {
    assert IsDigits(a + b, 58);
    var l, r := Spell(a + b), Spell(a) + Spell(b);
    forall i | 0 <= i < |l| ensures l[i] == r[i] {
      if i >= |a| {
        assert (a + b)[i] == b[i - |a|];
      }
    }
  }

  /** `k` copies of the zero digit '1'. */
  function Ones(k: nat): (s: string)
    ensures |s| == k && forall i | 0 <= i < k :: s[i] == '1'
  {
    seq(k, _ => '1')
  }

  /**
   * The encoding is the value's shortest base-58 spelling behind as many
   * '1's as it takes to reach 22 characters; the shortest spelling never
   * starts with '1', so the padding is exactly the leading '1's.
   */
  lemma EncodedPadding(data: seq<byte>)
    requires |data| == ByteLength
    ensures |Minimal(BytesToNat(data), 58)| <= EncodedLength
    ensures Encoded(data) ==
      Ones(EncodedLength - |Minimal(BytesToNat(data), 58)|) + Spell(Minimal(BytesToNat(data), 58))
    ensures Minimal(BytesToNat(data), 58) != [] ==> Spell(Minimal(BytesToNat(data), 58))[0] != '1'
  {
    var n := BytesToNat(data);
    PowFacts();
    FixedIsPaddedMinimal(n, 58, EncodedLength);
    var m := Minimal(n, 58);
    var z := Zeros(EncodedLength - |m|);
    SpellAppend(z, m);
    assert Spell(z) == Ones(|z|);
    if m != [] {
      assert Spell(m)[0] == CharOf(m[0]);
    }
  }

  /** The largest acceptable value is spelled with only 'z'. */
  lemma {:induction false} ValueOfAllZ(k: nat)
    ensures IsBase58(seq(k, _ => 'z')) && ValueOf(seq(k, _ => 'z')) == Pow(58, k) - 1
  {
    var s := seq(k, _ => 'z');
    if k > 0 {
      var t := seq(k - 1, _ => 'z');
      ValueOfAllZ(k - 1);
      assert s[..k - 1] == t;
      ValueOfStep(s, k - 1);
      assert s[..k] == s;
    }
  }

  /** Decoding undoes encoding. */
  lemma RoundTrip(data: seq<byte>)
    requires |data| == ByteLength
    ensures Decoded(Encoded(data)) == Success(data)
  {
    PowFacts();
    AcceptedAll(Encoded(data));
    NatToBytesOfBytes(data);
  }

  /** Distinct byte strings have distinct encodings. */
  lemma EncodedInjective(a: seq<byte>, b: seq<byte>)
    requires |a| == ByteLength && |b| == ByteLength && Encoded(a) == Encoded(b)
    ensures a == b
  {
    RoundTrip(a);
    RoundTrip(b);
  }

  /**
   * Decoding succeeds exactly on non-empty strings of alphabet characters
   * whose value is at most 2^128 - 1, and then yields that value as 16
   * big-endian bytes.
   */
  lemma DecodedSucceeds(s: string)
    ensures Decoded(s).Success? <==> s != [] && IsBase58(s) && ValueOf(s) <= MaxUUID
    ensures Decoded(s).Success? ==>
      |Decoded(s).value| == ByteLength && BytesToNat(Decoded(s).value) == ValueOf(s)
  {
    if Decoded(s).Success? {
      var k := LongestDigitPrefix(s);
      assert k == |s| && s[..k] == s;
      PowFacts();
      BytesToNatOfNatToBytes(ValueOf(s), ByteLength);
    }
    if s != [] && IsBase58(s) && ValueOf(s) <= MaxUUID {
      AcceptedAll(s);
    }
  }

  /**
   * A 22-character string that decodes is the encoding of what it decodes
   * to: every value has exactly one 22-character spelling.
   */
  lemma DecodedEncodedCanonical(s: string)
    requires |s| == EncodedLength && Decoded(s).Success?
    ensures Encoded(Decoded(s).value) == s
  {
    DecodedSucceeds(s);
    FixedOfValue(DigitsOf(s), 58);
    SpellDigitsOf(s);
  }

  /** The empty string is the only input rejected as empty. */
  lemma DecodedEmpty(s: string)
    ensures Decoded(s) == Failure(Empty) <==> s == []
  {
  }

  /**
   * Decoding overflows exactly when some acceptable prefix already exceeds
   * 2^128 - 1, whatever follows that prefix.
   */
  lemma DecodedOverflow(s: string)
    ensures Decoded(s) == Failure(Overflow) <==>
      exists j | 0 < j <= |s| :: IsBase58(s[..j]) && ValueOf(s[..j]) > MaxUUID
  {
    if Decoded(s) == Failure(Overflow) {
      var k := LongestDigitPrefix(s);
      assert 0 < k <= |s| && IsBase58(s[..k]) && ValueOf(s[..k]) > MaxUUID;
    }
    if exists j | 0 < j <= |s| :: IsBase58(s[..j]) && ValueOf(s[..j]) > MaxUUID {
      var j :| 0 < j <= |s| && IsBase58(s[..j]) && ValueOf(s[..j]) > MaxUUID;
      OverflowAt(s, j);
    }
  }

  /**
   * Decoding reports character c exactly when c is the first character
   * outside the alphabet and the digits before it stay within 2^128 - 1.
   */
  lemma DecodedInvalidChar(s: string, c: char)
    ensures Decoded(s) == Failure(InvalidChar(c)) <==>
      exists i | 0 <= i < |s| ::
        s[i] == c && !InAlphabet(c) && IsBase58(s[..i]) && ValueOf(s[..i]) <= MaxUUID
  {
    if Decoded(s) == Failure(InvalidChar(c)) {
      var k := LongestDigitPrefix(s);
      assert s[k] == c && !InAlphabet(c) && IsBase58(s[..k]) && ValueOf(s[..k]) <= MaxUUID;
    }
    if exists i | 0 <= i < |s| ::
        s[i] == c && !InAlphabet(c) && IsBase58(s[..i]) && ValueOf(s[..i]) <= MaxUUID {
      var i :| 0 <= i < |s| &&
        s[i] == c && !InAlphabet(c) && IsBase58(s[..i]) && ValueOf(s[..i]) <= MaxUUID;
      FirstInvalidAt(s, i);
    }
  }

  /**
   * A string holding any character outside the alphabet (in particular
   * '0', 'O', 'I', 'l' or any character above U+00FF) never decodes.
   */
  lemma DecodedRejects(s: string, i: nat)
    requires i < |s| && (s[i] !in Alphabet || s[i] as int > 255)
    ensures Decoded(s).Failure?
  {
    InAlphabetIffMember(s[i]);
    DecodedSucceeds(s);
  }

  /** The look-alike characters are outside the alphabet, so they always make decoding fail. */
  lemma DecodedRejectsLookAlikes(s: string, i: nat)
    requires i < |s| && s[i] in "0OIl"
    ensures Decoded(s).Failure?
  {
    AlphabetShape();
    DecodedRejects(s, i);
  }

  /** Twenty-two 'z's denote 58^22 - 1, which is above 2^128 - 1. */
  lemma AllZOverflows()
    ensures Decoded(seq(EncodedLength, _ => 'z')) == Failure(Overflow)
  {
    ValueOfAllZ(EncodedLength);
    PowFacts();
    var s := seq(EncodedLength, _ => 'z');
    assert s[..EncodedLength] == s;
    OverflowAt(s, EncodedLength);
  }

  /** The value of a string behind one zero digit. */
  lemma ValueOfLeadingOne(t: string)
    requires IsBase58(t)
    ensures IsBase58(['1'] + t) && ValueOf(['1'] + t) == ValueOf(t)
  {
    var s := ['1'] + t;
    assert IsBase58(s);
    assert DigitsOf(s) == [0] + DigitsOf(t);
    ValueLeadingZeros([0], DigitsOf(t), 58);
  }

  /** The longest acceptable prefix grows by one behind a leading '1'. */
  lemma LongestPrefixLeadingOne(t: string)
    ensures LongestDigitPrefix(['1'] + t) == LongestDigitPrefix(t) + 1
  {
    assert (['1'] + t)[1..] == t;
  }

  /** Leading '1's contribute nothing: a non-empty string decodes the same behind one more. */
  lemma DecodedLeadingOne(t: string)
    requires t != []
    ensures Decoded(['1'] + t) == Decoded(t)
  {
    var s := ['1'] + t;
    var k := LongestDigitPrefix(t);
    LongestPrefixLeadingOne(t);
    assert s[..k + 1] == ['1'] + t[..k];
    ValueOfLeadingOne(t[..k]);
    if k < |t| {
      assert s[k + 1] == t[k];
    }
  }

  // ---------------------------------------------------------------------
  // Known encodings

  /** A string of 22 base-58 digits that denotes the bytes' value spells their encoding. */
  lemma EncodedSpells(data: seq<byte>, ds: seq<nat>)
    requires |data| == ByteLength && |ds| == EncodedLength
    requires IsDigits(ds, 58) && Value(ds, 58) == BytesToNat(data)
    ensures Encoded(data) == Spell(ds)
  {
    FixedOfValue(ds, 58);
  }

  lemma BytesQuad(a: byte, b: byte, c: byte, d: byte)
    ensures BytesToNat([a, b, c, d]) == ((a * 256 + b) * 256 + c) * 256 + d
  {
    assert [a, b, c, d] == [a, b, c] + [d];
    assert [a, b, c] == [a, b] + [c];
    assert [a, b] == [a] + [b];
    assert [a] == [] + [a];
    ValueAppend([], a, 256);
    ValueAppend([a], b, 256);
    ValueAppend([a, b], c, 256);
    ValueAppend([a, b, c], d, 256);
  }

  lemma BytesJoin(x: seq<byte>, y: seq<byte>, vx: nat, vy: nat, p: nat)
    requires BytesToNat(x) == vx && BytesToNat(y) == vy && Pow(256, |y|) == p
    ensures BytesToNat(x + y) == vx * p + vy
  {
    ValueConcat(x, y, 256);
  }

  lemma DigitsQuad(a: nat, b: nat, c: nat, d: nat)
    ensures Value([a, b, c, d], 58) == ((a * 58 + b) * 58 + c) * 58 + d
  {
    assert [a, b, c, d] == [a, b, c] + [d];
    assert [a, b, c] == [a, b] + [c];
    assert [a, b] == [a] + [b];
    assert [a] == [] + [a];
    ValueAppend([], a, 58);
    ValueAppend([a], b, 58);
    ValueAppend([a, b], c, 58);
    ValueAppend([a, b, c], d, 58);
  }

  lemma DigitsPair(a: nat, b: nat)
    ensures Value([a, b], 58) == a * 58 + b
  {
    assert [a, b] == [a] + [b];
    assert [a] == [] + [a];
    ValueAppend([], a, 58);
    ValueAppend([a], b, 58);
  }

  lemma DigitsJoin(x: seq<nat>, y: seq<nat>, vx: nat, vy: nat, p: nat)
    requires Value(x, 58) == vx && Value(y, 58) == vy && Pow(58, |y|) == p
    ensures Value(x + y, 58) == vx * p + vy
  {
    ValueConcat(x, y, 58);
  }

  /** A value below 58 is one digit behind twenty-one '1's, and decodes back. */
  lemma EncodedSmall(data: seq<byte>, s: string)
    requires |data| == ByteLength && data[15] < 58
    requires forall i | 0 <= i < 15 :: data[i] == 0
    requires s == Ones(21) + [CharOf(data[15])]
    ensures Encoded(data) == s && Decoded(s) == Success(data)
  {
    var d := data[15];
    assert data == Zeros(15) + [d];
    ValueLeadingZeros(Zeros(15), [d], 256);
    ValueAppend([], d, 256);
    assert [d] == [] + [d];
    var ds := Zeros(21) + [d];
    assert IsDigits(ds, 58);
    ValueLeadingZeros(Zeros(21), [d], 58);
    var t := Spell(ds);
    assert forall i | 0 <= i < 21 :: t[i] == CharOf(0) == '1';
    assert t == s;
    EncodedSpells(data, ds);
    RoundTrip(data);
  }

  /** The value 1: twenty-one '1's, then the digit one, '2'. */
  lemma VectorOne()
    ensures Encoded([0x00, 0x00, 0x00, 0x00, 0x00, 0x00, 0x00, 0x00, 0x00, 0x00, 0x00, 0x00, 0x00, 0x00, 0x00, 0x01]) == "1111111111111111111112"
    ensures Decoded("1111111111111111111112") == Success([0x00, 0x00, 0x00, 0x00, 0x00, 0x00, 0x00, 0x00, 0x00, 0x00, 0x00, 0x00, 0x00, 0x00, 0x00, 0x01])
  {
    var data: seq<byte> := [0x00, 0x00, 0x00, 0x00, 0x00, 0x00, 0x00, 0x00, 0x00, 0x00, 0x00, 0x00, 0x00, 0x00, 0x00, 0x01];
    EncodedSmall(data, "1111111111111111111112");
  }

  /** The value 16: twenty-one '1's, then the digit sixteen, 'H'. */
  lemma VectorSixteen()
    ensures Encoded([0x00, 0x00, 0x00, 0x00, 0x00, 0x00, 0x00, 0x00, 0x00, 0x00, 0x00, 0x00, 0x00, 0x00, 0x00, 0x10]) == "111111111111111111111H"
    ensures Decoded("111111111111111111111H") == Success([0x00, 0x00, 0x00, 0x00, 0x00, 0x00, 0x00, 0x00, 0x00, 0x00, 0x00, 0x00, 0x00, 0x00, 0x00, 0x10])
  {
    var data: seq<byte> := [0x00, 0x00, 0x00, 0x00, 0x00, 0x00, 0x00, 0x00, 0x00, 0x00, 0x00, 0x00, 0x00, 0x00, 0x00, 0x10];
    EncodedSmall(data, "111111111111111111111H");
  }

  /** Sixteen zero bytes encode as twenty-two '1's. */
  lemma VectorZero()
    ensures Encoded([0x00, 0x00, 0x00, 0x00, 0x00, 0x00, 0x00, 0x00, 0x00, 0x00, 0x00, 0x00, 0x00, 0x00, 0x00, 0x00]) == "1111111111111111111111"
    ensures Decoded("1111111111111111111111") == Success([0x00, 0x00, 0x00, 0x00, 0x00, 0x00, 0x00, 0x00, 0x00, 0x00, 0x00, 0x00, 0x00, 0x00, 0x00, 0x00])
  {
    var data: seq<byte> := [0x00, 0x00, 0x00, 0x00, 0x00, 0x00, 0x00, 0x00, 0x00, 0x00, 0x00, 0x00, 0x00, 0x00, 0x00, 0x00];
    assert data == Zeros(ByteLength);
    ValueOfZeros(ByteLength, 256);
    ValueOfZeros(EncodedLength, 58);
    AlphabetAt(0);
    assert Spell(Zeros(EncodedLength)) == "1111111111111111111111";
    EncodedSpells(data, Zeros(EncodedLength));
    RoundTrip(data);
  }

  lemma VectorMaxBytesHalf()
    ensures BytesToNat([0xff, 0xff, 0xff, 0xff, 0xff, 0xff, 0xff, 0xff]) == 18446744073709551615
  {
    var a: seq<byte>, b: seq<byte> := [0xff, 0xff, 0xff, 0xff], [0xff, 0xff, 0xff, 0xff];
    BytesQuad(0xff, 0xff, 0xff, 0xff);
    BytesQuad(0xff, 0xff, 0xff, 0xff);
    assert Pow(256, 4) == 4294967296;
    BytesJoin(a, b, 4294967295, 4294967295, 4294967296);
    assert [0xff, 0xff, 0xff, 0xff, 0xff, 0xff, 0xff, 0xff] == a + b;
  }

  lemma VectorMaxBytes()
    ensures BytesToNat([0xff, 0xff, 0xff, 0xff, 0xff, 0xff, 0xff, 0xff, 0xff, 0xff, 0xff, 0xff, 0xff, 0xff, 0xff, 0xff]) == 340282366920938463463374607431768211455
  {
    var hi: seq<byte>, lo: seq<byte> := [0xff, 0xff, 0xff, 0xff, 0xff, 0xff, 0xff, 0xff], [0xff, 0xff, 0xff, 0xff, 0xff, 0xff, 0xff, 0xff];
    VectorMaxBytesHalf();
    assert Pow(256, 8) == 18446744073709551616;
    BytesJoin(hi, lo, 18446744073709551615, 18446744073709551615, 18446744073709551616);
    assert [0xff, 0xff, 0xff, 0xff, 0xff, 0xff, 0xff, 0xff, 0xff, 0xff, 0xff, 0xff, 0xff, 0xff, 0xff, 0xff] == hi + lo;
  }

  lemma VectorMaxDigitsHigh()
    ensures Value([31, 35, 28, 38, 55, 43, 23, 34, 5, 17, 24, 57, 48, 43, 4, 43], 58) == 8938640761766069847176062959
  {
    var a: seq<nat>, b: seq<nat>, c: seq<nat>, d: seq<nat> := [31, 35, 28, 38], [55, 43, 23, 34], [5, 17, 24, 57], [48, 43, 4, 43];
    DigitsQuad(31, 35, 28, 38);
    DigitsQuad(55, 43, 23, 34);
    DigitsQuad(5, 17, 24, 57);
    DigitsQuad(48, 43, 4, 43);
    assert Pow(58, 4) == 11316496;
    assert Pow(58, 8) == 128063081718016;
    DigitsJoin(a, b, 6167874, 10877180, 11316496);
    DigitsJoin(c, d, 1034197, 9510303, 11316496);
    DigitsJoin(a + b, c + d, 69798732326684, 11703495724015, 128063081718016);
    assert [31, 35, 28, 38, 55, 43, 23, 34, 5, 17, 24, 57, 48, 43, 4, 43] == (a + b) + (c + d);
  }

  lemma VectorMaxDigitsLow()
    ensures Value([14, 1, 51, 21, 19, 53], 58) == 9210333759
  {
    var a: seq<nat>, b: seq<nat> := [14, 1, 51, 21], [19, 53];
    DigitsQuad(14, 1, 51, 21);
    DigitsPair(19, 53);
    assert Pow(58, 2) == 3364;
    DigitsJoin(a, b, 2737911, 1155, 3364);
    assert [14, 1, 51, 21, 19, 53] == a + b;
  }

  lemma VectorMaxDigits()
    ensures Value([31, 35, 28, 38, 55, 43, 23, 34, 5, 17, 24, 57, 48, 43, 4, 43, 14, 1, 51, 21, 19, 53], 58) == 340282366920938463463374607431768211455
  {
    var hi: seq<nat>, lo: seq<nat> := [31, 35, 28, 38, 55, 43, 23, 34, 5, 17, 24, 57, 48, 43, 4, 43], [14, 1, 51, 21, 19, 53];
    VectorMaxDigitsHigh();
    VectorMaxDigitsLow();
    assert Pow(58, 6) == 38068692544;
    DigitsJoin(hi, lo, 8938640761766069847176062959, 9210333759, 38068692544);
    assert [31, 35, 28, 38, 55, 43, 23, 34, 5, 17, 24, 57, 48, 43, 4, 43, 14, 1, 51, 21, 19, 53] == hi + lo;
  }

  lemma VectorMaxSpelling()
    ensures IsDigits([31, 35, 28, 38, 55, 43, 23, 34, 5, 17, 24, 57, 48, 43, 4, 43, 14, 1, 51, 21, 19, 53], 58) && Spell([31, 35, 28, 38, 55, 43, 23, 34, 5, 17, 24, 57, 48, 43, 4, 43, 14, 1, 51, 21, 19, 53]) == "YcVfxkQb6JRzqk5kF2tNLv"
  {
  }

  /** Sixteen 0xff bytes, the largest value, encode as YcVfxkQb6JRzqk5kF2tNLv. */
  lemma VectorMax()
    ensures Encoded([0xff, 0xff, 0xff, 0xff, 0xff, 0xff, 0xff, 0xff, 0xff, 0xff, 0xff, 0xff, 0xff, 0xff, 0xff, 0xff]) == "YcVfxkQb6JRzqk5kF2tNLv"
    ensures Decoded("YcVfxkQb6JRzqk5kF2tNLv") == Success([0xff, 0xff, 0xff, 0xff, 0xff, 0xff, 0xff, 0xff, 0xff, 0xff, 0xff, 0xff, 0xff, 0xff, 0xff, 0xff])
  {
    VectorMaxBytes();
    VectorMaxDigits();
    VectorMaxSpelling();
    EncodedSpells([0xff, 0xff, 0xff, 0xff, 0xff, 0xff, 0xff, 0xff, 0xff, 0xff, 0xff, 0xff, 0xff, 0xff, 0xff, 0xff], [31, 35, 28, 38, 55, 43, 23, 34, 5, 17, 24, 57, 48, 43, 4, 43, 14, 1, 51, 21, 19, 53]);
    RoundTrip([0xff, 0xff, 0xff, 0xff, 0xff, 0xff, 0xff, 0xff, 0xff, 0xff, 0xff, 0xff, 0xff, 0xff, 0xff, 0xff]);
  }

  lemma VectorRfcExampleBytesHigh()
    ensures BytesToNat([0x55, 0x0e, 0x84, 0x00, 0xe2, 0x9b, 0x41, 0xd4]) == 6128981282234515924
  {
    var a: seq<byte>, b: seq<byte> := [0x55, 0x0e, 0x84, 0x00], [0xe2, 0x9b, 0x41, 0xd4];
    BytesQuad(0x55, 0x0e, 0x84, 0x00);
    BytesQuad(0xe2, 0x9b, 0x41, 0xd4);
    assert Pow(256, 4) == 4294967296;
    BytesJoin(a, b, 1427014656, 3801825748, 4294967296);
    assert [0x55, 0x0e, 0x84, 0x00, 0xe2, 0x9b, 0x41, 0xd4] == a + b;
  }

  lemma VectorRfcExampleBytesLow()
    ensures BytesToNat([0xa7, 0x16, 0x44, 0x66, 0x55, 0x44, 0x00, 0x00]) == 12039885860129472512
  {
    var a: seq<byte>, b: seq<byte> := [0xa7, 0x16, 0x44, 0x66], [0x55, 0x44, 0x00, 0x00];
    BytesQuad(0xa7, 0x16, 0x44, 0x66);
    BytesQuad(0x55, 0x44, 0x00, 0x00);
    assert Pow(256, 4) == 4294967296;
    BytesJoin(a, b, 2803254374, 1430519808, 4294967296);
    assert [0xa7, 0x16, 0x44, 0x66, 0x55, 0x44, 0x00, 0x00] == a + b;
  }

  lemma VectorRfcExampleBytes()
    ensures BytesToNat([0x55, 0x0e, 0x84, 0x00, 0xe2, 0x9b, 0x41, 0xd4, 0xa7, 0x16, 0x44, 0x66, 0x55, 0x44, 0x00, 0x00]) == 113059749145936325402354257176981405696
  {
    var hi: seq<byte>, lo: seq<byte> := [0x55, 0x0e, 0x84, 0x00, 0xe2, 0x9b, 0x41, 0xd4], [0xa7, 0x16, 0x44, 0x66, 0x55, 0x44, 0x00, 0x00];
    VectorRfcExampleBytesHigh();
    VectorRfcExampleBytesLow();
    assert Pow(256, 8) == 18446744073709551616;
    BytesJoin(hi, lo, 6128981282234515924, 12039885860129472512, 18446744073709551616);
    assert [0x55, 0x0e, 0x84, 0x00, 0xe2, 0x9b, 0x41, 0xd4, 0xa7, 0x16, 0x44, 0x66, 0x55, 0x44, 0x00, 0x00] == hi + lo;
  }

  lemma VectorRfcExampleDigitsHigh()
    ensures Value([10, 29, 10, 37, 21, 1, 7, 28, 34, 6, 35, 20, 13, 55, 6, 31], 58) == 2969887894501794566342810335
  {
    var a: seq<nat>, b: seq<nat>, c: seq<nat>, d: seq<nat> := [10, 29, 10, 37], [21, 1, 7, 28], [34, 6, 35, 20], [13, 55, 6, 31];
    DigitsQuad(10, 29, 10, 37);
    DigitsQuad(21, 1, 7, 28);
    DigitsQuad(34, 6, 35, 20);
    DigitsQuad(13, 55, 6, 31);
    assert Pow(58, 4) == 11316496;
    assert Pow(58, 8) == 128063081718016;
    DigitsJoin(a, b, 2049293, 4101150, 11316496);
    DigitsJoin(c, d, 6656042, 2721855, 11316496);
    DigitsJoin(a + b, c + d, 23190820138478, 75323075390687, 128063081718016);
    assert [10, 29, 10, 37, 21, 1, 7, 28, 34, 6, 35, 20, 13, 55, 6, 31] == (a + b) + (c + d);
  }

  lemma VectorRfcExampleDigitsLow()
    ensures Value([44, 7, 9, 27, 57, 50], 58) == 28960763456
  {
    var a: seq<nat>, b: seq<nat> := [44, 7, 9, 27], [57, 50];
    DigitsQuad(44, 7, 9, 27);
    DigitsPair(57, 50);
    assert Pow(58, 2) == 3364;
    DigitsJoin(a, b, 8609025, 3356, 3364);
    assert [44, 7, 9, 27, 57, 50] == a + b;
  }

  lemma VectorRfcExampleDigits()
    ensures Value([10, 29, 10, 37, 21, 1, 7, 28, 34, 6, 35, 20, 13, 55, 6, 31, 44, 7, 9, 27, 57, 50], 58) == 113059749145936325402354257176981405696
  {
    var hi: seq<nat>, lo: seq<nat> := [10, 29, 10, 37, 21, 1, 7, 28, 34, 6, 35, 20, 13, 55, 6, 31], [44, 7, 9, 27, 57, 50];
    VectorRfcExampleDigitsHigh();
    VectorRfcExampleDigitsLow();
    assert Pow(58, 6) == 38068692544;
    DigitsJoin(hi, lo, 2969887894501794566342810335, 28960763456, 38068692544);
    assert [10, 29, 10, 37, 21, 1, 7, 28, 34, 6, 35, 20, 13, 55, 6, 31, 44, 7, 9, 27, 57, 50] == hi + lo;
  }

  lemma VectorRfcExampleSpelling()
    ensures IsDigits([10, 29, 10, 37, 21, 1, 7, 28, 34, 6, 35, 20, 13, 55, 6, 31, 44, 7, 9, 27, 57, 50], 58) && Spell([10, 29, 10, 37, 21, 1, 7, 28, 34, 6, 35, 20, 13, 55, 6, 31, 44, 7, 9, 27, 57, 50]) == "BWBeN28Vb7cMEx7Ym8AUzs"
  {
  }

  /** The UUID 550e8400-e29b-41d4-a716-446655440000 encodes as BWBeN28Vb7cMEx7Ym8AUzs. */
  lemma VectorRfcExample()
    ensures Encoded([0x55, 0x0e, 0x84, 0x00, 0xe2, 0x9b, 0x41, 0xd4, 0xa7, 0x16, 0x44, 0x66, 0x55, 0x44, 0x00, 0x00]) == "BWBeN28Vb7cMEx7Ym8AUzs"
    ensures Decoded("BWBeN28Vb7cMEx7Ym8AUzs") == Success([0x55, 0x0e, 0x84, 0x00, 0xe2, 0x9b, 0x41, 0xd4, 0xa7, 0x16, 0x44, 0x66, 0x55, 0x44, 0x00, 0x00])
  {
    VectorRfcExampleBytes();
    VectorRfcExampleDigits();
    VectorRfcExampleSpelling();
    EncodedSpells([0x55, 0x0e, 0x84, 0x00, 0xe2, 0x9b, 0x41, 0xd4, 0xa7, 0x16, 0x44, 0x66, 0x55, 0x44, 0x00, 0x00], [10, 29, 10, 37, 21, 1, 7, 28, 34, 6, 35, 20, 13, 55, 6, 31, 44, 7, 9, 27, 57, 50]);
    RoundTrip([0x55, 0x0e, 0x84, 0x00, 0xe2, 0x9b, 0x41, 0xd4, 0xa7, 0x16, 0x44, 0x66, 0x55, 0x44, 0x00, 0x00]);
  }

  lemma VectorDeadBeefBytesHigh()
    ensures BytesToNat([0xde, 0xad, 0xbe, 0xef, 0xca, 0xfe, 0xba, 0xbe]) == 16045690984503098046
  {
    var a: seq<byte>, b: seq<byte> := [0xde, 0xad, 0xbe, 0xef], [0xca, 0xfe, 0xba, 0xbe];
    BytesQuad(0xde, 0xad, 0xbe, 0xef);
    BytesQuad(0xca, 0xfe, 0xba, 0xbe);
    assert Pow(256, 4) == 4294967296;
    BytesJoin(a, b, 3735928559, 3405691582, 4294967296);
    assert [0xde, 0xad, 0xbe, 0xef, 0xca, 0xfe, 0xba, 0xbe] == a + b;
  }

  lemma VectorDeadBeefBytesLow()
    ensures BytesToNat([0x01, 0x23, 0x45, 0x67, 0x89, 0xab, 0xcd, 0xef]) == 81985529216486895
  {
    var a: seq<byte>, b: seq<byte> := [0x01, 0x23, 0x45, 0x67], [0x89, 0xab, 0xcd, 0xef];
    BytesQuad(0x01, 0x23, 0x45, 0x67);
    BytesQuad(0x89, 0xab, 0xcd, 0xef);
    assert Pow(256, 4) == 4294967296;
    BytesJoin(a, b, 19088743, 2309737967, 4294967296);
    assert [0x01, 0x23, 0x45, 0x67, 0x89, 0xab, 0xcd, 0xef] == a + b;
  }

  lemma VectorDeadBeefBytes()
    ensures BytesToNat([0xde, 0xad, 0xbe, 0xef, 0xca, 0xfe, 0xba, 0xbe, 0x01, 0x23, 0x45, 0x67, 0x89, 0xab, 0xcd, 0xef]) == 295990755076957304698161171062762229231
  {
    var hi: seq<byte>, lo: seq<byte> := [0xde, 0xad, 0xbe, 0xef, 0xca, 0xfe, 0xba, 0xbe], [0x01, 0x23, 0x45, 0x67, 0x89, 0xab, 0xcd, 0xef];
    VectorDeadBeefBytesHigh();
    VectorDeadBeefBytesLow();
    assert Pow(256, 8) == 18446744073709551616;
    BytesJoin(hi, lo, 16045690984503098046, 81985529216486895, 18446744073709551616);
    assert [0xde, 0xad, 0xbe, 0xef, 0xca, 0xfe, 0xba, 0xbe, 0x01, 0x23, 0x45, 0x67, 0x89, 0xab, 0xcd, 0xef] == hi + lo;
  }

  lemma VectorDeadBeefDigitsHigh()
    ensures Value([27, 28, 48, 56, 2, 8, 53, 25, 3, 51, 34, 38, 22, 57, 51, 40], 58) == 7775175223967820666380308746
  {
    var a: seq<nat>, b: seq<nat>, c: seq<nat>, d: seq<nat> := [27, 28, 48, 56], [2, 8, 53, 25], [3, 51, 34, 38], [22, 57, 51, 40];
    DigitsQuad(27, 28, 48, 56);
    DigitsQuad(2, 8, 53, 25);
    DigitsQuad(3, 51, 34, 38);
    DigitsQuad(22, 57, 51, 40);
    assert Pow(58, 4) == 11316496;
    assert Pow(58, 8) == 128063081718016;
    DigitsJoin(a, b, 5365056, 420235, 11316496);
    DigitsJoin(c, d, 758910, 4487210, 11316496);
    DigitsJoin(a + b, c + d, 60713635184011, 8588206466570, 128063081718016);
    assert [27, 28, 48, 56, 2, 8, 53, 25, 3, 51, 34, 38, 22, 57, 51, 40] == (a + b) + (c + d);
  }

  lemma VectorDeadBeefDigitsLow()
    ensures Value([54, 4, 28, 13, 18, 39], 58) == 35494039407
  {
    var a: seq<nat>, b: seq<nat> := [54, 4, 28, 13], [18, 39];
    DigitsQuad(54, 4, 28, 13);
    DigitsPair(18, 39);
    assert Pow(58, 2) == 3364;
    DigitsJoin(a, b, 10551141, 1083, 3364);
    assert [54, 4, 28, 13, 18, 39] == a + b;
  }

  lemma VectorDeadBeefDigits()
    ensures Value([27, 28, 48, 56, 2, 8, 53, 25, 3, 51, 34, 38, 22, 57, 51, 40, 54, 4, 28, 13, 18, 39], 58) == 295990755076957304698161171062762229231
  {
    var hi: seq<nat>, lo: seq<nat> := [27, 28, 48, 56, 2, 8, 53, 25, 3, 51, 34, 38, 22, 57, 51, 40], [54, 4, 28, 13, 18, 39];
    VectorDeadBeefDigitsHigh();
    VectorDeadBeefDigitsLow();
    assert Pow(58, 6) == 38068692544;
    DigitsJoin(hi, lo, 7775175223967820666380308746, 35494039407, 38068692544);
    assert [27, 28, 48, 56, 2, 8, 53, 25, 3, 51, 34, 38, 22, 57, 51, 40, 54, 4, 28, 13, 18, 39] == hi + lo;
  }

  lemma VectorDeadBeefSpelling()
    ensures IsDigits([27, 28, 48, 56, 2, 8, 53, 25, 3, 51, 34, 38, 22, 57, 51, 40, 54, 4, 28, 13, 18, 39], 58) && Spell([27, 28, 48, 56, 2, 8, 53, 25, 3, 51, 34, 38, 22, 57, 51, 40, 54, 4, 28, 13, 18, 39]) == "UVqy39vS4tbfPzthw5VEKg"
  {
  }

  /** The UUID deadbeef-cafe-babe-0123-456789abcdef encodes as UVqy39vS4tbfPzthw5VEKg. */
  lemma VectorDeadBeef()
    ensures Encoded([0xde, 0xad, 0xbe, 0xef, 0xca, 0xfe, 0xba, 0xbe, 0x01, 0x23, 0x45, 0x67, 0x89, 0xab, 0xcd, 0xef]) == "UVqy39vS4tbfPzthw5VEKg"
    ensures Decoded("UVqy39vS4tbfPzthw5VEKg") == Success([0xde, 0xad, 0xbe, 0xef, 0xca, 0xfe, 0xba, 0xbe, 0x01, 0x23, 0x45, 0x67, 0x89, 0xab, 0xcd, 0xef])
  {
    VectorDeadBeefBytes();
    VectorDeadBeefDigits();
    VectorDeadBeefSpelling();
    EncodedSpells([0xde, 0xad, 0xbe, 0xef, 0xca, 0xfe, 0xba, 0xbe, 0x01, 0x23, 0x45, 0x67, 0x89, 0xab, 0xcd, 0xef], [27, 28, 48, 56, 2, 8, 53, 25, 3, 51, 34, 38, 22, 57, 51, 40, 54, 4, 28, 13, 18, 39]);
    RoundTrip([0xde, 0xad, 0xbe, 0xef, 0xca, 0xfe, 0xba, 0xbe, 0x01, 0x23, 0x45, 0x67, 0x89, 0xab, 0xcd, 0xef]);
  }
}
