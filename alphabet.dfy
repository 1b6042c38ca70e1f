/**
 * The fixed tables of the Base58 codec: the Bitcoin alphabet and the
 * 256-entry reverse lookup table that decoding indexes by character code.
 *
 * Besides the two literal tables the module gives an independent
 * description of the alphabet as six runs of ASCII (InAlphabet, DigitOf,
 * CharOf) and proves, entry by entry, that both tables agree with it.
 */
module Base58Alphabet {
  import opened Radix

  /**
   * The Bitcoin Base58 alphabet, digit value i at index i. It is written as
   * the six runs of ASCII it consists of; the gaps between them are the
   * look-alikes '0', 'I', 'O' and 'l'.
   */
  const Alphabet: string :=
    "123456789" + "ABCDEFGH" + "JKLMN" + "PQRSTUVWXYZ" + "abcdefghijk" + "mnopqrstuvwxyz"

  /** The marker for "not a Base58 character" in the reverse table. */
  const Invalid: byte := 255

  /*
   * The reverse table as the source writes it, one constant per line of
   * sixteen entries: row r holds the entries for character codes 16r .. 16r+15.
   */
  const ReverseRow0: seq<byte> := [255, 255, 255, 255, 255, 255, 255, 255, 255, 255, 255, 255, 255, 255, 255, 255]
  const ReverseRow1: seq<byte> := [255, 255, 255, 255, 255, 255, 255, 255, 255, 255, 255, 255, 255, 255, 255, 255]
  const ReverseRow2: seq<byte> := [255, 255, 255, 255, 255, 255, 255, 255, 255, 255, 255, 255, 255, 255, 255, 255]
  const ReverseRow3: seq<byte> := [255, 0, 1, 2, 3, 4, 5, 6, 7, 8, 255, 255, 255, 255, 255, 255]
  const ReverseRow4: seq<byte> := [255, 9, 10, 11, 12, 13, 14, 15, 16, 255, 17, 18, 19, 20, 21, 255]
  const ReverseRow5: seq<byte> := [22, 23, 24, 25, 26, 27, 28, 29, 30, 31, 32, 255, 255, 255, 255, 255]
  const ReverseRow6: seq<byte> := [255, 33, 34, 35, 36, 37, 38, 39, 40, 41, 42, 43, 255, 44, 45, 46]
  const ReverseRow7: seq<byte> := [47, 48, 49, 50, 51, 52, 53, 54, 55, 56, 57, 255, 255, 255, 255, 255]
  const ReverseRow8: seq<byte> := [255, 255, 255, 255, 255, 255, 255, 255, 255, 255, 255, 255, 255, 255, 255, 255]
  const ReverseRow9: seq<byte> := [255, 255, 255, 255, 255, 255, 255, 255, 255, 255, 255, 255, 255, 255, 255, 255]
  const ReverseRowA: seq<byte> := [255, 255, 255, 255, 255, 255, 255, 255, 255, 255, 255, 255, 255, 255, 255, 255]
  const ReverseRowB: seq<byte> := [255, 255, 255, 255, 255, 255, 255, 255, 255, 255, 255, 255, 255, 255, 255, 255]
  const ReverseRowC: seq<byte> := [255, 255, 255, 255, 255, 255, 255, 255, 255, 255, 255, 255, 255, 255, 255, 255]
  const ReverseRowD: seq<byte> := [255, 255, 255, 255, 255, 255, 255, 255, 255, 255, 255, 255, 255, 255, 255, 255]
  const ReverseRowE: seq<byte> := [255, 255, 255, 255, 255, 255, 255, 255, 255, 255, 255, 255, 255, 255, 255, 255]
  const ReverseRowF: seq<byte> := [255, 255, 255, 255, 255, 255, 255, 255, 255, 255, 255, 255, 255, 255, 255, 255]

  const ReverseAlphabet: seq<byte> :=
    ReverseRow0 + ReverseRow1 + ReverseRow2 + ReverseRow3 +
    ReverseRow4 + ReverseRow5 + ReverseRow6 + ReverseRow7 +
    ReverseRow8 + ReverseRow9 + ReverseRowA + ReverseRowB +
    ReverseRowC + ReverseRowD + ReverseRowE + ReverseRowF

  // ---------------------------------------------------------------------
  // The alphabet described by its runs

  /** c is one of the 58 alphabet characters. */
  predicate InAlphabet(c: char)
  {
    ('1' <= c <= '9') || ('A' <= c <= 'H') || ('J' <= c <= 'N') ||
    ('P' <= c <= 'Z') || ('a' <= c <= 'k') || ('m' <= c <= 'z')
  }

  /** The character for digit value d. */
  function CharOf(d: nat): (c: char)
    requires d < 58
    ensures InAlphabet(c)
  {
    if d < 9 then ('1' as int + d) as char
    else if d < 17 then ('A' as int + (d - 9)) as char
    else if d < 22 then ('J' as int + (d - 17)) as char
    else if d < 33 then ('P' as int + (d - 22)) as char
    else if d < 44 then ('a' as int + (d - 33)) as char
    else ('m' as int + (d - 44)) as char
  }

  /** The digit value of an alphabet character: the inverse of CharOf. */
  function DigitOf(c: char): (d: nat)
    requires InAlphabet(c)
    ensures d < 58 && CharOf(d) == c
  {
    if c <= '9' then c as int - '1' as int
    else if c <= 'H' then c as int - 'A' as int + 9
    else if c <= 'N' then c as int - 'J' as int + 17
    else if c <= 'Z' then c as int - 'P' as int + 22
    else if c <= 'k' then c as int - 'a' as int + 33
    else c as int - 'm' as int + 44
  }

  lemma DigitOfCharOf(d: nat)
    requires d < 58
    ensures DigitOf(CharOf(d)) == d
  {
  }

  // ---------------------------------------------------------------------
  // Both tables agree with the runs: checked entry by entry. Each range
  // lemma names its cases one by one, which keeps the solver's work per
  // range small; the facts hold without the case split, at several times the cost.

  /** Alphabet index i holds the character of digit value i. */
  predicate IndexOk(i: nat)
  {
    i < 58 && i < |Alphabet| && Alphabet[i] == CharOf(i)
  }

  /** Reverse table entry c holds the digit value of character c, or 255 if c is not in the alphabet. */
  predicate EntryOk(c: nat)
  {
    c < 256 && c < |ReverseAlphabet| &&
    ReverseAlphabet[c] == if InAlphabet(c as char) then DigitOf(c as char) else Invalid
  }

  lemma IndicesOkDigits()
    ensures forall i | 0 <= i < 9 :: IndexOk(i)
  {
    forall i | 0 <= i < 9 ensures IndexOk(i) {
      assert i == 0 || i == 1 || i == 2 || i == 3 || i == 4 || i == 5 || i == 6 || i == 7 || i == 8;
    }
  }

  lemma IndicesOkUpperAH()
    ensures forall i | 9 <= i < 17 :: IndexOk(i)
  {
    forall i | 9 <= i < 17 ensures IndexOk(i) {
      assert i == 9 || i == 10 || i == 11 || i == 12 || i == 13 || i == 14 || i == 15 || i == 16;
    }
  }

  lemma IndicesOkUpperJN()
    ensures forall i | 17 <= i < 22 :: IndexOk(i)
  {
    forall i | 17 <= i < 22 ensures IndexOk(i) {
      assert i == 17 || i == 18 || i == 19 || i == 20 || i == 21;
    }
  }

  lemma IndicesOkUpperPZ()
    ensures forall i | 22 <= i < 33 :: IndexOk(i)
  {
    forall i | 22 <= i < 33 ensures IndexOk(i) {
      assert i == 22 || i == 23 || i == 24 || i == 25 || i == 26 || i == 27 || i == 28 || i == 29 || i == 30 || i == 31 || i == 32;
    }
  }

  lemma IndicesOkLowerAK()
    ensures forall i | 33 <= i < 44 :: IndexOk(i)
  {
    forall i | 33 <= i < 44 ensures IndexOk(i) {
      assert i == 33 || i == 34 || i == 35 || i == 36 || i == 37 || i == 38 || i == 39 || i == 40 || i == 41 || i == 42 || i == 43;
    }
  }

  lemma IndicesOkLowerMZ()
    ensures forall i | 44 <= i < 58 :: IndexOk(i)
  {
    forall i | 44 <= i < 58 ensures IndexOk(i) {
      assert i == 44 || i == 45 || i == 46 || i == 47 || i == 48 || i == 49 || i == 50 || i == 51 || i == 52 || i == 53 || i == 54 || i == 55 || i == 56 || i == 57;
    }
  }

  lemma EntriesOk0()
    ensures forall c | 0 <= c < 16 :: EntryOk(c)
  {
    forall c | 0 <= c < 16 ensures EntryOk(c) {
      assert c == 0 || c == 1 || c == 2 || c == 3 || c == 4 || c == 5 || c == 6 || c == 7 || c == 8 || c == 9 || c == 10 || c == 11 || c == 12 || c == 13 || c == 14 || c == 15;
    }
  }

  lemma EntriesOk1()
    ensures forall c | 16 <= c < 32 :: EntryOk(c)
  {
    forall c | 16 <= c < 32 ensures EntryOk(c) {
      assert c == 16 || c == 17 || c == 18 || c == 19 || c == 20 || c == 21 || c == 22 || c == 23 || c == 24 || c == 25 || c == 26 || c == 27 || c == 28 || c == 29 || c == 30 || c == 31;
    }
  }

  lemma EntriesOk2()
    ensures forall c | 32 <= c < 48 :: EntryOk(c)
  {
    forall c | 32 <= c < 48 ensures EntryOk(c) {
      assert c == 32 || c == 33 || c == 34 || c == 35 || c == 36 || c == 37 || c == 38 || c == 39 || c == 40 || c == 41 || c == 42 || c == 43 || c == 44 || c == 45 || c == 46 || c == 47;
    }
  }

  lemma EntriesOk3()
    ensures forall c | 48 <= c < 64 :: EntryOk(c)
  {
    forall c | 48 <= c < 64 ensures EntryOk(c) {
      assert c == 48 || c == 49 || c == 50 || c == 51 || c == 52 || c == 53 || c == 54 || c == 55 || c == 56 || c == 57 || c == 58 || c == 59 || c == 60 || c == 61 || c == 62 || c == 63;
    }
  }

  lemma EntriesOk4()
    ensures forall c | 64 <= c < 80 :: EntryOk(c)
  {
    forall c | 64 <= c < 80 ensures EntryOk(c) {
      assert c == 64 || c == 65 || c == 66 || c == 67 || c == 68 || c == 69 || c == 70 || c == 71 || c == 72 || c == 73 || c == 74 || c == 75 || c == 76 || c == 77 || c == 78 || c == 79;
    }
  }

  lemma EntriesOk5()
    ensures forall c | 80 <= c < 96 :: EntryOk(c)
  {
    forall c | 80 <= c < 96 ensures EntryOk(c) {
      assert c == 80 || c == 81 || c == 82 || c == 83 || c == 84 || c == 85 || c == 86 || c == 87 || c == 88 || c == 89 || c == 90 || c == 91 || c == 92 || c == 93 || c == 94 || c == 95;
    }
  }

  lemma EntriesOk6()
    ensures forall c | 96 <= c < 112 :: EntryOk(c)
  {
    forall c | 96 <= c < 112 ensures EntryOk(c) {
      assert c == 96 || c == 97 || c == 98 || c == 99 || c == 100 || c == 101 || c == 102 || c == 103 || c == 104 || c == 105 || c == 106 || c == 107 || c == 108 || c == 109 || c == 110 || c == 111;
    }
  }

  lemma EntriesOk7()
    ensures forall c | 112 <= c < 128 :: EntryOk(c)
  {
    forall c | 112 <= c < 128 ensures EntryOk(c) {
      assert c == 112 || c == 113 || c == 114 || c == 115 || c == 116 || c == 117 || c == 118 || c == 119 || c == 120 || c == 121 || c == 122 || c == 123 || c == 124 || c == 125 || c == 126 || c == 127;
    }
  }

  lemma EntriesOk8()
    ensures forall c | 128 <= c < 144 :: EntryOk(c)
  {
    forall c | 128 <= c < 144 ensures EntryOk(c) {
      assert c == 128 || c == 129 || c == 130 || c == 131 || c == 132 || c == 133 || c == 134 || c == 135 || c == 136 || c == 137 || c == 138 || c == 139 || c == 140 || c == 141 || c == 142 || c == 143;
    }
  }

  lemma EntriesOk9()
    ensures forall c | 144 <= c < 160 :: EntryOk(c)
  {
    forall c | 144 <= c < 160 ensures EntryOk(c) {
      assert c == 144 || c == 145 || c == 146 || c == 147 || c == 148 || c == 149 || c == 150 || c == 151 || c == 152 || c == 153 || c == 154 || c == 155 || c == 156 || c == 157 || c == 158 || c == 159;
    }
  }

  lemma EntriesOkA()
    ensures forall c | 160 <= c < 176 :: EntryOk(c)
  {
    forall c | 160 <= c < 176 ensures EntryOk(c) {
      assert c == 160 || c == 161 || c == 162 || c == 163 || c == 164 || c == 165 || c == 166 || c == 167 || c == 168 || c == 169 || c == 170 || c == 171 || c == 172 || c == 173 || c == 174 || c == 175;
    }
  }

  lemma EntriesOkB()
    ensures forall c | 176 <= c < 192 :: EntryOk(c)
  {
    forall c | 176 <= c < 192 ensures EntryOk(c) {
      assert c == 176 || c == 177 || c == 178 || c == 179 || c == 180 || c == 181 || c == 182 || c == 183 || c == 184 || c == 185 || c == 186 || c == 187 || c == 188 || c == 189 || c == 190 || c == 191;
    }
  }

  lemma EntriesOkC()
    ensures forall c | 192 <= c < 208 :: EntryOk(c)
  {
    forall c | 192 <= c < 208 ensures EntryOk(c) {
      assert c == 192 || c == 193 || c == 194 || c == 195 || c == 196 || c == 197 || c == 198 || c == 199 || c == 200 || c == 201 || c == 202 || c == 203 || c == 204 || c == 205 || c == 206 || c == 207;
    }
  }

  lemma EntriesOkD()
    ensures forall c | 208 <= c < 224 :: EntryOk(c)
  {
    forall c | 208 <= c < 224 ensures EntryOk(c) {
      assert c == 208 || c == 209 || c == 210 || c == 211 || c == 212 || c == 213 || c == 214 || c == 215 || c == 216 || c == 217 || c == 218 || c == 219 || c == 220 || c == 221 || c == 222 || c == 223;
    }
  }

  lemma EntriesOkE()
    ensures forall c | 224 <= c < 240 :: EntryOk(c)
  {
    forall c | 224 <= c < 240 ensures EntryOk(c) {
      assert c == 224 || c == 225 || c == 226 || c == 227 || c == 228 || c == 229 || c == 230 || c == 231 || c == 232 || c == 233 || c == 234 || c == 235 || c == 236 || c == 237 || c == 238 || c == 239;
    }
  }

  lemma EntriesOkF()
    ensures forall c | 240 <= c < 256 :: EntryOk(c)
  {
    forall c | 240 <= c < 256 ensures EntryOk(c) {
      assert c == 240 || c == 241 || c == 242 || c == 243 || c == 244 || c == 245 || c == 246 || c == 247 || c == 248 || c == 249 || c == 250 || c == 251 || c == 252 || c == 253 || c == 254 || c == 255;
    }
  }

  lemma TablesMatchRuns()
    ensures |Alphabet| == 58 && |ReverseAlphabet| == 256
    ensures forall i | 0 <= i < 58 :: IndexOk(i)
    ensures forall c | 0 <= c < 256 :: EntryOk(c)
  {
    IndicesOkDigits(); IndicesOkUpperAH(); IndicesOkUpperJN();
    IndicesOkUpperPZ(); IndicesOkLowerAK(); IndicesOkLowerMZ();
    EntriesOk0(); EntriesOk1(); EntriesOk2(); EntriesOk3();
    EntriesOk4(); EntriesOk5(); EntriesOk6(); EntriesOk7();
    EntriesOk8(); EntriesOk9(); EntriesOkA(); EntriesOkB();
    EntriesOkC(); EntriesOkD(); EntriesOkE(); EntriesOkF();
  }

  /** The alphabet holds exactly the characters of the runs. */
  lemma InAlphabetIffMember(c: char)
    ensures InAlphabet(c) <==> c in Alphabet
  {
    TablesMatchRuns();
    if InAlphabet(c) {
      assert IndexOk(DigitOf(c));
    }
    if c in Alphabet {
      var i :| 0 <= i < |Alphabet| && Alphabet[i] == c;
      assert IndexOk(i);
    }
  }

  /**
   * The reverse table is the inverse of the alphabet: each of the 58
   * characters looks up its own index, and every one of the other 198
   * entries is 255.
   */
  lemma ReverseAlphabetInverse()
    ensures |Alphabet| == 58 && |ReverseAlphabet| == 256
    ensures forall i | 0 <= i < 58 :: Alphabet[i] as int < 256 && ReverseAlphabet[Alphabet[i] as int] == i
    ensures forall c | 0 <= c < 256 :: ReverseAlphabet[c] == Invalid <==> (c as char) !in Alphabet
  {
    TablesMatchRuns();
    forall i | 0 <= i < 58 ensures Alphabet[i] as int < 256 && ReverseAlphabet[Alphabet[i] as int] == i {
      assert IndexOk(i);
      assert EntryOk(CharOf(i) as int);
      DigitOfCharOf(i);
    }
    forall c | 0 <= c < 256 ensures ReverseAlphabet[c] == Invalid <==> (c as char) !in Alphabet {
      assert EntryOk(c);
      InAlphabetIffMember(c as char);
    }
  }

  /**
   * The alphabet has 58 distinct characters, none of them a look-alike
   * ('0', 'O', 'I', 'l'), starting at '1' (digit zero) and ending at 'z'.
   */
  lemma AlphabetShape()
    ensures |Alphabet| == 58
    ensures forall i, j | 0 <= i < j < 58 :: Alphabet[i] != Alphabet[j]
    ensures '0' !in Alphabet && 'O' !in Alphabet && 'I' !in Alphabet && 'l' !in Alphabet
    ensures Alphabet[0] == '1' && Alphabet[57] == 'z'
  {
    TablesMatchRuns();
    forall i, j | 0 <= i < j < 58 ensures Alphabet[i] != Alphabet[j] {
      assert IndexOk(i) && IndexOk(j);
      DigitOfCharOf(i);
      DigitOfCharOf(j);
    }
    assert IndexOk(0) && IndexOk(57);
    InAlphabetIffMember('0');
    InAlphabetIffMember('O');
    InAlphabetIffMember('I');
    InAlphabetIffMember('l');
  }

  /**
   * What the decoder's two checks compute: a character is rejected when its
   * code is above 255 or its table entry is 255, which is exactly when it is
   * outside the alphabet; otherwise the entry is its digit value.
   */
  lemma LookupAgrees(c: char)
    ensures c as int > 255 ==> !InAlphabet(c)
    ensures c as int <= 255 ==>
      ReverseAlphabet[c as int] == if InAlphabet(c) then DigitOf(c) else Invalid
  {
    TablesMatchRuns();
    if c as int <= 255 {
      assert EntryOk(c as int);
      assert (c as int) as char == c;
    }
  }

  /** What the encoder's lookup computes: the character of a digit value. */
  lemma AlphabetAt(d: nat)
    requires d < 58
    ensures |Alphabet| == 58 && Alphabet[d] == CharOf(d)
  {
    TablesMatchRuns();
    assert IndexOk(d);
  }
}
