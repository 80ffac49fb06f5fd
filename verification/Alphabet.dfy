/** The alphabet of base64url (table 2 in section 5 of RFC 4648), and what it makes of the bits of a byte
    string: the tables of `Base64Url` are inverse to each other, and they are these. */
module Alphabet {
  import opened Base64Url

  const ALPHABET := "ABCDEFGHIJKLMNOPQRSTUVWXYZ" + "abcdefghijklmnopqrstuvwxyz" + "0123456789-_"

  lemma {:induction false} Upper(k: nat)
    requires k < 26
    ensures "ABCDEFGHIJKLMNOPQRSTUVWXYZ"[k] as int == k + 65
  {
  }

  lemma {:induction false} Lower(k: nat)
    requires k < 26
    ensures "abcdefghijklmnopqrstuvwxyz"[k] as int == k + 97
  {
  }

  lemma {:induction false} DigitOrSign(k: nat)
    requires k < 12
    ensures "0123456789-_"[k] as int == if k < 10 then k + 48 else if k == 10 then 45 else 95
  {
  }

  lemma {:induction false} SixtyFour()
    ensures |ALPHABET| == 64
  {
  }

  /** The code of the character at position `k`. */
  function Code(k: int): int {
    if k < 26 then k + 65 else if k < 52 then k + 71 else if k < 62 then k - 4 else if k == 62 then 45 else 95
  }

  lemma {:induction false} CodeOf(k: nat)
    requires k < 64
    ensures ALPHABET[k] as int == Code(k)
  {
    var upper, lower, rest := "ABCDEFGHIJKLMNOPQRSTUVWXYZ", "abcdefghijklmnopqrstuvwxyz", "0123456789-_";
    if k < 26 {
      Upper(k);
      assert (upper + lower + rest)[k] == upper[k];
    } else if k < 52 {
      Lower(k - 26);
      assert (upper + lower + rest)[k] == lower[k - 26];
    } else {
      DigitOrSign(k - 52);
    }
  }

  /** The encoder writes the character of the alphabet at the position that the sextet names. */
  lemma {:induction false} EncodesAlphabet(s: octet)
    requires s < 64
    ensures s as int < 64 && EncTable(s) as int == ALPHABET[s as int] as int
  {
    hide ALPHABET;
    CodeOf(s as int);
  }

  /** The decoder reads each character of the alphabet as its position, and accepts none but these and the
      characters '+' and '/' of the other alphabet, which stand for '-' and '_'. */
  lemma {:induction false} DecodesAlphabet(c: octet, k: nat)
    requires k < 64 && c as int == ALPHABET[k] as int
    ensures DecTable(c) as int == k
  {
    hide ALPHABET;
    CodeOf(k);
  }

  lemma {:induction false} ValidIff(c: octet)
    ensures Valid(c) <==> c == 43 || c == 47 || exists k :: 0 <= k < 64 && c as int == ALPHABET[k] as int
    ensures DecTable(43) == 62 && DecTable(47) == 63
  {
    SixtyFour();
    hide ALPHABET;
    if k :| 0 <= k < 64 && c as int == ALPHABET[k] as int {
      DecodesAlphabet(c, k);
    } else if Valid(c) && c != 43 && c != 47 {
      CanonicalInverts(c);
      EncodesAlphabet(DecTable(c));
    }
  }

  // ---------- Groups as numbers ----------

  function ThreeOctets(a: bv32, b: bv32, c: bv32): bv32 { 65536 * a + 256 * b + c }

  /** The digits of a number of 24 bits to the base 64, from the highest on. */
  function Digit64(n: bv32, j: nat): (d: bv32)
    requires j < 4
    ensures d < 64
  {
    if j == 0 then n / 262144 % 64 else if j == 1 then n / 4096 % 64 else if j == 2 then n / 64 % 64 else n / 1 % 64
  }

  /** The octets from `3 * q` on as one number, with zeros for those beyond the end. */
  function OctetsFrom(data: seq<octet>, q: nat): bv32
    requires 3 * q < |data|
  {
    ThreeOctets(data[3 * q], if 3 * q + 1 < |data| then data[3 * q + 1] else 0,
                if 3 * q + 2 < |data| then data[3 * q + 2] else 0)
  }

  lemma {:induction false} ShiftsDivide(n: bv32)
    ensures (n >> 18) & 0x3F == n / 262144 % 64 && (n >> 12) & 0x3F == n / 4096 % 64
    ensures (n >> 6) & 0x3F == n / 64 % 64 && n & 0x3F == n / 1 % 64
  {
  }

  lemma {:induction false} ShiftsMultiply(a: octet, b: octet, c: octet)
    ensures (a << 16) + (b << 8) + c == 65536 * (a as bv32) + 256 * (b as bv32) + (c as bv32)
  {
  }

  lemma {:induction false} SextetsAre(a: octet, b: octet, c: octet)
    ensures var n, t := ThreeOctets(a, b, c), Triple(a, b, c);
            && Sextet1(t) == Digit64(n, 0) && Sextet2(t) == Digit64(n, 1)
            && Sextet3(t) == Digit64(n, 2) && Sextet4(t) == Digit64(n, 3)
  {
    ShiftsMultiply(a, b, c);
    ShiftsDivide(Triple(a, b, c));
    assert Triple(a, b, c) == ThreeOctets(a, b, c);
    hide Triple, ThreeOctets;
  }

  lemma {:induction false} QuadIs(a: octet, b: octet, c: octet, j: nat)
    requires j < 4
    ensures var d := Digit64(ThreeOctets(a, b, c), j);
            0 <= d as int < 64 && Quad(a, b, c)[j] as int == ALPHABET[d as int] as int
  {
    SextetsAre(a, b, c);
    hide ALPHABET, EncTable, Triple, Sextet1, Sextet2, Sextet3, Sextet4, Digit64, ThreeOctets;
    var d := Digit64(ThreeOctets(a, b, c), j);
    EncodesAlphabet(d);
  }

  /** What is encoded: three octets are a number of 24 bits, the last ones filled up with zeros, and each
      character is the one that the alphabet has at the position given by its digit to the base 64. */
  lemma {:induction false} CharactersAre(data: seq<octet>, q: nat, j: nat)
    requires 3 * q < |data| && j < 4 && 4 * q + j < |Encode(data)|
    ensures var d := Digit64(OctetsFrom(data, q), j);
            0 <= d as int < 64 && Encode(data)[4 * q + j] as int == ALPHABET[d as int] as int
    decreases q
  {
    hide ALPHABET, Quad, Digit64, ThreeOctets;
    if q == 0 {
      QuadIs(data[0], if |data| > 1 then data[1] else 0, if |data| > 2 then data[2] else 0, j);
    } else {
      CharactersAre(data[3..], q - 1, j);
    }
  }

  function FourDigits(one: bv32, two: bv32, three: bv32, four: bv32): bv32 {
    262144 * one + 4096 * two + 64 * three + four
  }

  /** The digits of a number of 24 bits to the base 256, from the highest on. */
  function Digit256(n: bv32, j: nat): bv32
    requires j < 3
  {
    if j == 0 then n / 65536 % 256 else if j == 1 then n / 256 % 256 else n / 1 % 256
  }

  /** The positions of the characters from `4 * q` on as one number, with zeros for those beyond the end. */
  function CharactersFrom(str: seq<octet>, q: nat): bv32
    requires 4 * q + 1 < |str|
  {
    FourDigits(DecTable(str[4 * q]), DecTable(str[4 * q + 1]),
               if 4 * q + 2 < |str| then DecTable(str[4 * q + 2]) else 0,
               if 4 * q + 3 < |str| then DecTable(str[4 * q + 3]) else 0)
  }

  lemma {:induction false} BytesDivide(one: bv32, two: bv32, three: bv32, four: bv32)
    requires one < 64 && two < 64 && three < 64 && four < 64
    ensures var n := 262144 * one + 4096 * two + 64 * three + four;
            && ((one << 2) | (two >> 4)) & 0xFF == n / 65536 % 256
            && ((two << 4) | (three >> 2)) & 0xFF == n / 256 % 256
            && ((three << 6) | four) & 0xFF == n / 1 % 256
  {
  }

  lemma {:induction false} OctetsOf(one: octet, two: octet, three: octet, four: octet)
    requires one < 64 && two < 64 && three < 64 && four < 64
    ensures var n := FourDigits(one, two, three, four);
            && First(one, two) == Digit256(n, 0) && Second(two, three) == Digit256(n, 1)
            && Third(three, four) == Digit256(n, 2)
  {
    BytesDivide(one, two, three, four);
  }

  /** What is decoded: the positions of four characters are the digits of a number of 24 bits, and the octets
      are its digits to the base 256. */
  lemma {:induction false} OctetsAre(str: seq<octet>, q: nat, j: nat)
    requires AllValid(str) && 4 * q + 1 < |str| && j < 3 && 3 * q + j < |Octets(str)|
    ensures Octets(str)[3 * q + j] == Digit256(CharactersFrom(str, q), j)
    decreases q
  {
    hide DecTable, First, Second, Third, Digit256, FourDigits;
    if q == 0 {
      OctetsOf(DecTable(str[0]), DecTable(str[1]), if |str| > 2 then DecTable(str[2]) else 0,
               if |str| > 3 then DecTable(str[3]) else 0);
    } else {
      OctetsAre(str[4..], q - 1, j);
    }
  }
}
