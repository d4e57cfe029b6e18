/** The base64 text said with the alphabet written out and the 24-bit number of each group, with known examples. */
module Base64Text {
  import opened Bytes
  import opened Base64

  /** Table 1 of RFC 4648: the capital letters, the small ones, the digits, '+' and '/'. */
  lemma AlphabetLaw(u: nat)
    requires u < 63
    ensures EncChar(0) == 'A' && EncChar(26) == 'a' && EncChar(52) == '0' && EncChar(62) == '+' && EncChar(63) == '/'
    ensures EncChar(25) == 'Z' && EncChar(51) == 'z' && EncChar(61) == '9'
    ensures u !in {25, 51, 61, 62} ==> EncChar(u + 1) as int == EncChar(u) as int + 1
  {
  }

  /** Three bytes as one number. */
  function GroupNumber(b0: byte, b1: byte, b2: byte): (n: nat)
    ensures n < 0x100_0000
  {
    0x1_0000 * b0 + 0x100 * b1 + b2
  }

  /** The four values are the digits of that number to the base 64, the highest first. */
  lemma GroupDigits(b0: byte, b1: byte, b2: byte)
    ensures var n := GroupNumber(b0, b1, b2);
      && Sextet(b0, b1, b2, 0) == n / 0x4_0000 && Sextet(b0, b1, b2, 1) == n / 0x1000 % 64
      && Sextet(b0, b1, b2, 2) == n / 64 % 64 && Sextet(b0, b1, b2, 3) == n % 64
  {
    var n := GroupNumber(b0, b1, b2);
    var u0, u1, u2, u3 := Sextet(b0, b1, b2, 0), Sextet(b0, b1, b2, 1), Sextet(b0, b1, b2, 2), Sextet(b0, b1, b2, 3);
    assert n == 0x4_0000 * u0 + 0x1000 * u1 + 64 * u2 + u3;
    Low(n, 0x1000 * u0 + 64 * u1 + u2, 64, u3);
    Low(0x1000 * u0 + 64 * u1 + u2, 64 * u0 + u1, 64, u2);
    Low(64 * u0 + u1, u0, 64, u1);
    assert n / 0x1000 == 64 * u0 + u1 && n / 0x4_0000 == u0;
  }

  function Digit(n: nat, i: nat): (d: nat)
    requires i < 4
    ensures d < 64
  {
    if i == 0 then n / 0x4_0000 % 64 else if i == 1 then n / 0x1000 % 64 else if i == 2 then n / 64 % 64 else n % 64
  }

  /** Byte `j`, or 0 behind the end. */
  function ByteOrZero(data: seq<byte>, j: nat): byte {
    if j < |data| then data[j] else 0
  }

  lemma SextetIsDigit(b0: byte, b1: byte, b2: byte, i: nat)
    requires i < 4
    ensures Sextet(b0, b1, b2, i) == Digit(GroupNumber(b0, b1, b2), i)
  {
    GroupDigits(b0, b1, b2);
    if i == 0 {
      assert Sextet(b0, b1, b2, 0) < 64;
    }
  }

  /** Character `i` of group `g` stands for that digit, or is '=' when it would hold no bit of the data. */
  lemma TextLaw(data: seq<byte>, g: nat, i: nat)
    requires i < 4 && 3 * g < |data|
    ensures |Encoded(data)| == (|data| + 2) / 3 * 4 && 4 * g + i < |Encoded(data)|
    ensures var n := GroupNumber(data[3 * g], ByteOrZero(data, 3 * g + 1), ByteOrZero(data, 3 * g + 2));
      Encoded(data)[4 * g + i] == if 24 * g + 6 * i < 8 * |data| then EncChar(Digit(n, i)) else '='
  {
    assert g < (|data| + 2) / 3;
    EncodedChar(data, g, i);
    SextetIsDigit(data[3 * g], ByteOrZero(data, 3 * g + 1), ByteOrZero(data, 3 * g + 2), i);
  }

  /** "f", "fo" and "foo" of the test vectors in section 10 of RFC 4648. */
  lemma TestVectors()
    ensures Encoded([]) == "" && Encoded([0x66]) == "Zg==" && Encoded([0x66, 0x6f]) == "Zm8="
      && Encoded([0x66, 0x6f, 0x6f]) == "Zm9v"
  {
    OneByte();
    TwoBytes();
    ThreeBytes();
  }

  lemma OneByte()
    ensures Encoded([0x66]) == "Zg=="
  {
    assert GroupNumber(0x66, 0, 0) == 0x66_0000;
    assert Digit(0x66_0000, 0) == 25 && Digit(0x66_0000, 1) == 32;
    FourCharacters([0x66], "Zg==");
  }

  lemma TwoBytes()
    ensures Encoded([0x66, 0x6f]) == "Zm8="
  {
    assert GroupNumber(0x66, 0x6f, 0) == 0x66_6f00;
    assert Digit(0x66_6f00, 0) == 25 && Digit(0x66_6f00, 1) == 38 && Digit(0x66_6f00, 2) == 60;
    FourCharacters([0x66, 0x6f], "Zm8=");
  }

  lemma ThreeBytes()
    ensures Encoded([0x66, 0x6f, 0x6f]) == "Zm9v"
  {
    assert GroupNumber(0x66, 0x6f, 0x6f) == 0x66_6f6f;
    assert Digit(0x66_6f6f, 0) == 25 && Digit(0x66_6f6f, 1) == 38;
    assert Digit(0x66_6f6f, 2) == 61 && Digit(0x66_6f6f, 3) == 47;
    FourCharacters([0x66, 0x6f, 0x6f], "Zm9v");
  }

  lemma FourCharacters(data: seq<byte>, t: string)
    requires 0 < |data| <= 3 && |t| == 4
    requires var n := GroupNumber(data[0], ByteOrZero(data, 1), ByteOrZero(data, 2));
      forall i :: 0 <= i < 4 ==> t[i] == if 6 * i < 8 * |data| then EncChar(Digit(n, i)) else '='
    ensures Encoded(data) == t
  {
    forall i: nat | i < 4
      ensures Encoded(data)[i] == t[i]
    {
      TextLaw(data, 0, i);
    }
  }
}
