/**
  `Base64`: groups of three bytes as four characters of the alphabet, with '=' padding at the end (section 4 of RFC
  4648).
 */
module Base64 {
  import opened Options
  import opened Bytes

  // ----- the two tables -----

  /** `c_encTable`. */
  function EncChar(u: nat): (c: char)
    requires u < 64
    ensures c != '='
  {
    if u < 26 then ('A' as int + u) as char
    else if u < 52 then ('a' as int + (u - 26)) as char
    else if u < 62 then ('0' as int + (u - 52)) as char
    else if u == 62 then '+'
    else '/'
  }

  /** `c_decTable`: 64 marks a character outside the alphabet. */
  function DecChar(c: char): (u: nat)
    ensures u <= 64
  {
    if 'A' <= c <= 'Z' then c as int - 'A' as int
    else if 'a' <= c <= 'z' then c as int - 'a' as int + 26
    else if '0' <= c <= '9' then c as int - '0' as int + 52
    else if c == '+' then 62
    else if c == '/' then 63
    else 64
  }

  lemma TableInverse(u: nat)
    requires u < 64
    ensures DecChar(EncChar(u)) == u
  {
  }

  lemma TableInverseBack(c: char)
    requires DecChar(c) < 64
    ensures EncChar(DecChar(c)) == c
  {
  }

  // ----- one group: three bytes and four six-bit values -----

  function Sextet(b0: byte, b1: byte, b2: byte, i: nat): (u: nat)
    requires i < 4
    ensures u < 64
  {
    if i == 0 then b0 / 4
    else if i == 1 then b0 % 4 * 16 + b1 / 16
    else if i == 2 then b1 % 16 * 4 + b2 / 64
    else b2 % 64
  }

  function Octet0(u0: nat, u1: nat): byte
    requires u0 < 64 && u1 < 64
  {
    u0 * 4 + u1 / 16
  }

  function Octet1(u1: nat, u2: nat): byte
    requires u2 < 64
  {
    u1 * 16 % 0x100 + u2 / 4
  }

  function Octet2(u2: nat, u3: nat): byte
    requires u3 < 64
  {
    u2 * 64 % 0x100 + u3
  }

  lemma MulLe(a: nat, b: nat, m: nat)
    requires a <= b
    ensures a * m <= b * m
  {
  }

  /** Quotient and rest are unique. */
  lemma Low(a: nat, q: nat, m: nat, c: nat)
    requires a == q * m + c && c < m
    ensures a % m == c && a / m == q
  {
    var q', c' := a / m, a % m;
    assert a == q' * m + c';
    if q' < q {
      MulLe(q' + 1, q, m);
    } else if q' > q {
      MulLe(q + 1, q', m);
    }
  }

  lemma GroupInverse(b0: byte, b1: byte, b2: byte)
    ensures Octet0(Sextet(b0, b1, b2, 0), Sextet(b0, b1, b2, 1)) == b0
    ensures Octet1(Sextet(b0, b1, b2, 1), Sextet(b0, b1, b2, 2)) == b1
    ensures Octet2(Sextet(b0, b1, b2, 2), Sextet(b0, b1, b2, 3)) == b2
  {
    Low(b0 % 4 * 16 + b1 / 16, b0 % 4, 16, b1 / 16);
    Low((b0 % 4 * 16 + b1 / 16) * 16, b0 % 4, 0x100, b1 / 16 * 16);
    Low(b1 % 16 * 4 + b2 / 64, b1 % 16, 4, b2 / 64);
    Low((b1 % 16 * 4 + b2 / 64) * 64, b1 % 16, 0x100, b2 / 64 * 64);
  }

  lemma GroupInverseBack(u0: nat, u1: nat, u2: nat, u3: nat)
    requires u0 < 64 && u1 < 64 && u2 < 64 && u3 < 64
    ensures var b0, b1, b2 := Octet0(u0, u1), Octet1(u1, u2), Octet2(u2, u3);
      Sextet(b0, b1, b2, 0) == u0 && Sextet(b0, b1, b2, 1) == u1 && Sextet(b0, b1, b2, 2) == u2
        && Sextet(b0, b1, b2, 3) == u3
  {
    Low(u1 * 16, u1 / 16, 0x100, u1 % 16 * 16);
    Low(u2 * 64, u2 / 4, 0x100, u2 % 4 * 64);
    Low(u0 * 4 + u1 / 16, u0, 4, u1 / 16);
    Low(u1 % 16 * 16 + u2 / 4, u1 % 16, 16, u2 / 4);
    Low(u2 % 4 * 64 + u3, u2 % 4, 64, u3);
  }

  // ----- the text of some bytes -----

  /** Bytes behind the end count as 0. */
  function ByteAt(data: seq<byte>, j: nat): byte {
    if j < |data| then data[j] else 0
  }

  /** Six-bit value `i` of group `g`. */
  function SextetAt(data: seq<byte>, g: nat, i: nat): (u: nat)
    requires i < 4
    ensures u < 64
  {
    Sextet(ByteAt(data, 3 * g), ByteAt(data, 3 * g + 1), ByteAt(data, 3 * g + 2), i)
  }

  /** Character `i` of group `g`: '=' where no bit of a byte falls. */
  function CharAt(data: seq<byte>, g: nat, i: nat): char
    requires i < 4
  {
    if 3 * g + i > |data| then '=' else EncChar(SextetAt(data, g, i))
  }

  function CapacityForEncode(n: nat): nat {
    (n + 2) / 3 * 4
  }

  function CapacityForDecode(n: nat): nat {
    n / 4 * 3 + n % 4 * 2 / 3
  }

  /** The text of the first `g` groups. */
  function EncodedGroups(data: seq<byte>, g: nat): (t: string)
    ensures |t| == 4 * g
  {
    if g == 0 then ""
    else
      var f := g - 1;
      EncodedGroups(data, f) + [CharAt(data, f, 0), CharAt(data, f, 1), CharAt(data, f, 2), CharAt(data, f, 3)]
  }

  function Encoded(data: seq<byte>): (t: string)
    ensures |t| == CapacityForEncode(|data|)
  {
    EncodedGroups(data, (|data| + 2) / 3)
  }

  lemma {:induction false} EncodedGroupsChar(data: seq<byte>, n: nat, g: nat, i: nat)
    requires i < 4 && g < n
    ensures EncodedGroups(data, n)[4 * g + i] == CharAt(data, g, i)
  {
    if g < n - 1 {
      EncodedGroupsChar(data, n - 1, g, i);
    }
  }

  lemma EncodedChar(data: seq<byte>, g: nat, i: nat)
    requires i < 4 && 4 * g + i < CapacityForEncode(|data|)
    ensures Encoded(data)[4 * g + i] == CharAt(data, g, i)
  {
    EncodedGroupsChar(data, (|data| + 2) / 3, g, i);
  }

  // ----- the bytes of a text -----

  predicate InTable(t: string, i: nat)
    requires i < |t|
  {
    DecChar(t[i]) < 64
  }

  /** Alphabet characters, with one '=' or, behind a character without stray bits, two '=' at the end. */
  ghost predicate WellPadded(t: string) {
    && |t| % 4 == 0 && |t| > 0
    && (forall i :: 0 <= i < |t| - 2 ==> InTable(t, i))
    && (InTable(t, |t| - 2) || (t[|t| - 2] == '=' && t[|t| - 1] == '=' && DecChar(t[|t| - 3]) % 16 == 0))
    && (InTable(t, |t| - 1) || t[|t| - 1] == '=')
  }

  /** How many '=' the text ends in. */
  function Padding(t: string): (n: nat)
    requires |t| >= 4
    ensures n <= 2
  {
    if t[|t| - 2] == '=' then 2 else if t[|t| - 1] == '=' then 1 else 0
  }

  /** Three bytes a group, less one for each '='. */
  function DecodedLength(t: string): (n: nat)
    requires |t| >= 4
  {
    |t| / 4 * 3 - Padding(t)
  }

  /** Byte `r` of group `g`. */
  function OctetAt(t: string, g: nat, r: nat): byte
    requires r < 3 && 4 * g + r + 1 < |t| && InTable(t, 4 * g + r) && InTable(t, 4 * g + r + 1)
  {
    if r == 0 then Octet0(DecChar(t[4 * g]), DecChar(t[4 * g + 1]))
    else if r == 1 then Octet1(DecChar(t[4 * g + 1]), DecChar(t[4 * g + 2]))
    else Octet2(DecChar(t[4 * g + 2]), DecChar(t[4 * g + 3]))
  }

  /** The two characters a byte is made of are no padding. */
  lemma CharsOfByte(t: string, g: nat, r: nat)
    requires WellPadded(t) && r < 3 && 3 * g + r < DecodedLength(t)
    ensures 4 * g + r + 1 < |t| && InTable(t, 4 * g + r) && InTable(t, 4 * g + r + 1)
  {
    assert |t| == |t| / 4 * 4;
    assert g < |t| / 4;
    assert 4 * g + r + 1 <= |t| - 1 - Padding(t);
  }

  ghost function DecodedByte(t: string, j: nat): byte
    requires WellPadded(t) && j < DecodedLength(t)
  {
    CharsOfByte(t, j / 3, j % 3);
    OctetAt(t, j / 3, j % 3)
  }

  /** The first `n` bytes. */
  ghost function DecodedPrefix(t: string, n: nat): (data: seq<byte>)
    requires WellPadded(t) && n <= DecodedLength(t)
    ensures |data| == n
  {
    if n == 0 then [] else DecodedPrefix(t, n - 1) + [DecodedByte(t, n - 1)]
  }

  lemma {:induction false} DecodedPrefixAt(t: string, n: nat, j: nat)
    requires WellPadded(t) && j < n <= DecodedLength(t)
    ensures DecodedPrefix(t, n)[j] == DecodedByte(t, j)
  {
    if j < n - 1 {
      DecodedPrefixAt(t, n - 1, j);
    }
  }

  ghost function DecodedBytes(t: string): (data: seq<byte>)
    requires WellPadded(t)
    ensures |data| == DecodedLength(t)
  {
    DecodedPrefix(t, DecodedLength(t))
  }

  /** What the text stands for; nothing when it is not accepted. */
  ghost function Decoded(t: string): Option<seq<byte>> {
    if WellPadded(t) then Some(DecodedBytes(t)) else None
  }

  lemma DecodedOctet(t: string, g: nat, r: nat)
    requires WellPadded(t) && r < 3 && 3 * g + r < DecodedLength(t)
    ensures 4 * g + r + 1 < |t| && InTable(t, 4 * g + r) && InTable(t, 4 * g + r + 1)
    ensures DecodedBytes(t)[3 * g + r] == OctetAt(t, g, r)
  {
    CharsOfByte(t, g, r);
    Low(3 * g + r, g, 3, r);
    DecodedPrefixAt(t, DecodedLength(t), 3 * g + r);
  }

  // ----- decode after encode -----

  lemma TextValue(data: seq<byte>, g: nat, i: nat)
    requires i < 4 && 4 * g + i < CapacityForEncode(|data|)
    ensures 3 * g + i <= |data| ==>
      DecChar(Encoded(data)[4 * g + i]) == SextetAt(data, g, i) && Encoded(data)[4 * g + i] != '='
    ensures 3 * g + i > |data| ==> Encoded(data)[4 * g + i] == '='
  {
    EncodedChar(data, g, i);
    TableInverse(SextetAt(data, g, i));
  }

  lemma TextInTable(data: seq<byte>, k: nat)
    requires k < CapacityForEncode(|data|)
    ensures k / 4 * 3 + k % 4 <= |data| ==> InTable(Encoded(data), k)
    ensures k / 4 * 3 + k % 4 > |data| ==> Encoded(data)[k] == '='
  {
    TextValue(data, k / 4, k % 4);
  }

  /** The text of any bytes is accepted, and has the right number of '='. */
  lemma EncodedIsPadded(data: seq<byte>)
    requires data != []
    ensures WellPadded(Encoded(data)) && DecodedLength(Encoded(data)) == |data|
  {
    var t, g := Encoded(data), (|data| - 1) / 3;
    assert |t| == 4 * g + 4;
    FrontInTable(data);
    TextValue(data, g, 1);
    TextValue(data, g, 2);
    TextValue(data, g, 3);
    if |data| == 3 * g + 1 {
      NoStrayBits(data, g);
    }
  }

  /** Padding stands only in the last two places. */
  lemma FrontInTable(data: seq<byte>)
    requires data != []
    ensures forall k: nat :: k < |Encoded(data)| - 2 ==> InTable(Encoded(data), k)
  {
    forall k: nat | k < |Encoded(data)| - 2
      ensures InTable(Encoded(data), k)
    {
      TextInTable(data, k);
    }
  }

  lemma NoStrayBits(data: seq<byte>, g: nat)
    requires |data| == 3 * g + 1
    ensures SextetAt(data, g, 1) % 16 == 0
  {
    Low(data[3 * g] % 4 * 16, data[3 * g] % 4, 16, 0);
  }

  /** Two neighbouring characters that carry the sextets of a group give back the byte between them. */
  lemma OctetOfSextets(t: string, data: seq<byte>, g: nat, r: nat)
    requires r < 3 && 3 * g + r < |data| && 4 * g + r + 1 < |t|
    requires DecChar(t[4 * g + r]) == SextetAt(data, g, r) && DecChar(t[4 * g + r + 1]) == SextetAt(data, g, r + 1)
    ensures OctetAt(t, g, r) == data[3 * g + r]
  {
    GroupInverse(ByteAt(data, 3 * g), ByteAt(data, 3 * g + 1), ByteAt(data, 3 * g + 2));
    if r == 0 {
    } else if r == 1 {
    } else {
      assert r == 2;
    }
  }

  lemma OctetOfText(data: seq<byte>, g: nat, r: nat)
    requires r < 3 && 3 * g + r < |data| && WellPadded(Encoded(data)) && DecodedLength(Encoded(data)) == |data|
    ensures DecodedBytes(Encoded(data))[3 * g + r] == data[3 * g + r]
  {
    var t := Encoded(data);
    TextValue(data, g, r);
    TextValue(data, g, r + 1);
    OctetOfSextets(t, data, g, r);
    DecodedOctet(t, g, r);
  }

  lemma SplitIndex(j: nat) returns (g: nat, r: nat)
    ensures j == 3 * g + r && r < 3
  {
    g, r := j / 3, j % 3;
  }

  lemma ByteOfText(data: seq<byte>, j: nat)
    requires j < |data| && WellPadded(Encoded(data)) && DecodedLength(Encoded(data)) == |data|
    ensures DecodedBytes(Encoded(data))[j] == data[j]
  {
    var g, r := SplitIndex(j);
    OctetOfText(data, g, r);
  }

  /** Decoding gives back every non-empty byte string. */
  lemma DecodeEncode(data: seq<byte>)
    requires data != []
    ensures Decoded(Encoded(data)) == Some(data)
  {
    EncodedIsPadded(data);
    var back := DecodedBytes(Encoded(data));
    forall j: nat | j < |data|
      ensures back[j] == data[j]
    {
      ByteOfText(data, j);
    }
    assert back == data;
  }

  /** The encoded length is the promised one, and the room promised for decoding it suffices. */
  lemma Capacities(data: seq<byte>)
    requires data != []
    ensures |Encoded(data)| == CapacityForEncode(|data|)
      && |data| == DecodedLength(Encoded(data)) <= CapacityForDecode(|Encoded(data)|) <= |data| + 2
  {
    EncodedIsPadded(data);
  }

  // ----- encode after decode -----

  /** A text that ends in exactly one '=' leaves the two low bits of the character before it unused. */
  predicate TailBitsClear(t: string)
    requires |t| >= 4
  {
    Padding(t) == 1 && t[|t| - 1] == '=' ==> DecChar(t[|t| - 2]) % 4 == 0
  }

  /**
    What encoding the decoded bytes writes in place of character `k`: in front of a single '=' the stray bits are gone.
   */
  function Restored(t: string, k: nat): char
    requires |t| >= 4 && k < |t|
  {
    var c := t[k];
    if c != '=' && k == |t| - 2 && Padding(t) == 1 && DecChar(c) < 64 then EncChar(DecChar(c) - DecChar(c) % 4) else c
  }

  /** A group of bytes made from four six-bit values holds just those values. */
  lemma SextetsOfOctets(data: seq<byte>, g: nat, u0: nat, u1: nat, u2: nat, u3: nat)
    requires u0 < 64 && u1 < 64 && u2 < 64 && u3 < 64
    requires ByteAt(data, 3 * g) == Octet0(u0, u1)
    requires ByteAt(data, 3 * g + 1) == Octet1(u1, u2)
    requires ByteAt(data, 3 * g + 2) == Octet2(u2, u3)
    ensures SextetAt(data, g, 0) == u0 && SextetAt(data, g, 1) == u1
    ensures SextetAt(data, g, 2) == u2 && SextetAt(data, g, 3) == u3
  {
    GroupInverseBack(u0, u1, u2, u3);
  }

  lemma CharOfSextet(data: seq<byte>, t: string, g: nat, i: nat)
    requires i < 4 && 4 * g + i < |t| && InTable(t, 4 * g + i)
    requires 3 * g + i <= |data| && SextetAt(data, g, i) == DecChar(t[4 * g + i])
    ensures CharAt(data, g, i) == t[4 * g + i] != '='
  {
    TableInverseBack(t[4 * g + i]);
  }

  lemma WholeGroup(t: string, data: seq<byte>, g: nat, i: nat)
    requires i < 4 && 4 * g + 3 < |t| && 3 * g + 2 < |data|
    requires InTable(t, 4 * g) && InTable(t, 4 * g + 1) && InTable(t, 4 * g + 2) && InTable(t, 4 * g + 3)
    requires data[3 * g] == OctetAt(t, g, 0) && data[3 * g + 1] == OctetAt(t, g, 1)
      && data[3 * g + 2] == OctetAt(t, g, 2)
    ensures CharAt(data, g, i) == t[4 * g + i] != '='
  {
    SextetsOfOctets(data, g, DecChar(t[4 * g]), DecChar(t[4 * g + 1]), DecChar(t[4 * g + 2]), DecChar(t[4 * g + 3]));
    if i == 0 {
      CharOfSextet(data, t, g, 0);
    } else if i == 1 {
      CharOfSextet(data, t, g, 1);
    } else if i == 2 {
      CharOfSextet(data, t, g, 2);
    } else {
      CharOfSextet(data, t, g, 3);
    }
  }

  lemma WholeGroupBack(t: string, g: nat, i: nat)
    requires WellPadded(t) && i < 4 && 3 * g + 2 < DecodedLength(t)
    ensures 4 * g + 3 < |t| && CharAt(DecodedBytes(t), g, i) == Restored(t, 4 * g + i)
  {
    DecodedOctet(t, g, 0);
    DecodedOctet(t, g, 1);
    DecodedOctet(t, g, 2);
    WholeGroup(t, DecodedBytes(t), g, i);
    NoRestoring(t, g, i);
  }

  lemma NoRestoring(t: string, g: nat, i: nat)
    requires |t| >= 4 && |t| % 4 == 0 && i < 4 && 4 * g + i < |t| && (3 * g + 2 < DecodedLength(t) || i < 2)
    ensures Restored(t, 4 * g + i) == t[4 * g + i]
  {
    assert |t| == |t| / 4 * 4;
  }

  lemma FirstTwo(data: seq<byte>, t: string, g: nat, i: nat)
    requires i < 2 && |t| == 4 * g + 4 && 3 * g + 1 <= |data| && InTable(t, 4 * g) && InTable(t, 4 * g + 1)
    requires SextetAt(data, g, 0) == DecChar(t[4 * g]) && SextetAt(data, g, 1) == DecChar(t[4 * g + 1])
    ensures CharAt(data, g, i) == Restored(t, 4 * g + i)
  {
    if i == 0 {
      CharOfSextet(data, t, g, 0);
    } else {
      CharOfSextet(data, t, g, 1);
    }
  }

  lemma PaddingBack(data: seq<byte>, t: string, g: nat, i: nat)
    requires i < 4 && 4 * g + i < |t| && |data| < 3 * g + i && |t| >= 4 && t[4 * g + i] == '='
    ensures CharAt(data, g, i) == Restored(t, 4 * g + i)
  {
  }

  lemma OneByteGroup(t: string, data: seq<byte>, g: nat, i: nat)
    requires i < 4 && |t| == 4 * g + 4 && |data| == 3 * g + 1 && t[4 * g + 2] == '=' && t[4 * g + 3] == '='
    requires InTable(t, 4 * g) && InTable(t, 4 * g + 1)
    requires DecChar(t[4 * g + 1]) % 16 == 0 && data[3 * g] == OctetAt(t, g, 0)
    ensures CharAt(data, g, i) == Restored(t, 4 * g + i)
  {
    if i < 2 {
      StrayBits(DecChar(t[4 * g + 1]));
      SextetsOfOctets(data, g, DecChar(t[4 * g]), DecChar(t[4 * g + 1]), 0, 0);
      FirstTwo(data, t, g, i);
    } else if i == 2 {
      PaddingBack(data, t, g, 2);
    } else {
      PaddingBack(data, t, g, 3);
    }
  }

  lemma OneByteBack(t: string, g: nat, i: nat)
    requires WellPadded(t) && i < 4 && |t| == 4 * g + 4 && Padding(t) == 2
    ensures CharAt(DecodedBytes(t), g, i) == Restored(t, 4 * g + i)
  {
    DecodedOctet(t, g, 0);
    OneByteGroup(t, DecodedBytes(t), g, i);
  }

  lemma StrayBits(u: nat)
    requires u < 64
    ensures u % 16 == 0 ==> Octet1(u, 0) == 0
    ensures Octet1(u, 0) == u % 16 * 16
    ensures Octet2(u - u % 4, 0) == 0
  {
    Low(u * 16, u / 16, 0x100, u % 16 * 16);
    Low((u - u % 4) * 64, u / 4, 0x100, 0);
  }

  lemma TwoByteGroup(t: string, data: seq<byte>, g: nat, i: nat)
    requires i < 4 && |t| == 4 * g + 4 && |data| == 3 * g + 2 && Padding(t) == 1 && t[4 * g + 3] == '='
    requires InTable(t, 4 * g) && InTable(t, 4 * g + 1) && InTable(t, 4 * g + 2)
    requires data[3 * g] == OctetAt(t, g, 0) && data[3 * g + 1] == OctetAt(t, g, 1)
    ensures CharAt(data, g, i) == Restored(t, 4 * g + i)
  {
    var u2 := DecChar(t[4 * g + 2]);
    StrayBits(u2);
    SextetsOfOctets(data, g, DecChar(t[4 * g]), DecChar(t[4 * g + 1]), u2 - u2 % 4, 0);
    if i < 2 {
      FirstTwo(data, t, g, i);
    }
  }

  lemma TwoBytesBack(t: string, g: nat, i: nat)
    requires WellPadded(t) && i < 4 && |t| == 4 * g + 4 && Padding(t) == 1
    ensures CharAt(DecodedBytes(t), g, i) == Restored(t, 4 * g + i)
  {
    DecodedOctet(t, g, 0);
    DecodedOctet(t, g, 1);
    TwoByteGroup(t, DecodedBytes(t), g, i);
  }

  lemma SplitInFours(k: nat) returns (g: nat, i: nat)
    ensures k == 4 * g + i && i < 4
  {
    g, i := k / 4, k % 4;
  }

  lemma CharBack(t: string, g: nat, i: nat)
    requires WellPadded(t) && i < 4 && 4 * g + i < |t|
    ensures CharAt(DecodedBytes(t), g, i) == Restored(t, 4 * g + i)
  {
    assert |t| == |t| / 4 * 4;
    if 4 * g + 4 < |t| || Padding(t) == 0 {
      WholeGroupBack(t, g, i);
    } else if Padding(t) == 1 {
      TwoBytesBack(t, g, i);
    } else {
      OneByteBack(t, g, i);
    }
  }

  lemma TextBack(t: string, k: nat)
    requires WellPadded(t) && k < |t|
    ensures |Encoded(DecodedBytes(t))| == |t| && Encoded(DecodedBytes(t))[k] == Restored(t, k)
  {
    var g, i := SplitInFours(k);
    LengthBack(t);
    CharBack(t, g, i);
    EncodedChar(DecodedBytes(t), g, i);
  }

  lemma LengthBack(t: string)
    requires WellPadded(t)
    ensures CapacityForEncode(DecodedLength(t)) == |t|
  {
    var g := |t| / 4;
    assert |t| == 4 * g && DecodedLength(t) == 3 * g - Padding(t);
    assert (3 * g - Padding(t) + 2) / 3 == g;
  }

  lemma RestoredSame(t: string, k: nat)
    requires WellPadded(t) && k < |t|
    ensures Restored(t, k) == t[k] <==> k != |t| - 2 || TailBitsClear(t)
  {
    if k == |t| - 2 && Padding(t) == 1 {
      assert InTable(t, k);
      var u := DecChar(t[k]);
      TableInverseBack(t[k]);
      TableInverse(u);
      TableInverse(u - u % 4);
    }
  }

  /**
    Encoding gives back an accepted text exactly when its one-'=' tail leaves no unused bit set: the decoder does not
    check those.
   */
  lemma EncodeDecodeIff(t: string)
    requires Decoded(t).Some?
    ensures Encoded(DecodedBytes(t)) == t <==> TailBitsClear(t)
  {
    var back := Encoded(DecodedBytes(t));
    TextBack(t, 0);
    forall k: nat | k < |t|
      ensures back[k] == t[k] <==> k != |t| - 2 || TailBitsClear(t)
    {
      TextBack(t, k);
      RestoredSame(t, k);
    }
    assert back[|t| - 2] == t[|t| - 2] <==> TailBitsClear(t);
    if TailBitsClear(t) {
      assert forall k: nat :: k < |t| ==> back[k] == t[k];
    }
  }

  /** "AAB=" is accepted, but encoding its two bytes gives "AAA=": the 'B' sets an unused bit. */
  lemma StrayBitLost()
    ensures Decoded("AAB=").Some? && Encoded(DecodedBytes("AAB=")) != "AAB="
  {
    var t := "AAB=";
    assert DecChar('A') == 0 && DecChar('B') == 1;
    assert WellPadded(t) && !TailBitsClear(t);
    EncodeDecodeIff(t);
  }

  // ----- the encoders -----

  /** The four characters the encoders write for three bytes, and for a rest of one or two. */
  function Four(b0: byte, b1: byte, b2: byte): (c: string)
    ensures |c| == 4
  {
    [EncChar(b0 / 4), EncChar(b0 % 4 * 16 + b1 / 16), EncChar(b1 % 16 * 4 + b2 / 64), EncChar(b2 % 64)]
  }

  function FourOfOne(b0: byte): (c: string)
    ensures |c| == 4
  {
    [EncChar(b0 / 4), EncChar(b0 % 4 * 16), '=', '=']
  }

  function FourOfTwo(b0: byte, b1: byte): (c: string)
    ensures |c| == 4
  {
    [EncChar(b0 / 4), EncChar(b0 % 4 * 16 + b1 / 16), EncChar(b1 % 16 * 4), '=']
  }

  function Group(data: seq<byte>, g: nat): (c: string)
    requires 3 * g < |data|
    ensures |c| == 4
  {
    if |data| == 3 * g + 1 then FourOfOne(data[3 * g])
    else if |data| == 3 * g + 2 then FourOfTwo(data[3 * g], data[3 * g + 1])
    else Four(data[3 * g], data[3 * g + 1], data[3 * g + 2])
  }

  lemma GroupText(data: seq<byte>, g: nat)
    requires 3 * g < |data|
    ensures EncodedGroups(data, g + 1) == EncodedGroups(data, g) + Group(data, g)
  {
    GroupChars(data, g);
  }

  /** A group's four characters. */
  lemma GroupChars(data: seq<byte>, g: nat)
    requires 3 * g < |data|
    ensures Group(data, g) == [CharAt(data, g, 0), CharAt(data, g, 1), CharAt(data, g, 2), CharAt(data, g, 3)]
  {
    if |data| == 3 * g + 1 {
      OneByteChars(data, g);
    } else if |data| == 3 * g + 2 {
      TwoByteChars(data, g);
    } else {
      assert CharAt(data, g, 0) == EncChar(data[3 * g] / 4);
      assert CharAt(data, g, 3) == EncChar(data[3 * g + 2] % 64);
    }
  }

  lemma OneByteChars(data: seq<byte>, g: nat)
    requires |data| == 3 * g + 1
    ensures FourOfOne(data[3 * g]) == [CharAt(data, g, 0), CharAt(data, g, 1), CharAt(data, g, 2), CharAt(data, g, 3)]
  {
    assert SextetAt(data, g, 1) == data[3 * g] % 4 * 16;
  }

  lemma TwoByteChars(data: seq<byte>, g: nat)
    requires |data| == 3 * g + 2
    ensures FourOfTwo(data[3 * g], data[3 * g + 1]) ==
      [CharAt(data, g, 0), CharAt(data, g, 1), CharAt(data, g, 2), CharAt(data, g, 3)]
  {
    assert SextetAt(data, g, 2) == data[3 * g + 1] % 16 * 4;
  }

  /** What the switch behind the loops writes. */
  function Rest(data: seq<byte>, pos: nat): (c: string)
    requires pos <= |data| < pos + 3
    ensures |c| == if pos == |data| then 0 else 4
  {
    if |data| - pos == 1 then FourOfOne(data[pos]) else if |data| - pos == 2 then FourOfTwo(data[pos], data[pos + 1])
      else ""
  }

  /** Appending the group's characters moves the text on by one group. */
  lemma NextGroup(data: seq<byte>, g: nat, pos: nat, before: string)
    requires pos == 3 * g && pos + 3 <= |data| && before == EncodedGroups(data, g)
    ensures before + Four(data[pos], data[pos + 1], data[pos + 2]) == EncodedGroups(data, g + 1)
  {
    GroupText(data, g);
  }

  lemma LastText(data: seq<byte>, g: nat, pos: nat, before: string)
    requires pos == 3 * g <= |data| < pos + 3 && before == EncodedGroups(data, g)
    ensures before + Rest(data, pos) == Encoded(data)
  {
    if pos < |data| {
      GroupText(data, g);
      assert (|data| + 2) / 3 == g + 1;
    }
  }

  /** `p_out[0]` to `p_out[3]`. */
  method WriteFour(out: array<char>, at: nat, c: string)
    requires at + 4 <= out.Length && |c| == 4
    modifies out
    ensures out[..at + 4] == old(out[..at]) + c
    ensures out[at + 4..] == old(out[at + 4..])
  {
    out[at], out[at + 1], out[at + 2], out[at + 3] := c[0], c[1], c[2], c[3];
    assert out[..at] == old(out[..at]);
  }

  /** Into a buffer: writes exactly the promised number of characters and touches nothing behind them. */
  method Encode(data: seq<byte>, out: array<char>) returns (outLen: nat)
    requires CapacityForEncode(|data|) <= out.Length
    modifies out
    ensures outLen == CapacityForEncode(|data|)
    ensures out[..outLen] == Encoded(data) && out[outLen..] == old(out[outLen..])
  {
    var pos;
    ghost var g;
    pos, outLen, g := EncodeWholeGroups(data, out);
    LastText(data, g, pos, out[..outLen]);
    if pos < |data| {
      WriteFour(out, outLen, Rest(data, pos));
      outLen := outLen + 4;
    }
  }

  /** The loop over the groups of three bytes. */
  method EncodeWholeGroups(data: seq<byte>, out: array<char>) returns (pos: nat, outLen: nat, ghost g: nat)
    requires CapacityForEncode(|data|) <= out.Length
    modifies out
    ensures pos == 3 * g <= |data| < pos + 3 && outLen == 4 * g <= out.Length
    ensures out[..outLen] == EncodedGroups(data, g) && out[outLen..] == old(out[outLen..])
  {
    pos, outLen, g := 0, 0, 0;
    while |data| - pos >= 3
      invariant pos == 3 * g <= |data| && outLen == 4 * g <= out.Length
      invariant out[..outLen] == EncodedGroups(data, g) && out[outLen..] == old(out[..])[outLen..]
    {
      NextGroup(data, g, pos, out[..outLen]);
      WriteFour(out, outLen, Four(data[pos], data[pos + 1], data[pos + 2]));
      pos, outLen, g := pos + 3, outLen + 4, g + 1;
    }
  }

  /** Onto a stream: appends the very text the buffer encoder writes. */
  method EncodeToStream(data: seq<byte>, stream: string) returns (after: string, outLen: nat)
    ensures after == stream + Encoded(data) && outLen == |Encoded(data)|
  {
    var text := "";
    outLen := 0;
    var pos := 0;
    ghost var g := 0;
    while |data| - pos >= 3
      invariant pos == 3 * g <= |data| && outLen == 4 * g
      invariant text == EncodedGroups(data, g)
    {
      NextGroup(data, g, pos, text);
      text := text + Four(data[pos], data[pos + 1], data[pos + 2]);
      pos, outLen, g := pos + 3, outLen + 4, g + 1;
    }
    LastText(data, g, pos, text);
    after := stream + (text + Rest(data, pos));
    outLen := outLen + |Rest(data, pos)|;
  }

  // ----- the decoder -----

  predicate GroupInTable(t: string, g: nat)
    requires 4 * g + 3 < |t|
  {
    InTable(t, 4 * g) && InTable(t, 4 * g + 1) && InTable(t, 4 * g + 2) && InTable(t, 4 * g + 3)
  }

  /** The first `n` groups are alphabet characters only, and `out` starts with their bytes. */
  ghost predicate GroupsDone(t: string, out: seq<byte>, n: nat)
    requires 4 * n <= |t| && 3 * n <= |out|
  {
    && (forall g :: 0 <= g < n ==> GroupInTable(t, g))
    && (forall g :: 0 <= g < n ==> GroupBytes(t, out, g))
  }

  ghost predicate GroupBytes(t: string, out: seq<byte>, g: nat)
    requires 4 * g + 3 < |t| && 3 * g + 3 <= |out| && GroupInTable(t, g)
  {
    out[3 * g] == OctetAt(t, g, 0) && out[3 * g + 1] == OctetAt(t, g, 1) && out[3 * g + 2] == OctetAt(t, g, 2)
  }

  /** The last group, where padding may stand. */
  predicate LastGroup(t: string)
    requires |t| >= 4
  {
    var n := |t|;
    && InTable(t, n - 4) && InTable(t, n - 3)
    && (InTable(t, n - 2) || (t[n - 2] == '=' && t[n - 1] == '=' && DecChar(t[n - 3]) % 16 == 0))
    && (InTable(t, n - 1) || t[n - 1] == '=')
  }

  lemma PaddedByGroups(t: string, g: nat)
    requires |t| == 4 * g + 4
    ensures WellPadded(t) <==> LastGroup(t) && forall h :: 0 <= h < g ==> GroupInTable(t, h)
  {
    if LastGroup(t) && forall h :: 0 <= h < g ==> GroupInTable(t, h) {
      forall k: nat | k < |t| - 2
        ensures InTable(t, k)
      {
        var h, i := SplitInFours(k);
        if h < g {
          assert GroupInTable(t, h);
        }
      }
    }
    if WellPadded(t) {
      forall h | 0 <= h < g
        ensures GroupInTable(t, h)
      {
        assert InTable(t, 4 * h) && InTable(t, 4 * h + 1) && InTable(t, 4 * h + 2) && InTable(t, 4 * h + 3);
      }
      assert InTable(t, |t| - 4) && InTable(t, |t| - 3);
    }
  }

  /** The bytes of the last group: as many as its padding leaves. */
  ghost predicate LastBytes(t: string, out: seq<byte>, g: nat)
    requires WellPadded(t) && |t| == 4 * g + 4 && DecodedLength(t) <= |out|
  {
    && InTable(t, 4 * g) && InTable(t, 4 * g + 1) && out[3 * g] == OctetAt(t, g, 0)
    && (Padding(t) < 2 ==> InTable(t, 4 * g + 2) && out[3 * g + 1] == OctetAt(t, g, 1))
    && (Padding(t) < 1 ==> InTable(t, 4 * g + 3) && out[3 * g + 2] == OctetAt(t, g, 2))
  }

  lemma DecodedByGroups(t: string, out: seq<byte>, g: nat)
    requires WellPadded(t) && |t| == 4 * g + 4 && DecodedLength(t) <= |out| && GroupsDone(t, out, g)
    requires LastBytes(t, out, g)
    ensures out[..DecodedLength(t)] == DecodedBytes(t)
  {
    forall j: nat | j < DecodedLength(t)
      ensures out[j] == DecodedBytes(t)[j]
    {
      var h, r := SplitIndex(j);
      DecodedOctet(t, h, r);
      ByteInGroup(t, out, g, h, r);
    }
  }

  lemma ByteInGroup(t: string, out: seq<byte>, g: nat, h: nat, r: nat)
    requires WellPadded(t) && |t| == 4 * g + 4 && DecodedLength(t) <= |out| && GroupsDone(t, out, g)
      && LastBytes(t, out, g)
    requires r < 3 && 3 * h + r < DecodedLength(t)
    ensures 4 * h + r + 1 < |t| && InTable(t, 4 * h + r) && InTable(t, 4 * h + r + 1)
      && out[3 * h + r] == OctetAt(t, h, r)
  {
    CharsOfByte(t, h, r);
    LengthOf(t, g);
    if h < g {
      assert GroupBytes(t, out, h);
    } else {
      assert h == g;
    }
  }

  lemma LengthOf(t: string, g: nat)
    requires |t| == 4 * g + 4
    ensures DecodedLength(t) == 3 * g + 3 - Padding(t)
  {
    assert |t| / 4 == g + 1;
  }

  lemma GroupsDoneStep(t: string, was: seq<byte>, now: seq<byte>, g: nat)
    requires 4 * g + 3 < |t| && 3 * g + 3 <= |was| == |now| && GroupsDone(t, was, g)
    requires now[..3 * g] == was[..3 * g] && GroupInTable(t, g) && GroupBytes(t, now, g)
    ensures GroupsDone(t, now, g + 1)
  {
    forall h | 0 <= h < g
      ensures GroupBytes(t, now, h)
    {
      assert GroupBytes(t, was, h);
      assert now[3 * h] == now[..3 * g][3 * h] && now[3 * h + 1] == now[..3 * g][3 * h + 1]
        && now[3 * h + 2] == now[..3 * g][3 * h + 2];
    }
  }

  /** One whole group; nothing is written when it holds a character outside the alphabet. */
  method DecodeGroup(t: string, pos: nat, out: array<byte>, at: nat, ghost g: nat) returns (ok: bool)
    requires pos == 4 * g && pos + 4 <= |t| && at == 3 * g && at + 3 <= out.Length
    requires GroupsDone(t, out[..], g)
    modifies out
    ensures ok <==> GroupInTable(t, g)
    ensures ok ==> GroupsDone(t, out[..], g + 1)
    ensures out[at + 3..] == old(out[at + 3..])
  {
    var u0, u1, u2, u3 := DecChar(t[pos]), DecChar(t[pos + 1]), DecChar(t[pos + 2]), DecChar(t[pos + 3]);
    ok := !(u0 > 63 || u1 > 63 || u2 > 63 || u3 > 63);
    if ok {
      ghost var was := out[..];
      out[at], out[at + 1], out[at + 2] := Octet0(u0, u1), Octet1(u1, u2), Octet2(u2, u3);
      GroupsDoneStep(t, was, out[..], g);
    }
  }

  /**
    The group that may be padded. The check of the one-'=' tail looks at the padding's own table entry, which never has
    low bits.
   */
  method DecodeLastGroup(t: string, pos: nat, out: array<byte>, at: nat, ghost g: nat) returns (ok: bool, outLen: nat)
    requires pos == 4 * g && |t| == pos + 4 && at == 3 * g && at + 3 <= out.Length
    requires GroupsDone(t, out[..], g)
    modifies out
    ensures ok <==> LastGroup(t)
    ensures ok ==> GroupsDone(t, out[..], g) && WellPadded(t) && outLen == DecodedLength(t) && LastBytes(t, out[..], g)
    ensures out[at + 3..] == old(out[at + 3..])
  {
    outLen := at;
    var u0, u1, u2, u3 := DecChar(t[pos]), DecChar(t[pos + 1]), DecChar(t[pos + 2]), DecChar(t[pos + 3]);
    PaddedByGroups(t, g);
    if u0 > 63 || u1 > 63 || (t[pos + 2] == '=' && t[pos + 3] != '=') {
      return false, outLen;
    }
    if u2 > 63 && t[pos + 2] != '=' {
      return false, outLen;
    }
    if u3 > 63 && t[pos + 3] != '=' {
      return false, outLen;
    }
    ghost var was := out[..];
    out[at] := Octet0(u0, u1);
    outLen := outLen + 1;
    if t[pos + 2] == '=' {
      ok := u1 % 16 == 0;
    } else {
      out[at + 1] := Octet1(u1, u2);
      outLen := outLen + 1;
      if t[pos + 3] == '=' {
        ok := u3 % 4 == 0;
      } else {
        out[at + 2] := Octet2(u2, u3);
        outLen := outLen + 1;
        ok := true;
      }
    }
    GroupsDoneKept(t, was, out[..], g);
  }

  lemma GroupsDoneKept(t: string, was: seq<byte>, now: seq<byte>, g: nat)
    requires 4 * g <= |t| && 3 * g <= |was| == |now| && GroupsDone(t, was, g) && now[..3 * g] == was[..3 * g]
    ensures GroupsDone(t, now, g)
  {
    forall h | 0 <= h < g
      ensures GroupBytes(t, now, h)
    {
      assert GroupBytes(t, was, h);
      assert now[3 * h] == now[..3 * g][3 * h] && now[3 * h + 1] == now[..3 * g][3 * h + 1]
        && now[3 * h + 2] == now[..3 * g][3 * h + 2];
    }
  }

  /** Accepts exactly the well padded texts, writes their bytes, and stays within the capacity promised for the text. */
  method Decode(t: string, out: array<byte>) returns (ok: bool, outLen: nat)
    requires t != [] && CapacityForDecode(|t|) <= out.Length
    modifies out
    ensures ok <==> WellPadded(t)
    ensures ok ==> outLen <= CapacityForDecode(|t|) && Decoded(t) == Some(out[..outLen])
    ensures out[CapacityForDecode(|t|)..] == old(out[CapacityForDecode(|t|)..])
  {
    if |t| % 4 != 0 {
      return false, 0;
    }
    outLen := 0;
    var pos := 0;
    ghost var g, last := 0, |t| / 4 - 1;
    assert |t| == 4 * last + 4 && CapacityForDecode(|t|) == 3 * last + 3;
    PaddedByGroups(t, last);
    while |t| - pos > 4
      invariant g <= last && pos == 4 * g && outLen == 3 * g
      invariant GroupsDone(t, out[..], g)
      invariant out[3 * last + 3..] == old(out[..])[3 * last + 3..]
    {
      ok := DecodeGroup(t, pos, out, outLen, g);
      if !ok {
        return false, outLen;
      }
      pos, outLen, g := pos + 4, outLen + 3, g + 1;
    }
    ok, outLen := DecodeLastGroup(t, pos, out, outLen, g);
    if ok {
      DecodedByGroups(t, out[..], g);
    }
  }
}
