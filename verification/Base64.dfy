/** The base 64 codec of section 4 of RFC 4648, over zero-terminated strings of signed characters. */
module Base64 {
  import opened Bytes

  /** A character of a C string that a signed char holds as a positive number. */
  type Char7 = x: int | 1 <= x < 128 witness 1

  type SChar = x: int | -128 <= x < 128

  /** A character of any C string. */
  type CChar = x: int | -128 <= x < 128 && x != 0 witness 1

  /** Where a string's characters are positive, the octets are just these. */
  ghost predicate Reads(s: seq<CChar>, octets: seq<byte>) {
    |octets| == |s| && forall i :: 0 <= i < |s| && s[i] > 0 ==> octets[i] == s[i]
  }

  /** The octets that the characters of a string are. */
  function Octets(s: seq<CChar>): (r: seq<byte>)
    ensures Reads(s, r)
  {
    seq(|s|, i requires 0 <= i < |s| => var x: int := s[i]; x % 256)
  }

  const PAD: Char7 := '=' as int

  const ROW0 := "ABCDEFGHIJKLMNOP"
  const ROW1 := "QRSTUVWXYZabcdef"
  const ROW2 := "ghijklmnopqrstuv"
  const ROW3 := "wxyz0123456789+/"
  const TABLE := ROW0 + ROW1 + ROW2 + ROW3

  /** The alphabet of the standard. */
  function Alphabet(v: int): (c: Char7)
    requires 0 <= v < 64
    ensures c != PAD
  {
    if v < 26 then 'A' as int + v
    else if v < 52 then 'a' as int + (v - 26)
    else if v < 62 then '0' as int + (v - 52)
    else if v == 62 then '+' as int
    else '/' as int
  }

  lemma RowsAreAlphabet(v: int)
    requires 0 <= v < 16
    ensures ROW0[v] as int == Alphabet(v) && ROW1[v] as int == Alphabet(16 + v)
    ensures ROW2[v] as int == Alphabet(32 + v) && ROW3[v] as int == Alphabet(48 + v)
  {
  }

  lemma TableIsAlphabet(v: int)
    requires 0 <= v < 64
    ensures |TABLE| == 64 && TABLE[v] as int == Alphabet(v)
  {
    RowsAreAlphabet(v % 16);
    assert v / 16 == 0 || v / 16 == 1 || v / 16 == 2 || v / 16 == 3;
  }

  function TableAt(v: nat): (c: Char7)
    requires v < 64
    ensures c == Alphabet(v)
  {
    TableIsAlphabet(v);
    TABLE[v] as int
  }

  // ---------------------------------------------------------------------------------------------------------------
  // Bits
  // ---------------------------------------------------------------------------------------------------------------

  function Abs(x: int): nat {
    if x < 0 then -x else x
  }

  /** Bitwise or of two's complement numbers. */
  function Or(x: int, y: int): (r: int)
    ensures x >= 0 && y >= 0 ==> r >= 0
    ensures x < 0 || y < 0 ==> r < 0
    decreases Abs(x) + Abs(y)
  {
    if x == 0 then y
    else if y == 0 then x
    else if x == -1 || y == -1 then -1
    else 2 * Or(x / 2, y / 2) + (if x % 2 == 1 || y % 2 == 1 then 1 else 0)
  }

  function Pow2(k: nat): nat {
    if k == 0 then 1 else 2 * Pow2(k - 1)
  }

  /** Bits that do not overlap add up. */
  lemma {:induction false} OrAdds(x: nat, k: nat, y: nat)
    requires y < Pow2(k)
    ensures Or(x * Pow2(k), y) == x * Pow2(k) + y
    decreases k
  {
    if k > 0 && x > 0 && y > 0 {
      var h := x * Pow2(k - 1);
      assert x * Pow2(k) == 2 * h;
      OrAdds(x, k - 1, y / 2);
    } else if x == 0 {
      assert x * Pow2(k) == 0;
    }
  }

  // ---------------------------------------------------------------------------------------------------------------
  // The standard
  // ---------------------------------------------------------------------------------------------------------------

  /** Three octets are one 24-bit group, which is read as four 6-bit digits; missing octets are zero bits. */
  function Digits(a: byte, b: byte, c: byte): (r: seq<int>)
    ensures |r| == 4
  {
    var x: int, y: int, z: int := a, b, c;
    var g := 0x1_0000 * x + 0x100 * y + z;
    [g / 0x4_0000, g / 0x1000 % 64, g / 64 % 64, g % 64]
  }

  lemma DigitsSplit(a: byte, b: byte, c: byte)
    ensures Digits(a, b, c) == [a / 4, a % 4 * 16 + b / 16, b % 16 * 4 + c / 64, c % 64]
    ensures 0 <= a / 4 < 64 && 0 <= a % 4 * 16 + b / 16 < 64 && 0 <= b % 16 * 4 + c / 64 < 64 && 0 <= c % 64 < 64
  {
    var x: int, y: int, z: int := a, b, c;
    var x1, x0, y1, y0, z1, z0 := x / 4, x % 4, y / 16, y % 16, z / 64, z % 64;
    var g := 0x1_0000 * x + 0x100 * y + z;
    assert x == 4 * x1 + x0 && y == 16 * y1 + y0 && z == 64 * z1 + z0;
    Quotient(g, 0x4_0000, x1, 0x1_0000 * x0 + 0x100 * y + z);
    Quotient(g, 0x1000, 64 * x1 + 16 * x0 + y1, 0x100 * y0 + z);
    Quotient(64 * x1 + 16 * x0 + y1, 64, x1, 16 * x0 + y1);
    Quotient(g, 64, 0x400 * x + 4 * y + z1, z0);
    Quotient(0x400 * x + 4 * y + z1, 64, 16 * x + y1, 4 * y0 + z1);
  }

  function Letters(ds: seq<int>): (r: seq<Char7>)
    requires |ds| <= 4 && forall i :: 0 <= i < |ds| ==> 0 <= ds[i] < 64
    ensures |r| == |ds|
  {
    if ds == [] then [] else [Alphabet(ds[0])] + Letters(ds[1..])
  }

  /** One, two or three octets in four characters. */
  function Quantum(s: seq<byte>): (r: seq<Char7>)
    requires 1 <= |s| <= 3
    ensures |r| == 4
  {
    var b, c := if |s| > 1 then s[1] else 0, if |s| > 2 then s[2] else 0;
    DigitsSplit(s[0], b, c);
    var ds := Digits(s[0], b, c);
    match |s|
    case 3 => Letters(ds)
    case 2 => Letters(ds[..3]) + [PAD]
    case _ => Letters(ds[..2]) + [PAD, PAD]
  }

  /** The encoding of RFC 4648, section 4. */
  function Standard(s: seq<byte>): (r: seq<Char7>)
    decreases |s|
  {
    if |s| == 0 then []
    else if |s| <= 3 then Quantum(s)
    else Quantum(s[..3]) + Standard(s[3..])
  }

  // ---------------------------------------------------------------------------------------------------------------
  // Decoding
  // ---------------------------------------------------------------------------------------------------------------

  /** What the decoder makes of one character, or of the zero that fills up the last word; others stay as they are. */
  function Digit(ch: SChar): (v: SChar)
    ensures ch >= 0 ==> v >= 0
  {
    if 'A' as int <= ch <= 'Z' as int then ch - 'A' as int
    else if 'a' as int <= ch <= 'z' as int then ch - 'a' as int + 26
    else if '0' as int <= ch <= '9' as int then ch - '0' as int + 52
    else if ch == '+' as int then 62
    else if ch == '/' as int then 63
    else if ch == PAD then 0
    else ch
  }

  lemma DigitOfAlphabet(v: int)
    requires 0 <= v < 64
    ensures Digit(Alphabet(v)) == v
  {
  }

  /** An int cut down to a signed char. */
  function Cut(x: int): SChar {
    if x % 256 < 128 then x % 256 else x % 256 - 256
  }

  /** The characters of a word that the codec stores. */
  function Positive(w: seq<SChar>): (r: seq<Char7>)
    ensures |r| <= |w|
  {
    if w == [] then [] else (if w[0] > 0 then [w[0]] else []) + Positive(w[1..])
  }

  function DigitAt(s: seq<CChar>, i: nat): SChar {
    Digit(if i < |s| then s[i] else 0)
  }

  /** Up to four characters of input give up to three of output. */
  function OutWord(s: seq<CChar>): (r: seq<SChar>)
    ensures |r| == 3
  {
    Joined(DigitAt(s, 0), DigitAt(s, 1), DigitAt(s, 2), DigitAt(s, 3))
  }

  /** The shifts of two's complement numbers, which round down to the right. */
  function Joined(d0: int, d1: int, d2: int, d3: int): (r: seq<SChar>)
    ensures |r| == 3
  {
    [Cut(Or(d0 * 4, d1 / 16)), Cut(Or(d1 * 16, d2 / 4)), Cut(Or(d2 * 64, d3))]
  }

  function Decoded(s: seq<CChar>): (r: seq<Char7>)
    decreases |s|
  {
    if |s| == 0 then []
    else if |s| <= 4 then Positive(OutWord(s))
    else Positive(OutWord(s[..4])) + Decoded(s[4..])
  }

  // ---------------------------------------------------------------------------------------------------------------
  // Round trip
  // ---------------------------------------------------------------------------------------------------------------

  /** The octets that a signed char holds as positive numbers. */
  function Kept(s: seq<byte>): seq<Char7> {
    if s == [] then [] else (if 0 < s[0] < 128 then [s[0]] else []) + Kept(s[1..])
  }

  lemma OrAdds4(x: nat, y: nat)
    requires y < 4
    ensures Or(x * 4, y) == x * 4 + y
  {
    assert Pow2(2) == 4;
    OrAdds(x, 2, y);
  }

  lemma OrAdds16(x: nat, y: nat)
    requires y < 16
    ensures Or(x * 16, y) == x * 16 + y
  {
    assert Pow2(4) == 16;
    OrAdds(x, 4, y);
  }

  lemma OrAdds64(x: nat, y: nat)
    requires y < 64
    ensures Or(x * 64, y) == x * 64 + y
  {
    assert Pow2(6) == 64;
    OrAdds(x, 6, y);
  }

  lemma CutMultiple(q: nat, x: byte)
    ensures Cut(256 * q + x) == Cut(x)
  {
    Quotient(256 * q + x, 256, q, x);
  }

  /** Two neighbouring digits join to the octet x * 16 + y that their inner bits make up; z and u are their outer bits. */
  lemma InnerBits(z: nat, x: nat, y: nat, u: nat)
    requires x < 16 && y < 16 && u < 4
    ensures Cut(Or((z * 16 + x) * 16, (y * 4 + u) / 4)) == Cut(x * 16 + y)
  {
    Quotient(y * 4 + u, 4, y, u);
    OrAdds16(z * 16 + x, y);
    CutMultiple(z, x * 16 + y);
  }

  lemma FirstBits(x: nat, y: nat, u: nat)
    requires x < 64 && y < 4 && u < 16
    ensures Cut(Or(x * 4, (y * 16 + u) / 16)) == Cut(x * 4 + y)
  {
    Quotient(y * 16 + u, 16, y, u);
    OrAdds4(x, y);
  }

  lemma LastBits(z: nat, x: nat, y: nat)
    requires x < 4 && y < 64
    ensures Cut(Or((z * 4 + x) * 64, y)) == Cut(x * 64 + y)
  {
    OrAdds64(z * 4 + x, y);
    CutMultiple(z, x * 64 + y);
  }

  /** The four digits of three octets join to these octets. */
  lemma JoinedDigits(a: byte, b: byte, c: byte)
    ensures Joined(a / 4, a % 4 * 16 + b / 16, b % 16 * 4 + c / 64, c % 64) == [Cut(a), Cut(b), Cut(c)]
  {
    var x, y, z, u, v, w := a / 4, a % 4, b / 16, b % 16, c / 64, c % 64;
    assert a == x * 4 + y && b == z * 16 + u && c == v * 64 + w;
    FirstBits(x, y, z);
    InnerBits(y, z, u, v);
    LastBits(u, v, w);
  }

  function One(x: SChar): seq<Char7> {
    if x > 0 then [x] else []
  }

  lemma PositiveWord(x: SChar, y: SChar, z: SChar)
    ensures Positive([x, y, z]) == One(x) + One(y) + One(z)
  {
    assert [x, y, z][1..] == [y, z] && [y, z][1..] == [z] && [z][1..] == [];
    assert Positive([z]) == One(z);
    assert Positive([y, z]) == One(y) + One(z);
  }

  lemma KeptHead(s: seq<byte>)
    requires s != []
    ensures Kept(s) == One(Cut(s[0])) + Kept(s[1..])
  {
    CutByte(s[0]);
    assert [] + Kept(s[1..]) == Kept(s[1..]);
  }

  lemma CutByte(x: byte)
    ensures Cut(x) == if x < 128 then x else x - 256
  {
  }

  lemma KeptWord(s: seq<byte>)
    requires |s| == 3
    ensures Kept(s) == One(Cut(s[0])) + One(Cut(s[1])) + One(Cut(s[2]))
  {
    KeptHead(s);
    KeptHead(s[1..]);
    KeptHead(s[2..]);
    assert s[1..][1..] == s[2..] && s[2..][1..] == [];
  }

  /** Zeros at the end are not kept. */
  lemma {:induction false} KeptPadded(s: seq<byte>, n: nat)
    ensures Kept(s + Zeros(n)) == Kept(s)
    decreases |s| + n
  {
    if s != [] {
      assert (s + Zeros(n))[1..] == s[1..] + Zeros(n);
      KeptPadded(s[1..], n);
    } else if n > 0 {
      assert (s + Zeros(n))[1..] == s + Zeros(n - 1);
      KeptPadded(s, n - 1);
    } else {
      assert s + Zeros(n) == s;
    }
  }

  lemma LettersAt(ds: seq<int>, i: nat)
    requires |ds| <= 4 && forall i :: 0 <= i < |ds| ==> 0 <= ds[i] < 64
    requires i < |ds|
    ensures Letters(ds)[i] == Alphabet(ds[i])
  {
    if i > 0 { LettersAt(ds[1..], i - 1); }
  }

  lemma QuantumAt(s: seq<byte>, a: byte, b: byte, c: byte)
    requires 1 <= |s| <= 3
    requires a == s[0] && b == (if |s| > 1 then s[1] else 0) && c == if |s| > 2 then s[2] else 0
    ensures var ds := Digits(a, b, c);
            (forall i :: 0 <= i < 4 ==> 0 <= ds[i] < 64)
            && forall i :: 0 <= i < 4 ==> Quantum(s)[i] == if i <= |s| then Alphabet(ds[i]) else PAD
  {
    DigitsSplit(a, b, c);
    var ds := Digits(a, b, c);
    assert ds[..4] == ds;
    forall i | 0 <= i <= |s|
      ensures Quantum(s)[i] == Alphabet(ds[i])
    {
      LettersAt(ds[..|s| + 1], i);
    }
  }

  lemma QuantumDigit(s: seq<byte>, a: byte, b: byte, c: byte, i: nat)
    requires 1 <= |s| <= 3 && i < 4
    requires a == s[0] && b == (if |s| > 1 then s[1] else 0) && c == if |s| > 2 then s[2] else 0
    ensures DigitAt(Quantum(s), i) == Digits(a, b, c)[i]
  {
    QuantumAt(s, a, b, c);
    DigitsSplit(a, b, c);
    if i <= |s| {
      DigitOfAlphabet(Digits(a, b, c)[i]);
    } else {
      assert Digits(a, b, c)[i] == 0;
    }
  }

  lemma QuantumJoins(s: seq<byte>, a: byte, b: byte, c: byte)
    requires 1 <= |s| <= 3
    requires a == s[0] && b == (if |s| > 1 then s[1] else 0) && c == if |s| > 2 then s[2] else 0
    ensures OutWord(Quantum(s)) == [Cut(a), Cut(b), Cut(c)]
  {
    QuantumDigit(s, a, b, c, 0);
    QuantumDigit(s, a, b, c, 1);
    QuantumDigit(s, a, b, c, 2);
    QuantumDigit(s, a, b, c, 3);
    DigitsSplit(a, b, c);
    JoinedDigits(a, b, c);
  }

  lemma WordIsKept(s: seq<byte>, a: byte, b: byte, c: byte)
    requires |s| <= 3 && s + Zeros(3 - |s|) == [a, b, c]
    ensures Positive([Cut(a), Cut(b), Cut(c)]) == Kept(s)
  {
    PositiveWord(Cut(a), Cut(b), Cut(c));
    KeptWord([a, b, c]);
    KeptPadded(s, 3 - |s|);
  }

  lemma PaddedWord(s: seq<byte>) returns (a: byte, b: byte, c: byte)
    requires 1 <= |s| <= 3
    ensures a == s[0] && b == (if |s| > 1 then s[1] else 0) && c == if |s| > 2 then s[2] else 0
    ensures s + Zeros(3 - |s|) == [a, b, c]
  {
    var w := s + Zeros(3 - |s|);
    a, b, c := w[0], w[1], w[2];
  }

  /** A quantum decodes to what it encodes, less the octets that are dropped. */
  lemma QuantumDecodes(s: seq<byte>)
    requires 1 <= |s| <= 3
    ensures Positive(OutWord(Quantum(s))) == Kept(s)
  {
    var a, b, c := PaddedWord(s);
    QuantumJoins(s, a, b, c);
    WordIsKept(s, a, b, c);
  }

  lemma {:induction false} KeptSplit(s: seq<byte>, k: nat)
    requires k <= |s|
    ensures Kept(s) == Kept(s[..k]) + Kept(s[k..])
  {
    if k > 0 {
      KeptSplit(s[1..], k - 1);
      assert s[1..][..k - 1] == s[..k][1..];
      assert s[1..][k - 1..] == s[k..];
    }
  }

  /** Decoding the standard's encoding of any octets gives those of 1 to 127, in order; padding leaves nothing behind. */
  lemma {:induction false} DecodesStandard(s: seq<byte>)
    ensures Decoded(Standard(s)) == Kept(s)
    decreases |s|
  {
    if 0 < |s| <= 3 {
      QuantumDecodes(s);
    } else if |s| > 3 {
      var q := Quantum(s[..3]);
      assert Standard(s)[..4] == q && Standard(s)[4..] == Standard(s[3..]);
      QuantumDecodes(s[..3]);
      DecodesStandard(s[3..]);
      KeptSplit(s, 3);
    }
  }

  lemma {:induction false} KeptAll(s: seq<byte>)
    ensures |Kept(s)| <= |s| && (Kept(s) == s <==> forall i :: 0 <= i < |s| ==> 0 < s[i] < 128)
    ensures |Kept(s)| == |s| <==> Kept(s) == s
  {
    if s != [] {
      KeptAll(s[1..]);
      if 0 < s[0] < 128 {
        assert Kept(s)[1..] == Kept(s[1..]);
        assert forall i :: 0 <= i < |s| - 1 ==> s[1..][i] == s[i + 1];
        assert s == [s[0]] + s[1..];
      }
    }
  }

  /** The round trip holds exactly for the strings of characters 1 to 127. */
  lemma RoundTrip(s: seq<byte>)
    ensures Decoded(Standard(s)) == s <==> forall i :: 0 <= i < |s| ==> 0 < s[i] < 128
  {
    DecodesStandard(s);
    KeptAll(s);
  }

  // ---------------------------------------------------------------------------------------------------------------
  // Lengths
  // ---------------------------------------------------------------------------------------------------------------

  /** base64_calculate_encrypted_length of a string of n characters. */
  function EncryptedLength(n: nat): nat {
    if n == 0 then 0
    else match n % 3
      case 0 => n / 3 * 4
      case _ => (n / 3 + 1) * 4
  }

  /** base64_calculate_decrypted_length; of a lone "=" it would read the byte in front of the string. */
  function DecryptedLength(s: seq<CChar>): int
    requires s != [PAD]
  {
    if s == [] then 0
    else if s[|s| - 1] == PAD then (if s[|s| - 2] == PAD then |s| / 4 * 3 - 2 else |s| / 4 * 3 - 1)
    else |s| / 4 * 3
  }

  /** The length and the padding of t are those of m quanta that encode n octets. */
  ghost predicate Encodes(t: seq<Char7>, m: nat, n: nat) {
    && 1 <= m && |t| == 4 * m && 3 * m - 2 <= n <= 3 * m
    && (t[|t| - 1] == PAD <==> n < 3 * m)
    && (t[|t| - 2] == PAD <==> n == 3 * m - 2)
  }

  lemma QuantumEnds(s: seq<byte>)
    requires 1 <= |s| <= 3
    ensures Encodes(Quantum(s), 1, |s|)
  {
    var a, b, c := PaddedWord(s);
    QuantumAt(s, a, b, c);
  }

  lemma OneMoreQuantum(q: seq<Char7>, t: seq<Char7>, m: nat, n: nat)
    requires |q| == 4 && Encodes(t, m, n)
    ensures Encodes(q + t, m + 1, n + 3)
  {
  }

  lemma {:induction false} StandardEnds(s: seq<byte>) returns (m: nat)
    requires s != []
    ensures Encodes(Standard(s), m, |s|)
    decreases |s|
  {
    if |s| > 3 {
      m := StandardEnds(s[3..]);
      OneMoreQuantum(Quantum(s[..3]), Standard(s[3..]), m, |s| - 3);
      m := m + 1;
    } else {
      QuantumEnds(s);
      m := 1;
    }
  }

  lemma LengthsOf(t: seq<Char7>, m: nat, n: nat)
    requires Encodes(t, m, n)
    ensures |t| == EncryptedLength(n) && t != [PAD] && DecryptedLength(t) == n
  {
    assert |t| / 4 == m;
  }

  /** The calculators give the length of the encoding and, from the encoding, the length that was encoded. */
  lemma Lengths(s: seq<byte>)
    ensures Standard(s) != [PAD]
    ensures |Standard(s)| == EncryptedLength(|s|) && DecryptedLength(Standard(s)) == |s|
  {
    if s != [] {
      var m := StandardEnds(s);
      LengthsOf(Standard(s), m, |s|);
    }
  }

  /** The decoder stores as much as the calculator says exactly when it drops nothing. */
  lemma DecodedLengthExact(s: seq<byte>)
    ensures Standard(s) != [PAD]
    ensures |Decoded(Standard(s))| == DecryptedLength(Standard(s)) <==> forall i :: 0 <= i < |s| ==> 0 < s[i] < 128
  {
    Lengths(s);
    DecodesStandard(s);
    KeptAll(s);
  }

  // ---------------------------------------------------------------------------------------------------------------
  // The loops
  // ---------------------------------------------------------------------------------------------------------------

  function Room(size: int, full: nat): (n: nat) {
    if size < 0 then 0 else Min(size, full)
  }

  /** The part of an output that a buffer of `size` bytes takes: always a prefix. */
  function Stored(full: seq<Char7>, size: int): (r: seq<Char7>)
    ensures r <= full && |r| == Room(size, |full|)
    ensures r == full <==> |full| == 0 || size >= |full|
  {
    full[..Room(size, |full|)]
  }

  /** An output buffer of `size` usable bytes, which held `was`, after `done` has been written to it. */
  ghost predicate Filled(out: array<SChar>, was: seq<SChar>, size: int, done: seq<Char7>, idx: nat)
    reads out
  {
    && size <= out.Length == |was| && idx == Room(size, |done|)
    && (forall i :: 0 <= i < idx ==> out[i] == done[i])
    && (forall i :: idx <= i < out.Length ==> out[i] == was[i])
  }

  lemma FilledIsStored(out: array<SChar>, was: seq<SChar>, size: int, done: seq<Char7>, idx: nat)
    requires Filled(out, was, size, done, idx)
    ensures idx == |Stored(done, size)| && out[..] == Stored(done, size) + was[idx..]
  {
  }

  lemma PositiveStep(w: seq<SChar>, n: nat)
    requires n < |w|
    ensures Positive(w[..n + 1]) == Positive(w[..n]) + One(w[n])
  {
    if n > 0 {
      assert w[..n + 1][1..] == w[1..][..n];
      assert w[..n][1..] == w[1..][..n - 1];
      PositiveStep(w[1..], n - 1);
    }
  }

  /** The loop that stores the characters of an output word that are positive and still fit. */
  method StoreWord(out: array<SChar>, size: int, word: seq<SChar>, outIdx: nat, ghost was: seq<SChar>, ghost done: seq<Char7>)
    returns (idx: nat)
    requires Filled(out, was, size, done, outIdx)
    modifies out
    ensures Filled(out, was, size, done + Positive(word), idx)
  {
    idx := outIdx;
    var n := 0;
    while n < |word|
      invariant 0 <= n <= |word|
      invariant Filled(out, was, size, done + Positive(word[..n]), idx)
    {
      PositiveStep(word, n);
      if idx < size && word[n] > 0 {
        out[idx] := word[n];
        idx := idx + 1;
      }
      n := n + 1;
    }
    assert word[..n] == word;
  }

  lemma DigitsJoin(a: byte, b: byte, c: byte)
    ensures a / 4 < 64 && Or(a % 4 * 16, b / 16) < 64 && Or(b % 16 * 4, c / 64) < 64
    ensures Digits(a, b, c) == [a / 4, Or(a % 4 * 16, b / 16), Or(b % 16 * 4, c / 64), c % 64]
  {
    OrAdds16(a % 4, b / 16);
    OrAdds4(b % 16, c / 64);
    DigitsSplit(a, b, c);
  }

  /** The encoder's four table indices for three characters. */
  function Indices(a: SChar, b: SChar, c: SChar): (r: seq<int>)
    ensures |r| == 4
  {
    [a / 4, Or(a % 4 * 16, b / 16), Or(b % 16 * 4, c / 64), c % 64]
  }

  predicate InTable(v: seq<int>) {
    forall i :: 0 <= i < |v| ==> 0 <= v[i] < 64
  }

  /** They are all inside the table exactly when no character is negative; then they are the digits of the standard. */
  lemma IndicesInside(a: SChar, b: SChar, c: SChar)
    ensures InTable(Indices(a, b, c)) <==> a >= 0 && b >= 0 && c >= 0
    ensures a >= 0 && b >= 0 && c >= 0 ==> Indices(a, b, c) == Digits(a, b, c)
  {
    if a >= 0 && b >= 0 && c >= 0 {
      DigitsJoin(a, b, c);
    } else {
      var r := Indices(a, b, c);
      assert a < 0 ==> r[0] < 0;
      assert b < 0 ==> r[1] < 0;
      assert c < 0 ==> r[2] < 0;
    }
  }

  /** Letters, and padding from the n-th one on, make up the quantum. */
  lemma QuantumIs(s: seq<byte>, a: byte, b: byte, c: byte, w: seq<Char7>)
    requires 1 <= |s| <= 3 && |w| == 4
    requires a == s[0] && b == (if |s| > 1 then s[1] else 0) && c == if |s| > 2 then s[2] else 0
    requires var ds := Digits(a, b, c);
             forall i :: 0 <= i < 4 && 0 <= ds[i] < 64 ==> w[i] == if i <= |s| then Alphabet(ds[i]) else PAD
    ensures w == Quantum(s)
  {
    QuantumAt(s, a, b, c);
  }

  /** The look-up in the table and the padding. */
  method Letter(v: seq<int>, n: nat) returns (w: seq<Char7>)
    requires |v| == 4 && InTable(v) && 1 <= n <= 3
    ensures |w| == 4 && forall i :: 0 <= i < 4 ==> w[i] == if i <= n then Alphabet(v[i]) else PAD
  {
    w := [TableAt(v[0]), TableAt(v[1]), TableAt(v[2]), TableAt(v[3])];
    if n < 3 {
      w := w[3 := PAD];
      if n < 2 {
        w := w[2 := PAD];
      }
    }
  }

  /**
   * The output word of an input word, of which n characters count; none when an index is outside the table. Then s are the
   * octets of these characters.
   */
  method EncodeWord(inWord: seq<SChar>, n: nat, ghost s: seq<byte>) returns (outWord: Option<seq<Char7>>)
    requires 1 <= n <= 3 == |inWord| && |s| == n
    requires forall k :: 0 <= k < 3 && inWord[k] >= 0 ==> inWord[k] == if k < n then s[k] else 0
    ensures outWord.Some? <==> forall k :: 0 <= k < 3 ==> inWord[k] >= 0
    ensures outWord.Some? ==> outWord.value == Quantum(s)
  {
    var a, b, c := inWord[0], inWord[1], inWord[2];
    var v := [a / 4, Or(a % 4 * 16, b / 16), Or(b % 16 * 4, c / 64), c % 64];
    assert v == Indices(a, b, c);
    IndicesInside(a, b, c);
    if !InTable(v) {
      return None;
    }
    var w := Letter(v, n);
    QuantumIs(s, a, b, c, w);
    outWord := Some(w);
  }

  lemma {:induction false} AllPositive(w: seq<Char7>)
    ensures Positive(w) == w
  {
    if w != [] { AllPositive(w[1..]); }
  }

  /** An input word holds the characters of a text from start up to i and is filled up with zeros. */
  ghost predicate WordHolds(w: seq<SChar>, size: nat, text: seq<CChar>, start: nat, i: nat) {
    && start <= i <= |text| && i - start <= size == |w|
    && forall k :: 0 <= k < size ==> w[k] == if k < i - start then text[start + k] else 0
  }

  lemma StandardHead(s: seq<byte>, n: nat)
    requires 1 <= n <= 3 && n <= |s| && (n == 3 || n == |s|)
    ensures Standard(s) == Quantum(s[..n]) + Standard(s[n..])
  {
  }

  lemma Slices<T>(text: seq<T>, start: nat, n: nat)
    requires start + n <= |text|
    ensures text[start..][..n] == text[start..start + n] && text[start..][n..] == text[start + n..]
  {
  }

  /** From i to j is a whole word, or the last one. */
  predicate IsWord(i: nat, j: nat, size: nat, len: nat) {
    i < j <= len && (j == i + size || (j == len && j < i + size))
  }

  /** left[i] is what the octets from i on encode to. */
  ghost predicate EncodesLeft(text: seq<byte>, left: seq<seq<Char7>>) {
    && |left| == |text| + 1 && left[|text|] == []
    && forall i: nat, j: nat {:trigger IsWord(i, j, 3, |text|)} :: IsWord(i, j, 3, |text|) ==> left[i] == Quantum(text[i..j]) + left[j]
  }

  lemma StandardIsLeft(text: seq<byte>) returns (left: seq<seq<Char7>>)
    ensures EncodesLeft(text, left) && left[0] == Standard(text)
  {
    left := seq(|text| + 1, i requires 0 <= i <= |text| => Standard(text[i..]));
    forall i: nat, j: nat | IsWord(i, j, 3, |text|)
      ensures left[i] == Quantum(text[i..j]) + left[j]
    {
      StandardHead(text[i..], j - i);
      Slices(text, i, j - i);
    }
    assert text[0..] == text;
  }

  /** A full or last input word is encoded and stored; none when an index is outside the table. */
  method EncodeGroup(inWord: seq<SChar>, n: nat, out: array<SChar>, size: int, outIdx: nat,
                     ghost text: seq<CChar>, ghost octets: seq<byte>, ghost left: seq<seq<Char7>>, ghost start: nat,
                     ghost was: seq<SChar>, ghost done: seq<Char7>)
    returns (idx: Option<nat>, ghost done': seq<Char7>)
    requires 1 <= n <= 3 && WordHolds(inWord, 3, text, start, start + n) && Reads(text, octets)
    requires IsWord(start, start + n, 3, |octets|) && EncodesLeft(octets, left)
    requires Filled(out, was, size, done, outIdx)
    modifies out
    ensures idx.Some? <==> forall k :: start <= k < start + n ==> text[k] > 0
    ensures idx.Some? ==> Filled(out, was, size, done', idx.value) && done + left[start] == done' + left[start + n]
  {
    ghost var s := octets[start..start + n];
    done' := done + Quantum(s);
    assert done + (Quantum(s) + left[start + n]) == done' + left[start + n];
    var outWord := EncodeWord(inWord, n, s);
    if outWord == None {
      assert exists k :: 0 <= k < 3 && inWord[k] < 0;
      assert forall k :: 0 <= k < n ==> inWord[k] == text[start + k];
      return None, done';
    }
    assert forall k :: start <= k < start + n ==> text[k] == inWord[k - start];
    AllPositive(outWord.value);
    var i := StoreWord(out, size, outWord.value, outIdx, was, done);
    idx := Some(i);
  }

  method EncodeAll(strIn: seq<CChar>, out: array<SChar>, size: int, ghost text: seq<byte>, ghost left: seq<seq<Char7>>)
    returns (outIdx: Option<nat>)
    requires size <= out.Length && strIn != [] && Reads(strIn, text) && EncodesLeft(text, left)
    modifies out
    ensures outIdx.Some? <==> forall k :: 0 <= k < |strIn| ==> strIn[k] > 0
    ensures outIdx.Some? ==> Filled(out, old(out[..]), size, left[0], outIdx.value)
  {
    ghost var was, done: seq<Char7>, start: nat := out[..], [], 0;
    var n, inWord: seq<SChar> := 0, [0, 0, 0];
    var inIdx: nat, idx: nat := 0, 0;
    assert [] + left[0] == left[0];
    while inIdx < |strIn|
      invariant start + n == inIdx <= |strIn| && n <= 2 && (inIdx == |strIn| ==> n == 0)
      invariant WordHolds(inWord, 3, strIn, start, inIdx)
      invariant forall k :: 0 <= k < start ==> strIn[k] > 0
      invariant left[0] == done + left[start]
      invariant Filled(out, was, size, done, idx)
    {
      inWord := inWord[n := strIn[inIdx]];
      n := n + 1;
      if n == 3 || inIdx == |strIn| - 1 {
        var i;
        i, done := EncodeGroup(inWord, n, out, size, idx, strIn, text, left, start, was, done);
        if i == None {
          return None;
        }
        idx := i.value;
        inWord := [0, 0, 0];
        start := start + n;
        n := 0;
      }
      inIdx := inIdx + 1;
    }
    assert done + [] == done;
    outIdx := Some(idx);
  }

  /**
   * base64_encode: an output buffer of any size gets the first `size` characters of the whole encoding, which are counted,
   * and is otherwise unchanged. That holds exactly for strings without negative characters; at the first such one the
   * table is left, and nothing is returned.
   */
  method Encode(strIn: seq<CChar>, out: array<SChar>, size: int) returns (r: Option<int>)
    requires size <= out.Length
    modifies out
    ensures r.Some? <==> forall k :: 0 <= k < |strIn| ==> strIn[k] > 0
    ensures strIn == [] ==> r == Some(-2) && out[..] == old(out[..])
    ensures strIn != [] && r.Some? ==>
              && r.value == |Stored(Standard(Octets(strIn)), size)|
              && out[..] == Stored(Standard(Octets(strIn)), size) + old(out[..])[r.value..]
  {
    if |strIn| == 0 {
      return Some(-2);
    }
    ghost var was := out[..];
    ghost var left := StandardIsLeft(Octets(strIn));
    var idx := EncodeAll(strIn, out, size, Octets(strIn), left);
    if idx == None {
      return None;
    }
    FilledIsStored(out, was, size, Standard(Octets(strIn)), idx.value);
    r := Some(idx.value);
  }

  /** The loop that turns the characters of an input word into digits, and the output word. */
  method DecodeWord(inWord: seq<SChar>, ghost s: seq<CChar>) returns (outWord: seq<SChar>)
    requires |inWord| == 4 && forall k :: 0 <= k < 4 ==> inWord[k] == if k < |s| then s[k] else 0
    ensures outWord == OutWord(s)
  {
    var w, i := inWord, 0;
    while i < 4
      invariant 0 <= i <= 4 == |w|
      invariant forall k :: 0 <= k < i ==> w[k] == DigitAt(s, k)
      invariant forall k :: i <= k < 4 ==> w[k] == inWord[k]
    {
      if 'A' as int <= w[i] <= 'Z' as int {
        w := w[i := w[i] - 'A' as int];
      } else if 'a' as int <= w[i] <= 'z' as int {
        w := w[i := w[i] - 'a' as int + 26];
      } else if '0' as int <= w[i] <= '9' as int {
        w := w[i := w[i] - '0' as int + 52];
      } else if w[i] == '+' as int {
        w := w[i := 62];
      } else if w[i] == '/' as int {
        w := w[i := 63];
      } else if w[i] == PAD {
        w := w[i := 0];
      }
      i := i + 1;
    }
    outWord := [Cut(Or(w[0] * 4, w[1] / 16)), Cut(Or(w[1] * 16, w[2] / 4)), Cut(Or(w[2] * 64, w[3]))];
  }

  lemma DecodedHead(s: seq<CChar>, n: nat)
    requires 1 <= n <= 4 && n <= |s| && (n == 4 || n == |s|)
    ensures Decoded(s) == Positive(OutWord(s[..n])) + Decoded(s[n..])
  {
    if n == |s| {
      assert s[..n] == s;
    }
  }

  /** left[i] is what the characters from i on decode to. */
  ghost predicate DecodesLeft(text: seq<CChar>, left: seq<seq<Char7>>) {
    && |left| == |text| + 1 && left[|text|] == []
    && forall i: nat, j: nat {:trigger IsWord(i, j, 4, |text|)} ::
         IsWord(i, j, 4, |text|) ==> left[i] == Positive(OutWord(text[i..j])) + left[j]
  }

  lemma DecodedIsLeft(text: seq<CChar>) returns (left: seq<seq<Char7>>)
    ensures DecodesLeft(text, left) && left[0] == Decoded(text)
  {
    left := seq(|text| + 1, i requires 0 <= i <= |text| => Decoded(text[i..]));
    forall i: nat, j: nat | IsWord(i, j, 4, |text|)
      ensures left[i] == Positive(OutWord(text[i..j])) + left[j]
    {
      DecodedHead(text[i..], j - i);
      Slices(text, i, j - i);
    }
    assert text[0..] == text;
  }

  /** A full or last input word is decoded and stored. */
  method DecodeGroup(inWord: seq<SChar>, n: nat, out: array<SChar>, size: int, outIdx: nat,
                     ghost text: seq<CChar>, ghost left: seq<seq<Char7>>, ghost start: nat,
                     ghost was: seq<SChar>, ghost done: seq<Char7>)
    returns (idx: nat, ghost done': seq<Char7>)
    requires 1 <= n <= 4 && IsWord(start, start + n, 4, |text|) && DecodesLeft(text, left)
    requires WordHolds(inWord, 4, text, start, start + n)
    requires Filled(out, was, size, done, outIdx)
    modifies out
    ensures Filled(out, was, size, done', idx) && done + left[start] == done' + left[start + n]
  {
    var outWord := DecodeWord(inWord, text[start..start + n]);
    done' := done + Positive(outWord);
    assert done + (Positive(outWord) + left[start + n]) == done' + left[start + n];
    idx := StoreWord(out, size, outWord, outIdx, was, done);
  }

  method DecodeAll(strIn: seq<CChar>, out: array<SChar>, size: int, ghost left: seq<seq<Char7>>) returns (outIdx: nat)
    requires size <= out.Length && strIn != [] && DecodesLeft(strIn, left)
    modifies out
    ensures Filled(out, old(out[..]), size, left[0], outIdx)
  {
    ghost var was, done: seq<Char7>, start: nat := out[..], [], 0;
    var n, inWord: seq<SChar> := 0, [0, 0, 0, 0];
    var inIdx: nat := 0;
    outIdx := 0;
    assert [] + left[0] == left[0];
    while inIdx < |strIn|
      invariant start + n == inIdx <= |strIn| && n <= 3 && (inIdx == |strIn| ==> n == 0)
      invariant WordHolds(inWord, 4, strIn, start, inIdx)
      invariant left[0] == done + left[start]
      invariant Filled(out, was, size, done, outIdx)
    {
      inWord := inWord[n := strIn[inIdx]];
      n := n + 1;
      if n == 4 || inIdx == |strIn| - 1 {
        outIdx, done := DecodeGroup(inWord, n, out, size, outIdx, strIn, left, start, was, done);
        inWord := [0, 0, 0, 0];
        start := start + n;
        n := 0;
      }
      inIdx := inIdx + 1;
    }
    assert done + [] == done;
  }

  /** base64_decode of any string, with an output buffer of any size. */
  method Decode(strIn: seq<CChar>, out: array<SChar>, size: int) returns (r: int)
    requires size <= out.Length
    modifies out
    ensures strIn == [] ==> r == -2 && out[..] == old(out[..])
    ensures strIn != [] ==>
              r == |Stored(Decoded(strIn), size)| && out[..] == Stored(Decoded(strIn), size) + old(out[..])[r..]
  {
    if |strIn| == 0 {
      return -2;
    }
    ghost var was := out[..];
    ghost var left := DecodedIsLeft(strIn);
    r := DecodeAll(strIn, out, size, left);
    FilledIsStored(out, was, size, Decoded(strIn), r);
  }

  /** With room for the encoding, and exactly with room for the string, what is decoded is the string. */
  lemma BuffersRoundTrip(s: seq<Char7>, size1: int, size2: int)
    requires s != [] && size1 >= EncryptedLength(|s|)
    ensures Stored(Standard(s), size1) == Standard(s)
    ensures Stored(Decoded(Stored(Standard(s), size1)), size2) == s <==> size2 >= |s|
  {
    Lengths(s);
    TextRoundTrip(s);
  }

  lemma TextRoundTrip(s: seq<Char7>)
    ensures Decoded(Standard(s)) == s
  {
    var t: seq<byte> := s;
    RoundTrip(t);
  }

  // ---------------------------------------------------------------------------------------------------------------
  // Characters and test vectors of the standard
  // ---------------------------------------------------------------------------------------------------------------

  /** Table 1 of RFC 4648, for the encoder and for the decoder. */
  lemma LettersAreStandard(v: nat)
    requires v < 16
    ensures Alphabet(v) == "ABCDEFGHIJKLMNOP"[v] as int && Digit("ABCDEFGHIJKLMNOP"[v] as int) == v
    ensures Alphabet(16 + v) == "QRSTUVWXYZabcdef"[v] as int && Digit("QRSTUVWXYZabcdef"[v] as int) == 16 + v
    ensures Alphabet(32 + v) == "ghijklmnopqrstuv"[v] as int && Digit("ghijklmnopqrstuv"[v] as int) == 32 + v
    ensures Alphabet(48 + v) == "wxyz0123456789+/"[v] as int && Digit("wxyz0123456789+/"[v] as int) == 48 + v
  {
    RowsAreAlphabet(v);
    DigitOfAlphabet(v);
    DigitOfAlphabet(16 + v);
    DigitOfAlphabet(32 + v);
    DigitOfAlphabet(48 + v);
  }

  /** The decoder takes padding for 0, and any other character for itself. */
  lemma OtherCharacters(ch: SChar)
    requires forall v :: 0 <= v < 64 ==> ch != Alphabet(v)
    ensures Digit(ch) == if ch == '=' as int then 0 else ch
  {
    assert 65 <= ch <= 90 ==> ch == Alphabet(ch - 65);
    assert 97 <= ch <= 122 ==> ch == Alphabet(ch - 71);
    assert 48 <= ch <= 57 ==> ch == Alphabet(ch + 4);
    assert ch != Alphabet(62) && ch != Alphabet(63);
  }

  function Text(s: string): (r: seq<int>)
    ensures |r| == |s| && forall i :: 0 <= i < |s| ==> r[i] == s[i] as int
  {
    seq(|s|, i requires 0 <= i < |s| => s[i] as int)
  }

  lemma FourLetters(a: int, b: int, c: int, d: int)
    requires 0 <= a < 64 && 0 <= b < 64 && 0 <= c < 64 && 0 <= d < 64
    ensures Letters([a, b, c, d]) == [Alphabet(a), Alphabet(b), Alphabet(c), Alphabet(d)]
    ensures Letters([a, b, c]) == [Alphabet(a), Alphabet(b), Alphabet(c)] && Letters([a, b]) == [Alphabet(a), Alphabet(b)]
  {
    assert [a, b, c, d][1..] == [b, c, d] && [b, c, d][1..] == [c, d] && [c, d][1..] == [d] && [d][1..] == [];
    assert [a, b, c][1..] == [b, c] && [b, c][1..] == [c] && [c][1..] == [] && [a, b][1..] == [b] && [b][1..] == [];
    assert Letters([d]) == [Alphabet(d)] && Letters([c, d]) == [Alphabet(c), Alphabet(d)];
    assert Letters([c]) == [Alphabet(c)] && Letters([b]) == [Alphabet(b)];
    assert Letters([b, c, d]) == [Alphabet(b), Alphabet(c), Alphabet(d)] && Letters([b, c]) == [Alphabet(b), Alphabet(c)];
  }

  /** The characters of one octet, of two, and of three. */
  lemma OneOctet(x: byte)
    ensures Quantum([x]) == [Alphabet(x / 4), Alphabet(x % 4 * 16), PAD, PAD]
  {
    DigitsSplit(x, 0, 0);
    FourLetters(x / 4, x % 4 * 16, 0, 0);
    assert Digits(x, 0, 0)[..2] == [x / 4, x % 4 * 16];
  }

  lemma TwoOctets(x: byte, y: byte)
    ensures Quantum([x, y]) == [Alphabet(x / 4), Alphabet(x % 4 * 16 + y / 16), Alphabet(y % 16 * 4), PAD]
  {
    DigitsSplit(x, y, 0);
    FourLetters(x / 4, x % 4 * 16 + y / 16, y % 16 * 4, 0);
    assert Digits(x, y, 0)[..3] == [x / 4, x % 4 * 16 + y / 16, y % 16 * 4];
  }

  lemma ThreeOctets(x: byte, y: byte, z: byte)
    ensures Quantum([x, y, z])
            == [Alphabet(x / 4), Alphabet(x % 4 * 16 + y / 16), Alphabet(y % 16 * 4 + z / 64), Alphabet(z % 64)]
  {
    DigitsSplit(x, y, z);
    FourLetters(x / 4, x % 4 * 16 + y / 16, y % 16 * 4 + z / 64, z % 64);
  }

  lemma FourCharacters(a: string)
    requires |a| == 4
    ensures Text(a) == [a[0] as int, a[1] as int, a[2] as int, a[3] as int]
  {
  }

  lemma VectorsOfOne()
    ensures Quantum([102]) == Text("Zg==") && Quantum([98]) == Text("Yg==")
  {
    OneOctet(102);
    OneOctet(98);
    FourCharacters("Zg==");
    FourCharacters("Yg==");
  }

  lemma VectorsOfTwo()
    ensures Quantum([102, 111]) == Text("Zm8=") && Quantum([98, 97]) == Text("YmE=")
  {
    TwoOctets(102, 111);
    TwoOctets(98, 97);
    FourCharacters("Zm8=");
    FourCharacters("YmE=");
  }

  lemma VectorsOfThree()
    ensures Quantum([102, 111, 111]) == Text("Zm9v") && Quantum([98, 97, 114]) == Text("YmFy")
  {
    ThreeOctets(102, 111, 111);
    ThreeOctets(98, 97, 114);
    FourCharacters("Zm9v");
    FourCharacters("YmFy");
  }

  /** Section 10 of RFC 4648: "f", "fo", "foo", "foob", "fooba" and "foobar". */
  lemma TestVectors()
    ensures Standard([]) == []
    ensures Standard([102]) == Text("Zg==") && Standard([102, 111]) == Text("Zm8=") && Standard([102, 111, 111]) == Text("Zm9v")
    ensures Standard([102, 111, 111] + [98]) == Text("Zm9v") + Text("Yg==")
    ensures Standard([102, 111, 111] + [98, 97]) == Text("Zm9v") + Text("YmE=")
    ensures Standard([102, 111, 111] + [98, 97, 114]) == Text("Zm9v") + Text("YmFy")
  {
    VectorsOfOne();
    VectorsOfTwo();
    VectorsOfThree();
    ThreeAndMore([102, 111, 111], [98]);
    ThreeAndMore([102, 111, 111], [98, 97]);
    ThreeAndMore([102, 111, 111], [98, 97, 114]);
  }

  lemma ThreeAndMore(a: seq<byte>, b: seq<byte>)
    requires |a| == 3 && 1 <= |b| <= 3
    ensures Standard(a) == Quantum(a) && Standard(a + b) == Quantum(a) + Quantum(b)
  {
    assert (a + b)[..3] == a && (a + b)[3..] == b;
  }

  /** Bit k of a two's complement number. */
  function Bit(x: int, k: nat): bool
    decreases k
  {
    if k == 0 then x % 2 == 1 else Bit(x / 2, k - 1)
  }

  /** The lowest bit of an or, and the others. */
  lemma OrHalf(x: int, y: int) returns (r: int, half: int)
    ensures r == Or(x, y) && half == Or(x / 2, y / 2) && r / 2 == half
    ensures r % 2 == 1 <==> x % 2 == 1 || y % 2 == 1
  {
    r, half := Or(x, y), Or(x / 2, y / 2);
    if x != 0 && y != 0 && x != -1 && y != -1 {
      Quotient(r, 2, half, if x % 2 == 1 || y % 2 == 1 then 1 else 0);
    }
  }

  /** Or, bit by bit, of negative numbers too. */
  lemma {:induction false} OrBits(x: int, y: int, k: nat)
    ensures Bit(Or(x, y), k) <==> Bit(x, k) || Bit(y, k)
    decreases k
  {
    var r, half := OrHalf(x, y);
    if k > 0 {
      OrBits(x / 2, y / 2, k - 1);
    }
  }

  lemma BitDoubled(x: int, k: nat)
    ensures Bit(2 * x, k) <==> k > 0 && Bit(x, k - 1)
    ensures Bit(x / 2, k) <==> Bit(x, k + 1)
  {
  }

  /** Shifts move bits. */
  lemma BitShifted(x: int, k: nat)
    ensures Bit(x * 4, k) <==> k >= 2 && Bit(x, k - 2)
    ensures Bit(x * 16, k) <==> k >= 4 && Bit(x, k - 4)
    ensures Bit(x * 64, k) <==> k >= 6 && Bit(x, k - 6)
  {
    BitTwice(x, k);
    BitTwice(x * 4, k);
    BitTwice(x * 16, k);
    if k >= 2 {
      BitTwice(x, k - 2);
      BitTwice(x * 4, k - 2);
    }
    if k >= 4 {
      BitTwice(x, k - 4);
    }
  }

  lemma BitTwice(x: int, k: nat)
    ensures Bit(x * 4, k) <==> k >= 2 && Bit(x, k - 2)
  {
    BitDoubled(x * 2, k);
    if k >= 1 {
      BitDoubled(x, k - 1);
    }
  }

  lemma BitBelow(x: int, k: nat)
    ensures Bit(x / 4, k) <==> Bit(x, k + 2)
    ensures Bit(x / 16, k) <==> Bit(x, k + 4)
  {
    BitDoubled(x, k + 1);
    BitDoubled(x / 2, k);
    assert x / 2 / 2 == x / 4;
    BitDoubled(x, k + 3);
    BitDoubled(x / 2, k + 2);
    BitDoubled(x / 4, k + 1);
    BitDoubled(x / 4 / 2, k);
    assert x / 4 / 2 / 2 == x / 16;
  }

  /** Cutting down to a char keeps the low eight bits. */
  lemma CutComesTo(x: int)
    ensures -128 <= Cut(x) < 128 && (x - Cut(x)) % 256 == 0
  {
  }

  lemma {:induction false} SameBits(x: int, q: int, m: nat, k: nat)
    requires k < m
    ensures Bit(x + q * Pow2(m), k) <==> Bit(x, k)
    decreases k
  {
    assert q * Pow2(m) == 2 * (q * Pow2(m - 1));
    if k > 0 {
      assert (x + 2 * (q * Pow2(m - 1))) / 2 == x / 2 + q * Pow2(m - 1);
      SameBits(x / 2, q, m - 1, k - 1);
    }
  }

  lemma CutBits(x: int, k: nat)
    requires k < 8
    ensures Bit(Cut(x), k) <==> Bit(x, k)
  {
    assert Pow2(8) == 256 by {
      assert Pow2(4) == 16;
    }
    var q := (x - Cut(x)) / 256;
    CutComesTo(x);
    assert x == Cut(x) + q * 256;
    SameBits(Cut(x), q, 8, k);
  }

  /**
   * What the decoder joins four digits to, bit by bit; for characters outside the alphabet too, which stand for themselves.
   */
  lemma JoinedBits(d0: int, d1: int, d2: int, d3: int, k: nat)
    requires k < 8
    ensures var w := Joined(d0, d1, d2, d3);
            && (Bit(w[0], k) <==> (k >= 2 && Bit(d0, k - 2)) || Bit(d1, k + 4))
            && (Bit(w[1], k) <==> (k >= 4 && Bit(d1, k - 4)) || Bit(d2, k + 2))
            && (Bit(w[2], k) <==> (k >= 6 && Bit(d2, k - 6)) || Bit(d3, k))
  {
    CutBits(Or(d0 * 4, d1 / 16), k);
    CutBits(Or(d1 * 16, d2 / 4), k);
    CutBits(Or(d2 * 64, d3), k);
    OrBits(d0 * 4, d1 / 16, k);
    OrBits(d1 * 16, d2 / 4, k);
    OrBits(d2 * 64, d3, k);
    BitShifted(d0, k);
    BitShifted(d1, k);
    BitShifted(d2, k);
    BitBelow(d1, k);
    BitBelow(d2, k);
  }

  /** A last word of fewer than four characters is filled up with what stands for 0. */
  lemma ShortWord(s: seq<CChar>)
    requires |s| < 4
    ensures OutWord(s) == OutWord(s + seq(4 - |s|, _ => 'A' as int))
  {
    var t := s + seq(4 - |s|, _ => 'A' as int);
    assert forall i :: 0 <= i < 4 ==> DigitAt(t, i) == DigitAt(s, i);
  }

  /** A string is decoded four characters at a time, and of each word what is not positive is dropped. */
  lemma WordByWord(a: seq<CChar>, b: seq<CChar>)
    requires |a| == 4
    ensures Decoded(a + b) == Positive(OutWord(a)) + Decoded(b)
  {
    assert (a + b)[..4] == a && (a + b)[4..] == b;
    if b == [] {
      assert a + b == a;
    }
  }

  lemma {:induction false} PositiveKeeps(w: seq<SChar>, x: SChar)
    ensures x in Positive(w) <==> x in w && x > 0
  {
    if w != [] {
      PositiveKeeps(w[1..], x);
      assert w == [w[0]] + w[1..];
    }
  }
}
