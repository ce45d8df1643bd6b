/** base64url without padding (section 5 of RFC 4648), as the token envelope uses it: the decoder
    accepts no padding, no foreign characters and no stray trailing bits. */
module Base64Url {

  import opened Options

  type Byte = x: nat | x < 256
  type Digit = x: nat | x < 64

  // ----- the alphabet -----

  function CharOf(d: Digit): char
  {
    if d < 26 then 'A' + d as char
    else if d < 52 then 'a' + (d - 26) as char
    else if d < 62 then '0' + (d - 52) as char
    else if d == 62 then '-' else '_'
  }

  function DigitOf(c: char): Option<Digit>
  {
    if 'A' <= c <= 'Z' then Some((c - 'A') as nat)
    else if 'a' <= c <= 'z' then Some((c - 'a') as nat + 26)
    else if '0' <= c <= '9' then Some((c - '0') as nat + 52)
    else if c == '-' then Some(62)
    else if c == '_' then Some(63)
    else None
  }

  lemma AlphabetInverse(d: Digit)
    ensures DigitOf(CharOf(d)) == Some(d) && CharOf(d) != '.'
  {
  }

  lemma AlphabetCanonical(c: char)
    requires DigitOf(c).Some?
    ensures CharOf(DigitOf(c).value) == c
  {
  }

  /** Table 2 of RFC 4648. */
  lemma Alphabet(d: Digit)
    ensures CharOf(d) == ("ABCDEFGHIJKLMNOPQRSTUVWXYZ" + "abcdefghijklmnopqrstuvwxyz" + "0123456789-_")[d]
  {
    if d < 26 {
      UpperCase(d);
    } else if d < 52 {
      LowerCase(d);
    } else {
      Figures(d);
    }
  }

  lemma UpperCase(d: Digit)
    requires d < 26
    ensures CharOf(d) == "ABCDEFGHIJKLMNOPQRSTUVWXYZ"[d]
  {
  }

  lemma LowerCase(d: Digit)
    requires 26 <= d < 52
    ensures CharOf(d) == "abcdefghijklmnopqrstuvwxyz"[d - 26]
  {
  }

  lemma Figures(d: Digit)
    requires 52 <= d
    ensures CharOf(d) == "0123456789-_"[d - 52]
  {
  }

  // ----- bytes to digits -----

  function ToDigits(b: seq<Byte>): seq<Digit>
  {
    if |b| == 0 then []
    else if |b| == 1 then [b[0] / 4, (b[0] % 4) * 16]
    else if |b| == 2 then [b[0] / 4, (b[0] % 4) * 16 + b[1] / 16, (b[1] % 16) * 4]
    else [b[0] / 4, (b[0] % 4) * 16 + b[1] / 16, (b[1] % 16) * 4 + b[2] / 64, b[2] % 64] + ToDigits(b[3..])
  }

  /** The three bytes that four digits carry. */
  function First(a: Digit, b: Digit): Byte { a * 4 + b / 16 }
  function Second(b: Digit, c: Digit): Byte { (b % 16) * 16 + c / 4 }
  function Third(c: Digit, d: Digit): Byte { (c % 4) * 64 + d }

  /** None for a lone leftover digit or nonzero unused bits. */
  function FromDigits(d: seq<Digit>): Option<seq<Byte>>
  {
    if |d| == 0 then Some([])
    else if |d| == 1 then None
    else if |d| == 2 then (if d[1] % 16 == 0 then Some([First(d[0], d[1])]) else None)
    else if |d| == 3 then
      (if d[2] % 4 == 0 then Some([First(d[0], d[1]), Second(d[1], d[2])]) else None)
    else
      var rest := FromDigits(d[4..]);
      if rest.None? then None
      else Some([First(d[0], d[1]), Second(d[1], d[2]), Third(d[2], d[3])] + rest.value)
  }

  lemma BytesCarried(x: Byte, y: Byte, z: Byte)
    ensures First(x / 4, (x % 4) * 16 + y / 16) == x
    ensures Second((x % 4) * 16 + y / 16, (y % 16) * 4 + z / 64) == y
    ensures Third((y % 16) * 4 + z / 64, z % 64) == z
  {
  }

  lemma FirstParts(a: Digit, b: Digit)
    ensures First(a, b) / 4 == a && (First(a, b) % 4) * 16 == b - b % 16
  {
  }

  lemma SecondParts(b: Digit, c: Digit)
    ensures Second(b, c) / 16 == b % 16 && (Second(b, c) % 16) * 4 == c - c % 4
  {
  }

  lemma ThirdParts(c: Digit, d: Digit)
    ensures Third(c, d) / 64 == c % 4 && Third(c, d) % 64 == d
  {
  }

  lemma ToDigitsLong(b: seq<Byte>)
    requires |b| >= 3
    ensures var d := ToDigits(b);
            |d| >= 4 && d[4..] == ToDigits(b[3..])
            && First(d[0], d[1]) == b[0] && Second(d[1], d[2]) == b[1] && Third(d[2], d[3]) == b[2]
  {
    BytesCarried(b[0], b[1], b[2]);
  }

  lemma {:induction false} DigitsRoundTrip(b: seq<Byte>)
    ensures FromDigits(ToDigits(b)) == Some(b)
  {
    if |b| >= 3 {
      DigitsRoundTrip(b[3..]);
      ToDigitsLong(b);
      assert b == [b[0], b[1], b[2]] + b[3..];
    } else if |b| == 2 {
      TwoRoundTrip(b[0], b[1]);
      assert b == [b[0], b[1]];
    } else if |b| == 1 {
      OneRoundTrip(b[0]);
      assert b == [b[0]];
    }
  }

  lemma TwoCarried(x: Byte, y: Byte)
    ensures First(x / 4, (x % 4) * 16 + y / 16) == x
    ensures Second((x % 4) * 16 + y / 16, (y % 16) * 4) == y
    ensures ((y % 16) * 4) % 4 == 0
  {
  }

  lemma OneCarried(x: Byte)
    ensures First(x / 4, (x % 4) * 16) == x && ((x % 4) * 16) % 16 == 0
  {
  }

  lemma TwoRoundTrip(x: Byte, y: Byte)
    ensures FromDigits([x / 4, (x % 4) * 16 + y / 16, (y % 16) * 4]) == Some([x, y])
  {
    TwoCarried(x, y);
  }

  lemma OneRoundTrip(x: Byte)
    ensures FromDigits([x / 4, (x % 4) * 16]) == Some([x])
  {
    OneCarried(x);
  }

  lemma {:induction false} DigitsCanonical(d: seq<Digit>)
    requires FromDigits(d).Some?
    ensures ToDigits(FromDigits(d).value) == d
  {
    if |d| >= 4 {
      DigitsCanonical(d[4..]);
      FirstParts(d[0], d[1]);
      SecondParts(d[1], d[2]);
      ThirdParts(d[2], d[3]);
      var b := FromDigits(d).value;
      assert b[3..] == FromDigits(d[4..]).value;
      assert d == [d[0], d[1], d[2], d[3]] + d[4..];
    } else if |d| == 3 {
      FirstParts(d[0], d[1]);
      SecondParts(d[1], d[2]);
      assert d == [d[0], d[1], d[2]];
    } else if |d| == 2 {
      FirstParts(d[0], d[1]);
      assert d == [d[0], d[1]];
    }
  }

  /** The numbers that four digits and three bytes spell. */
  function FourValue(a: nat, b: nat, c: nat, d: nat): nat { ((a * 64 + b) * 64 + c) * 64 + d }
  function ThreeValue(x: nat, y: nat, z: nat): nat { (x * 256 + y) * 256 + z }

  lemma GroupValue(x: Byte, y: Byte, z: Byte)
    ensures FourValue(x / 4, (x % 4) * 16 + y / 16, (y % 16) * 4 + z / 64, z % 64) == ThreeValue(x, y, z)
  {
  }

  lemma Behind(d: seq<Digit>, e: seq<Digit>, k: nat)
    requires |d| >= 4 && d[4..] == e && k + 4 <= |e|
    ensures d[k + 4] == e[k] && d[k + 5] == e[k + 1] && d[k + 6] == e[k + 2] && d[k + 7] == e[k + 3]
  {
  }

  /** Digits carry the bytes' bits in order: each group of four is the same number as its three bytes. */
  lemma {:induction false} BitsInOrder(b: seq<Byte>, i: nat)
    requires 3 * i + 3 <= |b|
    ensures 4 * i + 4 <= |ToDigits(b)|
    ensures var d := ToDigits(b);
            FourValue(d[4 * i], d[4 * i + 1], d[4 * i + 2], d[4 * i + 3]) == ThreeValue(b[3 * i], b[3 * i + 1], b[3 * i + 2])
  {
    if i == 0 {
      GroupValue(b[0], b[1], b[2]);
    } else {
      BitsInOrder(b[3..], i - 1);
      ToDigitsLong(b);
      var d, e, j := ToDigits(b), ToDigits(b[3..]), i - 1;
      Behind(d, e, 4 * j);
      assert b[3 * i] == b[3..][3 * j] && b[3 * i + 1] == b[3..][3 * j + 1] && b[3 * i + 2] == b[3..][3 * j + 2];
    }
  }

  ghost predicate EndsAs(b: seq<Byte>, d: seq<Digit>, n: nat)
    requires 3 * n <= |b| < 3 * n + 3
  {
    var r := |b| - 3 * n;
    && |d| == 4 * n + (if r == 0 then 0 else r + 1)
    && (r == 1 ==> FourValue(d[4 * n], d[4 * n + 1], 0, 0) == ThreeValue(b[3 * n], 0, 0))
    && (r == 2 ==> FourValue(d[4 * n], d[4 * n + 1], d[4 * n + 2], 0) == ThreeValue(b[3 * n], b[3 * n + 1], 0))
  }

  lemma EndBehind(b: seq<Byte>, c: seq<Byte>, d: seq<Digit>, e: seq<Digit>, n: nat, m: nat)
    requires n == m + 1 && 3 * n <= |b| < 3 * n + 3 && c == b[3..] && |d| >= 4 && e == d[4..] && EndsAs(c, e, m)
    ensures EndsAs(b, d, n)
  {
    assert 3 * n == 3 * m + 3 && 4 * n == 4 * m + 4 && |b| - 3 * n == |c| - 3 * m;
  }

  lemma ShortEnd(b: seq<Byte>)
    requires |b| < 3
    ensures EndsAs(b, ToDigits(b), 0)
  {
    if |b| == 1 { GroupValue(b[0], 0, 0); }
    if |b| == 2 { GroupValue(b[0], b[1], 0); }
  }

  /** What is left behind the last whole group: one byte fills two digits and two bytes fill three, from the top bit
      down, and the bits that remain are zero. */
  lemma {:induction false} BitsAtEnd(b: seq<Byte>, n: nat)
    requires 3 * n <= |b| < 3 * n + 3
    ensures EndsAs(b, ToDigits(b), n)
  {
    if n == 0 {
      ShortEnd(b);
    } else {
      BitsAtEnd(b[3..], n - 1);
      ToDigitsLong(b);
      EndBehind(b, b[3..], ToDigits(b), ToDigits(b[3..]), n, n - 1);
    }
  }

  // ----- characters -----

  function ToChars(d: seq<Digit>): (s: string)
    ensures |s| == |d|
  {
    seq(|d|, i requires 0 <= i < |d| => CharOf(d[i]))
  }

  function FromChars(s: string): (r: Option<seq<Digit>>)
    ensures r.Some? ==> |r.value| == |s|
  {
    if s == "" then Some([])
    else
      var first, rest := DigitOf(s[0]), FromChars(s[1..]);
      if first.None? || rest.None? then None else Some([first.value] + rest.value)
  }

  lemma {:induction false} CharsRoundTrip(d: seq<Digit>)
    ensures FromChars(ToChars(d)) == Some(d)
  {
    if d != [] {
      CharsRoundTrip(d[1..]);
      assert ToChars(d)[1..] == ToChars(d[1..]);
      AlphabetInverse(d[0]);
      assert d == [d[0]] + d[1..];
    }
  }

  lemma {:induction false} CharsCanonical(s: string)
    requires FromChars(s).Some?
    ensures ToChars(FromChars(s).value) == s
  {
    if s != "" {
      CharsCanonical(s[1..]);
      AlphabetCanonical(s[0]);
      var d := FromChars(s).value;
      assert d[1..] == FromChars(s[1..]).value;
      assert ToChars(d) == [CharOf(d[0])] + ToChars(d[1..]);
      assert s == [s[0]] + s[1..];
    }
  }

  function Encode(b: seq<Byte>): string
  {
    ToChars(ToDigits(b))
  }

  function Decode(s: string): Option<seq<Byte>>
  {
    var d := FromChars(s);
    if d.None? then None else FromDigits(d.value)
  }

  /** Decoding undoes encoding, and the separator never occurs in encoded text. */
  lemma DecodeEncode(b: seq<Byte>)
    ensures Decode(Encode(b)) == Some(b)
    ensures '.' !in Encode(b)
  {
    CharsRoundTrip(ToDigits(b));
    DigitsRoundTrip(b);
    forall i | 0 <= i < |Encode(b)|
      ensures Encode(b)[i] != '.'
    {
      AlphabetInverse(ToDigits(b)[i]);
    }
  }

  /** Only the canonical encoding of a byte string decodes. */
  lemma EncodeDecode(s: string)
    requires Decode(s).Some?
    ensures Encode(Decode(s).value) == s
  {
    CharsCanonical(s);
    DigitsCanonical(FromChars(s).value);
  }

  /** Every character stands for the digit at its place in the alphabet. */
  lemma EncodedAre(b: seq<Byte>, k: nat)
    requires k < |ToDigits(b)|
    ensures |Encode(b)| == |ToDigits(b)|
    ensures Encode(b)[k] == ("ABCDEFGHIJKLMNOPQRSTUVWXYZ" + "abcdefghijklmnopqrstuvwxyz" + "0123456789-_")[ToDigits(b)[k]]
  {
    Alphabet(ToDigits(b)[k]);
  }
}
