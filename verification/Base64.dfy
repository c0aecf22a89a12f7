/** `base64.RawStdEncoding.Strict()`: the standard alphabet of RFC 4648 section 4, no padding
    (section 3.2), and no stray bits after the last byte (section 3.5). The decoder skips CR and LF. */
module Base64 {
  import opened Wrappers

  type Byte = x: int | 0 <= x < 256
  type Sextet = x: int | 0 <= x < 64

  function CharOf(x: Sextet): char {
    if x < 26 then ('A' as int + x) as char
    else if x < 52 then ('a' as int + x - 26) as char
    else if x < 62 then ('0' as int + x - 52) as char
    else if x == 62 then '+' else '/'
  }

  function ValueOf(c: char): Option<Sextet> {
    if 'A' <= c <= 'Z' then Some(c as int - 'A' as int)
    else if 'a' <= c <= 'z' then Some(c as int - 'a' as int + 26)
    else if '0' <= c <= '9' then Some(c as int - '0' as int + 52)
    else if c == '+' then Some(62)
    else if c == '/' then Some(63)
    else None
  }

  /** The four digits of three bytes; a missing byte counts as zero. */
  function Digit0(x: Byte): Sextet { x / 4 }
  function Digit1(x: Byte, y: Byte): Sextet { x % 4 * 16 + y / 16 }
  function Digit2(y: Byte, z: Byte): Sextet { y % 16 * 4 + z / 64 }
  function Digit3(z: Byte): Sextet { z % 64 }

  function Digits(b: seq<Byte>): seq<Sextet> {
    if |b| == 0 then []
    else if |b| == 1 then [Digit0(b[0]), Digit1(b[0], 0)]
    else if |b| == 2 then [Digit0(b[0]), Digit1(b[0], b[1]), Digit2(b[1], 0)]
    else [Digit0(b[0]), Digit1(b[0], b[1]), Digit2(b[1], b[2]), Digit3(b[2])] + Digits(b[3..])
  }

  function Chars(v: seq<Sextet>): (s: string)
    ensures |s| == |v| && forall i :: 0 <= i < |s| ==> s[i] == CharOf(v[i])
  {
    if v == [] then [] else [CharOf(v[0])] + Chars(v[1..])
  }

  function Encode(b: seq<Byte>): string {
    Chars(Digits(b))
  }

  function SkipNewlines(s: string): string {
    if s == [] then []
    else (if s[0] == '\r' || s[0] == '\n' then [] else [s[0]]) + SkipNewlines(s[1..])
  }

  function Values(s: string): Option<seq<Sextet>> {
    if s == [] then Some([])
    else
      match (ValueOf(s[0]), Values(s[1..]))
      case (Some(v), Some(vs)) => Some([v] + vs)
      case _ => None
  }

  function Byte0(a: Sextet, b: Sextet): Byte { a * 4 + b / 16 }
  function Byte1(b: Sextet, c: Sextet): Byte { b % 16 * 16 + c / 4 }
  function Byte2(c: Sextet, d: Sextet): Byte { c % 4 * 64 + d }

  /** Four digits to three bytes; a short last group must not carry bits past its last byte. */
  function Bytes(v: seq<Sextet>): Option<seq<Byte>> {
    if |v| == 0 then Some([])
    else if |v| == 1 then None
    else if |v| == 2 then
      if v[1] % 16 != 0 then None else Some([Byte0(v[0], v[1])])
    else if |v| == 3 then
      if v[2] % 4 != 0 then None else Some([Byte0(v[0], v[1]), Byte1(v[1], v[2])])
    else
      match Bytes(v[4..])
      case Some(rest) => Some([Byte0(v[0], v[1]), Byte1(v[1], v[2]), Byte2(v[2], v[3])] + rest)
      case None => None
  }

  function Decode(s: string): Option<seq<Byte>> {
    match Values(SkipNewlines(s))
    case Some(v) => Bytes(v)
    case None => None
  }

  lemma CharRoundTrip(x: Sextet)
    ensures ValueOf(CharOf(x)) == Some(x)
  {
  }

  lemma ValueRoundTrip(c: char)
    requires ValueOf(c).Some?
    ensures CharOf(ValueOf(c).value) == c
  {
  }

  /** Digits and characters correspond one to one. */
  lemma {:induction false} ValuesIff(s: string, v: seq<Sextet>)
    ensures Values(s) == Some(v) <==> s == Chars(v)
  {
    if s != [] && v != [] {
      ValuesIff(s[1..], v[1..]);
      CharRoundTrip(v[0]);
      if ValueOf(s[0]).Some? { ValueRoundTrip(s[0]); }
      assert s == [s[0]] + s[1..] && v == [v[0]] + v[1..];
    }
  }

  // ---- the one-to-one correspondences, group by group --------------------------------------

  lemma BytesOfQuantum(x: Byte, y: Byte, z: Byte)
    ensures Byte0(Digit0(x), Digit1(x, y)) == x
    ensures Byte1(Digit1(x, y), Digit2(y, z)) == y
    ensures Byte2(Digit2(y, z), Digit3(z)) == z
    ensures Digit1(x, 0) % 16 == 0 && Digit2(y, 0) % 4 == 0
  {
  }

  lemma DigitsOfQuantum(a: Sextet, b: Sextet, c: Sextet, d: Sextet)
    ensures Digit0(Byte0(a, b)) == a
    ensures Digit1(Byte0(a, b), Byte1(b, c)) == b
    ensures Digit2(Byte1(b, c), Byte2(c, d)) == c
    ensures Digit3(Byte2(c, d)) == d
    ensures b % 16 == 0 ==> Digit1(Byte0(a, b), 0) == b
    ensures c % 4 == 0 ==> Digit2(Byte1(b, c), 0) == c
  {
  }

  lemma BytesOfTwo(a: Sextet, b: Sextet)
    ensures Bytes([a, b]) == if b % 16 != 0 then None else Some([Byte0(a, b)])
  {
  }

  lemma BytesOfThree(a: Sextet, b: Sextet, c: Sextet)
    ensures Bytes([a, b, c]) == if c % 4 != 0 then None else Some([Byte0(a, b), Byte1(b, c)])
  {
  }

  lemma BytesOfFour(a: Sextet, b: Sextet, c: Sextet, d: Sextet, rest: seq<Sextet>)
    ensures Bytes([a, b, c, d] + rest) ==
            match Bytes(rest)
            case Some(more) => Some([Byte0(a, b), Byte1(b, c), Byte2(c, d)] + more)
            case None => None
  {
    assert ([a, b, c, d] + rest)[4..] == rest;
  }

  lemma BytesOfDigitsOfOne(x: Byte)
    ensures Bytes(Digits([x])) == Some([x])
  {
    assert Digits([x]) == [Digit0(x), Digit1(x, 0)];
    BytesOfQuantum(x, 0, 0);
    BytesOfTwo(Digit0(x), Digit1(x, 0));
  }

  lemma BytesOfDigitsOfTwo(x: Byte, y: Byte)
    ensures Bytes(Digits([x, y])) == Some([x, y])
  {
    assert Digits([x, y]) == [Digit0(x), Digit1(x, y), Digit2(y, 0)];
    BytesOfQuantum(x, y, 0);
    BytesOfThree(Digit0(x), Digit1(x, y), Digit2(y, 0));
  }

  lemma {:induction false} BytesOfDigitsOfThree(x: Byte, y: Byte, z: Byte, rest: seq<Byte>)
    requires Bytes(Digits(rest)) == Some(rest)
    ensures Bytes(Digits([x, y, z] + rest)) == Some([x, y, z] + rest)
  {
    assert ([x, y, z] + rest)[3..] == rest;
    assert Digits([x, y, z] + rest) == [Digit0(x), Digit1(x, y), Digit2(y, z), Digit3(z)] + Digits(rest);
    BytesOfQuantum(x, y, z);
    BytesOfFour(Digit0(x), Digit1(x, y), Digit2(y, z), Digit3(z), Digits(rest));
  }

  /** Groups of digits and groups of bytes correspond one to one. */
  lemma {:induction false} BytesOfDigits(b: seq<Byte>)
    ensures Bytes(Digits(b)) == Some(b)
  {
    if |b| == 1 {
      BytesOfDigitsOfOne(b[0]);
      assert b == [b[0]];
    } else if |b| == 2 {
      BytesOfDigitsOfTwo(b[0], b[1]);
      assert b == [b[0], b[1]];
    } else if |b| >= 3 {
      BytesOfDigits(b[3..]);
      BytesOfDigitsOfThree(b[0], b[1], b[2], b[3..]);
      assert b == [b[0], b[1], b[2]] + b[3..];
    }
  }

  lemma {:induction false} DigitsOfBytes(v: seq<Sextet>, b: seq<Byte>)
    requires Bytes(v) == Some(b)
    ensures Digits(b) == v
  {
    if |v| == 2 {
      DigitsOfQuantum(v[0], v[1], 0, 0);
    } else if |v| == 3 {
      DigitsOfQuantum(v[0], v[1], v[2], 0);
    } else if |v| >= 4 {
      var rest := Bytes(v[4..]).value;
      DigitsOfBytes(v[4..], rest);
      DigitsOfQuantum(v[0], v[1], v[2], v[3]);
      assert b[3..] == rest;
      assert v == [v[0], v[1], v[2], v[3]] + v[4..];
    }
  }

  lemma {:induction false} NothingToSkip(s: string)
    requires '\r' !in s && '\n' !in s
    ensures SkipNewlines(s) == s
  {
    if s != [] {
      NothingToSkip(s[1..]);
    }
  }

  /** Only letters, digits, '+' and '/' are ever produced. */
  lemma EncodeAlphabet(b: seq<Byte>)
    ensures forall c :: c in Encode(b) ==> ValueOf(c).Some?
  {
    forall c | c in Encode(b) ensures ValueOf(c).Some? {
      var i :| 0 <= i < |Digits(b)| && c == CharOf(Digits(b)[i]);
      CharRoundTrip(Digits(b)[i]);
    }
  }

  /** A text decodes to `b` exactly when, newlines aside, it is the encoding of `b`. */
  lemma DecodeIff(s: string, b: seq<Byte>)
    ensures Decode(s) == Some(b) <==> SkipNewlines(s) == Encode(b)
  {
    ValuesIff(SkipNewlines(s), Digits(b));
    BytesOfDigits(b);
    if Decode(s) == Some(b) {
      DigitsOfBytes(Values(SkipNewlines(s)).value, b);
    }
  }

  /** Decoding undoes encoding, for byte strings of any length. */
  lemma RoundTrip(b: seq<Byte>)
    ensures Decode(Encode(b)) == Some(b)
  {
    EncodeAlphabet(b);
    NothingToSkip(Encode(b));
    DecodeIff(Encode(b), b);
  }

  // ---- against the standard ----------------------------------------------------------------

  /** The alphabet of RFC 4648 section 4. */
  lemma AlphabetIs(x: Sextet)
    ensures x < 26 ==> CharOf(x) == "ABCDEFGHIJKLMNOPQRSTUVWXYZ"[x]
    ensures 26 <= x < 52 ==> CharOf(x) == "abcdefghijklmnopqrstuvwxyz"[x - 26]
    ensures 52 <= x ==> CharOf(x) == "0123456789+/"[x - 52]
  {
  }

  /** Four digits of base 64 and three of base 256 are the same number. */
  lemma DigitsAreTheNumber(x: Byte, y: Byte, z: Byte)
    ensures ((Digit0(x) * 64 + Digit1(x, y)) * 64 + Digit2(y, z)) * 64 + Digit3(z) == (x * 256 + y) * 256 + z
  {
  }

  lemma {:induction false} SkipNewlinesConcat(a: string, b: string)
    ensures SkipNewlines(a + b) == SkipNewlines(a) + SkipNewlines(b)
  {
    if a == [] {
      assert a + b == b;
    } else {
      assert (a + b)[1..] == a[1..] + b;
      SkipNewlinesConcat(a[1..], b);
    }
  }

  /** Line breaks may stand anywhere in an encoded text. */
  lemma NewlinesDoNotCount(a: string, c: char, b: string)
    requires c == '\r' || c == '\n'
    ensures Decode(a + [c] + b) == Decode(a + b)
  {
    SkipNewlinesConcat(a + [c], b);
    SkipNewlinesConcat(a, [c]);
    SkipNewlinesConcat(a, b);
    assert [c][1..] == [] && SkipNewlines([c]) == [];
    assert SkipNewlines(a) + [] == SkipNewlines(a);
  }

  lemma EncodeOne(x: Byte)
    ensures Encode([x]) == [CharOf(Digit0(x)), CharOf(Digit1(x, 0))]
  {
    assert Digits([x]) == [Digit0(x), Digit1(x, 0)];
  }

  lemma EncodeTwo(x: Byte, y: Byte)
    ensures Encode([x, y]) == [CharOf(Digit0(x)), CharOf(Digit1(x, y)), CharOf(Digit2(y, 0))]
  {
    assert Digits([x, y]) == [Digit0(x), Digit1(x, y), Digit2(y, 0)];
  }

  /** Three bytes are encoded on their own. */
  lemma {:induction false} EncodeThree(x: Byte, y: Byte, z: Byte, rest: seq<Byte>)
    ensures Encode([x, y, z] + rest)
         == [CharOf(Digit0(x)), CharOf(Digit1(x, y)), CharOf(Digit2(y, z)), CharOf(Digit3(z))] + Encode(rest)
  {
    assert ([x, y, z] + rest)[3..] == rest;
    assert Digits([x, y, z] + rest) == [Digit0(x), Digit1(x, y), Digit2(y, z), Digit3(z)] + Digits(rest);
  }

  const FOO: seq<Byte> := [0x66, 0x6F, 0x6F]

  lemma EncodeFoo(rest: seq<Byte>)
    ensures Encode(FOO + rest) == ['Z', 'm', '9', 'v'] + Encode(rest)
  {
    EncodeThree(0x66, 0x6F, 0x6F, rest);
  }

  lemma BarVectors()
    ensures Encode([0x62]) == "Yg" && Encode([0x62, 0x61]) == "YmE" && Encode([0x62, 0x61, 0x72]) == "YmFy"
  {
    EncodeOne(0x62);
    EncodeTwo(0x62, 0x61);
    EncodeThree(0x62, 0x61, 0x72, []);
    assert [0x62, 0x61, 0x72] == [0x62, 0x61, 0x72] + [];
  }

  /** The seven test vectors of RFC 4648 section 10, without their padding. */
  lemma TestVectors()
    ensures Encode([]) == "" && Encode([0x66]) == "Zg" && Encode([0x66, 0x6F]) == "Zm8" && Encode(FOO) == "Zm9v"
    ensures Encode(FOO + [0x62]) == "Zm9v" + "Yg"
    ensures Encode(FOO + [0x62, 0x61]) == "Zm9v" + "YmE"
    ensures Encode(FOO + [0x62, 0x61, 0x72]) == "Zm9v" + "YmFy"
  {
    EncodeOne(0x66);
    EncodeTwo(0x66, 0x6F);
    assert FOO == FOO + [];
    EncodeFoo([]);
    BarVectors();
    EncodeFoo([0x62]);
    EncodeFoo([0x62, 0x61]);
    EncodeFoo([0x62, 0x61, 0x72]);
  }
}
