/** The Argon2id hash string of internal/auth/password.go: printing, parsing and checking. */
module Password {
  import opened Base64
  import opened Wrappers
  import Text

  const MEMORY := 65536
  const TIME := 3
  const THREADS := 4
  const KEY_LENGTH := 32

  /** Argon2 version 0x13, section 3.1 of RFC 9106. */
  const VERSION := 19

  const MAX_UINT8 := 0x100
  const MAX_UINT32 := 0x1_0000_0000
  const MAX_INT64 := 0x8000_0000_0000_0000

  datatype Params = Params(memory: nat, time: nat, threads: nat)

  predicate InRange(p: Params) {
    p.memory < MAX_UINT32 && p.time < MAX_UINT32 && p.threads < MAX_UINT8
  }

  // ---- decimals and the scanner ----------------------------------------------------------

  predicate IsDigit(c: char) { '0' <= c <= '9' }

  function Decimal(n: nat): string {
    (if n < 10 then [] else Decimal(n / 10)) + [('0' as int + n % 10) as char]
  }

  function Value(digits: string): nat
    requires forall c :: c in digits ==> IsDigit(c)
  {
    if digits == [] then 0
    else
      assert IsDigit(digits[|digits| - 1]);
      Value(digits[..|digits| - 1]) * 10 + (digits[|digits| - 1] as int - '0' as int)
  }

  /** The scanner skips white space before a number, but a newline there is an error. */
  function SkipSpace(s: string): Option<string> {
    if s == [] || !Text.IsSpace(s[0]) then Some(s)
    else if s[0] == '\n' then None
    else SkipSpace(s[1..])
  }

  function DigitPrefix(s: string): (n: nat)
    ensures n <= |s| && forall c :: c in s[..n] ==> IsDigit(c)
  {
    if s == [] || !IsDigit(s[0]) then 0
    else
      var n := 1 + DigitPrefix(s[1..]);
      assert s[..n] == [s[0]] + s[1..][..n - 1];
      n
  }

  /** `%d` into an unsigned integer below `limit`: the value and the text left over. */
  function ScanUint(s: string, limit: nat): Option<(nat, string)> {
    match SkipSpace(s)
    case None => None
    case Some(t) =>
      var n := DigitPrefix(t);
      if n == 0 || Value(t[..n]) >= limit then None else Some((Value(t[..n]), t[n..]))
  }

  /** `%d` into a signed 64-bit integer. */
  function ScanInt(s: string): Option<(int, string)> {
    match SkipSpace(s)
    case None => None
    case Some(t) =>
      var negative := t != [] && t[0] == '-';
      var u := if t != [] && (t[0] == '-' || t[0] == '+') then t[1..] else t;
      var n := DigitPrefix(u);
      if n == 0 || Value(u[..n]) >= MAX_INT64 + (if negative then 1 else 0) then None
      else
        var value: int := Value(u[..n]);
        Some((if negative then 0 - value else value, u[n..]))
  }

  /** Literal text in a scanning format must match character by character. */
  function ScanLiteral(s: string, literal: string): Option<string> {
    if literal <= s then Some(s[|literal|..]) else None
  }

  /** `Sscanf(s, "v=%d", &version)`; what follows the number is ignored. */
  function ScanVersion(s: string): Option<int> {
    match ScanLiteral(s, "v=")
    case None => None
    case Some(t) =>
      match ScanInt(t)
      case None => None
      case Some((v, _)) => Some(v)
  }

  /** A literal followed by an unsigned number. */
  function ScanField(s: string, literal: string, limit: nat): Option<(nat, string)> {
    match ScanLiteral(s, literal)
    case None => None
    case Some(t) => ScanUint(t, limit)
  }

  /** `Sscanf(s, "m=%d,t=%d,p=%d", ...)`; what follows the last number is ignored. */
  function ScanParams(s: string): Option<Params> {
    match ScanField(s, "m=", MAX_UINT32)
    case None => None
    case Some((memory, s1)) =>
      match ScanField(s1, ",t=", MAX_UINT32)
      case None => None
      case Some((time, s2)) =>
        match ScanField(s2, ",p=", MAX_UINT8)
        case None => None
        case Some((threads, _)) => Some(Params(memory, time, threads))
  }

  // ---- the hash string -------------------------------------------------------------------

  /** `strings.Split(s, "$")`. */
  function Split(s: string): (parts: seq<string>)
    ensures |parts| >= 1
  {
    if s == [] then [[]]
    else
      var rest := Split(s[1..]);
      if s[0] == '$' then [[]] + rest else [[s[0]] + rest[0]] + rest[1..]
  }

  datatype DecodeError =
    | Segments | Algorithm | VersionSyntax | UnsupportedVersion | ParamSyntax | SaltBase64 | HashBase64
  datatype Decoded = Decoded(params: Params, salt: seq<Byte>, hash: seq<Byte>) | Rejected(error: DecodeError)

  function DecodeHash(encoded: string): Decoded {
    DecodeParts(Split(encoded))
  }

  function DecodeParts(parts: seq<string>): Decoded {
    if |parts| != 6 then Rejected(Segments)
    else if parts[1] != "argon2id" then Rejected(Algorithm)
    else if ScanVersion(parts[2]).None? then Rejected(VersionSyntax)
    else if ScanVersion(parts[2]).value != VERSION then Rejected(UnsupportedVersion)
    else if ScanParams(parts[3]).None? then Rejected(ParamSyntax)
    else if Decode(parts[4]).None? then Rejected(SaltBase64)
    else if Decode(parts[5]).None? then Rejected(HashBase64)
    else Decoded(ScanParams(parts[3]).value, Decode(parts[4]).value, Decode(parts[5]).value)
  }

  function VersionText(): string { "v=" + Decimal(VERSION) }

  function ParamsText(p: Params): string {
    "m=" + Decimal(p.memory) + ",t=" + Decimal(p.time) + ",p=" + Decimal(p.threads)
  }

  function Print(p: Params, salt: seq<Byte>, hash: seq<Byte>): string {
    "" + "$" + ("argon2id" + "$" + (VersionText() + "$" + (ParamsText(p) + "$" + (Encode(salt) + "$" + Encode(hash)))))
  }

  function PrintedParts(p: Params, salt: seq<Byte>, hash: seq<Byte>): seq<string> {
    ["", "argon2id", VersionText(), ParamsText(p), Encode(salt), Encode(hash)]
  }

  /** `argon2.IDKey(password, salt, time, memory, threads, keyLength)`; it may panic. */
  type Kdf = (seq<Byte>, seq<Byte>, nat, nat, nat, nat) -> Option<seq<Byte>>

  datatype Verdict = Compared(same: bool) | Failed(error: DecodeError) | Panicked

  function VerifyPassword(kdf: Kdf, password: seq<Byte>, encoded: string): Verdict {
    match DecodeHash(encoded)
    case Rejected(e) => Failed(e)
    case Decoded(p, salt, hash) =>
      match kdf(password, salt, p.time, p.memory, p.threads, |hash| % MAX_UINT32)
      case None => Panicked
      case Some(key) => Compared(key == hash)
  }

  /** `salt` is what the random source drew. */
  function GenerateHash(kdf: Kdf, password: seq<Byte>, salt: seq<Byte>): Option<string> {
    match kdf(password, salt, TIME, MEMORY, THREADS, KEY_LENGTH)
    case None => None
    case Some(key) => Some(Print(Params(MEMORY, TIME, THREADS), salt, key))
  }

  // ---- decimals round-trip ---------------------------------------------------------------

  lemma {:induction false} DecimalIsDigits(n: nat)
    ensures Decimal(n) != [] && forall c :: c in Decimal(n) ==> IsDigit(c)
    ensures Value(Decimal(n)) == n
  {
    var d := ('0' as int + n % 10) as char;
    if n >= 10 {
      DecimalIsDigits(n / 10);
      assert Decimal(n)[..|Decimal(n)| - 1] == Decimal(n / 10);
    } else {
      assert Decimal(n) == [d] && Decimal(n)[..0] == [];
    }
  }

  lemma {:induction false} DigitPrefixOf(digits: string, rest: string)
    requires forall c :: c in digits ==> IsDigit(c)
    requires rest == [] || !IsDigit(rest[0])
    ensures DigitPrefix(digits + rest) == |digits|
  {
    if digits == [] {
      assert digits + rest == rest;
    } else {
      assert (digits + rest)[1..] == digits[1..] + rest;
      DigitPrefixOf(digits[1..], rest);
    }
  }

  lemma DigitIsNoSpace(c: char)
    requires IsDigit(c)
    ensures !Text.IsSpace(c) && c != '+' && c != '-' && c != '$'
  {
  }

  lemma NumberIsFound(digits: string, rest: string)
    requires digits != [] && forall c :: c in digits ==> IsDigit(c)
    requires rest == [] || !IsDigit(rest[0])
    ensures var s := digits + rest;
            && SkipSpace(s) == Some(s) && DigitPrefix(s) == |digits|
            && s[..|digits|] == digits && s[|digits|..] == rest && s[0] != '+' && s[0] != '-'
  {
    DigitPrefixOf(digits, rest);
    assert (digits + rest)[0] == digits[0] && digits[0] in digits;
    DigitIsNoSpace(digits[0]);
  }

  lemma ScanPrintedUint(n: nat, rest: string, limit: nat)
    requires n < limit && (rest == [] || !IsDigit(rest[0]))
    ensures ScanUint(Decimal(n) + rest, limit) == Some((n, rest))
  {
    DecimalIsDigits(n);
    ScanDigits(Decimal(n), rest, limit);
  }

  lemma ScanDigits(digits: string, rest: string, limit: nat)
    requires digits != [] && forall c :: c in digits ==> IsDigit(c)
    requires Value(digits) < limit && (rest == [] || !IsDigit(rest[0]))
    ensures ScanUint(digits + rest, limit) == Some((Value(digits), rest))
    ensures limit <= MAX_INT64 ==> ScanInt(digits + rest) == Some((Value(digits), rest))
  {
    NumberIsFound(digits, rest);
  }

  lemma ScanPrintedLiteral(literal: string, rest: string)
    ensures ScanLiteral(literal + rest, literal) == Some(rest)
  {
    assert (literal + rest)[|literal|..] == rest;
  }

  /** A printed field scans back to its number and leaves the rest. */
  lemma ScanPrintedField(literal: string, n: nat, rest: string, limit: nat)
    requires n < limit && (rest == [] || !IsDigit(rest[0]))
    ensures ScanField(literal + (Decimal(n) + rest), literal, limit) == Some((n, rest))
  {
    ScanPrintedLiteral(literal, Decimal(n) + rest);
    ScanPrintedUint(n, rest, limit);
  }

  lemma ParamsTextIs(p: Params)
    ensures ParamsText(p) ==
            "m=" + (Decimal(p.memory) + (",t=" + (Decimal(p.time) + (",p=" + (Decimal(p.threads) + [])))))
  {
  }

  lemma ScansFields(s0: string, s1: string, s2: string, rest: string, p: Params)
    requires ScanField(s0, "m=", MAX_UINT32) == Some((p.memory, s1))
    requires ScanField(s1, ",t=", MAX_UINT32) == Some((p.time, s2))
    requires ScanField(s2, ",p=", MAX_UINT8) == Some((p.threads, rest))
    ensures ScanParams(s0) == Some(p)
  {
  }

  lemma ScanPrintedParams(p: Params)
    requires InRange(p)
    ensures ScanParams(ParamsText(p)) == Some(p)
  {
    var s2 := ",p=" + (Decimal(p.threads) + []);
    var s1 := ",t=" + (Decimal(p.time) + s2);
    ParamsTextIs(p);
    ScanPrintedField("m=", p.memory, s1, MAX_UINT32);
    ScanPrintedField(",t=", p.time, s2, MAX_UINT32);
    ScanPrintedField(",p=", p.threads, [], MAX_UINT8);
    ScansFields(ParamsText(p), s1, s2, [], p);
  }

  lemma ScanPrintedVersion()
    ensures ScanVersion(VersionText()) == Some(VERSION)
  {
    DecimalIsDigits(VERSION);
    ScanDigits(Decimal(VERSION), [], MAX_UINT8);
    assert Decimal(VERSION) + [] == Decimal(VERSION);
    ScanPrintedLiteral("v=", Decimal(VERSION));
  }

  // ---- the separators stay outside the segments ------------------------------------------

  lemma {:induction false} SplitAt(a: string, b: string)
    requires '$' !in a
    ensures Split(a + "$" + b) == [a] + Split(b)
  {
    var s := a + "$" + b;
    if a == [] {
      assert s[1..] == b;
    } else {
      assert s[1..] == a[1..] + "$" + b;
      SplitAt(a[1..], b);
      assert a == [a[0]] + a[1..];
    }
  }

  lemma {:induction false} SplitNone(a: string)
    requires '$' !in a
    ensures Split(a) == [a]
  {
    if a != [] {
      SplitNone(a[1..]);
      assert a == [a[0]] + a[1..];
    }
  }

  lemma DecimalHasNoDollar(n: nat)
    ensures '$' !in Decimal(n)
  {
    DecimalIsDigits(n);
  }

  lemma EncodeHasNoDollar(b: seq<Byte>)
    ensures '$' !in Encode(b)
  {
    EncodeAlphabet(b);
  }

  lemma TextsHaveNoDollar(p: Params)
    ensures '$' !in VersionText() && '$' !in ParamsText(p)
  {
    DecimalHasNoDollar(VERSION);
    DecimalHasNoDollar(p.memory);
    DecimalHasNoDollar(p.time);
    DecimalHasNoDollar(p.threads);
  }

  /** Five dollar signs between six texts that hold none. */
  lemma SplitSix(a: string, b: string, c: string, d: string, e: string, f: string)
    requires '$' !in a && '$' !in b && '$' !in c && '$' !in d && '$' !in e && '$' !in f
    ensures Split(a + "$" + (b + "$" + (c + "$" + (d + "$" + (e + "$" + f))))) == [a, b, c, d, e, f]
  {
    SplitNone(f);
    SplitAt(e, f);
    SplitAt(d, e + "$" + f);
    SplitAt(c, d + "$" + (e + "$" + f));
    SplitAt(b, c + "$" + (d + "$" + (e + "$" + f)));
    SplitAt(a, b + "$" + (c + "$" + (d + "$" + (e + "$" + f))));
  }

  lemma PrintSplits(p: Params, salt: seq<Byte>, hash: seq<Byte>)
    ensures Split(Print(p, salt, hash)) == PrintedParts(p, salt, hash)
  {
    TextsHaveNoDollar(p);
    EncodeHasNoDollar(salt);
    EncodeHasNoDollar(hash);
    SplitSix("", "argon2id", VersionText(), ParamsText(p), Encode(salt), Encode(hash));
  }

  // ---- main results ----------------------------------------------------------------------

  /** Six parts that pass every test of the parser. */
  lemma PartsDecode(parts: seq<string>, p: Params, salt: seq<Byte>, hash: seq<Byte>)
    requires |parts| == 6 && parts[1] == "argon2id" && ScanVersion(parts[2]) == Some(VERSION)
    requires ScanParams(parts[3]) == Some(p) && Decode(parts[4]) == Some(salt) && Decode(parts[5]) == Some(hash)
    ensures DecodeParts(parts) == Decoded(p, salt, hash)
  {
  }

  lemma DecodePrintedParts(p: Params, salt: seq<Byte>, hash: seq<Byte>, parts: seq<string>)
    requires InRange(p) && parts == PrintedParts(p, salt, hash)
    ensures DecodeParts(parts) == Decoded(p, salt, hash)
  {
    assert ScanVersion(parts[2]) == Some(VERSION) by { ScanPrintedVersion(); }
    assert ScanParams(parts[3]) == Some(p) by { ScanPrintedParams(p); }
    assert Decode(parts[4]) == Some(salt) by { RoundTrip(salt); }
    assert Decode(parts[5]) == Some(hash) by { RoundTrip(hash); }
    PartsDecode(parts, p, salt, hash);
  }

  /** Parsing undoes printing, for every salt, every hash and all in-range parameters. */
  lemma PrintThenDecode(p: Params, salt: seq<Byte>, hash: seq<Byte>)
    requires InRange(p)
    ensures DecodeHash(Print(p, salt, hash)) == Decoded(p, salt, hash)
  {
    PrintSplits(p, salt, hash);
    DecodePrintedParts(p, salt, hash, PrintedParts(p, salt, hash));
  }

  /** Whatever spelling was accepted, its canonical spelling reads back the same. */
  lemma {:induction false} AcceptedIsPrintable(encoded: string)
    requires DecodeHash(encoded).Decoded?
    ensures var d := DecodeHash(encoded);
            && InRange(d.params)
            && SkipNewlines(Split(encoded)[4]) == Encode(d.salt)
            && SkipNewlines(Split(encoded)[5]) == Encode(d.hash)
            && DecodeHash(Print(d.params, d.salt, d.hash)) == d
  {
    var d := DecodeHash(encoded);
    DecodeIff(Split(encoded)[4], d.salt);
    DecodeIff(Split(encoded)[5], d.hash);
    PrintThenDecode(d.params, d.salt, d.hash);
  }

  /** A password is checked against a hash with the hash's own salt, cost and key length: it is right exactly
      when it derives the stored key, and a key derivation that panics lets the panic through. */
  lemma VerifyPrinted(kdf: Kdf, p: Params, salt: seq<Byte>, key: seq<Byte>, attempt: seq<Byte>)
    requires InRange(p)
    ensures var derived := kdf(attempt, salt, p.time, p.memory, p.threads, |key| % 0x1_0000_0000);
            && (derived.Some? ==> VerifyPassword(kdf, attempt, Print(p, salt, key)) == Compared(derived.value == key))
            && (derived.None? ==> VerifyPassword(kdf, attempt, Print(p, salt, key)) == Panicked)
  {
    PrintThenDecode(p, salt, key);
  }

  /** Any accepted spelling is checked like its canonical one, and any other text is an error. */
  lemma VerifyAnySpelling(kdf: Kdf, attempt: seq<Byte>, encoded: string)
    ensures match DecodeHash(encoded)
            case Decoded(p, salt, hash) =>
              VerifyPassword(kdf, attempt, encoded) == VerifyPassword(kdf, attempt, Print(p, salt, hash))
            case Rejected(e) => VerifyPassword(kdf, attempt, encoded) == Failed(e)
  {
    if DecodeHash(encoded).Decoded? { AcceptedIsPrintable(encoded); }
  }

  /** Keys of the length `GenerateHash` asks for, without a panic. */
  ghost predicate KdfWorks(kdf: Kdf) {
    forall password, salt {:trigger kdf(password, salt, TIME, MEMORY, THREADS, KEY_LENGTH)} ::
      var key := kdf(password, salt, TIME, MEMORY, THREADS, KEY_LENGTH);
      key.Some? && |key.value| == KEY_LENGTH
  }

  /** A generated hash accepts exactly the passwords that derive the same key. */
  lemma VerifyGenerated(kdf: Kdf, password: seq<Byte>, salt: seq<Byte>, attempt: seq<Byte>)
    requires KdfWorks(kdf)
    ensures GenerateHash(kdf, password, salt).Some?
    ensures VerifyPassword(kdf, attempt, GenerateHash(kdf, password, salt).value)
         == Compared(kdf(attempt, salt, 3, 65536, 4, 32) == kdf(password, salt, 3, 65536, 4, 32))
  {
    var key := kdf(password, salt, TIME, MEMORY, THREADS, KEY_LENGTH);
    var again := kdf(attempt, salt, TIME, MEMORY, THREADS, KEY_LENGTH);
    PrintThenDecode(Params(MEMORY, TIME, THREADS), salt, key.value);
  }

  lemma SplitPrefix(prefix: string, text: string)
    requires '$' !in prefix && text != [] && text[0] == '$'
    ensures Split(prefix + text) == [prefix] + Split(text)[1..]
  {
    var rest := text[1..];
    assert text == "" + "$" + rest && prefix + text == prefix + "$" + rest;
    SplitAt(prefix, rest);
    SplitAt("", rest);
    assert ([""] + Split(rest))[1..] == Split(rest);
  }

  /** Parsing is not injective: text before the first separator is never looked at. */
  lemma LeadingTextIsIgnored(prefix: string, text: string)
    requires '$' !in prefix && text != [] && text[0] == '$'
    ensures DecodeHash(prefix + text) == DecodeHash(text)
  {
    SplitPrefix(prefix, text);
    var parts, others := Split(text), Split(prefix + text);
    assert |parts| == |others|;
    assert forall i :: 1 <= i < |parts| ==> others[i] == parts[i];
  }

  lemma OneDigit(d: nat)
    requires d < 10
    ensures Decimal(d) == [('0' as int + d) as char]
  {
  }

  lemma OneMoreDigit(n: nat, d: nat)
    requires 1 <= n && d < 10
    ensures Decimal(10 * n + d) == Decimal(n) + [('0' as int + d) as char]
  {
    assert (10 * n + d) / 10 == n && (10 * n + d) % 10 == d;
  }

  lemma DocumentedCost()
    ensures Decimal(VERSION) == "19" && Decimal(MEMORY) == "65536" && Decimal(TIME) == "3" && Decimal(THREADS) == "4"
  {
    OneDigit(1);
    OneMoreDigit(1, 9);
    OneDigit(TIME);
    OneDigit(THREADS);
    OneDigit(6);
    OneMoreDigit(6, 5);
    OneMoreDigit(65, 5);
    OneMoreDigit(655, 3);
    OneMoreDigit(6553, 6);
  }

  lemma PrefixOfPrint(version: string, params: string, rest: string)
    ensures "$argon2id$" + version + "$" + params + "$"
         <= "" + "$" + ("argon2id" + "$" + (version + "$" + (params + "$" + rest)))
  {
    assert "" + "$" + ("argon2id" + "$" + (version + "$" + (params + "$" + rest)))
        == "$argon2id$" + version + "$" + params + "$" + rest;
  }

  /** Every generated hash names algorithm, version and cost in the documented spelling. */
  lemma {:induction false} GeneratedFormat(kdf: Kdf, password: seq<Byte>, salt: seq<Byte>)
    requires GenerateHash(kdf, password, salt).Some?
    ensures "$argon2id$" + ("v=" + "19") + "$" + ("m=" + "65536" + ",t=" + "3" + ",p=" + "4") + "$"
         <= GenerateHash(kdf, password, salt).value
  {
    var key := kdf(password, salt, TIME, MEMORY, THREADS, KEY_LENGTH).value;
    DocumentedCost();
    PrefixOfPrint(VersionText(), ParamsText(Params(MEMORY, TIME, THREADS)), Encode(salt) + "$" + Encode(key));
  }
}
