/** Which texts are accepted as a hash, told as a grammar and without the scanner. */
module PasswordGrammar {
  import opened Wrappers
  import opened Base64
  import opened Password
  import Text

  // ---- numbers ---------------------------------------------------------------------------

  /** White space without a newline. */
  predicate Blank(s: string) {
    forall i :: 0 <= i < |s| ==> Text.IsSpace(s[i]) && s[i] != '\n'
  }

  predicate Digital(s: string) {
    s != [] && forall c :: c in s ==> '0' <= c <= '9'
  }

  predicate EndsNumber(rest: string) {
    rest == [] || !('0' <= rest[0] <= '9')
  }

  /** White space, then a sign that may be missing, then all the digits there are. */
  predicate Reads(s: string, lead: string, sign: string, digits: string, rest: string) {
    Blank(lead) && Digital(digits) && EndsNumber(rest) && s == lead + (sign + (digits + rest))
  }

  /** `s` starts with the number `v`, without a sign; `rest` follows. */
  ghost predicate SpellsUint(s: string, v: nat, rest: string) {
    exists lead, digits :: Reads(s, lead, "", digits, rest) && Value(digits) == v
  }

  predicate IsSign(sign: string) { sign == "" || sign == "+" || sign == "-" }

  /** `s` starts with the number `v`, a sign allowed, in 64 bits; `rest` follows. */
  ghost predicate SpellsInt(s: string, v: int, rest: string) {
    && -0x8000_0000_0000_0000 <= v < 0x8000_0000_0000_0000
    && exists lead, sign, digits :: IsSign(sign) && Reads(s, lead, sign, digits, rest)
                                    && v == if sign == "-" then 0 - Value(digits) else Value(digits)
  }

  lemma {:induction false} SkipsLead(lead: string, t: string)
    requires Blank(lead) && (t == [] || !Text.IsSpace(t[0]))
    ensures SkipSpace(lead + t) == Some(t)
  {
    if lead == [] {
      assert lead + t == t;
    } else {
      assert (lead + t)[0] == lead[0] && (lead + t)[1..] == lead[1..] + t;
      SkipsLead(lead[1..], t);
    }
  }

  lemma {:induction false} SkippedLead(s: string) returns (lead: string)
    requires SkipSpace(s).Some?
    ensures Blank(lead) && s == lead + SkipSpace(s).value
    ensures var t := SkipSpace(s).value; t == [] || !Text.IsSpace(t[0])
  {
    if s == [] || !Text.IsSpace(s[0]) {
      lead := [];
    } else {
      var rest := SkippedLead(s[1..]);
      lead := [s[0]] + rest;
      assert s == [s[0]] + s[1..];
    }
  }

  lemma {:induction false} DigitPrefixEnds(s: string)
    ensures EndsNumber(s[DigitPrefix(s)..])
  {
    if s != [] && IsDigit(s[0]) {
      DigitPrefixEnds(s[1..]);
      assert s[DigitPrefix(s)..] == s[1..][DigitPrefix(s[1..])..];
    }
  }

  lemma DigitsAreThere(digits: string, rest: string)
    requires Digital(digits) && EndsNumber(rest)
    ensures DigitPrefix(digits + rest) == |digits| && !Text.IsSpace((digits + rest)[0]) && IsDigit((digits + rest)[0])
    ensures (digits + rest)[..|digits|] == digits && (digits + rest)[|digits|..] == rest
  {
    NumberIsFound(digits, rest);
    assert digits[0] in digits;
    DigitIsNoSpace(digits[0]);
  }

  lemma ReadsDigits(s: string, lead: string, sign: string, u: string)
    requires Blank(lead) && s == lead + (sign + u) && DigitPrefix(u) > 0
    ensures Reads(s, lead, sign, u[..DigitPrefix(u)], u[DigitPrefix(u)..])
  {
    DigitPrefixEnds(u);
    assert u == u[..DigitPrefix(u)] + u[DigitPrefix(u)..];
  }

  lemma ScanUintSpells(s: string, limit: nat, v: nat, rest: string)
    requires ScanUint(s, limit) == Some((v, rest))
    ensures SpellsUint(s, v, rest) && v < limit
  {
    var lead := SkippedLead(s);
    var t := SkipSpace(s).value;
    assert "" + t == t;
    ReadsDigits(s, lead, "", t);
  }

  lemma SpellsUintScans(s: string, limit: nat, v: nat, rest: string)
    requires SpellsUint(s, v, rest) && v < limit
    ensures ScanUint(s, limit) == Some((v, rest))
  {
    var lead, digits :| Reads(s, lead, "", digits, rest) && Value(digits) == v;
    var t := digits + rest;
    assert "" + t == t;
    DigitsAreThere(digits, rest);
    SkipsLead(lead, t);
  }

  lemma ScanUintIff(s: string, limit: nat, v: nat, rest: string)
    ensures ScanUint(s, limit) == Some((v, rest)) <==> SpellsUint(s, v, rest) && v < limit
  {
    if ScanUint(s, limit) == Some((v, rest)) { ScanUintSpells(s, limit, v, rest); }
    if SpellsUint(s, v, rest) && v < limit { SpellsUintScans(s, limit, v, rest); }
  }

  /** What the scanner makes of a text whose white space has been skipped. */
  function SignOf(t: string): string {
    if t != [] && (t[0] == '-' || t[0] == '+') then [t[0]] else []
  }

  lemma SignSplits(t: string) returns (u: string)
    ensures t == SignOf(t) + u && IsSign(SignOf(t))
    ensures u == if t != [] && (t[0] == '-' || t[0] == '+') then t[1..] else t
  {
    u := t[|SignOf(t)|..];
  }

  lemma ScannedInt(s: string, t: string, u: string, v: int, rest: string)
    requires SkipSpace(s) == Some(t) && u == (if t != [] && (t[0] == '-' || t[0] == '+') then t[1..] else t)
    requires ScanInt(s) == Some((v, rest))
    ensures DigitPrefix(u) > 0 && rest == u[DigitPrefix(u)..]
    ensures v == if SignOf(t) == "-" then 0 - Value(u[..DigitPrefix(u)]) else Value(u[..DigitPrefix(u)])
    ensures -0x8000_0000_0000_0000 <= v < 0x8000_0000_0000_0000
  {
  }

  lemma ScanIntSpells(s: string, v: int, rest: string)
    requires ScanInt(s) == Some((v, rest))
    ensures SpellsInt(s, v, rest)
  {
    var lead := SkippedLead(s);
    var t := SkipSpace(s).value;
    var u := SignSplits(t);
    ScannedInt(s, t, u, v, rest);
    ReadsDigits(s, lead, SignOf(t), u);
  }

  lemma SpellsIntScans(s: string, v: int, rest: string)
    requires SpellsInt(s, v, rest)
    ensures ScanInt(s) == Some((v, rest))
  {
    var lead, sign, digits :| IsSign(sign) && Reads(s, lead, sign, digits, rest)
                              && v == if sign == "-" then 0 - Value(digits) else Value(digits);
    var u := digits + rest;
    var t := sign + u;
    DigitsAreThere(digits, rest);
    DigitIsNoSpace(u[0]);
    assert sign == "" ==> t == u;
    assert sign != "" ==> t[0] == sign[0] && t[1..] == u;
    SkipsLead(lead, t);
  }

  // ---- the segments ----------------------------------------------------------------------

  /** `v=` and a number; anything may follow. */
  ghost predicate SpellsVersion(s: string, v: int) {
    "v=" <= s && exists rest :: SpellsInt(s[2..], v, rest)
  }

  /** A name, `=` and a number. */
  ghost predicate SpellsField(s: string, name: string, v: nat, rest: string) {
    name <= s && SpellsUint(s[|name|..], v, rest)
  }

  /** `m=`, `t=` and `p=` with their numbers; anything may follow. */
  ghost predicate SpellsParams(s: string, p: Params) {
    && p.memory < 0x1_0000_0000 && p.time < 0x1_0000_0000 && p.threads < 0x100
    && exists s1, s2, rest :: SpellsField(s, "m=", p.memory, s1) && SpellsField(s1, ",t=", p.time, s2)
                              && SpellsField(s2, ",p=", p.threads, rest)
  }

  lemma ScanVersionIff(s: string, v: int)
    ensures ScanVersion(s) == Some(v) <==> SpellsVersion(s, v)
  {
    if ScanVersion(s) == Some(v) {
      ScanIntSpells(s[2..], v, ScanInt(s[2..]).value.1);
    }
    if SpellsVersion(s, v) {
      var rest :| SpellsInt(s[2..], v, rest);
      SpellsIntScans(s[2..], v, rest);
    }
  }

  lemma ScanFieldIff(s: string, name: string, limit: nat, v: nat, rest: string)
    ensures ScanField(s, name, limit) == Some((v, rest)) <==> SpellsField(s, name, v, rest) && v < limit
  {
    if name <= s { ScanUintIff(s[|name|..], limit, v, rest); }
  }

  lemma ScanParamsIff(s: string, p: Params)
    ensures ScanParams(s) == Some(p) <==> SpellsParams(s, p)
  {
    if ScanParams(s) == Some(p) {
      var s1 := ScanField(s, "m=", MAX_UINT32).value.1;
      var s2 := ScanField(s1, ",t=", MAX_UINT32).value.1;
      var rest := ScanField(s2, ",p=", MAX_UINT8).value.1;
      ScanFieldIff(s, "m=", MAX_UINT32, p.memory, s1);
      ScanFieldIff(s1, ",t=", MAX_UINT32, p.time, s2);
      ScanFieldIff(s2, ",p=", MAX_UINT8, p.threads, rest);
    }
    if SpellsParams(s, p) {
      var s1, s2, rest :| SpellsField(s, "m=", p.memory, s1) && SpellsField(s1, ",t=", p.time, s2)
                          && SpellsField(s2, ",p=", p.threads, rest);
      ScanFieldIff(s, "m=", MAX_UINT32, p.memory, s1);
      ScanFieldIff(s1, ",t=", MAX_UINT32, p.time, s2);
      ScanFieldIff(s2, ",p=", MAX_UINT8, p.threads, rest);
    }
  }

  // ---- the whole text --------------------------------------------------------------------

  /** How often the separator occurs. */
  function Dollars(s: string): nat {
    if s == [] then 0 else (if s[0] == '$' then 1 else 0) + Dollars(s[1..])
  }

  lemma {:induction false} PartsAreDollars(s: string)
    ensures |Split(s)| == Dollars(s) + 1
    ensures forall i :: 0 <= i < |Split(s)| ==> '$' !in Split(s)[i]
  {
    if s != [] { PartsAreDollars(s[1..]); }
  }

  function JoinParts(parts: seq<string>): string
    requires parts != []
  {
    if |parts| == 1 then parts[0] else parts[0] + "$" + JoinParts(parts[1..])
  }

  lemma {:induction false} SplitJoins(s: string)
    ensures JoinParts(Split(s)) == s
  {
    if s != [] {
      SplitJoins(s[1..]);
      var rest := Split(s[1..]);
      if s[0] == '$' {
        assert ([[]] + rest)[1..] == rest;
        assert "" + "$" + JoinParts(rest) == s;
      } else {
        PrependToFirst(s[0], rest);
      }
    }
  }

  lemma PrependToFirst(c: char, parts: seq<string>)
    requires parts != []
    ensures JoinParts([[c] + parts[0]] + parts[1..]) == [c] + JoinParts(parts)
  {
    var longer := [[c] + parts[0]] + parts[1..];
    assert longer[1..] == parts[1..];
    if |parts| > 1 {
      assert ([c] + parts[0]) + "$" + JoinParts(parts[1..]) == [c] + (parts[0] + "$" + JoinParts(parts[1..]));
    }
  }

  /** Six texts without the separator, with the separator between them. */
  predicate IsSix(s: string, a: string, b: string, c: string, d: string, e: string, f: string) {
    && '$' !in a && '$' !in b && '$' !in c && '$' !in d && '$' !in e && '$' !in f
    && s == a + "$" + (b + "$" + (c + "$" + (d + "$" + (e + "$" + f))))
  }

  lemma JoinSix(p: seq<string>)
    requires |p| == 6
    ensures JoinParts(p) == p[0] + "$" + (p[1] + "$" + (p[2] + "$" + (p[3] + "$" + (p[4] + "$" + p[5]))))
  {
    assert JoinParts(p[5..]) == p[5];
    JoinOne(p, 4);
    JoinOne(p, 3);
    JoinOne(p, 2);
    JoinOne(p, 1);
    JoinOne(p, 0);
    assert p[0..] == p;
  }

  lemma JoinOne(p: seq<string>, i: nat)
    requires i + 1 < |p|
    ensures JoinParts(p[i..]) == p[i] + "$" + JoinParts(p[i + 1..])
  {
    assert p[i..][1..] == p[i + 1..];
  }

  lemma SixPartsJoin(s: string)
    requires |Split(s)| == 6
    ensures var p := Split(s); IsSix(s, p[0], p[1], p[2], p[3], p[4], p[5])
  {
    SplitJoins(s);
    PartsAreDollars(s);
    JoinSix(Split(s));
  }

  lemma SixSplit(s: string, a: string, b: string, c: string, d: string, e: string, f: string)
    returns (parts: seq<string>)
    requires IsSix(s, a, b, c, d, e, f)
    ensures parts == Split(s) && |parts| == 6
    ensures parts[0] == a && parts[1] == b && parts[2] == c && parts[3] == d && parts[4] == e && parts[5] == f
  {
    parts := Split(s);
    SplitSix(a, b, c, d, e, f);
  }

  lemma Base64Iff(text: string)
    ensures Decode(text).Some? <==> exists b :: SkipNewlines(text) == Encode(b)
    ensures Decode(text).Some? ==> SkipNewlines(text) == Encode(Decode(text).value)
  {
    if Decode(text).Some? { DecodeIff(text, Decode(text).value); }
    if exists b :: SkipNewlines(text) == Encode(b) {
      var b :| SkipNewlines(text) == Encode(b);
      DecodeIff(text, b);
    }
  }

  lemma SegmentsIff(s: string)
    ensures DecodeHash(s) == Rejected(Segments) <==> Dollars(s) != 5
  {
    PartsAreDollars(s);
  }

  /** Which text with five separators is answered with which error, the first that applies: another
      algorithm, no version, another version than 19, no parameters, no salt, no hash. */
  lemma Rejections(s: string, lead: string, algorithm: string, version: string, params: string, salt64: string,
                   hash64: string, e: DecodeError)
    requires IsSix(s, lead, algorithm, version, params, salt64, hash64)
    ensures DecodeHash(s) == Rejected(e) <==>
            if algorithm != "argon2id" then e == Algorithm
            else if forall v :: !SpellsVersion(version, v) then e == VersionSyntax
            else if !SpellsVersion(version, 19) then e == UnsupportedVersion
            else if forall p :: !SpellsParams(params, p) then e == ParamSyntax
            else if forall b :: SkipNewlines(salt64) != Encode(b) then e == SaltBase64
            else (forall b :: SkipNewlines(hash64) != Encode(b)) && e == HashBase64
  {
    var parts := SixSplit(s, lead, algorithm, version, params, salt64, hash64);
    VersionFacts(version);
    ParamsFacts(params);
    Base64Iff(salt64);
    Base64Iff(hash64);
    PartsReject(parts, e);
  }

  lemma PartsReject(parts: seq<string>, e: DecodeError)
    requires |parts| == 6
    ensures DecodeParts(parts) == Rejected(e) <==>
            if parts[1] != "argon2id" then e == Algorithm
            else if ScanVersion(parts[2]).None? then e == VersionSyntax
            else if ScanVersion(parts[2]) != Some(19) then e == UnsupportedVersion
            else if ScanParams(parts[3]).None? then e == ParamSyntax
            else if Decode(parts[4]).None? then e == SaltBase64
            else Decode(parts[5]).None? && e == HashBase64
  {
  }

  lemma VersionFacts(s: string)
    ensures ScanVersion(s).None? <==> forall v :: !SpellsVersion(s, v)
    ensures ScanVersion(s) == Some(19) <==> SpellsVersion(s, 19)
  {
    forall v ensures ScanVersion(s) == Some(v) <==> SpellsVersion(s, v) { ScanVersionIff(s, v); }
    if ScanVersion(s).Some? { assert SpellsVersion(s, ScanVersion(s).value); }
  }

  lemma ParamsFacts(s: string)
    ensures ScanParams(s).None? <==> forall p :: !SpellsParams(s, p)
  {
    forall p ensures ScanParams(s) == Some(p) <==> SpellsParams(s, p) { ScanParamsIff(s, p); }
    if ScanParams(s).Some? { assert SpellsParams(s, ScanParams(s).value); }
  }

  /** The grammar: any text, the algorithm, version 19, the three parameters, salt and hash. */
  ghost predicate Spells(s: string, lead: string, version: string, params: string, salt64: string, hash64: string,
                         p: Params, salt: seq<Byte>, hash: seq<Byte>) {
    && IsSix(s, lead, "argon2id", version, params, salt64, hash64)
    && SpellsVersion(version, 19) && SpellsParams(params, p)
    && SkipNewlines(salt64) == Encode(salt) && SkipNewlines(hash64) == Encode(hash)
  }

  lemma AcceptedSpells(s: string, p: Params, salt: seq<Byte>, hash: seq<Byte>, parts: seq<string>)
    requires parts == Split(s) && DecodeParts(parts) == Decoded(p, salt, hash)
    ensures |parts| == 6 && Spells(s, parts[0], parts[2], parts[3], parts[4], parts[5], p, salt, hash)
  {
    SixPartsJoin(s);
    ScanVersionIff(parts[2], 19);
    ScanParamsIff(parts[3], p);
    DecodeIff(parts[4], salt);
    DecodeIff(parts[5], hash);
  }

  lemma SpelledIsAccepted(s: string, lead: string, version: string, params: string, salt64: string, hash64: string,
                          p: Params, salt: seq<Byte>, hash: seq<Byte>)
    requires Spells(s, lead, version, params, salt64, hash64, p, salt, hash)
    ensures DecodeHash(s) == Decoded(p, salt, hash)
  {
    var parts := SixSplit(s, lead, "argon2id", version, params, salt64, hash64);
    ScanVersionIff(version, 19);
    ScanParamsIff(params, p);
    DecodeIff(salt64, salt);
    DecodeIff(hash64, hash);
    PartsDecode(parts, p, salt, hash);
  }

  ghost predicate IsSpelled(s: string, p: Params, salt: seq<Byte>, hash: seq<Byte>) {
    exists lead, version, params, salt64, hash64 :: Spells(s, lead, version, params, salt64, hash64, p, salt, hash)
  }

  /** A text is accepted, with these parameters, salt and hash, exactly when the grammar says so. */
  lemma AcceptedIff(s: string, p: Params, salt: seq<Byte>, hash: seq<Byte>)
    ensures DecodeHash(s) == Decoded(p, salt, hash) <==> IsSpelled(s, p, salt, hash)
  {
    if DecodeHash(s) == Decoded(p, salt, hash) {
      AcceptedSpells(s, p, salt, hash, Split(s));
    }
    if IsSpelled(s, p, salt, hash) {
      var lead, version, params, salt64, hash64 :|
        Spells(s, lead, version, params, salt64, hash64, p, salt, hash);
      SpelledIsAccepted(s, lead, version, params, salt64, hash64, p, salt, hash);
    }
  }
}
