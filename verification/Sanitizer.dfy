/** The text pipeline of internal/sanitizer/sanitizer.go, which the service runs once before a
    comment is stored and once more before it is served. */
module Sanitizer {
  import opened Text

  /** The stages whose libraries are not modelled: `html` is unescape, tag stripping and unescape
      again; `nfc` is Unicode normalisation. */
  datatype Stages = Stages(html: string -> string, nfc: string -> string)

  /** The only thing assumed of those stages: a text without NUL stays without NUL. */
  ghost predicate AddsNoNul(st: Stages) {
    && (forall s: string {:trigger st.html(s)} :: NUL !in s ==> NUL !in st.html(s))
    && (forall s: string {:trigger st.nfc(s)} :: NUL !in s ==> NUL !in st.nfc(s))
  }

  function RemoveNul(s: string): (r: string)
    ensures NUL !in r
    ensures forall c :: c in r ==> c in s
    ensures NUL !in s ==> r == s
  {
    if s == [] then [] else (if s[0] == NUL then [] else [s[0]]) + RemoveNul(s[1..])
  }

  function CollapseSpaces(s: string): string {
    Join(Fields(s))
  }

  /** The whitespace and NUL stages, with nothing between them. */
  function Tail(s: string): string {
    RemoveNul(CollapseSpaces(TrimSpace(s)))
  }

  function Sanitize(st: Stages, s: string): string {
    RemoveNul(CollapseSpaces(st.nfc(TrimSpace(st.html(s)))))
  }

  /** What a reader is sent: sanitized when written, sanitized again when read. */
  function Served(st: Stages, input: string): string {
    Sanitize(st, Sanitize(st, input))
  }

  /** Words separated by single spaces, and nothing else. */
  predicate Clean(s: string) {
    && NUL !in s
    && (forall i :: 0 <= i < |s| && IsSpace(s[i]) ==> s[i] == ' ' && 0 < i < |s| - 1 && !IsSpace(s[i - 1]))
  }

  /** The characters a sanitizing pass must keep, in order. */
  function Visible(s: string): string {
    if s == [] then []
    else (if s[0] == NUL || IsSpace(s[0]) then [] else [s[0]]) + Visible(s[1..])
  }

  function Stripped(words: seq<string>): (r: seq<string>)
    ensures |r| == |words| && forall i :: 0 <= i < |r| ==> r[i] == RemoveNul(words[i])
  {
    if words == [] then [] else [RemoveNul(words[0])] + Stripped(words[1..])
  }

  function NonEmpty(words: seq<string>): (r: seq<string>)
    ensures |r| <= |words|
    ensures |r| == |words| <==> forall i :: 0 <= i < |words| ==> words[i] != []
  {
    if words == [] then [] else (if words[0] == [] then [] else [words[0]]) + NonEmpty(words[1..])
  }

  function TotalLength(words: seq<string>): nat {
    if words == [] then 0 else |words[0]| + TotalLength(words[1..])
  }

  // ---- how the stages act on concatenations and word lists -------------------------------

  lemma {:induction false} RemoveNulConcat(a: string, b: string)
    ensures RemoveNul(a + b) == RemoveNul(a) + RemoveNul(b)
  {
    if a == [] {
      assert a + b == b;
    } else {
      assert (a + b)[1..] == a[1..] + b;
      RemoveNulConcat(a[1..], b);
    }
  }

  lemma {:induction false} VisibleConcat(a: string, b: string)
    ensures Visible(a + b) == Visible(a) + Visible(b)
  {
    if a == [] {
      assert a + b == b;
    } else {
      assert (a + b)[1..] == a[1..] + b;
      VisibleConcat(a[1..], b);
    }
  }

  lemma {:induction false} RemoveNulOfJoin(words: seq<string>)
    ensures RemoveNul(Join(words)) == Join(Stripped(words))
  {
    if |words| > 1 {
      RemoveNulConcat(words[0] + " ", Join(words[1..]));
      RemoveNulConcat(words[0], " ");
      RemoveNulOfJoin(words[1..]);
    }
  }

  lemma RemoveNulOfWord(w: string)
    requires NoSpace(w)
    ensures NoSpace(RemoveNul(w))
  {
    forall i | 0 <= i < |RemoveNul(w)| ensures !IsSpace(RemoveNul(w)[i]) {
      assert RemoveNul(w)[i] in w;
    }
  }

  lemma StripFirstWord(w: string, words: seq<string>)
    ensures NonEmpty(Stripped([w] + words))
         == (if RemoveNul(w) == [] then [] else [RemoveNul(w)]) + NonEmpty(Stripped(words))
  {
    assert ([w] + words)[1..] == words;
    assert Stripped([w] + words) == [RemoveNul(w)] + Stripped(words);
    assert ([RemoveNul(w)] + Stripped(words))[1..] == Stripped(words);
  }

  /** Removing NULs never merges or splits words; it only empties those made of NULs. */
  lemma {:induction false} FieldsOfRemoveNul(s: string)
    ensures Fields(RemoveNul(s)) == NonEmpty(Stripped(Fields(s)))
    decreases |s|
  {
    if s != [] {
      if IsSpace(s[0]) {
        FieldsOfRemoveNul(s[1..]);
        assert RemoveNul(s)[1..] == RemoveNul(s[1..]);
      } else {
        var n := WordLength(s);
        var w, rest := s[..n], s[n..];
        assert s == w + rest;
        RemoveNulConcat(w, rest);
        FieldsOfWord(w, rest);
        RemoveNulOfWord(w);
        FieldsOfWord(RemoveNul(w), RemoveNul(rest));
        FieldsOfRemoveNul(rest);
        StripFirstWord(w, Fields(rest));
      }
    }
  }

  lemma {:induction false} JoinLength(words: seq<string>)
    ensures |Join(words)| == TotalLength(words) + if words == [] then 0 else |words| - 1
  {
    if |words| > 1 {
      JoinLength(words[1..]);
    }
  }

  lemma FirstWordKept(words: seq<string>)
    requires words != []
    ensures words[0] != [] ==> NonEmpty(words) == [words[0]] + NonEmpty(words[1..])
    ensures words[0] == [] ==> NonEmpty(words) == NonEmpty(words[1..])
  {
  }

  lemma {:induction false} NonEmptyLength(words: seq<string>)
    ensures TotalLength(NonEmpty(words)) == TotalLength(words)
    ensures |NonEmpty(words)| == |words| ==> NonEmpty(words) == words
  {
    if words != [] {
      FirstWordKept(words);
      NonEmptyLength(words[1..]);
      assert ([words[0]] + NonEmpty(words[1..]))[1..] == NonEmpty(words[1..]);
      assert words == [words[0]] + words[1..];
    }
  }

  /** Dropping empty words keeps the joined text exactly when there is nothing to drop or to join. */
  lemma DroppingEmptyWords(words: seq<string>)
    ensures Join(NonEmpty(words)) == Join(words) <==> (|words| <= 1 || |NonEmpty(words)| == |words|)
  {
    JoinLength(words);
    JoinLength(NonEmpty(words));
    NonEmptyLength(words);
    if |words| == 1 {
      assert NonEmpty(words) == if words[0] == [] then [] else words;
    }
  }

  // ---- main results ----------------------------------------------------------------------

  /** Two passes do what one pass would do if it removed NULs before collapsing spaces. */
  lemma {:induction false} TwoPassesAreNulFirst(s: string)
    ensures Tail(Tail(s)) == CollapseSpaces(RemoveNul(s))
  {
    var once := Tail(s);
    var words := Fields(s);
    FieldsOfTrimmed(s);
    FieldsOfTrimmed(once);
    FieldsOfRemoveNul(Join(words));
    FieldsOfJoin(words);
    FieldsOfRemoveNul(s);
    assert Fields(once) == Fields(RemoveNul(s));
    FieldsWithoutNul(RemoveNul(s));
    JoinWithoutNul(Fields(once));
  }

  lemma {:induction false} FieldsWithoutNul(s: string)
    requires NUL !in s
    ensures forall w :: w in Fields(s) ==> NUL !in w
    decreases |s|
  {
    if s != [] {
      if IsSpace(s[0]) {
        FieldsWithoutNul(s[1..]);
      } else {
        FieldsWithoutNul(s[WordLength(s)..]);
      }
    }
  }

  lemma {:induction false} JoinWithoutNul(words: seq<string>)
    requires forall w :: w in words ==> NUL !in w
    ensures NUL !in Join(words)
  {
    if |words| > 1 {
      JoinWithoutNul(words[1..]);
    }
  }

  /** A second pass changes nothing exactly when the text has at most one word or no word made
      only of NULs. */
  lemma {:induction false} OnePassIsEnoughIff(s: string)
    ensures Tail(Tail(s)) == Tail(s) <==>
            (|Fields(s)| <= 1 || forall i :: 0 <= i < |Fields(s)| ==> RemoveNul(Fields(s)[i]) != [])
  {
    FieldsOfTrimmed(s);
    RemoveNulOfJoin(Fields(s));
    TwoPassesAreNulFirst(s);
    FieldsOfRemoveNul(s);
    DroppingEmptyWords(Stripped(Fields(s)));
  }

  lemma JoinOfThree(a: string, b: string, c: string)
    ensures Join([a, b, c]) == a + " " + b + " " + c
  {
    assert [a, b, c][1..] == [b, c] && [b, c][1..] == [c];
    assert Join([b, c]) == b + " " + c;
    assert Join([a, b, c]) == a + " " + (b + " " + c);
  }

  lemma FieldsOfThree(a: string, b: string, c: string)
    requires IsWord(a) && IsWord(b) && IsWord(c)
    ensures Fields(a + " " + b + " " + c) == [a, b, c]
  {
    JoinOfThree(a, b, c);
    FieldsOfJoin([a, b, c]);
  }

  /** The witness: a word made only of NULs leaves a doubled space, and a second pass removes it. */
  lemma OnePassIsNotEnough(a: string, b: string)
    requires IsWord(a) && IsWord(b) && NUL !in a && NUL !in b
    ensures var s := a + " " + [NUL] + " " + b;
            Tail(s) == a + " " + "" + " " + b && Tail(Tail(s)) != Tail(s)
  {
    var s := a + " " + [NUL] + " " + b;
    FieldsOfThree(a, [NUL], b);
    assert RemoveNul(Fields(s)[1]) == [];
    OnePassIsEnoughIff(s);
    assert Stripped([a, [NUL], b]) == [a, "", b];
    FieldsOfTrimmed(s);
    RemoveNulOfJoin([a, [NUL], b]);
    JoinOfThree(a, "", b);
  }

  lemma {:induction false} JoinIsClean(words: seq<string>)
    requires forall w :: w in words ==> IsWord(w) && NUL !in w
    ensures Clean(Join(words))
    ensures words != [] ==> Join(words) != [] && !IsSpace(Join(words)[0])
  {
    if |words| == 1 {
      assert words[0] in words;
    } else if |words| > 1 {
      JoinIsClean(words[1..]);
      assert words[0] in words;
      var w, rest := words[0], Join(words[1..]);
      var s := w + " " + rest;
      forall i | 0 <= i < |s| && IsSpace(s[i])
        ensures s[i] == ' ' && 0 < i < |s| - 1 && !IsSpace(s[i - 1])
      {
        if i > |w| {
          assert s[i] == rest[i - |w| - 1];
        }
      }
    }
  }

  lemma {:induction false} CleanIsJoined(s: string)
    requires Clean(s)
    ensures Join(Fields(s)) == s
    decreases |s|
  {
    if s != [] {
      assert !IsSpace(s[0]);
      var n := WordLength(s);
      var w, rest := s[..n], s[n..];
      if rest == [] {
        assert w == s && Fields(s) == [s];
      } else {
        var after := rest[1..];
        assert s == w + " " + after && after != [];
        assert forall i :: 0 <= i < |after| ==> after[i] == s[n + 1 + i];
        assert !IsSpace(s[n + 1]);
        CleanIsJoined(after);
        assert Fields(s) == [w] + Fields(after);
        assert Fields(after) != [];
      }
    }
  }

  /** The fixed points of the tail are exactly the clean texts. */
  lemma CleanIffFixed(s: string)
    ensures Clean(s) <==> Tail(s) == s
  {
    FieldsOfTrimmed(s);
    if Clean(s) {
      CleanIsJoined(s);
    }
    if Tail(s) == s {
      TwoPassesAreNulFirst(s);
      FieldsWithoutNul(RemoveNul(s));
      JoinIsClean(Fields(RemoveNul(s)));
    }
  }

  /** Sanitizing a text without NUL leaves a clean text. */
  lemma SanitizedIsClean(st: Stages, s: string)
    requires AddsNoNul(st) && NUL !in s
    ensures Clean(Sanitize(st, s))
  {
    var html := st.html(s);
    assert NUL !in html;
    TrimKeepsCharacters(html);
    var text := st.nfc(TrimSpace(html));
    assert NUL !in text;
    FieldsWithoutNul(text);
    JoinWithoutNul(Fields(text));
    JoinIsClean(Fields(text));
  }

  /** Whatever the author typed, what is served is clean, and a further tail pass keeps it. */
  lemma ServedIsClean(st: Stages, input: string)
    requires AddsNoNul(st)
    ensures Clean(Served(st, input)) && Tail(Served(st, input)) == Served(st, input)
  {
    SanitizedIsClean(st, Sanitize(st, input));
    CleanIffFixed(Served(st, input));
  }

  lemma TrimKeepsCharacters(s: string)
    ensures forall c :: c in TrimSpace(s) ==> c in s
  {
    TrimLeftKeepsCharacters(s);
    TrimRightKeepsCharacters(TrimLeft(s));
  }

  lemma {:induction false} TrimLeftKeepsCharacters(s: string)
    ensures forall c :: c in TrimLeft(s) ==> c in s
  {
    if s != [] && IsSpace(s[0]) {
      TrimLeftKeepsCharacters(s[1..]);
    }
  }

  lemma {:induction false} TrimRightKeepsCharacters(s: string)
    ensures forall c :: c in TrimRight(s) ==> c in s
  {
    if s != [] && IsSpace(s[|s| - 1]) {
      TrimRightKeepsCharacters(s[..|s| - 1]);
    }
  }

  // ---- nothing visible is lost -----------------------------------------------------------

  lemma VisibleOfOneRemoved(c: char)
    ensures Visible(RemoveNul([c])) == Visible([c])
  {
    assert RemoveNul([c]) == if c == NUL then [] else [c];
  }

  lemma VisibleOfSpace(s: string)
    requires s != [] && IsSpace(s[0])
    ensures Visible(s) == Visible(s[1..])
  {
  }

  lemma {:induction false} VisibleOfRemoveNul(s: string)
    ensures Visible(RemoveNul(s)) == Visible(s)
  {
    if s != [] {
      VisibleOfRemoveNul(s[1..]);
      assert s == [s[0]] + s[1..];
      VisibleConcat([s[0]], s[1..]);
      RemoveNulConcat([s[0]], s[1..]);
      VisibleConcat(RemoveNul([s[0]]), RemoveNul(s[1..]));
      VisibleOfOneRemoved(s[0]);
    }
  }

  lemma {:induction false} VisibleOfCollapse(s: string)
    ensures Visible(CollapseSpaces(s)) == Visible(s)
    decreases |s|
  {
    if s != [] {
      if IsSpace(s[0]) {
        VisibleOfSpace(s);
        VisibleOfCollapse(s[1..]);
      } else {
        var n := WordLength(s);
        var w, rest := s[..n], s[n..];
        assert s == w + rest;
        VisibleConcat(w, rest);
        VisibleOfCollapse(rest);
        var more := Fields(rest);
        if more == [] {
          assert Join([w]) == w;
        } else {
          assert ([w] + more)[1..] == more;
          assert Join([w] + more) == w + (" " + Join(more));
          VisibleConcat(w, " " + Join(more));
          VisibleOfSpace(" " + Join(more));
          assert (" " + Join(more))[1..] == Join(more);
        }
      }
    }
  }

  /** Each pass keeps the visible characters and their order. */
  lemma TailKeepsVisible(s: string)
    ensures Visible(Tail(s)) == Visible(s)
  {
    FieldsOfTrimmed(s);
    VisibleOfRemoveNul(CollapseSpaces(s));
    VisibleOfCollapse(s);
  }

  // ---- the pipeline as a whole -----------------------------------------------------------

  /** A pass loses nothing visible that comes out of the libraries, and adds nothing. */
  lemma SanitizeKeepsVisible(st: Stages, s: string)
    ensures Visible(Sanitize(st, s)) == Visible(st.nfc(TrimSpace(st.html(s))))
    ensures (forall x :: st.nfc(x) == x) ==> Visible(Sanitize(st, s)) == Visible(st.html(s))
  {
    var text := st.nfc(TrimSpace(st.html(s)));
    VisibleOfRemoveNul(CollapseSpaces(text));
    VisibleOfCollapse(text);
    TrimKeepsVisible(st.html(s));
  }

  lemma TrimKeepsVisible(s: string)
    ensures Visible(TrimSpace(s)) == Visible(s)
  {
    TrimLeftKeepsVisible(s);
    TrimRightKeepsVisible(TrimLeft(s));
  }

  lemma {:induction false} TrimLeftKeepsVisible(s: string)
    ensures Visible(TrimLeft(s)) == Visible(s)
  {
    if s != [] && IsSpace(s[0]) { TrimLeftKeepsVisible(s[1..]); }
  }

  lemma {:induction false} TrimRightKeepsVisible(s: string)
    ensures Visible(TrimRight(s)) == Visible(s)
  {
    if s != [] && IsSpace(s[|s| - 1]) {
      var rest, last := s[..|s| - 1], [s[|s| - 1]];
      TrimRightKeepsVisible(rest);
      assert s == rest + last;
      VisibleConcat(rest, last);
    }
  }

  /** Where normalisation has nothing to do, a pass is the tail of what tag stripping leaves: spaces first,
      then NULs. */
  lemma SanitizeIsTail(st: Stages, s: string)
    requires st.nfc(TrimSpace(st.html(s))) == TrimSpace(st.html(s))
    ensures Sanitize(st, s) == Tail(st.html(s))
    ensures Sanitize(st, s) == Join(Stripped(Fields(st.html(s))))
  {
    FieldsOfTrimmed(st.html(s));
    RemoveNulOfJoin(Fields(st.html(s)));
  }

  /** What is stored depends on the input only through what tag stripping leaves of it. */
  lemma OnlyStrippedTextCounts(st: Stages, a: string, b: string)
    requires st.html(a) == st.html(b)
    ensures Sanitize(st, a) == Sanitize(st, b) && Served(st, a) == Served(st, b)
  {
  }

  /** Tag stripping never lets `c` through, and normalisation does not make it. */
  ghost predicate Strips(st: Stages, c: char) {
    && (forall s: string {:trigger st.html(s)} :: c !in st.html(s))
    && (forall s: string {:trigger st.nfc(s)} :: c in st.nfc(s) ==> c in s)
  }

  lemma {:induction false} JoinKeepsCharacters(words: seq<string>, c: char)
    requires c != ' ' && c in Join(words)
    ensures exists w :: w in words && c in w
  {
    if |words| == 1 {
      assert words[0] in words;
    } else if |words| > 1 {
      assert words[0] in words;
      if c !in words[0] {
        JoinKeepsCharacters(words[1..], c);
        var w :| w in words[1..] && c in w;
        assert w in words;
      }
    }
  }

  lemma {:induction false} FieldsKeepCharacters(s: string, w: string, c: char)
    requires w in Fields(s) && c in w
    ensures c in s
    decreases |s|
  {
    if IsSpace(s[0]) {
      FieldsKeepCharacters(s[1..], w, c);
    } else {
      var n := WordLength(s);
      if w != s[..n] { FieldsKeepCharacters(s[n..], w, c); }
    }
  }

  /** A character that is stripped is in no sanitized text. */
  lemma StrippedIsGone(st: Stages, s: string, c: char)
    requires c != ' ' && Strips(st, c)
    ensures c !in Sanitize(st, s)
  {
    var html := st.html(s);
    var text := st.nfc(TrimSpace(html));
    TrimKeepsCharacters(html);
    if c in Sanitize(st, s) {
      JoinKeepsCharacters(Fields(text), c);
      var w :| w in Fields(text) && c in w;
      FieldsKeepCharacters(text, w, c);
    }
  }

  /** Without NULs a pass keeps the words themselves. */
  lemma SanitizeKeepsWords(st: Stages, s: string)
    requires NUL !in st.nfc(TrimSpace(st.html(s)))
    ensures Fields(Sanitize(st, s)) == Fields(st.nfc(TrimSpace(st.html(s))))
  {
    var text := st.nfc(TrimSpace(st.html(s)));
    FieldsWithoutNul(text);
    JoinWithoutNul(Fields(text));
    FieldsOfJoin(Fields(text));
  }
}
