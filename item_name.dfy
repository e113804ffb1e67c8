/**
 * The name of an Item: the `before_validation` callback that rewrites it
 * (lower-case, split on whitespace, capitalise each word, join with single
 * spaces) and the presence and length validations that follow.
 *
 * Characters are Dafny chars. Case mapping is the ASCII one, as Ruby's
 * `downcase` and `capitalize` did before Ruby 2.4; awk-style `split` uses
 * ASCII whitespace.
 */
module ItemName {

  /** NAME_MAX_LENGTH of the Item class. */
  const NameMaxLength: nat := 20

  /** Whitespace for Ruby's `split` with no pattern: space, \t, \n, \v, \f, \r. */
  predicate IsSpace(c: char) {
    c == ' ' || '\t' <= c <= '\r'
  }

  predicate IsUpper(c: char) {
    'A' <= c <= 'Z'
  }

  predicate IsLower(c: char) {
    'a' <= c <= 'z'
  }

  function ToLower(c: char): (d: char)
    ensures !IsUpper(d)
    ensures IsSpace(d) <==> IsSpace(c)
    ensures IsLower(c) || IsUpper(c) ==> IsLower(d)
  {
    if IsUpper(c) then (c as int + 32) as char else c
  }

  function ToUpper(c: char): (d: char)
    ensures !IsLower(d)
    ensures IsSpace(d) <==> IsSpace(c)
    ensures IsLower(c) || IsUpper(c) ==> IsUpper(d)
  {
    if IsLower(c) then (c as int - 32) as char else c
  }

  /** Ruby's String#downcase. */
  function Downcase(s: string): (r: string)
    ensures |r| == |s|
    ensures forall i :: 0 <= i < |r| ==> !IsUpper(r[i]) && (IsSpace(r[i]) <==> IsSpace(s[i]))
    ensures forall i :: 0 <= i < |s| ==> r[i] == s[i] || (IsUpper(s[i]) && IsLower(r[i]) && ToUpper(r[i]) == s[i])
  {
    seq(|s|, i requires 0 <= i < |s| => ToLower(s[i]))
  }

  /** Ruby's String#capitalize: first character upper-case, the rest lower-case. */
  function Capitalize(w: string): (r: string)
    ensures |r| == |w|
    ensures r != [] ==> !IsLower(r[0]) && (IsSpace(r[0]) <==> IsSpace(w[0]))
    ensures forall i :: 1 <= i < |r| ==> !IsUpper(r[i]) && (IsSpace(r[i]) <==> IsSpace(w[i]))
  {
    if w == [] then [] else [ToUpper(w[0])] + Downcase(w[1..])
  }

  /**
   * `capitalize` changes only case: lower-casing its result gives the
   * lower-cased input. With the case facts in Capitalize's contract this
   * fixes every character of the result.
   */
  lemma CapitalizeOnlyCase(w: string)
    ensures Downcase(Capitalize(w)) == Downcase(w)
  {
    if w != [] {
      var r := Capitalize(w);
      forall i | 0 <= i < |w| ensures Downcase(r)[i] == Downcase(w)[i] {
        if i > 0 {
          assert r[i] == Downcase(w[1..])[i - 1];
        }
      }
    }
  }

  function CapitalizeAll(ws: seq<string>): seq<string> {
    seq(|ws|, i requires 0 <= i < |ws| => Capitalize(ws[i]))
  }

  function DowncaseAll(ws: seq<string>): seq<string> {
    seq(|ws|, i requires 0 <= i < |ws| => Downcase(ws[i]))
  }

  /** A word as `split` produces it: non-empty and free of whitespace. */
  predicate IsWord(w: string) {
    w != [] && forall i :: 0 <= i < |w| ==> !IsSpace(w[i])
  }

  predicate AllWords(ws: seq<string>) {
    forall k :: 0 <= k < |ws| ==> IsWord(ws[k])
  }

  /** A word whose first character is not a lower-case letter and whose other characters are not upper-case letters. */
  predicate IsTitleWord(w: string) {
    IsWord(w) && !IsLower(w[0]) && forall i :: 1 <= i < |w| ==> !IsUpper(w[i])
  }

  predicate AllTitleWords(ws: seq<string>) {
    forall k :: 0 <= k < |ws| ==> IsTitleWord(ws[k])
  }

  /** `blank?` on a string: nothing but whitespace. */
  predicate IsBlank(s: string) {
    forall i :: 0 <= i < |s| ==> IsSpace(s[i])
  }

  /** The longest prefix of `s` that contains no whitespace. */
  function LeadingWord(s: string): (w: string)
    ensures w <= s
    ensures forall i :: 0 <= i < |w| ==> !IsSpace(w[i])
    ensures |w| < |s| ==> IsSpace(s[|w|])
  {
    if s == [] || IsSpace(s[0]) then [] else [s[0]] + LeadingWord(s[1..])
  }

  /**
   * Ruby's String#split with no pattern: leading and trailing whitespace is
   * ignored and every run of whitespace separates two words.
   */
  function Split(s: string): (ws: seq<string>)
    ensures AllWords(ws)
    ensures ws == [] <==> IsBlank(s)
    decreases |s|
  {
    if s == [] then []
    else if IsSpace(s[0]) then Split(s[1..])
    else
      var w := LeadingWord(s);
      [w] + Split(s[|w|..])
  }

  /** Ruby's Array#join(' '). */
  function Join(ws: seq<string>): string {
    if ws == [] then []
    else if |ws| == 1 then ws[0]
    else ws[0] + " " + Join(ws[1..])
  }

  /** The `before_validation` rewrite of the name (app/models/item.rb:25). */
  function Normalize(name: string): string {
    Join(CapitalizeAll(Split(Downcase(name))))
  }

  /**
   * Whitespace in `t` is only ever one ' ' between two other characters:
   * no tab or newline, no leading or trailing space, no two spaces in a row.
   */
  predicate SingleSpaced(t: string) {
    && (forall i :: 0 <= i < |t| && IsSpace(t[i]) ==> t[i] == ' ')
    && (t != [] ==> !IsSpace(t[0]) && !IsSpace(t[|t| - 1]))
    && (forall i, j :: 0 <= i < |t| && 0 <= j < |t| && j == i + 1 ==> !IsSpace(t[i]) || !IsSpace(t[j]))
  }

  /** A character that starts a word is not lower-case; any other is not upper-case. */
  predicate TitleCased(t: string) {
    && (t != [] ==> !IsLower(t[0]))
    && (forall i, j :: 0 <= i < |t| && 0 <= j < |t| && j == i + 1 ==>
          if t[i] == ' ' then !IsLower(t[j]) else !IsUpper(t[j]))
  }

  /** The form the callback stores a name in. */
  predicate Canonical(t: string) {
    SingleSpaced(t) && TitleCased(t)
  }

  // ---------------------------------------------------------------------
  // Validation (app/models/item.rb:20-21)

  /** The errors Rails attaches to `name`: presence gives :blank, the length bounds :too_short and :too_long. */
  datatype NameError = Blank | TooShort | TooLong

  function NameErrors(name: string): (errors: set<NameError>)
    ensures errors == {} <==> !IsBlank(name) && 1 <= |name| <= NameMaxLength
    ensures Blank in errors <==> IsBlank(name)
    ensures TooShort in errors <==> name == []
    ensures TooLong in errors <==> |name| > NameMaxLength
  {
    (if IsBlank(name) then {Blank} else {})
    + (if |name| < 1 then {TooShort} else {})
    + (if |name| > NameMaxLength then {TooLong} else {})
  }

  // ---------------------------------------------------------------------
  // Words

  lemma CapitalizeTitle(w: string)
    requires IsWord(w)
    ensures IsTitleWord(Capitalize(w)) && |Capitalize(w)| == |w|
  {
  }

  /** A word already in title form is what `capitalize` makes of its lower-case form. */
  lemma TitleWordStable(w: string)
    requires IsTitleWord(w)
    ensures Capitalize(Downcase(w)) == w
  {
    var d := Downcase(w);
    assert d[1..] == Downcase(w[1..]);
    var c := Capitalize(d);
    assert |c| == |w|;
    forall i | 0 <= i < |w| ensures c[i] == w[i] {
      if i > 0 {
        assert c[i] == ToLower(ToLower(w[i]));
      }
    }
  }

  lemma {:induction false} LeadingWordOf(w: string, t: string)
    requires IsWord(w)
    requires t == [] || IsSpace(t[0])
    ensures LeadingWord(w + t) == w
    decreases |w|
  {
    var s := w + t;
    assert s[1..] == w[1..] + t;
    if |w| > 1 {
      LeadingWordOf(w[1..], t);
    } else {
      assert w[1..] == [];
    }
  }

  // ---------------------------------------------------------------------
  // Joining words

  lemma JoinEmpty(ws: seq<string>)
    requires AllWords(ws)
    ensures Join(ws) == [] <==> ws == []
    ensures ws != [] ==> |Join(ws)| >= |ws[0]|
    ensures ws != [] ==> Join(ws)[0] == ws[0][0]
  {
  }

  /** Words joined by ' ' are single-spaced. */
  lemma {:induction false} JoinSingleSpaced(ws: seq<string>)
    requires AllWords(ws)
    ensures SingleSpaced(Join(ws))
    decreases |ws|
  {
    if |ws| == 1 {
      assert Join(ws) == ws[0];
    } else if |ws| >= 2 {
      var w, rest := ws[0], ws[1..];
      var j := Join(rest);
      JoinSingleSpaced(rest);
      JoinEmpty(rest);
      var r := Join(ws);
      assert r == w + " " + j;
      forall i | 0 <= i < |r| && IsSpace(r[i]) ensures r[i] == ' ' {
        if i > |w| {
          assert r[i] == j[i - |w| - 1];
        }
      }
      assert r[|r| - 1] == j[|j| - 1];
      forall i, k | 0 <= i && k == i + 1 && k < |r| ensures !IsSpace(r[i]) || !IsSpace(r[k]) {
        if i < |w| {
          assert r[i] == w[i];
        } else if i == |w| {
          assert r[k] == j[0];
        } else {
          assert r[i] == j[i - |w| - 1] && r[k] == j[k - |w| - 1];
        }
      }
    }
  }

  /** Title words joined by ' ' are title-cased. */
  lemma {:induction false} JoinTitleCased(ws: seq<string>)
    requires AllTitleWords(ws)
    ensures TitleCased(Join(ws))
    decreases |ws|
  {
    if |ws| == 1 {
      assert Join(ws) == ws[0];
    } else if |ws| >= 2 {
      var w, rest := ws[0], ws[1..];
      var j := Join(rest);
      JoinTitleCased(rest);
      JoinEmpty(rest);
      var r := Join(ws);
      assert r == w + " " + j;
      forall i, k | 0 <= i && k == i + 1 && k < |r|
        ensures if r[i] == ' ' then !IsLower(r[k]) else !IsUpper(r[k])
      {
        if k < |w| {
          assert r[i] == w[i] && r[k] == w[k];
        } else if i == |w| {
          assert r[k] == j[0];
        } else if i > |w| {
          assert r[i] == j[i - |w| - 1] && r[k] == j[k - |w| - 1];
        }
      }
    }
  }

  /** Lower-casing a joined string lower-cases each word. */
  lemma {:induction false} DowncaseJoin(ws: seq<string>)
    ensures Downcase(Join(ws)) == Join(DowncaseAll(ws))
    decreases |ws|
  {
    if |ws| >= 2 {
      DowncaseJoin(ws[1..]);
      assert DowncaseAll(ws)[1..] == DowncaseAll(ws[1..]);
      assert Downcase(ws[0] + " " + Join(ws[1..]))
        == Downcase(ws[0]) + " " + Downcase(Join(ws[1..]));
    }
  }

  /** A word followed by whitespace or by nothing is split off as the first word. */
  lemma SplitWordThen(w: string, t: string)
    requires IsWord(w)
    requires t == [] || IsSpace(t[0])
    ensures Split(w + t) == [w] + Split(t)
  {
    var s := w + t;
    LeadingWordOf(w, t);
    assert s[0] == w[0];
    assert s[|w|..] == t;
  }

  lemma SplitSpaceThen(t: string)
    ensures Split(" " + t) == Split(t)
  {
    assert (" " + t)[1..] == t;
  }

  lemma SpaceRegroup(w: string, t: string)
    ensures w + " " + t == w + (" " + t)
  {
  }

  /** One step of SplitJoin: a word, one space, and words that split back into themselves. */
  lemma SplitJoinStep(w: string, rest: seq<string>)
    requires IsWord(w) && rest != []
    requires Split(Join(rest)) == rest
    ensures Split(Join([w] + rest)) == [w] + rest
  {
    var j := Join(rest);
    assert ([w] + rest)[1..] == rest;
    assert Join([w] + rest) == w + " " + j;
    SpaceRegroup(w, j);
    SplitWordThen(w, " " + j);
    SplitSpaceThen(j);
  }

  /** Splitting undoes joining: `split` recovers the words that `join(' ')` put together. */
  lemma {:induction false} SplitJoin(ws: seq<string>)
    requires AllWords(ws)
    ensures Split(Join(ws)) == ws
    decreases |ws|
  {
    if |ws| == 1 {
      var w := ws[0];
      assert w + [] == w;
      SplitWordThen(w, []);
    } else if |ws| >= 2 {
      var rest := ws[1..];
      assert AllWords(rest);
      SplitJoin(rest);
      assert ws == [ws[0]] + rest;
      SplitJoinStep(ws[0], rest);
    }
  }

  /** What follows a space of a canonical string is canonical. */
  lemma CanonicalAfterSpace(t: string, n: nat)
    requires Canonical(t)
    requires n < |t| && IsSpace(t[n])
    ensures n + 1 < |t| && Canonical(t[n + 1..])
  {
    var t' := t[n + 1..];
    assert t'[0] == t[n + 1];
    assert t'[|t'| - 1] == t[|t| - 1];
    forall i, j | 0 <= i && j == i + 1 && j < |t'|
      ensures !IsSpace(t'[i]) || !IsSpace(t'[j])
      ensures if t'[i] == ' ' then !IsLower(t'[j]) else !IsUpper(t'[j])
    {
      assert t'[i] == t[i + n + 1] && t'[j] == t[j + n + 1];
    }
  }

  /** The first word of a non-empty canonical string is a title word. */
  lemma CanonicalLeadingWord(t: string)
    requires Canonical(t) && t != []
    ensures IsTitleWord(LeadingWord(t))
  {
    var w := LeadingWord(t);
    assert w == t[..|w|];
    assert w[0] == t[0];
    forall k | 1 <= k < |w| ensures !IsUpper(w[k]) {
      assert t[k - 1] == w[k - 1] && t[k] == w[k];
    }
  }

  /** `split` takes the leading word off a string that starts with one. */
  lemma SplitAfterWord(t: string, w: string)
    requires w == LeadingWord(t) && IsWord(w)
    ensures t == w + t[|w|..]
    ensures Split(t) == [w] + Split(t[|w|..])
  {
    assert t == w + t[|w|..];
    SplitWordThen(w, t[|w|..]);
  }

  /** `split` skips a space. */
  lemma SplitAfterSpace(t: string, n: nat)
    requires n < |t| && t[n] == ' '
    ensures t[n..] == " " + t[n + 1..]
    ensures Split(t[n..]) == Split(t[n + 1..])
  {
    assert t[n..] == " " + t[n + 1..];
    SplitSpaceThen(t[n + 1..]);
  }

  /** How `split` takes a non-empty canonical string apart: its first word, then the canonical rest after one space. */
  lemma CanonicalSplitStep(t: string) returns (w: string, t': string)
    requires Canonical(t) && t != []
    ensures IsTitleWord(w)
    ensures Canonical(t') && |t'| < |t|
    ensures t' == [] ==> t == w && Split(t) == [w]
    ensures t' != [] ==> t == w + " " + t' && Split(t) == [w] + Split(t') && Split(t') != []
  {
    CanonicalLeadingWord(t);
    w := LeadingWord(t);
    var n := |w|;
    SplitAfterWord(t, w);
    if n < |t| {
      t' := t[n + 1..];
      assert t[n] == ' ';
      SplitAfterSpace(t, n);
      SpaceRegroup(w, t');
      CanonicalAfterSpace(t, n);
    } else {
      t' := [];
      assert t[n..] == [];
    }
  }

  lemma JoinCons(w: string, ws: seq<string>)
    requires ws != []
    ensures Join([w] + ws) == w + " " + Join(ws)
  {
    assert ([w] + ws)[1..] == ws;
  }

  lemma TitleWordsCons(w: string, ws: seq<string>)
    requires IsTitleWord(w) && AllTitleWords(ws)
    ensures AllTitleWords([w] + ws)
  {
    forall k | 0 < k < |[w] + ws| ensures IsTitleWord(([w] + ws)[k]) {
      assert ([w] + ws)[k] == ws[k - 1];
    }
  }

  /** A canonical string is its own words joined by single spaces, and each of them is a title word. */
  lemma {:induction false} CanonicalSplit(t: string)
    requires Canonical(t)
    ensures Join(Split(t)) == t
    ensures AllTitleWords(Split(t))
    decreases |t|
  {
    if t != [] {
      var w, t' := CanonicalSplitStep(t);
      if t' != [] {
        CanonicalSplit(t');
        JoinCons(w, Split(t'));
        TitleWordsCons(w, Split(t'));
      }
    }
  }

  // ---------------------------------------------------------------------
  // Properties of the normalised name (app/models/item.rb:25)

  /** The stored name's words are the input's words, in order, each lower-cased and then capitalised. */
  lemma NormalizeWords(name: string)
    ensures Split(Normalize(name)) == CapitalizeAll(Split(Downcase(name)))
  {
    var cws := CapitalizeAll(Split(Downcase(name)));
    forall k | 0 <= k < |cws| ensures IsWord(cws[k]) {
      CapitalizeTitle(Split(Downcase(name))[k]);
    }
    SplitJoin(cws);
  }

  /** The stored name is single-spaced and title-cased. */
  lemma NormalizeCanonical(name: string)
    ensures Canonical(Normalize(name))
  {
    var cws := CapitalizeAll(Split(Downcase(name)));
    forall k | 0 <= k < |cws| ensures IsTitleWord(cws[k]) {
      CapitalizeTitle(Split(Downcase(name))[k]);
    }
    JoinSingleSpaced(cws);
    JoinTitleCased(cws);
  }

  /** A name already in canonical form is stored unchanged. */
  lemma CanonicalFixed(t: string)
    requires Canonical(t)
    ensures Normalize(t) == t
  {
    CanonicalSplit(t);
    TitleWordsFixed(Split(t));
  }

  /** Title words joined by single spaces come through the callback unchanged. */
  lemma TitleWordsFixed(ws: seq<string>)
    requires AllTitleWords(ws)
    ensures Normalize(Join(ws)) == Join(ws)
  {
    var dws := DowncaseAll(ws);
    DowncaseJoin(ws);
    TitleWordsLowered(ws);
    SplitJoin(dws);
  }

  /** Title words lower-cased are still words, and capitalising them gives the title words back. */
  lemma TitleWordsLowered(ws: seq<string>)
    requires AllTitleWords(ws)
    ensures AllWords(DowncaseAll(ws)) && CapitalizeAll(DowncaseAll(ws)) == ws
  {
    var dws := DowncaseAll(ws);
    assert AllWords(dws);
    forall k | 0 <= k < |ws| ensures CapitalizeAll(dws)[k] == ws[k] {
      TitleWordStable(ws[k]);
    }
  }

  /** The callback leaves a name alone exactly when it is canonical. */
  lemma NormalizeFixedIff(t: string)
    ensures Normalize(t) == t <==> Canonical(t)
  {
    NormalizeCanonical(t);
    if Canonical(t) {
      CanonicalFixed(t);
    }
  }

  /** Running the callback twice is the same as running it once. */
  lemma NormalizeIdempotent(name: string)
    ensures Normalize(Normalize(name)) == Normalize(name)
  {
    NormalizeCanonical(name);
    CanonicalFixed(Normalize(name));
  }

  /** The stored name is empty exactly when the given name is all whitespace. */
  lemma NormalizeEmpty(name: string)
    ensures Normalize(name) == [] <==> IsBlank(name)
  {
    var ws := Split(Downcase(name));
    assert IsBlank(Downcase(name)) <==> IsBlank(name) by {
      forall i | 0 <= i < |name| ensures IsSpace(Downcase(name)[i]) <==> IsSpace(name[i]) {
      }
    }
    var cws := CapitalizeAll(ws);
    forall k | 0 <= k < |cws| ensures IsWord(cws[k]) {
      CapitalizeTitle(ws[k]);
    }
    JoinEmpty(cws);
  }

  /** After the callback the name passes validation exactly when it has 1 to NameMaxLength characters. */
  lemma NormalizedNameValid(name: string)
    ensures NameErrors(Normalize(name)) == {} <==> 1 <= |Normalize(name)| <= NameMaxLength
  {
    var t := Normalize(name);
    NormalizeCanonical(name);
    if t != [] {
      assert !IsSpace(t[0]);
    }
  }

  /** A name of nothing but whitespace becomes "" and fails both the presence and the minimum-length check. */
  lemma BlankNameRejected(name: string)
    requires IsBlank(name)
    ensures Normalize(name) == []
    ensures NameErrors(Normalize(name)) == {Blank, TooShort}
  {
    NormalizeEmpty(name);
  }

  // ---------------------------------------------------------------------
  // Examples

  /** `split` skips any whitespace before a word. */
  lemma {:induction false} SplitLeadingSpaces(sp: string, t: string)
    requires IsBlank(sp)
    ensures Split(sp + t) == Split(t)
    decreases |sp|
  {
    if sp != [] {
      assert (sp + t)[0] == sp[0];
      assert (sp + t)[1..] == sp[1..] + t;
      SplitLeadingSpaces(sp[1..], t);
    } else {
      assert sp + t == t;
    }
  }

  lemma Regroup(a: string, b: string, c: string, d: string)
    ensures a + b + c + d == a + (b + (c + d))
  {
  }

  lemma SplitTwoWords(sp1: string, w1: string, sp2: string, w2: string)
    requires IsBlank(sp1) && IsBlank(sp2) && sp2 != []
    requires IsWord(w1) && IsWord(w2)
    ensures Split(sp1 + w1 + sp2 + w2) == [w1, w2]
  {
    var t2 := sp2 + w2;
    var t1 := w1 + t2;
    Regroup(sp1, w1, sp2, w2);
    SplitLeadingSpaces(sp1, t1);
    assert t2[0] == sp2[0];
    SplitWordThen(w1, t2);
    SplitLeadingSpaces(sp2, w2);
    assert w2 + [] == w2;
    SplitWordThen(w2, []);
  }

  /** Two lower-case words with any whitespace around them become the two capitalised words with one space between. */
  lemma NormalizeTwoWords(s: string, sp1: string, w1: string, sp2: string, w2: string)
    requires s == sp1 + w1 + sp2 + w2 && Downcase(s) == s
    requires IsBlank(sp1) && IsBlank(sp2) && sp2 != []
    requires IsWord(w1) && IsWord(w2)
    ensures Normalize(s) == Capitalize(w1) + " " + Capitalize(w2)
  {
    SplitTwoWords(sp1, w1, sp2, w2);
    var cws := CapitalizeAll([w1, w2]);
    assert cws == [Capitalize(w1), Capitalize(w2)];
    assert cws[1..] == [Capitalize(w2)];
    assert Join(cws[1..]) == Capitalize(w2);
  }

  lemma CapitalizeTvDinner()
    ensures Capitalize("tv") == "Tv" && Capitalize("dinner") == "Dinner"
  {
  }

  lemma TvDinnerParts(s: string)
    requires s == "  tv   dinner"
    ensures s == "  " + "tv" + "   " + "dinner" && Downcase(s) == s
    ensures IsBlank("  ") && IsBlank("   ") && IsWord("tv") && IsWord("dinner")
  {
  }

  lemma TvDinnerJoined(t: string)
    requires t == "Tv Dinner"
    ensures "Tv" + " " + "Dinner" == t
  {
  }

  /** "  tv   dinner" is stored as "Tv Dinner". */
  lemma NormalizeTvDinner(s: string)
    requires s == "  tv   dinner"
    ensures Normalize(s) == "Tv Dinner"
  {
    TvDinnerParts(s);
    NormalizeTwoWords(s, "  ", "tv", "   ", "dinner");
    CapitalizeTvDinner();
    TvDinnerJoined("Tv Dinner");
  }

  /** One lower-case word with whitespace before it becomes that word capitalised. */
  lemma NormalizeOneWord(s: string, sp: string, w: string)
    requires s == sp + w && Downcase(s) == s
    requires IsBlank(sp) && IsWord(w)
    ensures Normalize(s) == Capitalize(w)
  {
    assert s == sp + (w + []);
    SplitLeadingSpaces(sp, w + []);
    SplitWordThen(w, []);
    assert CapitalizeAll([w]) == [Capitalize(w)];
  }

  /** "  pizza" is stored as "Pizza". */
  lemma NormalizePizza(s: string)
    requires s == "  pizza"
    ensures Normalize(s) == "Pizza"
  {
    PizzaParts(s);
    NormalizeOneWord(s, "  ", "pizza");
    CapitalizePizza();
  }

  lemma PizzaParts(s: string)
    requires s == "  pizza"
    ensures s == "  " + "pizza" && Downcase(s) == s
    ensures IsBlank("  ") && IsWord("pizza")
  {
  }

  lemma CapitalizePizza()
    ensures Capitalize("pizza") == "Pizza"
  {
    assert "pizza"[1..] == "izza";
    assert Downcase("izza") == "izza";
  }
}
