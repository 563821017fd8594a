/**
 * `normalizeText`: turns a raw item into the canonical key two items are
 * matched on. The steps, in order: lowercase, Unicode canonical
 * decomposition (Normalization Form D, Unicode Standard Annex #15), delete
 * combining diacritical marks U+0300 to U+036F, delete whitespace, delete
 * everything outside `[a-z0-9]`.
 *
 * Lowercasing and decomposition come from the runtime's Unicode tables;
 * they are a parameter, `Tables`, given character by character.
 */
module Normalizer {
  import opened Text

  /** The runtime's `toLowerCase` and `normalize("NFD")`, per character:
      `lower(c)` is the lowercase form of `c`, `decompose(c)` its full
      canonical decomposition. */
  datatype Tables = Tables(lower: char -> string, decompose: char -> string)

  predicate IsKeyChar(c: char) {
    'a' <= c <= 'z' || '0' <= c <= '9'
  }

  /** The complement of `[a-z0-9]`, the class the last step deletes. */
  predicate OutsideKeyAlphabet(c: char) {
    !IsKeyChar(c)
  }

  /** The block of combining diacritical marks, U+0300 to U+036F. */
  predicate IsCombiningMark(c: char) {
    '\U{0300}' <= c <= '\U{036F}'
  }

  /** A string over `[a-z0-9]`, possibly empty: the shape of every key. */
  predicate IsKey(s: string) {
    forall i :: 0 <= i < |s| ==> IsKeyChar(s[i])
  }

  /** What the engine needs from the Unicode tables: neither lowercasing
      nor decomposition changes an ASCII lowercase letter or digit. */
  ghost predicate KeepsKeyChars(t: Tables) {
    (forall c :: IsKeyChar(c) ==> t.lower(c) == [c]) &&
    (forall c :: IsKeyChar(c) ==> t.decompose(c) == [c])
  }

  function NormalizeText(t: Tables, input: string): (key: string)
    ensures IsKey(key)
  {
    var lowered := FlatMap(t.lower, input);
    var decomposed := FlatMap(t.decompose, lowered);
    var unmarked := Delete(IsCombiningMark, decomposed);
    var unspaced := Delete(IsSpace, unmarked);
    Delete(OutsideKeyAlphabet, unspaced)
  }

  /** Whitespace characters lowercase and decompose to text with no ASCII
      letter or digit in it (a Unicode fact the fallback label relies on). */
  ghost predicate SpacesStayBlank(t: Tables) {
    forall c :: IsSpace(c) ==> NormalizeText(t, [c]) == []
  }

  /** The last step does all the deleting: removing marks and whitespace
      first changes nothing, since both lie outside `[a-z0-9]`. */
  lemma FinalFilterSuffices(t: Tables, input: string)
    ensures NormalizeText(t, input) ==
            Delete(OutsideKeyAlphabet, FlatMap(t.decompose, FlatMap(t.lower, input)))
  {
    var decomposed := FlatMap(t.decompose, FlatMap(t.lower, input));
    var unmarked := Delete(IsCombiningMark, decomposed);
    DeleteSubsumed(OutsideKeyAlphabet, IsSpace, unmarked);
    DeleteSubsumed(OutsideKeyAlphabet, IsCombiningMark, decomposed);
  }

  /** Normalization works character by character: the key of a
      concatenation is the concatenation of the keys. */
  lemma NormalizeAppend(t: Tables, a: string, b: string)
    ensures NormalizeText(t, a + b) == NormalizeText(t, a) + NormalizeText(t, b)
  {
    FinalFilterSuffices(t, a + b);
    FinalFilterSuffices(t, a);
    FinalFilterSuffices(t, b);
    FlatMapAppend(t.lower, a, b);
    FlatMapAppend(t.decompose, FlatMap(t.lower, a), FlatMap(t.lower, b));
    DeleteAppend(OutsideKeyAlphabet, FlatMap(t.decompose, FlatMap(t.lower, a)),
                 FlatMap(t.decompose, FlatMap(t.lower, b)));
  }

  /** A string is its own key exactly when it is already over `[a-z0-9]`. */
  lemma NormalizeFixedIff(t: Tables, s: string)
    requires KeepsKeyChars(t)
    ensures NormalizeText(t, s) == s <==> IsKey(s)
  {
    if IsKey(s) {
      FlatMapFixed(t.lower, s);
      FlatMapFixed(t.decompose, s);
      FinalFilterSuffices(t, s);
      DeleteKeepsIff(OutsideKeyAlphabet, s);
    }
  }

  /** Normalizing a key again gives the same key. */
  lemma NormalizeIdempotent(t: Tables, s: string)
    requires KeepsKeyChars(t)
    ensures NormalizeText(t, NormalizeText(t, s)) == NormalizeText(t, s)
  {
    NormalizeFixedIff(t, NormalizeText(t, s));
  }

  /** Text made only of whitespace has the empty key. */
  lemma {:induction false} BlankNormalizesToEmpty(t: Tables, s: string)
    requires SpacesStayBlank(t)
    requires AllSpaces(s)
    ensures NormalizeText(t, s) == []
    decreases |s|
  {
    if s != [] {
      assert s == [s[0]] + s[1..];
      NormalizeAppend(t, [s[0]], s[1..]);
      BlankNormalizesToEmpty(t, s[1..]);
    }
  }

  /** Whitespace anywhere in an item does not change its key: "ice cream"
      and "icecream" match. */
  lemma SpaceInsensitive(t: Tables, a: string, c: char, b: string)
    requires SpacesStayBlank(t)
    requires IsSpace(c)
    ensures NormalizeText(t, a + [c] + b) == NormalizeText(t, a + b)
  {
    NormalizeAppend(t, a + [c], b);
    NormalizeAppend(t, a, [c]);
    NormalizeAppend(t, a, b);
  }

  // A concrete instance of the tables, covering ASCII and the Latin-1
  // letters; every other character is left as it is.

  /** Lowercasing of `A`-`Z` and of the Latin-1 capitals U+00C0 to U+00DE
      (except the multiplication sign U+00D7). */
  function Latin1Lower(c: char): (r: string)
  {
    if 'A' <= c <= 'Z' || ('\U{00C0}' <= c <= '\U{00DE}' && c != '\U{00D7}')
    then [(c as int + 32) as char]
    else [c]
  }

  /** Canonical decompositions of the Latin-1 small letters with
      diacritics. */
  function Latin1Decompose(c: char): (r: string)
  {
    match c
    case '\U{00E0}' => "a\U{0300}"
    case '\U{00E1}' => "a\U{0301}"
    case '\U{00E2}' => "a\U{0302}"
    case '\U{00E3}' => "a\U{0303}"
    case '\U{00E4}' => "a\U{0308}"
    case '\U{00E5}' => "a\U{030A}"
    case '\U{00E7}' => "c\U{0327}"
    case '\U{00E8}' => "e\U{0300}"
    case '\U{00E9}' => "e\U{0301}"
    case '\U{00EA}' => "e\U{0302}"
    case '\U{00EB}' => "e\U{0308}"
    case '\U{00EC}' => "i\U{0300}"
    case '\U{00ED}' => "i\U{0301}"
    case '\U{00EE}' => "i\U{0302}"
    case '\U{00EF}' => "i\U{0308}"
    case '\U{00F1}' => "n\U{0303}"
    case '\U{00F2}' => "o\U{0300}"
    case '\U{00F3}' => "o\U{0301}"
    case '\U{00F4}' => "o\U{0302}"
    case '\U{00F5}' => "o\U{0303}"
    case '\U{00F6}' => "o\U{0308}"
    case '\U{00F9}' => "u\U{0300}"
    case '\U{00FA}' => "u\U{0301}"
    case '\U{00FB}' => "u\U{0302}"
    case '\U{00FC}' => "u\U{0308}"
    case '\U{00FD}' => "y\U{0301}"
    case '\U{00FF}' => "y\U{0308}"
    case _ => [c]
  }

  function Latin1(): (t: Tables)
    ensures KeepsKeyChars(t)
  {
    Tables(Latin1Lower, Latin1Decompose)
  }

  lemma Latin1SpacesStayBlank()
    ensures SpacesStayBlank(Latin1())
  {
    forall c | IsSpace(c) ensures NormalizeText(Latin1(), [c]) == [] {
      assert FlatMap(Latin1Lower, [c]) == [c];
      assert FlatMap(Latin1Decompose, [c]) == [c];
    }
  }

  /** The key of one character, read off the two tables. */
  lemma NormalizeChar(t: Tables, c: char)
    ensures NormalizeText(t, [c]) ==
            Delete(OutsideKeyAlphabet, FlatMap(t.decompose, t.lower(c)))
  {
    FinalFilterSuffices(t, [c]);
    assert FlatMap(t.lower, [c]) == t.lower(c) + FlatMap(t.lower, []) == t.lower(c);
  }

  /** Under the Latin-1 tables an ASCII letter or digit keys to its
      lowercase self. */
  lemma Latin1AsciiChar(c: char)
    requires 'A' <= c <= 'Z' || IsKeyChar(c)
    ensures NormalizeText(Latin1(), [c]) == Latin1Lower(c)
  {
    NormalizeChar(Latin1(), c);
    var l := Latin1Lower(c);
    assert IsKeyChar(l[0]);
    assert FlatMap(Latin1Decompose, l) == l by {
      FlatMapFixed(Latin1Decompose, l);
    }
    DeleteKeepsIff(OutsideKeyAlphabet, l);
  }
}

/** Worked examples of normalization under the Latin-1 tables. */
module NormalizerExamples {
  import opened Text
  import opened Normalizer

  lemma AcuteEDecomposes()
    ensures FlatMap(Latin1Decompose, Latin1Lower('\U{00E9}')) == "e\U{0301}"
  {
    assert Latin1Lower('\U{00E9}') == "\U{00E9}";
    assert FlatMap(Latin1Decompose, "\U{00E9}") == "e\U{0301}" + FlatMap(Latin1Decompose, []);
  }

  lemma AcuteDeleted()
    ensures Delete(OutsideKeyAlphabet, "e\U{0301}") == "e"
  {
    assert "e\U{0301}"[1..] == "\U{0301}";
  }

  /** "é" (U+00E9) decomposes to "e" and an acute accent, which is deleted. */
  lemma Latin1AcuteE()
    ensures NormalizeText(Latin1(), "\U{00E9}") == "e"
  {
    NormalizeChar(Latin1(), '\U{00E9}');
    AcuteEDecomposes();
    AcuteDeleted();
  }

  /** Under the Latin-1 tables a string over `[a-z0-9]` is its own key. */
  lemma Latin1KeepsKey(s: string)
    requires IsKey(s)
    ensures NormalizeText(Latin1(), s) == s
  {
    NormalizeFixedIff(Latin1(), s);
  }

  lemma AccentedCafeKey()
    ensures NormalizeText(Latin1(), "caf\U{00E9}") == "cafe"
  {
    Latin1KeepsKey("caf");
    Latin1AcuteE();
    NormalizeAppend(Latin1(), "caf", "\U{00E9}");
    assert "caf" + "\U{00E9}" == "caf\U{00E9}";
  }

  /** "café" and "cafe" have the same key. */
  lemma AccentInsensitive()
    ensures NormalizeText(Latin1(), "caf\U{00E9}") == NormalizeText(Latin1(), "cafe") == "cafe"
  {
    AccentedCafeKey();
    Latin1KeepsKey("cafe");
  }

  /** Under the Latin-1 tables a word with an initial capital keys to its
      lowercase form. */
  lemma Latin1Capitalized(c: char, rest: string)
    requires 'A' <= c <= 'Z' && IsKey(rest)
    ensures NormalizeText(Latin1(), [c] + rest) == Latin1Lower(c) + rest
  {
    Latin1AsciiChar(c);
    Latin1KeepsKey(rest);
    NormalizeAppend(Latin1(), [c], rest);
  }

  lemma IceKey()
    ensures NormalizeText(Latin1(), "Ice") == "ice"
  {
    Latin1Capitalized('I', "ce");
    assert "I" + "ce" == "Ice";
  }

  lemma TeaKey()
    ensures NormalizeText(Latin1(), "Tea") == "tea"
  {
    Latin1Capitalized('T', "ea");
    assert "T" + "ea" == "Tea";
  }

  lemma IceTeaKey()
    ensures NormalizeText(Latin1(), "Ice" + "Tea") == "ice" + "tea"
  {
    IceKey();
    TeaKey();
    NormalizeAppend(Latin1(), "Ice", "Tea");
  }

  /** "Ice Tea" and "IceTea" have the same key, "icetea". */
  lemma CaseAndSpaceInsensitive()
    ensures NormalizeText(Latin1(), "Ice" + " " + "Tea") == NormalizeText(Latin1(), "Ice" + "Tea")
    ensures NormalizeText(Latin1(), "Ice" + "Tea") == "ice" + "tea"
  {
    Latin1SpacesStayBlank();
    SpaceInsensitive(Latin1(), "Ice", ' ', "Tea");
    IceTeaKey();
  }
}
