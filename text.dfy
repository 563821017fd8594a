/**
 * The JavaScript string operations the matching engine relies on:
 * the whitespace class shared by `\s` and `String.prototype.trim`,
 * global `replace(/…/g, "")` as deleting every matching character,
 * per-character string mappings, and `trim`.
 *
 * A string is a sequence of Unicode scalar values. JavaScript strings are
 * UTF-16 code units; every character class used by the engine lies in the
 * Basic Multilingual Plane, so the two views delete and keep the same text.
 */
module Text {

  /** The characters `\s` matches and `trim` removes: WhiteSpace and
      LineTerminator of ECMAScript (tab, LF, VT, FF, CR, space, NBSP,
      U+1680, U+2000 to U+200A, LS, PS, U+202F, U+205F, U+3000, BOM). */
  predicate IsSpace(c: char) {
    ('\U{0009}' <= c <= '\U{000D}') || c == ' ' || c == '\U{00A0}' || c == '\U{1680}' ||
    ('\U{2000}' <= c <= '\U{200A}') || c == '\U{2028}' || c == '\U{2029}' ||
    c == '\U{202F}' || c == '\U{205F}' || c == '\U{3000}' || c == '\U{FEFF}'
  }

  predicate AllSpaces(s: string) {
    forall i :: 0 <= i < |s| ==> IsSpace(s[i])
  }

  /** `s.replace(/[p]/g, "")`: every character satisfying `p` is removed,
      every other character is kept in order. */
  function Delete(p: char -> bool, s: string): (r: string)
    ensures |r| <= |s|
    ensures forall i :: 0 <= i < |r| ==> !p(r[i])
    decreases |s|
  {
    if s == [] then []
    else (if p(s[0]) then [] else [s[0]]) + Delete(p, s[1..])
  }

  lemma {:induction false} DeleteAppend(p: char -> bool, a: string, b: string)
    ensures Delete(p, a + b) == Delete(p, a) + Delete(p, b)
    decreases |a|
  {
    if a != [] {
      assert (a + b)[1..] == a[1..] + b;
      DeleteAppend(p, a[1..], b);
    } else {
      assert a + b == b;
    }
  }

  /** Deleting only removes characters satisfying `p`: a string with none
      of them is left as it is, and conversely. */
  lemma {:induction false} DeleteKeepsIff(p: char -> bool, s: string)
    ensures Delete(p, s) == s <==> forall i :: 0 <= i < |s| ==> !p(s[i])
    decreases |s|
  {
    if s != [] {
      DeleteKeepsIff(p, s[1..]);
      if !p(s[0]) && Delete(p, s) == s {
        assert Delete(p, s[1..]) == s[1..];
      }
    }
  }

  /** A later deletion of a wider class swallows an earlier deletion of a
      narrower one. */
  lemma {:induction false} DeleteSubsumed(p: char -> bool, q: char -> bool, s: string)
    requires forall c :: q(c) ==> p(c)
    ensures Delete(p, Delete(q, s)) == Delete(p, s)
    decreases |s|
  {
    if s != [] {
      DeleteSubsumed(p, q, s[1..]);
      DeleteAppend(p, if q(s[0]) then [] else [s[0]], Delete(q, s[1..]));
    }
  }

  /** A string mapping applied character by character, as `toLowerCase`
      and `normalize("NFD")` act on the text the engine keeps. */
  function FlatMap(f: char -> string, s: string): (r: string)
    decreases |s|
  {
    if s == [] then [] else f(s[0]) + FlatMap(f, s[1..])
  }

  lemma {:induction false} FlatMapAppend(f: char -> string, a: string, b: string)
    ensures FlatMap(f, a + b) == FlatMap(f, a) + FlatMap(f, b)
    decreases |a|
  {
    if a != [] {
      assert (a + b)[1..] == a[1..] + b;
      FlatMapAppend(f, a[1..], b);
    } else {
      assert a + b == b;
    }
  }

  lemma {:induction false} FlatMapFixed(f: char -> string, s: string)
    requires forall i :: 0 <= i < |s| ==> f(s[i]) == [s[i]]
    ensures FlatMap(f, s) == s
    decreases |s|
  {
    if s != [] {
      FlatMapFixed(f, s[1..]);
    }
  }

  /** `String.prototype.trimStart`. */
  function TrimStart(s: string): string
    decreases |s|
  {
    if s != [] && IsSpace(s[0]) then TrimStart(s[1..]) else s
  }

  /** `trimStart` keeps a suffix of `s` that does not start with
      whitespace, and what it drops is whitespace. */
  lemma {:induction false} TrimStartSpec(s: string)
    ensures var r := TrimStart(s);
      && |r| <= |s| && r == s[|s| - |r|..] && AllSpaces(s[..|s| - |r|])
      && (r != [] ==> !IsSpace(r[0]))
    decreases |s|
  {
    if s != [] && IsSpace(s[0]) {
      TrimStartSpec(s[1..]);
      var r := TrimStart(s[1..]);
      assert s[..|s| - |r|] == [s[0]] + s[1..][..|s| - 1 - |r|];
    }
  }

  /** `String.prototype.trimEnd`. */
  function TrimEnd(s: string): string
    decreases |s|
  {
    if s != [] && IsSpace(s[|s| - 1]) then TrimEnd(s[..|s| - 1]) else s
  }

  /** `trimEnd` keeps a prefix of `s` that does not end with whitespace,
      and what it drops is whitespace. */
  lemma {:induction false} TrimEndSpec(s: string)
    ensures var r := TrimEnd(s);
      && |r| <= |s| && r == s[..|r|] && AllSpaces(s[|r|..])
      && (r != [] ==> !IsSpace(r[|r| - 1]))
    decreases |s|
  {
    if s != [] && IsSpace(s[|s| - 1]) {
      var init := s[..|s| - 1];
      TrimEndSpec(init);
      var r := TrimEnd(init);
      assert s[|r|..] == init[|r|..] + [s[|s| - 1]];
    }
  }

  /** `String.prototype.trim`. */
  function Trim(s: string): string {
    TrimEnd(TrimStart(s))
  }

  /** `trim` keeps the middle part of `s` that neither starts nor ends
      with whitespace; everything around it is whitespace. */
  lemma TrimSpec(s: string)
    ensures exists i, j :: 0 <= i <= j <= |s| && Trim(s) == s[i..j] &&
                           AllSpaces(s[..i]) && AllSpaces(s[j..])
    ensures Trim(s) != [] ==> !IsSpace(Trim(s)[0]) && !IsSpace(Trim(s)[|Trim(s)| - 1])
  {
    var front := TrimStart(s);
    TrimStartSpec(s);
    TrimEndSpec(front);
    var r := TrimEnd(front);
    var i := |s| - |front|;
    assert r == s[i..i + |r|];
    assert s[i + |r|..] == front[|r|..];
  }

  /** Only a string made of whitespace trims to the empty string. */
  lemma TrimEmptyIff(s: string)
    ensures Trim(s) == [] <==> AllSpaces(s)
  {
    TrimSpec(s);
    var r := Trim(s);
    var i, j :| 0 <= i <= j <= |s| && r == s[i..j] && AllSpaces(s[..i]) && AllSpaces(s[j..]);
    if r == [] {
      forall k | 0 <= k < |s| ensures IsSpace(s[k]) {
        if k < i { assert s[k] == s[..i][k]; } else { assert s[k] == s[j..][k - j]; }
      }
    } else {
      assert r[0] == s[i];
    }
  }
}
