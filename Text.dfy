/**
 String predicates used by the form: the character classes of the
 letters-only pattern `^[a-zA-Z\s]*$` and the whitespace trimming done by
 `String.prototype.trim`. In JavaScript both `\s` and `trim` use the same
 whitespace set (WhiteSpace plus LineTerminator), which `IsWhitespace` fixes
 explicitly.
 */
module Text {

  /** The characters JavaScript's `\s` and `trim` treat as whitespace. */
  predicate IsWhitespace(c: char)
  {
    || c == '\t' || c == '\n' || c == '\U{000B}' || c == '\U{000C}' || c == '\r' || c == ' '
    || c == '\U{00A0}' || c == '\U{1680}'
    || ('\U{2000}' <= c <= '\U{200A}')
    || c == '\U{2028}' || c == '\U{2029}' || c == '\U{202F}' || c == '\U{205F}'
    || c == '\U{3000}' || c == '\U{FEFF}'
  }

  predicate IsAsciiLetter(c: char)
  {
    ('a' <= c <= 'z') || ('A' <= c <= 'Z')
  }

  /** A character the class `[a-zA-Z\s]` matches. */
  predicate IsLetterOrSpace(c: char)
  {
    IsAsciiLetter(c) || IsWhitespace(c)
  }

  /** The test `/^[a-zA-Z\s]*$/.test(s)`, scanning the string from the left. */
  function LettersOnly(s: string): (ok: bool)
    ensures ok <==> forall i :: 0 <= i < |s| ==> IsLetterOrSpace(s[i])
  {
    if s == [] then true
    else IsLetterOrSpace(s[0]) && LettersOnly(s[1..])
  }

  /** Drops leading whitespace. */
  function TrimStart(s: string): (r: string)
    ensures |r| <= |s| && r == s[|s| - |r|..]
    ensures forall i :: 0 <= i < |s| - |r| ==> IsWhitespace(s[i])
    ensures r != [] ==> !IsWhitespace(r[0])
  {
    if s != [] && IsWhitespace(s[0]) then TrimStart(s[1..]) else s
  }

  /** Drops trailing whitespace. */
  function TrimEnd(s: string): (r: string)
    ensures |r| <= |s| && r == s[..|r|]
    ensures forall i :: |r| <= i < |s| ==> IsWhitespace(s[i])
    ensures r != [] ==> !IsWhitespace(r[|r| - 1])
  {
    if s != [] && IsWhitespace(s[|s| - 1]) then TrimEnd(s[..|s| - 1]) else s
  }

  /** `r` appears in `s` starting at offset `a`. */
  predicate OccursAt(r: string, s: string, a: nat)
  {
    a + |r| <= |s| && r == s[a..a + |r|]
  }

  /**
   `s.trim()`: the longest infix of `s` that neither starts nor ends with
   whitespace. It starts where `TrimStart` stops dropping.
   */
  function Trim(s: string): (r: string)
    ensures |r| <= |TrimStart(s)| <= |s|
    ensures r != [] ==> !IsWhitespace(r[0]) && !IsWhitespace(r[|r| - 1])
    ensures OccursAt(r, s, |s| - |TrimStart(s)|)
    ensures Blank(s[..|s| - |TrimStart(s)|])
    ensures Blank(s[|s| - |TrimStart(s)| + |r|..])
  {
    var t := TrimStart(s);
    TrimStartDropsBlank(s);
    TrimEndOfSuffix(s, t);
    TrimEnd(t)
  }

  /** What `TrimStart` drops is a blank prefix. */
  lemma TrimStartDropsBlank(s: string)
    ensures Blank(s[..|s| - |TrimStart(s)|])
  {
    var head := s[..|s| - |TrimStart(s)|];
    forall i | 0 <= i < |head|
      ensures IsWhitespace(head[i])
    {
      assert head[i] == s[i];
    }
  }

  /** Trimming the end of a suffix `t` of `s` keeps an infix of `s` and drops a blank tail. */
  lemma TrimEndOfSuffix(s: string, t: string)
    requires |t| <= |s| && t == s[|s| - |t|..]
    ensures OccursAt(TrimEnd(t), s, |s| - |t|)
    ensures Blank(s[|s| - |t| + |TrimEnd(t)|..])
  {
    var a, r := |s| - |t|, TrimEnd(t);
    assert r == t[..|r|];
    var tail := s[a + |r|..];
    forall i | 0 <= i < |tail|
      ensures IsWhitespace(tail[i])
    {
      assert tail[i] == t[|r| + i];
    }
  }

  /** A string is blank when every character is whitespace. */
  predicate Blank(s: string)
  {
    forall i :: 0 <= i < |s| ==> IsWhitespace(s[i])
  }

  /** Trimming yields the empty string exactly for blank strings. */
  lemma TrimEmptyIffBlank(s: string)
    ensures Trim(s) == "" <==> Blank(s)
  {
    var t := TrimStart(s);
    if Trim(s) == "" {
      // a non-empty `t` would start with a non-whitespace character that TrimEnd keeps
      assert t == [];
    } else {
      var r := Trim(s);
      assert r == t[..|r|];
      assert r[0] == s[|s| - |t|];
    }
  }
}
