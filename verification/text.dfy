/**
 * The string operations the views rely on, over `seq<char>`: JavaScript's `<`
 * on strings, `toLowerCase` (ASCII letters only), `includes`, `trim` and the
 * `\s` character class, and the `[A-Za-z0-9_-]` class of employee ids.
 */
module Text {

  /** JavaScript `a < b` on strings: lexicographic by code unit, a proper prefix first. */
  predicate StrLt(a: string, b: string)
  {
    if a == [] then b != []
    else if b == [] then false
    else if a[0] != b[0] then a[0] < b[0]
    else StrLt(a[1..], b[1..])
  }

  /** JavaScript `!(b < a)`: `a` may precede `b` in a default-order sort. */
  predicate StrLe(a: string, b: string)
  {
    !StrLt(b, a)
  }

  lemma {:induction false} StrLtIrreflexive(a: string)
    ensures !StrLt(a, a)
  {
    if a != [] {
      StrLtIrreflexive(a[1..]);
    }
  }

  lemma {:induction false} StrLtTransitive(a: string, b: string, c: string)
    requires StrLt(a, b) && StrLt(b, c)
    ensures StrLt(a, c)
  {
    if a != [] && b != [] && c != [] && a[0] == b[0] == c[0] {
      StrLtTransitive(a[1..], b[1..], c[1..]);
    }
  }

  /** Two different strings are ordered one way or the other, never both. */
  lemma {:induction false} StrLtTrichotomy(a: string, b: string)
    ensures a == b || StrLt(a, b) || StrLt(b, a)
    ensures !(StrLt(a, b) && StrLt(b, a))
  {
    if a != [] && b != [] && a[0] == b[0] {
      StrLtTrichotomy(a[1..], b[1..]);
      if a[1..] == b[1..] {
        assert a == [a[0]] + a[1..] && b == [b[0]] + b[1..];
      }
    }
  }

  /** `StrLe` orders strings totally: it is total, transitive and antisymmetric. */
  lemma StrLeTotalOrder(a: string, b: string, c: string)
    ensures StrLe(a, b) || StrLe(b, a)
    ensures StrLe(a, b) && StrLe(b, c) ==> StrLe(a, c)
    ensures StrLe(a, b) && StrLe(b, a) ==> a == b
  {
    StrLtTrichotomy(a, b);
    StrLtTrichotomy(b, c);
    StrLtTrichotomy(a, c);
    if StrLe(a, b) && StrLe(b, c) && StrLt(c, a) {
      if a == b {
        assert StrLt(c, b);
      } else {
        StrLtTransitive(c, a, b);
      }
    }
  }

  /** `toLowerCase` on one character, over the ASCII letters. */
  function LowerChar(c: char): (r: char)
  {
    if 'A' <= c <= 'Z' then (c as int + 32) as char else c
  }

  /** `toLowerCase` over the ASCII letters: characters outside A-Z are kept. */
  function ToLower(s: string): (r: string)
    ensures |r| == |s|
    ensures forall i :: 0 <= i < |s| ==> r[i] == LowerChar(s[i])
  {
    seq(|s|, i requires 0 <= i < |s| => LowerChar(s[i]))
  }

  /** Lowering twice is lowering once. */
  lemma ToLowerIdempotent(s: string)
    ensures ToLower(ToLower(s)) == ToLower(s)
  {
  }

  /** `needle` occurs in `hay` starting at position `i`. */
  predicate OccursAt(hay: string, needle: string, i: int)
  {
    0 <= i <= |hay| - |needle| && hay[i..i + |needle|] == needle
  }

  /** JavaScript `hay.includes(needle)`: `needle` occurs at some position of `hay`. */
  predicate Contains(hay: string, needle: string)
  {
    exists i | 0 <= i <= |hay| - |needle| :: OccursAt(hay, needle, i)
  }

  /** The empty string occurs in every string, and a string in itself. */
  lemma ContainsTrivial(hay: string)
    ensures Contains(hay, "")
    ensures Contains(hay, hay)
  {
    assert OccursAt(hay, "", 0);
    assert OccursAt(hay, hay, 0);
  }

  /** `a.toLowerCase().includes(b.toLowerCase())`. */
  predicate ContainsIgnoringCase(hay: string, needle: string)
  {
    Contains(ToLower(hay), ToLower(needle))
  }

  /**
   * JavaScript white space and line terminators: what `trim` removes and what
   * the regular-expression class `\s` matches.
   */
  predicate IsJsSpace(c: char)
  {
    || c == '\t' || c == '\n' || c == '\U{000B}' || c == '\U{000C}' || c == '\r' || c == ' '
    || c == '\U{00A0}' || c == '\U{1680}' || ('\U{2000}' <= c <= '\U{200A}')
    || c == '\U{2028}' || c == '\U{2029}' || c == '\U{202F}' || c == '\U{205F}'
    || c == '\U{3000}' || c == '\U{FEFF}'
  }

  /** Every character is white space (so `trim` gives the empty string). */
  predicate AllSpace(s: string)
  {
    forall i :: 0 <= i < |s| ==> IsJsSpace(s[i])
  }

  /** `s` with leading white space removed. */
  function TrimStart(s: string): (r: string)
    ensures |r| <= |s| && r == s[|s| - |r|..]
    ensures AllSpace(s[..|s| - |r|])
    ensures r != [] ==> !IsJsSpace(r[0])
  {
    if s != [] && IsJsSpace(s[0]) then TrimStart(s[1..]) else s
  }

  /** `s` with trailing white space removed. */
  function TrimEnd(s: string): (r: string)
    ensures |r| <= |s| && r == s[..|r|]
    ensures AllSpace(s[|r|..])
    ensures r != [] ==> !IsJsSpace(r[|r| - 1])
  {
    if s != [] && IsJsSpace(s[|s| - 1]) then TrimEnd(s[..|s| - 1]) else s
  }

  /** JavaScript `s.trim()`. */
  function Trim(s: string): (r: string)
  {
    TrimEnd(TrimStart(s))
  }

  /** `trim` yields the empty string exactly for strings made only of white space. */
  lemma TrimEmptyIffAllSpace(s: string)
    ensures Trim(s) == [] <==> AllSpace(s)
  {
    var t := TrimStart(s);
    assert s == s[..|s| - |t|] + t;
    if Trim(s) == [] {
      assert t == t[0..];
    } else {
      var r := Trim(s);
      assert t[|r| - 1] == r[|r| - 1];
      assert s[|s| - |t| + |r| - 1] == t[|r| - 1];
    }
  }

  /** The character class `[A-Za-z0-9_-]` of employee ids. */
  predicate IsIdChar(c: char)
  {
    ('A' <= c <= 'Z') || ('a' <= c <= 'z') || ('0' <= c <= '9') || c == '_' || c == '-'
  }

  /** Every character of `s` is in `[A-Za-z0-9_-]`. */
  predicate AllIdChars(s: string)
  {
    forall i :: 0 <= i < |s| ==> IsIdChar(s[i])
  }
}
