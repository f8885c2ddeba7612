/**
 * `escapeSelector` without `CSS.escape`: every character of the reserved
 * punctuation set gets one backslash in front of it, every other character is
 * kept (content.js:26-29).
 */
module Escape {

  /**
   * The character class of the replacement pattern,
   * ! " # $ % & ' ( ) * + , . / : ; < = > ? @ [ \ ] ^ ` { | } ~
   * written as the ranges of ASCII punctuation it covers (all of it but `-` and `_`).
   */
  predicate IsReserved(c: char)
  {
    || ('!' <= c <= '/' && c != '-')
    || (':' <= c <= '@')
    || ('[' <= c <= '^')
    || c == '`'
    || ('{' <= c <= '~')
  }

  function EscapeChar(c: char): string
  {
    if IsReserved(c) then ['\\', c] else [c]
  }

  function EscapeSelector(s: string): string
  {
    if s == [] then [] else EscapeChar(s[0]) + EscapeSelector(s[1..])
  }

  function ReservedCount(s: string): nat
  {
    if s == [] then 0 else (if IsReserved(s[0]) then 1 else 0) + ReservedCount(s[1..])
  }

  /** The escaped text is one character longer per reserved character. */
  lemma {:induction false} EscapeLength(s: string)
    ensures |EscapeSelector(s)| == |s| + ReservedCount(s)
  {
    if s != [] {
      EscapeLength(s[1..]);
    }
  }

  /** Escaping works character by character. */
  lemma {:induction false} EscapeAppend(a: string, b: string)
    ensures EscapeSelector(a + b) == EscapeSelector(a) + EscapeSelector(b)
  {
    if a == [] {
      assert a + b == b;
    } else {
      assert (a + b)[0] == a[0] && (a + b)[1..] == a[1..] + b;
      EscapeAppend(a[1..], b);
    }
  }

  /** Reads an escaped text back: a backslash stands for the character after it. */
  function Unescape(r: string): string
  {
    if r == [] then []
    else if r[0] == '\\' && |r| >= 2 then [r[1]] + Unescape(r[2..])
    else [r[0]] + Unescape(r[1..])
  }

  /** Escaping loses nothing: unescaping gives the original text back. */
  lemma {:induction false} UnescapeEscape(s: string)
    ensures Unescape(EscapeSelector(s)) == s
  {
    if s != [] {
      var r := EscapeSelector(s);
      UnescapeEscape(s[1..]);
      if IsReserved(s[0]) {
        assert r[2..] == EscapeSelector(s[1..]);
      } else {
        assert s[0] != '\\';
        assert r[1..] == EscapeSelector(s[1..]);
      }
      assert s == [s[0]] + s[1..];
    }
  }

  /** Every reserved character of the text stands right after a backslash that escapes it. */
  predicate WellEscaped(r: string)
  {
    if r == [] then true
    else if r[0] == '\\' then |r| >= 2 && WellEscaped(r[2..])
    else !IsReserved(r[0]) && WellEscaped(r[1..])
  }

  /** So an escaped value cannot close the quoted string or bracket it is placed in. */
  lemma {:induction false} EscapeWellEscaped(s: string)
    ensures WellEscaped(EscapeSelector(s))
  {
    if s != [] {
      var r := EscapeSelector(s);
      EscapeWellEscaped(s[1..]);
      if IsReserved(s[0]) {
        assert r[2..] == EscapeSelector(s[1..]);
      } else {
        assert s[0] != '\\';
        assert r[1..] == EscapeSelector(s[1..]);
      }
    }
  }

  /** A text without reserved characters is its own escape. */
  lemma {:induction false} EscapePlain(s: string)
    requires forall i :: 0 <= i < |s| ==> !IsReserved(s[i])
    ensures EscapeSelector(s) == s
  {
    if s != [] {
      EscapePlain(s[1..]);
      assert s == [s[0]] + s[1..];
    }
  }
}
