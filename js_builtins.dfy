/** Option, as returned by the model of `Array.prototype.find`. */
module Wrappers {
  datatype Option<+T> = None | Some(value: T)
}

/**
 * The JavaScript string built-ins the validators and the post editor rely on:
 * `String.prototype.trim`, the regex class `\s`, and `toLowerCase`
 * (restricted to ASCII letters).
 */
module JsString {

  /** The code points `trim` strips and `\s` matches: ECMAScript WhiteSpace and LineTerminator. */
  predicate IsWhitespace(c: char) {
    || c == '\t' || c == '\n' || c == '\U{000B}' || c == '\U{000C}' || c == '\r'
    || c == ' ' || c == '\U{00A0}' || c == '\U{1680}'
    || ('\U{2000}' <= c <= '\U{200A}')
    || c == '\U{2028}' || c == '\U{2029}' || c == '\U{202F}' || c == '\U{205F}'
    || c == '\U{3000}' || c == '\U{FEFF}'
  }

  predicate HasNoWhitespace(s: string) {
    forall k :: 0 <= k < |s| ==> !IsWhitespace(s[k])
  }

  predicate IsAllWhitespace(s: string) {
    forall k :: 0 <= k < |s| ==> IsWhitespace(s[k])
  }

  /** Drops leading whitespace: the result is the suffix that starts at the first other character. */
  function TrimStart(s: string): (r: string)
    ensures |r| <= |s| && r == s[|s| - |r|..]
    ensures forall k :: 0 <= k < |s| - |r| ==> IsWhitespace(s[k])
    ensures r == [] || !IsWhitespace(r[0])
  {
    if s != [] && IsWhitespace(s[0]) then TrimStart(s[1..]) else s
  }

  /** Drops trailing whitespace: the result is the prefix that ends at the last other character. */
  function TrimEnd(s: string): (r: string)
    ensures |r| <= |s| && r == s[..|r|]
    ensures forall k :: |r| <= k < |s| ==> IsWhitespace(s[k])
    ensures r == [] || !IsWhitespace(r[|r| - 1])
  {
    if s != [] && IsWhitespace(s[|s| - 1]) then TrimEnd(s[..|s| - 1]) else s
  }

  /** `s.trim()`: the run of `s` between its leading and its trailing whitespace. */
  function Trim(s: string): string {
    TrimEnd(TrimStart(s))
  }

  /** `s.trim()` is empty exactly when every character of `s` is whitespace (so also when `s` is empty). */
  lemma {:induction false} TrimEmptyIffAllWhitespace(s: string)
    ensures Trim(s) == [] <==> IsAllWhitespace(s)
  {
  }

  /** A string without whitespace is its own trim. */
  lemma TrimWithoutWhitespace(s: string)
    requires HasNoWhitespace(s)
    ensures Trim(s) == s
  {
  }

  /** One blank on each side of a non-empty, blank-free string is exactly what `trim` removes. */
  lemma TrimPadded(s: string)
    requires s != [] && HasNoWhitespace(s)
    ensures Trim([' '] + s + [' ']) == s
  {
    var padded := [' '] + s + [' '];
    assert padded[1..] == s + [' '];
    assert TrimStart(padded) == s + [' '];
    assert (s + [' '])[..|s|] == s;
    assert TrimEnd(s + [' ']) == TrimEnd(s);
    assert TrimEnd(s) == s;
  }

  predicate IsAsciiUpper(c: char) {
    'A' <= c <= 'Z'
  }

  function ToLowerChar(c: char): char {
    if IsAsciiUpper(c) then (c as int + 32) as char else c
  }

  /** `s.toLowerCase()` on ASCII letters; every other character is kept. */
  function ToLowerAscii(s: string): (r: string)
    ensures |r| == |s|
    ensures forall k :: 0 <= k < |s| ==> r[k] == ToLowerChar(s[k])
  {
    if s == [] then [] else [ToLowerChar(s[0])] + ToLowerAscii(s[1..])
  }

  /** Lower-casing leaves no ASCII capital behind and never creates or removes whitespace. */
  lemma ToLowerAsciiFacts(s: string)
    ensures forall k :: 0 <= k < |s| ==> !IsAsciiUpper(ToLowerAscii(s)[k])
    ensures forall k :: 0 <= k < |s| ==> (IsWhitespace(ToLowerAscii(s)[k]) <==> IsWhitespace(s[k]))
  {
  }

  /** `email.toLowerCase().trim()`, the form both login and signup compare against their lists. */
  function NormalizeEmail(email: string): string {
    Trim(ToLowerAscii(email))
  }

  /**
   * The normal form of an e-mail has no ASCII capitals, is empty exactly for
   * an all-blank e-mail, and is the plain lower-cased e-mail when the e-mail
   * holds no whitespace.
   */
  lemma NormalizeEmailFacts(email: string)
    ensures |NormalizeEmail(email)| <= |email|
    ensures NormalizeEmail(email) == [] <==> IsAllWhitespace(email)
    ensures forall k :: 0 <= k < |NormalizeEmail(email)| ==> !IsAsciiUpper(NormalizeEmail(email)[k])
    ensures HasNoWhitespace(email) ==> NormalizeEmail(email) == ToLowerAscii(email)
  {
    var lower := ToLowerAscii(email);
    ToLowerKeepsBlanks(email);
    TrimEmptyIffAllWhitespace(lower);
    TrimKeepsNoUpper(lower);
    if HasNoWhitespace(email) {
      TrimWithoutWhitespace(lower);
    }
  }

  /** Lower-casing leaves the whitespace of a string where it was and removes every ASCII capital. */
  lemma ToLowerKeepsBlanks(s: string)
    ensures IsAllWhitespace(ToLowerAscii(s)) <==> IsAllWhitespace(s)
    ensures HasNoWhitespace(s) ==> HasNoWhitespace(ToLowerAscii(s))
    ensures forall k :: 0 <= k < |s| ==> !IsAsciiUpper(ToLowerAscii(s)[k])
  {
    ToLowerAsciiFacts(s);
  }

  /** Trimming keeps only characters of its input, so it creates no ASCII capital. */
  lemma TrimKeepsNoUpper(s: string)
    requires forall k :: 0 <= k < |s| ==> !IsAsciiUpper(s[k])
    ensures forall k :: 0 <= k < |Trim(s)| ==> !IsAsciiUpper(Trim(s)[k])
  {
    var t := TrimStart(s);
    NoUpperInSlice(s, |s| - |t|, |s|);
    assert t == s[|s| - |t|..|s|];
    var r := TrimEnd(t);
    NoUpperInSlice(t, 0, |r|);
    assert r == t[0..|r|];
  }

  /** A slice of a string without ASCII capitals has none either. */
  lemma NoUpperInSlice(s: string, i: nat, j: nat)
    requires i <= j <= |s|
    requires forall k :: 0 <= k < |s| ==> !IsAsciiUpper(s[k])
    ensures forall k :: 0 <= k < j - i ==> !IsAsciiUpper(s[i..j][k])
  {
    forall k | 0 <= k < j - i
      ensures !IsAsciiUpper(s[i..j][k])
    {
      assert s[i..j][k] == s[i + k];
    }
  }

  /** A string with no blanks and no ASCII capitals is already in normal form. */
  lemma NormalizeEmailCanonical(s: string)
    requires HasNoWhitespace(s) && forall k :: 0 <= k < |s| ==> !IsAsciiUpper(s[k])
    ensures NormalizeEmail(s) == s
  {
    assert ToLowerAscii(s) == s;
    TrimWithoutWhitespace(s);
  }
}

/** The model of `Array.prototype.find` over a sequence with a total predicate. */
module JsArray {
  import opened Wrappers

  /** The first element satisfying `p`, or `None` when there is none. */
  function Find<T>(xs: seq<T>, p: T -> bool): (r: Option<T>)
    ensures r.None? <==> forall x :: x in xs ==> !p(x)
    ensures r.Some? ==> exists i :: 0 <= i < |xs| && xs[i] == r.value && p(xs[i]) &&
                                     forall j :: 0 <= j < i ==> !p(xs[j])
  {
    if xs == [] then None
    else if p(xs[0]) then Some(xs[0])
    else
      var r := Find(xs[1..], p);
      assert forall x :: x in xs ==> x == xs[0] || x in xs[1..];
      assert r.Some? ==> exists i :: 0 <= i < |xs| && xs[i] == r.value && p(xs[i]) &&
                                     forall j :: 0 <= j < i ==> !p(xs[j]) by {
        if r.Some? {
          var i :| 0 <= i < |xs[1..]| && xs[1..][i] == r.value && p(xs[1..][i]) &&
                   forall j :: 0 <= j < i ==> !p(xs[1..][j]);
          assert xs[i + 1] == r.value && forall j :: 0 <= j < i + 1 ==> !p(xs[j]);
        }
      }
      r
  }
}
