/**
  The character classes and string operations the extension relies on, with
  JavaScript's meaning: the `\s` class, `String.prototype.trim`, `length`
  (UTF-16 code units), `includes`, `startsWith`, and the ASCII case folding that
  a non-Unicode `/i` regular expression performs.
 */
module Text {

  /** The white space of JavaScript's `\s` class, which is also exactly what
      `trim` strips: the WhiteSpace and LineTerminator characters of ECMAScript. */
  predicate IsJsSpace(c: char)
  {
    c == '\t' || c == '\n' || c == '\U{B}' || c == '\U{C}' || c == '\r' || c == ' '
    || c == '\U{A0}' || c == '\U{1680}' || ('\U{2000}' <= c <= '\U{200A}')
    || c == '\U{2028}' || c == '\U{2029}' || c == '\U{202F}' || c == '\U{205F}'
    || c == '\U{3000}' || c == '\U{FEFF}'
  }

  /** The characters that `.` in a regular expression does not match. */
  predicate IsLineTerminator(c: char)
  {
    c == '\n' || c == '\r' || c == '\U{2028}' || c == '\U{2029}'
  }

  /** The class `[一-鿿]` (CJK Unified Ideographs). */
  predicate IsHan(c: char)
  {
    '\U{4E00}' <= c <= '\U{9FFF}'
  }

  predicate IsBlank(s: string)
  {
    forall i :: 0 <= i < |s| ==> IsJsSpace(s[i])
  }

  /** `s.length` in JavaScript: characters outside the Basic Multilingual Plane
      take two UTF-16 code units. */
  function Utf16Length(s: string): (n: nat)
    ensures |s| <= n <= 2 * |s|
  {
    if s == [] then 0
    else (if s[0] as int > 0xFFFF then 2 else 1) + Utf16Length(s[1..])
  }

  lemma {:induction false} Utf16LengthEmpty(s: string)
    ensures Utf16Length(s) == 0 <==> s == []
  {
  }

  /** Inside the Basic Multilingual Plane, `length` counts characters. */
  lemma {:induction false} Utf16LengthBmp(s: string)
    requires forall i :: 0 <= i < |s| ==> s[i] as int <= 0xFFFF
    ensures Utf16Length(s) == |s|
  {
    if s != [] {
      Utf16LengthBmp(s[1..]);
    }
  }

  /** `s.trimStart()`: drops the leading white space. */
  function TrimStart(s: string): (r: string)
    ensures |r| <= |s| && r == s[|s| - |r|..]
    ensures IsBlank(s[..|s| - |r|])
    ensures r == [] || !IsJsSpace(r[0])
  {
    if s != [] && IsJsSpace(s[0]) then
      var r := TrimStart(s[1..]);
      var k := |s| - |r|;
      assert IsBlank(s[..k]) by {
        forall i | 0 < i < k ensures s[..k][i] == s[1..][..k - 1][i - 1] { }
      }
      r
    else s
  }

  /** `s.trimEnd()`: drops the trailing white space. */
  function TrimEnd(s: string): (r: string)
    ensures |r| <= |s| && r == s[..|r|]
    ensures IsBlank(s[|r|..])
    ensures r == [] || !IsJsSpace(r[|r| - 1])
  {
    if s != [] && IsJsSpace(s[|s| - 1]) then
      var r := TrimEnd(s[..|s| - 1]);
      assert IsBlank(s[|r|..]) by {
        forall i | 0 <= i < |s| - 1 - |r| ensures s[|r|..][i] == s[..|s| - 1][|r|..][i] { }
      }
      r
    else s
  }

  /** `r` is the slice of `s` at `i` with only white space around it. */
  predicate TrimmedAt(s: string, r: string, i: int)
  {
    0 <= i <= |s| - |r| && r == s[i..i + |r|] && IsBlank(s[..i]) && IsBlank(s[i + |r|..])
  }

  /** `s.trim()`: `s` without its leading and trailing white space; empty exactly
      when `s` is blank (its shape is stated by `TrimShape`). */
  function Trim(s: string): (r: string)
    ensures |r| <= |s|
    ensures r == [] <==> IsBlank(s)
  {
    TrimSlice(s);
    TrimEnd(TrimStart(s))
  }

  /** The trimmed text is a slice of `s` with only white space around it, and it
      neither starts nor ends with white space. */
  lemma TrimShape(s: string)
    ensures exists i :: TrimmedAt(s, Trim(s), i)
    ensures Trim(s) == [] || (!IsJsSpace(Trim(s)[0]) && !IsJsSpace(Trim(s)[|Trim(s)| - 1]))
  {
    TrimSlice(s);
    var t := TrimStart(s);
    var r := TrimEnd(t);
    assert Trim(s) == r;
    if r != [] {
      assert r[0] == t[0];
    }
  }

  lemma {:induction false} TrimSlice(s: string)
    ensures TrimmedAt(s, TrimEnd(TrimStart(s)), |s| - |TrimStart(s)|)
    ensures TrimEnd(TrimStart(s)) == [] <==> IsBlank(s)
  {
    var t := TrimStart(s);
    var r := TrimEnd(t);
    var i := |s| - |t|;
    assert t == s[i..];
    assert r == t[..|r|];
    assert s[i + |r|..] == t[|r|..];
    assert TrimmedAt(s, r, i);
    if r == [] {
      BlankJoin(s, i);
    } else {
      assert r[0] == s[i];
    }
  }

  lemma BlankJoin(s: string, i: nat)
    requires i <= |s| && IsBlank(s[..i]) && IsBlank(s[i..])
    ensures IsBlank(s)
  {
    forall j | 0 <= j < |s| ensures IsJsSpace(s[j]) {
      if j >= i { assert s[j] == s[i..][j - i]; } else { assert s[j] == s[..i][j]; }
    }
  }

  /** A string without white space is its own trim. */
  lemma TrimNoSpace(s: string)
    requires forall i :: 0 <= i < |s| ==> !IsJsSpace(s[i])
    ensures Trim(s) == s
  {
  }

  predicate StartsWith(s: string, prefix: string)
  {
    |prefix| <= |s| && s[..|prefix|] == prefix
  }

  /** `sub` occurs in `s` starting at index `i`. */
  predicate OccursAt(s: string, sub: string, i: int)
  {
    0 <= i <= |s| - |sub| && s[i..i + |sub|] == sub
  }

  /** `s.includes(sub)`. */
  predicate Contains(s: string, sub: string)
  {
    exists i | 0 <= i <= |s| - |sub| :: OccursAt(s, sub, i)
  }

  function LowerAsciiChar(c: char): char
  {
    if 'A' <= c <= 'Z' then (c as int + 32) as char else c
  }

  /** Lower-cases the ASCII letters only: the folding a `/i` regular expression
      (without the `u` flag) applies to the ASCII patterns used in the extension. */
  function LowerAscii(s: string): (r: string)
    ensures |r| == |s|
    ensures forall i :: 0 <= i < |s| ==> r[i] == LowerAsciiChar(s[i])
  {
    seq(|s|, i requires 0 <= i < |s| => LowerAsciiChar(s[i]))
  }

  /** `s` contains `word` (given in lower case) ignoring ASCII case. */
  predicate ContainsIgnoreCase(s: string, word: string)
  {
    Contains(LowerAscii(s), word)
  }

  /** `s` starts with `word` (given in lower case) ignoring ASCII case, compared
      character by character. */
  predicate StartsWithIgnoreCase(s: string, word: string)
  {
    word == [] || (s != [] && LowerAsciiChar(s[0]) == word[0] && StartsWithIgnoreCase(s[1..], word[1..]))
  }

  /** The character-by-character test is the prefix test on the folded text. */
  lemma {:induction false} StartsWithIgnoreCaseSpec(s: string, word: string)
    ensures StartsWithIgnoreCase(s, word) <==> StartsWith(LowerAscii(s), word)
  {
    if word != [] && s != [] {
      StartsWithIgnoreCaseSpec(s[1..], word[1..]);
      assert LowerAscii(s)[1..] == LowerAscii(s[1..]);
      if |word| <= |s| {
        assert LowerAscii(s)[..|word|] == [LowerAscii(s)[0]] + LowerAscii(s)[1..][..|word| - 1];
        assert word == [word[0]] + word[1..];
      }
    }
  }

  /** The length of the longest prefix of `s` whose characters are all white space
      (when `space`) or all non-white space (when not `space`). */
  function SpaceRun(s: string, space: bool): (n: nat)
    ensures n <= |s|
    ensures forall i :: 0 <= i < n ==> IsJsSpace(s[i]) == space
    ensures n < |s| ==> IsJsSpace(s[n]) != space
  {
    if s == [] || IsJsSpace(s[0]) != space then 0 else 1 + SpaceRun(s[1..], space)
  }
}
