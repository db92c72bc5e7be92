/**
  How a translation is cut into highlightable word spans (`buildWordSpans` in
  content.js): for Chinese, the global matches of `[一-鿿]{1,2}|[^一-鿿]+`;
  for English and French, the global matches of `\S+|\s+`; when there is no
  match at all (only for the empty text) the whole text is the single token.
 */
module Tokenizer {
  import opened Collections
  import opened Text
  import opened Langs

  /** A token of the Chinese branch made of ideographs: `[一-鿿]{1,2}`. */
  predicate HanGroup(t: string)
  {
    1 <= |t| <= 2 && forall i :: 0 <= i < |t| ==> IsHan(t[i])
  }

  /** A token of the Chinese branch without ideographs: `[^一-鿿]+`. */
  predicate NonHanToken(t: string)
  {
    |t| >= 1 && forall i :: 0 <= i < |t| ==> !IsHan(t[i])
  }

  /** A token of the space-delimited branch: `\S+` or `\s+`. */
  predicate UniformToken(t: string)
  {
    |t| >= 1 && forall i :: 0 <= i < |t| ==> IsJsSpace(t[i]) == IsJsSpace(t[0])
  }

  /** The length of the longest prefix of `s` without ideographs. */
  function NonHanRun(s: string): (n: nat)
    ensures n <= |s|
    ensures forall i :: 0 <= i < n ==> !IsHan(s[i])
    ensures n < |s| ==> IsHan(s[n])
  {
    if s == [] || IsHan(s[0]) then 0 else 1 + NonHanRun(s[1..])
  }

  /** The length of the match starting at the head of non-empty `s`: two ideographs
      when there are two (the quantifier is greedy), else one, else the whole run
      of non-ideographs. */
  function HanMatchLength(s: string): (n: nat)
    requires s != []
    ensures 1 <= n <= |s|
  {
    if IsHan(s[0]) then (if |s| >= 2 && IsHan(s[1]) then 2 else 1)
    else NonHanRun(s)
  }

  /** `s.match(/[一-鿿]{1,2}|[^一-鿿]+/g)`, with `[]` standing for `null`. */
  function HanMatches(s: string): (ts: seq<string>)
    ensures ts == [] <==> s == []
    ensures forall k :: 0 <= k < |ts| ==> |ts[k]| >= 1
    ensures s != [] ==> |ts[0]| >= 1 && ts[0][0] == s[0]
    decreases |s|
  {
    if s == [] then []
    else
      var n := HanMatchLength(s);
      [s[..n]] + HanMatches(s[n..])
  }

  /** `s.match(/\S+|\s+/g)`, with `[]` standing for `null`. */
  function SpaceMatches(s: string): (ts: seq<string>)
    ensures ts == [] <==> s == []
    ensures forall k :: 0 <= k < |ts| ==> |ts[k]| >= 1
    ensures s != [] ==> |ts[0]| >= 1 && ts[0][0] == s[0]
    decreases |s|
  {
    if s == [] then []
    else
      var n := SpaceRun(s, IsJsSpace(s[0]));
      [s[..n]] + SpaceMatches(s[n..])
  }

  function Matches(text: string, l: Lang): seq<string>
  {
    if l == Zh then HanMatches(text) else SpaceMatches(text)
  }

  /** The tokens `buildWordSpans` turns into spans: `text.match(...) || [text]`. */
  function Tokens(text: string, l: Lang): (ts: seq<string>)
    ensures |ts| >= 1
  {
    var m := Matches(text, l);
    if m == [] then [text] else m
  }

  lemma {:induction false} HanMatchesConcat(s: string)
    ensures Concat(HanMatches(s)) == s
    decreases |s|
  {
    if s != [] {
      var n := HanMatchLength(s);
      HanMatchesConcat(s[n..]);
      assert s == s[..n] + s[n..];
    }
  }

  lemma {:induction false} SpaceMatchesConcat(s: string)
    ensures Concat(SpaceMatches(s)) == s
    decreases |s|
  {
    if s != [] {
      var n := SpaceRun(s, IsJsSpace(s[0]));
      SpaceMatchesConcat(s[n..]);
      assert s == s[..n] + s[n..];
    }
  }

  /** Joining the spans gives back the text exactly, in both branches; the empty
      text is the single empty span. */
  lemma TokensConcat(text: string, l: Lang)
    ensures Concat(Tokens(text, l)) == text
    ensures text == [] ==> Tokens(text, l) == [""]
    ensures text != [] ==> forall k :: 0 <= k < |Tokens(text, l)| ==> Tokens(text, l)[k] != []
  {
    if l == Zh {
      HanMatchesConcat(text);
      if text != [] { HanMatchesShape(text); }
    } else {
      SpaceMatchesConcat(text);
      if text != [] { SpaceMatchesShape(text); }
    }
  }

  /** Chinese tokens are groups of one or two ideographs or non-empty runs of other
      characters; a run of other characters is maximal (the next token starts with
      an ideograph), and a single ideograph is only cut off when the next character
      is not one (pairs are taken greedily). */
  lemma {:induction false} HanMatchesShape(s: string)
    ensures forall k :: 0 <= k < |HanMatches(s)| ==>
              HanGroup(HanMatches(s)[k]) || NonHanToken(HanMatches(s)[k])
    ensures forall k :: 0 <= k < |HanMatches(s)| - 1 && NonHanToken(HanMatches(s)[k]) ==>
              IsHan(HanMatches(s)[k + 1][0])
    ensures forall k :: 0 <= k < |HanMatches(s)| - 1 && HanGroup(HanMatches(s)[k])
                        && |HanMatches(s)[k]| == 1 ==>
              !IsHan(HanMatches(s)[k + 1][0])
    decreases |s|
  {
    if s != [] {
      var ts := HanMatches(s);
      var n := HanMatchLength(s);
      var rest := HanMatches(s[n..]);
      HanMatchesShape(s[n..]);
      assert ts == [s[..n]] + rest;
      assert HanGroup(ts[0]) || NonHanToken(ts[0]);
      forall k | 0 < k < |ts| ensures ts[k] == rest[k - 1] { }
    }
  }

  /** English and French tokens are non-empty runs of only white space or only
      other characters, and the two kinds alternate (so every run is maximal). */
  lemma {:induction false} SpaceMatchesShape(s: string)
    ensures forall k :: 0 <= k < |SpaceMatches(s)| ==> UniformToken(SpaceMatches(s)[k])
    ensures forall k :: 0 <= k < |SpaceMatches(s)| - 1 ==>
              IsJsSpace(SpaceMatches(s)[k][0]) != IsJsSpace(SpaceMatches(s)[k + 1][0])
    decreases |s|
  {
    if s != [] {
      var ts := SpaceMatches(s);
      var n := SpaceRun(s, IsJsSpace(s[0]));
      var rest := SpaceMatches(s[n..]);
      SpaceMatchesShape(s[n..]);
      assert ts == [s[..n]] + rest;
      forall k | 0 < k < |ts| ensures ts[k] == rest[k - 1] { }
    }
  }
}
