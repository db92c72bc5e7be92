/**
  The three configured languages: the content script's `LANGS` table
  (code, label, synthesis locale, ranked voice names) and the popup's
  `LANG_CONFIG` table (voice-list prefix, preview sample).
 */
module Langs {

  datatype Lang = Zh | En | Fr

  /** `Object.keys(LANGS)`, in declaration order. */
  const AllLangs: seq<Lang> := [Zh, En, Fr]

  /** The table lists every language. */
  lemma AllLangsComplete()
    ensures forall l: Lang :: l in AllLangs
  {
    forall l: Lang
      ensures l in AllLangs
    {
      match l
      case Zh => assert AllLangs[0] == l;
      case En => assert AllLangs[1] == l;
      case Fr => assert AllLangs[2] == l;
    }
  }

  /** Where `l` sits in the table. */
  function LangIndex(l: Lang): (i: nat)
    ensures i < |AllLangs| && AllLangs[i] == l
    ensures forall j :: 0 <= j < |AllLangs| && AllLangs[j] == l ==> j == i
  {
    match l
    case Zh => 0
    case En => 1
    case Fr => 2
  }

  function Code(l: Lang): string
  {
    match l
    case Zh => "zh"
    case En => "en"
    case Fr => "fr"
  }

  function Label(l: Lang): string
  {
    match l
    case Zh => "中文"
    case En => "English"
    case Fr => "Français"
  }

  /** `LANGS[l].voice`: the locale tag put on every utterance of the language. */
  function Locale(l: Lang): string
  {
    match l
    case Zh => "zh-CN"
    case En => "en-US"
    case Fr => "fr-FR"
  }

  /** `LANGS[l].preferVoices`: voice-name fragments, most preferred first. */
  function PreferVoices(l: Lang): seq<string>
  {
    match l
    case Zh => ["Tingting", "Sinji", "Meijia", "Google 普通话"]
    case En => ["Samantha", "Karen", "Daniel", "Google US English"]
    case Fr => ["Thomas", "Amélie", "Audrey", "Google français"]
  }

  /** `s.split("-")[0]`: the part of `s` before its first `-`. */
  function BeforeDash(s: string): (r: string)
    ensures |r| <= |s| && r == s[..|r|]
    ensures '-' !in r
    ensures |r| < |s| ==> s[|r|] == '-'
  {
    if s == [] || s[0] == '-' then [] else [s[0]] + BeforeDash(s[1..])
  }

  /** The language prefix `findBestVoice` matches voice locales against. */
  function LangPrefix(l: Lang): string
  {
    BeforeDash(Locale(l))
  }

  /** `LANG_CONFIG[l].prefix` in the popup. */
  function PopupPrefix(l: Lang): string
  {
    match l
    case Zh => "zh"
    case En => "en"
    case Fr => "fr"
  }

  /** `LANG_CONFIG[l].sample`: the text spoken by the popup's preview button. */
  function Sample(l: Lang): string
  {
    match l
    case Zh => "你好，欢迎使用翻译助手"
    case En => "Hello, welcome to the translator"
    case Fr => "Bonjour, bienvenue au traducteur"
  }

  /** The popup lists, for each language, the voices with the same locale prefix
      that the content script falls back to: both equal the language code. */
  lemma PrefixesAgree(l: Lang)
    ensures LangPrefix(l) == PopupPrefix(l) == Code(l)
  {
    var loc := Locale(l);
    assert loc == Code(l) + "-" + loc[3..];
    assert loc[2] == '-' && loc[0] != '-' && loc[1] != '-';
    assert BeforeDash(loc[2..]) == [];
    assert BeforeDash(loc[1..]) == [loc[1]];
  }
}
