/**
  The decisions content.js takes around the bubble: which language a selection
  is in (`detectLanguage`), which languages it is translated into, what a row
  shows for a translation reply (`translate`), and whether a mouse release
  opens or hides the bubble.
 */
module Bubble {
  import opened Collections
  import opened Text
  import opened Langs

  /** The class `[àâæçéèêëïîôœùûüÿÀÂÆÇÉÈÊËÏÎÔŒÙÛÜŸ]`. */
  predicate IsFrenchLetter(c: char)
  {
    c in "àâæçéèêëïîôœùûüÿÀÂÆÇÉÈÊËÏÎÔŒÙÛÜŸ"
  }

  function HanCount(text: string): (n: nat)
    ensures n <= |text|
  {
    CountWhere(text, IsHan)
  }

  function FrenchLetterCount(text: string): (n: nat)
    ensures n <= |text|
  {
    CountWhere(text, IsFrenchLetter)
  }

  /** `chineseChars.length > text.length * 0.3`, in integers: the ideographs make
      up more than three tenths of the text's UTF-16 code units. */
  predicate MostlyHan(text: string)
  {
    10 * HanCount(text) > 3 * Utf16Length(text)
  }

  /** `detectLanguage`. `frenchWords` is the number of matches of the list of
      common French words (whole words, any ASCII case) in `text`. */
  function DetectLanguage(text: string, frenchWords: nat): (l: Lang)
    ensures l == Zh <==> MostlyHan(text)
    ensures l == Fr <==> !MostlyHan(text) && (FrenchLetterCount(text) >= 2 || frenchWords >= 2)
  {
    if MostlyHan(text) then Zh
    else if FrenchLetterCount(text) >= 2 then Fr
    else if frenchWords >= 2 then Fr
    else En
  }

  /** A text made only of ideographs is Chinese. */
  lemma AllHanIsChinese(text: string, frenchWords: nat)
    requires text != [] && forall i :: 0 <= i < |text| ==> IsHan(text[i])
    ensures DetectLanguage(text, frenchWords) == Zh
  {
    CountWhereAll(text, IsHan);
    Utf16LengthBmp(text);
  }

  /** A text without ideographs is never Chinese, and without accented French
      letters and with fewer than two French words it is English: the default. */
  lemma NoHanNoFrenchIsEnglish(text: string, frenchWords: nat)
    requires forall i :: 0 <= i < |text| ==> !IsHan(text[i]) && !IsFrenchLetter(text[i])
    requires frenchWords < 2
    ensures DetectLanguage(text, frenchWords) == En
  {
    CountWhereNone(text, IsHan);
    CountWhereNone(text, IsFrenchLetter);
  }

  /** `Object.keys(LANGS).filter((k) => k !== sourceLang)`. */
  function TargetLangs(source: Lang): (ts: seq<Lang>)
  {
    Filter(AllLangs, (l: Lang) => l != source)
  }

  /** The selection is translated into exactly the two other languages, in the
      table's order and without repetition. */
  lemma TargetLangsSpec(source: Lang)
    ensures |TargetLangs(source)| == 2
    ensures source !in TargetLangs(source)
    ensures forall l :: l != source ==> l in TargetLangs(source)
    ensures TargetLangs(source)[0] != TargetLangs(source)[1]
    ensures TargetLangs(source) == match source
                                    case Zh => [En, Fr]
                                    case En => [Zh, Fr]
                                    case Fr => [Zh, En]
  {
    var p := (l: Lang) => l != source;
    assert IndicesFrom(AllLangs, p, 3) == [];
    var ix := IndicesWhere(AllLangs, p);
    var ts := TargetLangs(source);
    match source
    case Zh =>
      assert IndicesFrom(AllLangs, p, 2) == [2];
      assert IndicesFrom(AllLangs, p, 1) == [1, 2];
      assert ix == [1, 2];
      assert ts == [En, Fr];
    case En =>
      assert IndicesFrom(AllLangs, p, 2) == [2];
      assert IndicesFrom(AllLangs, p, 1) == [2];
      assert ix == [0, 2];
      assert ts == [Zh, Fr];
    case Fr =>
      assert IndicesFrom(AllLangs, p, 2) == [];
      assert IndicesFrom(AllLangs, p, 1) == [1];
      assert ix == [0, 1];
      assert ts == [Zh, En];
  }

  /** The part of the MyMemory reply `translate` reads: `responseStatus`, and
      `responseData.translatedText` when `responseData` is present. */
  datatype Reply = Reply(responseStatus: int, translatedText: Option<string>)

  /** How the request ended: the request or the decoding of its body failed, or a
      reply arrived. */
  datatype FetchOutcome = RequestFailed | Replied(reply: Reply)

  const TranslationFailed: string := "翻译失败，请重试"
  const NetworkError: string := "网络错误，请检查连接"

  /** What `translate` resolves to. */
  function TranslationText(outcome: FetchOutcome): (t: string)
  {
    match outcome
    case RequestFailed => NetworkError
    case Replied(reply) =>
      if reply.responseStatus == 200 && reply.translatedText.Some? then reply.translatedText.value
      else TranslationFailed
  }

  /** A reply with status 200 and data yields its translation; any other reply
      yields the failure notice, and a failed request the network notice. */
  lemma TranslationTextCases(outcome: FetchOutcome)
    ensures outcome.RequestFailed? ==> TranslationText(outcome) == NetworkError
    ensures outcome.Replied? && outcome.reply.responseStatus == 200 && outcome.reply.translatedText.Some? ==>
              TranslationText(outcome) == outcome.reply.translatedText.value
    ensures outcome.Replied? && (outcome.reply.responseStatus != 200 || outcome.reply.translatedText.None?) ==>
              TranslationText(outcome) == TranslationFailed
    ensures TranslationFailed != NetworkError
  {
  }

  /** What a mouse release leads to. */
  datatype MouseUpAction = Ignore | ShowFor(text: string) | Hide

  /** The selection is long enough to translate and short enough to send. */
  predicate AcceptedSelection(text: string)
  {
    0 < Utf16Length(text) < 5000
  }

  /** The `mouseup` listener: other buttons and releases inside the bubble are
      ignored; otherwise the trimmed selection opens the bubble when accepted, and
      the bubble is hidden when not. */
  function MouseUp(button: int, insideBubble: bool, selection: string): (a: MouseUpAction)
  {
    if button != 0 || insideBubble then Ignore
    else
      var text := Trim(selection);
      if AcceptedSelection(text) then ShowFor(text) else Hide
  }

  /** The bubble opens exactly for a left-button release outside it on a selection
      that is not blank and, trimmed, is under 5000 code units; what it shows is a
      non-empty slice of the selection that neither starts nor ends with white
      space. */
  lemma MouseUpSpec(button: int, insideBubble: bool, selection: string)
    ensures MouseUp(button, insideBubble, selection).ShowFor? <==>
              button == 0 && !insideBubble && !IsBlank(selection) && Utf16Length(Trim(selection)) < 5000
    ensures MouseUp(button, insideBubble, selection).Hide? <==>
              button == 0 && !insideBubble && (IsBlank(selection) || Utf16Length(Trim(selection)) >= 5000)
    ensures var a := MouseUp(button, insideBubble, selection);
            a.ShowFor? ==>
              && a.text != []
              && !IsJsSpace(a.text[0]) && !IsJsSpace(a.text[|a.text| - 1])
              && exists i :: TrimmedAt(selection, a.text, i)
  {
    Utf16LengthEmpty(Trim(selection));
    TrimShape(selection);
  }
}
