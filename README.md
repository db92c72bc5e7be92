# translate-helper-chrome, modelled in Dafny

A Chrome extension that translates selected text between Chinese, English and
French and reads the results aloud. The model covers its two scripts:

- **content.js**, injected into the page. A mouse release on a selection opens
  a bubble. The bubble detects the selection's language and shows three rows:
  the selection, then its translations into the two other languages. Each row
  can be read in two ways. *Natural* mode speaks one utterance of the whole
  text. *Word* mode splits the text into word spans and speaks one utterance
  per non-blank span, highlighting each span as its utterance starts. The voice
  comes from a four-tier choice: the user's pick, then ranked voice names, then
  a "premium" voice of the language, then any voice of the language.
- **popup.js**, the extension's popup. It has one voice select per language.
  Each select is filled with the platform's voices for that language under
  shortened names. The choice is saved as the `voicePrefs` map that the content
  script reads. A preview button speaks a sample sentence.

Layout, one module per file:

| file | module | what it holds |
|---|---|---|
| collections.dfy | Collections | `Option`, `find`, `filter`, counting |
| text.dfy | Text | JavaScript's `\s`, `trim`, UTF-16 `length`, ASCII case folding |
| langs.dfy | Langs | the `LANGS` and `LANG_CONFIG` tables |
| tokenizer.dfy | Tokenizer | the two regular expressions of `buildWordSpans` |
| voices.dfy | Voices | `findBestVoice` |
| speech.dfy | Speech | utterances and their handlers |
| bubble.dfy | Bubble | `detectLanguage`, target languages, `translate`'s reply, the mouse-up gate |
| content.dfy | Content | the page state (`ContentScript` class) and the two reading modes |
| popup.dfy | Popup | display names, the `VoiceSelect` and `PopupPage` classes |

The page's state is a class. Its fields are:

- the bubble and its rows;
- the rows flagged `speaking` and the spans flagged `word-active`;
- the platform's speech queue;
- the voice and preference caches.

The speech engine is driven from outside through `Start(k)`, `End(k)` and
`Error(k)`, which take the index of any queued utterance. So no property relies
on the queue being played in order. The class invariant `Valid` says:

- every row's spans are the tokens of its text;
- at most one span is highlighted in the bubble;
- every handler in the queue refers to a row and span that exist;
- all word utterances in the queue, and any highlighted span in the bubble,
  belong to one row.

`clearSpeakingHighlight` finds flags with `bubble.querySelectorAll`, so it only
reaches the rows still in the bubble. Rows that `showBubble` took out keep
their `speaking` and `word-active` flags, and their queued handlers can still
set and remove them. The invariant therefore speaks of the bubble, not of the
whole page.

Every method keeps `Valid`.

## Model

| member | source | states |
|---|---|---|
| Collections.FilterMembers | popup.js:59-61 | `filter` keeps exactly the elements that satisfy the predicate |
| Text.TrimShape | content.js:348 | `trim` gives a slice of the text with only white space around it, neither starting nor ending with white space; it is empty exactly when the text is blank |
| Text.StartsWithIgnoreCaseSpec | popup.js:76 | the character-by-character case-insensitive prefix test equals the prefix test on the ASCII-folded text |
| Langs.AllLangsComplete | content.js:5-18 | the language table lists every language |
| Langs.PrefixesAgree | content.js:161 | the prefix `findBestVoice` cuts from the locale equals the popup's prefix and the language code |
| Tokenizer.HanMatches | content.js:103 | the Chinese matches are empty exactly for the empty text, every match is non-empty, and the first match starts with the text's first character |
| Tokenizer.SpaceMatches | content.js:106 | the same for the `\S+\|\s+` matches |
| Tokenizer.TokensConcat | content.js:98-107 | the tokens joined give back the text exactly, in both branches; the empty text gives the single token `""` (the `\|\| [text]` fallback); otherwise no token is empty |
| Tokenizer.HanMatchesShape | content.js:103 | every Chinese token is one or two ideographs or a run without ideographs; a run is followed by an ideograph, and a one-ideograph group by a non-ideograph |
| Tokenizer.SpaceMatchesShape | content.js:106 | every English or French token is all white space or has none; consecutive tokens alternate between the two |
| Content.BuildWordSpans | content.js:108-113 | one span per token, in order |
| Voices.FirstNamed | content.js:150 | `find` by exact name: the first voice with that name, or none exactly when no voice has it |
| Voices.FirstContaining | content.js:156 | the first voice whose name contains the fragment, or none exactly when no name contains it |
| Voices.FirstPremium | content.js:162-165 | the first voice of the language whose name contains premium, enhanced or natural in any ASCII case, or none exactly when there is no such voice |
| Voices.FirstSpeaking | content.js:169 | the first voice whose locale starts with the prefix, or none exactly when there is no such voice |
| Voices.FindBestVoice | content.js:144-170 | the loop over the ranked names returns the four-tier choice `BestVoice` |
| Voices.PreferredMatchAt | content.js:155-158 | the ranked fragments are tried in order; for the first fragment some name contains, the first such voice is chosen |
| Voices.PreferredMatchNone | content.js:155-158 | the ranked tier yields nothing exactly when no voice name contains any fragment |
| Voices.BestVoiceUserPick | content.js:149-152 | a non-empty user pick present in the catalog wins, as its first voice with that exact name |
| Voices.BestVoicePreferredName | content.js:155-158 | without a usable pick, the ranked names decide before any locale rule |
| Voices.BestVoicePremium | content.js:160-166 | without a pick or a ranked name, the first premium voice of the language is chosen |
| Voices.BestVoiceAnyOfLanguage | content.js:168-169 | otherwise the first voice of the language is chosen |
| Voices.BestVoiceNone | content.js:168-169 | no voice is chosen exactly when no tier applies: the user has no pick present in the catalog, no voice name contains a ranked fragment, and no voice speaks the language |
| Bubble.DetectLanguage | content.js:307-320 | Chinese exactly when ideographs make up more than three tenths of the UTF-16 length; otherwise French exactly when there are at least two accented French letters or two French words; otherwise English |
| Bubble.AllHanIsChinese | content.js:309-310 | a non-empty text made only of ideographs is Chinese |
| Bubble.NoHanNoFrenchIsEnglish | content.js:313-319 | with no ideograph, no accented French letter and fewer than two French words, the text is English |
| Bubble.TargetLangsSpec | content.js:264 | the targets are the two other languages, distinct, in table order |
| Bubble.TranslationTextCases | content.js:323-339 | status 200 with data yields the translation; any other reply yields the failure notice; a failed request yields the network notice; the two notices differ |
| Bubble.MouseUpSpec | content.js:342-360 | the bubble opens exactly on a left-button release outside it, when the selection is not blank and its trimmed text is under 5000 code units; it is hidden exactly when the release qualifies but the text does not; the text shown is the non-empty trimmed slice of the selection |
| Content.SpeakableIffTrimmedNonEmpty | content.js:216 | the word-mode filter "trimmed text is not empty" is the same as "not blank" |
| Content.SpeakableIndices | content.js:216 | the positions of exactly the non-blank spans, increasing |
| Content.SpeakableCount | content.js:216 | there are as many word utterances as non-blank spans |
| Content.WordUtterancesSpec | content.js:224-246 | one utterance per non-blank span, in order. Each speaks its trimmed, non-empty text at rate 0.85 and pitch 1 in the locale, with the resolved voice. Each highlights its own span on start. Only the last has end and error handlers, and they are the same and end the session |
| Content.SpaceRowSpeaksWords | content.js:106 | in English and French rows, word mode speaks the word tokens themselves, which contain no white space |
| Content.BuildWordUtterances | content.js:224-246 | the `forEach` loop builds exactly the word utterances |
| Content.PlanWords | content.js:215-217 | word mode has no utterance exactly when no span is speakable |
| Content.ContentScript.constructor | content.js:117-118 | the script starts with no bubble, no flags, an empty queue, the loaded catalog and empty preferences |
| Content.ContentScript.LoadVoices | content.js:120-122 | the catalog is replaced |
| Content.ContentScript.LoadVoicePrefs | content.js:125-129 | stored preferences replace the cache; nothing stored leaves it |
| Content.ContentScript.OnStorageChanged | content.js:132-136 | a change replaces the preferences, with `{}` when the key is removed; other changes leave them |
| Content.ContentScript.CreateBubble | content.js:21-22 | the bubble is created once and then reused |
| Content.ContentScript.HideBubble | content.js:300-304 | an existing bubble is hidden |
| Content.ContentScript.BuildRow | content.js:50-62 | a fresh row holding its language, its text and one span per token; existing rows are unchanged |
| Content.ContentScript.BuildRows | content.js:277-279 | one fresh row per language and text, in order, its spans the tokens of its text; no other row is added and existing rows are unchanged |
| Content.ContentScript.ReplaceResults | content.js:257-279 | the bubble's rows are replaced by the fresh rows, in order, each holding its language, its text and its text's tokens; the rows taken out keep their state |
| Content.ContentScript.ShowBubble | content.js:250-283 | the bubble is shown with exactly three fresh rows: the selection in its detected language, then each target language with its request's text, each split into its text's tokens; no other row is added |
| Content.ContentScript.Cancel | content.js:177 | the speech queue is emptied |
| Content.ContentScript.UnmarkRow | content.js:232 | exactly the highlights of that row are removed |
| Content.ContentScript.UnmarkShownRows | content.js:179-181 | exactly the rows in the bubble lose `speaking`; rows taken out of it keep it |
| Content.ContentScript.UnmarkShownSpans | content.js:182-184 | exactly the spans of rows in the bubble lose `word-active`; the others keep it |
| Content.ContentScript.Clear | content.js:176-186 | speech is cancelled; no row in the bubble is speaking, no span in it is highlighted, rows taken out of the bubble keep their flags, and no row is remembered |
| Content.ContentScript.MarkSpeaking | content.js:192-193 | the row is added to the speaking rows and remembered as the speaking row |
| Content.ContentScript.Speak | content.js:208 | the utterances join the end of the speech queue, in order |
| Content.ContentScript.SpeakNatural | content.js:189-209 | after clearing, this row is the one speaking row in the bubble, it is remembered, and the queue holds its one natural utterance with the resolved voice |
| Content.ContentScript.SpeakWordByWord | content.js:212-247 | after clearing: with no speakable span nothing else happens; otherwise this row is the one speaking row in the bubble, it is remembered, and the queue holds its word utterances |
| Content.ContentScript.OnNaturalClick | content.js:73-76 | the natural button reads its own row's text in the row's language, and remembers the row |
| Content.ContentScript.OnWordClick | content.js:83-86 | the word button reads its own row word by word, and remembers the row when it has a speakable span |
| Content.ContentScript.RunEndHandler | content.js:202-205 | the natural handler stops its row speaking; the last-word handler also removes its row's highlights, which leaves none in the bubble; the absent handler changes nothing |
| Content.ContentScript.Start | content.js:231-234 | when a word utterance starts, its row's highlights give way to its own span; if the row is in the bubble, that span is the only highlight in the bubble |
| Content.ContentScript.End | content.js:236-242 | a finished utterance leaves the queue and its end handler runs with the effects above |
| Content.ContentScript.Error | content.js:242 | a failed utterance leaves the queue and runs the same handler as on end |
| Content.ContentScript.OnCloseClick | content.js:37-40 | the close button clears the speaking state of the bubble, empties the queue and hides the bubble |
| Content.ContentScript.OnPageMouseDown | content.js:363-368 | a press outside an existing bubble clears the bubble's speaking state and hides it; otherwise nothing changes |
| Popup.VoicesFor | popup.js:59-61 | every listed voice speaks the language's prefix |
| Popup.VoicesForMembers | popup.js:59-61 | the list holds exactly the catalog's voices with that prefix |
| Popup.VoicesForOrder | popup.js:59-61 | the list is the catalog read at increasing positions that cover every matching voice |
| Popup.SpacesEndSpec | popup.js:76 | the skipped run is white space and is followed by a non-space or the end |
| Popup.StripVendorSpec | popup.js:76 | a name not starting with "microsoft" or "google" in any ASCII case is unchanged; otherwise that word and the white space after it are removed, and what remains does not start with white space |
| Popup.FirstOpeningSpec | popup.js:77 | the first `(` from which `\(.*\)$` matches to the end, or none |
| Popup.BlankStartSpec | popup.js:77 | the white-space run just before a position |
| Popup.StripParentheticalSpec | popup.js:77 | with no match the name is unchanged; otherwise it is cut at the leftmost position from which white space and then `(…)` with no line break reach the end |
| Popup.DisplayNameSpec | popup.js:75-79 | the display name is a slice of the voice name plus " *" exactly for a remote voice |
| Popup.OptionsForPlaceholder | popup.js:63-69 | the select holds only the placeholder exactly when no voice speaks the language |
| Popup.OptionsForVoices | popup.js:71-81 | there is one option per voice of the language; its value is the full name and its text the display name |
| Popup.BuildOptions | popup.js:71-81 | the `forEach` loop builds exactly those options, in order |
| Popup.RefillKeepsSelection | popup.js:83-86 | a refill keeps a non-empty selection while a voice of the language still has that name, and clears it otherwise |
| Popup.PreviewedVoiceIsSpoken | popup.js:103-109 | once saved, a selection naming a catalog voice makes the content script choose the very voice the preview used; an empty selection gives the content script no pick |
| Popup.SaveLoadRoundTrip | popup.js:94-97 | loading the saved map gives every select back its value |
| Popup.VoiceSelect.constructor | popup.js:8-12 | an empty select |
| Popup.VoiceSelect.Refill | popup.js:54-86 | the select gets the placeholder alone, or one option per voice; its value is restored as `RefilledValue` says |
| Popup.VoiceSelect.SetValue | popup.js:85 | `select.value = v` selects the first option with value `v`, or nothing |
| Popup.PopupPage.constructor | popup.js:8-12 | three empty selects and an empty queue |
| Popup.PopupPage.RefillSelect | popup.js:54-86 | one turn of the loop refills the select of its language and leaves the other selects' values alone |
| Popup.PopupPage.PopulateVoices | popup.js:50-88 | every select is refilled from the catalog for its language |
| Popup.PopupPage.LoadSavedVoices | popup.js:91-100 | each stored name is assigned to its language's select; other selects keep their value |
| Popup.PopupPage.SaveVoices | popup.js:103-109 | the saved map has one entry per select with a non-empty value, holding that value |
| Popup.PopupPage.OnSelectChange | popup.js:149-151 | the picked option becomes the value, then the selects are saved |
| Popup.PopupPage.PreviewVoice | popup.js:119-132 | speech is cancelled, then the sample is queued in the prefix locale at rate 0.9 with the first voice named exactly as the selection |

## Left out

- Drawing and placement are not modelled: DOM nodes, CSS classes for display, `positionBubble`, the loading indicator, and the "saved" message with its timer.
- The bubble's rows are kept in a map by creation order. Replacing `results.innerHTML` only changes which rows are shown (`shown`); older rows stay reachable through handlers still queued, as they do in the page.
- `translate` is modelled only by what its result depends on (`FetchOutcome`). The URL, `encodeURIComponent`, `fetch`, JSON decoding and `console.error` are left out.
- Bubble.TranslationTextCases: a reply with status 200 and `responseData` but no `translatedText` is given the failure notice. The source returns `undefined` there (content.js:332). `createResultRow` then throws at `text.match` (content.js:103 and 106), so the `then` callback stops: the selection's row and any earlier target rows stay in the bubble, and that target's row and the ones after it are never added. The model does not represent this failure.
- Content.ContentScript.ShowBubble: `Promise.all` is modelled as one step that receives both outcomes. The source row is built before the requests and the other rows after them. Nothing else that happens in between is modelled.
- `setTimeout` (10 ms) in the mouse-up listener is left out; `MouseUp` takes the selection as it reads after the delay.
- The 1.5 s timer of `saveVoices` is not modelled.
- Bubble.DetectLanguage: the number of whole-word matches of the French word list is a parameter. The `\b…\b`/`gi` matcher is not modelled.
- Bubble.DetectLanguage: the test `count > length * 0.3` is stated in integers as `10·count > 3·length`. The double-precision product is exact at every multiple of ten up to 10000 code units, and the selections reaching it are under 5000.
- Content.ContentScript.Cancel: the platform is assumed to fire no `end` or `error` handler for cancelled utterances. So `Cancel` empties the queue and changes nothing else.
- Content.ContentScript.SpeakWordByWord: the utterances are gathered and then queued together. No speech event can run between two `speak` calls of the synchronous loop, so the queue ends the same.
- Content.ContentScript.Start: the model claims no guarantee that a handler from an earlier session cannot touch a later one. `Valid` only keeps every handler pointing at rows and spans that exist.
- `speakingRow` is modelled and written as the source does. Nothing reads it.
- Audio output, speech timing, and voice quality are not modelled.
- Strings are sequences of Unicode scalar values. `length` counts UTF-16 code units (`Utf16Length`); lone surrogates cannot be represented.
- `injectContentScript`, the tab query, and script or CSS injection in popup.js are not modelled: they are browser calls whose results are only displayed.
- Popup.PopupPage.LoadSavedVoices: stored preferences are typed as a map from the three languages. Keys for other languages, which `selects[langKey]` skips, are therefore absent.
- Popup.VoiceSelect.Refill: the HTML rules for a `<select>` are modelled as follows. Appending an option to a select with none selects the first option. Assigning `value` selects the first matching option or none. The disabled placeholder is not selected when appended, but assigning its text as the value selects it, as HTML's value setter does.
- Popup.PreviewUtterance: `pitch` is not set in the source; the platform default of 1 is used.
- The popup's `chrome.storage.sync.get` and `set` calls are modelled by their values: `LoadSavedVoices` takes what was read, and `SaveVoices` returns what is written.
