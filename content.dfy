/**
  The content script (content.js): the bubble and its result rows, their
  speaking and highlight flags, the two ways of reading a row aloud and the
  platform's speech events. The decisions the bubble is built from (language
  detection, target languages, the translation reply, the mouse-up gate) are in
  `Bubble`.
 */
module Content {
  import opened Collections
  import opened Text
  import opened Langs
  import opened Tokenizer
  import opened Voices
  import opened Speech
  import opened Bubble

  /** Natural mode reads slightly slower than normal; word mode slower still. */
  const NaturalRate: real := 0.9
  const WordRate: real := 0.85
  const NeutralPitch: real := 1.0

  /** The filter of `speakWordByWord`, `s.textContent.trim().length > 0`: the span
      holds something other than white space. */
  predicate IsSpeakable(t: string)
  {
    !IsBlank(t)
  }

  /** The filter above is the source's test on the trimmed text. */
  lemma SpeakableIffTrimmedNonEmpty(t: string)
    ensures IsSpeakable(t) <==> |Trim(t)| > 0
  {
  }

  /** The positions of the spans word mode speaks, in order. */
  function SpeakableIndices(spans: seq<string>): (ix: seq<nat>)
    ensures forall k :: 0 <= k < |ix| ==> ix[k] < |spans| && !IsBlank(spans[ix[k]])
    ensures forall k, m :: 0 <= k < m < |ix| ==> ix[k] < ix[m]
    ensures forall i {:trigger Listed(ix, i)} :: 0 <= i < |spans| && !IsBlank(spans[i]) ==> Listed(ix, i)
  {
    IndicesWhere(spans, IsSpeakable)
  }

  /** The single utterance of natural mode. */
  function NaturalUtterance(text: string, l: Lang, voice: Option<Voice>, row: RowId): Utterance
  {
    Utterance(text, Locale(l), NaturalRate, NeutralPitch, voice,
              NoStartHandler, FinishNatural(row), FinishNatural(row))
  }

  /** The utterance word mode issues for the span at `span`; only the last one
      carries end and error handlers. */
  function WordUtterance(spanText: string, span: nat, last: bool, l: Lang, voice: Option<Voice>,
                         row: RowId): Utterance
  {
    var finish := if last then FinishWords(row) else NoEndHandler;
    Utterance(Trim(spanText), Locale(l), WordRate, NeutralPitch, voice,
              HighlightWord(row, span), finish, finish)
  }

  /** The utterances word mode issues, one per speakable span, in order. */
  function WordUtterances(spans: seq<string>, l: Lang, voice: Option<Voice>, row: RowId): seq<Utterance>
  {
    UtterancesAt(spans, SpeakableIndices(spans), l, voice, row)
  }

  /** One word utterance for each of the positions `words` of `spans`, in order;
      only the last one ends the session. */
  function UtterancesAt(spans: seq<string>, words: seq<nat>, l: Lang, voice: Option<Voice>, row: RowId)
    : seq<Utterance>
    requires forall k :: 0 <= k < |words| ==> words[k] < |spans|
  {
    seq(|words|, k requires 0 <= k < |words| =>
      WordUtterance(spans[words[k]], words[k], k == |words| - 1, l, voice, row))
  }

  /** Word mode speaks exactly the non-blank spans, in order, each as its trimmed
      (never empty) text at rate 0.85 and pitch 1 in the language's locale; every
      utterance highlights its own span on start, and only the last one ends the
      session. */
  lemma WordUtterancesSpec(spans: seq<string>, l: Lang, voice: Option<Voice>, row: RowId)
    ensures var us := WordUtterances(spans, l, voice, row);
            var words := SpeakableIndices(spans);
            && |us| == |words|
            && (forall k :: 0 <= k < |us| ==>
                  && us[k].text == Trim(spans[words[k]]) && us[k].text != []
                  && us[k].lang == Locale(l) && us[k].rate == 0.85 && us[k].pitch == 1.0
                  && us[k].voice == voice
                  && us[k].onStart == HighlightWord(row, words[k])
                  && us[k].onError == us[k].onEnd
                  && (us[k].onEnd != NoEndHandler <==> k == |us| - 1)
                  && (k == |us| - 1 ==> us[k].onEnd == FinishWords(row)))
  {
    var us := WordUtterances(spans, l, voice, row);
    var words := SpeakableIndices(spans);
    forall k | 0 <= k < |us|
      ensures us[k] == WordUtterance(spans[words[k]], words[k], k == |us| - 1, l, voice, row)
      ensures us[k].text != []
    {
      assert !IsBlank(spans[words[k]]);
    }
  }

  /** The number of utterances is the number of non-blank spans. */
  lemma {:induction false} SpeakableCount(spans: seq<string>)
    ensures |SpeakableIndices(spans)| == |set i | 0 <= i < |spans| && !IsBlank(spans[i])|
  {
    var ix := SpeakableIndices(spans);
    var s := set i | 0 <= i < |spans| && !IsBlank(spans[i]);
    var image := set k | 0 <= k < |ix| :: ix[k];
    forall i | i in s ensures i in image {
      assert Listed(ix, i);
      var k :| 0 <= k < |ix| && ix[k] == i;
    }
    assert s == image;
    DistinctCard(ix);
  }

  lemma {:induction false} DistinctCard(ix: seq<nat>)
    requires forall k, m :: 0 <= k < m < |ix| ==> ix[k] < ix[m]
    ensures |set k | 0 <= k < |ix| :: ix[k]| == |ix|
  {
    if ix != [] {
      var tail := ix[1..];
      DistinctCard(tail);
      var s := set k | 0 <= k < |ix| :: ix[k];
      var t := set k | 0 <= k < |tail| :: tail[k];
      assert s == {ix[0]} + t;
      assert ix[0] !in t;
    }
  }

  /** In English and French rows, built from the tokens of a text, word mode
      speaks exactly the word tokens themselves (white-space runs are skipped and
      words need no trimming). */
  lemma SpaceRowSpeaksWords(text: string, l: Lang, voice: Option<Voice>, row: RowId, k: nat)
    requires l != Zh && text != []
    requires k < |SpeakableIndices(Tokens(text, l))|
    ensures var spans := Tokens(text, l);
            var w := SpeakableIndices(spans)[k];
            && WordUtterances(spans, l, voice, row)[k].text == spans[w]
            && forall i :: 0 <= i < |spans[w]| ==> !IsJsSpace(spans[w][i])
  {
    var spans := Tokens(text, l);
    assert spans == SpaceMatches(text);
    SpaceMatchesShape(text);
    var w := SpeakableIndices(spans)[k];
    var t := spans[w];
    assert UniformToken(t);
    assert !IsBlank(t);
    assert !IsJsSpace(t[0]) by {
      var j :| 0 <= j < |t| && !IsJsSpace(t[j]);
    }
    TrimNoSpace(t);
    WordUtterancesSpec(spans, l, voice, row);
  }

  /** The `words.forEach` loop of `speakWordByWord`: one utterance per speakable
      span, in order. The loop is synchronous, so no speech event can run between
      two of its `speak` calls; the utterances are gathered first and handed over
      together. */
  method BuildWordUtterances(spans: seq<string>, words: seq<nat>, l: Lang, voice: Option<Voice>, row: RowId)
    returns (q: seq<Utterance>)
    requires forall k :: 0 <= k < |words| ==> words[k] < |spans|
    ensures q == UtterancesAt(spans, words, l, voice, row)
  {
    ghost var planned := UtterancesAt(spans, words, l, voice, row);
    q := [];
    for i := 0 to |words|
      invariant q == planned[..i]
    {
      var last := i == |words| - 1;
      var utterance := WordUtterance(spans[words[i]], words[i], last, l, voice, row);
      assert planned[i] == utterance;
      PrefixStep(planned, i);
      q := q + [utterance];
    }
    assert planned[..|words|] == planned;
  }

  /** The speakable spans of a row and the utterances for them: none exactly when
      no span is speakable. */
  method PlanWords(spans: seq<string>, l: Lang, voice: Option<Voice>, row: RowId) returns (q: seq<Utterance>)
    ensures q == WordUtterances(spans, l, voice, row)
    ensures q == [] <==> SpeakableIndices(spans) == []
  {
    var words := SpeakableIndices(spans);
    q := BuildWordUtterances(spans, words, l, voice, row);
  }

  /** `buildWordSpans`: one span per token, in order. */
  method BuildWordSpans(text: string, l: Lang) returns (spans: seq<string>)
    ensures spans == Tokens(text, l)
  {
    var tokens := Tokens(text, l);
    spans := [];
    for i := 0 to |tokens|
      invariant spans == tokens[..i]
    {
      spans := spans + [tokens[i]];
    }
  }

  /** A result row: the language and text its two speak buttons captured, and the
      text of its word spans, in order. */
  datatype Row = Row(lang: Lang, text: string, spans: seq<string>)

  /** The row's spans are the tokens of its text, as `buildWordSpans` made them;
      nothing changes a span's text afterwards. */
  predicate SplitIntoTokens(row: Row)
  {
    row.spans == Tokens(row.text, row.lang)
  }

  /** Span `span` of row `row` is on the page. */
  predicate SpanExists(rows: map<RowId, Row>, row: RowId, span: nat)
  {
    row in rows && span < |rows[row].spans|
  }

  /** The spans of `spans` outside `row`: what `allSpans.forEach(... remove("word-active"))`
      leaves highlighted. */
  function WithoutRow(spans: set<SpanRef>, row: RowId): set<SpanRef>
  {
    set a | a in spans && a.row != row
  }

  /** The rows of `rs` that are no longer in the bubble: `bubble.querySelectorAll`
      does not reach them, so clearing leaves their `speaking` flag. */
  function RowsOff(rs: set<RowId>, shown: seq<RowId>): set<RowId>
  {
    set r | r in rs && r !in shown
  }

  /** The spans of `spans` whose row is no longer in the bubble. */
  function SpansOff(spans: set<SpanRef>, shown: seq<RowId>): set<SpanRef>
  {
    set a | a in spans && a.row !in shown
  }

  /** What an utterance's handlers touch exists, its end and error handlers are
      one handler, and a session-ending word handler sits on a word utterance of
      the same row. */
  predicate HandlersFit(u: Utterance, rows: map<RowId, Row>)
  {
    && u.onError == u.onEnd
    && (u.onStart.HighlightWord? ==> SpanExists(rows, u.onStart.row, u.onStart.span))
    && (u.onEnd.FinishNatural? ==> u.onEnd.row in rows)
    && (u.onEnd.FinishWords? ==> u.onStart.HighlightWord? && u.onStart.row == u.onEnd.row)
  }

  /** The queue holds utterances that fit the page, all word utterances in it
      belong to one row, and any highlighted span in the bubble is in that row. */
  predicate QueueFits(queue: seq<Utterance>, rows: map<RowId, Row>, active: set<SpanRef>, shown: seq<RowId>)
  {
    && (forall u :: u in queue ==> HandlersFit(u, rows))
    && (forall u, a :: u in queue && u.onStart.HighlightWord? && a in active && a.row in shown
                       ==> a.row == u.onStart.row)
    && (forall u, w :: u in queue && w in queue && u.onStart.HighlightWord? && w.onStart.HighlightWord?
                       ==> u.onStart.row == w.onStart.row)
  }

  /** Dropping utterances, dropping highlights in the bubble and adding rows keep
      the queue fitting. */
  lemma QueueFitsShrink(queue: seq<Utterance>, rows: map<RowId, Row>, active: set<SpanRef>, shown: seq<RowId>,
                        queue': seq<Utterance>, rows': map<RowId, Row>, active': set<SpanRef>, shown': seq<RowId>)
    requires QueueFits(queue, rows, active, shown)
    requires forall u :: u in queue' ==> u in queue
    requires forall a :: a in active' && a.row in shown' ==> a in active && a.row in shown
    requires forall r :: r in rows ==> r in rows' && rows'[r] == rows[r]
    ensures QueueFits(queue', rows', active', shown')
  {
    forall u | u in queue' ensures HandlersFit(u, rows') {
      assert HandlersFit(u, rows);
    }
  }

  /** Natural mode's single utterance fits a page that holds its row. */
  lemma NaturalQueueFits(text: string, l: Lang, voice: Option<Voice>, row: RowId,
                         rows: map<RowId, Row>, active: set<SpanRef>, shown: seq<RowId>)
    requires row in rows
    ensures QueueFits([NaturalUtterance(text, l, voice, row)], rows, active, shown)
  {
  }

  /** Word mode's utterances fit a page that holds their row and has no highlight
      left in the bubble. */
  lemma WordQueueFits(l: Lang, voice: Option<Voice>, row: RowId, rows: map<RowId, Row>,
                      active: set<SpanRef>, shown: seq<RowId>)
    requires row in rows
    requires forall a :: a in active ==> a.row !in shown
    ensures QueueFits(WordUtterances(rows[row].spans, l, voice, row), rows, active, shown)
  {
    var q := WordUtterances(rows[row].spans, l, voice, row);
    WordUtterancesSpec(rows[row].spans, l, voice, row);
    forall u | u in q ensures HandlersFit(u, rows) && u.onStart.HighlightWord? && u.onStart.row == row {
      var j :| 0 <= j < |q| && q[j] == u;
    }
  }

  /** When a queued word utterance starts, its row's highlights give way to its
      own span. */
  lemma StartQueueFits(queue: seq<Utterance>, rows: map<RowId, Row>, active: set<SpanRef>, shown: seq<RowId>,
                       k: nat)
    requires QueueFits(queue, rows, active, shown) && k < |queue| && queue[k].onStart.HighlightWord?
    ensures var h := queue[k].onStart;
            QueueFits(queue, rows, WithoutRow(active, h.row) + {SpanRef(h.row, h.span)}, shown)
  {
    assert queue[k] in queue;
  }

  /** How `changes.voicePrefs` reaches the storage listener. */
  datatype PrefsChange =
    | PrefsUntouched
    | PrefsRemoved
    | PrefsSet(newValue: map<Lang, string>)

  /** The languages of the bubble's rows, top to bottom: the source language, then
      the targets. */
  function ResultLangs(source: Lang): (ls: seq<Lang>)
    ensures |ls| == 3 && ls[0] == source
  {
    TargetLangsSpec(source);
    [source] + TargetLangs(source)
  }

  /** The texts of the bubble's rows, top to bottom: the selection, then what each
      request resolved to. */
  function ResultTexts(text: string, outcomes: seq<FetchOutcome>): (ts: seq<string>)
    requires |outcomes| == 2
    ensures |ts| == 3 && ts[0] == text
  {
    [text, TranslationText(outcomes[0]), TranslationText(outcomes[1])]
  }

  /** The module-level state of content.js: the bubble and its rows, the speaking
      and word-active flags, the platform's speech queue, and the caches of
      voices and preferences. */
  class ContentScript {
    /** `bubble !== null`: the bubble exists (it is created once and only hidden). */
    var hasBubble: bool
    /** `bubble.style.display !== "none"`. */
    var visible: bool
    /** Every result row made so far, by id; rows are never removed. */
    var rows: map<RowId, Row>
    /** The rows in the bubble's results area, top to bottom. */
    var shown: seq<RowId>
    var nextRow: RowId
    /** Written by every speak path and cleared by the handlers; never read. */
    var speakingRow: Option<RowId>
    /** The rows carrying the `speaking` class. */
    var speaking: set<RowId>
    /** The spans carrying the `word-active` class. */
    var active: set<SpanRef>
    /** The platform's queue of utterances not yet ended, in issue order. */
    var queue: seq<Utterance>
    var cachedVoices: seq<Voice>
    var voicePrefs: map<Lang, string>

    ghost predicate Valid()
      reads this`hasBubble, this`rows, this`shown, this`nextRow, this`speakingRow, this`speaking, this`active,
            this`queue
    {
      && (!hasBubble ==> rows == map[] && shown == [] && speaking == {} && active == {} && speakingRow == None)
      && (forall r :: r in rows ==> r < nextRow)
      && (forall r {:trigger SplitIntoTokens(rows[r])} :: r in rows ==> SplitIntoTokens(rows[r]))
      && (forall j :: 0 <= j < |shown| ==> shown[j] in rows)
      && speaking <= rows.Keys
      && (speakingRow.Some? ==> speakingRow.value in rows)
      && (forall a :: a in active ==> SpanExists(rows, a.row, a.index))
      // at most one word is highlighted in the bubble
      && (forall a, b :: a in active && b in active && a.row in shown && b.row in shown ==> a == b)
      && QueueFits(queue, rows, active, shown)
    }

    /** The script is injected: it loads the platform's voices; the stored
        preferences arrive later. */
    constructor (voices: seq<Voice>)
      ensures Valid() && !hasBubble && !visible && rows == map[] && shown == [] && queue == []
      ensures speaking == {} && active == {} && speakingRow == None
      ensures cachedVoices == voices && voicePrefs == map[]
    {
      hasBubble, visible := false, false;
      rows, shown, nextRow := map[], [], 0;
      speakingRow, speaking, active := None, {}, {};
      queue := [];
      cachedVoices, voicePrefs := voices, map[];
    }

    /** `loadVoices`, also run on `voiceschanged`: the catalog is replaced wholesale. */
    method LoadVoices(voices: seq<Voice>)
      requires Valid()
      modifies this`cachedVoices
      ensures Valid() && cachedVoices == voices
    {
      cachedVoices := voices;
    }

    /** `loadVoicePrefs`: a stored object replaces the preferences; nothing stored
        leaves them as they are. */
    method LoadVoicePrefs(stored: Option<map<Lang, string>>)
      requires Valid()
      modifies this`voicePrefs
      ensures Valid()
      ensures voicePrefs == if stored.Some? then stored.value else old(voicePrefs)
    {
      if stored.Some? {
        voicePrefs := stored.value;
      }
    }

    /** The storage listener: a change of `voicePrefs` replaces the preferences
        wholesale, with `{}` when the key was removed. */
    method OnStorageChanged(change: PrefsChange)
      requires Valid()
      modifies this`voicePrefs
      ensures Valid()
      ensures voicePrefs == match change
                            case PrefsUntouched => old(voicePrefs)
                            case PrefsRemoved => map[]
                            case PrefsSet(m) => m
    {
      match change
      case PrefsUntouched =>
      case PrefsRemoved => voicePrefs := map[];
      case PrefsSet(m) => voicePrefs := m;
    }

    /** `createBubble`: made once, then reused. */
    method CreateBubble()
      requires Valid()
      modifies this`hasBubble
      ensures Valid() && hasBubble
    {
      if !hasBubble {
        hasBubble := true;
      }
    }

    /** `hideBubble`. */
    method HideBubble()
      requires Valid()
      modifies this`visible
      ensures Valid()
      ensures visible == (old(visible) && !hasBubble)
    {
      if hasBubble {
        visible := false;
      }
    }

    /** A new result row (`createResultRow`) whose spans are filled by
        `buildWordSpans`, one span per token. */
    method BuildRow(text: string, l: Lang) returns (row: RowId)
      requires Valid() && hasBubble
      modifies this`rows, this`nextRow
      ensures Valid()
      ensures row !in old(rows) && rows == old(rows)[row := Row(l, text, Tokens(text, l))]
    {
      var spans := BuildWordSpans(text, l);
      row := nextRow;
      QueueFitsShrink(queue, rows, active, shown, queue, rows[row := Row(l, text, spans)], active, shown);
      rows := rows[row := Row(l, text, spans)];
      nextRow := nextRow + 1;
    }

    /** The `targetLangs.forEach` loop of `showBubble`: one new row per language,
        with its text and the word spans of that text, in order; no other row is
        added and no existing row changes. */
    method BuildRows(langs: seq<Lang>, texts: seq<string>) returns (ids: seq<RowId>)
      requires Valid() && hasBubble && |texts| == |langs|
      modifies this`rows, this`nextRow
      ensures Valid() && |ids| == |langs|
      ensures forall j :: 0 <= j < |ids| ==> ids[j] !in old(rows) && ids[j] in rows
      ensures forall j :: 0 <= j < |ids| ==> rows[ids[j]].lang == langs[j] && rows[ids[j]].text == texts[j]
      ensures forall r :: r in old(rows) ==> r in rows && rows[r] == old(rows)[r]
      ensures forall r :: r in rows && r !in old(rows) ==> r in ids
    {
      ids := [];
      for i := 0 to |langs|
        invariant Valid() && |ids| == i
        invariant forall j :: 0 <= j < i ==> ids[j] !in old(rows) && ids[j] in rows
        invariant forall j :: 0 <= j < i ==> rows[ids[j]].lang == langs[j] && rows[ids[j]].text == texts[j]
        invariant forall r :: r in old(rows) ==> r in rows && rows[r] == old(rows)[r]
        invariant forall r :: r in rows && r !in old(rows) ==> r in ids
      {
        ghost var before := rows;
        var row := BuildRow(texts[i], langs[i]);
        assert forall j :: 0 <= j < i ==> rows[ids[j]] == before[ids[j]];
        ids := ids + [row];
      }
    }

    /** The results area of `showBubble`: `results.innerHTML = ""` takes the old
        rows out of the bubble, without touching their flags, and the new rows,
        each split into the word spans of its text, take their place in order. */
    method ReplaceResults(langs: seq<Lang>, texts: seq<string>)
      requires Valid() && hasBubble && |texts| == |langs|
      modifies this`rows, this`nextRow, this`shown
      ensures Valid() && |shown| == |langs|
      ensures forall j :: 0 <= j < |shown| ==> shown[j] !in old(rows)
      ensures forall j :: 0 <= j < |shown| ==> rows[shown[j]] == Row(langs[j], texts[j], Tokens(texts[j], langs[j]))
      ensures forall r :: r in rows <==> r in old(rows) || r in shown
      ensures forall r :: r in old(rows) ==> rows[r] == old(rows)[r]
    {
      var ids := BuildRows(langs, texts);
      forall j | 0 <= j < |ids|
        ensures rows[ids[j]] == Row(langs[j], texts[j], Tokens(texts[j], langs[j]))
      {
        assert SplitIntoTokens(rows[ids[j]]);
      }
      assert forall a :: a in active ==> a.row in old(rows);
      QueueFitsShrink(queue, rows, active, shown, queue, rows, active, ids);
      shown := ids;
    }

    /** `showBubble` once both translations have arrived: the bubble is shown, its
        results are replaced by a row for the selection in its detected language
        followed by one row per target language, in order, each split into the
        word spans of its text. The rows taken out of the bubble keep whatever
        flags they carry. `frenchWords` is the French-word count of the selection
        and `outcomes` the two requests' outcomes, in target order. */
    method ShowBubble(text: string, frenchWords: nat, outcomes: seq<FetchOutcome>) returns (source: Lang)
      requires Valid() && |outcomes| == 2
      modifies this`hasBubble, this`visible, this`shown, this`rows, this`nextRow
      ensures Valid() && hasBubble && visible
      ensures source == DetectLanguage(text, frenchWords)
      ensures |shown| == 3
      ensures forall j :: 0 <= j < 3 ==> shown[j] !in old(rows)
      ensures forall j :: 0 <= j < 3 ==>
                var l := ResultLangs(source)[j];
                var t := ResultTexts(text, outcomes)[j];
                rows[shown[j]] == Row(l, t, Tokens(t, l))
      ensures forall r :: r in rows <==> r in old(rows) || r in shown
      ensures forall r :: r in old(rows) ==> rows[r] == old(rows)[r]
    {
      CreateBubble();
      visible := true;
      source := DetectLanguage(text, frenchWords);
      ReplaceResults(ResultLangs(source), ResultTexts(text, outcomes));
    }

    /** `speechSynthesis.cancel()`: every queued and playing utterance is dropped.
        The model fires no handler for them (see README). */
    method Cancel()
      requires Valid()
      modifies this`queue
      ensures Valid() && queue == []
    {
      queue := [];
    }

    /** Removes `word-active` from every span of `row` (`allSpans.forEach`). The
        row's element is captured, so this reaches it in or out of the bubble. */
    method UnmarkRow(row: RowId)
      requires Valid() && row in rows
      modifies this`active
      ensures Valid() && active == WithoutRow(old(active), row)
    {
      var n := |rows[row].spans|;
      for i := 0 to n
        invariant active <= old(active)
        invariant active == set a | a in old(active) && !(a.row == row && a.index < i)
      {
        active := active - {SpanRef(row, i)};
      }
      QueueFitsShrink(queue, rows, old(active), shown, queue, rows, active, shown);
    }

    /** `bubble.querySelectorAll(".translate-bubble-row.speaking")` and the
        removal of `speaking` from each: the rows in the bubble lose the flag, the
        rows taken out of it keep theirs. */
    method UnmarkShownRows()
      requires Valid()
      modifies this`speaking
      ensures Valid() && speaking == RowsOff(old(speaking), shown)
    {
      var rowsSpeaking := set r | r in speaking && r in shown;
      while rowsSpeaking != {}
        invariant rowsSpeaking <= old(speaking)
        invariant speaking == RowsOff(old(speaking), shown) + rowsSpeaking
        decreases rowsSpeaking
      {
        var r :| r in rowsSpeaking;
        speaking := speaking - {r};
        rowsSpeaking := rowsSpeaking - {r};
      }
    }

    /** `bubble.querySelectorAll(".translate-bubble-word.word-active")` and the
        removal of `word-active` from each: the spans of the rows in the bubble
        lose the flag, the spans of the rows taken out of it keep theirs. */
    method UnmarkShownSpans()
      requires Valid()
      modifies this`active
      ensures Valid() && active == SpansOff(old(active), shown)
    {
      var spansActive := set a | a in active && a.row in shown;
      while spansActive != {}
        invariant spansActive <= old(active)
        invariant active == SpansOff(old(active), shown) + spansActive
        decreases spansActive
      {
        var a :| a in spansActive;
        active := active - {a};
        spansActive := spansActive - {a};
      }
      QueueFitsShrink(queue, rows, old(active), shown, queue, rows, active, shown);
    }

    /** `clearSpeakingHighlight`: cancels speech, then, when the bubble exists,
        removes the `speaking` and `word-active` flags of the rows in the bubble,
        and forgets the speaking row. Rows already taken out of the bubble keep
        their flags. */
    method Clear()
      requires Valid()
      modifies this`queue, this`speaking, this`active, this`speakingRow
      ensures Valid() && queue == [] && speakingRow == None
      ensures speaking == RowsOff(old(speaking), shown) && active == SpansOff(old(active), shown)
    {
      Cancel();
      if hasBubble {
        UnmarkShownRows();
        UnmarkShownSpans();
      } else {
        assert RowsOff(speaking, shown) == {} && SpansOff(active, shown) == {};
      }
      speakingRow := None;
    }

    /** `speakingRow = row; row.classList.add("speaking")`. */
    method MarkSpeaking(row: RowId)
      requires Valid() && row in rows
      modifies this`speaking, this`speakingRow
      ensures Valid() && speaking == old(speaking) + {row} && speakingRow == Some(row)
    {
      speakingRow := Some(row);
      speaking := speaking + {row};
    }

    /** `speechSynthesis.speak` for each of `us`, in order: they join the queue. */
    method Speak(us: seq<Utterance>)
      requires Valid() && QueueFits(queue + us, rows, active, shown)
      modifies this`queue
      ensures Valid() && queue == old(queue) + us
    {
      queue := queue + us;
    }

    /** `speakNatural`: clears, marks this row as speaking, and queues one
        utterance of the whole text with the resolved voice, if any. */
    method SpeakNatural(text: string, l: Lang, row: RowId)
      requires Valid() && row in rows
      modifies this`queue, this`speaking, this`active, this`speakingRow
      ensures Valid()
      ensures speakingRow == Some(row)
      ensures speaking == RowsOff(old(speaking), shown) + {row} && active == SpansOff(old(active), shown)
      ensures queue == [NaturalUtterance(text, l, BestVoice(cachedVoices, voicePrefs, l), row)]
    {
      Clear();
      MarkSpeaking(row);
      var voice := FindBestVoice(cachedVoices, voicePrefs, l);
      var utterance := NaturalUtterance(text, l, voice, row);
      NaturalQueueFits(text, l, voice, row, rows, active, shown);
      assert queue + [utterance] == [utterance];
      Speak([utterance]);
    }

    /** `speakWordByWord`: clears; with no speakable span it stops there; otherwise
        it marks the row as speaking and queues one utterance per speakable span. */
    method SpeakWordByWord(l: Lang, row: RowId)
      requires Valid() && row in rows
      modifies this`queue, this`speaking, this`active, this`speakingRow
      ensures Valid() && active == SpansOff(old(active), shown)
      ensures SpeakableIndices(rows[row].spans) == [] ==>
                queue == [] && speaking == RowsOff(old(speaking), shown) && speakingRow == None
      ensures SpeakableIndices(rows[row].spans) != [] ==>
                && queue == WordUtterances(rows[row].spans, l, BestVoice(cachedVoices, voicePrefs, l), row)
                && speaking == RowsOff(old(speaking), shown) + {row} && speakingRow == Some(row)
    {
      Clear();
      var voice := FindBestVoice(cachedVoices, voicePrefs, l);
      var utterances := PlanWords(rows[row].spans, l, voice, row);
      if |utterances| == 0 {
        return;
      }
      MarkSpeaking(row);
      WordQueueFits(l, voice, row, rows, active, shown);
      assert queue + utterances == utterances;
      Speak(utterances);
    }

    /** The natural-reading button of `row`. */
    method OnNaturalClick(row: RowId)
      requires Valid() && row in rows
      modifies this`queue, this`speaking, this`active, this`speakingRow
      ensures Valid() && speakingRow == Some(row)
      ensures speaking == RowsOff(old(speaking), shown) + {row} && active == SpansOff(old(active), shown)
      ensures queue == [NaturalUtterance(rows[row].text, rows[row].lang,
                                         BestVoice(cachedVoices, voicePrefs, rows[row].lang), row)]
    {
      SpeakNatural(rows[row].text, rows[row].lang, row);
    }

    /** The word-by-word button of `row`. */
    method OnWordClick(row: RowId)
      requires Valid() && row in rows
      modifies this`queue, this`speaking, this`active, this`speakingRow
      ensures Valid() && active == SpansOff(old(active), shown)
      ensures SpeakableIndices(rows[row].spans) == [] ==>
                queue == [] && speaking == RowsOff(old(speaking), shown) && speakingRow == None
      ensures SpeakableIndices(rows[row].spans) != [] ==>
                && queue == WordUtterances(rows[row].spans, rows[row].lang,
                                           BestVoice(cachedVoices, voicePrefs, rows[row].lang), row)
                && speaking == RowsOff(old(speaking), shown) + {row} && speakingRow == Some(row)
    {
      SpeakWordByWord(rows[row].lang, row);
    }

    /** Runs an end or error handler. The last word's handler unmarks its row's
        spans; as every highlight in the bubble belongs to the row being read word
        by word, none is left in the bubble. */
    method RunEndHandler(h: EndHandler)
      requires Valid()
      requires h.FinishNatural? ==> h.row in rows
      requires h.FinishWords? ==> h.row in rows && forall a :: a in active && a.row in shown ==> a.row == h.row
      modifies this`active, this`speaking, this`speakingRow
      ensures Valid()
      ensures h.NoEndHandler? ==>
                active == old(active) && speaking == old(speaking) && speakingRow == old(speakingRow)
      ensures h.FinishNatural? ==>
                active == old(active) && speaking == old(speaking) - {h.row} && speakingRow == None
      ensures h.FinishWords? ==>
                active == WithoutRow(old(active), h.row) && speaking == old(speaking) - {h.row}
                && speakingRow == None
      ensures h.FinishWords? ==> forall a :: a in active ==> a.row !in shown
    {
      match h
      case NoEndHandler =>
      case FinishNatural(r) =>
        speaking := speaking - {r};
        speakingRow := None;
      case FinishWords(r) =>
        UnmarkRow(r);
        speaking := speaking - {r};
        speakingRow := None;
    }

    /** The platform starts queued utterance `k` (in any order: nothing here relies
        on the queue being played first to last). In word mode the utterance's row
        loses its highlights and its own span gains one; when that row is in the
        bubble, this span is then the only highlight in the bubble. */
    method Start(k: nat)
      requires Valid() && k < |queue|
      modifies this`active
      ensures Valid()
      ensures queue[k].onStart.HighlightWord? ==>
                var h := queue[k].onStart;
                active == WithoutRow(old(active), h.row) + {SpanRef(h.row, h.span)}
      ensures queue[k].onStart.HighlightWord? && queue[k].onStart.row in shown ==>
                forall a :: a in active && a.row in shown <==> a == SpanRef(queue[k].onStart.row, queue[k].onStart.span)
      ensures queue[k].onStart.NoStartHandler? ==> active == old(active)
    {
      match queue[k].onStart
      case NoStartHandler =>
      case HighlightWord(r, j) =>
        assert queue[k] in queue && HandlersFit(queue[k], rows);
        UnmarkRow(r);
        StartQueueFits(queue, rows, old(active), shown, k);
        active := active + {SpanRef(r, j)};
    }

    /** Removes utterance `k` from the queue once its handler has run. */
    method Dequeue(k: nat)
      requires Valid() && k < |queue|
      modifies this`queue
      ensures Valid() && queue == old(queue[..k] + queue[k + 1..])
    {
      var rest := queue[..k] + queue[k + 1..];
      assert forall u :: u in rest ==> u in queue;
      QueueFitsShrink(queue, rows, active, shown, rest, rows, active, shown);
      queue := rest;
    }

    /** The platform finishes utterance `k` and runs its `onend` handler. */
    method End(k: nat)
      requires Valid() && k < |queue|
      modifies this`queue, this`active, this`speaking, this`speakingRow
      ensures Valid()
      ensures queue == old(queue[..k] + queue[k + 1..])
      ensures old(queue[k].onEnd).NoEndHandler? ==>
                active == old(active) && speaking == old(speaking) && speakingRow == old(speakingRow)
      ensures old(queue[k].onEnd).FinishNatural? ==>
                active == old(active) && speaking == old(speaking) - {old(queue[k].onEnd).row}
                && speakingRow == None
      ensures old(queue[k].onEnd).FinishWords? ==>
                && active == WithoutRow(old(active), old(queue[k].onEnd).row)
                && (forall a :: a in active ==> a.row !in shown)
                && speaking == old(speaking) - {old(queue[k].onEnd).row} && speakingRow == None
    {
      var u := queue[k];
      assert u in queue && HandlersFit(u, rows);
      RunEndHandler(u.onEnd);
      Dequeue(k);
    }

    /** The platform reports an error for utterance `k` and runs its `onerror`
        handler, which is always its `onend` handler. */
    method Error(k: nat)
      requires Valid() && k < |queue|
      modifies this`queue, this`active, this`speaking, this`speakingRow
      ensures Valid()
      ensures queue == old(queue[..k] + queue[k + 1..])
      ensures old(queue[k].onError).NoEndHandler? ==>
                active == old(active) && speaking == old(speaking) && speakingRow == old(speakingRow)
      ensures old(queue[k].onError).FinishNatural? ==>
                active == old(active) && speaking == old(speaking) - {old(queue[k].onError).row}
                && speakingRow == None
      ensures old(queue[k].onError).FinishWords? ==>
                && active == WithoutRow(old(active), old(queue[k].onError).row)
                && (forall a :: a in active ==> a.row !in shown)
                && speaking == old(speaking) - {old(queue[k].onError).row} && speakingRow == None
    {
      var u := queue[k];
      assert u in queue && HandlersFit(u, rows);
      RunEndHandler(u.onError);
      Dequeue(k);
    }

    /** The close button: clear, then hide. */
    method OnCloseClick()
      requires Valid()
      modifies this`queue, this`speaking, this`active, this`speakingRow, this`visible
      ensures Valid() && queue == [] && speakingRow == None
      ensures speaking == RowsOff(old(speaking), shown) && active == SpansOff(old(active), shown)
      ensures visible == (old(visible) && !hasBubble)
    {
      Clear();
      HideBubble();
    }

    /** A mouse press on the page: outside an existing bubble it clears and hides;
        inside the bubble, or before there is one, nothing changes. */
    method OnPageMouseDown(insideBubble: bool)
      requires Valid()
      modifies this`queue, this`speaking, this`active, this`speakingRow, this`visible
      ensures Valid()
      ensures hasBubble && !insideBubble ==>
                && queue == [] && speakingRow == None && !visible
                && speaking == RowsOff(old(speaking), shown) && active == SpansOff(old(active), shown)
      ensures !(hasBubble && !insideBubble) ==>
                queue == old(queue) && speaking == old(speaking) && active == old(active)
                && speakingRow == old(speakingRow) && visible == old(visible)
    {
      if hasBubble && !insideBubble {
        Clear();
        HideBubble();
      }
    }
  }
}
