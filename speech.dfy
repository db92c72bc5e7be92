/**
  The requests handed to the platform's speech synthesizer
  (`SpeechSynthesisUtterance`): the text, locale, rate, pitch and optional voice,
  and which event handlers the extension attached to it. A handler is recorded
  by what it does and which row (or span) it captured.
 */
module Speech {
  import opened Collections
  import opened Voices

  /** A result row of the bubble, named by the order in which rows were built. */
  type RowId = nat

  /** A word span: its row and its position among the row's spans. */
  datatype SpanRef = SpanRef(row: RowId, index: nat)

  /** The `onstart` handler of an utterance. */
  datatype StartHandler =
    | NoStartHandler
      /** Word mode: un-highlight the row's spans, then highlight this one. */
    | HighlightWord(row: RowId, span: nat)

  /** The `onend` (and `onerror`) handler of an utterance. */
  datatype EndHandler =
    | NoEndHandler
      /** Natural mode: the row stops speaking. */
    | FinishNatural(row: RowId)
      /** Last word: un-highlight the row's spans; the row stops speaking. */
    | FinishWords(row: RowId)

  datatype Utterance = Utterance(
    text: string,
    lang: string,
    rate: real,
    pitch: real,
    voice: Option<Voice>,
    onStart: StartHandler,
    onEnd: EndHandler,
    onError: EndHandler)
}
