/**
  The extension's popup (popup.js): one voice select per language, filled from
  the platform's voice catalog with shortened display names; the selection is
  saved as the `voicePrefs` map the content script reads, and a preview button
  speaks a sample sentence with the selected voice.
 */
module Popup {
  import opened Collections
  import opened Text
  import opened Langs
  import opened Voices
  import opened Speech

  /** The text of the disabled option shown when no voice speaks the language. */
  const NoVoicesText: string := "（无可用语音）"

  const PreviewRate: real := 0.9
  /** The pitch of an utterance whose `pitch` is never set. */
  const DefaultPitch: real := 1.0

  /** An `<option>` of a voice select: the disabled placeholder, or a voice whose
      full name is the value and whose shortened name is the text. */
  datatype OptionEntry = Placeholder | VoiceOption(value: string, text: string)

  /** An option's `value`; the placeholder has no value attribute, so its value is
      its text. */
  function OptionValue(o: OptionEntry): string
  {
    match o
    case Placeholder => NoVoicesText
    case VoiceOption(v, _) => v
  }

  /** Some option of a select has value `v`. */
  predicate Offers(opts: seq<OptionEntry>, v: string)
  {
    exists i :: 0 <= i < |opts| && OptionValue(opts[i]) == v
  }

  // ---------------------------------------------------------------------------
  // The voice list of one language

  /** `voices.filter((v) => v.lang.startsWith(prefix))`. */
  function VoicesFor(voices: seq<Voice>, prefix: string): (r: seq<Voice>)
    ensures forall k :: 0 <= k < |r| ==> SpeaksPrefix(r[k], prefix)
  {
    Filter(voices, (v: Voice) => SpeaksPrefix(v, prefix))
  }

  /** The list holds exactly the catalog's voices whose locale starts with the
      prefix. */
  lemma VoicesForMembers(voices: seq<Voice>, prefix: string)
    ensures forall v :: v in VoicesFor(voices, prefix) <==> v in voices && SpeaksPrefix(v, prefix)
  {
    FilterMembers(voices, (v: Voice) => SpeaksPrefix(v, prefix));
  }

  /** The list keeps catalog order: it is the catalog read at increasing
      positions, which include every matching one. */
  lemma VoicesForOrder(voices: seq<Voice>, prefix: string)
    ensures exists ix: seq<nat> ::
              && |ix| == |VoicesFor(voices, prefix)|
              && (forall k :: 0 <= k < |ix| ==> ix[k] < |voices| && VoicesFor(voices, prefix)[k] == voices[ix[k]])
              && (forall k, m :: 0 <= k < m < |ix| ==> ix[k] < ix[m])
              && (forall i :: 0 <= i < |voices| && SpeaksPrefix(voices[i], prefix) ==> i in ix)
  {
    var ix := IndicesWhere(voices, (v: Voice) => SpeaksPrefix(v, prefix));
    forall i | 0 <= i < |voices| && SpeaksPrefix(voices[i], prefix)
      ensures i in ix
    {
      assert Listed(ix, i);
    }
  }

  // ---------------------------------------------------------------------------
  // Display names

  /** The end of the run of white space that starts at `i`. */
  function SpacesEnd(s: string, i: nat): (j: nat)
    requires i <= |s|
    ensures i <= j <= |s|
    decreases |s| - i
  {
    if i == |s| || !IsJsSpace(s[i]) then i else SpacesEnd(s, i + 1)
  }

  lemma {:induction false} SpacesEndSpec(s: string, i: nat)
    requires i <= |s|
    ensures IsBlank(s[i..SpacesEnd(s, i)])
    ensures SpacesEnd(s, i) < |s| ==> !IsJsSpace(s[SpacesEnd(s, i)])
    decreases |s| - i
  {
    if i < |s| && IsJsSpace(s[i]) {
      SpacesEndSpec(s, i + 1);
      var j := SpacesEnd(s, i);
      forall k | 0 < k < j - i ensures s[i..j][k] == s[i + 1..j][k - 1] { }
    }
  }

  /** Where the match of `^(Microsoft|Google)\s*` ends, ignoring ASCII case:
      after the vendor word and the white space that follows it, or at 0 when
      the name starts with neither word. */
  function VendorEnd(name: string): (m: nat)
    ensures m <= |name|
  {
    StartsWithIgnoreCaseSpec(name, "microsoft");
    StartsWithIgnoreCaseSpec(name, "google");
    if StartsWithIgnoreCase(name, "microsoft") then SpacesEnd(name, 9)
    else if StartsWithIgnoreCase(name, "google") then SpacesEnd(name, 6)
    else 0
  }

  // `name.replace(/^(Microsoft|Google)\s*/i, "")`: a leading vendor word, in any
  // ASCII case, and the white space after it are dropped.
  function StripVendor(name: string): string
  {
    name[VendorEnd(name)..]
  }

  /** `r` is `name` without its first `n` characters and the white space after
      them. */
  predicate VendorDropped(name: string, n: nat, r: string)
  {
    exists m :: n <= m <= |name| && IsBlank(name[n..m]) && r == name[m..] && (r == [] || !IsJsSpace(r[0]))
  }

  /** A name that starts with neither vendor word is kept whole; otherwise the
      word and the white space after it are dropped, so that what is left does
      not start with white space. */
  lemma StripVendorSpec(name: string)
    ensures !StartsWithIgnoreCase(name, "microsoft") && !StartsWithIgnoreCase(name, "google") ==>
              StripVendor(name) == name
    ensures StartsWithIgnoreCase(name, "microsoft") ==> VendorDropped(name, 9, StripVendor(name))
    ensures StartsWithIgnoreCase(name, "google") ==> VendorDropped(name, 6, StripVendor(name))
  {
    StartsWithIgnoreCaseSpec(name, "microsoft");
    StartsWithIgnoreCaseSpec(name, "google");
    if StartsWithIgnoreCase(name, "microsoft") {
      assert !StartsWithIgnoreCase(name, "google");
      SpacesEndSpec(name, 9);
    } else if StartsWithIgnoreCase(name, "google") {
      SpacesEndSpec(name, 6);
    }
  }

  /** At `q` opens the parenthetical that `\(.*\)$` matches: a `(` there, a `)` at
      the very end after it, and no line terminator in between (`.` matches none). */
  predicate OpensTail(s: string, q: int)
  {
    0 <= q < |s| - 1 && s[q] == '(' && s[|s| - 1] == ')'
    && forall j :: q < j < |s| - 1 ==> !IsLineTerminator(s[j])
  }

  /** The regular expression `\s*\(.*\)$` matches `s` from position `p` on. */
  predicate MatchesFrom(s: string, p: int)
  {
    0 <= p <= |s| && exists q :: p <= q < |s| && IsBlank(s[p..q]) && OpensTail(s, q)
  }

  /** The first position at or after `q` where the final parenthetical opens. */
  function FirstOpening(s: string, q: nat): (r: Option<nat>)
    requires q <= |s|
    ensures r.Some? ==> q <= r.value < |s|
    decreases |s| - q
  {
    if q == |s| then None
    else if OpensTail(s, q) then Some(q)
    else FirstOpening(s, q + 1)
  }

  lemma {:induction false} FirstOpeningSpec(s: string, q: nat)
    requires q <= |s|
    ensures FirstOpening(s, q).Some? ==> OpensTail(s, FirstOpening(s, q).value)
    ensures FirstOpening(s, q).Some? ==> forall j :: q <= j < FirstOpening(s, q).value ==> !OpensTail(s, j)
    ensures FirstOpening(s, q).None? ==> forall j :: q <= j < |s| ==> !OpensTail(s, j)
    decreases |s| - q
  {
    if q < |s| && !OpensTail(s, q) {
      FirstOpeningSpec(s, q + 1);
    }
  }

  /** Where the run of white space that ends at `q` begins. */
  function BlankStart(s: string, q: nat): (p: nat)
    requires q <= |s|
    ensures p <= q
  {
    if q == 0 || !IsJsSpace(s[q - 1]) then q else BlankStart(s, q - 1)
  }

  lemma {:induction false} BlankStartSpec(s: string, q: nat)
    requires q <= |s|
    ensures IsBlank(s[BlankStart(s, q)..q])
    ensures BlankStart(s, q) == 0 || !IsJsSpace(s[BlankStart(s, q) - 1])
  {
    if q > 0 && IsJsSpace(s[q - 1]) {
      BlankStartSpec(s, q - 1);
      var p := BlankStart(s, q);
      forall i | 0 <= i < q - 1 - p ensures s[p..q][i] == s[p..q - 1][i] { }
    }
  }

  /** Where the match of `\s*\(.*\)$` starts, or the end of `s` when there is none. */
  function CutPoint(s: string): (p: nat)
    ensures p <= |s|
  {
    match FirstOpening(s, 0)
    case None => |s|
    case Some(q) => BlankStart(s, q)
  }

  /** `s.replace(/\s*\(.*\)$/, "")`: the parenthetical that closes the name, with
      the white space before it, is dropped. */
  function StripParenthetical(s: string): string
  {
    s[..CutPoint(s)]
  }

  /** The replacement behaves as the regular expression does: with no match the
      text is unchanged; otherwise everything from the leftmost position where the
      pattern matches is dropped. */
  lemma StripParentheticalSpec(s: string)
    ensures (forall p :: 0 <= p <= |s| ==> !MatchesFrom(s, p)) ==> StripParenthetical(s) == s
    ensures forall p :: MatchesFrom(s, p) && (forall p' :: 0 <= p' < p ==> !MatchesFrom(s, p')) ==>
                        StripParenthetical(s) == s[..p]
  {
    FirstOpeningSpec(s, 0);
    match FirstOpening(s, 0)
    case None =>
      assert s[..|s|] == s;
    case Some(q) =>
      BlankStartSpec(s, q);
      var p0 := BlankStart(s, q);
      assert MatchesFrom(s, p0);
      forall p | 0 <= p < p0
        ensures !MatchesFrom(s, p)
      {
        forall q' | p <= q' < |s| && OpensTail(s, q')
          ensures !IsBlank(s[p..q'])
        {
          if q' == q {
            assert s[p..q'][p0 - 1 - p] == s[p0 - 1];
          } else {
            assert s[p..q'][q - p] == s[q];
          }
        }
      }
  }

  /** The name without its vendor and its closing parenthetical. */
  function ShortName(name: string): string
  {
    StripParenthetical(StripVendor(name))
  }

  /** The text of a voice's option: the shortened name, marked with ` *` when the
      voice is not local. */
  function DisplayName(v: Voice): (d: string)
  {
    ShortName(v.name) + (if v.localService then "" else " *")
  }

  /** A display name is a contiguous part of the voice's name, followed by ` *`
      exactly for a remote voice. */
  lemma DisplayNameSpec(v: Voice)
    ensures exists a, b :: 0 <= a <= b <= |v.name|
              && DisplayName(v) == v.name[a..b] + (if v.localService then "" else " *")
  {
    var a := VendorEnd(v.name);
    var rest := StripVendor(v.name);
    assert rest == v.name[a..];
    var b := a + CutPoint(rest);
    assert ShortName(v.name) == rest[..CutPoint(rest)] == v.name[a..b];
  }

  // ---------------------------------------------------------------------------
  // Filling a select

  /** The option `populateVoices` appends for a voice: its full name as value,
      its display name as text. */
  function OptionOf(v: Voice): OptionEntry
  {
    VoiceOption(v.name, DisplayName(v))
  }

  function VoiceOptions(langVoices: seq<Voice>): (opts: seq<OptionEntry>)
  {
    seq(|langVoices|, i requires 0 <= i < |langVoices| => OptionOf(langVoices[i]))
  }

  /** The options `populateVoices` puts in the select of `l`. */
  function OptionsFor(voices: seq<Voice>, l: Lang): seq<OptionEntry>
  {
    var langVoices := VoicesFor(voices, PopupPrefix(l));
    if langVoices == [] then [Placeholder] else VoiceOptions(langVoices)
  }

  /** The select holds the placeholder alone exactly when no voice of the catalog
      speaks the language, and the placeholder never sits beside a voice. */
  lemma OptionsForPlaceholder(voices: seq<Voice>, l: Lang)
    ensures OptionsFor(voices, l) == [Placeholder] <==>
              forall j :: 0 <= j < |voices| ==> !SpeaksPrefix(voices[j], PopupPrefix(l))
    ensures forall k :: 0 <= k < |OptionsFor(voices, l)| && OptionsFor(voices, l)[k].Placeholder? ==>
              OptionsFor(voices, l) == [Placeholder]
  {
    var prefix := PopupPrefix(l);
    var langVoices := VoicesFor(voices, prefix);
    VoicesForMembers(voices, prefix);
    if langVoices == [] {
      forall j | 0 <= j < |voices| ensures !SpeaksPrefix(voices[j], prefix) {
        assert voices[j] !in langVoices;
      }
    } else {
      var opts := VoiceOptions(langVoices);
      assert opts[0].VoiceOption?;
      var j :| 0 <= j < |voices| && voices[j] == langVoices[0];
      assert SpeaksPrefix(voices[j], prefix);
    }
  }

  /** Every voice of the catalog that speaks the language has its option, valued
      by its full name, and every voice option comes from such a voice. */
  lemma OptionsForVoices(voices: seq<Voice>, l: Lang)
    ensures forall v :: v in voices && SpeaksPrefix(v, PopupPrefix(l)) ==> OptionOf(v) in OptionsFor(voices, l)
    ensures forall o :: o in OptionsFor(voices, l) && o.VoiceOption? ==>
              exists v :: v in voices && SpeaksPrefix(v, PopupPrefix(l)) && o == OptionOf(v)
  {
    var prefix := PopupPrefix(l);
    var langVoices := VoicesFor(voices, prefix);
    VoicesForMembers(voices, prefix);
    var opts := OptionsFor(voices, l);
    if langVoices != [] {
      forall v | v in voices && SpeaksPrefix(v, prefix)
        ensures OptionOf(v) in opts
      {
        var k :| 0 <= k < |langVoices| && langVoices[k] == v;
        assert opts[k] == OptionOf(v);
      }
      forall o | o in opts && o.VoiceOption?
        ensures exists v :: v in voices && SpeaksPrefix(v, prefix) && o == OptionOf(v)
      {
        var k :| 0 <= k < |opts| && opts[k] == o;
        assert langVoices[k] in voices;
      }
    }
  }

  /** The `langVoices.forEach` loop: one option appended per voice. */
  method BuildOptions(langVoices: seq<Voice>) returns (opts: seq<OptionEntry>)
    ensures opts == VoiceOptions(langVoices)
  {
    opts := [];
    for i := 0 to |langVoices|
      invariant |opts| == i
      invariant forall j :: 0 <= j < i ==> opts[j] == OptionOf(langVoices[j])
    {
      opts := opts + [OptionOf(langVoices[i])];
    }
  }

  /** `select.value = v`: the first option with value `v` becomes selected; with
      none, no option is selected and the value reads as empty. */
  function AssignValue(opts: seq<OptionEntry>, v: string): string
  {
    if Offers(opts, v) then v else ""
  }

  /** The value of the select of a language whose voices are `langVoices` after
      `populateVoices` refilled it, `current` being its value before: with the
      placeholder alone nothing is selected (it is disabled, and the loop moves
      on before restoring); otherwise the first option is selected on insertion
      and a non-empty previous value is then assigned back. */
  function RefilledValue(langVoices: seq<Voice>, current: string): string
  {
    if langVoices == [] then ""
    else if current == "" then langVoices[0].name
    else AssignValue(VoiceOptions(langVoices), current)
  }

  /** A refill keeps the selected voice while the catalog still lists a voice of
      the language with that name, and clears the selection otherwise. */
  lemma RefillKeepsSelection(voices: seq<Voice>, l: Lang, current: string)
    requires current != ""
    ensures var langVoices := VoicesFor(voices, PopupPrefix(l));
            RefilledValue(langVoices, current) ==
              if exists v :: v in voices && SpeaksPrefix(v, PopupPrefix(l)) && v.name == current
              then current else ""
  {
    var prefix := PopupPrefix(l);
    var langVoices := VoicesFor(voices, prefix);
    VoicesForMembers(voices, prefix);
    var opts := VoiceOptions(langVoices);
    if v :| v in voices && SpeaksPrefix(v, prefix) && v.name == current {
      var k :| 0 <= k < |langVoices| && langVoices[k] == v;
      assert OptionValue(opts[k]) == current;
    } else if langVoices != [] {
      forall i | 0 <= i < |opts| ensures OptionValue(opts[i]) != current {
        assert langVoices[i] in voices;
      }
    }
  }

  // ---------------------------------------------------------------------------
  // Saved preferences and the preview

  /** `prefs` is what `saveVoices` stores for the select values `values`: one
      entry per language whose select has a non-empty value, holding that value. */
  predicate PrefsOf(prefs: map<Lang, string>, values: map<Lang, string>)
  {
    && (forall l :: l in prefs <==> l in values && values[l] != "")
    && (forall l :: l in prefs ==> prefs[l] == values[l])
  }

  /** The utterance the preview button of `l` speaks: the language's sample in its
      prefix locale at rate 0.9, with the catalog's first voice named exactly as
      the selection, or the platform's default voice. */
  function PreviewUtterance(l: Lang, voices: seq<Voice>, selected: string): Utterance
  {
    Utterance(Sample(l), PopupPrefix(l), PreviewRate, DefaultPitch, FirstNamed(voices, selected),
              NoStartHandler, NoEndHandler, NoEndHandler)
  }

  /** What is previewed is what the page speaks: once saved, a selection naming a
      voice of the catalog wins the first tier of the content script's voice
      choice, with the very voice the preview used; an empty selection leaves that
      tier to the ranked names and the locale rules. */
  lemma PreviewedVoiceIsSpoken(voices: seq<Voice>, values: map<Lang, string>, prefs: map<Lang, string>, l: Lang)
    requires PrefsOf(prefs, values) && l in values
    ensures values[l] != "" && FirstNamed(voices, values[l]).Some? ==>
              BestVoice(voices, prefs, l) == PreviewUtterance(l, voices, values[l]).voice
    ensures values[l] == "" ==> NoUserPick(voices, prefs, l)
  {
    if values[l] != "" {
      assert HasUserPref(prefs, l);
    }
  }

  /** Saving then loading gives a select back its value, as long as the value is
      empty or one of its options. */
  lemma SaveLoadRoundTrip(opts: seq<OptionEntry>, value: string, prefs: map<Lang, string>,
                          values: map<Lang, string>, l: Lang)
    requires value == "" || Offers(opts, value)
    requires PrefsOf(prefs, values) && l in values && values[l] == value
    ensures (if l in prefs then AssignValue(opts, prefs[l]) else value) == value
  {
  }

  /** A `<select>` of the popup: its options and its `value`. */
  class VoiceSelect {
    var options: seq<OptionEntry>
    var value: string

    /** The value is empty or that of one of the options. */
    ghost predicate Valid()
      reads this
    {
      value == "" || Offers(options, value)
    }

    /** An empty select, as the page is loaded. */
    constructor ()
      ensures Valid() && options == [] && value == ""
    {
      options, value := [], "";
    }

    /** One turn of the `populateVoices` loop: the select is emptied and refilled
        for `langVoices`, and its previous value restored when it had one. */
    method Refill(langVoices: seq<Voice>)
      requires Valid()
      modifies this
      ensures Valid()
      ensures options == (if langVoices == [] then [Placeholder] else VoiceOptions(langVoices))
      ensures value == RefilledValue(langVoices, old(value))
    {
      var currentValue := value;
      if |langVoices| == 0 {
        options, value := [Placeholder], "";
        return;
      }
      var opts := BuildOptions(langVoices);
      options := opts;
      value := opts[0].value;
      assert OptionValue(opts[0]) == value;
      if currentValue != "" {
        SetValue(currentValue);
      }
    }

    /** `select.value = v`. */
    method SetValue(v: string)
      requires Valid()
      modifies this`value
      ensures Valid() && value == AssignValue(options, v)
    {
      value := AssignValue(options, v);
    }
  }

  /** The popup page: its three selects and the platform's speech queue. */
  class PopupPage {
    const zh: VoiceSelect
    const en: VoiceSelect
    const fr: VoiceSelect
    var queue: seq<Utterance>

    /** `selects[l]`. */
    function SelectOf(l: Lang): VoiceSelect
    {
      match l
      case Zh => zh
      case En => en
      case Fr => fr
    }

    /** The value of each select. */
    ghost function Values(): map<Lang, string>
      reads zh, en, fr
    {
      map[Zh := zh.value, En := en.value, Fr := fr.value]
    }

    /** Three distinct selects, each holding a value that is empty or one of its
        options. */
    ghost predicate Valid()
      reads zh, en, fr
    {
      zh != en && en != fr && zh != fr && zh.Valid() && en.Valid() && fr.Valid()
    }

    /** The page is loaded: the selects are empty. */
    constructor ()
      ensures Valid() && queue == []
      ensures forall l: Lang :: SelectOf(l).options == [] && SelectOf(l).value == ""
    {
      zh := new VoiceSelect();
      en := new VoiceSelect();
      fr := new VoiceSelect();
      queue := [];
    }

    /** The select of `l` holds the options for `voices` and the value a refill
        gives when its value was `previous`. */
    ghost predicate Refilled(voices: seq<Voice>, l: Lang, previous: string)
      reads SelectOf(l)
    {
      && SelectOf(l).options == OptionsFor(voices, l)
      && SelectOf(l).value == RefilledValue(VoicesFor(voices, PopupPrefix(l)), previous)
    }

    /** One turn of the `populateVoices` loop: the select of `l` is refilled and
        the other selects are left alone. */
    method RefillSelect(voices: seq<Voice>, l: Lang)
      requires Valid()
      modifies SelectOf(l)
      ensures Valid()
      ensures Refilled(voices, l, old(SelectOf(l).value))
      ensures forall l' :: l' != l ==> SelectOf(l').value == old(SelectOf(l').value)
    {
      var select := SelectOf(l);
      select.Refill(VoicesFor(voices, PopupPrefix(l)));
      forall l' | l' != l
        ensures SelectOf(l') != select
      {
        match l'
        case Zh =>
        case En =>
        case Fr =>
      }
    }

    /** `populateVoices`: every select is refilled from the catalog. */
    method PopulateVoices(voices: seq<Voice>)
      requires Valid()
      modifies zh, en, fr
      ensures Valid()
      ensures forall l: Lang :: SelectOf(l).options == OptionsFor(voices, l)
      ensures forall l: Lang ::
                SelectOf(l).value == RefilledValue(VoicesFor(voices, PopupPrefix(l)), old(SelectOf(l).value))
    {
      ghost var before := Values();
      for i := 0 to |AllLangs|
        invariant Valid()
        invariant forall j :: 0 <= j < i ==> Refilled(voices, AllLangs[j], before[AllLangs[j]])
        invariant forall j :: i <= j < |AllLangs| ==> SelectOf(AllLangs[j]).value == before[AllLangs[j]]
      {
        RefillSelect(voices, AllLangs[i]);
        forall j | 0 <= j < |AllLangs| && j != i
          ensures AllLangs[j] != AllLangs[i]
        {
        }
      }
      forall l: Lang
        ensures Refilled(voices, l, old(SelectOf(l).value))
      {
        var j := LangIndex(l);
        assert Refilled(voices, AllLangs[j], before[AllLangs[j]]);
      }
    }

    /** `loadSavedVoices` once the stored preferences have been read (nothing
        stored reads as an empty map): each stored name is assigned to its
        language's select. */
    method LoadSavedVoices(stored: Option<map<Lang, string>>)
      requires Valid()
      modifies zh`value, en`value, fr`value
      ensures Valid()
      ensures forall l: Lang :: SelectOf(l).value ==
                if stored.Some? && l in stored.value then AssignValue(SelectOf(l).options, stored.value[l])
                else old(SelectOf(l).value)
    {
      var prefs := if stored.Some? then stored.value else map[];
      for i := 0 to |AllLangs|
        invariant Valid()
        invariant forall l :: l in AllLangs[..i] ==>
                    SelectOf(l).value == if l in prefs then AssignValue(SelectOf(l).options, prefs[l])
                                         else old(SelectOf(l).value)
        invariant forall l :: l !in AllLangs[..i] ==> SelectOf(l).value == old(SelectOf(l).value)
      {
        var l := AllLangs[i];
        assert l !in AllLangs[..i];
        assert AllLangs[..i + 1] == AllLangs[..i] + [l];
        if l in prefs {
          SelectOf(l).SetValue(prefs[l]);
        }
      }
      AllLangsComplete();
      assert AllLangs[..|AllLangs|] == AllLangs;
    }

    /** `saveVoices`: the map written to storage under `voicePrefs`. */
    method SaveVoices() returns (prefs: map<Lang, string>)
      requires Valid()
      ensures PrefsOf(prefs, Values())
    {
      prefs := map[];
      for i := 0 to |AllLangs|
        invariant forall l :: l in prefs <==> l in AllLangs[..i] && SelectOf(l).value != ""
        invariant forall l :: l in prefs ==> prefs[l] == SelectOf(l).value
      {
        var l := AllLangs[i];
        assert AllLangs[..i + 1] == AllLangs[..i] + [l];
        if SelectOf(l).value != "" {
          prefs := prefs[l := SelectOf(l).value];
        }
      }
      AllLangsComplete();
      assert AllLangs[..|AllLangs|] == AllLangs;
    }

    /** The user picks option `i` of the select of `l` (a disabled option cannot be
        picked); the `change` listener then saves. */
    method OnSelectChange(l: Lang, i: nat) returns (prefs: map<Lang, string>)
      requires Valid() && i < |SelectOf(l).options| && SelectOf(l).options[i].VoiceOption?
      modifies SelectOf(l)`value
      ensures Valid() && SelectOf(l).value == old(SelectOf(l).options[i].value)
      ensures PrefsOf(prefs, Values())
    {
      var select := SelectOf(l);
      select.value := select.options[i].value;
      assert OptionValue(select.options[i]) == select.value;
      prefs := SaveVoices();
    }

    /** `previewVoice`: speech is cancelled, then the sample is queued with the
        selected voice. */
    method PreviewVoice(l: Lang, voices: seq<Voice>)
      requires Valid()
      modifies this`queue
      ensures queue == [PreviewUtterance(l, voices, SelectOf(l).value)]
    {
      queue := [];
      var utterance := PreviewUtterance(l, voices, SelectOf(l).value);
      queue := queue + [utterance];
    }
  }
}
