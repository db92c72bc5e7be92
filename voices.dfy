/**
  The voice catalog and the choice of a voice for a language (`findBestVoice` in
  content.js): the user's pick by exact name, then the language's ranked name
  fragments, then a "premium", "enhanced" or "natural" voice of the language,
  then any voice of the language, else none.
 */
module Voices {
  import opened Collections
  import opened Text
  import opened Langs

  /** A platform voice, as `speechSynthesis.getVoices()` lists it. */
  datatype Voice = Voice(name: string, lang: string, localService: bool)

  /** `/premium|enhanced|natural/i.test(name)`. */
  predicate IsPremiumName(name: string)
  {
    ContainsIgnoreCase(name, "premium") || ContainsIgnoreCase(name, "enhanced")
    || ContainsIgnoreCase(name, "natural")
  }

  /** `v.lang.startsWith(prefix)`. */
  predicate SpeaksPrefix(v: Voice, prefix: string)
  {
    StartsWith(v.lang, prefix)
  }

  /** `voices.find((v) => v.name === name)`. */
  function FirstNamed(voices: seq<Voice>, name: string): (r: Option<Voice>)
    ensures r.Some? ==> r.value in voices && r.value.name == name
    ensures r.None? <==> forall j :: 0 <= j < |voices| ==> voices[j].name != name
    ensures forall i :: 0 <= i < |voices| && voices[i].name == name
                        && (forall j :: 0 <= j < i ==> voices[j].name != name)
                        ==> r == Some(voices[i])
  {
    Find(voices, (v: Voice) => v.name == name)
  }

  /** `voices.find((v) => v.name.includes(fragment))`. */
  function FirstContaining(voices: seq<Voice>, fragment: string): (r: Option<Voice>)
    ensures r.Some? ==> r.value in voices && Contains(r.value.name, fragment)
    ensures r.None? <==> forall j :: 0 <= j < |voices| ==> !Contains(voices[j].name, fragment)
    ensures forall i :: 0 <= i < |voices| && Contains(voices[i].name, fragment)
                        && (forall j :: 0 <= j < i ==> !Contains(voices[j].name, fragment))
                        ==> r == Some(voices[i])
  {
    Find(voices, (v: Voice) => Contains(v.name, fragment))
  }

  /** The first voice of the language whose name marks it as premium. */
  function FirstPremium(voices: seq<Voice>, prefix: string): (r: Option<Voice>)
    ensures r.Some? ==> r.value in voices && SpeaksPrefix(r.value, prefix) && IsPremiumName(r.value.name)
    ensures r.None? <==> forall j :: 0 <= j < |voices| ==>
                           !(SpeaksPrefix(voices[j], prefix) && IsPremiumName(voices[j].name))
    ensures forall i :: 0 <= i < |voices| && SpeaksPrefix(voices[i], prefix) && IsPremiumName(voices[i].name)
                        && (forall j :: 0 <= j < i ==>
                              !(SpeaksPrefix(voices[j], prefix) && IsPremiumName(voices[j].name)))
                        ==> r == Some(voices[i])
  {
    Find(voices, (v: Voice) => SpeaksPrefix(v, prefix) && IsPremiumName(v.name))
  }

  /** The first voice of the language. */
  function FirstSpeaking(voices: seq<Voice>, prefix: string): (r: Option<Voice>)
    ensures r.Some? ==> r.value in voices && SpeaksPrefix(r.value, prefix)
    ensures r.None? <==> forall j :: 0 <= j < |voices| ==> !SpeaksPrefix(voices[j], prefix)
    ensures forall i :: 0 <= i < |voices| && SpeaksPrefix(voices[i], prefix)
                        && (forall j :: 0 <= j < i ==> !SpeaksPrefix(voices[j], prefix))
                        ==> r == Some(voices[i])
  {
    Find(voices, (v: Voice) => SpeaksPrefix(v, prefix))
  }

  /** `voicePrefs[l]` when it is truthy, that is, a non-empty name. */
  predicate HasUserPref(prefs: map<Lang, string>, l: Lang)
  {
    l in prefs && prefs[l] != ""
  }

  /** Tier 1: the catalog voice the user picked for the language, if it is present. */
  function UserPick(voices: seq<Voice>, prefs: map<Lang, string>, l: Lang): Option<Voice>
  {
    if HasUserPref(prefs, l) then FirstNamed(voices, prefs[l]) else None
  }

  /** Tier 2: for each name fragment in order, the first voice whose name contains it. */
  function PreferredMatch(voices: seq<Voice>, names: seq<string>): (r: Option<Voice>)
    ensures r.Some? ==> r.value in voices
  {
    if names == [] then None
    else
      var m := FirstContaining(voices, names[0]);
      if m.Some? then m else PreferredMatch(voices, names[1..])
  }

  /** The voice `findBestVoice` resolves, as one expression over the four tiers. */
  function BestVoice(voices: seq<Voice>, prefs: map<Lang, string>, l: Lang): (r: Option<Voice>)
    ensures r.Some? ==> r.value in voices
  {
    var pick := UserPick(voices, prefs, l);
    if pick.Some? then pick
    else
      var named := PreferredMatch(voices, PreferVoices(l));
      if named.Some? then named
      else
        var premium := FirstPremium(voices, LangPrefix(l));
        if premium.Some? then premium else FirstSpeaking(voices, LangPrefix(l))
  }

  /** `findBestVoice(l)` over the cached catalog and the user's preferences. */
  method FindBestVoice(voices: seq<Voice>, prefs: map<Lang, string>, l: Lang) returns (r: Option<Voice>)
    ensures r == BestVoice(voices, prefs, l)
  {
    if l in prefs && prefs[l] != "" {
      var userPick := FirstNamed(voices, prefs[l]);
      if userPick.Some? {
        return userPick;
      }
    }
    var names := PreferVoices(l);
    for i := 0 to |names|
      invariant PreferredMatch(voices, names[i..]) == PreferredMatch(voices, names)
    {
      var m := FirstContaining(voices, names[i]);
      if m.Some? {
        return m;
      }
      assert names[i..][1..] == names[i + 1..];
    }
    assert names[|names|..] == [];
    var prefix := BeforeDash(Locale(l));
    var premium := FirstPremium(voices, prefix);
    if premium.Some? {
      return premium;
    }
    r := FirstSpeaking(voices, prefix);
  }

  /** No voice name contains any of the fragments. */
  ghost predicate NoNameMatches(voices: seq<Voice>, names: seq<string>)
  {
    forall k, j :: 0 <= k < |names| && 0 <= j < |voices| ==> !Contains(voices[j].name, names[k])
  }

  /** Tier 2 in detail: the fragments are tried in their ranked order, and for the
      first fragment that any voice contains, the earliest such voice wins. */
  lemma {:induction false} PreferredMatchAt(voices: seq<Voice>, names: seq<string>, k: nat, i: nat)
    requires k < |names| && i < |voices| && Contains(voices[i].name, names[k])
    requires forall k', j :: 0 <= k' < k && 0 <= j < |voices| ==> !Contains(voices[j].name, names[k'])
    requires forall j :: 0 <= j < i ==> !Contains(voices[j].name, names[k])
    ensures PreferredMatch(voices, names) == Some(voices[i])
  {
    if k > 0 {
      assert FirstContaining(voices, names[0]).None?;
      PreferredMatchAt(voices, names[1..], k - 1, i);
    }
  }

  lemma {:induction false} PreferredMatchNone(voices: seq<Voice>, names: seq<string>)
    ensures PreferredMatch(voices, names).None? <==> NoNameMatches(voices, names)
  {
    if names != [] {
      PreferredMatchNone(voices, names[1..]);
      if FirstContaining(voices, names[0]).None? {
        forall k, j | 0 <= k < |names| && 0 <= j < |voices|
          ensures !Contains(voices[j].name, names[k]) == (k == 0 || !Contains(voices[j].name, names[1..][k - 1]))
        {
        }
      }
    }
  }

  /** The user's pick always wins when a catalog voice carries exactly that name:
      the first such voice is chosen. */
  lemma BestVoiceUserPick(voices: seq<Voice>, prefs: map<Lang, string>, l: Lang, i: nat)
    requires HasUserPref(prefs, l) && i < |voices| && voices[i].name == prefs[l]
    requires forall j :: 0 <= j < i ==> voices[j].name != prefs[l]
    ensures BestVoice(voices, prefs, l) == Some(voices[i])
  {
  }

  /** The user's pick is missing from the catalog (or unset). */
  ghost predicate NoUserPick(voices: seq<Voice>, prefs: map<Lang, string>, l: Lang)
  {
    !HasUserPref(prefs, l) || forall j :: 0 <= j < |voices| ==> voices[j].name != prefs[l]
  }

  /** Without a usable pick, the ranked fragments decide before any locale rule. */
  lemma BestVoicePreferredName(voices: seq<Voice>, prefs: map<Lang, string>, l: Lang, k: nat, i: nat)
    requires NoUserPick(voices, prefs, l)
    requires k < |PreferVoices(l)| && i < |voices| && Contains(voices[i].name, PreferVoices(l)[k])
    requires forall k', j :: 0 <= k' < k && 0 <= j < |voices| ==>
               !Contains(voices[j].name, PreferVoices(l)[k'])
    requires forall j :: 0 <= j < i ==> !Contains(voices[j].name, PreferVoices(l)[k])
    ensures BestVoice(voices, prefs, l) == Some(voices[i])
  {
    PreferredMatchAt(voices, PreferVoices(l), k, i);
  }

  /** Without a pick and without a ranked name, the first premium voice of the
      language wins over the other voices of the language. */
  lemma BestVoicePremium(voices: seq<Voice>, prefs: map<Lang, string>, l: Lang, i: nat)
    requires NoUserPick(voices, prefs, l) && NoNameMatches(voices, PreferVoices(l))
    requires i < |voices| && SpeaksPrefix(voices[i], LangPrefix(l)) && IsPremiumName(voices[i].name)
    requires forall j :: 0 <= j < i ==>
               !(SpeaksPrefix(voices[j], LangPrefix(l)) && IsPremiumName(voices[j].name))
    ensures BestVoice(voices, prefs, l) == Some(voices[i])
  {
    PreferredMatchNone(voices, PreferVoices(l));
  }

  /** Otherwise the first voice of the language is used. */
  lemma BestVoiceAnyOfLanguage(voices: seq<Voice>, prefs: map<Lang, string>, l: Lang, i: nat)
    requires NoUserPick(voices, prefs, l) && NoNameMatches(voices, PreferVoices(l))
    requires forall j :: 0 <= j < |voices| ==>
               !(SpeaksPrefix(voices[j], LangPrefix(l)) && IsPremiumName(voices[j].name))
    requires i < |voices| && SpeaksPrefix(voices[i], LangPrefix(l))
    requires forall j :: 0 <= j < i ==> !SpeaksPrefix(voices[j], LangPrefix(l))
    ensures BestVoice(voices, prefs, l) == Some(voices[i])
  {
    PreferredMatchNone(voices, PreferVoices(l));
  }

  /** No voice is resolved exactly when no tier applies; the caller then leaves the
      utterance's voice unset. */
  lemma BestVoiceNone(voices: seq<Voice>, prefs: map<Lang, string>, l: Lang)
    ensures BestVoice(voices, prefs, l).None? <==>
              NoUserPick(voices, prefs, l) && NoNameMatches(voices, PreferVoices(l))
              && forall j :: 0 <= j < |voices| ==> !SpeaksPrefix(voices[j], LangPrefix(l))
  {
    PreferredMatchNone(voices, PreferVoices(l));
  }
}
