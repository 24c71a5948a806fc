/** Voice selection: the two labels offered to the user and their provider voices. */
module Voices {

  /** The voice used for a label the table does not know. */
  const DefaultVoice: string := "alloy"

  /** Label shown to the user (female-like, male-like) to provider voice identifier. */
  const VoiceMap: map<string, string> := map["Kadın" := "alloy", "Erkek" := "verse"]

  /** The provider voice for a label; unknown labels fall back to the default rather than failing. */
  function ResolveVoice(voiceLabel: string): (voice: string)
    ensures voiceLabel in VoiceMap ==> voice == VoiceMap[voiceLabel]
    ensures voiceLabel !in VoiceMap ==> voice == DefaultVoice
    ensures voice in VoiceMap.Values
  {
    assert VoiceMap["Kadın"] == DefaultVoice;
    if voiceLabel in VoiceMap then VoiceMap[voiceLabel] else DefaultVoice
  }

  /** The two labels resolve to distinct voices, and every other label to the female-like one. */
  lemma VoiceTable(voiceLabel: string)
    ensures ResolveVoice("Kadın") == "alloy" && ResolveVoice("Erkek") == "verse"
    ensures voiceLabel != "Kadın" && voiceLabel != "Erkek" ==> ResolveVoice(voiceLabel) == ResolveVoice("Kadın")
  {
  }
}
