/**
 * The conversion run for one subtitle file: resolve the voice, convert the parsed
 * entries to segments, refuse an empty file, assemble the track and derive the
 * output path. Encoding the track to MP3 and writing it is not part of this model.
 */
module Pipeline {
  import opened Wrappers
  import opened Captions
  import opened Timeline
  import opened Voices
  import opened Paths

  /** Why a run produced no narration. */
  datatype ProcessError =
    | NoCaptions               // the subtitle file holds no entries
    | SynthesisError(index: nat)  // the provider call for this caption failed

  /** What a successful run hands to the MP3 encoder: where to write, and the track. */
  datatype Narration = Narration(outputPath: string, track: seq<int>)

  method ProcessFile(srtPath: string, subs: seq<Subtitle>, voiceLabel: string, synth: Synthesizer)
    returns (r: Result<Narration, ProcessError>)
    ensures r == Failure(NoCaptions) <==> subs == []
    ensures r.Success? ==>
      subs != [] &&
      r.value.outputPath == OutputPath(srtPath) &&
      |r.value.track| == ToMillis(subs[|subs| - 1].end) + PadMs &&
      Assemble(ToSegments(subs), ResolveVoice(voiceLabel), synth) == Track(r.value.track)
    ensures r.Success? <==>
      subs != [] && forall j :: 0 <= j < |subs| ==> !Fails(ToSegment(subs[j]), ResolveVoice(voiceLabel), synth)
    ensures r.Failure? && r.error.SynthesisError? ==>
      Assemble(ToSegments(subs), ResolveVoice(voiceLabel), synth) == SynthesisFailed(r.error.index)
  {
    var voice := ResolveVoice(voiceLabel);
    var segments := SrtToSegments(subs);
    if |segments| == 0 {
      return Failure(NoCaptions);
    }
    var assembled := BuildFullTimeline(segments, voice, synth);
    AssemblyOutcome(segments, voice, synth);
    if assembled.SynthesisFailed? {
      return Failure(SynthesisError(assembled.index));
    }
    // The second guard of `process_file` (no audio produced) cannot fire here:
    // assembly yields no track only for an empty caption list, excluded above.
    assert assembled.Track?;
    var outputPath := OutputPath(srtPath);
    r := Success(Narration(outputPath, assembled.samples));
  }
}
