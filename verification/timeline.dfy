/**
 * Timeline assembly: every spoken caption is synthesized, truncated by the
 * window rule and mixed into a silent canvas at the caption's own start offset.
 *
 * Audio is modelled at 1 ms granularity: a track is a sequence of integer
 * samples, one per millisecond, and silence is 0. Speech synthesis is the
 * parameter `synth`, a function from a text and a provider voice to a clip,
 * or to `None` when the provider call fails.
 */
module Timeline {
  import opened Wrappers
  import opened Captions

  /** Silence appended after the last caption's end. */
  const PadMs: nat := 1000

  /** Windows of this length or shorter never truncate their clip. */
  const MinTruncateWindowMs: int := 500

  /** The speech provider: a clip for a text in a voice, or `None` when the call fails. */
  type Synthesizer = (string, string) -> Option<seq<int>>

  /** What assembly produces: nothing for no captions, a track, or the failing caption's index. */
  datatype Assembly = NoSegments | Track(samples: seq<int>) | SynthesisFailed(index: nat)

  /** The characters for which Python's `str.isspace` holds. */
  predicate IsSpace(c: char) {
    c == ' ' || c == '\t' || c == '\n' || c == '\r' || c == '\U{B}' || c == '\U{C}' ||
    ('\U{1C}' <= c <= '\U{1F}') || c == '\U{85}' || c == '\U{A0}' || c == '\U{1680}' ||
    ('\U{2000}' <= c <= '\U{200A}') || c == '\U{2028}' || c == '\U{2029}' ||
    c == '\U{202F}' || c == '\U{205F}' || c == '\U{3000}'
  }

  /** A caption with nothing to say: every character is whitespace. */
  predicate IsBlank(text: string) {
    forall i :: 0 <= i < |text| ==> IsSpace(text[i])
  }

  /** `text` without its leading whitespace (`str.lstrip()`). */
  function StripStart(text: string): (r: string)
    ensures |r| <= |text| && r == text[|text| - |r|..]
    ensures r == [] || !IsSpace(r[0])
    ensures forall k :: 0 <= k < |text| - |r| ==> IsSpace(text[k])
  {
    if text != [] && IsSpace(text[0]) then StripStart(text[1..]) else text
  }

  /** `text` without its trailing whitespace (`str.rstrip()`). */
  function StripEnd(text: string): (r: string)
    ensures |r| <= |text| && r == text[..|r|]
    ensures r == [] || !IsSpace(r[|r| - 1])
    ensures forall k :: |r| <= k < |text| ==> IsSpace(text[k])
  {
    if text != [] && IsSpace(text[|text| - 1]) then StripEnd(text[..|text| - 1]) else text
  }

  /** `text.strip()`: the text without leading and trailing whitespace. */
  function Strip(text: string): (r: string)
    ensures |r| <= |text|
    ensures r == [] || (!IsSpace(r[0]) && !IsSpace(r[|r| - 1]))
  {
    StripEnd(StripStart(text))
  }

  /** Whitespace alone strips away entirely. */
  lemma {:induction false} BlankStripsAway(text: string)
    ensures IsBlank(text) ==> StripStart(text) == []
  {
    if text != [] {
      BlankStripsAway(text[1..]);
    }
  }

  /** Text that strips away entirely is whitespace alone. */
  lemma NothingLeftIsBlank(text: string)
    ensures Strip(text) == [] ==> IsBlank(text)
  {
    var rest := StripStart(text);
    if StripEnd(rest) == [] {
      // Nothing is left of `rest` only if it starts with whitespace, so it is empty.
      assert rest == [];
    }
  }

  /** A caption is blank exactly when stripping its whitespace leaves nothing, which is
      the condition under which the tool skips it. */
  lemma BlankIffStripsToNothing(text: string)
    ensures IsBlank(text) <==> Strip(text) == []
  {
    BlankStripsAway(text);
    NothingLeftIsBlank(text);
  }

  /** `n` milliseconds of silence. */
  function Silence(n: nat): (s: seq<int>)
    ensures |s| == n && forall k :: 0 <= k < n ==> s[k] == 0
  {
    seq(n, _ => 0)
  }

  /** The clip that is placed for a caption window `[startMs, endMs)`: cut to the
      window only when it is longer than the window and the window exceeds 500 ms. */
  function PlacedClip(clip: seq<int>, startMs: int, endMs: int): (placed: seq<int>)
    ensures |placed| <= |clip| && placed == clip[..|placed|]
    ensures |clip| > endMs - startMs > MinTruncateWindowMs ==> |placed| == endMs - startMs
    ensures endMs - startMs <= MinTruncateWindowMs ==> placed == clip
    ensures |clip| <= endMs - startMs ==> placed == clip
  {
    var target := endMs - startMs;
    if |clip| > target && target > MinTruncateWindowMs then clip[..target] else clip
  }

  /** The sample a clip placed at `pos` contributes at position `k` (0 outside the clip). */
  function ClipSampleAt(clip: seq<int>, pos: nat, k: nat): int {
    if pos <= k < pos + |clip| then clip[k - pos] else 0
  }

  /** Sample-wise sum of `base` and `clip`, as long as `base`; clip samples past its end are dropped. */
  function AddInto(base: seq<int>, clip: seq<int>): (r: seq<int>)
    ensures |r| == |base|
    ensures forall k :: 0 <= k < |base| ==> r[k] == base[k] + ClipSampleAt(clip, 0, k)
  {
    if base == [] || clip == [] then base
    else [base[0] + clip[0]] + AddInto(base[1..], clip[1..])
  }

  /** Mixes `clip` into `canvas` starting at `pos`: the canvas before `pos` is kept,
      the overlapping part is summed, the rest is kept, and the length never changes. */
  function Overlay(canvas: seq<int>, clip: seq<int>, pos: nat): (r: seq<int>)
    ensures |r| == |canvas|
    ensures forall k :: 0 <= k < |canvas| ==> r[k] == canvas[k] + ClipSampleAt(clip, pos, k)
    ensures forall k :: 0 <= k < |canvas| && (k < pos || k >= pos + |clip|) ==> r[k] == canvas[k]
  {
    if pos >= |canvas| then canvas
    else canvas[..pos] + AddInto(canvas[pos..], clip)
  }

  /** Mixes `clip` into the canvas array in place, starting at `pos`. */
  method OverlayInPlace(canvas: array<int>, clip: seq<int>, pos: nat)
    modifies canvas
    ensures canvas[..] == Overlay(old(canvas[..]), clip, pos)
  {
    var stop := if pos + |clip| < canvas.Length then pos + |clip| else canvas.Length;
    var k := pos;
    while k < stop
      invariant pos <= k && (pos <= stop ==> k <= stop)
      invariant forall j :: 0 <= j < canvas.Length ==>
        canvas[j] == old(canvas[j]) + (if pos <= j < k then clip[j - pos] else 0)
    {
      canvas[k] := canvas[k] + clip[k - pos];
      k := k + 1;
    }
    assert forall j :: 0 <= j < canvas.Length ==>
      canvas[..][j] == Overlay(old(canvas[..]), clip, pos)[j];
  }

  /** The sample one caption contributes at position `k`: nothing for blank text or a
      failed call, otherwise its placed clip's sample there. */
  function Contribution(s: Segment, voice: string, synth: Synthesizer, k: nat): int {
    if IsBlank(s.text) then 0
    else match synth(s.text, voice)
      case None => 0
      case Some(clip) => ClipSampleAt(PlacedClip(clip, s.startMs, s.endMs), s.startMs, k)
  }

  /** The sum of every caption's contribution at position `k`. */
  function MixedSampleAt(segs: seq<Segment>, voice: string, synth: Synthesizer, k: nat): int
    decreases |segs|
  {
    if segs == [] then 0
    else MixedSampleAt(segs[..|segs| - 1], voice, synth, k) + Contribution(segs[|segs| - 1], voice, synth, k)
  }

  /** A caption whose synthesis is requested and fails. */
  predicate Fails(s: Segment, voice: string, synth: Synthesizer) {
    !IsBlank(s.text) && synth(s.text, voice).None?
  }

  /** The canvas after the captions `segs` have been processed in order, or the
      index of the caption whose synthesis failed first. */
  function MixAll(canvas: seq<int>, segs: seq<Segment>, voice: string, synth: Synthesizer): (r: Result<seq<int>, nat>)
    ensures r.Success? ==> |r.value| == |canvas|
    ensures r.Failure? ==> r.error < |segs| && Fails(segs[r.error], voice, synth)
    decreases |segs|
  {
    if segs == [] then Success(canvas)
    else
      match MixAll(canvas, segs[..|segs| - 1], voice, synth)
      case Failure(j) => assert segs[..|segs| - 1][j] == segs[j]; Failure(j)
      case Success(acc) =>
        var s := segs[|segs| - 1];
        if IsBlank(s.text) then Success(acc)
        else match synth(s.text, voice)
          case None => Failure(|segs| - 1)
          case Some(clip) => Success(Overlay(acc, PlacedClip(clip, s.startMs, s.endMs), s.startMs))
  }

  /** The length of the canvas: the last caption's end (in file order) plus the pad. */
  function TotalDuration(segs: seq<Segment>): (n: nat)
    requires segs != []
    ensures n >= PadMs && n - PadMs == segs[|segs| - 1].endMs
  {
    segs[|segs| - 1].endMs + PadMs
  }

  /** A corollary of sizing the canvas from the last caption in file order: the canvas
      holds every caption's window followed by at least the pad exactly when no caption
      ends after the last one; in particular when the ends never decrease. */
  lemma CaptionsFitCanvas(segs: seq<Segment>)
    requires segs != []
    ensures (forall j :: 0 <= j < |segs| ==> segs[j].endMs + PadMs <= TotalDuration(segs)) <==>
      (forall j :: 0 <= j < |segs| ==> segs[j].endMs <= segs[|segs| - 1].endMs)
    ensures (forall i, j :: 0 <= i < j < |segs| ==> segs[i].endMs <= segs[j].endMs) ==>
      forall j :: 0 <= j < |segs| ==> segs[j].endMs + PadMs <= TotalDuration(segs)
  {
  }

  /** The assembled track of a caption list. */
  function Assemble(segs: seq<Segment>, voice: string, synth: Synthesizer): (r: Assembly)
    ensures r.NoSegments? <==> segs == []
    ensures r.Track? ==> |r.samples| == TotalDuration(segs)
    ensures r.SynthesisFailed? ==> r.index < |segs| && Fails(segs[r.index], voice, synth)
  {
    if segs == [] then NoSegments
    else match MixAll(Silence(TotalDuration(segs)), segs, voice, synth)
      case Success(track) => Track(track)
      case Failure(j) => SynthesisFailed(j)
  }

  /** Walks the captions in order over a silent canvas, skipping blank ones,
      truncating each clip by the window rule and mixing it in at its start. */
  method BuildFullTimeline(segments: seq<Segment>, voice: string, synth: Synthesizer) returns (r: Assembly)
    ensures r == Assemble(segments, voice, synth)
    ensures r.NoSegments? <==> segments == []
    ensures r.Track? ==> |r.samples| == segments[|segments| - 1].endMs + PadMs
  {
    if |segments| == 0 {
      return NoSegments;
    }
    var total := segments[|segments| - 1].endMs + PadMs;
    var canvas := new int[total](_ => 0);
    assert canvas[..] == Silence(total);
    for i := 0 to |segments|
      invariant MixAll(Silence(total), segments[..i], voice, synth) == Success(canvas[..])
    {
      assert segments[..i + 1][..i] == segments[..i];
      var s := segments[i];
      if !IsBlank(s.text) {
        var clip := synth(s.text, voice);
        if clip.None? {
          FailurePersists(Silence(total), segments, i + 1, voice, synth);
          return SynthesisFailed(i);
        }
        var placed := PlacedClip(clip.value, s.startMs, s.endMs);
        OverlayInPlace(canvas, placed, s.startMs);
      }
    }
    assert segments[..|segments|] == segments;
    r := Track(canvas[..]);
  }

  /** Once a prefix of the captions has failed, the whole list fails with the same index. */
  lemma {:induction false} FailurePersists(canvas: seq<int>, segs: seq<Segment>, n: nat, voice: string, synth: Synthesizer)
    requires n <= |segs|
    requires MixAll(canvas, segs[..n], voice, synth).Failure?
    ensures MixAll(canvas, segs, voice, synth) == MixAll(canvas, segs[..n], voice, synth)
    decreases |segs| - n
  {
    if n < |segs| {
      assert segs[..n + 1][..n] == segs[..n];
      FailurePersists(canvas, segs, n + 1, voice, synth);
    } else {
      assert segs[..n] == segs;
    }
  }

  /** Superposition: each sample of the result is the canvas sample plus the sum of
      the contributions of every caption whose placed clip covers it. */
  lemma {:induction false} MixAllSuperposition(canvas: seq<int>, segs: seq<Segment>, voice: string, synth: Synthesizer)
    requires MixAll(canvas, segs, voice, synth).Success?
    ensures |MixAll(canvas, segs, voice, synth).value| == |canvas|
    ensures forall k :: 0 <= k < |canvas| ==>
      MixAll(canvas, segs, voice, synth).value[k] == canvas[k] + MixedSampleAt(segs, voice, synth, k)
    decreases |segs|
  {
    if segs != [] {
      MixAllSuperposition(canvas, segs[..|segs| - 1], voice, synth);
    }
  }

  /** The run fails exactly when some spoken caption's synthesis fails, and it
      reports the first such caption. */
  lemma {:induction false} MixAllFailure(canvas: seq<int>, segs: seq<Segment>, voice: string, synth: Synthesizer)
    ensures MixAll(canvas, segs, voice, synth).Failure? <==>
      exists j :: 0 <= j < |segs| && Fails(segs[j], voice, synth)
    ensures MixAll(canvas, segs, voice, synth).Failure? ==>
      var j := MixAll(canvas, segs, voice, synth).error;
      j < |segs| && Fails(segs[j], voice, synth) &&
      forall i :: 0 <= i < j ==> !Fails(segs[i], voice, synth)
    decreases |segs|
  {
    if segs != [] {
      var init := segs[..|segs| - 1];
      MixAllFailure(canvas, init, voice, synth);
      assert forall j :: 0 <= j < |init| ==> init[j] == segs[j];
    }
  }

  /** Blank captions are never sent to the provider: the outcome depends only on what
      the synthesizer returns for the spoken captions' texts. */
  lemma {:induction false} SynthesisOnlyForSpokenText(canvas: seq<int>, segs: seq<Segment>, voice: string,
                                                       synth1: Synthesizer, synth2: Synthesizer)
    requires forall j :: 0 <= j < |segs| && !IsBlank(segs[j].text) ==>
      synth1(segs[j].text, voice) == synth2(segs[j].text, voice)
    ensures MixAll(canvas, segs, voice, synth1) == MixAll(canvas, segs, voice, synth2)
    decreases |segs|
  {
    if segs != [] {
      var init := segs[..|segs| - 1];
      assert forall j :: 0 <= j < |init| ==> init[j] == segs[j];
      SynthesisOnlyForSpokenText(canvas, init, voice, synth1, synth2);
    }
  }

  /** The properties of an assembled track: its exact length, silence as the base,
      and every caption's placed clip mixed in at its start offset. */
  lemma AssembledTrack(segs: seq<Segment>, voice: string, synth: Synthesizer)
    requires Assemble(segs, voice, synth).Track?
    ensures segs != []
    ensures |Assemble(segs, voice, synth).samples| == segs[|segs| - 1].endMs + PadMs
    ensures forall k :: 0 <= k < |Assemble(segs, voice, synth).samples| ==>
      Assemble(segs, voice, synth).samples[k] == MixedSampleAt(segs, voice, synth, k)
  {
    MixAllSuperposition(Silence(TotalDuration(segs)), segs, voice, synth);
  }

  /** A track is produced exactly when there are captions and no spoken caption fails. */
  lemma AssemblyOutcome(segs: seq<Segment>, voice: string, synth: Synthesizer)
    ensures Assemble(segs, voice, synth).Track? <==>
      segs != [] && forall j :: 0 <= j < |segs| ==> !Fails(segs[j], voice, synth)
    ensures Assemble(segs, voice, synth).SynthesisFailed? ==>
      var j := Assemble(segs, voice, synth).index;
      j < |segs| && Fails(segs[j], voice, synth) &&
      forall i :: 0 <= i < j ==> !Fails(segs[i], voice, synth)
  {
    if segs != [] {
      MixAllFailure(Silence(TotalDuration(segs)), segs, voice, synth);
    }
  }

  /** When every caption is blank the track is pure silence of the full duration. */
  lemma {:induction false} BlankCaptionsGiveSilence(segs: seq<Segment>, voice: string, synth: Synthesizer)
    requires segs != []
    requires forall j :: 0 <= j < |segs| ==> IsBlank(segs[j].text)
    ensures Assemble(segs, voice, synth) == Track(Silence(TotalDuration(segs)))
  {
    AllBlankKeepsCanvas(Silence(TotalDuration(segs)), segs, voice, synth);
  }

  /** Captions that are all blank leave any canvas as it was, whatever the synthesizer
      would answer. */
  lemma {:induction false} AllBlankKeepsCanvas(canvas: seq<int>, segs: seq<Segment>, voice: string, synth: Synthesizer)
    requires forall j :: 0 <= j < |segs| ==> IsBlank(segs[j].text)
    ensures MixAll(canvas, segs, voice, synth) == Success(canvas)
    decreases |segs|
  {
    if segs != [] {
      var init := segs[..|segs| - 1];
      assert forall j :: 0 <= j < |init| ==> init[j] == segs[j];
      AllBlankKeepsCanvas(canvas, init, voice, synth);
    }
  }

  /** One caption `[0, 2000)` whose clip lasts 3000 ms: the clip is cut to 2000 ms
      and the track lasts 3000 ms, silent after the window. */
  lemma LongClipInLongWindowIsCut(voice: string, synth: Synthesizer, clip: seq<int>)
    requires synth("hello", voice) == Some(clip) && |clip| == 3000
    ensures var r := Assemble([Segment(0, 2000, "hello")], voice, synth);
      r.Track? && |r.samples| == 3000 &&
      (forall k :: 0 <= k < 2000 ==> r.samples[k] == clip[k]) &&
      (forall k :: 2000 <= k < 3000 ==> r.samples[k] == 0)
  {
    var segs := [Segment(0, 2000, "hello")];
    assert !IsSpace("hello"[0]);
    assert segs[..0] == [];
    AssemblyOutcome(segs, voice, synth);
    AssembledTrack(segs, voice, synth);
    assert segs[..|segs| - 1] == [];
  }

  /** One caption `[1000, 1300)` (a 300 ms window) whose clip lasts 900 ms: the clip
      is placed whole at 1000 ms and runs past the window; the track lasts 2300 ms. */
  lemma ShortWindowKeepsWholeClip(voice: string, synth: Synthesizer, clip: seq<int>)
    requires synth("hi", voice) == Some(clip) && |clip| == 900
    ensures var r := Assemble([Segment(1000, 1300, "hi")], voice, synth);
      r.Track? && |r.samples| == 2300 &&
      (forall k :: 1000 <= k < 1900 ==> r.samples[k] == clip[k - 1000]) &&
      (forall k :: 0 <= k < 2300 && (k < 1000 || k >= 1900) ==> r.samples[k] == 0)
  {
    var segs := [Segment(1000, 1300, "hi")];
    assert !IsSpace("hi"[0]);
    AssemblyOutcome(segs, voice, synth);
    AssembledTrack(segs, voice, synth);
    assert segs[..|segs| - 1] == [];
  }
  /** Two spoken captions whose placed clips overlap: in the overlap both clips are
      heard, their samples summed rather than one replacing the other. */
  lemma OverlappingClipsAreSummed(a: Segment, b: Segment, voice: string, synth: Synthesizer,
                                  clipA: seq<int>, clipB: seq<int>)
    requires !IsBlank(a.text) && synth(a.text, voice) == Some(clipA)
    requires !IsBlank(b.text) && synth(b.text, voice) == Some(clipB)
    ensures var r := Assemble([a, b], voice, synth);
      r.Track? && |r.samples| == b.endMs + PadMs &&
      forall k :: 0 <= k < |r.samples| ==>
        r.samples[k] == ClipSampleAt(PlacedClip(clipA, a.startMs, a.endMs), a.startMs, k) +
                        ClipSampleAt(PlacedClip(clipB, b.startMs, b.endMs), b.startMs, k)
  {
    var segs := [a, b];
    assert segs[..1] == [a] && [a][..0] == [];
    AssemblyOutcome(segs, voice, synth);
    AssembledTrack(segs, voice, synth);
    forall k: nat
      ensures MixedSampleAt(segs, voice, synth, k) ==
        Contribution(a, voice, synth, k) + Contribution(b, voice, synth, k)
    {
      assert MixedSampleAt([a], voice, synth, k) == Contribution(a, voice, synth, k);
    }
  }
}
