/**
 * Caption extraction: the subtitle records handed over by the SRT parser become
 * `(start_ms, end_ms, text)` segments, one per record and in file order.
 * Parsing the SRT text itself is done by an external library and is not modelled;
 * its output is the sequence of `Subtitle` records below.
 */
module Captions {

  /** A subtitle timestamp as the parser exposes it: `HH:MM:SS,mmm`. */
  datatype Timestamp = Timestamp(hours: nat, minutes: nat, seconds: nat, milliseconds: nat)

  /** One parsed subtitle entry. */
  datatype Subtitle = Subtitle(start: Timestamp, end: Timestamp, text: string)

  /** One caption after conversion: its window in milliseconds and its one-line text. */
  datatype Segment = Segment(startMs: nat, endMs: nat, text: string)

  /** A timestamp whose fields lie in their clock ranges (hours are unbounded). */
  predicate WellFormed(t: Timestamp) {
    t.minutes < 60 && t.seconds < 60 && t.milliseconds < 1000
  }

  /** The number of whole milliseconds since the start of the file. */
  function ToMillis(t: Timestamp): (ms: nat)
    ensures WellFormed(t) ==> ms % 1000 == t.milliseconds
    ensures WellFormed(t) ==> ms / 1000 == t.hours * 3600 + t.minutes * 60 + t.seconds
  {
    (t.hours * 3600 + t.minutes * 60 + t.seconds) * 1000 + t.milliseconds
  }

  /** The clock reading of a millisecond offset: the inverse of `ToMillis`. */
  function FromMillis(ms: nat): (t: Timestamp)
    ensures WellFormed(t)
  {
    Timestamp(ms / 3_600_000, (ms / 60_000) % 60, (ms / 1000) % 60, ms % 1000)
  }

  /** Converting a well-formed timestamp to milliseconds loses nothing. */
  lemma FromMillisToMillis(t: Timestamp)
    requires WellFormed(t)
    ensures FromMillis(ToMillis(t)) == t
  {
    var ms := ToMillis(t);
    assert ms / 3_600_000 == t.hours;
    assert ms / 60_000 == t.hours * 60 + t.minutes;
    assert ms / 1000 == t.hours * 3600 + t.minutes * 60 + t.seconds;
  }

  /** Every millisecond offset is the reading of a well-formed timestamp: the one
      `FromMillis` gives. */
  lemma ToMillisFromMillis(ms: nat)
    ensures ToMillis(FromMillis(ms)) == ms
  {
    var h := ms / 3_600_000;
    var m := (ms / 60_000) % 60;
    var s := (ms / 1000) % 60;
    assert ms / 60_000 == h * 60 + m;
    assert ms / 1000 == (ms / 60_000) * 60 + s;
  }

  /** Two well-formed timestamps denote the same instant only if they are equal. */
  lemma ToMillisInjective(t1: Timestamp, t2: Timestamp)
    requires WellFormed(t1) && WellFormed(t2)
    requires ToMillis(t1) == ToMillis(t2)
    ensures t1 == t2
  {
    FromMillisToMillis(t1);
    FromMillisToMillis(t2);
  }

  /** Line breaks inside a caption become single spaces; every other character is kept. */
  function FlattenNewlines(s: string): (r: string)
    ensures |r| == |s|
    ensures forall i :: 0 <= i < |s| ==> r[i] == (if s[i] == '\n' then ' ' else s[i])
    ensures '\n' !in r
  {
    if s == [] then []
    else [if s[0] == '\n' then ' ' else s[0]] + FlattenNewlines(s[1..])
  }

  /** The segment one subtitle entry becomes. */
  function ToSegment(sub: Subtitle): Segment {
    Segment(ToMillis(sub.start), ToMillis(sub.end), FlattenNewlines(sub.text))
  }

  /** The segments of a whole file, entry by entry. */
  function ToSegments(subs: seq<Subtitle>): (segments: seq<Segment>)
    ensures |segments| == |subs|
    ensures forall i :: 0 <= i < |subs| ==>
      segments[i].startMs == ToMillis(subs[i].start) &&
      segments[i].endMs == ToMillis(subs[i].end) &&
      segments[i].text == FlattenNewlines(subs[i].text) &&
      |segments[i].text| == |subs[i].text| &&
      '\n' !in segments[i].text
  {
    seq(|subs|, i requires 0 <= i < |subs| => ToSegment(subs[i]))
  }

  /** Converts the parsed entries one by one, appending each segment to the list. */
  method SrtToSegments(subs: seq<Subtitle>) returns (segments: seq<Segment>)
    ensures segments == ToSegments(subs)
    ensures |segments| == |subs|
    ensures forall i :: 0 <= i < |subs| ==>
      segments[i].startMs == ToMillis(subs[i].start) &&
      segments[i].endMs == ToMillis(subs[i].end) &&
      segments[i].text == FlattenNewlines(subs[i].text) &&
      |segments[i].text| == |subs[i].text| &&
      '\n' !in segments[i].text
  {
    segments := [];
    for i := 0 to |subs|
      invariant |segments| == i
      invariant forall j :: 0 <= j < i ==> segments[j] == ToSegment(subs[j])
    {
      var sub := subs[i];
      var startMs := ToMillis(sub.start);
      var endMs := ToMillis(sub.end);
      var text := FlattenNewlines(sub.text);
      segments := segments + [Segment(startMs, endMs, text)];
    }
  }
}
