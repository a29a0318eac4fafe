/** `transcribe_chunks` (app.py:29-40): every chunk is handed to the recognizer in turn and the
    segments of all results are gathered into one list, in chunk order. */
module Transcription {
  import opened Wrappers

  /** One recognized utterance: a dictionary whose `start`, `end` and `text` keys may each be
      missing. Times are in tenths of a second. */
  datatype Segment = Segment(start: Option<nat>, end: Option<nat>, text: Option<string>)

  /** What the recognizer returns for one chunk: the `segments` entry when the result has one,
      and the `text` entry when it has one. */
  datatype RecognitionResult = RecognitionResult(segments: Option<seq<Segment>>, text: Option<string>)

  /** The single segment standing for a result without `segments` (app.py:39). */
  function FallbackSegment(r: RecognitionResult): Segment {
    Segment(Some(0), Some(0), Some(r.text.GetOr("")))
  }

  /** What one result adds to the gathered list (app.py:35-39). */
  function Contribution(r: RecognitionResult): seq<Segment> {
    if r.segments.Some? then r.segments.value else [FallbackSegment(r)]
  }

  function ContributionSize(r: RecognitionResult): nat {
    if r.segments.Some? then |r.segments.value| else 1
  }

  /** The number of segments the results contribute together. */
  function SegmentCount(rs: seq<RecognitionResult>): nat {
    if rs == [] then 0 else ContributionSize(rs[0]) + SegmentCount(rs[1..])
  }

  /** The contributions of the results, concatenated in order. */
  function Gathered(rs: seq<RecognitionResult>): seq<Segment> {
    if rs == [] then [] else Contribution(rs[0]) + Gathered(rs[1..])
  }

  /** The results of the recognizer on each path, in order. */
  function Results(recognize: string -> RecognitionResult, paths: seq<string>): (rs: seq<RecognitionResult>)
    ensures |rs| == |paths|
    ensures forall i :: 0 <= i < |paths| ==> rs[i] == recognize(paths[i])
  {
    seq(|paths|, i requires 0 <= i < |paths| => recognize(paths[i]))
  }

  /** The loop of `transcribe_chunks`: `extend` with the result's segments, or `append` the
      fallback segment. `model.transcribe` is the function `recognize`. */
  method TranscribeChunks(recognize: string -> RecognitionResult, chunkPaths: seq<string>)
    returns (allSegments: seq<Segment>)
    ensures allSegments == Gathered(Results(recognize, chunkPaths))
    ensures |allSegments| == SegmentCount(Results(recognize, chunkPaths))
  {
    allSegments := [];
    for i := 0 to |chunkPaths|
      invariant allSegments == Gathered(Results(recognize, chunkPaths[..i]))
    {
      var result := recognize(chunkPaths[i]);
      if result.segments.Some? {
        allSegments := allSegments + result.segments.value;
      } else {
        allSegments := allSegments + [Segment(Some(0), Some(0), Some(result.text.GetOr("")))];
      }
      GatheredSnoc(Results(recognize, chunkPaths[..i]), result);
      assert Results(recognize, chunkPaths[..i + 1]) == Results(recognize, chunkPaths[..i]) + [result];
    }
    assert chunkPaths[..|chunkPaths|] == chunkPaths;
    GatheredLength(Results(recognize, chunkPaths));
  }

  // ---------------------------------------------------------------------------------------
  // Properties

  /** Gathering distributes over concatenation: splitting the chunks into batches, gathering
      each batch and concatenating gives the same list (as `process_file` does, one chunk at a
      time, app.py:192-196). */
  lemma {:induction false} GatheredAppend(a: seq<RecognitionResult>, b: seq<RecognitionResult>)
    ensures Gathered(a + b) == Gathered(a) + Gathered(b)
    decreases |a|
  {
    if a == [] {
      assert a + b == b;
    } else {
      assert (a + b)[1..] == a[1..] + b;
      GatheredAppend(a[1..], b);
    }
  }

  lemma GatheredSnoc(a: seq<RecognitionResult>, r: RecognitionResult)
    ensures Gathered(a + [r]) == Gathered(a) + Contribution(r)
  {
    GatheredAppend(a, [r]);
    assert Gathered([r]) == Contribution(r) + Gathered([]);
  }

  /** The output holds, for each chunk in order, that chunk's segments unchanged (their
      times are not shifted by the chunk's position) or the one fallback segment: whatever
      precedes and follows a result, its contribution sits between theirs. */
  lemma GatheredAt(before: seq<RecognitionResult>, r: RecognitionResult, after: seq<RecognitionResult>)
    ensures Gathered(before + [r] + after) == Gathered(before) + Contribution(r) + Gathered(after)
    ensures r.segments.Some? ==> Contribution(r) == r.segments.value
    ensures r.segments.None? ==> Contribution(r) == [Segment(Some(0), Some(0), Some(r.text.GetOr("")))]
  {
    GatheredAppend(before + [r], after);
    GatheredSnoc(before, r);
  }

  /** The output length is the sum over chunks of the number of segments, counting 1 for a
      result without segments. */
  lemma {:induction false} GatheredLength(rs: seq<RecognitionResult>)
    ensures |Gathered(rs)| == SegmentCount(rs)
    decreases |rs|
  {
    if rs != [] {
      GatheredLength(rs[1..]);
    }
  }
}
