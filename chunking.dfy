/** `split_audio` (app.py:18-27): the audio, `audioLength` milliseconds long, is cut into the
    windows `[start, start + chunkLength)` for `start` in `range(0, audioLength, chunkLength)`,
    each clipped to the end of the audio, and window `i` is exported to its own file. */
module Chunking {
  import Decimal
  import Paths

  /** `process_file` passes `chunk_length_min * 60 * 1000` (app.py:184). */
  function ChunkLengthMs(minutes: int): (ms: int)
    ensures ms > 0 <==> minutes > 0
    ensures ms == 0 <==> minutes == 0
  {
    minutes * 60 * 1000
  }

  /** A half-open span `[start, stop)` of the audio, in milliseconds. */
  datatype Window = Window(start: nat, stop: nat) {
    predicate Contains(t: nat) {
      start <= t < stop
    }
  }

  /** One exported chunk: the window written and the path it was written to. */
  datatype Chunk = Chunk(path: string, window: Window)

  /** The number of values in `range(0, audioLength, chunkLength)`; a negative step gives an
      empty range. */
  function ChunkCount(audioLength: nat, chunkLength: int): nat {
    if chunkLength > 0 then (audioLength + chunkLength - 1) / chunkLength else 0
  }

  /** Window `i`: the slice `audio[i*L : i*L + L]`, which pydub clips to the audio's end. */
  function WindowAt(audioLength: nat, chunkLength: int, i: nat): (w: Window)
    requires chunkLength > 0
    ensures w.start == i * chunkLength
    ensures w.stop <= w.start + chunkLength
  {
    var start := i * chunkLength;
    Window(start, if start + chunkLength <= audioLength then start + chunkLength else audioLength)
  }

  function Windows(audioLength: nat, chunkLength: int): (ws: seq<Window>)
    requires chunkLength > 0
    ensures |ws| == ChunkCount(audioLength, chunkLength)
  {
    seq(ChunkCount(audioLength, chunkLength), i requires 0 <= i => WindowAt(audioLength, chunkLength, i))
  }

  /** `f"{input_audio}_chunk_{i}.wav"` (app.py:24). */
  function ChunkPath(inputAudio: string, i: nat): string {
    inputAudio + "_chunk_" + Decimal.NatToString(i) + ".wav"
  }

  /** The loop of `split_audio`. The exports (`chunk.export(chunk_path)`) are returned as the
      sequence of chunks written, in the order they are written. */
  method SplitAudio(inputAudio: string, audioLength: nat, chunkLength: int)
    returns (chunkPaths: seq<string>, exported: seq<Chunk>)
    requires chunkLength != 0
    ensures |chunkPaths| == ChunkCount(audioLength, chunkLength)
    ensures |exported| == |chunkPaths|
    ensures forall i :: 0 <= i < |chunkPaths| ==> chunkPaths[i] == ChunkPath(inputAudio, i)
    ensures chunkLength > 0 ==>
              forall i :: 0 <= i < |exported| ==>
                exported[i] == Chunk(chunkPaths[i], Windows(audioLength, chunkLength)[i])
  {
    chunkPaths, exported := [], [];
    if chunkLength < 0 {
      return;
    }
    var i: nat, start: nat := 0, 0;
    while start < audioLength
      invariant start == i * chunkLength
      invariant i <= ChunkCount(audioLength, chunkLength)
      invariant |chunkPaths| == i && |exported| == i
      invariant forall k :: 0 <= k < i ==> chunkPaths[k] == ChunkPath(inputAudio, k)
      invariant forall k :: 0 <= k < i ==>
                  exported[k] == Chunk(chunkPaths[k], WindowAt(audioLength, chunkLength, k))
      decreases audioLength - start
    {
      IndexBelowCount(audioLength, chunkLength, i);
      var stop := if start + chunkLength <= audioLength then start + chunkLength else audioLength;
      var chunkPath := inputAudio + "_chunk_" + Decimal.NatToString(i) + ".wav";
      exported := exported + [Chunk(chunkPath, Window(start, stop))];
      chunkPaths := chunkPaths + [chunkPath];
      i, start := i + 1, start + chunkLength;
    }
    IndexBelowCount(audioLength, chunkLength, i);
  }

  // ---------------------------------------------------------------------------------------
  // Properties of the partition

  /** Index `i` is one of the chunks exactly when the window it would start lies before the
      end of the audio. */
  lemma IndexBelowCount(audioLength: nat, chunkLength: int, i: nat)
    requires chunkLength > 0
    ensures i < ChunkCount(audioLength, chunkLength) <==> i * chunkLength < audioLength
  {
    var n := ChunkCount(audioLength, chunkLength);
    var m := audioLength + chunkLength - 1;
    assert m == n * chunkLength + m % chunkLength;
    if i < n {
      assert i * chunkLength <= (n - 1) * chunkLength;
    } else {
      assert i * chunkLength >= n * chunkLength;
    }
  }

  /** The count is the ceiling of `audioLength / chunkLength`: enough windows to reach the
      end, and one fewer would not. An empty audio has no chunk. */
  lemma ChunkCountIsCeiling(audioLength: nat, chunkLength: int)
    requires chunkLength > 0
    ensures var n := ChunkCount(audioLength, chunkLength);
            && n * chunkLength >= audioLength
            && (n > 0 ==> (n - 1) * chunkLength < audioLength)
            && (n == 0 <==> audioLength == 0)
  {
    var n := ChunkCount(audioLength, chunkLength);
    IndexBelowCount(audioLength, chunkLength, n);
    if n > 0 {
      IndexBelowCount(audioLength, chunkLength, n - 1);
    }
    IndexBelowCount(audioLength, chunkLength, 0);
  }

  /** The first window starts at 0, each window starts where the one before it stops, no
      window is empty, and the last one stops at the end of the audio. */
  lemma WindowsContiguous(audioLength: nat, chunkLength: int)
    requires chunkLength > 0
    ensures var ws := Windows(audioLength, chunkLength);
            && (ws != [] ==> ws[0].start == 0 && ws[|ws| - 1].stop == audioLength)
            && (forall i :: 0 <= i < |ws| ==> ws[i].start < ws[i].stop)
            && (forall i :: 0 < i < |ws| ==> ws[i - 1].stop == ws[i].start)
  {
    var ws := Windows(audioLength, chunkLength);
    var n := |ws|;
    forall i | 0 <= i < n ensures ws[i].start < ws[i].stop {
      IndexBelowCount(audioLength, chunkLength, i);
    }
    forall i | 0 < i < n ensures ws[i - 1].stop == ws[i].start {
      IndexBelowCount(audioLength, chunkLength, i);
      assert (i - 1) * chunkLength + chunkLength == i * chunkLength;
    }
    if n > 0 {
      IndexBelowCount(audioLength, chunkLength, n);
      assert (n - 1) * chunkLength + chunkLength == n * chunkLength;
    }
  }

  lemma MulSucc(i: int, l: int)
    ensures (i + 1) * l == i * l + l
  {
  }

  lemma {:induction false} MulAtLeast(k: nat, l: int)
    requires k >= 1 && l > 0
    ensures k * l >= l
    decreases k
  {
    if k > 1 {
      MulAtLeast(k - 1, l);
      MulSucc(k - 1, l);
    }
  }

  /** Windows of larger index start at least a whole chunk later. */
  lemma MulStrict(i: int, j: int, l: int)
    requires i < j && l > 0
    ensures i * l + l <= j * l
  {
    MulAtLeast(j - i, l);
    assert (j - i) * l == j * l - i * l;
  }

  /** Division with a remainder in `[0, l)` has only one answer. */
  lemma DivModUnique(d: nat, l: int, q: int, r: int)
    requires l > 0 && 0 <= r < l && d == q * l + r
    ensures d / l == q && d % l == r
  {
    var q', r' := d / l, d % l;
    assert d == q' * l + r';
    if q < q' {
      MulStrict(q, q', l);
    } else if q' < q {
      MulStrict(q', q, l);
    }
  }

  lemma DivBounds(t: nat, l: int)
    requires l > 0
    ensures (t / l) * l <= t < (t / l) * l + l
  {
    assert t == (t / l) * l + t % l;
  }

  /** Every instant of the audio lies in exactly one window: window `t / chunkLength`. */
  lemma WindowsCover(audioLength: nat, chunkLength: int, t: nat)
    requires chunkLength > 0 && t < audioLength
    ensures var ws := Windows(audioLength, chunkLength);
            && t / chunkLength < |ws|
            && ws[t / chunkLength].Contains(t)
            && forall i :: 0 <= i < |ws| && ws[i].Contains(t) ==> i == t / chunkLength
  {
    var ws := Windows(audioLength, chunkLength);
    var q := t / chunkLength;
    DivBounds(t, chunkLength);
    IndexBelowCount(audioLength, chunkLength, q);
    assert ws[q] == WindowAt(audioLength, chunkLength, q);
    forall i | 0 <= i < |ws| && ws[i].Contains(t) ensures i == q {
      assert ws[i] == WindowAt(audioLength, chunkLength, i);
      if i < q {
        MulStrict(i, q, chunkLength);
      } else if i > q {
        MulStrict(q, i, chunkLength);
      }
    }
  }

  /** Every chunk but the last is exactly `chunkLength` long; the last is what remains,
      between 1 and `chunkLength` milliseconds: the remainder of the division, or a full
      chunk when the division is exact. */
  lemma WindowLengths(audioLength: nat, chunkLength: int)
    requires chunkLength > 0
    ensures var ws := Windows(audioLength, chunkLength);
            && (forall i :: 0 <= i < |ws| - 1 ==> ws[i].stop - ws[i].start == chunkLength)
            && (ws != [] ==>
                  var last := ws[|ws| - 1].stop - ws[|ws| - 1].start;
                  && last == audioLength - (|ws| - 1) * chunkLength
                  && 0 < last <= chunkLength
                  && last == (if audioLength % chunkLength == 0 then chunkLength
                              else audioLength % chunkLength))
  {
    var ws := Windows(audioLength, chunkLength);
    var n := |ws|;
    forall i | 0 <= i < n - 1 ensures ws[i].stop - ws[i].start == chunkLength {
      assert ws[i] == WindowAt(audioLength, chunkLength, i);
      IndexBelowCount(audioLength, chunkLength, i + 1);
      MulSucc(i, chunkLength);
    }
    if n > 0 {
      LastWindowLength(audioLength, chunkLength);
    }
  }

  lemma LastWindowLength(audioLength: nat, chunkLength: int)
    requires chunkLength > 0 && ChunkCount(audioLength, chunkLength) > 0
    ensures var n := ChunkCount(audioLength, chunkLength);
            var w := WindowAt(audioLength, chunkLength, n - 1);
            var last := w.stop - w.start;
            && last == audioLength - (n - 1) * chunkLength
            && 0 < last <= chunkLength
            && last == (if audioLength % chunkLength == 0 then chunkLength
                        else audioLength % chunkLength)
  {
    var n := ChunkCount(audioLength, chunkLength);
    var s := (n - 1) * chunkLength;
    IndexBelowCount(audioLength, chunkLength, n - 1);
    IndexBelowCount(audioLength, chunkLength, n);
    MulSucc(n - 1, chunkLength);
    assert s < audioLength <= s + chunkLength;
    var r := audioLength - s;
    ModOfOffset(audioLength, chunkLength, n - 1, r);
  }

  lemma ModOfOffset(d: nat, l: int, q: nat, r: int)
    requires l > 0 && 0 < r <= l && d == q * l + r
    ensures (if d % l == 0 then l else d % l) == r
  {
    if r == l {
      MulSucc(q, l);
      DivModUnique(d, l, q + 1, 0);
    } else {
      DivModUnique(d, l, q, r);
    }
  }

  function TotalLength(ws: seq<Window>): int {
    if ws == [] then 0 else TotalLength(ws[..|ws| - 1]) + (ws[|ws| - 1].stop - ws[|ws| - 1].start)
  }

  /** The chunk durations add up to the duration of the audio. */
  lemma {:induction false} TotalLengthIsAudioLength(audioLength: nat, chunkLength: int)
    requires chunkLength > 0
    ensures TotalLength(Windows(audioLength, chunkLength)) == audioLength
  {
    var ws := Windows(audioLength, chunkLength);
    if ws != [] {
      WindowsContiguous(audioLength, chunkLength);
      PrefixTotalLength(ws, |ws|);
      assert ws[..|ws|] == ws;
    } else {
      ChunkCountIsCeiling(audioLength, chunkLength);
    }
  }

  lemma {:induction false} PrefixTotalLength(ws: seq<Window>, k: nat)
    requires 0 < k <= |ws|
    requires ws[0].start == 0
    requires forall i :: 0 < i < |ws| ==> ws[i - 1].stop == ws[i].start
    ensures TotalLength(ws[..k]) == ws[k - 1].stop
  {
    var p := ws[..k];
    assert p[..k - 1] == ws[..k - 1];
    if k > 1 {
      PrefixTotalLength(ws, k - 1);
    } else {
      assert p[..0] == [];
    }
  }

  // ---------------------------------------------------------------------------------------
  // Properties of the chunk names

  /** Chunks of the same input have pairwise different paths. */
  lemma ChunkPathsDistinct(inputAudio: string, i: nat, j: nat)
    requires i != j
    ensures ChunkPath(inputAudio, i) != ChunkPath(inputAudio, j)
  {
    if ChunkPath(inputAudio, i) == ChunkPath(inputAudio, j) {
      var pre := inputAudio + "_chunk_";
      var a, b := Decimal.NatToString(i), Decimal.NatToString(j);
      assert ChunkPath(inputAudio, i) == pre + a + ".wav";
      assert ChunkPath(inputAudio, j) == pre + b + ".wav";
      assert |a| == |b|;
      assert a == ChunkPath(inputAudio, i)[|pre|..|pre| + |a|];
      assert b == ChunkPath(inputAudio, j)[|pre|..|pre| + |b|];
      Decimal.NatToStringInjective(i, j);
    }
  }

  /** A chunk path is strictly longer than the path it was cut from, so it is never that path. */
  lemma ChunkPathLonger(inputAudio: string, i: nat)
    ensures |ChunkPath(inputAudio, i)| > |inputAudio|
    ensures ChunkPath(inputAudio, i) != inputAudio
  {
  }

  /** Whatever the input path, a chunk path has the extension `.wav`, in either flavor. */
  lemma ChunkPathIsWav(f: Paths.PathFlavor, inputAudio: string, i: nat)
    requires Paths.ValidFlavor(f)
    ensures Paths.FileExt(f, ChunkPath(inputAudio, i)) == ".wav"
    ensures Paths.KindOf(f, ChunkPath(inputAudio, i)) == Paths.Audio
  {
    var digits := Decimal.NatToString(i);
    Decimal.NatToStringShape(i);
    var name := "_chunk_" + digits;
    assert Paths.NoSlash(name) by {
      forall k | 0 <= k < |name| ensures name[k] != '/' && name[k] != '\\' {
        if k >= 7 { assert name[k] == digits[k - 7]; }
      }
    }
    assert ChunkPath(inputAudio, i) == inputAudio + name + ".wav";
    Paths.WavFileIsAudio(f, inputAudio, name, 0);
  }

  /** The scenario of a twelve-minute recording cut into five-minute chunks: three chunks of
      five, five and two minutes. */
  lemma TwelveMinutesInFiveMinuteChunks()
    ensures Windows(12 * 60 * 1000, ChunkLengthMs(5)) ==
            [Window(0, 300000), Window(300000, 600000), Window(600000, 720000)]
  {
  }
}
