/** `process_file` (app.py:153-221): classify the selected file, extract the audio of a video,
    split, transcribe chunk by chunk, assemble the transcript and remove the temporary files.
    The calls into the media and speech libraries and the file removals are recorded as a log
    of effects, in the order the source performs them. */
module Pipeline {
  import opened Wrappers
  import opened Paths
  import opened Chunking
  import opened Transcription
  import opened Transcript

  datatype Effect =
    | ExtractAudio(video: string, audio: string)  // extract_audio_from_video (app.py:175)
    | ExportChunk(chunk: Chunk)                    // chunk.export in split_audio (app.py:25)
    | LoadModel(name: string)                      // whisper.load_model (app.py:190)
    | Transcribe(path: string)                     // model.transcribe (app.py:34)
    | Remove(path: string)                         // os.remove (app.py:214, app.py:219)

  datatype RunOutcome =
    | NoFileSelected                               // app.py:154-157
    | UnsupportedFileType                          // app.py:176-179
    | SplitFailed                                  // `range` with step 0 raises in split_audio
    | Completed(transcript: string, lineCount: nat)

  /** The audio `process_file` works on: the file itself, the fixed extraction target for a
      video, nothing for any other kind (app.py:169-179). */
  function AudioPathFor(f: PathFlavor, filePath: string, tempDir: string): Option<string>
    requires ValidFlavor(f)
  {
    match KindOf(f, filePath)
    case Audio => Some(filePath)
    case Video => Some(TempAudioPath(f, tempDir))
    case Unsupported => None
  }

  /** The files the run deletes at the end (app.py:212-221). */
  function CleanupTargets(chunkPaths: seq<string>, fileExt: string, audioPath: string): (ts: seq<string>)
    ensures forall p :: p in ts <==> p in chunkPaths || (fileExt !in AudioExtensions && p == audioPath)
    ensures |ts| == |chunkPaths| + (if fileExt in AudioExtensions then 0 else 1)
    ensures ts[..|chunkPaths|] == chunkPaths
  {
    chunkPaths + (if fileExt in AudioExtensions then [] else [audioPath])
  }

  function ExportEffects(chunks: seq<Chunk>): (es: seq<Effect>)
    ensures forall e :: e in es <==> e.ExportChunk? && e.chunk in chunks
  {
    if chunks == [] then []
    else
      assert forall c :: c in chunks <==> c == chunks[0] || c in chunks[1..];
      [ExportChunk(chunks[0])] + ExportEffects(chunks[1..])
  }

  function TranscribeEffects(paths: seq<string>): (es: seq<Effect>)
    ensures forall e :: e in es <==> e.Transcribe? && e.path in paths
  {
    if paths == [] then []
    else
      assert forall p :: p in paths <==> p == paths[0] || p in paths[1..];
      [Transcribe(paths[0])] + TranscribeEffects(paths[1..])
  }

  function RemoveEffects(paths: seq<string>): (es: seq<Effect>)
    ensures forall e :: e in es <==> e.Remove? && e.path in paths
  {
    if paths == [] then []
    else
      assert forall p :: p in paths <==> p == paths[0] || p in paths[1..];
      [Remove(paths[0])] + RemoveEffects(paths[1..])
  }

  /** The chunks `split_audio` writes for an audio of `audioLength` ms. */
  function PlannedChunks(audioPath: string, audioLength: nat, chunkLength: int): (cs: seq<Chunk>)
    requires chunkLength > 0
    ensures |cs| == ChunkCount(audioLength, chunkLength)
  {
    var ws := Windows(audioLength, chunkLength);
    seq(|ws|, i requires 0 <= i < |ws| => Chunk(ChunkPath(audioPath, i), ws[i]))
  }

  function PathsOf(chunks: seq<Chunk>): seq<string> {
    seq(|chunks|, i requires 0 <= i < |chunks| => chunks[i].path)
  }

  /** The loop of `process_file` over the chunks (app.py:191-196): one call of
      `transcribe_chunks` per chunk, the results concatenated. */
  method TranscribeEach(recognize: string -> RecognitionResult, chunkPaths: seq<string>)
    returns (segments: seq<Segment>, calls: seq<string>)
    ensures segments == Gathered(Results(recognize, chunkPaths))
    ensures calls == chunkPaths
  {
    segments, calls := [], [];
    for idx := 0 to |chunkPaths|
      invariant segments == Gathered(Results(recognize, chunkPaths[..idx]))
      invariant calls == chunkPaths[..idx]
    {
      var more := TranscribeChunks(recognize, [chunkPaths[idx]]);
      assert Results(recognize, [chunkPaths[idx]]) == [recognize(chunkPaths[idx])];
      assert Gathered([recognize(chunkPaths[idx])]) == Contribution(recognize(chunkPaths[idx])) + Gathered([]);
      GatheredSnoc(Results(recognize, chunkPaths[..idx]), recognize(chunkPaths[idx]));
      assert Results(recognize, chunkPaths[..idx + 1]) ==
             Results(recognize, chunkPaths[..idx]) + [recognize(chunkPaths[idx])];
      segments := segments + more;
      calls := calls + [chunkPaths[idx]];
    }
    assert chunkPaths[..|chunkPaths|] == chunkPaths;
  }

  /** The cleanup loop of `process_file` (app.py:212-221). Every removal is attempted and
      failures are ignored, so the targets are the whole list. */
  method Cleanup(chunkPaths: seq<string>, fileExt: string, audioPath: string)
    returns (removed: seq<string>)
    ensures removed == CleanupTargets(chunkPaths, fileExt, audioPath)
  {
    removed := [];
    for i := 0 to |chunkPaths|
      invariant removed == chunkPaths[..i]
    {
      removed := removed + [chunkPaths[i]];
    }
    assert chunkPaths[..|chunkPaths|] == chunkPaths;
    if fileExt !in AudioExtensions {
      removed := removed + [audioPath];
    }
  }

  /** The effect the classification step has: extracting the audio of a video (app.py:175). */
  function PrepEffects(f: PathFlavor, filePath: string, tempDir: string): seq<Effect>
    requires ValidFlavor(f)
  {
    if KindOf(f, filePath) == Video then [ExtractAudio(filePath, TempAudioPath(f, tempDir))] else []
  }

  /** The chunks a run writes: none for a negative chunk length, whose `range` is empty. */
  function ChunksFor(audioPath: string, audioLength: nat, chunkLength: int): seq<Chunk> {
    if chunkLength > 0 then PlannedChunks(audioPath, audioLength, chunkLength) else []
  }

  /** The effects of a run that gets past splitting, in the order they happen. */
  function CompletedEffects(prep: seq<Effect>, chunks: seq<Chunk>, modelName: string,
                            removed: seq<string>): seq<Effect> {
    prep + ExportEffects(chunks) + [LoadModel(modelName)] + TranscribeEffects(PathsOf(chunks))
    + RemoveEffects(removed)
  }

  /** The selection and classification steps of `process_file` (app.py:154-179). */
  method SelectAudio(f: PathFlavor, filePath: string, tempDir: string)
    returns (audioPath: Option<string>, prep: seq<Effect>)
    requires ValidFlavor(f)
    ensures audioPath == AudioPathFor(f, filePath, tempDir)
    ensures prep == PrepEffects(f, filePath, tempDir)
  {
    var fileExt := FileExt(f, filePath);
    prep := [];
    if fileExt in AudioExtensions {
      audioPath := Some(filePath);
    } else if fileExt in VideoExtensions {
      var extracted := TempAudioPath(f, tempDir);
      audioPath := Some(extracted);
      prep := [ExtractAudio(filePath, extracted)];
    } else {
      audioPath := None;
    }
  }

  /** The rest of `process_file` once the audio is known and the chunk length is not zero
      (app.py:183-221): split, load the model, transcribe each chunk, assemble the
      transcript, remove the temporary files. */
  method TranscribeAudio(prep: seq<Effect>, fileExt: string, audioPath: string, chunkLength: int,
                         modelName: string, audioLength: nat,
                         recognize: string -> RecognitionResult)
    returns (outcome: RunOutcome, effects: seq<Effect>)
    requires chunkLength != 0
    ensures var chunks := ChunksFor(audioPath, audioLength, chunkLength);
            var segments := Gathered(Results(recognize, PathsOf(chunks)));
            && outcome == Completed(AssembleText(segments), |segments|)
            && effects == CompletedEffects(prep, chunks, modelName,
                                           CleanupTargets(PathsOf(chunks), fileExt, audioPath))
  {
    var chunkPaths, exported := SplitAudio(audioPath, audioLength, chunkLength);
    ghost var chunks := ChunksFor(audioPath, audioLength, chunkLength);
    assert exported == chunks;
    assert chunkPaths == PathsOf(chunks);
    effects := prep + ExportEffects(exported) + [LoadModel(modelName)];
    var segments, calls := TranscribeEach(recognize, chunkPaths);
    effects := effects + TranscribeEffects(calls);
    var removed := Cleanup(chunkPaths, fileExt, audioPath);
    effects := effects + RemoveEffects(removed);
    outcome := Completed(AssembleText(segments), |segments|);
  }

  /** `process_file` with the selected file `selected`, the chunk length field already read
      as the integer `chunkMinutes`, the model name `modelName`, the temporary directory
      `tempDir`, the audio length (ms) of the file at a path `audioLength`, and the recognizer
      `recognize`. */
  method ProcessFile(f: PathFlavor, selected: Option<string>, chunkMinutes: int, modelName: string,
                     tempDir: string, audioLength: string -> nat,
                     recognize: string -> RecognitionResult)
    returns (outcome: RunOutcome, effects: seq<Effect>)
    requires ValidFlavor(f)
    // nothing selected, or a file that is neither audio nor video: nothing at all happens
    ensures selected.None? ==> outcome == NoFileSelected && effects == []
    ensures selected.Some? && KindOf(f, selected.value) == Unsupported ==>
              outcome == UnsupportedFileType && effects == []
    // a chunk length of zero stops the run in split_audio, after any extraction and
    // before any cleanup
    ensures selected.Some? && KindOf(f, selected.value) != Unsupported && chunkMinutes == 0 ==>
              outcome == SplitFailed && effects == PrepEffects(f, selected.value, tempDir)
    // otherwise the run completes
    ensures selected.Some? && KindOf(f, selected.value) != Unsupported && chunkMinutes != 0 ==>
              outcome.Completed?
    ensures outcome.Completed? ==>
              var file := selected.value;
              var audio := AudioPathFor(f, file, tempDir).value;
              var chunks := ChunksFor(audio, audioLength(audio), ChunkLengthMs(chunkMinutes));
              var segments := Gathered(Results(recognize, PathsOf(chunks)));
              && outcome.transcript == AssembleText(segments)
              && outcome.lineCount == |segments|
              && effects == CompletedEffects(PrepEffects(f, file, tempDir), chunks, modelName,
                                             CleanupTargets(PathsOf(chunks), FileExt(f, file), audio))
    // a completed run never deletes the selected file ...
    ensures outcome.Completed? ==>
              forall e :: e in effects && e.Remove? ==> e.path != selected.value
    // ... and deletes every chunk it wrote and the audio it extracted
    ensures outcome.Completed? ==>
              forall e :: e in effects && e.ExportChunk? ==> Remove(e.chunk.path) in effects
    ensures outcome.Completed? ==>
              forall e :: e in effects && e.ExtractAudio? ==> Remove(e.audio) in effects
  {
    if selected.None? {
      return NoFileSelected, [];
    }
    var filePath := selected.value;
    var audioPath, prep := SelectAudio(f, filePath, tempDir);
    if audioPath.None? {
      return UnsupportedFileType, [];
    }
    var chunkLength := ChunkLengthMs(chunkMinutes);
    if chunkLength == 0 {
      return SplitFailed, prep;
    }
    var audio := audioPath.value;
    var fileExt := FileExt(f, filePath);
    outcome, effects :=
      TranscribeAudio(prep, fileExt, audio, chunkLength, modelName, audioLength(audio), recognize);
    CompletedRunSafe(f, filePath, tempDir, audio, ChunksFor(audio, audioLength(audio), chunkLength), modelName);
  }

  /** The removals, exports and extractions of a completed run: the selected file is never
      removed, and every chunk written and the extracted audio are. */
  lemma CompletedRunSafe(f: PathFlavor, filePath: string, tempDir: string, audioPath: string,
                         chunks: seq<Chunk>, modelName: string)
    requires ValidFlavor(f)
    requires AudioPathFor(f, filePath, tempDir) == Some(audioPath)
    requires forall i :: 0 <= i < |chunks| ==> chunks[i].path == ChunkPath(audioPath, i)
    ensures var prep := PrepEffects(f, filePath, tempDir);
            var removed := CleanupTargets(PathsOf(chunks), FileExt(f, filePath), audioPath);
            var effects := CompletedEffects(prep, chunks, modelName, removed);
            && (forall e :: e in effects && e.Remove? ==> e.path != filePath)
            && (forall e :: e in effects && e.ExportChunk? ==> Remove(e.chunk.path) in effects)
            && (forall e :: e in effects && e.ExtractAudio? ==> Remove(e.audio) in effects)
  {
    var prep := PrepEffects(f, filePath, tempDir);
    var chunkPaths := PathsOf(chunks);
    var removed := CleanupTargets(chunkPaths, FileExt(f, filePath), audioPath);
    CompletedRunEffectSources(prep, chunks, modelName, removed);
    TargetsCoverTemporaries(f, filePath, audioPath, chunkPaths, chunks);
    TargetsAvoidSelected(f, filePath, tempDir, audioPath, chunkPaths);
  }

  /** Proof step: `RemovedIsNotSelected` for every cleanup target. */
  lemma TargetsAvoidSelected(f: PathFlavor, filePath: string, tempDir: string, audioPath: string,
                             chunkPaths: seq<string>)
    requires ValidFlavor(f)
    requires AudioPathFor(f, filePath, tempDir) == Some(audioPath)
    requires forall i :: 0 <= i < |chunkPaths| ==> chunkPaths[i] == ChunkPath(audioPath, i)
    ensures forall p :: p in CleanupTargets(chunkPaths, FileExt(f, filePath), audioPath) ==> p != filePath
  {
    forall p | p in CleanupTargets(chunkPaths, FileExt(f, filePath), audioPath) ensures p != filePath {
      RemovedIsNotSelected(f, filePath, tempDir, audioPath, chunkPaths, p);
    }
  }

  /** Which effects of a completed run remove files, export chunks and extract audio: the
      removals are exactly `removed`, the exports exactly `chunks`, the extractions exactly
      those in `prep`. */
  lemma CompletedRunEffects(prep: seq<Effect>, chunks: seq<Chunk>, modelName: string,
                            removed: seq<string>)
    requires forall e :: e in prep ==> e.ExtractAudio?
    ensures var effects := CompletedEffects(prep, chunks, modelName, removed);
            && (forall e :: e in effects && e.Remove? ==> e.path in removed)
            && (forall e :: e in effects && e.ExportChunk? ==> e.chunk in chunks)
            && (forall e :: e in effects && e.ExtractAudio? ==> e in prep)
            && (forall e :: e in prep ==> e in effects)
            && (forall c :: c in chunks ==> ExportChunk(c) in effects)
            && (forall p :: p in removed ==> Remove(p) in effects)
  {
    CompletedRunEffectSources(prep, chunks, modelName, removed);
  }

  /** Proof step: what `CompletedRunSafe` needs of `CompletedRunEffects`. */
  lemma CompletedRunEffectSources(prep: seq<Effect>, chunks: seq<Chunk>, modelName: string,
                                  removed: seq<string>)
    requires forall e :: e in prep ==> e.ExtractAudio?
    ensures var effects := CompletedEffects(prep, chunks, modelName, removed);
            && (forall e :: e in effects && e.Remove? ==> e.path in removed)
            && (forall e :: e in effects && e.ExportChunk? ==> e.chunk in chunks)
            && (forall e :: e in effects && e.ExtractAudio? ==> e in prep)
            && (forall p :: p in removed ==> Remove(p) in effects)
  {
    var effects := CompletedEffects(prep, chunks, modelName, removed);
    assert forall e :: e in effects <==>
      e in prep || e in ExportEffects(chunks) || e == LoadModel(modelName)
      || e in TranscribeEffects(PathsOf(chunks)) || e in RemoveEffects(removed);
  }

  /** Every chunk written is among the cleanup targets, and so is the extracted audio of a
      video. */
  lemma TargetsCoverTemporaries(f: PathFlavor, filePath: string, audioPath: string,
                                chunkPaths: seq<string>, exported: seq<Chunk>)
    requires ValidFlavor(f)
    requires |exported| == |chunkPaths|
    requires forall i :: 0 <= i < |exported| ==> exported[i].path == chunkPaths[i]
    ensures forall c :: c in exported ==> c.path in CleanupTargets(chunkPaths, FileExt(f, filePath), audioPath)
    ensures KindOf(f, filePath) == Video ==> audioPath in CleanupTargets(chunkPaths, FileExt(f, filePath), audioPath)
  {
    var removed := CleanupTargets(chunkPaths, FileExt(f, filePath), audioPath);
    forall c | c in exported ensures c.path in removed {
      var i :| 0 <= i < |exported| && exported[i] == c;
      assert removed[i] == chunkPaths[i];
    }
  }

  /** No cleanup target is the selected file: a chunk path is longer than the audio it was
      cut from, which is the selected file for an audio file; for a video, chunk paths and the
      extracted audio end in `.wav`, which is not a video extension. */
  lemma RemovedIsNotSelected(f: PathFlavor, filePath: string, tempDir: string, audioPath: string,
                             chunkPaths: seq<string>, p: string)
    requires ValidFlavor(f)
    requires AudioPathFor(f, filePath, tempDir) == Some(audioPath)
    requires forall i :: 0 <= i < |chunkPaths| ==> chunkPaths[i] == ChunkPath(audioPath, i)
    requires p in CleanupTargets(chunkPaths, FileExt(f, filePath), audioPath)
    ensures p != filePath
  {
    var kind := KindOf(f, filePath);
    if p in chunkPaths {
      var i :| 0 <= i < |chunkPaths| && chunkPaths[i] == p;
      if kind == Audio {
        ChunkPathLonger(audioPath, i);
      } else {
        ChunkPathIsWav(f, audioPath, i);
      }
    } else {
      assert kind == Video;
      TempAudioPathIsWav(f, tempDir);
    }
  }
}
