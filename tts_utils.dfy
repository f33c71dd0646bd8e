/**
 * The text-to-speech helpers: `text_to_mp3`, which splits extracted text into
 * lines, sends every non-empty line to the synthesis service in order and
 * writes the returned audio, back to back, into one output file; and
 * `list_voices`, which projects the service's voice catalogue onto names.
 *
 * The service is a function from a line to its response. The voice and the
 * audio configuration are the same for every request of a run, so they are
 * part of that function. A failed request raises out of `text_to_mp3`, which
 * catches nothing: the run stops there, and the file keeps what was written.
 */
module TtsUtils {
  import opened PyBytes

  datatype Option<T> = None | Some(value: T)

  /** What the synthesis service reports when a request fails. */
  datatype SynthesisError = SynthesisError(detail: string)

  /** The outcome of one synthesis request: the audio content, or an error. */
  datatype SynthesisResult = Audio(content: seq<byte>) | Failed(error: SynthesisError)

  /** The synthesis client, for the voice and audio configuration of the run. */
  type Synthesizer = seq<byte> -> SynthesisResult

  /** A line sent to synthesis, with its position among all lines, empty ones included. */
  datatype Chunk = Chunk(index: nat, text: seq<byte>)

  // ----- Which lines become chunks -----

  /**
   * The chunks of `lines`, as the `enumerate` loop meets them: every line of
   * non-zero length, tagged with its position in `lines`.
   */
  function Chunks(lines: seq<seq<byte>>): (chunks: seq<Chunk>)
    ensures |chunks| <= |lines|
  {
    if lines == [] then []
    else
      var last := |lines| - 1;
      var init := Chunks(lines[..last]);
      init + if |lines[last]| > 0 then [Chunk(last, lines[last])] else []
  }

  /** Each chunk is the non-empty line at its index. */
  lemma {:induction false} ChunkIsItsLine(lines: seq<seq<byte>>, j: nat)
    requires j < |Chunks(lines)|
    ensures Chunks(lines)[j].index < |lines|
    ensures Chunks(lines)[j].text == lines[Chunks(lines)[j].index]
    ensures |Chunks(lines)[j].text| > 0
  {
    var last := |lines| - 1;
    var init := lines[..last];
    if j < |Chunks(init)| {
      ChunkIsItsLine(init, j);
      assert Chunks(lines)[j] == Chunks(init)[j];
    }
  }

  /**
   * Chunk indices strictly increase, so requests go out in line order; they
   * need not be consecutive, since the positions of empty lines are skipped.
   */
  lemma {:induction false} ChunkIndicesIncrease(lines: seq<seq<byte>>, j: nat, k: nat)
    requires j < k < |Chunks(lines)|
    ensures Chunks(lines)[j].index < Chunks(lines)[k].index
  {
    var last := |lines| - 1;
    var init := lines[..last];
    if k < |Chunks(init)| {
      ChunkIndicesIncrease(init, j, k);
      assert Chunks(lines)[j] == Chunks(init)[j] && Chunks(lines)[k] == Chunks(init)[k];
    } else {
      ChunkIsItsLine(init, j);
      assert Chunks(lines)[j] == Chunks(init)[j];
    }
  }

  /** The lines of non-zero length, in order: a reference definition of what the chunks carry. */
  function NonEmptyLines(lines: seq<seq<byte>>): (r: seq<seq<byte>>)
  {
    if lines == [] then []
    else (if |lines[0]| > 0 then [lines[0]] else []) + NonEmptyLines(lines[1..])
  }

  /** The texts of the chunks, in chunk order. */
  function Texts(chunks: seq<Chunk>): (r: seq<seq<byte>>)
    ensures |r| == |chunks|
    ensures forall j :: 0 <= j < |chunks| ==> r[j] == chunks[j].text
  {
    seq(|chunks|, j requires 0 <= j < |chunks| => chunks[j].text)
  }

  /** Filtering a sequence extended by one line filters the two pieces separately. */
  lemma {:induction false} NonEmptyLinesAppend(lines: seq<seq<byte>>, line: seq<byte>)
    ensures NonEmptyLines(lines + [line]) == NonEmptyLines(lines) + NonEmptyLines([line])
  {
    if lines != [] {
      assert (lines + [line])[1..] == lines[1..] + [line];
      NonEmptyLinesAppend(lines[1..], line);
    } else {
      assert lines + [line] == [line];
    }
  }

  /**
   * The chunks carry exactly the non-empty lines, in their original order: so
   * there are as many chunks due to be sent as there are lines of non-zero
   * length (all of them are sent when every request is answered).
   */
  lemma {:induction false} ChunkTextsAreNonEmptyLines(lines: seq<seq<byte>>)
    ensures Texts(Chunks(lines)) == NonEmptyLines(lines)
  {
    if lines != [] {
      var last := |lines| - 1;
      ChunkTextsAreNonEmptyLines(lines[..last]);
      assert lines == lines[..last] + [lines[last]];
      NonEmptyLinesAppend(lines[..last], lines[last]);
    }
  }

  /**
   * A line becomes a chunk exactly when its length is non-zero; a line of
   * spaces does. Whether the chunk is then sent depends on the requests before
   * it: one refusal ends the run.
   */
  lemma {:induction false} ChunkedIffNonEmpty(lines: seq<seq<byte>>, k: nat)
    requires k < |lines|
    ensures (exists j :: 0 <= j < |Chunks(lines)| && Chunks(lines)[j].index == k) <==> |lines[k]| > 0
  {
    var last := |lines| - 1;
    var init := lines[..last];
    if k < last {
      assert init[k] == lines[k];
      ChunkedIffNonEmpty(init, k);
      if |lines[k]| > 0 {
        var j :| 0 <= j < |Chunks(init)| && Chunks(init)[j].index == k;
        assert Chunks(init) <= Chunks(lines);
        assert Chunks(lines)[j] == Chunks(init)[j];
      } else if j :| 0 <= j < |Chunks(lines)| && Chunks(lines)[j].index == k {
        ChunkIsItsLine(lines, j);
      }
    } else if |lines[k]| > 0 {
      assert Chunks(lines)[|Chunks(init)|].index == k;
    } else if j :| 0 <= j < |Chunks(lines)| && Chunks(lines)[j].index == k {
      ChunkIsItsLine(lines, j);
    }
  }

  /** The chunks of the first `n` lines are the first chunks of all lines. */
  lemma {:induction false} ChunksOfPrefix(lines: seq<seq<byte>>, n: nat)
    requires n <= |lines|
    ensures Chunks(lines[..n]) <= Chunks(lines)
    decreases |lines|
  {
    if n < |lines| {
      var last := |lines| - 1;
      assert lines[..last][..n] == lines[..n];
      ChunksOfPrefix(lines[..last], n);
    } else {
      assert lines[..n] == lines;
    }
  }

  /** The `enumerate` loop's view of line `i`: its chunk, if any, follows those of the lines before. */
  lemma NextLine(lines: seq<seq<byte>>, i: nat)
    requires i < |lines|
    ensures Chunks(lines[..i + 1]) ==
      Chunks(lines[..i]) + if |lines[i]| > 0 then [Chunk(i, lines[i])] else []
  {
    assert lines[..i + 1][..i] == lines[..i];
  }

  // ----- What the synthesis loop produces -----

  /**
   * The state of a run: the bytes written to the output file, the chunks sent
   * to the service in order, and the error that stopped the run, if any.
   */
  datatype Run = Run(audio: seq<byte>, calls: seq<Chunk>, error: Option<SynthesisError>)

  /**
   * One turn of the loop for chunk `c`: a stopped run stays as it is; otherwise
   * `c` is sent, and its audio is appended or its error stops the run.
   */
  function Step(synth: Synthesizer, run: Run, c: Chunk): (r: Run)
  {
    if run.error.Some? then run
    else
      match synth(c.text)
      case Audio(content) => Run(run.audio + content, run.calls + [c], None)
      case Failed(e) => Run(run.audio, run.calls + [c], Some(e))
  }

  /**
   * The run over `chunks`, one request at a time from an empty file: audio is
   * appended after each success, and the first failure ends the run, leaving
   * the chunks after it unattempted.
   */
  function Pipeline(synth: Synthesizer, chunks: seq<Chunk>): (r: Run)
    ensures r.calls <= chunks
    ensures r.error.None? ==> r.calls == chunks
  {
    if chunks == [] then Run([], [], None)
    else Step(synth, Pipeline(synth, chunks[..|chunks| - 1]), chunks[|chunks| - 1])
  }

  /** The run over `chunks` followed by `c` is one more turn after the run over `chunks`. */
  lemma PipelineAppend(synth: Synthesizer, chunks: seq<Chunk>, c: Chunk)
    ensures Pipeline(synth, chunks + [c]) == Step(synth, Pipeline(synth, chunks), c)
  {
    assert (chunks + [c])[..|chunks|] == chunks;
  }

  /** The audio bytes of a response; a failure contributes none. */
  function AudioOf(response: SynthesisResult): (bytes: seq<byte>)
    ensures response.Failed? ==> bytes == []
  {
    match response
    case Audio(content) => content
    case Failed(_) => []
  }

  /** The responses' audio for `chunks`, concatenated in order. */
  function Concatenation(synth: Synthesizer, chunks: seq<Chunk>): (bytes: seq<byte>)
  {
    if chunks == [] then [] else AudioOf(synth(chunks[0].text)) + Concatenation(synth, chunks[1..])
  }

  /** True when the service answers every chunk with audio. */
  predicate AllSucceed(synth: Synthesizer, chunks: seq<Chunk>) {
    forall j :: 0 <= j < |chunks| ==> synth(chunks[j].text).Audio?
  }

  /** The concatenation over `chunks` followed by `c` ends with the audio of `c`. */
  lemma {:induction false} ConcatenationAppend(synth: Synthesizer, chunks: seq<Chunk>, c: Chunk)
    ensures Concatenation(synth, chunks + [c]) == Concatenation(synth, chunks) + AudioOf(synth(c.text))
  {
    if chunks != [] {
      assert (chunks + [c])[1..] == chunks[1..] + [c];
      ConcatenationAppend(synth, chunks[1..], c);
    } else {
      assert chunks + [c] == [c];
    }
  }

  /**
   * When every request succeeds, every chunk is sent once, in order, and the
   * output is the in-order concatenation of the returned audio.
   */
  lemma {:induction false} PipelineAllSucceed(synth: Synthesizer, chunks: seq<Chunk>)
    requires AllSucceed(synth, chunks)
    ensures Pipeline(synth, chunks) == Run(Concatenation(synth, chunks), chunks, None)
  {
    if chunks != [] {
      var init := chunks[..|chunks| - 1];
      var c := chunks[|chunks| - 1];
      assert chunks == init + [c];
      assert AllSucceed(synth, init) by {
        assert forall j :: 0 <= j < |init| ==> init[j] == chunks[j];
      }
      PipelineAllSucceed(synth, init);
      ConcatenationAppend(synth, init, c);
      PipelineAppend(synth, init, c);
      assert synth(c.text).Audio? by { assert c == chunks[|chunks| - 1]; }
    }
  }

  /** Once a run has stopped, later chunks change nothing. */
  lemma {:induction false} PipelineStopped(synth: Synthesizer, chunks: seq<Chunk>, n: nat)
    requires n <= |chunks|
    requires Pipeline(synth, chunks[..n]).error.Some?
    ensures Pipeline(synth, chunks) == Pipeline(synth, chunks[..n])
    decreases |chunks|
  {
    if n < |chunks| {
      var init := chunks[..|chunks| - 1];
      assert init[..n] == chunks[..n];
      PipelineStopped(synth, init, n);
    } else {
      assert chunks[..n] == chunks;
    }
  }

  /** A refusal of chunk `k`, after a run that has not stopped, ends the run with that error. */
  lemma FailureStops(synth: Synthesizer, chunks: seq<Chunk>, k: nat)
    requires k < |chunks|
    requires Pipeline(synth, chunks[..k]).error.None?
    requires synth(chunks[k].text).Failed?
    ensures Pipeline(synth, chunks[..k + 1]) ==
      Run(Pipeline(synth, chunks[..k]).audio, chunks[..k + 1], Some(synth(chunks[k].text).error))
  {
    var done := chunks[..k];
    assert chunks[..k + 1] == done + [chunks[k]];
    PipelineAppend(synth, done, chunks[k]);
  }

  /**
   * When request `k` is the first to fail, chunks 0 to `k` are sent and no
   * later one; the output holds the audio of chunks 0 to `k - 1`, and the error
   * is the one the service reported.
   */
  lemma PipelineFirstFailure(synth: Synthesizer, chunks: seq<Chunk>, k: nat)
    requires k < |chunks|
    requires AllSucceed(synth, chunks[..k])
    requires synth(chunks[k].text).Failed?
    ensures Pipeline(synth, chunks) ==
      Run(Concatenation(synth, chunks[..k]), chunks[..k + 1], Some(synth(chunks[k].text).error))
  {
    var done := chunks[..k];
    PipelineAllSucceed(synth, done);
    FailureStops(synth, chunks, k);
    PipelineStopped(synth, chunks, k + 1);
  }

  /** The audio the service returns for each of `texts`, concatenated in order. */
  function AudioOfTexts(synth: Synthesizer, texts: seq<seq<byte>>): (bytes: seq<byte>)
  {
    if texts == [] then [] else AudioOf(synth(texts[0])) + AudioOfTexts(synth, texts[1..])
  }

  /** The concatenation over chunks is the audio of their texts, in the same order. */
  lemma {:induction false} ConcatenationOfTexts(synth: Synthesizer, chunks: seq<Chunk>)
    ensures Concatenation(synth, chunks) == AudioOfTexts(synth, Texts(chunks))
  {
    if chunks != [] {
      assert Texts(chunks)[1..] == Texts(chunks[1..]);
      ConcatenationOfTexts(synth, chunks[1..]);
    }
  }

  /**
   * When every request is answered, the output is the audio of the non-empty
   * lines, concatenated in line order, and there is one request per non-empty line.
   */
  lemma OutputOfNonEmptyLines(synth: Synthesizer, lines: seq<seq<byte>>)
    requires AllSucceed(synth, Chunks(lines))
    ensures Pipeline(synth, Chunks(lines)).audio == AudioOfTexts(synth, NonEmptyLines(lines))
    ensures |Pipeline(synth, Chunks(lines)).calls| == |NonEmptyLines(lines)|
    ensures Pipeline(synth, Chunks(lines)).error == None
  {
    PipelineAllSucceed(synth, Chunks(lines));
    ConcatenationOfTexts(synth, Chunks(lines));
    ChunkTextsAreNonEmptyLines(lines);
  }

  /** Lines that are all empty, as those of the empty text, cause no request and no output. */
  lemma NothingToSynthesise(synth: Synthesizer, lines: seq<seq<byte>>)
    requires forall k :: 0 <= k < |lines| ==> |lines[k]| == 0
    ensures Chunks(lines) == []
    ensures Pipeline(synth, Chunks(lines)) == Run([], [], None)
  {
    if Chunks(lines) != [] {
      ChunkIsItsLine(lines, 0);
    }
  }

  /** The run over the first `i + 1` lines is one loop turn after that over the first `i`. */
  lemma RunAfterLine(synth: Synthesizer, lines: seq<seq<byte>>, i: nat)
    requires i < |lines|
    ensures Pipeline(synth, Chunks(lines[..i + 1])) ==
      if |lines[i]| > 0 then Step(synth, Pipeline(synth, Chunks(lines[..i])), Chunk(i, lines[i]))
      else Pipeline(synth, Chunks(lines[..i]))
  {
    NextLine(lines, i);
    if |lines[i]| > 0 {
      PipelineAppend(synth, Chunks(lines[..i]), Chunk(i, lines[i]));
    } else {
      assert Chunks(lines[..i]) + [] == Chunks(lines[..i]);
    }
  }

  /** A run that stopped within a prefix of `chunks` is the run over all of `chunks`. */
  lemma StoppedRunIsFinal(synth: Synthesizer, prefix: seq<Chunk>, chunks: seq<Chunk>)
    requires prefix <= chunks
    requires Pipeline(synth, prefix).error.Some?
    ensures Pipeline(synth, chunks) == Pipeline(synth, prefix)
  {
    assert chunks[..|prefix|] == prefix;
    PipelineStopped(synth, chunks, |prefix|);
  }

  /** The run over all lines is that over the first `n` lines when it stopped there. */
  lemma StoppedAtLine(synth: Synthesizer, lines: seq<seq<byte>>, n: nat)
    requires n <= |lines|
    requires Pipeline(synth, Chunks(lines[..n])).error.Some?
    ensures Pipeline(synth, Chunks(lines)) == Pipeline(synth, Chunks(lines[..n]))
  {
    ChunksOfPrefix(lines, n);
    StoppedRunIsFinal(synth, Chunks(lines[..n]), Chunks(lines));
  }

  /**
   * The loop turn for line `i`, given the run over the lines before it: an
   * empty line changes nothing, an answered line appends its audio, and a
   * refused line ends the run over all lines.
   */
  lemma LoopTurn(synth: Synthesizer, lines: seq<seq<byte>>, i: nat, audio: seq<byte>, calls: seq<Chunk>)
    requires i < |lines|
    requires Run(audio, calls, None) == Pipeline(synth, Chunks(lines[..i]))
    ensures |lines[i]| == 0 ==>
      Run(audio, calls, None) == Pipeline(synth, Chunks(lines[..i + 1]))
    ensures |lines[i]| > 0 && synth(lines[i]).Audio? ==>
      Run(audio + synth(lines[i]).content, calls + [Chunk(i, lines[i])], None) ==
      Pipeline(synth, Chunks(lines[..i + 1]))
    ensures |lines[i]| > 0 && synth(lines[i]).Failed? ==>
      Run(audio, calls + [Chunk(i, lines[i])], Some(synth(lines[i]).error)) ==
      Pipeline(synth, Chunks(lines))
  {
    RunAfterLine(synth, lines, i);
    if |lines[i]| > 0 && synth(lines[i]).Failed? {
      StoppedAtLine(synth, lines, i + 1);
    }
  }

  // ----- The output file and the loop of `text_to_mp3` -----

  /** The destination file, as the bytes it holds. */
  class OutputFile {
    var content: seq<byte>

    /** A file that already holds `existing`. */
    constructor (existing: seq<byte>)
      ensures content == existing
    {
      content := existing;
    }

    /** `open(file_dest, 'wb')`: whatever the file held is discarded. */
    method OpenForWriting()
      modifies this
      ensures content == []
    {
      content := [];
    }

    /** `out.write(data)`: appends at the end. */
    method Write(data: seq<byte>)
      modifies this
      ensures content == old(content) + data
    {
      content := content + data;
    }
  }

  /**
   * `text_to_mp3`: the file ends up holding the audio of the run over the
   * chunks of `text.splitlines()`, whatever it held before; `calls` are the
   * requests made, in order, and `error` the failure that aborted the run.
   */
  method TextToMp3(synth: Synthesizer, text: seq<byte>, out: OutputFile)
    returns (calls: seq<Chunk>, error: Option<SynthesisError>)
    modifies out
    ensures Run(out.content, calls, error) == Pipeline(synth, Chunks(SplitLines(text)))
  {
    // Bound by `:|` rather than `:=`, so that the verifier treats `lines` as a
    // name and does not unfold `SplitLines(text)` at every use.
    var lines :| lines == SplitLines(text);
    out.OpenForWriting();
    calls, error := [], None;
    var i := 0;
    while i < |lines|
      invariant 0 <= i <= |lines|
      invariant error == None
      invariant Run(out.content, calls, None) == Pipeline(synth, Chunks(lines[..i]))
    {
      var chunk := lines[i];
      LoopTurn(synth, lines, i, out.content, calls);
      if |chunk| > 0 {
        var response := synth(chunk);
        calls := calls + [Chunk(i, chunk)];
        if response.Failed? {
          error := Some(response.error);
          return;
        }
        out.Write(response.content);
      }
      i := i + 1;
    }
    assert lines[..i] == lines;
  }

  // ----- `list_voices` -----

  /** One entry of the service's voice catalogue, as far as `list_voices` reads it. */
  datatype Voice = Voice(name: string)

  /** `list_voices`: the names of the catalogue's voices, in catalogue order. */
  function ListVoices(voices: seq<Voice>): (names: seq<string>)
    ensures |names| == |voices|
    ensures forall j :: 0 <= j < |voices| ==> names[j] == voices[j].name
  {
    seq(|voices|, j requires 0 <= j < |voices| => voices[j].name)
  }

  /** A name is listed exactly when some voice of the catalogue has it. */
  lemma ListedIffInCatalogue(voices: seq<Voice>, name: string)
    ensures name in ListVoices(voices) <==> exists j :: 0 <= j < |voices| && voices[j].name == name
  {
    var names := ListVoices(voices);
    if name in names {
      var j :| 0 <= j < |names| && names[j] == name;
      assert voices[j].name == name;
    }
  }
}
