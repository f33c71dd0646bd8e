/**
 * What the model gives for the document `Hello`, blank line, `World`, with a
 * service that always answers, and with one that fails on the second line.
 */
module Scenarios {
  import opened PyBytes
  import opened TtsUtils

  const HELLO: seq<byte> := [72, 101, 108, 108, 111]
  const WORLD: seq<byte> := [87, 111, 114, 108, 100]
  const AAA: seq<byte> := [65, 65, 65]
  const BBB: seq<byte> := [66, 66, 66]
  const RATE_LIMITED: SynthesisError := SynthesisError("rate limited")

  /** `Hello\n\nWorld`, as extraction returns it. */
  const DOCUMENT: seq<byte> := HELLO + [LF, LF] + WORLD

  /** A service answering `AAA` for `Hello` and `BBB` for anything else. */
  function Answering(text: seq<byte>): (r: SynthesisResult)
    ensures r.Audio?
  {
    if text == HELLO then Audio(AAA) else Audio(BBB)
  }

  /** A service answering `AAA` for `Hello` and refusing anything else. */
  function RateLimiting(text: seq<byte>): (r: SynthesisResult)
    ensures r == Audio(AAA) <==> text == HELLO
  {
    if text == HELLO then Audio(AAA) else Failed(RATE_LIMITED)
  }

  /** The document is its three lines, each closed by LF, without the last LF. */
  lemma DocumentJoined()
    ensures JoinLines([HELLO, [], WORLD], [LF]) == DOCUMENT + [LF]
  {
    var lines: seq<seq<byte>> := [HELLO, [], WORLD];
    assert JoinLines(lines[2..], [LF]) == WORLD + [LF];
    assert JoinLines(lines[1..], [LF]) == [LF] + WORLD + [LF];
  }

  /** The document has three lines, the middle one empty. */
  lemma DocumentLines()
    ensures SplitLines(DOCUMENT) == [HELLO, [], WORLD]
  {
    var lines: seq<seq<byte>> := [HELLO, [], WORLD];
    DocumentJoined();
    assert NoLineBreak(HELLO) && NoLineBreak(WORLD);
    TrailingBreakAddsNoLine(DOCUMENT, [LF]);
    SplitJoinLines(lines, [LF]);
  }

  /** The document has two chunks, at indices 0 and 2: the blank line keeps its index. */
  lemma DocumentChunks()
    ensures Chunks(SplitLines(DOCUMENT)) == [Chunk(0, HELLO), Chunk(2, WORLD)]
  {
    DocumentLines();
    var lines: seq<seq<byte>> := [HELLO, [], WORLD];
    assert lines[..1][..0] == [];
    assert Chunks(lines[..1]) == [Chunk(0, HELLO)];
    assert lines[..2][..1] == lines[..1];
    assert Chunks(lines[..2]) == [Chunk(0, HELLO)];
    assert lines[..2] == lines[..|lines| - 1];
  }

  /** With every request answered, the output is `AAABBB`. */
  lemma AnsweredRun()
    ensures Pipeline(Answering, Chunks(SplitLines(DOCUMENT))) ==
      Run(AAA + BBB, [Chunk(0, HELLO), Chunk(2, WORLD)], None)
  {
    DocumentChunks();
    var chunks := [Chunk(0, HELLO), Chunk(2, WORLD)];
    PipelineAllSucceed(Answering, chunks);
    assert WORLD != HELLO by { assert WORLD[0] != HELLO[0]; }
    assert chunks[1..][1..] == [];
    assert Concatenation(Answering, chunks[1..]) == BBB;
    assert Concatenation(Answering, chunks) == AAA + BBB;
  }

  /**
   * When `World` is refused, both lines are sent, the output is `AAA`, and the
   * run ends with the service's error: nothing after it is attempted.
   */
  lemma RateLimitedRun()
    ensures Pipeline(RateLimiting, Chunks(SplitLines(DOCUMENT))) ==
      Run(AAA, [Chunk(0, HELLO), Chunk(2, WORLD)], Some(RATE_LIMITED))
  {
    DocumentChunks();
    var chunks := [Chunk(0, HELLO), Chunk(2, WORLD)];
    assert WORLD != HELLO by { assert WORLD[0] != HELLO[0]; }
    assert AllSucceed(RateLimiting, chunks[..1]);
    PipelineFirstFailure(RateLimiting, chunks, 1);
    assert chunks[..1][1..] == [];
    assert Concatenation(RateLimiting, chunks[..1]) == AAA;
    assert chunks[..2] == chunks;
  }

  /**
   * `text_to_mp3` over a file that already holds bytes: they are discarded,
   * `AAA` is written, and the run reports the refusal.
   */
  method RateLimitedFile() returns (content: seq<byte>, error: Option<SynthesisError>)
    ensures content == AAA
    ensures error == Some(RATE_LIMITED)
  {
    var out := new OutputFile(BBB + BBB);
    var calls;
    calls, error := TextToMp3(RateLimiting, DOCUMENT, out);
    RateLimitedRun();
    content := out.content;
  }
}
