# doc2audiobook, modelled in Dafny

doc2audiobook turns a document into one MP3 file. It extracts the document's
text, splits the text into lines and sends each non-empty line to Google Cloud
Text-to-Speech. The audio it gets back for each line is appended to the output
file, in line order. This model covers the project's deterministic logic:

- `text_to_mp3` (`lib/tts_utils.py`). Python's `bytes.splitlines()` becomes
  `PyBytes.SplitLines`. The rule that skips zero-length lines becomes
  `TtsUtils.Chunks`. The synthesis loop becomes the method `TtsUtils.TextToMp3`,
  which appends to a `TtsUtils.OutputFile` object. `TtsUtils.Pipeline` is the
  functional description of the loop that the method is proved against.
- `list_voices` (`lib/tts_utils.py`), as `TtsUtils.ListVoices`, which projects
  the voice catalogue onto voice names.
- The language code the driver script derives from the voice name
  (`doc2audiobook.py`), as `Doc2Audiobook.LanguageTag`. It is built on
  `PyStr.Split` and `PyStr.Join`, which model `str.split` and `str.join` for a
  one-character separator.

The synthesis client is modelled as the function `Synthesizer`. It maps a line
to either `Audio(content)` or `Failed(error)`. The voice and the audio
configuration are the same for every request of a run, so they are part of
that function. `text_to_mp3` has no error handling: a failed request raises out
of the loop, and nothing records the failed line or moves on to the next one.
The model therefore stops at the first failure. The bytes already written stay
in the file, and no later line is sent.

`textract.process` returns bytes, so the text is a `seq<byte>`. A line ends at
LF, at CR, or at the pair CR LF. The module `Scenarios` proves what the model
gives for the document `Hello`, blank line, `World`, with one service that
answers every request and one that refuses the second line.

## Model

| member | source | states |
|---|---|---|
| PyBytes.LineLength | lib/tts_utils.py:11 | the first line of the bytes ends at the first LF or CR, or at the end of the input when there is none |
| PyBytes.SplitFirstLine | lib/tts_utils.py:11 | a line closed by LF, CR or CR LF is split off whole, and CR LF counts as one break, not two |
| PyBytes.SplitLines | lib/tts_utils.py:11 | `splitlines()` gives no lines exactly for the empty input |
| PyBytes.SplitLinesHaveNoBreak | lib/tts_utils.py:11 | no line returned by `splitlines()` contains LF or CR |
| PyBytes.SplitJoinLines | lib/tts_utils.py:11 | splitting break-free lines that were each closed by one and the same terminator (LF, CR or CR LF) gives exactly those lines back: none lost, none added |
| PyBytes.TrailingBreakAddsNoLine | lib/tts_utils.py:11 | a line break appended after a non-empty text whose last byte is not a line break adds no empty line |
| PyStr.Join | doc2audiobook.py:19 | no contract of its own: that it undoes `Split`, and how many separators it puts in, is stated by `JoinSplit`, `SplitJoin`, `JoinAppend` and `JoinCount` |
| PyStr.Split | doc2audiobook.py:19 | `str.split('-')` gives at least one part, and no part contains `-` |
| PyStr.SplitCount | doc2audiobook.py:19 | `split` gives one more part than the string has separators |
| PyStr.JoinSplit | doc2audiobook.py:19 | joining the parts of a split with the same separator gives the string back |
| PyStr.SplitJoin | doc2audiobook.py:19 | splitting a join of a non-empty list of separator-free parts gives the parts back (the empty list joins to `""`, which splits into `[""]`) |
| PyStr.JoinAppend | doc2audiobook.py:19 | joining two non-empty runs of parts puts a single separator between their joins |
| PyStr.JoinCount | doc2audiobook.py:19 | a join of n ≥ 1 separator-free parts contains n - 1 separators |
| Doc2Audiobook.FirstTwo | doc2audiobook.py:19 | the slice `[0:2]` is a prefix holding two items, or all of them when there are fewer |
| Doc2Audiobook.LanguageTag | doc2audiobook.py:19 | no contract of its own: the expression `'-'.join(v.split('-')[0:2])`, whose properties are stated by the `LanguageTag…` lemmas below |
| Doc2Audiobook.LanguageTagSegments | doc2audiobook.py:19 | the segments of the tag are the first two `-`-separated segments of the voice name |
| Doc2Audiobook.LanguageTagIsPrefix | doc2audiobook.py:19 | the tag is a prefix of the voice name |
| Doc2Audiobook.LanguageTagDashes | doc2audiobook.py:19 | the tag contains at most one `-` |
| Doc2Audiobook.LanguageTagIdentity | doc2audiobook.py:19 | the tag equals the voice name if and only if the name has at most one `-` |
| Doc2Audiobook.LanguageTagWithoutDash | doc2audiobook.py:19 | a name without `-`, the empty name included, is its own tag |
| Doc2Audiobook.LanguageTagIdempotent | doc2audiobook.py:19 | deriving the tag of a tag changes nothing |
| Doc2Audiobook.LanguageTagOfSegments | doc2audiobook.py:19 | a name made of dash-free segments `language`, `region`, and more is tagged `language-region` |
| Doc2Audiobook.UseVoiceLanguage | doc2audiobook.py:18-19 | the voice `en-US-Wavenet-F` is spoken in `en-US` |
| TtsUtils.Chunks | lib/tts_utils.py:13-15 | at most one chunk per line; which lines become chunks, with which index and text, is stated by `ChunkIsItsLine`, `ChunkIndicesIncrease`, `ChunkedIffNonEmpty` and `ChunkTextsAreNonEmptyLines` |
| TtsUtils.ChunkIsItsLine | lib/tts_utils.py:13-15 | every chunk is the non-empty line at its index, counting all lines |
| TtsUtils.ChunkIndicesIncrease | lib/tts_utils.py:13 | chunk indices strictly increase; since the requests made are a prefix of the chunks (`Pipeline`), lines are sent in their original order |
| TtsUtils.ChunkedIffNonEmpty | lib/tts_utils.py:13-15 | line k becomes a chunk if and only if its length is non-zero (a line of spaces does); when every request is answered, the requests are exactly the chunks (`PipelineAllSucceed`), while a refusal leaves the later chunks unsent (`PipelineFirstFailure`) |
| TtsUtils.ChunkTextsAreNonEmptyLines | lib/tts_utils.py:13-15 | the chunk texts are exactly the non-empty lines, in order |
| TtsUtils.ChunksOfPrefix | lib/tts_utils.py:13 | the chunks of the first n lines are the first chunks of all lines |
| TtsUtils.Step | lib/tts_utils.py:15-21 | no contract of its own: one loop turn (send the line, then append its audio or stop with the error); `LoopTurn` states the turn against `Pipeline` |
| TtsUtils.Pipeline | lib/tts_utils.py:13-21 | the chunks sent are a prefix of all chunks, and all of them when no request failed |
| TtsUtils.PipelineAllSucceed | lib/tts_utils.py:13-21 | when every request is answered, every chunk is sent once, in order, and the output is the in-order concatenation of the audio |
| TtsUtils.OutputOfNonEmptyLines | lib/tts_utils.py:13-21 | when every request is answered, the output is the audio of the non-empty lines in line order, with one request per non-empty line |
| TtsUtils.NothingToSynthesise | lib/tts_utils.py:12-15 | text whose lines are all empty, such as the empty text, causes no request and leaves the file empty |
| TtsUtils.PipelineStopped | lib/tts_utils.py:19 | once a request has failed, the later chunks change nothing |
| TtsUtils.PipelineFirstFailure | lib/tts_utils.py:19-21 | when request k is the first to fail, chunks 0..k are sent and no later one, the file holds the audio of chunks 0..k-1, and the error is the one the service reported |
| TtsUtils.LoopTurn | lib/tts_utils.py:13-21 | one loop turn: an empty line changes nothing, an answered line appends its audio, a refused line ends the whole run |
| TtsUtils.OutputFile.OpenForWriting | lib/tts_utils.py:12 | opening with `'wb'` empties the file, whatever it held |
| TtsUtils.OutputFile.Write | lib/tts_utils.py:21 | `out.write` appends the audio at the end of the file |
| TtsUtils.TextToMp3 | lib/tts_utils.py:10-22 | after the call, the file's bytes, the requests made and the error that aborted the loop are exactly those of `Pipeline` over the chunks of `text.splitlines()` |
| TtsUtils.ListVoices | lib/tts_utils.py:25-30 | the result has as many names as the catalogue has voices, in catalogue order, and name j is the name of voice j |
| TtsUtils.ListedIffInCatalogue | lib/tts_utils.py:30 | a name is listed if and only if some voice of the catalogue has it |
| Scenarios.DocumentLines | lib/tts_utils.py:11 | `Hello\n\nWorld` splits into `Hello`, an empty line and `World` |
| Scenarios.DocumentChunks | lib/tts_utils.py:13-16 | its chunks are `Hello` at index 0 and `World` at index 2: the blank line keeps its index |
| Scenarios.AnsweredRun | lib/tts_utils.py:13-21 | with every request answered, the file holds the two audio answers in line order |
| Scenarios.RateLimitedRun | lib/tts_utils.py:19-21 | when `World` is refused, both lines are sent, the file holds the audio of `Hello` only, and the run ends with the service's error |
| Scenarios.RateLimitedFile | lib/tts_utils.py:10-22 | running `text_to_mp3` into a file that already holds bytes discards them, leaves the audio of `Hello`, and reports the refusal |

## Left out

- The Google Cloud client, its construction, `SynthesisInput`, `VoiceSelectionParams` and `AudioConfig`. These are foreign library calls. The model has the abstract `Synthesizer` function instead, with the voice and audio configuration folded into it.
- The remote call `client.list_voices()`. `ListVoices` takes the catalogue it returns as a parameter. `Voice` keeps only the name, the one field `list_voices` reads.
- `textract.process` document extraction. It is an external library, so the extracted bytes are an input to `TextToMp3`.
- The filesystem: choosing the first file under `/data/input`, the fixed output path, and real file handles. The output file is an in-memory object holding bytes, and the `with` block's closing is not modelled.
- All logging (`lib/logging.py` and the `logger.info` calls). It is side-channel output with no effect on the result.
- The driver script's top-level sequencing (`doc2audiobook.py` lines 11-37). It only wires the calls together, and `use_voice` is the constant `USE_VOICE`.
- Whether the concatenated bytes form a playable MP3. That depends on the audio format, not on the repository's logic.
- `SplitLines` models `bytes.splitlines()`, which breaks only at LF, CR and CR LF. `str.splitlines()` also breaks at further characters; that version is not modelled, because the extracted text is bytes.
- A record of failed lines, and moving on to the next line after a failed request: `text_to_mp3` does neither, so the model has neither and aborts at the first failure.
- `Synthesizer` is a fixed function of the line's text, so two identical lines always get the same answer. A service whose answer depends on time or on earlier requests, such as a rate limit reached part-way through a run that refuses a line it answered before, is not expressed.
- An exception raised other than by `synthesize_speech` (for example by `open` or `write`) is not modelled: the file operations always succeed.
