# Stem-separation demo: the audio processor

`AudioProcessor` is the business logic behind the demo's `separate` command.
It does three things:

- **Validates an input path.** The path must exist and be a regular file, and
  its extension, lower-cased, must be one of `.mp3`, `.wav`, `.flac`, `.ogg`
  and `.m4a`. The result is a pair: a flag and a message, where the message is
  empty exactly when the file is valid.
- **Simulates separation.** It runs seven fixed processing steps, calls a
  progress callback once per step with the step's description and the
  fraction of steps done, and in the last step names four output files
  (vocals, drums, bass, other) next to the input.
- **Lists the supported formats** in ascending order.

The model has three modules:

- `PyStr` (`pystr.dfy`): the Python string operations the processor relies on.
  These are `lower`, `rfind`, `split`, `join`, string ordering, and `sorted`
  applied to a set of strings.
- `PurePaths` (`purepath.dfy`): the POSIX `pathlib` behaviour it relies on.
  This covers parsing a path, printing it back with `str`, `name`, `parent`,
  `suffix`, `stem` and the `/` operator.
- `Processor` (`processor.dfy`): the processor itself.
  - Validation is a pure function of the path and of what the filesystem
    reports (`FileKind`).
  - `process_audio` is a method with the source's loop. Its callback
    becomes the returned trace of calls, and its fractions are exact
    rationals.

The output paths always sit in the input's own directory (`path.parent`,
stem_demo/core/processor.py:116). The command line promises otherwise when an
output directory is given: the `--output-dir` option is documented as the
output directory for the stems (stem_demo/cli/separate.py:31) and used so in
the usage example (stem_demo/cli/separate.py:52). But the option is only
echoed (stem_demo/cli/separate.py:66-67) and never passed to the processor
(stem_demo/cli/separate.py:113), whose `process_audio` has no parameter for
it. The model follows the processor: the output directory is always the
input's parent.

## Model

| member | source | states |
|---|---|---|
| Processor.Validate | stem_demo/core/processor.py:35-69 | A missing path gives "File not found: <path>". An existing non-file gives "Path is not a file: <path>". A regular file with an unsupported suffix gives the unsupported-extension message for the suffix as written. The result is valid exactly when its message is empty. |
| Processor.ValidIffEndsInSupportedExtension | stem_demo/core/processor.py:50-69 | Validation succeeds if and only if the path is an existing regular file whose name, lower-cased, ends with a supported extension preceded by at least one character. |
| Processor.NoSuffixRejected | stem_demo/core/processor.py:60-67 | A regular file with no suffix is rejected, and the message names an empty extension. |
| Processor.UpperCaseAccepted | stem_demo/core/processor.py:61 | `SONG.MP3` is accepted: the comparison is case-insensitive. |
| Processor.NamesWithoutSuffixRejected | stem_demo/core/processor.py:61 | `song` is rejected (no dot). `.mp3` is rejected (a leading dot is not a suffix). `song.` is rejected (a trailing dot is not a suffix). |
| Processor.TextFileRejected | stem_demo/core/processor.py:60-67 | `notes.txt` is rejected with the full message: the extension `.txt`, a newline, then `Supported formats: .flac, .m4a, .mp3, .ogg, .wav`. |
| Processor.UnsupportedMessageText | stem_demo/core/processor.py:62-67 | The unsupported-extension message for any suffix is the suffix, then the sorted formats joined by ", ". |
| Processor.SupportedFormatsJoined | stem_demo/core/processor.py:62 | The supported extensions, sorted and joined by ", ", read `.flac, .m4a, .mp3, .ogg, .wav`. |
| Processor.SupportedFormatsSorted | stem_demo/core/processor.py:123-134 | The supported formats are exactly the supported extensions, each once, in strictly ascending order. |
| Processor.SupportedFormatsListed | stem_demo/core/processor.py:20 | The supported formats are `.flac`, `.m4a`, `.mp3`, `.ogg`, `.wav`, in that order. |
| Processor.ProcessAudio | stem_demo/core/processor.py:71-121 | The callback is called once per processing step, in order, with the step's description and the fraction `(k+1)/7`. The fractions lie in (0, 1], strictly increase, and end at exactly 1. Four stem paths are returned, one per stem name in order, each being `parent / (stem + "_" + stem name + suffix)` of the input. |
| Processor.StemPathShape | stem_demo/core/processor.py:114-117 | Each output path has the input's parent as its parent, and `<stem>_<stem name><suffix>` of the input as its name. When the input has a suffix, the output keeps that suffix and its stem is the input's stem followed by `_<stem name>`. |
| Processor.KeepsSuffix | stem_demo/core/processor.py:116 | For an input name with a suffix, the output file name `<stem>_<stem name><suffix>` has the same suffix, and its stem is the input's stem followed by `_<stem name>`. |
| Processor.TrailingDotOutput | stem_demo/core/processor.py:116 | An input without a suffix does not always give outputs without one. For `song.` (a trailing dot is not a suffix), the vocals output is named `song._vocals`, and its suffix is `._vocals`. So the condition "when the input has a suffix" in `StemPathShape` is needed. |
| Processor.StemPathOfBareName | stem_demo/core/processor.py:116-117 | For an input that is a bare file name, the output path is the output file name alone, with no `./` in front. |
| Processor.ValidInputGivesValidOutputs | stem_demo/core/processor.py:114-117 | Every output path of a valid input would itself pass validation as a regular file. |
| PurePaths.ParseWellFormed | stem_demo/core/processor.py:50 | Parsing any text yields a root of "", "/" or "//", and components that are non-empty, not "." and free of "/". |
| PurePaths.ParseToString | stem_demo/core/processor.py:117 | Printing a well-formed path and parsing the text back gives the same path. |
| PurePaths.JoinComponent | stem_demo/core/processor.py:116 | `p / c`, for a single component `c`, is well formed, has name `c` and has parent `p`. |
| PurePaths.NameAndParent | stem_demo/core/processor.py:116 | The name of a well-formed path holds no separator, and its parent is well formed. |
| PurePaths.SuffixShape | stem_demo/core/processor.py:61 | `stem + suffix` is the name. A suffix is empty, or it is a dot followed by at least one non-dot character after a non-empty stem. |
| PurePaths.SuffixAt | stem_demo/core/processor.py:61 | The last dot of a name, when it is neither the first nor the last character, starts the suffix and ends the stem. |
| PyStr.SortedSpec | stem_demo/core/processor.py:134 | `sorted` of a set holds every element once, nothing else, in strictly ascending order. |
| PyStr.IncreasingUnique | stem_demo/core/processor.py:134 | Two strictly ascending sequences with the same elements are equal, so the sorted order is unique. |
| PyStr.JoinSplit | stem_demo/core/processor.py:117 | Joining the pieces of a split with the same separator gives back the string. |
| PyStr.SplitJoin | stem_demo/core/processor.py:117 | Splitting a join of separator-free pieces gives back the pieces. |
| PyStr.RFind | stem_demo/core/processor.py:61 | `rfind` returns -1 or an index holding the character, and no occurrence lies after it. |
| PyStr.LessTransitive | stem_demo/core/processor.py:134 | String order is transitive. |
| PyStr.LessTotal | stem_demo/core/processor.py:134 | Any two distinct strings are ordered one way or the other. |

## Left out

- The `duration` entry of `process_audio`'s result, `time.time()` and `time.sleep(0.5)`. These are clock readings and delays; the model returns only the stems.
- Processor.Validate: models only the boolean answers of `path.exists()` and `path.is_file()` (stem_demo/core/processor.py:53, 57), as the `FileKind` argument. Both calls re-raise any operating-system error other than "no such file", "not a directory", "bad file descriptor" and "too many symbolic links". One example is a permission error when a directory on the path cannot be searched. `validate_audio_file` then raises instead of returning a pair, and its caller (stem_demo/cli/separate.py:70) does not catch it. `Validate` is total and has no outcome for this case.
- The filesystem itself. When neither call raises, `path.exists()` and `path.is_file()` become the `FileKind` argument of `Validate`, which is one consistent answer to both queries. `process_audio` does not touch the filesystem.
- The progress callback as code: it becomes the returned sequence of its calls. Anything the callback does, and any exception it raises, is not modelled.
- Floating point: the fractions are exact rationals `(i+1)/7`. A binary double for 1/7 and its rounding are not modelled.
- PyStr.Lower: maps only the ASCII letters. Python's full Unicode case mapping is not modelled. That mapping also sends some non-ASCII characters to ASCII letters: U+212A KELVIN SIGN becomes `k`, and U+0130 becomes `i` followed by U+0307. The validity verdict is still the same, because no supported extension contains `k` or `i`, so no suffix that such a character turns into ASCII can become a supported extension. Only the lower-cased text is not modelled, and `Validate` never shows it, since its message quotes the suffix as written.
- Windows paths: only POSIX `pathlib` parsing (`PurePosixPath`) is modelled.
- PurePaths.Suffix: follows Python 3.10–3.13, where a trailing dot is not a suffix. The project requires Python 3.10 or later.
- The command-line layer (stem_demo/cli/separate.py, stem_demo/cli/main.py), terminal rendering (stem_demo/utils/console.py) and packaging (setup.py). None of them is part of this model.
- `AudioProcessor.__init__`: it does nothing, and the processor has no state, so the model has no class.
