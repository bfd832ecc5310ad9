/**
 * The audio processor of the stem-separation demo: it checks that an input
 * file exists, is a regular file and has a supported audio extension; it runs
 * the fixed list of simulated processing steps, reporting progress to a
 * callback after each one, and names the four stem files it would write; and
 * it lists the supported formats.
 *
 * The two filesystem queries are an input (`FileKind`), and the progress
 * callback is the trace of the calls it receives.
 */
module Processor {
  import opened PyStr
  import opened PurePaths

  /** The file extensions accepted as audio, lower case and with their dot. */
  const SupportedExtensions: set<string> := {".mp3", ".wav", ".flac", ".ogg", ".m4a"}

  /** The simulated processing steps, in the order they run. */
  const ProcessingSteps: seq<string> := [
    "Loading audio file",
    "Analyzing frequency spectrum",
    "Separating vocals",
    "Separating drums",
    "Separating bass",
    "Separating other instruments",
    "Writing output files"
  ]

  /** The stems written at the end of processing, in order. */
  const StemNames: seq<string> := ["vocals", "drums", "bass", "other"]

  /**
   * What the filesystem reports for a path: `exists()` is false (Missing),
   * `exists()` is true but `is_file()` is false (NotAFile), or both are true.
   */
  datatype FileKind = Missing | NotAFile | RegularFile

  /** The `(is_valid, error_message)` pair returned by validation. */
  datatype Validation = Validation(isValid: bool, message: string)

  /** One call of the progress callback: the step's description and the fraction done. */
  datatype ProgressEvent = ProgressEvent(description: string, fraction: real)

  // ---------------------------------------------------------------------------
  // Supported formats

  /** `get_supported_formats()`. */
  function GetSupportedFormats(): seq<string>
  {
    Sorted(SupportedExtensions)
  }

  /** The supported formats are the supported extensions, each once, in ascending order. */
  lemma SupportedFormatsSorted()
    ensures |GetSupportedFormats()| == |SupportedExtensions|
    ensures forall x :: x in GetSupportedFormats() <==> x in SupportedExtensions
    ensures Increasing(GetSupportedFormats())
  {
    SortedSpec(SupportedExtensions);
  }

  /** The supported formats, written out in the order they are listed. */
  lemma SupportedFormatsListed()
    ensures GetSupportedFormats() == [".flac", ".m4a", ".mp3", ".ogg", ".wav"]
  {
    var listed := [".flac", ".m4a", ".mp3", ".ogg", ".wav"];
    assert Less(".flac", ".m4a") by { assert Less("flac", "m4a"); }
    assert Less(".m4a", ".mp3") by { assert Less("m4a", "mp3") by { assert Less("4a", "p3"); } }
    assert Less(".mp3", ".ogg") by { assert Less("mp3", "ogg"); }
    assert Less(".ogg", ".wav") by { assert Less("ogg", "wav"); }
    forall i, j | 0 <= i < j < |listed|
      ensures Less(listed[i], listed[j])
    {
      if j > i + 1 {
        OrderedChain(listed, i, j);
      }
    }
    SupportedFormatsSorted();
    IncreasingUnique(GetSupportedFormats(), listed);
  }

  lemma {:induction false} OrderedChain(s: seq<string>, i: nat, j: nat)
    requires i < j < |s|
    requires forall k :: 0 <= k < |s| - 1 ==> Less(s[k], s[k + 1])
    ensures Less(s[i], s[j])
    decreases j - i
  {
    if j > i + 1 {
      OrderedChain(s, i, j - 1);
      LessTransitive(s[i], s[j - 1], s[j]);
    }
  }

  // ---------------------------------------------------------------------------
  // Validation

  /** The message for an unsupported extension: the extension as written, then the sorted list. */
  function UnsupportedMessage(suffix: string): string
  {
    "Unsupported file extension: " + suffix + "\n"
    + "Supported formats: " + Join(GetSupportedFormats(), ", ")
  }

  /** The complete text of the unsupported-extension message. */
  lemma UnsupportedMessageText(suffix: string)
    ensures UnsupportedMessage(suffix)
      == "Unsupported file extension: " + suffix + "\n" + "Supported formats: " + ".flac, .m4a, .mp3, .ogg, .wav"
  {
    SupportedFormatsJoined();
  }

  /** The comma-joined list that the unsupported-extension message ends with. */
  lemma SupportedFormatsJoined()
    ensures Join(GetSupportedFormats(), ", ") == ".flac, .m4a, .mp3, .ogg, .wav"
  {
    SupportedFormatsListed();
    ListedFormatsJoined();
  }

  lemma ListedFormatsJoined()
    ensures Join([".flac", ".m4a", ".mp3", ".ogg", ".wav"], ", ") == ".flac, .m4a, .mp3, .ogg, .wav"
  {
  }

  /**
   * `validate_audio_file(file_path)`: a missing path is reported first, then
   * a path that is not a regular file, then an extension whose lower-case
   * form is not supported; only then is the file valid, with an empty
   * message.
   */
  function Validate(filePath: string, kind: FileKind): (r: Validation)
    ensures kind == Missing ==> r == Validation(false, "File not found: " + filePath)
    ensures kind == NotAFile ==> r == Validation(false, "Path is not a file: " + filePath)
    ensures kind == RegularFile && !r.isValid
      ==> r.message == UnsupportedMessage(Suffix(Name(Parse(filePath))))
    ensures r.isValid <==> r.message == ""
  {
    var path := Parse(filePath);
    if kind == Missing then
      Validation(false, "File not found: " + filePath)
    else if kind == NotAFile then
      Validation(false, "Path is not a file: " + filePath)
    else if Lower(Suffix(Name(path))) !in SupportedExtensions then
      Validation(false, UnsupportedMessage(Suffix(Name(path))))
    else
      Validation(true, "")
  }

  /**
   * The extension rule as a reader would state it: the lower-cased name ends
   * with a supported extension and something comes before it.
   */
  predicate EndsInSupportedExtension(name: string)
  {
    exists ext :: ext in SupportedExtensions && |ext| < |name| && Lower(name)[|name| - |ext|..] == ext
  }

  lemma ExtensionShapes()
    ensures forall ext :: ext in SupportedExtensions ==> |ext| >= 2 && ext[0] == '.' && '.' !in ext[1..]
  {
  }

  /** Membership of the lower-cased suffix is exactly "ends in a supported extension". */
  lemma SupportedSuffixIffEnds(name: string)
    ensures Lower(Suffix(name)) in SupportedExtensions <==> EndsInSupportedExtension(name)
  {
    if Lower(Suffix(name)) in SupportedExtensions {
      SupportedSuffixEnds(name);
    }
    if EndsInSupportedExtension(name) {
      var ext :| ext in SupportedExtensions && |ext| < |name| && Lower(name)[|name| - |ext|..] == ext;
      EndingIsSuffix(name, ext);
    }
  }

  lemma SupportedSuffixEnds(name: string)
    requires Lower(Suffix(name)) in SupportedExtensions
    ensures EndsInSupportedExtension(name)
  {
    ExtensionShapes();
    SuffixShape(name);
    var suffix := Suffix(name);
    var ext := Lower(suffix);
    LowerTail(name, |name| - |suffix|);
    assert name[|name| - |suffix|..] == suffix;
    assert Lower(name)[|name| - |ext|..] == ext;
  }

  /** A supported extension that ends the lower-cased name, after something, is its lower-cased suffix. */
  lemma EndingIsSuffix(name: string, ext: string)
    requires ext in SupportedExtensions && |ext| < |name| && Lower(name)[|name| - |ext|..] == ext
    ensures Lower(Suffix(name)) == ext
  {
    ExtensionShapes();
    var j := |name| - |ext|;
    LowerKeepsDots(name);
    LowerTail(name, j);
    assert Lower(name)[j] == ext[0];
    forall m | j < m < |name|
      ensures name[m] != '.'
    {
      assert Lower(name)[m] == ext[1..][m - j - 1];
    }
    SuffixAt(name, j);
  }

  /** An existing regular file is valid exactly when its name ends in a supported extension. */
  lemma ValidIffEndsInSupportedExtension(filePath: string, kind: FileKind)
    ensures Validate(filePath, kind).isValid
      <==> kind == RegularFile && EndsInSupportedExtension(Name(Parse(filePath)))
  {
    SupportedSuffixIffEnds(Name(Parse(filePath)));
  }

  /** A regular file whose name has no suffix is rejected, naming an empty extension. */
  lemma NoSuffixRejected(filePath: string)
    requires Suffix(Name(Parse(filePath))) == ""
    ensures Validate(filePath, RegularFile) == Validation(false, UnsupportedMessage(""))
  {
    assert Lower("") !in SupportedExtensions;
  }

  /** An upper-case extension is accepted. */
  lemma UpperCaseAccepted()
    ensures Validate("SONG.MP3", RegularFile) == Validation(true, "")
  {
    UpperCaseSuffix();
    SupportedSuffixAccepted("SONG.MP3", "SONG.MP3");
  }

  lemma UpperCaseSuffix()
    ensures Name(Parse("SONG.MP3")) == "SONG.MP3"
    ensures Lower(Suffix("SONG.MP3")) == ".mp3"
  {
    SingleName("SONG.MP3");
    UpperCaseSuffixIs();
    UpperCaseSuffixLowered();
  }

  lemma UpperCaseSuffixIs()
    ensures Suffix("SONG.MP3") == ".MP3"
  {
    SuffixAt("SONG.MP3", 4);
  }

  lemma UpperCaseSuffixLowered()
    ensures Lower(".MP3") == ".mp3"
  {
  }

  /** A regular file whose lower-cased suffix is supported is valid. */
  lemma SupportedSuffixAccepted(filePath: string, name: string)
    requires Name(Parse(filePath)) == name
    requires Lower(Suffix(name)) in SupportedExtensions
    ensures Validate(filePath, RegularFile) == Validation(true, "")
  {
  }

  /** Names without a real suffix are rejected: no dot, only a leading dot, only a trailing dot. */
  lemma NamesWithoutSuffixRejected()
    ensures !Validate("song", RegularFile).isValid
    ensures !Validate(".mp3", RegularFile).isValid
    ensures !Validate("song.", RegularFile).isValid
  {
    NoDotNoSuffix();
    NoSuffixRejected("song");
    LeadingDotNoSuffix();
    NoSuffixRejected(".mp3");
    TrailingDotNoSuffix();
    NoSuffixRejected("song.");
  }

  lemma NoDotNoSuffix()
    ensures Suffix(Name(Parse("song"))) == ""
  {
    SingleName("song");
  }

  lemma LeadingDotNoSuffix()
    ensures Suffix(Name(Parse(".mp3"))) == ""
  {
    SingleName(".mp3");
    RFindAt(".mp3", '.', 0);
  }

  lemma TrailingDotNoSuffix()
    ensures Suffix(Name(Parse("song."))) == ""
  {
    SingleName("song.");
    RFindAt("song.", '.', 4);
  }

  /** A text file is rejected with a message naming its extension and the supported formats. */
  lemma TextFileRejected()
    ensures Validate("notes.txt", RegularFile) == Validation(false,
      "Unsupported file extension: " + ".txt" + "\n" + "Supported formats: " + ".flac, .m4a, .mp3, .ogg, .wav")
  {
    TextFileSuffix();
    UnsupportedSuffixRejected("notes.txt", "notes.txt");
    UnsupportedMessageText(".txt");
  }

  lemma TextFileSuffix()
    ensures Name(Parse("notes.txt")) == "notes.txt"
    ensures Suffix("notes.txt") == ".txt"
    ensures Lower(".txt") !in SupportedExtensions
  {
    SingleName("notes.txt");
    TextFileSuffixIs();
    TextSuffixUnsupported();
  }

  lemma TextFileSuffixIs()
    ensures Suffix("notes.txt") == ".txt"
  {
    SuffixAt("notes.txt", 5);
  }

  lemma TextSuffixUnsupported()
    ensures Lower(".txt") !in SupportedExtensions
  {
    assert Lower(".txt") == ".txt";
  }

  /** A regular file whose lower-cased suffix is not supported is rejected, naming the suffix as written. */
  lemma UnsupportedSuffixRejected(filePath: string, name: string)
    requires Name(Parse(filePath)) == name
    requires Lower(Suffix(name)) !in SupportedExtensions
    ensures Validate(filePath, RegularFile) == Validation(false, UnsupportedMessage(Suffix(name)))
  {
  }

  /** A file name without a separator parses to itself. */
  lemma SingleName(s: string)
    requires IsComponent(s)
    ensures Name(Parse(s)) == s
  {
    ParseComponent(s);
  }

  // ---------------------------------------------------------------------------
  // Processing

  /** The name of the output file for one stem: `<stem>_<stem name><suffix>`. */
  function StemFileName(name: string, stemName: string): string
  {
    Stem(name) + "_" + stemName + Suffix(name)
  }

  /** `str(path.parent / f"{path.stem}_{stem_name}{path.suffix}")`. */
  function StemPath(filePath: string, stemName: string): string
  {
    var path := Parse(filePath);
    ToString(JoinPath(Parent(path), StemFileName(Name(path), stemName)))
  }

  /**
   * `process_audio(file_path, progress_callback)`: the callback is called
   * once per step, in order, with the fraction of steps done; in the last step
   * the four stem paths are collected.
   */
  method ProcessAudio(filePath: string) returns (trace: seq<ProgressEvent>, stems: seq<string>)
    ensures |trace| == |ProcessingSteps|
    ensures forall k :: 0 <= k < |trace| ==> trace[k].description == ProcessingSteps[k]
    ensures forall k :: 0 <= k < |trace| ==> trace[k].fraction == (k + 1) as real / |ProcessingSteps| as real
    ensures forall k :: 0 <= k < |trace| ==> 0.0 < trace[k].fraction <= 1.0
    ensures forall j, k :: 0 <= j < k < |trace| ==> trace[j].fraction < trace[k].fraction
    ensures trace[|trace| - 1].fraction == 1.0
    ensures |stems| == |StemNames|
    ensures forall k :: 0 <= k < |stems| ==> stems[k] == StemPath(filePath, StemNames[k])
  {
    var totalSteps := |ProcessingSteps|;
    trace := [];
    stems := [];
    for i := 0 to totalSteps
      invariant |trace| == i
      invariant forall k :: 0 <= k < i ==>
        trace[k] == ProgressEvent(ProcessingSteps[k], (k + 1) as real / totalSteps as real)
      invariant i < totalSteps ==> stems == []
      invariant i == totalSteps ==> |stems| == |StemNames|
      invariant i == totalSteps ==>
        forall k :: 0 <= k < |stems| ==> stems[k] == StemPath(filePath, StemNames[k])
    {
      var step := ProcessingSteps[i];
      var progress := (i + 1) as real / totalSteps as real;
      trace := trace + [ProgressEvent(step, progress)];
      if i == totalSteps - 1 {
        for n := 0 to |StemNames|
          invariant |stems| == n
          invariant forall k :: 0 <= k < n ==> stems[k] == StemPath(filePath, StemNames[k])
        {
          stems := stems + [StemPath(filePath, StemNames[n])];
        }
      }
    }
  }

  /** A stem name is a plain word: no dot and no separator. */
  lemma StemNameShapes()
    ensures forall k :: 0 <= k < |StemNames| ==> StemNames[k] != "" && '.' !in StemNames[k] && '/' !in StemNames[k]
  {
  }

  /** The output file name for a name without a separator is a single path component. */
  lemma StemFileNameIsComponent(name: string, k: nat)
    requires '/' !in name && k < |StemNames|
    ensures IsComponent(StemFileName(name, StemNames[k]))
    ensures StemFileName(name, StemNames[k])[|Stem(name)|] == '_'
  {
    StemNameShapes();
    SuffixShape(name);
    var c := StemFileName(name, StemNames[k]);
    assert forall x :: x in Stem(name) ==> x in name;
    assert forall x :: x in Suffix(name) ==> x in name;
    assert c[|Stem(name)|] == '_';
  }

  /**
   * Each output path lies in the input's directory and is named after the
   * input's stem, the stem name and the input's suffix; when the input has a
   * suffix, the output has the same suffix and the stem grows by `_<stem name>`.
   */
  lemma StemPathShape(filePath: string, k: nat)
    requires k < |StemNames|
    ensures Parent(Parse(StemPath(filePath, StemNames[k]))) == Parent(Parse(filePath))
    ensures Name(Parse(StemPath(filePath, StemNames[k])))
      == Stem(Name(Parse(filePath))) + "_" + StemNames[k] + Suffix(Name(Parse(filePath)))
    ensures Suffix(Name(Parse(filePath))) != "" ==>
      Suffix(Name(Parse(StemPath(filePath, StemNames[k])))) == Suffix(Name(Parse(filePath)))
      && Stem(Name(Parse(StemPath(filePath, StemNames[k])))) == Stem(Name(Parse(filePath))) + "_" + StemNames[k]
  {
    var path := Parse(filePath);
    var name := Name(path);
    ParseWellFormed(filePath);
    NameAndParent(path);
    StemFileNameIsComponent(name, k);
    var c := StemFileName(name, StemNames[k]);
    var parent := Parent(path);
    JoinComponent(parent, c);
    ParseToString(JoinPath(parent, c));
    assert StemPath(filePath, StemNames[k]) == ToString(JoinPath(parent, c));
    if Suffix(name) != "" {
      KeepsSuffix(name, k);
    }
  }

  /** An output file name keeps a non-empty suffix of the input, and its stem grows by `_<stem name>`. */
  lemma KeepsSuffix(name: string, k: nat)
    requires k < |StemNames| && Suffix(name) != ""
    ensures Suffix(StemFileName(name, StemNames[k])) == Suffix(name)
    ensures Stem(StemFileName(name, StemNames[k])) == Stem(name) + "_" + StemNames[k]
  {
    StemNameShapes();
    SuffixShape(name);
    var suffix := Suffix(name);
    var stemName := StemNames[k];
    var c := StemFileName(name, stemName);
    var j := |Stem(name)| + 1 + |stemName|;
    assert c == (Stem(name) + "_" + stemName) + suffix;
    assert c[j] == '.';
    forall m | j < m < |c|
      ensures c[m] != '.'
    {
      assert c[m] == suffix[m - j];
    }
    SuffixAt(c, j);
  }

  /**
   * When the input has no suffix, the output file name is the whole input
   * name followed by `_<stem name>`; so an input ending in a dot, such as
   * `song.`, gives `song._vocals`, whose suffix `._vocals` is not the input's.
   */
  lemma TrailingDotOutput()
    ensures StemFileName("song.", StemNames[0]) == "song._vocals"
    ensures Suffix("song._vocals") == "._vocals"
  {
    TrailingDotSplit();
    assert StemNames[0] == "vocals";
    assert StemFileName("song.", "vocals") == "song." + "_" + "vocals" + "";
    SuffixAt("song._vocals", 4);
  }

  lemma TrailingDotSplit()
    ensures Stem("song.") == "song." && Suffix("song.") == ""
  {
    RFindAt("song.", '.', 4);
  }

  /**
   * A bare file name has "." as its parent, and joining onto "." adds no
   * directory: the output path is the output file name alone.
   */
  lemma StemPathOfBareName(fileName: string, k: nat)
    requires IsComponent(fileName) && k < |StemNames|
    ensures StemPath(fileName, StemNames[k]) == StemFileName(fileName, StemNames[k])
  {
    var c := StemFileName(fileName, StemNames[k]);
    ParseComponent(fileName);
    StemFileNameIsComponent(fileName, k);
    ParseComponent(c);
    var empty := PurePath("", []);
    assert Parent(Parse(fileName)) == empty;
    assert JoinPath(empty, c) == PurePath("", [c]);
  }

  /** The outputs of a valid input would themselves pass validation as regular files. */
  lemma ValidInputGivesValidOutputs(filePath: string, kind: FileKind, k: nat)
    requires Validate(filePath, kind).isValid
    requires k < |StemNames|
    ensures Validate(StemPath(filePath, StemNames[k]), RegularFile).isValid
  {
    var name := Name(Parse(filePath));
    assert Lower(Suffix(name)) in SupportedExtensions;
    assert Suffix(name) != "";
    StemPathShape(filePath, k);
    var out := Name(Parse(StemPath(filePath, StemNames[k])));
    assert Suffix(out) == Suffix(name);
  }
}
