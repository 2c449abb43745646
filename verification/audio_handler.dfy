/**
 * `audio_text_processor/audio_handler.py`: the `AudioHandler` that decodes the
 * base64 audio of a response, sniffs its container format, and either saves the
 * octets verbatim under the detected extension or hands them to a transcoder and
 * saves the mp3 it produces.
 *
 * The filesystem and the audio output are a `Host` object. The random UUID of a
 * file name and the transcoder (pydub's `AudioSegment.from_file` followed by
 * `export(..., format='mp3')`) are parameters.
 */
module AudioHandling {
  import opened Wrappers
  import opened Bytes
  import opened Base64
  import opened Utils
  import opened AudioFormats

  /** Prefix of the files written by the fallback transcoder. */
  const ConvertedPrefix: string := "response_audio_converted"

  /** Format the transcoder writes. */
  const ConvertedExtension: string := "mp3"

  /**
   * The transcoder: the mp3 encoding of some audio, or None when it cannot be decoded
   * or encoded. It fails before writing anything, whereas pydub's `export` creates
   * the target before encoding.
   */
  type Transcoder = seq<Byte> -> Option<seq<Byte>>

  /** A file the pipeline means to write: its name in the output directory and its contents. */
  datatype Artifact = Artifact(name: string, contents: seq<Byte>)

  /** POSIX `os.path.join(dir, name)` (`posixpath.join`) for a relative `name`. */
  function JoinPath(dir: string, name: string): string
  {
    if dir == "" || dir[|dir| - 1] == '/' then dir + name else dir + "/" + name
  }

  predicate HasPrefix(s: string, p: string)
  {
    |p| <= |s| && s[..|p|] == p
  }

  /** A name written by the fallback branch. */
  predicate IsConvertedName(name: string)
  {
    HasPrefix(name, ConvertedPrefix + "_")
  }

  /**
   * The decisions of `process_audio`, without their effects: the file it sets out to
   * write, or None when it gives up before writing (undecodable or empty payload,
   * or an unknown format the transcoder cannot decode).
   */
  function SavePlan(audioBase64: string, hex: string, transcode: Transcoder): Option<Artifact>
  {
    match DecodeBase64(audioBase64)
    case None => None
    case Some(bytes) =>
      if bytes == [] then None
      else match DetectAudioFormat(bytes)
        case Some(format) =>
          Some(Artifact(GenerateUniqueFilename(extension := format, hex := hex), bytes))
        case None =>
          match transcode(bytes)
          case None => None
          case Some(mp3) =>
            Some(Artifact(GenerateUniqueFilename(ConvertedPrefix, ConvertedExtension, hex), mp3))
  }

  /** The filesystem and the audio device the handler works on. */
  class Host {
    /** Every file, by path. */
    var files: map<string, seq<Byte>>
    /** Directories that exist. */
    var dirs: set<string>
    /** Paths the system refuses to open for writing (permissions, a full disk, ...). */
    var unwritable: set<string>
    /** The files handed to the player, oldest first. */
    var played: seq<string>

    constructor(files: map<string, seq<Byte>>, dirs: set<string>, unwritable: set<string>)
      ensures this.files == files && this.dirs == dirs && this.unwritable == unwritable
      ensures played == []
    {
      this.files := files;
      this.dirs := dirs;
      this.unwritable := unwritable;
      played := [];
    }

    /** Whether `open(os.path.join(dir, name), 'wb')` followed by a write succeeds. */
    predicate CanWrite(dir: string, name: string)
      reads this
    {
      dir in dirs && JoinPath(dir, name) !in unwritable
    }

    /** `os.makedirs(dir, exist_ok=True)`: succeeds whether or not `dir` exists. */
    method MakeDirs(dir: string)
      modifies this
      ensures dirs == old(dirs) + {dir}
      ensures files == old(files) && unwritable == old(unwritable) && played == old(played)
    {
      dirs := dirs + {dir};
    }

    /** Writes `data` to `os.path.join(dir, name)`; `ok` is false where the OS raises. */
    method WriteFile(dir: string, name: string, data: seq<Byte>) returns (path: string, ok: bool)
      modifies this
      ensures path == JoinPath(dir, name)
      ensures ok == old(CanWrite(dir, name))
      ensures files == if ok then old(files)[path := data] else old(files)
      ensures dirs == old(dirs) && unwritable == old(unwritable) && played == old(played)
    {
      path := JoinPath(dir, name);
      ok := dir in dirs && path !in unwritable;
      if ok {
        files := files[path := data];
      }
    }

    /** Hands a file to the player; whether playback works is not observed. */
    method Play(path: string)
      modifies this
      ensures played == old(played) + [path]
      ensures files == old(files) && dirs == old(dirs) && unwritable == old(unwritable)
    {
      played := played + [path];
    }
  }

  class AudioHandler {
    const outputDir: string

    /** Remembers the output directory and creates it. */
    constructor(outputDir: string, host: Host)
      modifies host
      ensures this.outputDir == outputDir
      ensures host.dirs == old(host.dirs) + {outputDir}
      ensures host.files == old(host.files) && host.unwritable == old(host.unwritable)
      ensures host.played == old(host.played)
    {
      this.outputDir := outputDir;
      host.MakeDirs(outputDir);
    }

    /**
     * What `process_audio` leaves behind on `host` in its current state: the path it
     * returns and the contents stored there, or None when it writes nothing.
     */
    function Outcome(host: Host, audioBase64: string, hex: string, transcode: Transcoder): Option<(string, seq<Byte>)>
      reads host
    {
      match SavePlan(audioBase64, hex, transcode)
      case None => None
      case Some(a) =>
        if host.CanWrite(outputDir, a.name) then Some((JoinPath(outputDir, a.name), a.contents)) else None
    }

    /**
     * `process_audio`: returns the path of the saved file, or None when any step
     * fails, in which case no file is written. Playback, when asked for, follows a
     * successful save and does not change the result.
     */
    method ProcessAudio(host: Host, audioBase64: string, playAudio: bool, hex: string, transcode: Transcoder)
      returns (path: Option<string>)
      modifies host
      ensures var o := old(Outcome(host, audioBase64, hex, transcode));
        && path == (if o.Some? then Some(o.value.0) else None)
        && host.files == (if o.Some? then old(host.files)[o.value.0 := o.value.1] else old(host.files))
      ensures host.played == old(host.played) + (if playAudio && path.Some? then [path.value] else [])
      ensures host.dirs == old(host.dirs) && host.unwritable == old(host.unwritable)
    {
      var audioBytes := DecodeBase64(audioBase64);
      if audioBytes.None? || audioBytes.value == [] {
        return None;
      }
      var bytes := audioBytes.value;

      var audioFormat := DetectAudioFormat(bytes);
      var audioFilePath: string;
      var ok: bool;
      if audioFormat.Some? {
        var filename := GenerateUniqueFilename(extension := audioFormat.value, hex := hex);
        audioFilePath, ok := host.WriteFile(outputDir, filename, bytes);
        if !ok {
          return None;
        }
      } else {
        var audio := transcode(bytes);
        if audio.None? {
          return None;
        }
        var filename := GenerateUniqueFilename(ConvertedPrefix, ConvertedExtension, hex);
        audioFilePath, ok := host.WriteFile(outputDir, filename, audio.value);
        if !ok {
          return None;
        }
      }

      if playAudio {
        host.Play(audioFilePath);
      }
      return Some(audioFilePath);
    }
  }

  // ---------------------------------------------------------------------------
  // Lemmas about the decisions
  // ---------------------------------------------------------------------------

  /** A payload that does not decode, or decodes to nothing, is never saved. */
  lemma NothingPlannedWithoutAudio(audioBase64: string, hex: string, transcode: Transcoder)
    requires DecodeBase64(audioBase64) == None || DecodeBase64(audioBase64) == Some([])
    ensures SavePlan(audioBase64, hex, transcode) == None
  {
  }

  /**
   * A recognised format is saved verbatim, under the default prefix and the detected
   * extension; the transcoder is not consulted.
   */
  lemma KnownFormatSavedVerbatim(audioBase64: string, hex: string, transcode: Transcoder, bytes: seq<Byte>)
    requires DecodeBase64(audioBase64) == Some(bytes) && bytes != []
    requires DetectAudioFormat(bytes).Some?
    ensures SavePlan(audioBase64, hex, transcode)
         == Some(Artifact(DefaultPrefix + "_" + hex + "." + DetectAudioFormat(bytes).value, bytes))
  {
  }

  /**
   * An unrecognised format goes to the transcoder: its mp3 is saved under the
   * converted prefix, and nothing is saved when it fails.
   */
  lemma UnknownFormatConverted(audioBase64: string, hex: string, transcode: Transcoder, bytes: seq<Byte>)
    requires DecodeBase64(audioBase64) == Some(bytes) && bytes != []
    requires DetectAudioFormat(bytes).None?
    ensures transcode(bytes).None? ==> SavePlan(audioBase64, hex, transcode) == None
    ensures transcode(bytes).Some? ==>
      SavePlan(audioBase64, hex, transcode)
        == Some(Artifact(ConvertedPrefix + "_" + hex + "." + ConvertedExtension, transcode(bytes).value))
  {
  }

  /**
   * The name of a saved file tells its story: its extension is a supported format;
   * it carries the converted prefix exactly when the format was unknown; and a file
   * without it holds the decoded octets, which sniff as the format its extension names.
   */
  lemma NameTellsBranch(audioBase64: string, hex: string, transcode: Transcoder, a: Artifact)
    requires IsUuidHex(hex)
    requires SavePlan(audioBase64, hex, transcode) == Some(a)
    ensures DecodeBase64(audioBase64).Some?
    ensures AfterLastDot(a.name) in SupportedAudioFormats
    ensures IsConvertedName(a.name) <==> DetectAudioFormat(DecodeBase64(audioBase64).value).None?
    ensures IsConvertedName(a.name) ==> AfterLastDot(a.name) == ConvertedExtension
    ensures !IsConvertedName(a.name) ==>
      Some(a.contents) == DecodeBase64(audioBase64) && DetectAudioFormat(a.contents) == Some(AfterLastDot(a.name))
  {
    var bytes := DecodeBase64(audioBase64).value;
    var detected := DetectAudioFormat(bytes);
    if detected.Some? {
      var format := detected.value;
      assert a == Artifact(GenerateUniqueFilename(DefaultPrefix, format, hex), bytes);
      assert '.' !in format by {
        TagsHaveNoDot(format);
      }
      KnownName(format, hex);
    } else {
      assert a.name == GenerateUniqueFilename(ConvertedPrefix, ConvertedExtension, hex);
      ConvertedName(hex);
    }
  }

  /** No supported format name contains a `.`. */
  lemma TagsHaveNoDot(format: string)
    requires format in SupportedAudioFormats
    ensures '.' !in format
  {
  }

  /** A name of the recognised-format branch: not converted, extension the format. */
  lemma KnownName(format: string, hex: string)
    requires IsUuidHex(hex) && '.' !in format
    ensures !IsConvertedName(GenerateUniqueFilename(DefaultPrefix, format, hex))
    ensures AfterLastDot(GenerateUniqueFilename(DefaultPrefix, format, hex)) == format
  {
    var name := GenerateUniqueFilename(DefaultPrefix, format, hex);
    FilenameExtension(DefaultPrefix, format, hex);
    assert name[16] == hex[1];
    assert (ConvertedPrefix + "_")[16] == 'o';
  }

  /** A name of the fallback branch: converted, extension mp3. */
  lemma ConvertedName(hex: string)
    ensures IsConvertedName(GenerateUniqueFilename(ConvertedPrefix, ConvertedExtension, hex))
    ensures AfterLastDot(GenerateUniqueFilename(ConvertedPrefix, ConvertedExtension, hex)) == ConvertedExtension
  {
    var name := GenerateUniqueFilename(ConvertedPrefix, ConvertedExtension, hex);
    FilenameExtension(ConvertedPrefix, ConvertedExtension, hex);
    assert name[..|ConvertedPrefix + "_"|] == ConvertedPrefix + "_";
  }

  /**
   * End to end: base64 of octets that start with an ID3 tag is saved as an mp3 file
   * holding exactly those octets.
   */
  lemma Id3PayloadSavedAsMp3(bytes: seq<Byte>, hex: string, transcode: Transcoder)
    requires StartsWith(bytes, Id3)
    ensures SavePlan(Encode(bytes), hex, transcode)
         == Some(Artifact(GenerateUniqueFilename(DefaultPrefix, "mp3", hex), bytes))
  {
    DecodeBase64RoundTrip(bytes);
    Mp3Rule(bytes);
  }
}
