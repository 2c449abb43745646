# Audio payload pipeline of the Earkick audio/text client, in Dafny

The client sends one conversational turn to the Earkick endpoint and gets back a
JSON reply. The reply's `audio` field holds base64 text. The client decodes it,
recognises the container format by its magic bytes, and saves the audio in an
output directory. A known format is saved verbatim. An unknown one is transcoded
to mp3 first.

This project models that pipeline and proves properties of it:

- `common.dfy`:
  - `Wrappers`: an `Option` type.
  - `Bytes`: octets as integers 0..255, and prefix tests.
- `base64.dfy` (`Base64`): the library side of the decoder.
  - The alphabet of section 4 of RFC 4648, and a reference encoder with `=` padding.
  - `base64.b64decode(..., validate=True)`, as CPython up to 3.10 implements it. The
    text must match `[A-Za-z0-9+/]*={0,2}`. Then the lenient decoder runs: it rejects
    a data part one character past a group, rejects too little padding, and discards
    the unused low bits of a short final group. From 3.11 the library runs
    `binascii.a2b_base64` in strict mode instead. The two readings differ only on
    text whose length is not a multiple of four, which `decode_base64` never passes.
- `utils.dfy` (`Utils`): `decode_base64` (the padding rule, then the strict decode)
  and `generate_unique_filename`. The random UUID hex is a parameter.
- `audio_formats.dfy` (`AudioFormats`):
  - `detect_audio_format`, written as the source's ordered if/elif chain. Python's
    clamped slice `b[8:12]` and the `in` substring test are modelled literally.
  - The identity table `SUPPORTED_AUDIO_FORMATS`.
  - An independent ordered signature table, proved equal to the chain.
- `audio_handler.dfy` (`AudioHandling`):
  - `Host`: a class for the filesystem. It holds a map from path to contents, the
    existing directories, the paths that cannot be written, and a log of the files
    handed to the player.
  - `AudioHandler`: `process_audio` as an imperative method on that state, proved
    against `SavePlan`, a pure statement of its decisions.
- `processor.dfy` (`Processor`):
  - The message list and the payload of a turn.
  - The audio-present check of `_extract_and_save_audio`.
  - `generate`, with the endpoint as a function parameter.

## Model

| member | source | states |
|---|---|---|
| Base64.SextetChar | audio_text_processor/utils.py:22 | every value 0..63 has an alphabet character, and the decoder maps that character back to the value |
| Base64.EncodeGroups | audio_text_processor/utils.py:22 | the unpadded encoding uses only alphabet characters; its length is 4 per full 3-octet group plus 2 or 3 for a short tail |
| Base64.Encode | audio_text_processor/utils.py:22 | a padded encoding is a whole number of 4-character groups, `4 * ceil(n / 3)` long |
| Base64.DataLength | audio_text_processor/utils.py:22 | the data part is the longest prefix of alphabet characters |
| Base64.DecodeSextets | audio_text_processor/utils.py:22 | each full group gives 3 octets and a 2- or 3-character tail gives 1 or 2 |
| Base64.DataLengthOfSplit | audio_text_processor/utils.py:22 | alphabet text followed by a non-alphabet character ends the data part exactly there |
| Base64.GroupSextets | audio_text_processor/utils.py:22 | one to three octets are cut into two to four values, each below 64 |
| Base64.OneOctetRoundTrip | audio_text_processor/utils.py:22 | the two sextets cut from a final single octet rebuild it, since the four filler bits are dropped |
| Base64.TwoOctetsRoundTrip | audio_text_processor/utils.py:22 | the three sextets cut from a final pair of octets rebuild them, since the two filler bits are dropped |
| Base64.ThreeOctetsRoundTrip | audio_text_processor/utils.py:22 | the four sextets of a full group hold exactly its 24 bits |
| Base64.ValuesOfChars | audio_text_processor/utils.py:22 | the decoder's character table inverts the encoder's on every sextet |
| Base64.GroupRoundTrip | audio_text_processor/utils.py:22 | decoding the characters of one group of one to three octets gives back those octets |
| Base64.DecodeEncodeGroups | audio_text_processor/utils.py:22 | decoding the unpadded encoding of any octets gives them back |
| Base64.DecodeEncode | audio_text_processor/utils.py:22 | the strict decoder accepts the padded encoding of any octets and returns exactly them |
| Base64.B64DecodeValidate | audio_text_processor/utils.py:22 | the strict decoder accepts only text matching `[A-Za-z0-9+/]*={0,2}`, and on text whose length is a multiple of four it accepts all such text; what it returns is pinned down by `DecodeEncode` on encodings and by `AcceptedIsCanonical` on every accepted text |
| Base64.PatternIffSplit | audio_text_processor/utils.py:22 | text matches the pattern if and only if it is its data part followed by at most two `=` |
| Base64.PatternSplit | audio_text_processor/utils.py:22 | text matching the pattern is its data part followed by at most two `=` |
| Base64.SplitMatchesPattern | audio_text_processor/utils.py:22 | a data part followed by at most two `=` matches the pattern |
| Base64.DataPosition | audio_text_processor/utils.py:22 | every position of the data part holds an alphabet character |
| Base64.PadPosition | audio_text_processor/utils.py:22 | every position of a trailing run of at most two `=` is among the last two and is followed only by `=` |
| Base64.PadSuffix | audio_text_processor/utils.py:22 | every suffix of a run of `=` is one |
| Base64.PaddedSplitArithmetic | audio_text_processor/utils.py:22 | in text whose length is a multiple of four, a data part followed by at most two `=` is never one character past a group and is always padded enough |
| Utils.NormalizePadding | audio_text_processor/utils.py:19-21 | padding makes the length a multiple of four; it appends fewer than four characters, keeps the input as a prefix, and adds only `=` |
| Utils.PaddingRule | audio_text_processor/utils.py:19-21 | a length that is a multiple of four is left alone; otherwise exactly `4 - len % 4` `=` are appended |
| Utils.DecodeBase64 | audio_text_processor/utils.py:8-25 | `decode_base64` returns octets if and only if the padded input matches `[A-Za-z0-9+/]*={0,2}`: the library's padding checks can no longer fail after the padding rule |
| Utils.ForeignCharacterRejected | audio_text_processor/utils.py:22-25 | one character outside the alphabet that is not `=` makes the result None |
| Utils.OneCharacterOverRejected | audio_text_processor/utils.py:19-25 | an input of length 1 mod 4 gets three `=` and is rejected |
| Utils.DecodeBase64RoundTrip | audio_text_processor/utils.py:8-22 | `decode_base64` of the padded encoding of any octets gives them back |
| Utils.TrimPadding | audio_text_processor/utils.py:19-21 | removing the trailing `=` leaves a prefix that does not end in `=` |
| Utils.TrimmedEncoding | audio_text_processor/utils.py:19-21 | the padded encoding with its `=` removed is the unpadded encoding |
| Utils.DecodeUnpaddedRoundTrip | audio_text_processor/utils.py:8-22 | `decode_base64` of an encoding stripped of its `=` still gives the octets back |
| Base64.ClearLow | audio_text_processor/utils.py:22 | the cleared sextet is still a sextet; its meaning is fixed by `SextetsBack` |
| Base64.Canon | audio_text_processor/utils.py:22 | the canonical spelling has the same length, is alphabet text, and differs from the data characters at most in the last character of a short final group, whose unused low bits are cleared |
| Base64.CharSextetRoundTrip | audio_text_processor/utils.py:22 | every alphabet character is the character of its own sextet |
| Base64.CharsOfValues | audio_text_processor/utils.py:22 | writing out the sextets of alphabet text gives the text back |
| Base64.TwoSextetsBack | audio_text_processor/utils.py:22 | two sextets decoded and cut again keep the first and the top two bits of the second |
| Base64.ThreeSextetsBack | audio_text_processor/utils.py:22 | three sextets decoded and cut again keep the first two and the top four bits of the third |
| Base64.FourSextetsBack | audio_text_processor/utils.py:22 | four sextets decoded and cut again are unchanged |
| Base64.SextetsBack | audio_text_processor/utils.py:22 | a group of two to four sextets decoded and cut again loses exactly the unused low bits of its last sextet |
| Base64.CharsOfCleared | audio_text_processor/utils.py:22 | a group's sextets with the last one cleared spell the group's canonical form |
| Base64.GroupBack | audio_text_processor/utils.py:22 | re-encoding the octets of one group of two to four characters gives its canonical spelling |
| Base64.AlphabetParts | audio_text_processor/utils.py:22 | both parts of split alphabet text are alphabet text |
| Base64.CanonSplit | audio_text_processor/utils.py:22 | the canonical spelling leaves a full leading group alone |
| Base64.CanonOfFullGroups | audio_text_processor/utils.py:22 | text made of full groups is already canonical |
| Base64.CanonSplitShort | audio_text_processor/utils.py:22 | the short-final-group case of `CanonSplit` |
| Base64.DecodeGroupStep | audio_text_processor/utils.py:22 | re-encoding the decoding of text longer than one group proceeds one group at a time |
| Base64.EncodeOfDecode | audio_text_processor/utils.py:22 | the converse round trip: re-encoding the octets decoded from any data characters gives those characters back, except that the unused low bits of a short final group are cleared |
| Base64.AcceptedIsCanonical | audio_text_processor/utils.py:22 | for every text the strict decoder accepts, the reference encoding of the returned octets is the canonical spelling of the text's data characters, so the octets are determined by the text |
| Utils.NonCanonicalInputAccepted | audio_text_processor/utils.py:22 | unused low bits are ignored: `QR` and `QQ==` both decode to the single octet `A` |
| Utils.GenerateUniqueFilename | audio_text_processor/utils.py:27-38 | no contract of its own: `FilenameInjective` and `FilenameExtension` pin it down (distinct ids give distinct names; the name ends in `.` and the extension), and the prefix and extension default to `response_audio` and `mp3` |
| Utils.PaddedPairDecodes | audio_text_processor/utils.py:19-22 | two data characters followed by `==` are left alone by the padding rule and decode as one short group |
| Utils.AfterLastDot | audio_text_processor/utils.py:38 | the extension read back from a name is its dot-free suffix |
| Utils.FilenameInjective | audio_text_processor/utils.py:38 | for a fixed prefix and extension, distinct ids give distinct names |
| Utils.FilenameExtension | audio_text_processor/utils.py:27-38 | a generated name ends in `.` followed by the requested dot-free extension |
| AudioFormats.Contains | audio_text_processor/audio_handler.py:90 | no contract of its own: `WaveMarker` pins down its use in the wav rule (`WAVE` in a slice of at most four octets means the slice is `WAVE`) |
| AudioFormats.FirstMatch | audio_text_processor/audio_handler.py:87-104 | no contract of its own: the reference first-match search over the signature table; `FirstMatchIsAMatch` states what it finds and `DetectIsFirstMatch` proves the chain equal to it |
| AudioFormats.Slice | audio_text_processor/audio_handler.py:90 | Python slicing is clamped: never longer than asked, and the true subsequence when it is in range |
| AudioFormats.DetectAudioFormat | audio_text_processor/audio_handler.py:77-104 | the classifier is total; any tag it returns is a key of the format table that maps to itself; under two octets the result is None |
| AudioFormats.WaveMarker | audio_text_processor/audio_handler.py:90 | `WAVE in b[8:12]` holds exactly when there are at least 12 octets and octets 8..11 are `WAVE` |
| AudioFormats.DetectIsFirstMatch | audio_text_processor/audio_handler.py:87-104 | the chain returns the tag of the first matching rule in the order ID3 (mp3), MPEG sync (mp3), wav, ogg, flac, m4a |
| AudioFormats.SignaturesUnambiguous | audio_text_processor/audio_handler.py:87-101 | no two rules ever match the same octets, so the order of the rules never decides the outcome |
| AudioFormats.PrefixesClash | audio_text_processor/audio_handler.py:87-101 | two rules whose prefixes differ at some position never match the same octets |
| AudioFormats.FirstMatchIsAMatch | audio_text_processor/audio_handler.py:87-104 | the first-match search finds a tag exactly when some rule matches; the tag it returns belongs to a matching rule |
| AudioFormats.DetectIffSomeSignature | audio_text_processor/audio_handler.py:87-104 | a tag is detected if and only if one of its rules matches |
| AudioFormats.DetectResultIsSupported | audio_text_processor/audio_handler.py:87-104 | the result is None or one of mp3, wav, ogg, flac, m4a, and each maps to itself in the format table |
| AudioFormats.Mp3Rule | audio_text_processor/audio_handler.py:87-89 | octets starting with `ID3` or `FF FB` are mp3, whatever follows |
| AudioFormats.WavRule | audio_text_processor/audio_handler.py:90-92 | octets starting with `RIFF` are wav exactly when octets 8..11 are `WAVE`, and otherwise unknown |
| AudioFormats.PrefixRules | audio_text_processor/audio_handler.py:93-101 | `OggS` gives ogg, `fLaC` gives flac, and `ftyp` at offset 0 gives m4a |
| AudioFormats.ShortInputUnknown | audio_text_processor/audio_handler.py:87-104 | empty and one-octet inputs are unknown |
| AudioFormats.BoxedFtypUnknown | audio_text_processor/audio_handler.py:99-101 | an MP4 file whose `ftyp` box type sits at offset 4 behind a size field whose first octet is zero (a box shorter than 16 MiB, as real `ftyp` boxes are) is not recognised |
| AudioHandling.JoinPath | audio_text_processor/audio_handler.py:50 | no contract of its own: POSIX `os.path.join` of the output directory and a file name, used for both the verbatim and the converted file; `Host.WriteFile` and `ProcessAudio` state the file stored under it |
| AudioHandling.SavePlan | audio_text_processor/audio_handler.py:41-68 | no contract of its own: the decisions of `process_audio` as a value; `NothingPlannedWithoutAudio`, `KnownFormatSavedVerbatim`, `UnknownFormatConverted` and `NameTellsBranch` pin it down |
| AudioHandling.AudioHandler.Outcome | audio_text_processor/audio_handler.py:41-68 | no contract of its own: the path and contents `process_audio` would store, given the host's state; `ProcessAudio` is proved to store exactly it |
| AudioHandling.Host.MakeDirs | audio_text_processor/audio_handler.py:27 | creating the directory succeeds whether or not it exists, and changes nothing else |
| AudioHandling.Host.WriteFile | audio_text_processor/audio_handler.py:50-57 | the write stores the data at `os.path.join(dir, name)` when the OS allows it; otherwise it reports failure and stores nothing |
| AudioHandling.Host.Play | audio_text_processor/audio_handler.py:106-119 | playback is attempted for the file and does not change the files |
| AudioHandling.AudioHandler.constructor | audio_text_processor/audio_handler.py:19-28 | the handler remembers the output directory, which exists afterwards |
| AudioHandling.AudioHandler.ProcessAudio | audio_text_processor/audio_handler.py:30-75 | returns the path of the saved file, or None when a step fails; exactly that file is written, nothing is written on failure, and the file is played only after a successful save when asked |
| AudioHandling.NothingPlannedWithoutAudio | audio_text_processor/audio_handler.py:41-44 | a payload that does not decode, or decodes to nothing, is never saved |
| AudioHandling.KnownFormatSavedVerbatim | audio_text_processor/audio_handler.py:47-57 | a recognised format is saved verbatim as `response_audio_<hex>.<tag>` and the transcoder is not consulted |
| AudioHandling.UnknownFormatConverted | audio_text_processor/audio_handler.py:58-68 | an unknown format is saved as the transcoder's mp3 under `response_audio_converted_<hex>.mp3`, and nothing is saved when the transcoder fails |
| AudioHandling.NameTellsBranch | audio_text_processor/audio_handler.py:47-68 | a saved name always has a supported extension; it has the converted prefix exactly when the format was unknown; otherwise it holds the decoded octets, which sniff as its extension |
| AudioHandling.KnownName | audio_text_processor/audio_handler.py:49 | a name from the known-format branch lacks the converted prefix and ends in its tag |
| AudioHandling.ConvertedName | audio_text_processor/audio_handler.py:62 | a name from the fallback branch has the converted prefix and ends in `mp3` |
| AudioHandling.Id3PayloadSavedAsMp3 | audio_text_processor/audio_handler.py:41-57 | base64 of octets starting with an ID3 tag is saved as an mp3 file holding exactly those octets |
| Processor.UserMessages | audio_text_processor/processor.py:81 | no contract of its own: `MessageOrder` states that the user's entry is the last message |
| Processor.AssistantMessages | audio_text_processor/processor.py:82 | no contract of its own: `MessageOrder` states that the assistant entry is present exactly when the message is non-empty |
| Processor.ConversationMessages | audio_text_processor/processor.py:115 | no contract of its own: `MessageOrder` states its order and length, and `PreparePayload` sends it as `messages` |
| Processor.ResponseIsTruthy | audio_text_processor/processor.py:87 | no contract of its own: `Generate` returns the reply exactly when it holds |
| Processor.Lower | audio_text_processor/processor.py:121 | ASCII lower-casing keeps the length (it is applied only to `True` and `False`) |
| Processor.LowerBoolStr | audio_text_processor/processor.py:121 | `str(b).lower()` is `true` or `false` |
| Processor.AudioToProcess | audio_text_processor/processor.py:164-167 | no audio is processed when the field is missing, null, empty or otherwise falsy; the text handed on is the non-empty field itself |
| Processor.AudioTextProcessor.constructor | audio_text_processor/processor.py:22-56 | the configuration is stored unchanged and the audio handler is created on the same output directory |
| Processor.AudioTextProcessor.PreparePayload | audio_text_processor/processor.py:94-125 | exactly the five keys; `app_id` is the instance's; `voice` is `true` or `false`; the messages are the assistant entries followed by the user entries |
| Processor.AudioTextProcessor.OverridesWin | audio_text_processor/processor.py:119-121 | an override of `language`, `tts_voice` or `use_voice` is used whenever it is not None, so an explicit `False` is sent as `false`; otherwise the instance setting is sent |
| Processor.AudioTextProcessor.ExtractAndSaveAudio | audio_text_processor/processor.py:156-173 | without audio the handler is not invoked and nothing changes; with audio the effects are those of `process_audio` |
| Processor.AudioTextProcessor.Generate | audio_text_processor/processor.py:58-92 | returns the reply unchanged when it is a non-empty object and None otherwise; nothing is saved or played for a rejected reply or one without audio; for a returned reply with audio, the files and the play log change exactly as `process_audio` changes them |
| Processor.MessageOrder | audio_text_processor/processor.py:81-82 | the user's entry is last; an assistant entry comes first exactly when a non-empty assistant message is given |

## Left out

- Octets are integers 0..255 rather than 8-bit vectors. The arithmetic is the same.
- Base64.B64DecodeValidate: it is the reading of CPython up to 3.10: the `[A-Za-z0-9+/]*={0,2}` match, then `binascii.a2b_base64` in non-strict mode. It discards unused low bits, which section 3.5 of RFC 4648 allows a decoder to do. The strict mode that CPython 3.11 and later use for `validate=True` is not modelled separately. It rejects more text of a length that is not a multiple of four (for example `QQQQ=`, as excess padding). On text whose length is a multiple of four, the only text `decode_base64` passes after its padding rule, both readings accept the same text and return the same octets.
- `audio_text_processor/api_client.py`: the HTTP request, the multipart encoding and the JSON parsing of the reply are not part of this model. The endpoint is a function parameter from the form fields to the parsed reply, or None.
- `json.dumps` of the message list is kept abstract: the form field holds the message sequence itself.
- `_extract_and_display_messages` (audio_text_processor/processor.py:138-154): printing to the console. A reply whose `messages` entries are not objects would make it raise before the audio is processed; that is not modelled.
- pydub's `AudioSegment.from_file`, `export` and `play`: foreign decoding, transcoding and playback. The transcoder is an abstract function that may fail. Playback is recorded as an attempt whose outcome is not observed, as the source swallows its errors.
- `uuid.uuid4()`: the 32-digit hex id is a parameter.
- `os.makedirs` is modelled as always succeeding. A failure, which would raise out of the constructor, is not modelled.
- Writes are atomic in the model: a write fails before anything is stored. A partial file left by an OS error in the middle of a write is not modelled.
- AudioHandling.AudioHandler.ProcessAudio: pydub's `export` creates the target file before it encodes. An encoding failure after `from_file` succeeded can therefore leave an empty file at the converted path while `process_audio` returns None. The model's transcoder fails before anything is written, so "nothing is written on failure" holds for the fallback branch only under that abstraction.
- Processor.AudioToProcess: a truthy `audio` field that is not text (a number, a list, an object) would make `decode_base64` raise a `TypeError`, which the source does not catch. The model requires the field to be text when it is truthy.
- Processor.AudioTextProcessor.ExtractAndSaveAudio: the same requirement on the reply's `audio` field.
- Processor.AudioTextProcessor.Generate: the same requirement on the reply's `audio` field.
- Processor.AudioTextProcessor.Generate: `_extract_and_display_messages` runs before the audio step (audio_text_processor/processor.py:135-136). It raises on some replies, and then `generate` raises with no file saved, while the model returns the reply and saves its audio. Such replies have a truthy `messages` that is not a list of objects: a number raises `TypeError`, and a string or an object raises `AttributeError` at `.get`. They also include a list holding an entry that is not an object, or an entry whose `role` is present and not text (`null` or a number), where `.capitalize()` raises `AttributeError`. The model's JSON values do not describe the entries of `messages`.
- The reply's truth value is modelled for a JSON object only: an empty object is rejected. A reply that is a JSON array or scalar is not modelled.
- Logging, `logging_config.py`, `main.py` and the environment and `dotenv` loading in `config/settings.py` are not part of this model. The defaults `en`, `nova` and `True` of `config/settings.py` are the constants `DefaultLanguage`, `DefaultTtsVoice` and `DefaultUseVoice`, used as the constructor's default arguments. The format table is `SupportedAudioFormats`.
- The m4a rule is kept as written: it tests `ftyp` at offset 0. Real ISO/IEC 14496-12 files carry the File Type Box type at offset 4, so they fall to the transcoder (`BoxedFtypUnknown`).
