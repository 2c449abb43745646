/**
 * `audio_text_processor/processor.py`: the `AudioTextProcessor` that builds the
 * request for one conversational turn, sends it, and hands the audio of the reply
 * to the `AudioHandler`.
 *
 * The HTTP endpoint is a function parameter from the form fields sent to the
 * parsed JSON reply (None when the request or the parsing fails).
 */
module Processor {
  import opened Wrappers
  import opened Bytes
  import opened AudioHandling

  const DefaultLanguage: string := "en"
  const DefaultTtsVoice: string := "nova"
  const DefaultUseVoice: bool := true

  /** One entry of the conversation history. */
  datatype Message = Message(role: string, content: string)

  /** A form field of the request; `json.dumps` of the message list is kept abstract. */
  datatype FormValue = Text(text: string) | MessagesJson(messages: seq<Message>)

  type Payload = map<string, FormValue>

  /** A JSON value of the reply, as far as the processor looks into it. */
  datatype Json =
    | Null
    | Str(s: string)
    | Other(truthy: bool)   // a number, boolean, list or object, with its Python truth value

  type Response = map<string, Json>

  /** `[{"role": "user", "content": user_message}]` */
  function UserMessages(userMessage: string): seq<Message>
  {
    [Message("user", userMessage)]
  }

  /** The assistant entry, present only when `assistant_message` is truthy (not None, not empty). */
  function AssistantMessages(assistantMessage: Option<string>): seq<Message>
  {
    if assistantMessage.Some? && assistantMessage.value != "" then [Message("assistant", assistantMessage.value)]
    else []
  }

  /** Python's `str` of a boolean. */
  function BoolStr(b: bool): string
  {
    if b then "True" else "False"
  }

  function LowerChar(c: char): char
  {
    if 'A' <= c <= 'Z' then (c as int - 'A' as int + 'a' as int) as char else c
  }

  /** `str.lower()` on ASCII text. */
  function Lower(s: string): (r: string)
    ensures |r| == |s|
  {
    seq(|s|, i requires 0 <= i < |s| => LowerChar(s[i]))
  }

  /** `str(b).lower()` is the JSON spelling of the boolean. */
  lemma LowerBoolStr(b: bool)
    ensures Lower(BoolStr(b)) == if b then "true" else "false"
  {
    var s := BoolStr(b);
    var want := if b then "true" else "false";
    forall i | 0 <= i < |s| ensures Lower(s)[i] == want[i] {
    }
  }

  /** `data.get(key)`: the value stored under `key`, JSON null when there is none. */
  function Get(data: Response, key: string): Json
  {
    if key in data then data[key] else Null
  }

  /** Python's truth value of a JSON value: null and the empty string are false. */
  predicate IsTruthy(j: Json)
  {
    match j
    case Null => false
    case Str(s) => s != ""
    case Other(truthy) => truthy
  }

  /** The `audio` field, when truthy, is text (anything else would make the decoder raise). */
  predicate AudioFieldIsText(data: Response)
  {
    IsTruthy(Get(data, "audio")) ==> Get(data, "audio").Str?
  }

  /**
   * The audio-present check of `_extract_and_save_audio`: the base64 text to hand
   * to the audio handler, or None when the field is missing, null, empty or
   * another falsy value (`0`, `false`, `[]`, `{}`).
   */
  function AudioToProcess(data: Response): (r: Option<string>)
    requires AudioFieldIsText(data)
    ensures r.None? <==> "audio" !in data || data["audio"] in {Null, Str(""), Other(false)}
    ensures r.Some? ==> r.value != "" && data["audio"] == Str(r.value)
  {
    var audioBase64 := Get(data, "audio");
    if !IsTruthy(audioBase64) then None else Some(audioBase64.s)
  }

  /** Whether `generate` takes the reply: it exists and, as a dict, is non-empty. */
  predicate ResponseIsTruthy(reply: Option<Response>)
  {
    reply.Some? && |reply.value| > 0
  }

  /** The message list of `generate`: the assistant entry, if any, then the user's. */
  function ConversationMessages(userMessage: string, assistantMessage: Option<string>): seq<Message>
  {
    AssistantMessages(assistantMessage) + UserMessages(userMessage)
  }

  class AudioTextProcessor {
    const apiUrl: string
    const appId: string
    const language: string
    const ttsVoice: string
    const useVoice: bool
    const authorization: string
    const outputDir: string
    const audioHandler: AudioHandler

    /** Stores the configuration and creates the audio handler (and so its output directory). */
    constructor(host: Host, appId: string, language: string := DefaultLanguage,
                ttsVoice: string := DefaultTtsVoice, useVoice: bool := DefaultUseVoice,
                apiUrl: string := "", authorization: string := "", outputDir: string := "output")
      modifies host
      ensures this.appId == appId && this.language == language && this.ttsVoice == ttsVoice
      ensures this.useVoice == useVoice && this.apiUrl == apiUrl && this.authorization == authorization
      ensures this.outputDir == outputDir && audioHandler.outputDir == outputDir
      ensures host.dirs == old(host.dirs) + {outputDir}
      ensures host.files == old(host.files) && host.unwritable == old(host.unwritable)
      ensures host.played == old(host.played)
    {
      this.apiUrl := apiUrl;
      this.appId := appId;
      this.language := language;
      this.ttsVoice := ttsVoice;
      this.useVoice := useVoice;
      this.authorization := authorization;
      this.outputDir := outputDir;
      audioHandler := new AudioHandler(outputDir, host);
    }

    /**
     * `_prepare_payload`: exactly five form fields; the messages are the assistant
     * entries followed by the user entries, and `voice` is `"true"` or `"false"`.
     */
    function PreparePayload(userMessages: seq<Message>, assistantMessages: seq<Message>,
                            ttsVoice: Option<string>, language: Option<string>, useVoice: Option<bool>): (p: Payload)
      ensures p.Keys == {"app_id", "language", "tts_voice", "voice", "messages"}
      ensures p["app_id"] == Text(appId)
      ensures p["voice"] == Text("true") || p["voice"] == Text("false")
      ensures p["messages"] == MessagesJson(assistantMessages + userMessages)
    {
      LowerBoolStr(true);
      LowerBoolStr(false);
      map[
        "app_id" := Text(appId),
        "language" := Text(if language.Some? then language.value else this.language),
        "tts_voice" := Text(if ttsVoice.Some? then ttsVoice.value else this.ttsVoice),
        "voice" := Text(if useVoice.Some? then Lower(BoolStr(useVoice.value)) else Lower(BoolStr(this.useVoice))),
        "messages" := MessagesJson(assistantMessages + userMessages)
      ]
    }

    /**
     * An override wins whenever it is given (`is not None`), even when it is falsy;
     * otherwise the value configured on the processor is sent.
     */
    lemma OverridesWin(userMessages: seq<Message>, assistantMessages: seq<Message>,
                       ttsVoice: Option<string>, language: Option<string>, useVoice: Option<bool>)
      ensures var p := PreparePayload(userMessages, assistantMessages, ttsVoice, language, useVoice);
        && p["language"] == Text(if language.Some? then language.value else this.language)
        && p["tts_voice"] == Text(if ttsVoice.Some? then ttsVoice.value else this.ttsVoice)
        && (p["voice"] == Text("true") <==> (if useVoice.Some? then useVoice.value else this.useVoice))
    {
      LowerBoolStr(true);
      LowerBoolStr(false);
    }

    /**
     * `_extract_and_save_audio`: without audio in the reply the handler is never
     * invoked and nothing changes; otherwise the reply's audio is processed.
     */
    method ExtractAndSaveAudio(host: Host, data: Response, playAudioFlag: bool, hex: string, transcode: Transcoder)
      requires AudioFieldIsText(data)
      modifies host
      ensures AudioToProcess(data).None? ==>
        host.files == old(host.files) && host.played == old(host.played)
      ensures AudioToProcess(data).Some? ==>
        var o := old(audioHandler.Outcome(host, AudioToProcess(data).value, hex, transcode));
        && host.files == (if o.Some? then old(host.files)[o.value.0 := o.value.1] else old(host.files))
        && host.played == old(host.played) + (if playAudioFlag && o.Some? then [o.value.0] else [])
      ensures host.dirs == old(host.dirs) && host.unwritable == old(host.unwritable)
    {
      var audioBase64 := AudioToProcess(data);
      if audioBase64.None? {
        return;
      }
      var audioFilePath := audioHandler.ProcessAudio(host, audioBase64.value, playAudioFlag, hex, transcode);
    }

    /**
     * `generate`: sends the payload built from the turn, and returns the reply
     * unchanged when it is a non-empty object, None otherwise; only a returned
     * reply has its audio processed.
     */
    method Generate(host: Host, userMessage: string, assistantMessage: Option<string>,
                    ttsVoice: Option<string>, language: Option<string>, useVoice: Option<bool>,
                    playAudio: bool, api: Payload -> Option<Response>, hex: string, transcode: Transcoder)
      returns (r: Option<Response>)
      requires var reply := api(PreparePayload(UserMessages(userMessage), AssistantMessages(assistantMessage),
                                               ttsVoice, language, useVoice));
        reply.Some? ==> AudioFieldIsText(reply.value)
      modifies host
      ensures var reply := api(PreparePayload(UserMessages(userMessage), AssistantMessages(assistantMessage),
                                              ttsVoice, language, useVoice));
        r == if ResponseIsTruthy(reply) then reply else None
      ensures r.None? || AudioToProcess(r.value).None? ==>
        host.files == old(host.files) && host.played == old(host.played)
      ensures r.Some? && AudioToProcess(r.value).Some? ==>
        var o := old(audioHandler.Outcome(host, AudioToProcess(r.value).value, hex, transcode));
        && host.files == (if o.Some? then old(host.files)[o.value.0 := o.value.1] else old(host.files))
        && host.played == old(host.played) + (if playAudio && o.Some? then [o.value.0] else [])
      ensures host.dirs == old(host.dirs) && host.unwritable == old(host.unwritable)
    {
      var userMessages := UserMessages(userMessage);
      var assistantMessagesList := AssistantMessages(assistantMessage);
      var payload := PreparePayload(userMessages, assistantMessagesList, ttsVoice, language, useVoice);
      var responseData := api(payload);
      if ResponseIsTruthy(responseData) {
        ExtractAndSaveAudio(host, responseData.value, playAudio, hex, transcode);
        return responseData;
      } else {
        return None;
      }
    }
  }

  /**
   * The message order of a turn: the user's entry is last; the assistant's entry
   * comes first exactly when a non-empty assistant message is given.
   */
  lemma MessageOrder(userMessage: string, assistantMessage: Option<string>)
    ensures var m := ConversationMessages(userMessage, assistantMessage);
      && 1 <= |m| <= 2
      && m[|m| - 1] == Message("user", userMessage)
      && (|m| == 2 <==> assistantMessage.Some? && assistantMessage.value != "")
      && (|m| == 2 ==> m[0] == Message("assistant", assistantMessage.value))
  {
  }
}
