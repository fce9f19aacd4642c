/**
 * The option state of the browser client, static/app.js: one mutable state
 * object that the tag toggles, the validity check, the convert request, the
 * download and the clear button update in place. The DOM is not modelled;
 * each handler is modelled by its effect on the state.
 */
module App {
  import opened Wrappers
  import opened Text
  import Controller

  /** Toggling a tag: append it when absent, otherwise splice out its first occurrence. */
  function Toggled(tags: seq<string>, tag: string): (r: seq<string>)
    ensures tag !in tags ==> |r| == |tags| + 1 && tag in r
    ensures tag in tags ==> |r| == |tags| - 1
  {
    var index := IndexOf(tags, tag);
    if index == -1 then tags + [tag] else tags[..index] + tags[index + 1..]
  }

  /** An absent tag is appended at the end; nothing else moves. */
  lemma ToggleAbsentAppends(tags: seq<string>, tag: string)
    requires tag !in tags
    ensures Toggled(tags, tag) == tags + [tag]
  {
  }

  /**
   * A present tag loses its first occurrence and only that one: the tags
   * before it and after it keep their order, and the multiset of tags loses
   * exactly one copy of it.
   */
  lemma ToggleRemovesFirstOccurrence(tags: seq<string>, tag: string)
    requires tag in tags
    ensures exists i :: (0 <= i < |tags| && tags[i] == tag && tag !in tags[..i] &&
      Toggled(tags, tag) == tags[..i] + tags[i + 1..])
    ensures multiset(Toggled(tags, tag)) == multiset(tags) - multiset{tag}
  {
    var i := IndexOf(tags, tag);
    assert tags == tags[..i] + [tag] + tags[i + 1..];
    assert multiset(tags) == multiset(tags[..i]) + multiset{tag} + multiset(tags[i + 1..]);
  }

  /** Toggling an absent tag twice gives back the original list exactly. */
  lemma ToggleTwiceRestores(tags: seq<string>, tag: string)
    requires tag !in tags
    ensures Toggled(Toggled(tags, tag), tag) == tags
  {
    var once := tags + [tag];
    var i := IndexOf(once, tag);
    assert i == |tags|;
    assert once[..i] == tags;
  }

  predicate Distinct(tags: seq<string>) {
    forall i, j :: 0 <= i < j < |tags| ==> tags[i] != tags[j]
  }

  /** On a list without repeats, toggling keeps it without repeats. */
  lemma ToggleKeepsDistinct(tags: seq<string>, tag: string)
    requires Distinct(tags)
    ensures Distinct(Toggled(tags, tag))
  {
    var r := Toggled(tags, tag);
    if tag in tags {
      var i := IndexOf(tags, tag);
      assert r == tags[..i] + tags[i + 1..];
      forall a, b | 0 <= a < b < |r|
        ensures r[a] != r[b]
      {
        var a' := if a < i then a else a + 1;
        var b' := if b < i then b else b + 1;
        assert r[a] == tags[a'] && r[b] == tags[b'];
      }
    }
  }

  /** On a list without repeats, toggling flips the tag's membership and keeps every other tag's. */
  lemma ToggleFlipsMembership(tags: seq<string>, tag: string)
    requires Distinct(tags)
    ensures forall t :: t in Toggled(tags, tag) <==> if t == tag then tag !in tags else t in tags
  {
    var r := Toggled(tags, tag);
    if tag in tags {
      var i := IndexOf(tags, tag);
      assert r == tags[..i] + tags[i + 1..];
      forall t | t in tags && t != tag
        ensures t in r
      {
        var k :| 0 <= k < |tags| && tags[k] == t;
        if k < i {
          assert r[k] == t;
        } else {
          assert r[k - 1] == t;
        }
      }
      forall k | 0 <= k < |r|
        ensures r[k] != tag
      {
        var k' := if k < i then k else k + 1;
        assert r[k] == tags[k'];
      }
    } else {
      assert r == tags + [tag];
    }
  }

  /** getFileExtension */
  function FileExtension(language: string): string {
    match language
    case "golang" => "go"
    case "java" => "java"
    case "typescript" => "ts"
    case "python" => "py"
    case _ => "txt"
  }

  /**
   * A language gets an extension of its own exactly when the server's convert
   * endpoint supports it; the four extensions are distinct and contain no dot.
   */
  lemma FileExtensionMatchesServer(language: string)
    ensures FileExtension(language) != "txt" <==> language in Controller.SupportedLanguages
    ensures '.' !in FileExtension(language) && '/' !in FileExtension(language)
    ensures forall other :: other != language && other in Controller.SupportedLanguages && language in Controller.SupportedLanguages ==>
      FileExtension(other) != FileExtension(language)
  {
  }

  /** availableTags: the tag values the client offers. */
  const AvailableTags: seq<string> := ["json", "mapstructure", "gorm", "bson", "yaml", "xml", "validate", "form"]

  /** The client offers the tags the server's catalogue lists, in the same order. */
  lemma AvailableTagsMatchServer()
    ensures |AvailableTags| == |Controller.HandleGetTags().1|
    ensures forall i :: 0 <= i < |AvailableTags| ==> AvailableTags[i] == Controller.HandleGetTags().1[i].value
  {
  }

  /** The fields of the state object, as a value. */
  datatype StateValue = StateValue(
    jsonInput: string,
    language: string,
    tags: seq<string>,
    structName: string,
    packageName: string,
    addComments: bool,
    usePointer: bool,
    timeAsString: bool,
    isValidJson: bool,
    converting: bool,
    outputCode: string)

  const Initial := StateValue("", "golang", ["json", "mapstructure"], "User", "models", true, false, false, false, false, "")

  /** The initial tags are distinct and among the offered ones; nothing can be converted or downloaded yet. */
  lemma InitialStateConsistent()
    ensures Distinct(Initial.tags)
    ensures forall t :: t in Initial.tags ==> t in AvailableTags
    ensures !(Initial.isValidJson && !Initial.converting) && Initial.outputCode == ""
  {
  }

  /** The body convertJson posts: the state's options, with make_public always false. */
  function RequestOf(s: StateValue): Controller.ConvertRequest {
    Controller.ConvertRequest(s.jsonInput, s.language, s.tags, s.structName, s.packageName,
      false, s.addComments, s.usePointer, s.timeAsString)
  }

  /** How the awaited fetch ended: a parsed reply, or an exception with its message. */
  datatype FetchOutcome =
    | Received(success: bool, code: string, error: string)
    | Failed(message: string)

  const ErrorPrefix := "错误: "
  const FailurePrefix := "请求失败: "

  /** What convertJson writes to outputCode for an outcome. */
  function OutputOf(outcome: FetchOutcome): string {
    match outcome
    case Received(success, code, error) => if success then code else ErrorPrefix + error
    case Failed(message) => FailurePrefix + message
  }

  /** The reply of the server's convert endpoint, as the client reads it. */
  function ReceivedOf(reply: Controller.ConvertReply): FetchOutcome {
    Received(reply.success, reply.code.GetOr(""), reply.error.GetOr(""))
  }

  /**
   * Client and server together: the request the client builds is answered
   * with the language's example when the language is supported, and the
   * output reads as the unsupported-language error otherwise.
   */
  lemma ConvertRoundTrip(s: StateValue)
    ensures var req := RequestOf(s);
      var out := OutputOf(ReceivedOf(Controller.ConvertReplyOf(Some(req))));
      && (s.language in Controller.SupportedLanguages ==> out == Controller.Generate(req).value)
      && (s.language !in Controller.SupportedLanguages ==> out == ErrorPrefix + Controller.UnsupportedLanguageMessage)
  {
  }

  /** The name downloadCode gives the file: structName, a dot, the extension. */
  function DownloadName(s: StateValue): string {
    s.structName + "." + FileExtension(s.language)
  }

  /** filepath.Ext of the download name is exactly the language's extension, with its dot. */
  lemma DownloadNameExtension(s: StateValue)
    ensures Ext(DownloadName(s)) == "." + FileExtension(s.language)
  {
    FileExtensionMatchesServer(s.language);
    var ext := "." + FileExtension(s.language);
    assert DownloadName(s) == s.structName + ext;
    ExtOfDotSuffix(s.structName, ext);
  }

  class AppState {
    var jsonInput: string
    var language: string
    var tags: seq<string>
    var structName: string
    var packageName: string
    var addComments: bool
    var usePointer: bool
    var timeAsString: bool
    var isValidJson: bool
    var converting: bool
    var outputCode: string

    function Snapshot(): StateValue
      reads this
    {
      StateValue(jsonInput, language, tags, structName, packageName, addComments, usePointer,
        timeAsString, isValidJson, converting, outputCode)
    }

    /** The state object as the page loads it. */
    constructor ()
      ensures Snapshot() == Initial
    {
      jsonInput := "";
      language := "golang";
      tags := ["json", "mapstructure"];
      structName := "User";
      packageName := "models";
      addComments := true;
      usePointer := false;
      timeAsString := false;
      isValidJson := false;
      converting := false;
      outputCode := "";
    }

    /** The convert button is enabled, and convertJson proceeds, exactly when this holds. */
    predicate ConvertAllowed()
      reads this
    {
      isValidJson && !converting
    }

    /** toggleTag: push or splice on the tag list, nothing else changes. */
    method ToggleTag(tag: string)
      modifies this
      ensures Snapshot() == old(Snapshot()).(tags := Toggled(old(tags), tag))
    {
      var index := IndexOf(tags, tag);
      if index == -1 {
        tags := tags + [tag];
      } else {
        tags := tags[..index] + tags[index + 1..];
      }
    }

    /**
     * validateJson (`parses` stands for JSON.parse succeeding): blank input is
     * invalid without being parsed; other input is valid exactly when it parses.
     */
    method ValidateJson(parses: string -> bool)
      modifies this
      ensures isValidJson == (!IsBlank(jsonInput) && parses(jsonInput))
      ensures Snapshot() == old(Snapshot()).(isValidJson := isValidJson)
    {
      TrimEmptyIffBlank(jsonInput);
      if Trim(jsonInput) == "" {
        isValidJson := false;
        return;
      }
      isValidJson := parses(jsonInput);
    }

    /**
     * The part of convertJson before its await: refuses when the input is
     * invalid or a conversion runs, otherwise marks the conversion as running
     * and yields the body to post. Once it has started, a second call refuses.
     */
    method BeginConvert() returns (body: Option<Controller.ConvertRequest>)
      modifies this
      ensures !old(ConvertAllowed()) ==> body.None? && Snapshot() == old(Snapshot())
      ensures old(ConvertAllowed()) ==> (body == Some(RequestOf(old(Snapshot()))) &&
        Snapshot() == old(Snapshot()).(converting := true))
      ensures !ConvertAllowed()
    {
      if !isValidJson || converting {
        return None;
      }
      converting := true;
      body := Some(RequestOf(Snapshot()));
    }

    /** The part of convertJson after its await: the output, then `converting` cleared on every path. */
    method FinishConvert(outcome: FetchOutcome)
      modifies this
      ensures Snapshot() == old(Snapshot()).(outputCode := OutputOf(outcome), converting := false)
    {
      match outcome {
        case Received(success, code, error) =>
          if success {
            outputCode := code;
          } else {
            outputCode := ErrorPrefix + error;
          }
        case Failed(message) =>
          outputCode := FailurePrefix + message;
      }
      converting := false;
    }

    /**
     * convertJson with the fetch's outcome given: nothing happens when it is
     * not allowed; otherwise the output is set and the conversion is no longer
     * running, whatever the outcome.
     */
    method ConvertJson(outcome: FetchOutcome) returns (posted: Option<Controller.ConvertRequest>)
      modifies this
      ensures !old(ConvertAllowed()) ==> posted.None? && Snapshot() == old(Snapshot())
      ensures old(ConvertAllowed()) ==> (posted == Some(RequestOf(old(Snapshot()))) &&
        Snapshot() == old(Snapshot()).(outputCode := OutputOf(outcome), converting := false))
    {
      posted := BeginConvert();
      if posted.Some? {
        FinishConvert(outcome);
      }
    }

    /** downloadCode: no file for an empty output, otherwise the file's name. */
    method DownloadCode() returns (filename: Option<string>)
      ensures outputCode == "" <==> filename.None?
      ensures filename.Some? ==> filename.value == DownloadName(Snapshot())
    {
      if outputCode == "" {
        return None;
      }
      var extension := FileExtension(language);
      filename := Some(structName + "." + extension);
    }

    /** clearOutput: the output is emptied, so nothing can be downloaded until the next conversion. */
    method ClearOutput()
      modifies this
      ensures Snapshot() == old(Snapshot()).(outputCode := "")
    {
      outputCode := "";
    }
  }
}
