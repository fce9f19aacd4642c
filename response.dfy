/**
 * The JSON and file responses of common/ginx/response.go: how a payload is
 * normalised into a list, how the status, code and message follow from the
 * error, which defaults a file download fills in and in what order it writes
 * its response, and the file-name and content-type rules of a download.
 */
module Ginx {
  import opened Wrappers
  import opened Text

  const OctetStream := "application/octet-stream"
  const StatusOK := 200
  const StatusInternalServerError := 500

  /** A Go `any` value, as `reflect.ValueOf` classifies it. */
  datatype Value =
    | Nil                             // the nil interface: the reflect value is not valid
    | Pointer(target: Option<Value>)  // a pointer; None is a nil pointer
    | Slice(elems: seq<Value>)        // a slice, a nil slice included
    | Array(elems: seq<Value>)        // an array
    | Scalar(text: string)            // every other kind: bool, number, string, map, struct, ...

  predicate IsList(v: Value) {
    v.Slice? || v.Array?
  }

  /** The values handleData turns into an empty list. */
  predicate IsNilData(v: Value) {
    v.Nil? || v == Pointer(None)
  }

  /**
   * handleData: the payload of every JSON response is a list. A list stays as
   * it is; nil and a nil pointer become an empty slice; any other value becomes
   * the only element of a new slice.
   */
  function HandleData(data: Value): (r: Value)
    ensures IsList(r)
    ensures IsList(data) ==> r == data
    ensures !IsList(data) ==> r.Slice? && |r.elems| <= 1
    ensures !IsList(data) ==> (r.elems == [] <==> IsNilData(data))
    ensures !IsList(data) && r.elems != [] ==> r.elems[0] == data
  {
    match data
    case Nil => Slice([])
    case Pointer(None) => Slice([])
    case Slice(_) => data
    case Array(_) => data
    case _ => Slice([data])
  }

  /** Normalising an already normalised payload changes nothing. */
  lemma HandleDataIdempotent(data: Value)
    ensures HandleData(HandleData(data)) == HandleData(data)
  {
  }

  /** The `*errors2.Error` that errors.As finds in an error's chain. */
  datatype CodedError = CodedError(code: int, message: string, text: string)

  /** A Go error: what Error() returns, and what errors.As(err, &ex) finds for it. */
  datatype GoError = GoError(text: string, coded: Option<CodedError>)

  /** errors.New: a plain error, with no coded error in its chain. */
  function NewError(text: string): GoError {
    GoError(text, None)
  }

  /** Response; `currentTime` is the formatted clock reading, a parameter here. */
  datatype Response = Response(
    code: int,
    message: string,
    errTrace: string,
    version: string,
    currentTime: string,
    data: Value)

  /** What `c.JSON(status, body)` is called with. */
  datatype Reply = Reply(status: int, body: Response)

  /**
   * prepareResponse: with no error, 200 and code 0 with empty message and
   * trace; a coded error keeps 200 and carries its own code, message and text;
   * any other error is a 500 whose message and trace are both its text.
   */
  function PrepareResponse(version: string, data: Value, err: Option<GoError>, now: string): (r: Reply)
    ensures r.body.version == version && r.body.currentTime == now
    ensures r.body.data == HandleData(data)
    ensures r.status == StatusInternalServerError <==> err.Some? && err.value.coded.None?
    ensures r.status != StatusInternalServerError ==> r.status == StatusOK
    ensures err.None? ==> r.body.code == 0 && r.body.message == "" && r.body.errTrace == ""
    ensures err.Some? && err.value.coded.Some? ==>
      var ex := err.value.coded.value;
      r.body.code == ex.code && r.body.message == ex.message && r.body.errTrace == ex.text
    ensures err.Some? && err.value.coded.None? ==>
      r.body.code == 0 && r.body.message == err.value.text && r.body.errTrace == err.value.text
  {
    var (status, code, message, trace) :=
      match err
      case None => (StatusOK, 0, "", "")
      case Some(e) =>
        match e.coded
        case Some(ex) => (StatusOK, ex.code, ex.message, ex.text)
        case None => (StatusInternalServerError, 0, e.text, e.text);
    Reply(status, Response(code, message, trace, version, now, HandleData(data)))
  }

  /** ResponseErr: an error reply, whose payload is the empty list. */
  function ResponseErr(version: string, err: GoError, now: string): (r: Reply)
    ensures r.body.data == Slice([])
    ensures err.coded.None? ==>
      r.status == StatusInternalServerError && r.body.code == 0 && r.body.message == err.text
  {
    PrepareResponse(version, Nil, Some(err), now)
  }

  const NilConfigMessage := "file download config is nil"
  const NoContentMessage := "no file content provided"

  /** The fields of a FileDownloadConfig, as a value. */
  datatype DownloadSettings = DownloadSettings(
    filename: string,
    preview: bool,
    contentType: string,
    content: Option<seq<bv8>>,  // None is a nil slice
    hasReader: bool,            // Reader != nil
    filepath: string,
    disposition: string,
    bufferSize: int,
    deleteAfter: bool,
    header: map<string, string>)

  /**
   * FileDownloadConfig. The `header` field is the name-to-value map that
   * server/middleware/static.go fills in; response.go itself never reads it.
   */
  class FileDownloadConfig {
    var filename: string
    var preview: bool
    var contentType: string
    var content: Option<seq<bv8>>
    var hasReader: bool
    var filepath: string
    var disposition: string
    var bufferSize: int
    var deleteAfter: bool
    var header: map<string, string>

    /** A composite literal setting Filename, Preview, ContentType and an empty Header. */
    constructor (filename: string, preview: bool, contentType: string)
      ensures Settings() == DownloadSettings(filename, preview, contentType, None, false, "", "", 0, false, map[])
    {
      this.filename := filename;
      this.preview := preview;
      this.contentType := contentType;
      content := None;
      hasReader := false;
      filepath := "";
      disposition := "";
      bufferSize := 0;
      deleteAfter := false;
      header := map[];
    }

    function Settings(): DownloadSettings
      reads this
    {
      DownloadSettings(filename, preview, contentType, content, hasReader,
                       filepath, disposition, bufferSize, deleteAfter, header)
    }

    /** The defaulting steps of handleFileDownload, in place, in the source's order. */
    method ApplyDefaults()
      modifies this
      ensures Settings() == WithDefaults(old(Settings()))
    {
      if contentType == "" {
        contentType := OctetStream;
      }
      if disposition == "" {
        disposition := "attachment";
      }
      if bufferSize <= 0 {
        bufferSize := 4096;
      }
      if preview {
        disposition := "inline";
      }
    }
  }

  /**
   * The defaults handleFileDownload writes into the config: a content type,
   * a disposition ("inline" whenever Preview is set) and a positive buffer
   * size; nothing else changes.
   */
  function WithDefaults(s: DownloadSettings): (d: DownloadSettings)
    ensures d.contentType != "" && d.disposition != "" && d.bufferSize > 0
    ensures d.contentType == (if s.contentType == "" then OctetStream else s.contentType)
    ensures s.preview ==> d.disposition == "inline"
    ensures !s.preview ==> d.disposition == (if s.disposition == "" then "attachment" else s.disposition)
    ensures d.bufferSize == (if s.bufferSize <= 0 then 4096 else s.bufferSize)
    ensures d.(contentType := s.contentType, disposition := s.disposition, bufferSize := s.bufferSize) == s
  {
    var contentType := if s.contentType == "" then OctetStream else s.contentType;
    var disposition := if s.disposition == "" then "attachment" else s.disposition;
    var bufferSize := if s.bufferSize <= 0 then 4096 else s.bufferSize;
    s.(contentType := contentType,
       disposition := if s.preview then "inline" else disposition,
       bufferSize := bufferSize)
  }

  /** Filling in the defaults a second time changes nothing. */
  lemma WithDefaultsIdempotent(s: DownloadSettings)
    ensures WithDefaults(WithDefaults(s)) == WithDefaults(s)
  {
  }

  /**
   * getDownloadFilename: "download" for an empty name, otherwise the
   * strconv.Quote form of the name with every '"' removed.
   */
  function GetDownloadFilename(filename: string, quote: string -> string): (r: string)
    ensures filename == "" ==> r == "download"
    ensures filename != "" ==> '"' !in r
    ensures filename != "" ==> forall d :: d != '"' ==> multiset(r)[d] == multiset(quote(filename))[d]
  {
    if filename == "" then "download" else Without(quote(filename), '"')
  }

  /** The source a download is written from, in the order handleFileDownload tests them. */
  datatype Source = FromPath | FromReader | FromContent

  function SourceOf(s: DownloadSettings): (r: Option<Source>)
    ensures r == Some(FromPath) <==> s.filepath != ""
    ensures r == Some(FromReader) <==> s.filepath == "" && s.hasReader
    ensures r == Some(FromContent) <==> s.filepath == "" && !s.hasReader && s.content.Some?
  {
    if s.filepath != "" then Some(FromPath)
    else if s.hasReader then Some(FromReader)
    else if s.content.Some? then Some(FromContent)
    else None
  }

  /** One thing written to the HTTP response, in order. */
  datatype Emission =
    | SetHeader(name: string, value: string)
    | Stream(source: Source)   // copying from a file or a reader, whose I/O is not modelled
    | WriteBody(bytes: seq<bv8>)
    | Json(reply: Reply)

  /** The four headers handleFileDownload sets once the defaults are in place. */
  function DownloadHeaders(d: DownloadSettings, quote: string -> string): seq<Emission> {
    [ SetHeader("Content-Type", d.contentType),
      SetHeader("Content-Disposition", d.disposition + "; filename=" + GetDownloadFilename(d.filename, quote)),
      SetHeader("Content-Transfer-Encoding", "binary"),
      SetHeader("Cache-Control", "no-cache") ]
  }

  /** What the branch for each source writes; handleFileDownloadFromContent sets the length and writes the bytes. */
  function SourceEmissions(d: DownloadSettings, source: Source): seq<Emission>
    requires source == FromContent ==> d.content.Some?
  {
    match source
    case FromPath => [Stream(FromPath)]
    case FromReader => [Stream(FromReader)]
    case FromContent =>
      [SetHeader("Content-Length", NatToString(|d.content.value|)), WriteBody(d.content.value)]
  }

  /**
   * Everything handleFileDownload writes, as written: a nil config gives one
   * error reply; otherwise the headers, the branch of the first source present,
   * and then, with no return before it, the "no file content provided" error
   * reply in every case.
   */
  function DownloadTranscript(config: Option<DownloadSettings>, version: string, now: string,
                              quote: string -> string): (out: seq<Emission>)
    ensures config.None? ==> out == [Json(ResponseErr(version, NewError(NilConfigMessage), now))]
    ensures config.Some? ==>
      && |out| >= 5
      && out[..4] == DownloadHeaders(WithDefaults(config.value), quote)
      && out[|out| - 1] == Json(ResponseErr(version, NewError(NoContentMessage), now))
    ensures config.Some? ==>
      (out[4..|out| - 1] ==
        match SourceOf(WithDefaults(config.value))
        case Some(source) => SourceEmissions(WithDefaults(config.value), source)
        case None => [])
  {
    match config
    case None => [Json(ResponseErr(version, NewError(NilConfigMessage), now))]
    case Some(s) =>
      var d := WithDefaults(s);
      var body := match SourceOf(d) case Some(source) => SourceEmissions(d, source) case None => [];
      DownloadHeaders(d, quote) + body + [Json(ResponseErr(version, NewError(NoContentMessage), now))]
  }

  /**
   * With the content in memory, the bytes are written with status 200 and the
   * 500 "no file content provided" reply is written after them; with Preview
   * set the disposition is "inline".
   */
  lemma ContentWrittenThenErrorReply(s: DownloadSettings, version: string, now: string, quote: string -> string)
    requires s.filepath == "" && !s.hasReader && s.content.Some?
    ensures var out := DownloadTranscript(Some(s), version, now, quote);
      && |out| == 7
      && (s.preview ==> out[1] == SetHeader("Content-Disposition", "inline; filename=" + GetDownloadFilename(s.filename, quote)))
      && out[3] == SetHeader("Cache-Control", "no-cache")
      && out[5] == WriteBody(s.content.value)
      && out[6] == Json(ResponseErr(version, NewError(NoContentMessage), now))
      && (forall i :: 0 <= i < |out| && out[i].SetHeader? ==> out[i].name != "Expires")
  {
    var d := WithDefaults(s);
    assert SourceOf(d) == Some(FromContent);
    var headers := DownloadHeaders(d, quote);
    var body := SourceEmissions(d, FromContent);
    var tail := [Json(ResponseErr(version, NewError(NoContentMessage), now))];
    assert DownloadTranscript(Some(s), version, now, quote) == headers + body + tail;
    assert body[1] == WriteBody(s.content.value);
    assert (headers + body + tail)[5] == body[1];
    assert (headers + body + tail)[6] == tail[0];
    assert (headers + body + tail)[4] == body[0];
  }

  /**
   * The download as evidently intended: the error reply only when no source is
   * present, and no error reply after a source was written.
   */
  function DownloadTranscriptIntended(config: Option<DownloadSettings>, version: string, now: string,
                                      quote: string -> string): (out: seq<Emission>)
    ensures config.None? ==> out == [Json(ResponseErr(version, NewError(NilConfigMessage), now))]
    ensures config.Some? ==> |out| >= 5 && out[..4] == DownloadHeaders(WithDefaults(config.value), quote)
    ensures config.Some? ==>
      (out[|out| - 1] == Json(ResponseErr(version, NewError(NoContentMessage), now))
       <==> SourceOf(config.value).None?)
    ensures config.Some? && SourceOf(config.value).Some? ==> forall i :: 0 <= i < |out| ==> !out[i].Json?
    ensures config.Some? && SourceOf(config.value).Some? ==>
      out[4..] == SourceEmissions(WithDefaults(config.value), SourceOf(config.value).value)
    ensures config.Some? && SourceOf(config.value).None? ==> |out| == 5
  {
    match config
    case None => [Json(ResponseErr(version, NewError(NilConfigMessage), now))]
    case Some(s) =>
      var d := WithDefaults(s);
      assert SourceOf(d) == SourceOf(s);
      match SourceOf(d)
      case Some(source) => DownloadHeaders(d, quote) + SourceEmissions(d, source)
      case None => DownloadHeaders(d, quote) + [Json(ResponseErr(version, NewError(NoContentMessage), now))]
  }

  /**
   * What the missing return costs: when a source is present the transcript
   * as written is the intended one with the error reply appended; when none
   * is, the two agree.
   */
  lemma TranscriptAppendsErrorReply(s: DownloadSettings, version: string, now: string, quote: string -> string)
    ensures var written := DownloadTranscript(Some(s), version, now, quote);
      var intended := DownloadTranscriptIntended(Some(s), version, now, quote);
      && (SourceOf(s).Some? ==> written == intended + [Json(ResponseErr(version, NewError(NoContentMessage), now))])
      && (SourceOf(s).None? ==> written == intended)
  {
    var d := WithDefaults(s);
    assert SourceOf(d) == SourceOf(s);
  }

  /**
   * What the branch for a source leaves in the config: the path branch, once
   * the file is found, opened and its size read (`pathOpened`), gives an
   * unnamed download the base name of the path; nothing else is written.
   */
  function AfterSource(d: DownloadSettings, pathOpened: bool): (a: DownloadSettings)
    ensures SourceOf(d) == Some(FromPath) && pathOpened ==> a.filename != ""
    ensures a.filename != d.filename ==>
      && SourceOf(d) == Some(FromPath) && pathOpened && d.filename == ""
      && ('/' !in a.filename || a.filename == "/")
    ensures SourceOf(d) == Some(FromPath) && pathOpened && d.filename == "" ==> a.filename == Base(d.filepath)
    ensures d.filename != "" ==> a == d
    ensures a.(filename := d.filename) == d
  {
    if d.filepath != "" && pathOpened && d.filename == "" then d.(filename := Base(d.filepath)) else d
  }

  /**
   * handleFileDownload: writes the defaults into the config in place, step by
   * step, then sets the headers and runs the first source branch that applies.
   * `pathOpened` says whether the path branch found, opened and measured the
   * file.
   */
  method HandleFileDownload(config: FileDownloadConfig?, version: string, now: string,
                            quote: string -> string, pathOpened: bool) returns (out: seq<Emission>)
    modifies config
    ensures config == null ==> out == DownloadTranscript(None, version, now, quote)
    ensures config != null ==> config.Settings() == AfterSource(WithDefaults(old(config.Settings())), pathOpened)
    ensures config != null ==> out == DownloadTranscript(Some(old(config.Settings())), version, now, quote)
  {
    if config == null {
      out := [Json(ResponseErr(version, NewError(NilConfigMessage), now))];
      return;
    }
    ghost var given := config.Settings();
    config.ApplyDefaults();
    ghost var d := config.Settings();
    var filename := GetDownloadFilename(config.filename, quote);
    out := [ SetHeader("Content-Type", config.contentType),
             SetHeader("Content-Disposition", config.disposition + "; filename=" + filename),
             SetHeader("Content-Transfer-Encoding", "binary"),
             SetHeader("Cache-Control", "no-cache") ];
    assert out == DownloadHeaders(d, quote);
    if config.filepath != "" {
      out := out + [Stream(FromPath)];
      if pathOpened && config.filename == "" {
        config.filename := Base(config.filepath);
      }
    } else if config.hasReader {
      out := out + [Stream(FromReader)];
    } else if config.content.Some? {
      var content := config.content.value;
      out := out + [SetHeader("Content-Length", NatToString(|content|)), WriteBody(content)];
    }
    assert out == DownloadHeaders(d, quote) +
      match SourceOf(d) case Some(source) => SourceEmissions(d, source) case None => [];
    out := out + [Json(ResponseErr(version, NewError(NoContentMessage), now))];
  }

  /** The switch of getContentType, its cases written as in the source: each with a leading '.'. */
  function CustomType(ext: string): Option<string> {
    match ext
    case ".pdf" => Some("application/pdf")
    case ".jpg" => Some("image/jpeg")
    case ".jpeg" => Some("image/jpeg")
    case ".png" => Some("image/png")
    case ".gif" => Some("image/gif")
    case ".txt" => Some("text/plain")
    case ".html" => Some("text/html")
    case ".htm" => Some("text/html")
    case ".json" => Some("application/json")
    case ".xml" => Some("application/xml")
    case ".csv" => Some("text/csv")
    case ".xlsx" => Some("application/vnd.openxmlformats-officedocument.spreadsheetml.sheet")
    case ".xls" => Some("application/vnd.ms-excel")
    case ".docx" => Some("application/vnd.openxmlformats-officedocument.wordprocessingml.document")
    case ".doc" => Some("application/msword")
    case ".zip" => Some("application/zip")
    case ".rar" => Some("application/x-rar-compressed")
    case _ => None
  }

  /** Only a string that contains a '.' can match a case of the switch. */
  lemma CustomTypeNeedsDot(ext: string)
    requires '.' !in ext
    ensures CustomType(ext) == None
  {
    if ext != [] {
      assert ext[0] != '.';
    }
  }

  /**
   * getContentType as written: octet-stream for an empty name; otherwise what
   * mime.TypeByExtension (`typeByExt`) gives for the extension, and when that
   * is empty the switch on the extension with its dot trimmed and lower-cased.
   */
  function ContentTypeOf(fileName: string, typeByExt: string -> string): string {
    if fileName == "" then OctetStream
    else
      var fromLibrary := typeByExt(Ext(fileName));
      if fromLibrary != "" then fromLibrary
      else CustomType(ToLower(TrimPrefix(Ext(fileName), "."))).GetOr(OctetStream)
  }

  /**
   * The switch of getContentType never matches: the result is the library's
   * answer when there is one and octet-stream otherwise, whatever the name.
   */
  lemma CustomSwitchUnreachable(fileName: string, typeByExt: string -> string)
    ensures ContentTypeOf(fileName, typeByExt) ==
      if fileName == "" || typeByExt(Ext(fileName)) == "" then OctetStream else typeByExt(Ext(fileName))
  {
    if fileName != "" && typeByExt(Ext(fileName)) == "" {
      var e := Ext(fileName);
      ExtStartsAtLastDot(fileName);
      var trimmed := TrimPrefix(e, ".");
      assert '.' !in trimmed by {
        if e != "" {
          assert HasPrefix(e, ".");
          assert trimmed == e[1..];
        }
      }
      ToLowerAt(trimmed);
      CustomTypeNeedsDot(ToLower(trimmed));
    }
  }

  /** A mime.TypeByExtension that knows no extension. */
  function NoLibraryType(ext: string): string {
    ""
  }

  /**
   * getContentType as evidently intended: the switch consulted with the
   * lower-cased extension, dot included, when the library has no answer.
   */
  function ContentTypeOfIntended(fileName: string, typeByExt: string -> string): (r: string)
    ensures fileName == "" ==> r == OctetStream
    ensures fileName != "" && typeByExt(Ext(fileName)) != "" ==> r == typeByExt(Ext(fileName))
    ensures fileName != "" && typeByExt(Ext(fileName)) == "" ==>
      r == CustomType(ToLower(Ext(fileName))).GetOr(OctetStream)
  {
    if fileName == "" then OctetStream
    else
      var fromLibrary := typeByExt(Ext(fileName));
      if fromLibrary != "" then fromLibrary
      else CustomType(ToLower(Ext(fileName))).GetOr(OctetStream)
  }

  /**
   * Every name the switch was written for is missed: when the library has no
   * answer and the lower-cased extension is a case of the switch, the type is
   * octet-stream as written and the switch's own type as intended.
   */
  lemma CustomSwitchMissed(fileName: string, typeByExt: string -> string)
    requires typeByExt(Ext(fileName)) == "" && CustomType(ToLower(Ext(fileName))).Some?
    ensures ContentTypeOf(fileName, typeByExt) == OctetStream
    ensures ContentTypeOfIntended(fileName, typeByExt) == CustomType(ToLower(Ext(fileName))).value
    ensures ContentTypeOfIntended(fileName, typeByExt) != OctetStream
  {
    CustomSwitchUnreachable(fileName, typeByExt);
  }

  /** The extension of "report.CSV". */
  lemma ExtOfReportCsv()
    ensures Ext("report.CSV") == ".CSV"
  {
    assert "report.CSV" == "report" + ".CSV";
    ExtOfDotSuffix("report", ".CSV");
  }

  /** ".CSV" lower-cased. */
  lemma LowerCsv()
    ensures ToLower(".CSV") == ".csv"
  {
    assert ToLower(".") == ".";
    ToLowerSnoc(".", 'C');
    assert ".C" == "." + ['C'];
    ToLowerSnoc(".C", 'S');
    assert ".CS" == ".C" + ['S'];
    ToLowerSnoc(".CS", 'V');
    assert ".CSV" == ".CS" + ['V'];
  }

  /** "report.CSV" with no library answer: octet-stream as written, text/csv as intended. */
  lemma CsvMissesCustomSwitch()
    ensures ContentTypeOf("report.CSV", NoLibraryType) == OctetStream
    ensures ContentTypeOfIntended("report.CSV", NoLibraryType) == "text/csv"
  {
    ExtOfReportCsv();
    LowerCsv();
    CustomSwitchMissed("report.CSV", NoLibraryType);
  }
}
