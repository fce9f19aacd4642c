# json-converter-server, modelled in Dafny

json-converter-server is a small Gin web server with a browser front end. It is
meant to turn a JSON sample into type definitions for Go, Java, TypeScript or
Python. Its convert endpoint does no conversion yet: it answers with a fixed
example per language. This project models the deterministic core around that
endpoint and proves what each part promises.

- **Static files** (`StaticFiles`, static_files.dfy): the middleware that maps a request
  path to an embedded front-end file. It covers the `/api/` pass-through, the root page,
  the short-name aliases, the MIME table, the cache-header map it builds (which no
  download sends, see "Left out"), the fallback to the index page and the 404. The embedded file system is a map from embedded path to bytes.
- **Responses** (`Ginx`, response.dfy): `handleData` turns a payload into a list, and
  `prepareResponse` derives the status, code and message from the kind of error. The file
  download fills in its config defaults in place and then writes a sequence of emissions:
  headers, the body and the JSON replies. The module also covers the file-name and
  content-type rules of a download.
- **Convert endpoint** (`Controller`, handle.dfy): dispatch on the language, the Go
  struct-tag suffix built in an array loop, the four example templates, and the language
  and tag catalogues.
- **Client state** (`App`, app.dfy): the page's state object is a class. Its handlers
  change it in place: tag toggling, JSON validity, the convert guard and the `converting`
  flag, the download file name and clearing the output.
- `Text` (text.dfy) writes out the library string functions these rely on:
  - `strings.HasPrefix`/`HasSuffix`/`TrimPrefix`/`ToLower`/`Join`/`ReplaceAll`;
  - `filepath.Ext` and `filepath.Base`;
  - `strconv.Itoa`;
  - `Array.prototype.indexOf`;
  - `String.prototype.trim`.

  It also defines `Split` on one character. The source never splits; `Split` is the
  inverse of `Join` that the tag-suffix round trip is stated with.
- `Wrappers` (wrappers.dfy) holds `Option`.

Calls into code that is not modelled are parameters:
- `strconv.Quote` is `quote`;
- `mime.TypeByExtension` is `typeByExt`;
- the result of `errors.As` is the `coded` field of an error;
- `JSON.parse` succeeding is `parses`;
- the result of `ShouldBindJSON` is an `Option`;
- the outcome of `fetch` is a `FetchOutcome`;
- the formatted clock readings are the strings `now` and `expires`.

A download is modelled as the sequence of calls the handler makes on the Gin
context (`c.Header`, a copy, `c.Writer.Write`, `c.JSON`), each an `Emission`. These
are calls, not bytes on the wire. Once the body has been written, Gin ignores a later
status, so a `c.JSON` call with 500 after the file's bytes cannot change the 200. What
happens to its JSON text depends on the branch. The content branch declares
`Content-Length` as the content's length (response.go:250), and the path branch
declares the file's size (response.go:214). There net/http refuses the bytes past
the declared length, and the JSON is not sent. The reader branch declares no length,
so there the JSON text follows the streamed bytes.

## Model

| member | source | states |
|---|---|---|
| Text.TrimPrefix | server/middleware/static.go:91 | one copy of the prefix is removed when present, and otherwise the string is unchanged |
| Text.ToLowerAt | server/middleware/static.go:66 | every character of the lower-cased string is the lower-cased character at the same place |
| Text.Base | common/ginx/response.go:218 | `filepath.Base`: "." for an empty path; "/" for a path of slashes only; otherwise the final element once the trailing slashes are dropped; never empty, and without '/' unless it is "/" |
| Text.LastElement | server/middleware/static.go:66 | the final path element is a suffix without '/', preceded by a '/' when it is not the whole path |
| Text.Ext | server/middleware/static.go:66 | definition of `filepath.Ext`; ExtInLastElement and ExtStartsAtLastDot fix it as the suffix from the final element's last '.' |
| Text.ExtInLastElement | server/middleware/static.go:66 | `filepath.Ext` returns a suffix of the final path element |
| Text.ExtStartsAtLastDot | server/middleware/static.go:66 | `filepath.Ext` is empty exactly when the final element has no '.'; otherwise it starts with its only '.' |
| Text.ExtOfDotSuffix | server/middleware/static.go:66 | a name ending in ".ext" (one dot, no '/') has extension ".ext", whatever precedes it |
| Text.ExtOfLower | server/middleware/static.go:66 | lower-casing the name and taking its extension commute |
| Text.SplitJoin | server/controller/handle.go:83 | splitting a join of pieces that do not contain the separator gives the pieces back |
| Text.Without | common/ginx/response.go:266 | no removed character remains, and every other character keeps its number of occurrences |
| Text.WithoutUnit | common/ginx/response.go:266 | removal from "" gives ""; from one character, gives it back exactly when it is not the removed one |
| Text.WithoutAppend | common/ginx/response.go:266 | removal distributes over concatenation, so with WithoutUnit the kept characters stay in their order |
| Text.IndexOf | static/app.js:303 | -1 exactly when absent; otherwise the first index holding the value |
| Text.TrimEmptyIffBlank | static/app.js:224 | trim gives "" exactly when every character is ECMAScript whitespace |
| Text.NatToStringRoundTrip | common/ginx/response.go:250 | the Content-Length digits read back as the content's length |
| Ginx.HandleData | common/ginx/response.go:139-148 | the result is always a list: a list is kept; a non-list becomes a slice with at most one element, empty exactly for nil or a nil pointer, and otherwise holding the value |
| Ginx.HandleDataIdempotent | common/ginx/response.go:139-148 | normalising twice is the same as normalising once |
| Ginx.PrepareResponse | common/ginx/response.go:92-124 | status 500 exactly for an error without a coded error in its chain, 200 otherwise; code, message and trace follow from the error kind; data is normalised; version and time are passed through |
| Ginx.ResponseErr | common/ginx/response.go:57-60 | an error reply carries the empty list; a plain error gives 500 with its text as the message |
| Ginx.FileDownloadConfig.constructor | server/middleware/static.go:117-122 | the config literal: the given name, preview flag and content type; every other field zero, with an empty header map |
| Ginx.WithDefaults | common/ginx/response.go:158-169 | after defaulting, content type, disposition and buffer size are set; "inline" whenever Preview; "attachment" or 4096 only where empty or ≤ 0; no other field changes |
| Ginx.WithDefaultsIdempotent | common/ginx/response.go:158-169 | filling in the defaults twice changes nothing |
| Ginx.FileDownloadConfig.ApplyDefaults | common/ginx/response.go:157-169 | the in-place defaulting steps leave the config equal to WithDefaults of the old one |
| Ginx.GetDownloadFilename | common/ginx/response.go:260-267 | "download" for an empty name; otherwise no '"', and every other character of the quoted name kept |
| Ginx.SourceOf | common/ginx/response.go:178-185 | path first, then reader, then content, each only when the earlier ones are absent |
| Ginx.DownloadTranscript | common/ginx/response.go:151-188 | a nil config gives one error reply; otherwise the four headers of the defaulted config come first, then exactly the branch of the first source present (nothing when none is), and the "no file content provided" error reply last |
| Ginx.ContentWrittenThenErrorReply | common/ginx/response.go:176-187 | in-memory content: seven emissions; "inline" under Preview; `Cache-Control: no-cache` and no Expires header; the bytes at the sixth place; then the `c.JSON` call of the "no file content provided" error reply, a 500 by ResponseErr |
| Ginx.DownloadTranscriptIntended | common/ginx/response.go:178-187 | corrected: the error reply is last exactly when no source is present; with a source, the headers are followed by that source's branch and nothing else |
| Ginx.TranscriptAppendsErrorReply | common/ginx/response.go:186-187 | as written, a download with a source is the intended one plus the error reply; without a source the two agree |
| Ginx.AfterSource | common/ginx/response.go:216-219 | only the path branch writes to the config: once the file was opened, an empty file name becomes `Base` of the path, which is never empty; a given name and every other field are kept |
| Ginx.SourceEmissions | common/ginx/response.go:248-257 | definition: one stream call for a path or a reader; the length header and the bytes for content; ContentWrittenThenErrorReply states the content case |
| Ginx.HandleFileDownload | common/ginx/response.go:151-188 | the config is defaulted in place and then AfterSource of its source branch, and the emissions are DownloadTranscript of the config as given |
| Ginx.CustomType | common/ginx/response.go:293-326 | definition: the switch, each case with its leading '.'; CustomTypeNeedsDot states its shape |
| Ginx.ContentTypeOf | common/ginx/response.go:280-327 | definition, as written; CustomSwitchUnreachable and CustomSwitchMissed state what it returns |
| Ginx.CustomTypeNeedsDot | common/ginx/response.go:293-326 | no string without a '.' matches a case of the switch |
| Ginx.CustomSwitchUnreachable | common/ginx/response.go:280-327 | as written, the content type is the library's answer when there is one and octet-stream otherwise, for every name |
| Ginx.ContentTypeOfIntended | common/ginx/response.go:280-327 | corrected: octet-stream for "", the library's answer when there is one, else the switch on the lower-cased extension with its dot |
| Ginx.CustomSwitchMissed | common/ginx/response.go:280-327 | for every name whose lower-cased extension is a switch case and that the library does not know: octet-stream as written, the switch's type as intended, and the two differ |
| Ginx.CsvMissesCustomSwitch | common/ginx/response.go:310-311 | "report.CSV" with no library answer: octet-stream as written, "text/csv" as intended |
| StaticFiles.MimeType | server/middleware/static.go:34-62 | definition: the 27 table entries; KnownExtension and UnknownExtensionIsOctetStream state its use |
| StaticFiles.ContentTypeOf | server/middleware/static.go:65-72 | definition: the table entry of the lower-cased extension, else octet-stream; the four lemmas below state its properties |
| StaticFiles.ContentTypeIgnoresCase | server/middleware/static.go:65-72 | names equal up to ASCII case get the same MIME type |
| StaticFiles.NoExtensionIsOctetStream | server/middleware/static.go:65-72 | a final element without '.' gives octet-stream |
| StaticFiles.UnknownExtensionIsOctetStream | server/middleware/static.go:67-71 | an extension missing from the table, in any case, gives octet-stream |
| StaticFiles.KnownExtension | server/middleware/static.go:34-69 | a name ending in a table extension gets that entry, whatever precedes it |
| StaticFiles.Alias | server/middleware/static.go:93-112 | an alias only expands a dot-free short name, by appending "." and an extension |
| StaticFiles.AliasIdempotent | server/middleware/static.go:93-112 | expanding an expanded name changes nothing |
| StaticFiles.RouteOf | server/middleware/static.go:79-112 | a path is passed on to the API exactly when it starts with "/api/" |
| StaticFiles.RootIsIndex | server/middleware/static.go:86-91 | "/" and "" name index.html |
| StaticFiles.OneSlashRemoved | server/middleware/static.go:90-91 | one leading '/' is removed and the rest kept, then aliased |
| StaticFiles.CacheHeaders | server/middleware/static.go:141-148 | HTML names get no-store and no Expires; every other name gets a one-year max-age and Expires; no other header |
| StaticFiles.FileReply | server/middleware/static.go:113-148 | a reply that serves always previews in-memory content under its content type |
| StaticFiles.StaticReplyOf | server/middleware/static.go:75-150 | passed on exactly for API paths; a served reply always previews in-memory content |
| StaticFiles.PresentFileIsServed | server/middleware/static.go:124-149 | a present file's config carries its bytes, its content type and the cache-header map, which the download does not send |
| StaticFiles.MissingFileFallsBack | server/middleware/static.go:124-138 | a missing file gets the index page's bytes under its own name and type, with no cache header, or a 404 when the index page is missing too |
| StaticFiles.IndexPresentNeverNotFound | server/middleware/static.go:124-138 | corrected: with the index page embedded, no path gets a 404 |
| StaticFiles.DeclaredFrontendServesNothing | server/middleware/static.go:30-31 | with the file system as declared, every path is passed on or gets a 404 |
| StaticFiles.ServedFileThenErrorReply | server/middleware/static.go:149 | a served file's download calls set an inline disposition, `Cache-Control: no-cache` and no Expires header, write its bytes, and end in the `c.JSON` call of a 500 reply |
| StaticFiles.HandleStaticFile | server/middleware/static.go:75-112 | the outcome, with its fresh config, is StaticReplyOf the request path |
| StaticFiles.ServeFile | server/middleware/static.go:113-150 | the config built in place and the outcome are FileReply of the file name |
| Controller.FillSlot | server/controller/handle.go:86-99 | each `%s` argument appears verbatim at its slot of the formatted text |
| Controller.TagSuffix | server/controller/handle.go:77-84 | definition: empty exactly for no tags; BuildTagSuffix computes it and TagSuffixRoundTrip reads the tags back from it |
| Controller.TagSuffixRoundTrip | server/controller/handle.go:77-84 | the tag suffix reads back into the tag list, in order, for tags without spaces |
| Controller.BuildTagSuffix | server/controller/handle.go:77-84 | the array loop produces TagSuffix of the tags |
| Controller.GoExample | server/controller/handle.go:76-100 | definition: the Go template filled with the package name, the struct name and the tag suffix; GoExampleSlots and GoExampleDependsOnlyOnNamesAndTags state its content |
| Controller.JavaExample | server/controller/handle.go:103-119 | definition; OtherExamplesDependOnlyOnStructName states its dependence |
| Controller.TypeScriptExample | server/controller/handle.go:121-130 | definition; OtherExamplesDependOnlyOnStructName states its dependence |
| Controller.PythonExample | server/controller/handle.go:132-143 | definition; OtherExamplesDependOnlyOnStructName states its dependence |
| Controller.Generate | server/controller/handle.go:52-67 | an example exactly for the four supported languages; DispatchRoutes names the template of each |
| Controller.GoExampleSlots | server/controller/handle.go:86-99 | the Go example holds the package name, the struct name twice, and the tag suffix after each of the five fields |
| Controller.GenerateGoExample | server/controller/handle.go:76-100 | the generated text is GoExample of the request |
| Controller.GoExampleDependsOnlyOnNamesAndTags | server/controller/handle.go:76-100 | the Go example depends only on the package name, the struct name and the tags |
| Controller.OtherExamplesDependOnlyOnStructName | server/controller/handle.go:103-143 | the Java, TypeScript and Python examples depend only on the struct name |
| Controller.ConvertReplyOf | server/controller/handle.go:39-73 | success exactly for a bound body with a supported language; 200 or 400 accordingly; code exactly on success; the right error message otherwise |
| Controller.DispatchRoutes | server/controller/handle.go:52-60 | each supported language gets its own template |
| Controller.HandleConvert | server/controller/handle.go:39-73 | the reply is ConvertReplyOf the bound body |
| Controller.HandleGetLanguages | server/controller/handle.go:154-162 | 200, and the four languages in the order golang, java, typescript, python |
| Controller.HandleGetTags | server/controller/handle.go:164-176 | 200, and the eight tags in the order json, mapstructure, gorm, bson, yaml, xml, validate, form |
| Controller.CatalogueMatchesDispatch | server/controller/handle.go:52-67 | a language is dispatched exactly when the languages catalogue lists it |
| App.Toggled | static/app.js:302-308 | one tag longer when the tag was absent (and then holding it), one shorter when present; the Toggle lemmas below state which |
| App.ToggleAbsentAppends | static/app.js:302-305 | an absent tag is appended at the end |
| App.ToggleRemovesFirstOccurrence | static/app.js:303-308 | a present tag loses its first occurrence only; the rest keep their order; the multiset loses one copy |
| App.ToggleTwiceRestores | static/app.js:302-308 | toggling an absent tag twice restores the list exactly |
| App.ToggleKeepsDistinct | static/app.js:302-310 | a list without repeats keeps having none |
| App.ToggleFlipsMembership | static/app.js:302-310 | on a list without repeats, the tag's membership flips and every other tag's is kept |
| App.FileExtension | static/app.js:476-484 | definition: the getFileExtension switch; FileExtensionMatchesServer states its properties |
| App.FileExtensionMatchesServer | static/app.js:476-484 | a language gets its own extension exactly when the server supports it; the extensions are distinct and dot-free |
| App.AvailableTagsMatchServer | static/app.js:17-26 | the client offers the server's tag catalogue, in the same order |
| App.InitialStateConsistent | static/app.js:2-14 | the initial tags are distinct and offered; nothing is convertible or downloadable yet |
| App.ConvertRoundTrip | static/app.js:335-362 | the request the client builds comes back as the language's example, or as the unsupported-language error |
| App.DownloadNameExtension | static/app.js:462-463 | the download name's `filepath.Ext` is "." followed by the language's extension |
| App.AppState.constructor | static/app.js:2-14 | the initial state object |
| App.AppState.ToggleTag | static/app.js:302-310 | the tags become Toggled of the old tags, and nothing else changes |
| App.AppState.ValidateJson | static/app.js:223-235 | valid exactly when the input is not blank and parses; nothing else changes |
| App.AppState.BeginConvert | static/app.js:321-345 | refuses and changes nothing unless the input is valid and no conversion runs; otherwise sets converting and posts the state's request; afterwards no second call proceeds |
| App.AppState.FinishConvert | static/app.js:347-366 | the output follows the outcome, and converting is cleared on every path |
| App.AppState.ConvertJson | static/app.js:321-367 | nothing happens when not allowed; otherwise the output follows the outcome and converting ends false |
| App.AppState.DownloadCode | static/app.js:457-463 | no file exactly for an empty output; otherwise structName, ".", the language's extension |
| App.AppState.ClearOutput | static/app.js:487-491 | the output is emptied, and nothing else changes |

## Left out

- File streaming and OS calls are not modelled: `handleFileDownloadFromPath`, `handleFileDownloadFromReader`, `io.CopyBuffer`, `os.Open`, `Stat` and `Remove`. A download from a path or a reader is one `Stream` emission, and its own error replies and its `Content-Length` header are not modelled. Whether `os.Stat`, `os.Open` and `file.Stat` succeed is the parameter `pathOpened`; its one effect on the config, the write of `filepath.Base(Filepath)` into an empty `Filename` (response.go:216-219), is `Ginx.AfterSource`. The `Stream(FromPath)` emission is made whatever `pathOpened` is; when it is false the source instead sends the branch's own 500 reply (response.go:193-211) and streams nothing.
- Write errors of `c.Writer.Write` are not modelled; the content branch always succeeds.
- Logging in `prepareResponse` is not modelled. `time.Now()` formatting is a string parameter (`now`, `expires`).
- `strconv.Quote`, `mime.TypeByExtension`, `errors.As` and `JSON.parse` are uninterpreted parameters.
- `strings.ToLower` is modelled on ASCII letters only. Go also lower-cases other Unicode letters.
- The `mimeTypes` map is written as a switch over the same 27 entries, which gives the same lookup.
- `ResponseOK`, `JsonResult`, `PureJsonResult`, `FileResultWithError`, `SimpleFileDownload` and the pagination variants are thin wrappers, and are not modelled separately. `FileResultWithError` answers with `ResponseErr` when given an error and downloads otherwise. `SimpleFileDownload` builds a config whose content type is Ginx's `getContentType` of the path; it is that function's only caller. `FileResult` is `HandleFileDownload`.
- Gin's `c.Next()` is the `Passed` reply. The 404 body `{"error": "File not found"}` is the `NotFound` reply.
- The `Content-Type` header set at static.go:115 is the reply's `contentType`.
- The client's DOM updates are not modelled: syntax highlighting, `escapeHtml`, clipboard, Blob/URL download mechanics, example loading, `updateUI` and `updateStateFromInputs`.
- Between `BeginConvert` and `FinishConvert` other handlers may run. Only the guard on a second conversion is modelled.
- The unused request fields (`json`, `make_public`, `add_comments`, `use_pointer`, `time_as_string`) are carried but no template reads them.
- The health-check, demo and startup code of the server is not part of this model.
- Ginx.GetDownloadFilename: its own contract states that no '"' remains and that every other character keeps its number of occurrences; that their order is kept is stated about `Text.Without`, which gives the result, by Text.WithoutAppend and Text.WithoutUnit.
- StaticFiles.CacheHeaders: static.go:121 and :143-147 fill a `Header` field that `FileDownloadConfig` at response.go:40-50 does not declare, so static.go does not compile against response.go as given. The model gives the settings a `header` map so that the middleware's intent can be stated. `handleFileDownload` never reads it and always sets `Cache-Control: no-cache` (response.go:176); `StaticFiles.ServedFileThenErrorReply` states that the Cache-Control sent is `no-cache` and that no Expires header is sent.
- Text.Ext and Text.Base: model `filepath.Ext` and `filepath.Base` with '/' as the only separator, as on Unix; on Windows Go also stops at '\\'.

## Findings

| source | as written | input that shows it | evidently intended | confidence | as-written member | corrected member |
|---|---|---|---|---|---|---|
| common/ginx/response.go:292-326 | the extension has its dot trimmed before the switch, but every case is written with a leading dot, so no case can match | "report.CSV" when `mime.TypeByExtension` has no entry for ".CSV": application/octet-stream | text/csv, the switch's entry for the lower-cased extension | high, not executed | Ginx.CsvMissesCustomSwitch | Ginx.ContentTypeOfIntended |
| common/ginx/response.go:179-187 | no `return` after the branch that wrote the file, so the 500 "no file content provided" reply always follows | any `FileResult` config with Content set, such as a static file once the front end is embedded: after the bytes, `c.JSON(500, …)` is called, which cannot change the 200 and whose JSON net/http refuses past the declared Content-Length | the error reply only when no source is present | high, not executed | Ginx.ContentWrittenThenErrorReply | Ginx.DownloadTranscriptIntended |
| server/middleware/static.go:30-31 | `frontendFS` is an `embed.FS` without a `//go:embed` directive, so it holds no file | the path "/" (or any path outside "/api/"): 404 | the front-end files embedded under "static/", so the index page is found | high, not executed | StaticFiles.DeclaredFrontendServesNothing | StaticFiles.IndexPresentNeverNotFound |
