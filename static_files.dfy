/**
 * The static-file middleware of server/middleware/static.go: which file a
 * request path names, its MIME type, its cache headers, the fallback to the
 * index page, and the download configuration handed to the response helpers.
 * The embedded file system is a map from embedded path to file bytes.
 */
module StaticFiles {
  import opened Wrappers
  import opened Text
  import Ginx

  /** mimeTypes: the entry the table holds for an extension, if any; a constant map lookup. */
  function MimeType(ext: string): Option<string> {
    match ext
    case ".html" => Some("text/html; charset=utf-8")
    case ".htm" => Some("text/html; charset=utf-8")
    case ".css" => Some("text/css; charset=utf-8")
    case ".js" => Some("application/javascript; charset=utf-8")
    case ".json" => Some("application/json; charset=utf-8")
    case ".png" => Some("image/png")
    case ".jpg" => Some("image/jpeg")
    case ".jpeg" => Some("image/jpeg")
    case ".gif" => Some("image/gif")
    case ".svg" => Some("image/svg+xml")
    case ".ico" => Some("image/x-icon")
    case ".woff" => Some("font/woff")
    case ".woff2" => Some("font/woff2")
    case ".ttf" => Some("font/ttf")
    case ".eot" => Some("application/vnd.ms-fontobject")
    case ".otf" => Some("font/otf")
    case ".txt" => Some("text/plain; charset=utf-8")
    case ".xml" => Some("application/xml")
    case ".pdf" => Some("application/pdf")
    case ".zip" => Some("application/zip")
    case ".tar" => Some("application/x-tar")
    case ".gz" => Some("application/gzip")
    case ".mp3" => Some("audio/mpeg")
    case ".mp4" => Some("video/mp4")
    case ".webm" => Some("video/webm")
    case ".webp" => Some("image/webp")
    case ".wasm" => Some("application/wasm")
    case _ => None
  }

  /** getContentType: the table entry of the lower-cased extension, octet-stream when there is none. */
  function ContentTypeOf(filename: string): string {
    MimeType(ToLower(Ext(filename))).GetOr(Ginx.OctetStream)
  }

  /** Names that differ only in the case of ASCII letters get the same content type. */
  lemma ContentTypeIgnoresCase(f: string, g: string)
    requires ToLower(f) == ToLower(g)
    ensures ContentTypeOf(f) == ContentTypeOf(g)
  {
    ExtOfLower(f);
    ExtOfLower(g);
  }

  /** A name whose final element has no '.' is served as octet-stream. */
  lemma NoExtensionIsOctetStream(filename: string)
    requires '.' !in LastElement(filename)
    ensures ContentTypeOf(filename) == Ginx.OctetStream
  {
    ExtStartsAtLastDot(filename);
    assert ToLower(Ext(filename)) == "";
  }

  /** An extension that is not in the table, in any case, is served as octet-stream. */
  lemma UnknownExtensionIsOctetStream(filename: string)
    requires MimeType(ToLower(Ext(filename))).None?
    ensures ContentTypeOf(filename) == Ginx.OctetStream
  {
  }

  /**
   * A name ending in an extension of the table (one '.', at its start, no
   * '/', no upper-case letter) gets that extension's entry, whatever precedes it.
   */
  lemma KnownExtension(base: string, ext: string)
    requires ext != [] && ext[0] == '.' && forall i :: 1 <= i < |ext| ==> ext[i] != '.' && ext[i] != '/'
    requires ToLower(ext) == ext && MimeType(ext).Some?
    ensures ContentTypeOf(base + ext) == MimeType(ext).value
  {
    ExtOfDotSuffix(base, ext);
    assert ToLower(Ext(base + ext)) == ext;
  }

  /** The short names of the front end's files, expanded by appending their extension. */
  function Alias(name: string): (r: string)
    ensures r != name ==> '.' !in name && HasPrefix(r, name + ".")
  {
    match name
    case "index" => "index.html"
    case "favicon" => "favicon.ico"
    case "style" => "style.css"
    case "app" => "app.js"
    case "logo" => "logo.png"
    case "icon-go" => "icon-go.png"
    case "icon-java" => "icon-java.png"
    case "icon-ts" => "icon-ts.png"
    case "icon-python" => "icon-python.png"
    case _ => name
  }

  /** Expanding an expanded name changes nothing. */
  lemma AliasIdempotent(name: string)
    ensures Alias(Alias(name)) == Alias(name)
  {
  }

  /** What the middleware does with a request path before touching any file. */
  datatype Route = PassOn | Lookup(filename: string)

  /**
   * The path-to-file-name steps of HandleStaticFile: an "/api/" path is
   * passed on; "/" and "" become "/index.html"; one leading '/' is removed;
   * a short name is expanded.
   */
  function RouteOf(path: string): (r: Route)
    ensures r.PassOn? <==> HasPrefix(path, "/api/")
  {
    if HasPrefix(path, "/api/") then PassOn
    else
      var full := if path == "/" || path == "" then "/index.html" else path;
      Lookup(Alias(TrimPrefix(full, "/")))
  }

  /** The root, written "/" or "", names the index page. */
  lemma RootIsIndex(path: string)
    requires path == "/" || path == ""
    ensures RouteOf(path) == Lookup("index.html")
  {
    assert HasPrefix("/index.html", "/");
  }

  /**
   * Exactly one leading '/' is removed and the rest is kept as it is (then
   * expanded if it is a short name): "//x" names "/x".
   */
  lemma OneSlashRemoved(name: string)
    requires name != "" && !HasPrefix(name, "api/")
    ensures RouteOf("/" + name) == Lookup(Alias(name))
  {
    var path := "/" + name;
    assert HasPrefix(path, "/");
    assert |name| >= 4 ==> path[..5] == "/" + name[..4];
  }

  const NoStore := "no-cache, no-store, must-revalidate"
  const LongLived := "public, max-age=31536000"

  /**
   * The cache headers of a served file: an HTML page is never cached, every
   * other file is cached for a year and carries an Expires date (`expires`,
   * the formatted clock reading a year ahead).
   */
  function CacheHeaders(filename: string, expires: string): (h: map<string, string>)
    ensures "Cache-Control" in h
    ensures h["Cache-Control"] == NoStore <==> HasSuffix(filename, ".html")
    ensures h["Cache-Control"] != NoStore ==> h["Cache-Control"] == LongLived
    ensures "Expires" in h <==> !HasSuffix(filename, ".html")
    ensures "Expires" in h ==> h["Expires"] == expires
    ensures h.Keys <= {"Cache-Control", "Expires"}
  {
    if HasSuffix(filename, ".html") then map["Cache-Control" := NoStore]
    else map["Cache-Control" := LongLived, "Expires" := expires]
  }

  /** The path under which a front-end file is embedded. */
  function EmbeddedPath(filename: string): string {
    "static/" + filename
  }

  const IndexPath := "static/index.html"

  /** What HandleStaticFile leaves behind, as a value. */
  datatype StaticReply =
    | Passed                                                  // c.Next(): the API routes answer
    | NotFound(contentType: string)                           // 404 "File not found"; Content-Type was set first
    | Serve(contentType: string, settings: Ginx.DownloadSettings)  // FileResult with this config

  /** The download config HandleStaticFile builds for a file it serves. */
  function ServedSettings(filename: string, content: seq<bv8>, header: map<string, string>): Ginx.DownloadSettings {
    Ginx.DownloadSettings(filename, true, ContentTypeOf(filename), Some(content), false, "", "", 0, false, header)
  }

  /**
   * The lookup part of HandleStaticFile, as a value: the file is served with
   * its cache headers; a missing file other than the index page is answered
   * with the index page's bytes under the requested name, its content type
   * and no cache header; otherwise 404.
   */
  function FileReply(filename: string, files: map<string, seq<bv8>>, expires: string): (r: StaticReply)
    ensures !r.Passed?
    ensures r.Serve? ==>
      && r.settings.preview && r.settings.contentType == r.contentType
      && r.settings.filepath == "" && !r.settings.hasReader && r.settings.content.Some?
  {
    var contentType := ContentTypeOf(filename);
    if EmbeddedPath(filename) in files then
      Serve(contentType, ServedSettings(filename, files[EmbeddedPath(filename)], CacheHeaders(filename, expires)))
    else if filename != "index.html" && IndexPath in files then
      Serve(contentType, ServedSettings(filename, files[IndexPath], map[]))
    else NotFound(contentType)
  }

  /** HandleStaticFile, as a value: an API path is passed on, any other is looked up. */
  function StaticReplyOf(path: string, files: map<string, seq<bv8>>, expires: string): (r: StaticReply)
    ensures r.Passed? <==> HasPrefix(path, "/api/")
    ensures r.Serve? ==>
      && r.settings.preview && r.settings.contentType == r.contentType
      && r.settings.filepath == "" && !r.settings.hasReader && r.settings.content.Some?
  {
    match RouteOf(path)
    case PassOn => Passed
    case Lookup(filename) => FileReply(filename, files, expires)
  }

  /** A file that is present is served with its own bytes and its cache headers. */
  lemma PresentFileIsServed(filename: string, files: map<string, seq<bv8>>, expires: string)
    requires EmbeddedPath(filename) in files
    ensures FileReply(filename, files, expires) ==
      Serve(ContentTypeOf(filename), ServedSettings(filename, files[EmbeddedPath(filename)], CacheHeaders(filename, expires)))
  {
  }

  /**
   * A missing file is answered with the index page when that exists, under
   * the requested name and content type and with no cache header, and with a
   * 404 when it does not.
   */
  lemma MissingFileFallsBack(filename: string, files: map<string, seq<bv8>>, expires: string)
    requires EmbeddedPath(filename) !in files
    ensures IndexPath in files ==>
      FileReply(filename, files, expires) == Serve(ContentTypeOf(filename), ServedSettings(filename, files[IndexPath], map[]))
    ensures IndexPath !in files ==> FileReply(filename, files, expires) == NotFound(ContentTypeOf(filename))
  {
    if filename == "index.html" {
      assert EmbeddedPath(filename) == IndexPath;
    }
  }

  /** With the index page embedded, no path is answered with a 404. */
  lemma IndexPresentNeverNotFound(path: string, files: map<string, seq<bv8>>, expires: string)
    requires IndexPath in files
    ensures !StaticReplyOf(path, files, expires).NotFound?
  {
    var route := RouteOf(path);
    if route.Lookup? {
      var filename := route.filename;
      if EmbeddedPath(filename) in files {
        PresentFileIsServed(filename, files, expires);
      } else {
        MissingFileFallsBack(filename, files, expires);
      }
    }
  }

  /** frontendFS as declared: an embed.FS with no embedding directive, so it holds no file. */
  const DeclaredFrontend: map<string, seq<bv8>> := map[]

  /** With the file system as declared, every path that is not passed on is a 404. */
  lemma DeclaredFrontendServesNothing(path: string, expires: string)
    ensures StaticReplyOf(path, DeclaredFrontend, expires).Passed? ||
            StaticReplyOf(path, DeclaredFrontend, expires).NotFound?
  {
  }

  /**
   * What a served file then goes through in the response helpers: the
   * headers with an inline disposition, the length and the bytes, and after
   * them the 500 "no file content provided" reply.
   */
  lemma ServedFileThenErrorReply(path: string, files: map<string, seq<bv8>>, expires: string,
                                 version: string, now: string, quote: string -> string)
    requires StaticReplyOf(path, files, expires).Serve?
    ensures var s := StaticReplyOf(path, files, expires).settings;
      var out := Ginx.DownloadTranscript(Some(s), version, now, quote);
      && out[1] == Ginx.SetHeader("Content-Disposition", "inline; filename=" + Ginx.GetDownloadFilename(s.filename, quote))
      && out[3] == Ginx.SetHeader("Cache-Control", "no-cache")
      && out[5] == Ginx.WriteBody(s.content.value)
      && out[|out| - 1].Json? && out[|out| - 1].reply.status == Ginx.StatusInternalServerError
      && (forall i :: 0 <= i < |out| && out[i].SetHeader? ==> out[i].name != "Expires")
  {
    var s := StaticReplyOf(path, files, expires).settings;
    Ginx.ContentWrittenThenErrorReply(s, version, now, quote);
  }

  /** HandleStaticFile's outcome: what it returns with, holding the config it built. */
  datatype StaticOutcome =
    | Next
    | Missing(contentType: string)
    | Found(contentType: string, config: Ginx.FileDownloadConfig)

  function Observe(o: StaticOutcome): StaticReply
    reads if o.Found? then {o.config} else {}
  {
    match o
    case Next => Passed
    case Missing(contentType) => NotFound(contentType)
    case Found(contentType, config) => Serve(contentType, config.Settings())
  }

  /**
   * HandleStaticFile: reassigns the path and the file name step by step,
   * then looks the file up.
   */
  method HandleStaticFile(requestPath: string, files: map<string, seq<bv8>>, expires: string)
    returns (outcome: StaticOutcome)
    ensures outcome.Found? ==> fresh(outcome.config)
    ensures Observe(outcome) == StaticReplyOf(requestPath, files, expires)
  {
    var path := requestPath;
    if HasPrefix(path, "/api/") {
      return Next;
    }
    if path == "/" || path == "" {
      path := "/index.html";
    }
    var filename := TrimPrefix(path, "/");
    filename := Alias(filename);
    assert RouteOf(requestPath) == Lookup(filename);
    outcome := ServeFile(filename, files, expires);
  }

  /**
   * The rest of HandleStaticFile: builds the download config, reads the
   * embedded file (or the index page) into it and inserts the cache headers
   * into its header map.
   */
  method ServeFile(filename: string, files: map<string, seq<bv8>>, expires: string)
    returns (outcome: StaticOutcome)
    ensures outcome.Found? ==> fresh(outcome.config)
    ensures Observe(outcome) == FileReply(filename, files, expires)
  {
    var contentType := ContentTypeOf(filename);
    var config := new Ginx.FileDownloadConfig(filename, true, contentType);
    if EmbeddedPath(filename) !in files {
      if filename != "index.html" {
        if IndexPath !in files {
          config.content := None;
          return Missing(contentType);
        }
        config.content := Some(files[IndexPath]);
        assert config.Settings() == ServedSettings(filename, files[IndexPath], map[]);
        return Found(contentType, config);
      }
      return Missing(contentType);
    }
    var content := files[EmbeddedPath(filename)];
    config.content := Some(content);
    if HasSuffix(filename, ".html") {
      config.header := config.header["Cache-Control" := NoStore];
    } else {
      config.header := config.header["Cache-Control" := LongLived];
      config.header := config.header["Expires" := expires];
    }
    assert config.header == CacheHeaders(filename, expires);
    assert config.Settings() == ServedSettings(filename, content, CacheHeaders(filename, expires));
    return Found(contentType, config);
  }
}
