/**
 * The convert endpoint of server/controller/handle.go and its catalogues.
 * The endpoint does no conversion: it dispatches on the language and fills a
 * fixed example template per language; only the Go template depends on more
 * than the struct name (the package name and the struct-tag list).
 */
module Controller {
  import opened Wrappers
  import opened Text

  /** reqBody, as bound from the request's JSON. */
  datatype ConvertRequest = ConvertRequest(
    json: string,
    language: string,
    tags: seq<string>,
    structName: string,
    packageName: string,
    makePublic: bool,
    addComments: bool,
    usePointer: bool,
    timeAsString: bool)

  const StatusOK := 200
  const StatusBadRequest := 400
  const InvalidRequestMessage := "无效的请求格式"
  const UnsupportedLanguageMessage := "不支持的语言类型"

  /** The gin.H that HandleConvert answers with: "success", then either "error" or "code". */
  datatype ConvertReply = ConvertReply(status: int, success: bool, error: Option<string>, code: Option<string>)

  /** fmt.Sprintf with `%s` verbs only: the fixed pieces of the format with the arguments between them. */
  function Fill(pieces: seq<string>, args: seq<string>): string
    requires |pieces| == |args| + 1
    decreases args
  {
    if args == [] then pieces[0] else pieces[0] + args[0] + Fill(pieces[1..], args[1..])
  }

  /** Where argument `k` starts in Fill(pieces, args). */
  function SlotStart(pieces: seq<string>, args: seq<string>, k: nat): nat
    requires |pieces| == |args| + 1 && k < |args|
    decreases k
  {
    |pieces[0]| + if k == 0 then 0 else |args[0]| + SlotStart(pieces[1..], args[1..], k - 1)
  }

  /** Every argument appears verbatim in the filled format, at its slot. */
  lemma {:induction false} FillSlot(pieces: seq<string>, args: seq<string>, k: nat)
    requires |pieces| == |args| + 1 && k < |args|
    ensures SlotStart(pieces, args, k) + |args[k]| <= |Fill(pieces, args)|
    ensures Fill(pieces, args)[SlotStart(pieces, args, k)..SlotStart(pieces, args, k) + |args[k]|] == args[k]
  {
    var head := pieces[0] + args[0];
    var rest := Fill(pieces[1..], args[1..]);
    assert Fill(pieces, args) == head + rest;
    if k > 0 {
      FillSlot(pieces[1..], args[1..], k - 1);
      var start := SlotStart(pieces[1..], args[1..], k - 1);
      var len := |args[k]|;
      assert args[1..][k - 1] == args[k];
      assert SlotStart(pieces, args, k) == |head| + start;
      assert rest[start..start + len] == args[k];
      SliceAfterPrefix(head, rest, start, start + len);
    }
  }

  /** A slice taken past a prefix is a slice of what follows the prefix. */
  lemma SliceAfterPrefix(prefix: string, s: string, i: nat, j: nat)
    requires i <= j <= |s|
    ensures (prefix + s)[|prefix| + i..|prefix| + j] == s[i..j]
  {
    var whole := prefix + s;
    forall k | 0 <= k < j - i
      ensures whole[|prefix| + i..|prefix| + j][k] == s[i..j][k]
    {
      assert whole[|prefix| + i + k] == s[i + k];
    }
  }

  /** One Go struct tag, `fmt.Sprintf(`%s:"-"`, tag)`. */
  function RenderTag(tag: string): string {
    tag + ":\"-\""
  }

  /** The tags rendered one by one, in order. */
  function RenderTags(tags: seq<string>): seq<string> {
    seq(|tags|, i requires 0 <= i < |tags| => RenderTag(tags[i]))
  }

  /**
   * The struct-tag suffix of every Go field: "" without tags; otherwise a
   * space, a backtick, the rendered tags joined by single spaces, a backtick.
   */
  function TagSuffix(tags: seq<string>): (r: string)
    ensures r == "" <==> tags == []
  {
    if |tags| == 0 then "" else " `" + Join(RenderTags(tags), " ") + "`"
  }

  /** Reads a tag suffix back into its tag list: the inverse of TagSuffix. */
  function ParseTagSuffix(s: string): Option<seq<string>> {
    if s == "" then Some([])
    else if |s| >= 3 && s[..2] == " `" && s[|s| - 1] == '`' then
      var parts := Split(s[2..|s| - 1], ' ');
      if forall i :: 0 <= i < |parts| ==> HasSuffix(parts[i], ":\"-\"") then
        Some(seq(|parts|, i requires 0 <= i < |parts| => parts[i][..|parts[i]| - 4]))
      else None
    else None
  }

  /**
   * The suffix determines the tags: reading it back gives the list, in order,
   * for tags without spaces (which no struct-tag key has).
   */
  lemma TagSuffixRoundTrip(tags: seq<string>)
    requires forall i :: 0 <= i < |tags| ==> ' ' !in tags[i]
    ensures ParseTagSuffix(TagSuffix(tags)) == Some(tags)
  {
    if |tags| > 0 {
      var rendered := RenderTags(tags);
      var s := TagSuffix(tags);
      assert s[..2] == " `" && s[|s| - 1] == '`' && s[2..|s| - 1] == Join(rendered, " ");
      RenderedTagsSplitBack(tags);
      UnrenderTags(tags);
    }
  }

  /** Joined with single spaces, the rendered tags split back into themselves. */
  lemma RenderedTagsSplitBack(tags: seq<string>)
    requires |tags| > 0 && forall i :: 0 <= i < |tags| ==> ' ' !in tags[i]
    ensures Split(Join(RenderTags(tags), " "), ' ') == RenderTags(tags)
  {
    var rendered := RenderTags(tags);
    forall i | 0 <= i < |rendered|
      ensures ' ' !in rendered[i]
    {
      assert rendered[i] == tags[i] + ":\"-\"";
    }
    SplitJoin(rendered, ' ');
  }

  /** Stripping the option from each rendered tag gives the tags back. */
  lemma UnrenderTags(tags: seq<string>)
    ensures var parts := RenderTags(tags);
      && (forall i :: 0 <= i < |parts| ==> HasSuffix(parts[i], ":\"-\""))
      && seq(|parts|, i requires 0 <= i < |parts| => parts[i][..|parts[i]| - 4]) == tags
  {
    var parts := RenderTags(tags);
    forall i | 0 <= i < |parts|
      ensures HasSuffix(parts[i], ":\"-\"") && parts[i][..|parts[i]| - 4] == tags[i]
    {
      assert parts[i] == tags[i] + ":\"-\"";
    }
  }

  /**
   * The loop of generateGoExample: fills tagStr by index, then joins it;
   * the result is the tag suffix of the list.
   */
  method BuildTagSuffix(tags: seq<string>) returns (suffix: string)
    ensures suffix == TagSuffix(tags)
  {
    suffix := "";
    if |tags| > 0 {
      var tagStr := new string[|tags|];
      for i := 0 to |tags|
        invariant forall j :: 0 <= j < i ==> tagStr[j] == RenderTag(tags[j])
      {
        tagStr[i] := RenderTag(tags[i]);
      }
      assert tagStr[..] == RenderTags(tags);
      suffix := " `" + Join(tagStr[..], " ") + "`";
    }
  }

  /** The format of generateGoExample, cut at its eight `%s` verbs. */
  const GoPieces: seq<string> := [
    "package ",
    "\n\n// ",
    " 自动生成的Go结构体\ntype ",
    " struct {\n\tID        int64  ",
    "\n\tName      string ",
    "\n\tEmail     string ",
    "\n\tCreatedAt string ",
    "\n\tIsActive  bool   ",
    "\n}"]

  function GoArgs(req: ConvertRequest, suffix: string): seq<string> {
    [req.packageName, req.structName, req.structName, suffix, suffix, suffix, suffix, suffix]
  }

  /** generateGoExample, as a value. */
  function GoExample(req: ConvertRequest): string {
    Fill(GoPieces, GoArgs(req, TagSuffix(req.tags)))
  }

  /**
   * The Go example holds the package name at its first slot, the struct name
   * at the next two and the tag suffix after each of the five fields.
   */
  lemma GoExampleSlots(req: ConvertRequest, k: nat)
    requires k < 8
    ensures var args := GoArgs(req, TagSuffix(req.tags));
      var start := SlotStart(GoPieces, args, k);
      && start + |args[k]| <= |GoExample(req)|
      && GoExample(req)[start..start + |args[k]|] ==
         if k == 0 then req.packageName else if k < 3 then req.structName else TagSuffix(req.tags)
  {
    FillSlot(GoPieces, GoArgs(req, TagSuffix(req.tags)), k);
  }

  /** generateGoExample: the loop for the tags, then the format. */
  method GenerateGoExample(req: ConvertRequest) returns (code: string)
    ensures code == GoExample(req)
  {
    var tags := BuildTagSuffix(req.tags);
    code := Fill(GoPieces, GoArgs(req, tags));
  }

  const JavaPieces: seq<string> := [
    "import com.fasterxml.jackson.annotation.JsonProperty;\nimport lombok.Data;\n\n@Data\npublic class ",
    " {\n    @JsonProperty(\"id\")\n    private Long id;\n    \n    @JsonProperty(\"name\")\n    private String name;\n    \n    @JsonProperty(\"email\")\n    private String email;\n}"]

  const TypeScriptPieces: seq<string> := [
    "interface ",
    " {\n    id: number;\n    name: string;\n    email: string;\n    createdAt: string;\n    isActive: boolean;\n}"]

  const PythonPieces: seq<string> := [
    "from dataclasses import dataclass\nfrom typing import Optional\n\n@dataclass\nclass ",
    ":\n    id: int\n    name: str\n    email: str\n    created_at: str\n    is_active: bool"]

  /** generateJavaExample */
  function JavaExample(req: ConvertRequest): string {
    Fill(JavaPieces, [req.structName])
  }

  /** generateTypeScriptExample */
  function TypeScriptExample(req: ConvertRequest): string {
    Fill(TypeScriptPieces, [req.structName])
  }

  /** generatePythonExample */
  function PythonExample(req: ConvertRequest): string {
    Fill(PythonPieces, [req.structName])
  }

  /** The Java, TypeScript and Python examples depend on the struct name and on nothing else. */
  lemma OtherExamplesDependOnlyOnStructName(a: ConvertRequest, b: ConvertRequest)
    requires a.structName == b.structName
    ensures JavaExample(a) == JavaExample(b)
    ensures TypeScriptExample(a) == TypeScriptExample(b)
    ensures PythonExample(a) == PythonExample(b)
  {
  }

  /** The Go example depends on the package name, the struct name and the tags, and on nothing else. */
  lemma GoExampleDependsOnlyOnNamesAndTags(a: ConvertRequest, b: ConvertRequest)
    requires a.packageName == b.packageName && a.structName == b.structName && a.tags == b.tags
    ensures GoExample(a) == GoExample(b)
  {
  }

  /** The example for a language, or None for a language the switch does not handle. */
  function Generate(req: ConvertRequest): (r: Option<string>)
    ensures r.Some? <==> req.language in SupportedLanguages
  {
    match req.language
    case "golang" => Some(GoExample(req))
    case "java" => Some(JavaExample(req))
    case "typescript" => Some(TypeScriptExample(req))
    case "python" => Some(PythonExample(req))
    case _ => None
  }

  /**
   * HandleConvert, as a value (`bound` is what ShouldBindJSON produced, None
   * when it failed): 400 with success false and an error before any dispatch
   * for a body that does not bind or names an unsupported language; 200 with
   * success true and the example otherwise.
   */
  function ConvertReplyOf(bound: Option<ConvertRequest>): (r: ConvertReply)
    ensures r.success <==> bound.Some? && bound.value.language in SupportedLanguages
    ensures r.status == (if r.success then StatusOK else StatusBadRequest)
    ensures r.code.Some? <==> r.success
    ensures r.error.Some? <==> !r.success
    ensures bound.None? ==> r.error == Some(InvalidRequestMessage)
    ensures bound.Some? && !r.success ==> r.error == Some(UnsupportedLanguageMessage)
  {
    match bound
    case None => ConvertReply(StatusBadRequest, false, Some(InvalidRequestMessage), None)
    case Some(req) =>
      match Generate(req)
      case Some(code) => ConvertReply(StatusOK, true, None, Some(code))
      case None => ConvertReply(StatusBadRequest, false, Some(UnsupportedLanguageMessage), None)
  }

  /** Each supported language is routed to its own template. */
  lemma DispatchRoutes(req: ConvertRequest)
    ensures req.language == "golang" ==> ConvertReplyOf(Some(req)).code == Some(GoExample(req))
    ensures req.language == "java" ==> ConvertReplyOf(Some(req)).code == Some(JavaExample(req))
    ensures req.language == "typescript" ==> ConvertReplyOf(Some(req)).code == Some(TypeScriptExample(req))
    ensures req.language == "python" ==> ConvertReplyOf(Some(req)).code == Some(PythonExample(req))
  {
  }

  /** HandleConvert: binds the body, dispatches on the language, answers. */
  method HandleConvert(bound: Option<ConvertRequest>) returns (reply: ConvertReply)
    ensures reply == ConvertReplyOf(bound)
  {
    if bound.None? {
      return ConvertReply(StatusBadRequest, false, Some(InvalidRequestMessage), None);
    }
    var req := bound.value;
    var code: string;
    match req.language {
      case "golang" =>
        code := GenerateGoExample(req);
      case "java" =>
        code := JavaExample(req);
      case "typescript" =>
        code := TypeScriptExample(req);
      case "python" =>
        code := PythonExample(req);
      case _ =>
        return ConvertReply(StatusBadRequest, false, Some(UnsupportedLanguageMessage), None);
    }
    reply := ConvertReply(StatusOK, true, None, Some(code));
  }

  /** One entry of the languages catalogue. */
  datatype LanguageOption = LanguageOption(value: string, caption: string, icon: string)

  /** One entry of the tags catalogue. */
  datatype TagOption = TagOption(value: string, caption: string, description: string)

  const SupportedLanguages: seq<string> := ["golang", "java", "typescript", "python"]

  const TagValues: seq<string> := ["json", "mapstructure", "gorm", "bson", "yaml", "xml", "validate", "form"]

  /** HandleGetLanguages: status and body. */
  function HandleGetLanguages(): (r: (int, seq<LanguageOption>))
    ensures r.0 == StatusOK && |r.1| == |SupportedLanguages|
    ensures forall i :: 0 <= i < |r.1| ==> r.1[i].value == SupportedLanguages[i]
  {
    (StatusOK, [
      LanguageOption("golang", "Go", "language-go"),
      LanguageOption("java", "Java", "language-java"),
      LanguageOption("typescript", "TypeScript", "language-typescript"),
      LanguageOption("python", "Python", "language-python")])
  }

  /** HandleGetTags: status and body. */
  function HandleGetTags(): (r: (int, seq<TagOption>))
    ensures r.0 == StatusOK && |r.1| == |TagValues|
    ensures forall i :: 0 <= i < |r.1| ==> r.1[i].value == TagValues[i]
  {
    (StatusOK, [
      TagOption("json", "JSON", "JSON序列化标签"),
      TagOption("mapstructure", "MapStructure", "用于mapstructure库"),
      TagOption("gorm", "GORM", "GORM数据库标签"),
      TagOption("bson", "BSON", "MongoDB BSON标签"),
      TagOption("yaml", "YAML", "YAML序列化标签"),
      TagOption("xml", "XML", "XML序列化标签"),
      TagOption("validate", "Validate", "验证标签"),
      TagOption("form", "Form", "表单绑定标签")])
  }

  /** The languages the convert endpoint accepts are exactly the ones the catalogue lists. */
  lemma CatalogueMatchesDispatch(req: ConvertRequest)
    ensures Generate(req).Some? <==> exists i :: 0 <= i < |HandleGetLanguages().1| && HandleGetLanguages().1[i].value == req.language
  {
    var langs := HandleGetLanguages().1;
    if req.language in SupportedLanguages {
      var i :| 0 <= i < |SupportedLanguages| && SupportedLanguages[i] == req.language;
      assert langs[i].value == req.language;
    }
  }
}
