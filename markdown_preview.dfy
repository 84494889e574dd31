/**
 * MarkdownPreview: where the markdown is fetched from, how the image and code
 * renderers rewrite what ReactMarkdown hands them, and which page is shown.
 */
module MarkdownPreview {
  import opened Optional
  import opened JsString
  import opened Highlight
  import opened DownloadButtonGroup
  import opened Preview

  /** The `standalone` prop, which defaults to true when it is not passed: only an explicit false turns it off. */
  function IsStandalone(standalone: Option<bool>): (b: bool)
    ensures b <==> standalone != Some(false)
  {
    standalone.GetOr(true)
  }

  /**
   * `standalone ? path.substring(0, path.lastIndexOf('/')) : path`: standalone,
   * the directory part of the path (empty when there is no '/'); embedded, the
   * path itself, which is then the directory of the including document.
   */
  function ParentPath(path: string, standalone: bool): (r: string)
    ensures !standalone ==> r == path
    ensures standalone && '/' !in path ==> r == ""
    ensures standalone && '/' in path ==>
      |r| < |path| && path[..|r|] == r && path[|r|] == '/' && '/' !in path[|r| + 1..]
  {
    if standalone then Substring(path, 0, LastIndexOf(path, '/')) else path
  }

  /** The file is fetched from its parent directory plus its name, cached under `path`. */
  function MarkdownRequest(fileName: string, path: string, standalone: Option<bool>): (r: FetchRequest)
    ensures r.url == RawApi + ParentPath(path, IsStandalone(standalone)) + "/" + fileName
    ensures r.cacheKey == path
  {
    FetchRequest(RawApi + ParentPath(path, IsStandalone(standalone)) + "/" + fileName, path)
  }

  /** Standalone, the parent of `dir/name` is `dir`. */
  lemma StandaloneParentPath(dir: string, fileName: string)
    requires '/' !in fileName
    ensures ParentPath(dir + "/" + fileName, true) == dir
  {
    var path := dir + "/" + fileName;
    var r := ParentPath(path, true);
    assert path[|dir|] == '/';
    assert path[|dir| + 1..] == fileName;
    assert r == path[..|dir|] == dir;
  }

  /** A standalone file at `dir/name`, by default or explicitly, is fetched from exactly that path. */
  lemma StandaloneRequest(dir: string, fileName: string)
    requires '/' !in fileName
    ensures MarkdownRequest(fileName, dir + "/" + fileName, None).url == RawApi + dir + "/" + fileName
    ensures MarkdownRequest(fileName, dir + "/" + fileName, Some(true)).url == RawApi + dir + "/" + fileName
  {
    StandaloneParentPath(dir, fileName);
  }

  /**
   * `url.indexOf('://') > 0 || url.indexOf('//') === 0`: a URL is absolute
   * exactly when it contains "://" somewhere other than at its very start, or
   * when it starts with "//" (protocol-relative).
   */
  function IsUrlAbsolute(url: string): (b: bool)
    ensures b <==> (Contains(url, "://") && !StartsWith(url, "://")) || StartsWith(url, "//")
  {
    var i := IndexOf(url, "://");
    var j := IndexOf(url, "//");
    assert StartsWith(url, "//") ==> j == 0;
    assert j == 0 ==> OccursAt(url, "//", 0);
    assert Contains(url, "://") && !StartsWith(url, "://") ==> i != 0;
    i > 0 || j == 0
  }

  /**
   * The `img` renderer: the src is kept exactly when it is absolute, and a
   * relative one is served through the file API under the parent path.
   */
  function ImageSrc(parentPath: string, src: string): (r: string)
    ensures r == src <==> IsUrlAbsolute(src)
    ensures r != src ==> r == "/api/?path=" + parentPath + "/" + src + "&raw=true"
  {
    if IsUrlAbsolute(src) then src else "/api/?path=" + parentPath + "/" + src + "&raw=true"
  }

  /**
   * Image rewriting for a standalone file at `dir/name`: the result is the
   * passthrough URL rooted at the file's directory iff src is not absolute.
   */
  lemma ImageSrcSpec(dir: string, fileName: string, src: string)
    requires '/' !in fileName
    ensures var r := ImageSrc(ParentPath(dir + "/" + fileName, true), src);
      && (IsUrlAbsolute(src) ==> r == src)
      && (!IsUrlAbsolute(src) <==> r == "/api/?path=" + dir + "/" + src + "&raw=true")
  {
    StandaloneParentPath(dir, fileName);
  }

  /** `/docs/readme.md` with `img.png` becomes `/api/?path=/docs/img.png&raw=true`. */
  lemma ImageSrcExample()
    ensures ImageSrc(ParentPath("/docs/readme.md", true), "img.png") == "/api/?path=/docs/img.png&raw=true"
  {
    ReadmeParent();
    ImgUnderDocs();
  }

  lemma ReadmeParent()
    ensures ParentPath("/docs/readme.md", true) == "/docs"
  {
    assert "/docs" + "/" + "readme.md" == "/docs/readme.md";
    StandaloneParentPath("/docs", "readme.md");
  }

  lemma ImgUnderDocs()
    ensures ImageSrc("/docs", "img.png") == "/api/?path=/docs/img.png&raw=true"
  {
    ImgRewritten();
    ImgLiteral();
  }

  lemma ImgLiteral()
    ensures "/api/?path=" + "/docs" + "/" + "img.png" + "&raw=true" == "/api/?path=/docs/img.png&raw=true"
  {
  }

  lemma ImgRewritten()
    ensures ImageSrc("/docs", "img.png") == "/api/?path=" + "/docs" + "/" + "img.png" + "&raw=true"
  {
    ImgIsRelative();
  }

  lemma ImgIsRelative()
    ensures !IsUrlAbsolute("img.png")
  {
    AbsentFirstChar("img.png", "://");
    AbsentFirstChar("img.png", "//");
  }

  // ---- the code renderer ----

  /** `\w`: ASCII letters, digits and '_'. */
  predicate IsWordChar(c: char) {
    ('A' <= c <= 'Z') || ('a' <= c <= 'z') || ('0' <= c <= '9') || c == '_'
  }

  /** The length of the longest run of word characters starting at `i`. */
  function WordRun(s: string, i: nat): (n: nat)
    requires i <= |s|
    decreases |s| - i
    ensures i + n <= |s|
    ensures forall k :: i <= k < i + n ==> IsWordChar(s[k])
    ensures i + n == |s| || !IsWordChar(s[i + n])
  {
    if i < |s| && IsWordChar(s[i]) then 1 + WordRun(s, i + 1) else 0
  }

  const LanguagePrefix: string := "language-"

  /** `/language-(\w+)/` can match at `i`: the prefix and at least one word character. */
  predicate LanguageAt(s: string, i: nat) {
    OccursAt(s, LanguagePrefix, i) && i + |LanguagePrefix| < |s| && IsWordChar(s[i + |LanguagePrefix|])
  }

  /** The leftmost index at or after `k` where the pattern matches. */
  function FindLanguage(s: string, k: nat): (r: Option<nat>)
    decreases |s| - k
    ensures r.Some? ==>
      && k <= r.value && LanguageAt(s, r.value)
      && forall j :: k <= j < r.value ==> !LanguageAt(s, j)
    ensures r.None? ==> forall j :: k <= j ==> !LanguageAt(s, j)
  {
    if k + |LanguagePrefix| >= |s| then None
    else if LanguageAt(s, k) then Some(k)
    else FindLanguage(s, k + 1)
  }

  /**
   * `match ? match[1] : 'text'` for `/language-(\w+)/.exec(className || '')`:
   * the whole word run after the leftmost "language-" that is followed by a
   * word character, or "text" when there is none.
   */
  function CodeLanguage(className: Option<string>): (lang: string)
    ensures var s := className.GetOr("");
      match FindLanguage(s, 0)
      case None => lang == "text"
      case Some(i) =>
        var start := i + |LanguagePrefix|;
        && |lang| > 0
        && start + |lang| <= |s|
        && lang == s[start..start + |lang|]
        && (forall k :: 0 <= k < |lang| ==> IsWordChar(lang[k]))
        && (start + |lang| == |s| || !IsWordChar(s[start + |lang|]))
  {
    var s := className.GetOr("");
    match FindLanguage(s, 0)
    case None => "text"
    case Some(i) =>
      var start := i + |LanguagePrefix|;
      s[start..start + WordRun(s, start)]
  }

  /** `replace(/\n$/, '')`: drops one final newline, if there is one, and nothing else. */
  function StripFinalNewline(s: string): (r: string)
    ensures if |s| > 0 && s[|s| - 1] == '\n' then s == r + "\n" else r == s
  {
    if |s| > 0 && s[|s| - 1] == '\n' then s[..|s| - 1] else s
  }

  /** What the code renderer returns: plain inline code, or a highlighted block. */
  datatype CodeNode =
    | InlineCode(className: Option<string>, text: string)
    | CodeBlock(language: string, style: Style, text: string)

  /** className is falsy (missing or empty): inline code, never the highlighter. */
  function RenderCode(className: Option<string>, children: string, theme: Theme): (n: CodeNode)
    ensures n.InlineCode? <==> !Truthy(className)
    ensures n.InlineCode? ==> n.text == children
    ensures n.CodeBlock? ==>
      n.language == CodeLanguage(className) && n.style == StyleFor(theme)
      && n.text == StripFinalNewline(children)
  {
    if !Truthy(className) then InlineCode(className, children)
    else CodeBlock(CodeLanguage(className), StyleFor(theme), StripFinalNewline(children))
  }

  // ---- the page ----

  /**
   * The page: an error first, then loading while validating or while there is
   * no content yet, and otherwise the rendered markdown, with the download
   * group only when standalone (the default).
   */
  function MarkdownView(path: string, standalone: Option<bool>, state: FetchState, theme: Theme): (p: Page)
    ensures state.error.Some? ==> p == Page(ErrorPanel(state.error.value), None)
    ensures state.error.None? && (state.validating || !Truthy(state.content)) ==> p == Page(Loading, None)
    ensures PhaseOf(p.main) == Ready <==> state.error.None? && !state.validating && Truthy(state.content)
    ensures PhaseOf(p.main) == Ready ==>
      p.main == MarkdownBody(state.content.value, ParentPath(path, IsStandalone(standalone)), StyleFor(theme))
    ensures p.download.Some? <==> PhaseOf(p.main) == Ready && IsStandalone(standalone)
    ensures p.download.Some? ==> Buttons(p.download.value) == []
  {
    if state.error.Some? then
      Page(ErrorPanel(state.error.value), None)
    else if state.validating then
      Page(Loading, None)
    else if !Truthy(state.content) then
      Page(Loading, None)
    else
      Page(MarkdownBody(state.content.value, ParentPath(path, IsStandalone(standalone)), StyleFor(theme)),
           if IsStandalone(standalone) then Some(NoProps) else None)
  }
}
