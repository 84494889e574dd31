/**
 * What the previewers share: the file record they receive, the state that
 * useFileContent reports, the request they hand to it, and the page they
 * render, described as a main panel plus an optional download group.
 */
module Preview {
  import opened Optional
  import opened Highlight
  import opened DownloadButtonGroup

  /** The error useFileContent reports for a failed retrieval. */
  datatype ErrorInfo = ErrorInfo(status: int, message: string)

  /** useFileContent's result: the body if any, the error if any, and whether a request is in flight. */
  datatype FetchState = FetchState(content: Option<string>, error: Option<ErrorInfo>, validating: bool)

  /** The two arguments of useFileContent: the URL to fetch and the cache key. */
  datatype FetchRequest = FetchRequest(url: string, cacheKey: string)

  /** The raw-content endpoint, followed by the logical path. */
  const RawApi: string := "/api/raw/?path="

  /**
   * `useFileContent(`/api/raw/?path=${asPath}`, asPath)`, as the code and URL
   * previewers call it: the page's own path is both the query and the cache key.
   */
  function RawRequest(asPath: string): (r: FetchRequest)
    ensures |r.url| >= |RawApi| && r.url[..|RawApi|] == RawApi
    ensures r.url[|RawApi|..] == r.cacheKey == asPath
  {
    FetchRequest(RawApi + asPath, asPath)
  }

  /**
   * `getBaseUrl() + `/api/raw/?path=${path}``: the link the copy button puts on
   * the clipboard. The base URL is a parameter here.
   */
  function DirectLink(baseUrl: string, path: string): (r: string)
    ensures |r| == |baseUrl| + |RawApi| + |path|
    ensures r[..|baseUrl|] == baseUrl && r[|baseUrl|..|baseUrl| + |RawApi|] == RawApi
    ensures r[|baseUrl| + |RawApi|..] == path
  {
    baseUrl + RawApi + path
  }

  datatype VideoMeta = VideoMeta(width: Option<int>, height: Option<int>)

  /** The fields of a drive item that the previewers read. */
  datatype OdFile = OdFile(
    name: string,
    path: Option<string>,
    downloadUrl: Option<string>,   // '@microsoft.graph.downloadUrl'
    video: Option<VideoMeta>,
    parentReferencePath: Option<string>)   // parentReference.path, None when either part is missing

  /** The source object handed to the video player. */
  datatype PlyrSource = PlyrSource(kind: string, title: string, sources: seq<string>, poster: string)

  /** The main panel of a preview page. */
  datatype Panel =
    | ErrorPanel(error: ErrorInfo)
    | Loading
    | Highlighted(language: string, style: Style, text: Option<string>)
    | MarkdownBody(content: string, parentPath: string, style: Style)
    | LinkPage(hyperlink: string)
    | OfficeFrame(src: string, title: string)
    | VideoPlayer(source: PlyrSource, ratio: string)

  /** A rendered preview: its panel, and the props of the download group when one is rendered. */
  datatype Page = Page(main: Panel, download: Option<DownloadProps>)

  /** The phase a page shows: the fetch failed, is still loading, or the content is ready. */
  datatype Phase = Failed | Waiting | Ready

  function PhaseOf(p: Panel): Phase {
    match p
    case ErrorPanel(_) => Failed
    case Loading => Waiting
    case _ => Ready
  }
}
