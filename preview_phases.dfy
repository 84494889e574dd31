/**
 * How the fetched previewers order their outcomes. Code, URL and Markdown
 * test the error first and the in-flight flag second; Markdown alone also
 * waits while the body is empty, and only Code keeps its download group on
 * screen while it loads.
 */
module PreviewPhases {
  import opened Optional
  import opened Highlight
  import opened DownloadButtonGroup
  import opened Preview
  import opened CodePreview
  import opened UrlPreview
  import opened MarkdownPreview

  /** The phase every fetched previewer shows when it looks only at the error and the flag. */
  function ExpectedPhase(state: FetchState): (ph: Phase)
    ensures ph == Failed <==> state.error.Some?
    ensures ph == Waiting <==> state.error.None? && state.validating
  {
    if state.error.Some? then Failed else if state.validating then Waiting else Ready
  }

  /** The code and URL previewers show the same phase for every state of the fetch. */
  lemma CodeAndUrlAgree(fileName: string, state: FetchState, theme: Theme, languageOf: string -> string,
                        baseUrl: string, asPath: string)
    ensures PhaseOf(CodeView(fileName, state, theme, languageOf).main) == ExpectedPhase(state)
    ensures PhaseOf(UrlView(state, baseUrl, asPath).main) == ExpectedPhase(state)
  {
  }

  /**
   * Markdown differs from the others in exactly one case: no error, no
   * request in flight and an empty or missing body, where it keeps waiting.
   */
  lemma MarkdownDiffersOnEmptyBody(path: string, standalone: Option<bool>, state: FetchState, theme: Theme)
    ensures PhaseOf(MarkdownView(path, standalone, state, theme).main) != ExpectedPhase(state) <==>
      state.error.None? && !state.validating && !Truthy(state.content)
    ensures PhaseOf(MarkdownView(path, standalone, state, theme).main) != ExpectedPhase(state) ==>
      PhaseOf(MarkdownView(path, standalone, state, theme).main) == Waiting
  {
  }

  /** While loading, only the code previewer renders its (empty) download group. */
  lemma DownloadGroupWhileLoading(fileName: string, path: string, standalone: Option<bool>, state: FetchState,
                                  theme: Theme, languageOf: string -> string, baseUrl: string, asPath: string)
    requires state.error.None? && state.validating
    ensures CodeView(fileName, state, theme, languageOf).download.Some?
    ensures UrlView(state, baseUrl, asPath).download.None?
    ensures MarkdownView(path, standalone, state, theme).download.None?
  {
  }
}
