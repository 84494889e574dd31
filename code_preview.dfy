/** CodePreview: fetch the file at the page's own path and show it highlighted. */
module CodePreview {
  import opened Optional
  import opened Highlight
  import opened DownloadButtonGroup
  import opened Preview

  /**
   * The page for one observation of the fetch state. `languageOf` stands for
   * getLanguageByFileName, which is not part of this model.
   */
  function CodeView(fileName: string, state: FetchState, theme: Theme, languageOf: string -> string): (p: Page)
    ensures state.error.Some? ==> p == Page(ErrorPanel(state.error.value), None)
    ensures state.error.None? && state.validating ==> p == Page(Loading, Some(NoProps))
    ensures state.error.None? && !state.validating ==>
      p == Page(Highlighted(languageOf(fileName), StyleFor(theme), state.content), Some(NoProps))
    ensures p.download.Some? <==> state.error.None?
    ensures p.download.Some? ==> Buttons(p.download.value) == []
  {
    if state.error.Some? then
      Page(ErrorPanel(state.error.value), None)
    else if state.validating then
      Page(Loading, Some(NoProps))
    else
      Page(Highlighted(languageOf(fileName), StyleFor(theme), state.content), Some(NoProps))
  }
}
