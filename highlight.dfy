/** The colour scheme reported for the host, and the highlighter style chosen from it. */
module Highlight {

  datatype Theme = Dark | Light

  /** The two syntax-highlighting styles the previewers pass to the highlighter. */
  datatype Style = TomorrowNight | Tomorrow

  /** `theme === 'dark' ? tomorrowNight : tomorrow` */
  function StyleFor(theme: Theme): (s: Style)
    ensures s == TomorrowNight <==> theme == Dark
    ensures s == Tomorrow <==> theme == Light
  {
    match theme
    case Dark => TomorrowNight
    case Light => Tomorrow
  }
}
