# OneDrive index previewers, modelled in Dafny

This project models the file previewers of a OneDrive directory index web
application, together with the helpers they share:

- the **URL-shortcut previewer** fetches a `.url` file and pulls the first
  `http(s)://…` link out of it with a regular expression, then offers that link
  for download;
- the **Markdown previewer** works out the parent directory of the document.
  It rewrites relative image sources through the file API. It picks a language
  for each fenced code block from its `language-…` class, and shows a loading
  panel until the body is non-empty;
- the **code previewer** shows the fetched text highlighted, in a style chosen
  from the system theme;
- the **video previewer** builds the player source. The poster is the download
  URL with every `mp4` turned into `jpg`, and the aspect ratio is
  `${width ?? 16}:${height ?? 9}`;
- the **Office previewer** embeds the Office web viewer with the download URL
  percent-encoded as one query value. It rebuilds the file's API path from the
  parent reference minus the `/drive/root:` marker;
- the **download button group**: a copy button and a download button, each
  rendered only for a non-empty value, and what a click on each does;
- the **clipboard hook**: a copy status (`inactive`, `copied`, `failed`) that
  every copy reaching `writeText` schedules a reset for, after a timeout (2000
  by default);
- **`localeText`** of the language switch: the label of each locale, with a
  Simplified Chinese default.

Each preview page is modelled as a `Page`: its main panel plus, when one is
rendered, the props of its download group. The data-fetching hook
(`useFileContent`) is an input, a `FetchState` of `(content, error, validating)`.
The base URL (`getBaseUrl()`), the system theme and `getLanguageByFileName` are
parameters as well. JavaScript semantics are written out where the code relies
on them:
- ECMAScript `\s` and line terminators;
- leftmost-then-greedy regex matching;
- `String.prototype.replace` with a string pattern (first occurrence only)
  and with a global regex (every occurrence);
- `indexOf`, `lastIndexOf` and `substring` with its clamping;
- `??`, which keeps `0`;
- template strings of `undefined`;
- JavaScript truthiness of strings;
- `encodeURIComponent`, through UTF-8;
- UTF-16 code units where the link regex depends on them. The regex has no
  `u` flag, so an astral host character (an emoji, say) fills both places of
  `[^\s/$.?#].` by itself (`UrlPreview.HostSpan`).

Modules: `Optional`, `JsString`, `UriEncoding`, `Highlight`, `Preview` (the
shared data model), `DownloadButtonGroup`, `Clipboard`, `CodePreview`,
`UrlPreview`, `MarkdownPreview`, `VideoPreview`, `OfficePreview`,
`PreviewPhases` (how the fetched previewers compare) and `SwitchLang`.

Two behaviours of the code are worth knowing:
- **Repeated copies.** Every copy that reaches `writeText` schedules its own `setTimeout`, and none
  is ever cancelled. So the reset of an earlier copy can turn the status
  back to `inactive` before a later copy's timeout has run out.
  `Clipboard.StackedResetsRevertEarly` proves this about the model.
- **Download group while loading.** The code previewer renders its (empty)
  download group while it loads. The Markdown and URL previewers render no
  group at all in that state (`PreviewPhases.DownloadGroupWhileLoading`).

## Model

| member | source | states |
|---|---|---|
| JsString.IndexOf | src/components/previews/MarkdownPreview.tsx:37 | the result is -1 or more. It is -1 exactly when the pattern does not occur. Otherwise the pattern occurs at the result and at no smaller index |
| JsString.LastIndexOf | src/components/previews/MarkdownPreview.tsx:31 | -1 exactly when the character is absent. Otherwise the character is at the result and not after it |
| JsString.Substring | src/components/previews/MarkdownPreview.tsx:31 | in range it is the slice between the two indices, in either order. A negative index counts as 0 and an index past the end as the length. So with either index at or below 0 the result is the prefix up to the other, clamped (`substring(0, -1)` is ""), and with either index at or past the end it is the suffix from the other, clamped (`substring(1, 10)` of "abc" is "bc"). It is never longer than the string |
| JsString.TemplateOf | src/components/previews/VideoPreview.tsx:47 | `${x}` of a present string is the string, and of undefined is "undefined" |
| JsString.ReplaceFirst | src/components/previews/OfficePreview.tsx:19 | with no occurrence the string is unchanged. Otherwise only the leftmost occurrence is replaced, and the rest is kept around it |
| JsString.IntToString | src/components/previews/VideoPreview.tsx:26 | the canonical decimal form: an optional '-' exactly for negative numbers, then only digits, with no leading zero; 0 is exactly "0". It holds no colon |
| JsString.IntToStringRoundTrip | src/components/previews/VideoPreview.tsx:26 | reading the printed integer back gives the same integer |
| UriEncoding.Utf8 | src/components/previews/OfficePreview.tsx:13-15 | every character encodes to 1 to 4 octets, and to a single octet exactly when it is ASCII |
| UriEncoding.EncodeURIComponent | src/components/previews/OfficePreview.tsx:13-15 | the encoding is never shorter than its input. Its alphabet, its inverse and its injectivity are the lemmas below |
| UriEncoding.DecodeURIComponent | src/components/previews/OfficePreview.tsx:13-15 | the independent decoder, the encoder's partner: it never lengthens its input, and a text without '%' decodes to itself |
| UriEncoding.EncodeEscaped | src/components/previews/OfficePreview.tsx:13-15 | the output consists only of unreserved characters and `%XY` triplets with upper-case hex digits |
| UriEncoding.EncodeAlphabet | src/components/previews/OfficePreview.tsx:13-15 | every output character is unreserved or '%' |
| UriEncoding.EncodeHidesDelimiters | src/components/previews/OfficePreview.tsx:13-15 | the output holds none of & = ? # / or a space, so it stays a single query value |
| UriEncoding.EncodeLength | src/components/previews/OfficePreview.tsx:13-15 | the encoding is never shorter than its input. It is the same length exactly when every character is unreserved |
| UriEncoding.EncodeIdentity | src/components/previews/OfficePreview.tsx:13-15 | the encoding leaves a string unchanged exactly when all its characters are unreserved |
| UriEncoding.EncodeDecodeRoundTrip | src/components/previews/OfficePreview.tsx:13-15 | decodeURIComponent of the encoding gives back the original string |
| UriEncoding.EncodeInjective | src/components/previews/OfficePreview.tsx:13-15 | two strings with the same encoding are equal |
| Highlight.StyleFor | src/components/previews/CodePreview.tsx:49 | the dark theme gets tomorrowNight and the light theme gets tomorrow, both ways |
| Preview.RawRequest | src/components/previews/URLPreview.tsx:36 | the request URL is the raw endpoint followed by the page path, and the cache key is that same path |
| Preview.DirectLink | src/components/previews/URLPreview.tsx:55 | the copy link is exactly the base URL, then the raw endpoint, then the path |
| DownloadButtonGroup.Buttons | src/components/DownloadBtnGtoup.tsx:40-58 | a copy button is rendered iff directLink is a non-empty string, and a download button iff downloadUrl is. There are at most two, copy comes first, and each carries its prop's value |
| DownloadButtonGroup.HandleCopy | src/components/DownloadBtnGtoup.tsx:34-38 | a missing or empty text has no effect. Otherwise there is exactly one clipboard write of the text, then one success toast |
| DownloadButtonGroup.Click | src/components/DownloadBtnGtoup.tsx:42-57 | a download click opens its URL. A copy click writes its link and toasts once, and does nothing for an empty link |
| DownloadButtonGroup.NoPropsEmpty | src/components/DownloadBtnGtoup.tsx:27-30 | the group rendered without props shows no button |
| DownloadButtonGroup.ClickCopy | src/components/DownloadBtnGtoup.tsx:42-49 | clicking the rendered copy button copies its link and toasts the copied message, nothing more |
| DownloadButtonGroup.ClickDownload | src/components/DownloadBtnGtoup.tsx:50-57 | clicking the rendered download button opens downloadUrl and does nothing else |
| Clipboard.DueCount | src/utils/useClipboard.ts:21 | the count splits the sorted due times into those that have fired by the given time and those that have not |
| Clipboard.Clipboard.constructor | src/utils/useClipboard.ts:6-7 | a new hook starts inactive, with the given timeout and no reset pending |
| Clipboard.Clipboard.Default | src/utils/useClipboard.ts:6 | the default timeout is 2000 |
| Clipboard.Clipboard.Copy | src/utils/useClipboard.ts:9-26 | no clipboard: failed, and nothing is scheduled. Written: copied. Rejected: failed. Both of the last two add one reset, due one timeout from now, after those already pending. The pending resets stay sorted and within one timeout |
| Clipboard.Clipboard.AdvanceTo | src/utils/useClipboard.ts:21-25 | every reset due by the new time fires and leaves the queue. The status is inactive if any fired and unchanged otherwise |
| Clipboard.StackedResetsRevertEarly | src/utils/useClipboard.ts:17-21 | two copies 1500 apart leave two resets pending. The status is already inactive when the first one is due, before the second copy's timeout |
| Clipboard.UnavailableStaysFailed | src/utils/useClipboard.ts:11-15 | a fresh hook without a clipboard is failed and stays failed at any later time, since that path schedules no reset |
| Clipboard.SingleCopy | src/utils/useClipboard.ts:17-26 | after one copy the status it set holds strictly before the timeout and is inactive from the timeout on |
| CodePreview.CodeView | src/components/previews/CodePreview.tsx:24-58 | error panel without a group, then loading with the empty group, then the highlighted content with the empty group. The group is present iff there is no error, and it never shows a button |
| UrlPreview.SchemeAt | src/components/previews/URLPreview.tsx:29 | finds `http://` or `https://` at a position, preferring the longer one whenever it is there |
| UrlPreview.NonSpaceRun | src/components/previews/URLPreview.tsx:29 | `[^\s]*` is greedy: the run holds no whitespace and stops only at whitespace or at the end |
| UrlPreview.HostSpan | src/components/previews/URLPreview.tsx:29 | `[^\s/$.?#].` spans one or two characters. Which characters take one is shown by SingleCharHost |
| UrlPreview.MatchAt | src/components/previews/URLPreview.tsx:29 | a match anchored at a position is at least eight characters long and fits in the input. Its exactness is MatchAtSpec |
| UrlPreview.MatchAtSound | src/components/previews/URLPreview.tsx:29 | what is found at a position matches the pattern and ends at whitespace or at the end of input |
| UrlPreview.MatchAtLongest | src/components/previews/URLPreview.tsx:29 | every match starting at a position is found there, and none is longer than the one found |
| UrlPreview.MatchAtSpec | src/components/previews/URLPreview.tsx:29 | the match found at a position is correct and is the longest one starting there |
| UrlPreview.FindMatch | src/components/previews/URLPreview.tsx:30 | the first position from which a match starts, with none before it, or none anywhere |
| UrlPreview.ParseDotUrl | src/components/previews/URLPreview.tsx:22-32 | a non-string gives "". A link found is at least eight characters, no longer than the content, and starts with `http://` or `https://` |
| UrlPreview.ParseDotUrlAbsent | src/components/previews/URLPreview.tsx:24-26 | a content that is not a string gives the empty link |
| UrlPreview.ParseDotUrlEmptyIff | src/components/previews/URLPreview.tsx:29-31 | the link is empty exactly when no substring of the content matches the pattern |
| UrlPreview.FirstMatchIsLeftmostLongest | src/components/previews/URLPreview.tsx:29-31 | the first position with a match holds the leftmost match, and it is the longest match there |
| UrlPreview.ParseDotUrlLeftmost | src/components/previews/URLPreview.tsx:29-31 | a non-empty link is the leftmost-longest match in the content: it matches, no match starts earlier, and none from the same start is longer |
| UrlPreview.ParseDotUrlShape | src/components/previews/URLPreview.tsx:29-31 | a non-empty link starts with `http://` or `https://`. Then comes a host character, any non-terminator, and no whitespace after that |
| UrlPreview.NoMatchWithoutH | src/components/previews/URLPreview.tsx:29 | no match starts at a character other than 'h' |
| UrlPreview.ShortcutLink | src/components/previews/URLPreview.tsx:29-31 | the link of an Internet Shortcut line `URL=https://<host>` plus CRLF is `https://<host>`: the match stops at the carriage return |
| UrlPreview.LinkInProseLink | src/components/previews/URLPreview.tsx:29-31 | prose without an 'h', then `https://<host>`, a space and anything, gives `https://<host>`. For every such host and trailing text |
| UrlPreview.AstralHostLink | src/components/previews/URLPreview.tsx:29 | `http://` followed by one astral character is a link, as it is in UTF-16 |
| UrlPreview.SingleCharHost | src/components/previews/URLPreview.tsx:29 | `http://` and one character is a link exactly when that character is astral (two UTF-16 code units) |
| UrlPreview.ProseExample | src/components/previews/URLPreview.tsx:29-31 | `Some text https://example.com/x?y=1 trailing` gives `https://example.com/x?y=1` |
| UrlPreview.UrlView | src/components/previews/URLPreview.tsx:40-81 | error panel, then loading (no group), then the link page. The group then carries the raw link of the page path and the parsed link as the download URL |
| UrlPreview.UrlButtons | src/components/previews/URLPreview.tsx:55-77 | once loaded, the copy button is always offered. The download button is offered exactly when a link was found |
| MarkdownPreview.ParentPath | src/components/previews/MarkdownPreview.tsx:31 | embedded: the path itself. Standalone: "" when the path has no '/'. Otherwise the proper prefix that ends just before the last '/' |
| MarkdownPreview.IsStandalone | src/components/previews/MarkdownPreview.tsx:30 | the `standalone` prop is on unless it is explicitly false |
| MarkdownPreview.MarkdownRequest | src/components/previews/MarkdownPreview.tsx:33 | the document is fetched from its parent path (with the `standalone` default applied), a slash and its name, and is cached under the page path |
| MarkdownPreview.StandaloneParentPath | src/components/previews/MarkdownPreview.tsx:30-31 | standalone, the parent of `dir/name` is `dir` |
| MarkdownPreview.StandaloneRequest | src/components/previews/MarkdownPreview.tsx:33 | a standalone document at `dir/name` is fetched from the raw endpoint at exactly `dir/name` |
| MarkdownPreview.IsUrlAbsolute | src/components/previews/MarkdownPreview.tsx:37 | a URL is absolute exactly when it contains "://" but does not start with it, or when it starts with "//" |
| MarkdownPreview.ImageSrc | src/components/previews/MarkdownPreview.tsx:41 | the src is kept exactly when it is absolute. Otherwise it is routed through `/api/?path=` under the parent path, with `&raw=true` |
| MarkdownPreview.ImageSrcSpec | src/components/previews/MarkdownPreview.tsx:40-43 | an absolute src is kept. A src is rewritten to the file API under the document's directory exactly when it is not absolute |
| MarkdownPreview.ImageSrcExample | src/components/previews/MarkdownPreview.tsx:41 | `img.png` in `/docs/readme.md` becomes `/api/?path=/docs/img.png&raw=true` |
| MarkdownPreview.WordRun | src/components/previews/MarkdownPreview.tsx:47 | `\w+` is greedy: the run holds only word characters and ends at a non-word character or at the end |
| MarkdownPreview.FindLanguage | src/components/previews/MarkdownPreview.tsx:47 | the leftmost place where `language-` is followed by a word character, with no such place before it; or there is none |
| MarkdownPreview.CodeLanguage | src/components/previews/MarkdownPreview.tsx:47-48 | "text" without a match. Otherwise the whole non-empty word run that follows the leftmost `language-` in the class name |
| MarkdownPreview.StripFinalNewline | src/components/previews/MarkdownPreview.tsx:66 | one final newline is dropped, and nothing else changes; a text without one is unchanged |
| MarkdownPreview.RenderCode | src/components/previews/MarkdownPreview.tsx:46-69 | inline code, with the children unchanged, exactly when the class name is missing or empty. Otherwise a block with the class's language, the theme's style and the final newline stripped |
| MarkdownPreview.MarkdownView | src/components/previews/MarkdownPreview.tsx:73-115 | error, then loading while validating or while the body is empty. The body is rendered exactly when there is no error, nothing in flight and a non-empty body, and then the empty group is shown iff standalone (the default) |
| VideoPreview.PosterReplaces | src/components/previews/VideoPreview.tsx:21 | every occurrence of "mp4" in the URL reads "jpg" at the same place in the poster |
| VideoPreview.PosterKeeps | src/components/previews/VideoPreview.tsx:21 | every character outside all occurrences of "mp4" is kept at its place |
| VideoPreview.PosterHasNoMp4 | src/components/previews/VideoPreview.tsx:21 | the poster holds no "mp4", since the global replacement leaves none |
| VideoPreview.PosterUnchanged | src/components/previews/VideoPreview.tsx:21 | a URL without "mp4" is its own poster |
| VideoPreview.Poster | src/components/previews/VideoPreview.tsx:21 | the poster has the URL's length. Its content is fixed by PosterReplaces and PosterKeeps |
| VideoPreview.Ratio | src/components/previews/VideoPreview.tsx:26 | the ratio string reads back as the width and the height, each defaulted on its own (16 and 9) only when missing |
| VideoPreview.IntPairRoundTrip | src/components/previews/VideoPreview.tsx:26 | two printed integers around a colon read back as the pair, because neither printed integer holds a colon |
| VideoPreview.VideoWidth | src/components/previews/VideoPreview.tsx:41 | `file.video?.width`: missing when there is no video metadata, the recorded width otherwise |
| VideoPreview.VideoHeight | src/components/previews/VideoPreview.tsx:42 | `file.video?.height`: missing when there is no video metadata, the recorded height otherwise |
| VideoPreview.DefaultRatio | src/components/previews/VideoPreview.tsx:26 | a video without dimensions gets the string "16:9", which reads back as (16, 9) |
| VideoPreview.VideoView | src/components/previews/VideoPreview.tsx:33-52 | rendering fails exactly when the download URL is missing. Otherwise there is a player with a download group |
| VideoPreview.VideoPage | src/components/previews/VideoPreview.tsx:17-49 | the player plays just the download URL under the file name. Its poster is Poster of the URL, so it has the URL's length and no "mp4", and its ratio reads back as the dimensions. The group copies the raw link of the file's path ("undefined" when absent) and downloads the played URL |
| VideoPreview.VideoButtons | src/components/previews/VideoPreview.tsx:46-49 | copy is always offered. Download is offered exactly when the download URL is non-empty |
| OfficePreview.ViewerUrl | src/components/previews/OfficePreview.tsx:13-15 | the viewer URL starts with the embedding endpoint. What follows is fixed by ViewerUrlCarriesSource |
| OfficePreview.ViewerUrlCarriesSource | src/components/previews/OfficePreview.tsx:13-15 | the viewer URL is the embedding endpoint followed by one query value: it holds none of & # ? / = or a space, and decodes back to the download URL (or "undefined") |
| OfficePreview.ViewerUrlInjective | src/components/previews/OfficePreview.tsx:13-15 | different download URLs give different viewer URLs |
| OfficePreview.FilePath | src/components/previews/OfficePreview.tsx:19 | the path always ends with a slash and the file name |
| OfficePreview.FilePathUnderRoot | src/components/previews/OfficePreview.tsx:19 | for a parent under `/drive/root:` the path is the folder below the root, a slash and the name |
| OfficePreview.FilePathWithoutRoot | src/components/previews/OfficePreview.tsx:19 | a parent path without the marker is kept unchanged before the slash and name |
| OfficePreview.FilePathAtRoot | src/components/previews/OfficePreview.tsx:19 | a file in the root folder gets `/name` |
| OfficePreview.OfficeView | src/components/previews/OfficePreview.tsx:19-45 | rendering fails exactly when the parent reference path is missing. Otherwise the frame shows the viewer URL and is titled with the file name, and the group copies the raw link of the rebuilt path and downloads the drive's URL |
| OfficePreview.OfficeCopyLink | src/components/previews/OfficePreview.tsx:38-41 | under the root the copy link is the raw link of `folder/name`. The page does not depend on the file's own `path` field |
| OfficePreview.OfficeButtons | src/components/previews/OfficePreview.tsx:38-42 | copy is always offered. Download is offered exactly when the download URL is present and non-empty |
| PreviewPhases.ExpectedPhase | src/components/previews/CodePreview.tsx:24-42 | the reference ordering: failed exactly on an error, waiting exactly when there is no error and a request is in flight |
| PreviewPhases.CodeAndUrlAgree | src/components/previews/URLPreview.tsx:40-53 | the code and URL previewers both show the reference phase for every fetch state |
| PreviewPhases.MarkdownDiffersOnEmptyBody | src/components/previews/MarkdownPreview.tsx:88-94 | Markdown departs from the reference exactly when nothing failed, nothing is in flight and the body is empty. It then shows waiting |
| PreviewPhases.DownloadGroupWhileLoading | src/components/previews/CodePreview.tsx:31-42 | while loading, the code previewer renders a download group and the URL and Markdown previewers render none |
| SwitchLang.LocaleText | src/components/SwitchLang.tsx:24-45 | every locale gets one of the menu's labels |
| SwitchLang.LocaleTextListed | src/components/SwitchLang.tsx:25-41 | each listed locale gets the label written beside it |
| SwitchLang.LocaleTextUnlisted | src/components/SwitchLang.tsx:42-43 | every other locale, a differently cased one included, gets the Simplified Chinese label |
| SwitchLang.DefaultIsSimplifiedChinese | src/components/SwitchLang.tsx:32-43 | the default label is the label of zh-CN, and the comparison is case-sensitive ("zh-cn" falls through to it) |
| SwitchLang.LabelsShape | src/components/SwitchLang.tsx:26-43 | every label is a two-letter flag emoji, a space and a name |
| SwitchLang.LabelsDistinct | src/components/SwitchLang.tsx:26-41 | the eight labels are pairwise different |
| SwitchLang.LocaleTextInjective | src/components/SwitchLang.tsx:24-45 | two listed locales with the same label are the same locale |

## Left out

- Data fetching (`useFileContent`, its cache and revalidation) is an input: a `FetchState` observed at one render.
- The renderers themselves are not part of this model: ReactMarkdown with its plugins, the syntax highlighter, the Plyr player, FourOhFour and Loading, and the page containers. Only what the previewers hand them is modelled.
- `getBaseUrl`, `useSystemTheme`, `getLanguageByFileName`, `useRouter().asPath` and the translated texts of `t(...)` are parameters.
- Clipboard: the asynchronous `writeText` is reduced to its outcome (unavailable, written, rejected), `console.warn` is dropped, and the clock is an explicit `now` moved by `AdvanceTo`.
- The clipboard `status` is modelled but the button group never reads it, so no page depends on it.
- The language switch beyond `localeText` (menu, cookie, routing) is not part of this model.
- JsString.IntToString: covers integral Numbers only. The exponent form `String` uses from 1e21 up, and fractional widths or heights, are not modelled.
- VideoPreview.Ratio: for the same reason, width and height are integers.
- UriEncoding.EncodeURIComponent: strings are sequences of Unicode scalar values, so the URIError on a lone surrogate cannot arise.
- MarkdownPreview.ImageSrc: an image without `src`, where `isUrlAbsolute(undefined)` throws, is not modelled. `src` is a string.
- UrlPreview.HostSpan: its own contract says only that the span is 1 or 2. Its meaning (1 exactly for an astral first character) is stated through ParseDotUrl by SingleCharHost and AstralHostLink.
- UrlPreview.ParseDotUrl: positions are counted in characters, not UTF-16 code units. Code units matter only where an astral character starts the host, and HostSpan models that case. No whitespace, line terminator or character of `/$.?#` is astral, and `[^\s]*` always takes both halves of a pair.
- JsString.ReplaceFirst: `$` patterns in the replacement are not interpreted. The only call site passes "".
- The unbalanced closing tag in the URL previewer's markup is a build-level defect and has no counterpart in the model.
