/**
 * The download affordance shared by every previewer: a "copy direct link"
 * button and a "download" button, each shown only when its value is a
 * non-empty string, and what clicking each of them does.
 */
module DownloadButtonGroup {
  import opened Optional

  /** The component's two optional props. */
  datatype DownloadProps = DownloadProps(directLink: Option<string>, downloadUrl: Option<string>)

  /** The group rendered with no props at all. */
  const NoProps := DownloadProps(None, None)

  datatype Button =
    | CopyDirectLink(link: string)
    | Download(url: string)

  /** The observable effects of a click: a clipboard write, a success toast, a new browsing context. */
  datatype Effect =
    | WriteClipboard(text: string)
    | ToastSuccess(message: string)
    | OpenWindow(url: string)

  /** JavaScript truthiness of an optional string: present and non-empty. */
  predicate Truthy(x: Option<string>) {
    x.Some? && x.value != ""
  }

  function HasCopy(bs: seq<Button>): bool {
    exists i :: 0 <= i < |bs| && bs[i].CopyDirectLink?
  }

  function HasDownload(bs: seq<Button>): bool {
    exists i :: 0 <= i < |bs| && bs[i].Download?
  }

  /**
   * The buttons `{directLink && …}{downloadUrl && …}` render, in document order:
   * the copy button exactly when directLink is a non-empty string, the download
   * button exactly when downloadUrl is, at most two, and copy before download.
   */
  function Buttons(p: DownloadProps): (bs: seq<Button>)
    ensures |bs| <= 2
    ensures HasCopy(bs) <==> Truthy(p.directLink)
    ensures HasDownload(bs) <==> Truthy(p.downloadUrl)
    ensures |bs| == 2 ==> bs[0].CopyDirectLink? && bs[1].Download?
    ensures forall i :: 0 <= i < |bs| && bs[i].CopyDirectLink? ==> bs[i].link == p.directLink.value
    ensures forall i :: 0 <= i < |bs| && bs[i].Download? ==> bs[i].url == p.downloadUrl.value
  {
    var copy := if Truthy(p.directLink) then [CopyDirectLink(p.directLink.value)] else [];
    var download := if Truthy(p.downloadUrl) then [Download(p.downloadUrl.value)] else [];
    assert HasCopy(copy + download) ==> Truthy(p.directLink) by {
      if HasCopy(copy + download) { var i :| 0 <= i < |copy + download| && (copy + download)[i].CopyDirectLink?; }
    }
    assert HasDownload(copy + download) ==> Truthy(p.downloadUrl) by {
      if HasDownload(copy + download) { var i :| 0 <= i < |copy + download| && (copy + download)[i].Download?; }
    }
    assert Truthy(p.downloadUrl) ==> (copy + download)[|copy + download| - 1].Download?;
    assert Truthy(p.directLink) ==> (copy + download)[0].CopyDirectLink?;
    copy + download
  }

  /** `handleCopy(text, message)`: nothing for an empty or missing text, else a copy and then a toast. */
  function HandleCopy(text: Option<string>, message: string): (effects: seq<Effect>)
    ensures !Truthy(text) <==> effects == []
    ensures Truthy(text) ==> effects == [WriteClipboard(text.value), ToastSuccess(message)]
  {
    if !Truthy(text) then [] else [WriteClipboard(text.value), ToastSuccess(message)]
  }

  /** Clicking a button; `copiedMessage` is the translated "Copied direct link to clipboard." text. */
  function Click(b: Button, copiedMessage: string): (effects: seq<Effect>)
    ensures b.Download? ==> effects == [OpenWindow(b.url)]
    ensures b.CopyDirectLink? && b.link == "" ==> effects == []
    ensures b.CopyDirectLink? && b.link != "" ==> effects == [WriteClipboard(b.link), ToastSuccess(copiedMessage)]
  {
    match b
    case CopyDirectLink(link) => HandleCopy(Some(link), copiedMessage)
    case Download(url) => [OpenWindow(url)]
  }

  /** With no props the group renders nothing. */
  lemma NoPropsEmpty()
    ensures Buttons(NoProps) == []
  {
  }

  /** Clicking a rendered copy button copies exactly its link once and shows one toast. */
  lemma ClickCopy(p: DownloadProps, copiedMessage: string)
    requires Truthy(p.directLink)
    ensures Buttons(p)[0] == CopyDirectLink(p.directLink.value)
    ensures Click(Buttons(p)[0], copiedMessage)
         == [WriteClipboard(p.directLink.value), ToastSuccess(copiedMessage)]
  {
  }

  /** Clicking a rendered download button opens exactly downloadUrl and nothing else. */
  lemma ClickDownload(p: DownloadProps, copiedMessage: string)
    requires Truthy(p.downloadUrl)
    ensures Buttons(p)[|Buttons(p)| - 1] == Download(p.downloadUrl.value)
    ensures Click(Buttons(p)[|Buttons(p)| - 1], copiedMessage) == [OpenWindow(p.downloadUrl.value)]
  {
  }
}
