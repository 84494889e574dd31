/**
 * OfficePreview: the document is shown in the Office web viewer, which is
 * given the download URL as one encoded query parameter; the copy button
 * links to the raw path rebuilt from the parent folder and the file name.
 */
module OfficePreview {
  import opened Optional
  import opened JsString
  import opened UriEncoding
  import opened DownloadButtonGroup
  import opened Preview

  /** The Office web viewer's embedding endpoint, up to its `src` parameter. */
  const ViewerPrefix: string := "https://view.officeapps.live.com/op/embed.aspx?src="

  /** The drive-root marker that prefixes every parent path the drive reports. */
  const DriveRoot: string := "/drive/root:"

  /**
   * The viewer URL: the prefix, then `encodeURIComponent` of the download URL
   * (which turns a missing URL into the text "undefined").
   */
  function ViewerUrl(downloadUrl: Option<string>): (r: string)
    ensures |r| >= |ViewerPrefix| && r[..|ViewerPrefix|] == ViewerPrefix
  {
    ViewerPrefix + EncodeURIComponent(TemplateOf(downloadUrl))
  }

  /**
   * What follows the prefix is one query value: it holds none of & # ? / =
   * nor a space, and it decodes back to the download URL.
   */
  lemma ViewerUrlCarriesSource(downloadUrl: Option<string>)
    ensures |ViewerUrl(downloadUrl)| >= |ViewerPrefix|
    ensures ViewerUrl(downloadUrl)[..|ViewerPrefix|] == ViewerPrefix
    ensures DecodeURIComponent(ViewerUrl(downloadUrl)[|ViewerPrefix|..]) == Some(TemplateOf(downloadUrl))
    ensures var v := ViewerUrl(downloadUrl)[|ViewerPrefix|..];
      '&' !in v && '#' !in v && '?' !in v && '/' !in v && '=' !in v && ' ' !in v
  {
    var e := EncodeURIComponent(TemplateOf(downloadUrl));
    assert ViewerUrl(downloadUrl)[|ViewerPrefix|..] == e;
    EncodeDecodeRoundTrip(TemplateOf(downloadUrl));
    EncodeHidesDelimiters(TemplateOf(downloadUrl));
  }

  /** Different download URLs give different viewer URLs. */
  lemma ViewerUrlInjective(a: string, b: string)
    requires ViewerUrl(Some(a)) == ViewerUrl(Some(b))
    ensures a == b
  {
    assert ViewerUrl(Some(a))[|ViewerPrefix|..] == EncodeURIComponent(a);
    assert ViewerUrl(Some(b))[|ViewerPrefix|..] == EncodeURIComponent(b);
    EncodeInjective(a, b);
  }

  /**
   * `${parentPath.replace('/drive/root:', '')}/${name}`: the first occurrence
   * of the drive-root marker is removed, then the name is appended.
   */
  function FilePath(parentPath: string, name: string): (r: string)
    ensures |r| > |name| && r[|r| - |name| - 1..] == "/" + name
  {
    ReplaceFirst(parentPath, DriveRoot, "") + "/" + name
  }

  /** Under the drive root, the path is the folder below the root, a slash and the name. */
  lemma FilePathUnderRoot(folder: string, name: string)
    ensures FilePath(DriveRoot + folder, name) == folder + "/" + name
  {
    var p := DriveRoot + folder;
    assert OccursAt(p, DriveRoot, 0);
    assert ReplaceFirst(p, DriveRoot, "") == p[|DriveRoot|..];
    assert p[|DriveRoot|..] == folder;
  }

  /** A parent path without the marker is kept as it is. */
  lemma FilePathWithoutRoot(parentPath: string, name: string)
    requires !Contains(parentPath, DriveRoot)
    ensures FilePath(parentPath, name) == parentPath + "/" + name
  {
  }

  /** A file in the drive's root folder gets "/" and its name. */
  lemma FilePathAtRoot(name: string)
    ensures FilePath(DriveRoot, name) == "/" + name
  {
    FilePathUnderRoot("", name);
    assert DriveRoot + "" == DriveRoot;
  }

  /**
   * The page, or None where rendering throws: without a parent reference
   * path, `parentReference.path.replace` is called on undefined. Otherwise
   * the viewer frame titled with the file name, and a download group whose
   * copy link is the raw link of the rebuilt path (not of the file's own
   * `path` field) and whose download URL is the drive's.
   */
  function OfficeView(file: OdFile, baseUrl: string): (p: Option<Page>)
    ensures p.None? <==> file.parentReferencePath.None?
    ensures p.Some? ==> p.value.main == OfficeFrame(ViewerUrl(file.downloadUrl), file.name)
    ensures p.Some? ==> p.value.download.Some?
    ensures p.Some? ==>
      p.value.download.value.directLink == Some(DirectLink(baseUrl, FilePath(file.parentReferencePath.value, file.name)))
    ensures p.Some? ==> p.value.download.value.downloadUrl == file.downloadUrl
  {
    match file.parentReferencePath
    case None => None
    case Some(parent) =>
      Some(Page(OfficeFrame(ViewerUrl(file.downloadUrl), file.name),
                Some(DownloadProps(Some(DirectLink(baseUrl, FilePath(parent, file.name))), file.downloadUrl))))
  }

  /**
   * The copy link of a file under the drive root ends with the folder, a
   * slash and the name; it does not depend on the file's `path` field.
   */
  lemma OfficeCopyLink(file: OdFile, baseUrl: string, folder: string, otherPath: Option<string>)
    requires file.parentReferencePath == Some(DriveRoot + folder)
    ensures OfficeView(file, baseUrl).Some?
    ensures OfficeView(file, baseUrl).value.download.value.directLink == Some(DirectLink(baseUrl, folder + "/" + file.name))
    ensures OfficeView(file, baseUrl) == OfficeView(file.(path := otherPath), baseUrl)
  {
    FilePathUnderRoot(folder, file.name);
  }

  /** Copy is always offered; download exactly when the download URL is present and not empty. */
  lemma OfficeButtons(file: OdFile, baseUrl: string)
    requires file.parentReferencePath.Some?
    ensures HasCopy(Buttons(OfficeView(file, baseUrl).value.download.value))
    ensures HasDownload(Buttons(OfficeView(file, baseUrl).value.download.value)) <==> Truthy(file.downloadUrl)
  {
    assert |DirectLink(baseUrl, FilePath(file.parentReferencePath.value, file.name))| > 0;
  }
}
