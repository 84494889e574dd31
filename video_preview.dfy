/**
 * VideoPreview: the player's source (title, one source, a poster derived from
 * the download URL), its aspect ratio, and the download group under it.
 */
module VideoPreview {
  import opened Optional
  import opened JsString
  import opened DownloadButtonGroup
  import opened Preview

  // ---- poster: `videoUrl.replace(/mp4/g, 'jpg')` ----

  /** "mp4" starts at `j`, character by character. */
  predicate IsMp4At(s: string, j: nat) {
    j + 3 <= |s| && s[j] == 'm' && s[j + 1] == 'p' && s[j + 2] == '4'
  }

  lemma Mp4AtOccurs(s: string, j: nat)
    ensures IsMp4At(s, j) <==> OccursAt(s, "mp4", j)
  {
    if j + 3 <= |s| {
      assert s[j..j + 3][0] == s[j] && s[j..j + 3][1] == s[j + 1] && s[j..j + 3][2] == s[j + 2];
    }
  }

  /**
   * Every "mp4", scanned left to right, becomes "jpg". Occurrences of "mp4"
   * can never overlap, so the scan replaces every one of them.
   */
  function Poster(s: string): (r: string)
    ensures |r| == |s|
    decreases |s|
  {
    if |s| < 3 then s
    else if IsMp4At(s, 0) then "jpg" + Poster(s[3..])
    else [s[0]] + Poster(s[1..])
  }

  /** Position `i` lies inside an occurrence of "mp4" in `s`. */
  predicate Covered(s: string, i: nat) {
    IsMp4At(s, i) || (i >= 1 && IsMp4At(s, i - 1)) || (i >= 2 && IsMp4At(s, i - 2))
  }

  /** Every occurrence of "mp4" in the URL reads "jpg" in the poster. */
  lemma {:induction false} PosterReplaces(s: string, j: nat)
    requires IsMp4At(s, j)
    ensures Poster(s)[j] == 'j' && Poster(s)[j + 1] == 'p' && Poster(s)[j + 2] == 'g'
    decreases |s|
  {
    if IsMp4At(s, 0) {
      if j > 0 {
        assert IsMp4At(s[3..], j - 3);
        PosterReplaces(s[3..], j - 3);
      }
    } else {
      assert IsMp4At(s[1..], j - 1);
      PosterReplaces(s[1..], j - 1);
    }
  }

  /** An occurrence in a suffix is an occurrence in the whole string, shifted. */
  lemma Mp4AtShift(s: string, d: nat, x: int)
    requires d <= |s|
    ensures x >= 0 ==> (IsMp4At(s[d..], x) <==> IsMp4At(s, x + d))
  {
  }

  /** A character outside every occurrence of "mp4" is kept. */
  lemma {:induction false} PosterKeeps(s: string, i: nat)
    requires i < |s| && !Covered(s, i)
    ensures Poster(s)[i] == s[i]
    decreases |s|
  {
    if |s| < 3 {
    } else if IsMp4At(s, 0) {
      assert i >= 3;
      Mp4AtShift(s, 3, i - 3);
      Mp4AtShift(s, 3, i - 4);
      Mp4AtShift(s, 3, i - 5);
      PosterKeeps(s[3..], i - 3);
    } else if i > 0 {
      Mp4AtShift(s, 1, i - 1);
      Mp4AtShift(s, 1, i - 2);
      Mp4AtShift(s, 1, i - 3);
      PosterKeeps(s[1..], i - 1);
    }
  }

  /** The letters of "jpg" are neither 'm' nor '4', and its 'p' follows a 'j'. */
  lemma PosterNotMp4At(s: string, i: nat)
    requires i + 3 <= |s|
    ensures !IsMp4At(Poster(s), i)
  {
    if Covered(s, i) {
      if IsMp4At(s, i) { PosterReplaces(s, i); }
      else if IsMp4At(s, i - 1) { PosterReplaces(s, i - 1); }
      else { PosterReplaces(s, i - 2); }
    } else if Covered(s, i + 2) {
      if IsMp4At(s, i + 2) { PosterReplaces(s, i + 2); }
      else if IsMp4At(s, i + 1) { PosterReplaces(s, i + 1); }
      else { PosterReplaces(s, i); }
    } else {
      PosterKeeps(s, i);
      PosterKeeps(s, i + 1);
      PosterKeeps(s, i + 2);
    }
  }

  /** The poster holds no "mp4" at all. */
  lemma PosterHasNoMp4(s: string)
    ensures !Contains(Poster(s), "mp4")
  {
    forall i | 0 <= i <= |Poster(s)| ensures !OccursAt(Poster(s), "mp4", i) {
      Mp4AtOccurs(Poster(s), i);
      if i + 3 <= |s| {
        PosterNotMp4At(s, i);
      }
    }
  }

  /** A URL without "mp4" is its own poster. */
  lemma PosterUnchanged(s: string)
    requires !Contains(s, "mp4")
    ensures Poster(s) == s
  {
    forall i | 0 <= i < |s| ensures Poster(s)[i] == s[i] {
      Mp4AtOccurs(s, i);
      if i >= 1 { Mp4AtOccurs(s, i - 1); }
      if i >= 2 { Mp4AtOccurs(s, i - 2); }
      PosterKeeps(s, i);
    }
  }

  // ---- ratio: `${width ?? 16}:${height ?? 9}` ----

  /**
   * `??` falls back only on a missing dimension (a width of 0 stays 0): the
   * ratio reads back as the two dimensions, each defaulted on its own.
   */
  function Ratio(width: Option<int>, height: Option<int>): (r: string)
    ensures ParseRatio(r) == Some((width.GetOr(16), height.GetOr(9)))
  {
    IntPairRoundTrip(width.GetOr(16), height.GetOr(9));
    IntToString(width.GetOr(16)) + ":" + IntToString(height.GetOr(9))
  }

  /** Reads a ratio back: two integers around the first colon. */
  function ParseRatio(r: string): Option<(int, int)> {
    var i := IndexOf(r, ":");
    if i < 0 then None
    else
      match (ParseInt(r[..i]), ParseInt(r[i + 1..]))
      case (Some(w), Some(h)) => Some((w, h))
      case _ => None
  }

  /** Two integers around a colon read back as themselves: the colon splits them because neither holds one. */
  lemma IntPairRoundTrip(w: int, h: int)
    ensures ParseRatio(IntToString(w) + ":" + IntToString(h)) == Some((w, h))
  {
    var a := IntToString(w);
    var b := IntToString(h);
    var r := a + ":" + b;
    assert OccursAt(r, ":", |a|);
    forall i: nat | i < |a| ensures !OccursAt(r, ":", i) {
      assert r[i..i + 1][0] == a[i];
    }
    assert IndexOf(r, ":") == |a|;
    assert r[..|a|] == a && r[|a| + 1..] == b;
    IntToStringRoundTrip(w);
    IntToStringRoundTrip(h);
  }

  /** A video without dimensions plays at 16:9. */
  lemma DefaultRatio()
    ensures Ratio(None, None) == "16:9"
    ensures ParseRatio(Ratio(None, None)) == Some((16, 9))
  {
  }

  // ---- the page ----

  /** `file.video?.width`: missing when the file has no video metadata. */
  function VideoWidth(file: OdFile): (w: Option<int>)
    ensures file.video.None? ==> w.None?
    ensures file.video.Some? ==> w == file.video.value.width
  {
    if file.video.Some? then file.video.value.width else None
  }

  /** `file.video?.height`: missing when the file has no video metadata. */
  function VideoHeight(file: OdFile): (h: Option<int>)
    ensures file.video.None? ==> h.None?
    ensures file.video.Some? ==> h == file.video.value.height
  {
    if file.video.Some? then file.video.value.height else None
  }

  /**
   * The page, or None where rendering throws: without a download URL,
   * `videoUrl.replace` is called on undefined.
   */
  function VideoView(file: OdFile, baseUrl: string): (p: Option<Page>)
    ensures p.None? <==> file.downloadUrl.None?
    ensures p.Some? ==> p.value.main.VideoPlayer? && p.value.download.Some?
  {
    match file.downloadUrl
    case None => None
    case Some(url) =>
      var source := PlyrSource("video", file.name, [url], Poster(url));
      Some(Page(VideoPlayer(source, Ratio(VideoWidth(file), VideoHeight(file))),
                Some(DownloadProps(Some(DirectLink(baseUrl, TemplateOf(file.path))), file.downloadUrl))))
  }

  /**
   * The player plays the download URL under the file's name, shows a poster
   * that differs from the URL only where it said "mp4", and keeps the file's
   * dimensions; the buttons copy the raw link of the file's path (the word
   * "undefined" when there is none) and download the same URL the player plays.
   */
  lemma VideoPage(file: OdFile, baseUrl: string)
    requires file.downloadUrl.Some?
    ensures var url := file.downloadUrl.value;
      && VideoView(file, baseUrl).Some?
      && VideoView(file, baseUrl).value.main.source.title == file.name
      && VideoView(file, baseUrl).value.main.source.sources == [url]
      && VideoView(file, baseUrl).value.main.source.poster == Poster(url)
      && |VideoView(file, baseUrl).value.main.source.poster| == |url|
      && !Contains(VideoView(file, baseUrl).value.main.source.poster, "mp4")
      && ParseRatio(VideoView(file, baseUrl).value.main.ratio) == Some((VideoWidth(file).GetOr(16), VideoHeight(file).GetOr(9)))
      && VideoView(file, baseUrl).value.download == Some(DownloadProps(Some(DirectLink(baseUrl, TemplateOf(file.path))), Some(url)))
  {
    PosterHasNoMp4(file.downloadUrl.value);
  }

  /** Both buttons are offered exactly when the download URL is not empty; copy always is. */
  lemma VideoButtons(file: OdFile, baseUrl: string)
    requires file.downloadUrl.Some?
    ensures HasCopy(Buttons(VideoView(file, baseUrl).value.download.value))
    ensures HasDownload(Buttons(VideoView(file, baseUrl).value.download.value)) <==> file.downloadUrl.value != ""
  {
    assert |DirectLink(baseUrl, TemplateOf(file.path))| > 0;
  }
}
