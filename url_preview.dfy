/**
 * URLPreview: a shortcut file whose body contains a link. parseDotUrl returns
 * the leftmost match of `https?:\/\/[^\s/$.?#].[^\s]*`, written out here as a
 * matcher anchored at one position plus a leftmost search.
 */
module UrlPreview {
  import opened Optional
  import opened JsString
  import opened DownloadButtonGroup
  import opened Preview

  /** ECMAScript LineTerminator: what `.` does not match. */
  predicate IsLineTerminator(c: char) {
    c == '\n' || c == '\r' || c == '\U{2028}' || c == '\U{2029}'
  }

  /** ECMAScript `\s`: WhiteSpace (TAB, VT, FF, ZWNBSP and every Zs code point) and LineTerminator. */
  predicate IsSpace(c: char) {
    || c == '\t' || c == '\U{000B}' || c == '\U{000C}' || c == '\U{FEFF}'
    || c == ' ' || c == '\U{00A0}' || c == '\U{1680}' || ('\U{2000}' <= c && c <= '\U{200A}')
    || c == '\U{202F}' || c == '\U{205F}' || c == '\U{3000}'
    || IsLineTerminator(c)
  }

  /** `[^\s/$.?#]` */
  predicate IsHostStart(c: char) {
    !IsSpace(c) && c != '/' && c != '$' && c != '.' && c != '?' && c != '#'
  }

  /** A character outside the Basic Multilingual Plane: two UTF-16 code units. */
  predicate IsAstral(c: char) {
    c as int >= 0x10000
  }

  /**
   * How many characters `[^\s/$.?#].` spans when it starts with `c`. The
   * pattern has no `u` flag, so it reads UTF-16 code units: the two halves of
   * an astral character fill both of its places at once.
   */
  function HostSpan(c: char): (n: nat)
    ensures n == 1 || n == 2
  {
    if IsAstral(c) then 1 else 2
  }

  /** `https?:\/\/` (case-sensitive: the pattern has no `i` flag). */
  predicate IsScheme(p: string) {
    p == "http://" || p == "https://"
  }

  /**
   * `[^\s/$.?#].[^\s]*` from offset `k` of `r` to its end: one character that
   * may start a host, one more code unit that is not a line terminator (a
   * space is allowed there; after an astral first character it is the second
   * half of that character), then no whitespace at all. No whitespace or line
   * terminator lies outside the Basic Multilingual Plane, so a surrogate half
   * is never one and `[^\s]*` always takes both halves of a character.
   */
  predicate HasShape(r: string, k: nat) {
    && k < |r| && IsHostStart(r[k]) && k + HostSpan(r[k]) <= |r|
    && (HostSpan(r[k]) == 2 ==> !IsLineTerminator(r[k + 1]))
    && forall m :: k + HostSpan(r[k]) <= m < |r| ==> !IsSpace(r[m])
  }

  /** The whole pattern, as a property of a whole candidate string. */
  predicate MatchesPattern(t: string) {
    exists k :: 7 <= k <= 8 && k <= |t| && IsScheme(t[..k]) && HasShape(t, k)
  }

  /** The length of the scheme at `i`: 7 for "http://", 8 for "https://", 0 for neither. */
  function SchemeAt(s: string, i: nat): (k: nat)
    ensures k == 0 || k == 7 || k == 8
    ensures k > 0 ==> i + k <= |s| && IsScheme(s[i..i + k])
    ensures i + 7 <= |s| && IsScheme(s[i..i + 7]) ==> k == 7
    ensures i + 8 <= |s| && IsScheme(s[i..i + 8]) ==> k == 8
  {
    if OccursAt(s, "http://", i) then
      assert s[i + 4] == s[i..i + 7][4] == ':';
      assert i + 8 <= |s| ==> s[i..i + 8][4] == ':';
      7
    else if OccursAt(s, "https://", i) then 8 else 0
  }

  /** The length of the longest run of non-whitespace starting at `i` (`[^\s]*`). */
  function NonSpaceRun(s: string, i: nat): (n: nat)
    requires i <= |s|
    decreases |s| - i
    ensures i + n <= |s|
    ensures forall m :: i <= m < i + n ==> !IsSpace(s[m])
    ensures i + n == |s| || IsSpace(s[i + n])
  {
    if i < |s| && !IsSpace(s[i]) then 1 + NonSpaceRun(s, i + 1) else 0
  }

  /**
   * The length of the match anchored at `i`, or None. The scheme is fixed by
   * the text (an 's' in the fifth place rules out "http://"), the next two
   * code units are single-unit classes, and the final `[^\s]*` is greedy and
   * always succeeds, so no backtracking ever changes the outcome.
   */
  function MatchAt(s: string, i: nat): (r: Option<nat>)
    requires i <= |s|
    ensures r.Some? ==> 8 <= r.value && i + r.value <= |s|
  {
    var k := SchemeAt(s, i);
    if k == 0 || i + k >= |s| || !IsHostStart(s[i + k]) then None
    else
      var n := HostSpan(s[i + k]);
      if i + k + n > |s| || (n == 2 && IsLineTerminator(s[i + k + 1])) then None
      else Some(k + n + NonSpaceRun(s, i + k + n))
  }

  /** What MatchAt finds is a match, and it ends at whitespace or at the end of input. */
  lemma MatchAtSound(s: string, i: nat)
    requires i <= |s| && MatchAt(s, i).Some?
    ensures i + MatchAt(s, i).value <= |s| && MatchesPattern(s[i..i + MatchAt(s, i).value])
    ensures i + MatchAt(s, i).value == |s| || IsSpace(s[i + MatchAt(s, i).value])
  {
    var k := SchemeAt(s, i);
    var t := s[i..i + MatchAt(s, i).value];
    assert t[..k] == s[i..i + k];
    assert t[k] == s[i + k];
    assert forall m :: k < m < |t| ==> t[m] == s[i + m];
    assert HasShape(t, k);
  }

  /** A stretch without whitespace from `a` to `b` lies inside the run NonSpaceRun finds at `a`. */
  lemma {:induction false} NonSpaceRunCovers(s: string, a: nat, b: nat)
    requires a <= b <= |s|
    requires forall m :: a <= m < b ==> !IsSpace(s[m])
    ensures b <= a + NonSpaceRun(s, a)
    decreases b - a
  {
    if a < b {
      NonSpaceRunCovers(s, a + 1, b);
    }
  }

  /** `[^\s/$.?#].[^\s]*` matches `s[a..j]`, stated on `s` itself. */
  predicate ShapeIn(s: string, a: nat, j: nat) {
    && a < j <= |s| && IsHostStart(s[a]) && a + HostSpan(s[a]) <= j
    && (HostSpan(s[a]) == 2 ==> !IsLineTerminator(s[a + 1]))
    && forall m :: a + HostSpan(s[a]) <= m < j ==> !IsSpace(s[m])
  }

  lemma ShapeTransfer(s: string, i: nat, j: nat, k: nat)
    requires i <= j <= |s| && HasShape(s[i..j], k)
    ensures ShapeIn(s, i + k, j)
  {
    var t := s[i..j];
    assert s[i + k] == t[k];
    assert HostSpan(t[k]) == 2 ==> s[i + k + 1] == t[k + 1];
    forall m | i + k + HostSpan(t[k]) <= m < j ensures !IsSpace(s[m]) {
      assert s[m] == t[m - i];
    }
  }

  lemma ShapeInMatch(s: string, i: nat, j: nat, k: nat)
    requires i <= |s| && k > 0 && SchemeAt(s, i) == k && ShapeIn(s, i + k, j)
    ensures MatchAt(s, i).Some? && j <= i + MatchAt(s, i).value
  {
    NonSpaceRunCovers(s, i + k + HostSpan(s[i + k]), j);
  }

  /** Every match that starts at `i` is found by MatchAt, and is no longer than what it finds. */
  lemma MatchAtLongest(s: string, i: nat, j: nat)
    requires i <= j <= |s| && MatchesPattern(s[i..j])
    ensures MatchAt(s, i).Some? && j <= i + MatchAt(s, i).value
  {
    var t := s[i..j];
    var k :| 7 <= k <= 8 && k <= |t| && IsScheme(t[..k]) && HasShape(t, k);
    assert s[i..i + k] == t[..k];
    assert SchemeAt(s, i) == k;
    ShapeTransfer(s, i, j, k);
    ShapeInMatch(s, i, j, k);
  }

  /**
   * MatchAt finds a match exactly when one starts at `i`, and the one it
   * finds is the longest: it stops only at whitespace or at the end of input.
   */
  lemma MatchAtSpec(s: string, i: nat)
    requires i <= |s|
    ensures MatchAt(s, i).Some? ==>
      && i + MatchAt(s, i).value <= |s| && MatchesPattern(s[i..i + MatchAt(s, i).value])
      && (i + MatchAt(s, i).value == |s| || IsSpace(s[i + MatchAt(s, i).value]))
    ensures forall j :: i <= j <= |s| && MatchesPattern(s[i..j]) ==>
      MatchAt(s, i).Some? && j <= i + MatchAt(s, i).value
  {
    if MatchAt(s, i).Some? {
      MatchAtSound(s, i);
    }
    forall j | i <= j <= |s| && MatchesPattern(s[i..j])
      ensures MatchAt(s, i).Some? && j <= i + MatchAt(s, i).value
    {
      MatchAtLongest(s, i, j);
    }
  }

  /** The leftmost position at or after `k` where a match starts. */
  function FindMatch(s: string, k: nat): (r: Option<nat>)
    requires k <= |s|
    decreases |s| - k
    ensures r.Some? ==>
      && k <= r.value <= |s| && MatchAt(s, r.value).Some?
      && forall j :: k <= j < r.value ==> MatchAt(s, j).None?
    ensures r.None? ==> forall j :: k <= j <= |s| ==> MatchAt(s, j).None?
  {
    if MatchAt(s, k).Some? then Some(k)
    else if k == |s| then None
    else FindMatch(s, k + 1)
  }

  /** No substring of `s` that starts below `n` matches. */
  ghost predicate NoMatchBefore(s: string, n: nat) {
    forall i, j :: 0 <= i < n && i <= j <= |s| ==> !MatchesPattern(s[i..j])
  }

  /** No substring of `s` that starts at `i` and is longer than `n` matches. */
  ghost predicate NoMatchLonger(s: string, i: nat, n: nat) {
    forall j :: i + n < j <= |s| ==> !MatchesPattern(s[i..j])
  }

  /** No match starting at `i` runs past the one MatchAt finds. */
  lemma NoLongerMatch(s: string, i: nat)
    requires i <= |s| && MatchAt(s, i).Some?
    ensures NoMatchLonger(s, i, MatchAt(s, i).value)
  {
    forall j | i + MatchAt(s, i).value < j <= |s| ensures !MatchesPattern(s[i..j]) {
      if MatchesPattern(s[i..j]) {
        MatchAtLongest(s, i, j);
      }
    }
  }

  /** When MatchAt fails at every position below `n`, no match starts below `n`. */
  lemma NoMatchStartingBefore(s: string, n: nat)
    requires n <= |s| + 1
    requires forall j :: 0 <= j < n ==> MatchAt(s, j).None?
    ensures NoMatchBefore(s, n)
  {
    forall i, j | 0 <= i < n && i <= j <= |s| ensures !MatchesPattern(s[i..j]) {
      if MatchesPattern(s[i..j]) {
        MatchAtLongest(s, i, j);
      }
    }
  }

  /**
   * `parseDotUrl(url)`: a non-string yields "", otherwise the leftmost match
   * or "". A link found is a scheme-prefixed piece of the content, at least
   * eight characters long.
   */
  function ParseDotUrl(content: Option<string>): (r: string)
    ensures content.None? ==> r == ""
    ensures r != "" ==>
      && content.Some? && 8 <= |r| <= |content.value|
      && (StartsWith(r, "http://") || StartsWith(r, "https://"))
  {
    match content
    case None => ""
    case Some(s) =>
      match FindMatch(s, 0)
      case None => ""
      case Some(i) =>
        var r := s[i..i + MatchAt(s, i).value];
        var k := SchemeAt(s, i);
        assert r[..k] == s[i..i + k];
        SchemePrefix(r, k);
        r
  }

  /** Nothing to read (the body is not a string) gives the empty link. */
  lemma ParseDotUrlAbsent()
    ensures ParseDotUrl(None) == ""
  {
  }

  /** The link is empty exactly when no substring of the body matches the pattern. */
  lemma ParseDotUrlEmptyIff(s: string)
    ensures ParseDotUrl(Some(s)) == "" <==>
      forall i, j :: 0 <= i <= j <= |s| ==> !MatchesPattern(s[i..j])
  {
    match FindMatch(s, 0)
    case None =>
      NoMatchStartingBefore(s, |s| + 1);
    case Some(i) =>
      MatchAtSound(s, i);
  }

  /**
   * `r` sits at `i` in `s`, matches the pattern, no match starts further
   * left, none starting at `i` is longer, and `r` ends at whitespace or at
   * the end of `s`.
   */
  ghost predicate LeftmostLongestAt(s: string, i: nat, r: string) {
    && i + |r| <= |s| && s[i..i + |r|] == r
    && MatchesPattern(r)
    && NoMatchBefore(s, i)
    && NoMatchLonger(s, i, |r|)
    && (i + |r| == |s| || IsSpace(s[i + |r|]))
  }

  /** The first position where MatchAt succeeds holds the leftmost, longest match. */
  lemma FirstMatchIsLeftmostLongest(s: string, i: nat)
    requires i <= |s| && MatchAt(s, i).Some?
    requires forall j :: 0 <= j < i ==> MatchAt(s, j).None?
    ensures LeftmostLongestAt(s, i, s[i..i + MatchAt(s, i).value])
  {
    MatchAtSound(s, i);
    NoMatchStartingBefore(s, i);
    NoLongerMatch(s, i);
  }

  /** A non-empty link is the leftmost, longest match in the body. */
  lemma ParseDotUrlLeftmost(s: string)
    requires ParseDotUrl(Some(s)) != ""
    ensures FindMatch(s, 0).Some? && LeftmostLongestAt(s, FindMatch(s, 0).value, ParseDotUrl(Some(s)))
  {
    var i := FindMatch(s, 0).value;
    assert ParseDotUrl(Some(s)) == s[i..i + MatchAt(s, i).value];
    FirstMatchIsLeftmostLongest(s, i);
  }

  /**
   * The scheme a string starts with is told apart by its fifth character.
   */
  lemma SchemePrefix(r: string, k: nat)
    requires 7 <= k <= 8 && k <= |r| && IsScheme(r[..k])
    ensures StartsWith(r, "http://") || StartsWith(r, "https://")
    ensures StartsWith(r, "https://") <==> k == 8
  {
    assert r[..k][4] == r[4];
  }

  /**
   * The shape of a non-empty link: "http://" or "https://", then a character
   * that is neither whitespace nor one of / $ . ? #, then (unless that
   * character is astral) any character but a line terminator, then no whitespace.
   */
  lemma ParseDotUrlShape(s: string)
    requires ParseDotUrl(Some(s)) != ""
    ensures StartsWith(ParseDotUrl(Some(s)), "http://") || StartsWith(ParseDotUrl(Some(s)), "https://")
    ensures HasShape(ParseDotUrl(Some(s)), if StartsWith(ParseDotUrl(Some(s)), "https://") then 8 else 7)
  {
    var r := ParseDotUrl(Some(s));
    ParseDotUrlLeftmost(s);
    var k :| 7 <= k <= 8 && k <= |r| && IsScheme(r[..k]) && HasShape(r, k);
    SchemePrefix(r, k);
  }

  /** A run of non-whitespace that ends at whitespace or at the end is the one NonSpaceRun finds. */
  lemma {:induction false} NonSpaceRunUnique(s: string, i: nat, n: nat)
    requires i + n <= |s|
    requires forall m :: i <= m < i + n ==> !IsSpace(s[m])
    requires i + n == |s| || IsSpace(s[i + n])
    ensures NonSpaceRun(s, i) == n
    decreases n
  {
    if n > 0 {
      NonSpaceRunUnique(s, i + 1, n - 1);
    }
  }

  /** No match starts at a character other than 'h'. */
  lemma NoMatchWithoutH(s: string, i: nat)
    requires i < |s| && s[i] != 'h'
    ensures MatchAt(s, i).None?
  {
    if i + 7 <= |s| {
      assert s[i..i + 7][0] == s[i];
    }
    if i + 8 <= |s| {
      assert s[i..i + 8][0] == s[i];
    }
  }

  /** The link is the match found at the leftmost position. */
  lemma ParseDotUrlAt(s: string, i: nat, n: nat)
    requires FindMatch(s, 0) == Some(i) && MatchAt(s, i) == Some(n)
    ensures ParseDotUrl(Some(s)) == s[i..i + n]
  {
  }

  /** A match found at `n` after nothing from `k` to `n` is the leftmost one from `k`. */
  lemma {:induction false} FindMatchAt(s: string, k: nat, n: nat)
    requires k <= n <= |s|
    requires forall j :: k <= j < n ==> MatchAt(s, j).None?
    requires MatchAt(s, n).Some?
    ensures FindMatch(s, k) == Some(n)
    decreases n - k
  {
    if k < n {
      FindMatchAt(s, k + 1, n);
    }
  }

  /** A host part the pattern accepts whole: it starts a host, fills both class places and holds no whitespace. */
  predicate IsPlainHost(host: string) {
    && |host| > 0 && IsHostStart(host[0]) && HostSpan(host[0]) <= |host|
    && forall m :: 0 <= m < |host| ==> !IsSpace(host[m])
  }

  /** The "URL=" key of a shortcut line cannot start a match. */
  lemma ShortcutKeyNoMatch(s: string)
    requires |s| >= 4 && s[..4] == "URL="
    ensures forall j :: 0 <= j < 4 ==> MatchAt(s, j).None?
  {
    forall j | 0 <= j < 4 ensures MatchAt(s, j).None? {
      assert s[j] == s[..4][j];
      NoMatchWithoutH(s, j);
    }
  }

  /** A secure link running up to whitespace or to the end of input is matched whole. */
  lemma SecureLinkMatch(s: string, i: nat, host: string)
    requires IsPlainHost(host)
    requires i + 8 + |host| <= |s|
    requires s[i..i + 8] == "https://" && s[i + 8..i + 8 + |host|] == host
    requires i + 8 + |host| == |s| || IsSpace(s[i + 8 + |host|])
    ensures MatchAt(s, i) == Some(8 + |host|)
  {
    assert s[i + 4] == s[i..i + 8][4] == 's';
    assert i + 7 <= |s| && s[i..i + 7][4] == s[i + 4];
    assert SchemeAt(s, i) == 8;
    var n := |host|;
    assert forall m :: i + 8 <= m < i + 8 + n ==> s[m] == s[i + 8..i + 8 + n][m - i - 8] == host[m - i - 8];
    var h := HostSpan(host[0]);
    NonSpaceRunUnique(s, i + 8 + h, n - h);
  }

  /** The URL line of a Windows Internet Shortcut file, ended by CRLF. */
  function ShortcutLine(host: string): string {
    "URL=https://" + host + "\r\n"
  }

  lemma ShortcutLineMatch(host: string)
    requires IsPlainHost(host)
    ensures MatchAt(ShortcutLine(host), 4) == Some(8 + |host|)
  {
    var s := ShortcutLine(host);
    var n := |host|;
    assert s[4..12] == "https://" && s[12..12 + n] == host && s[12 + n] == '\r';
    assert IsSpace(s[12 + n]);
    SecureLinkMatch(s, 4, host);
  }

  lemma ShortcutLineFirstMatch(host: string)
    requires IsPlainHost(host)
    ensures FindMatch(ShortcutLine(host), 0) == Some(4)
  {
    var s := ShortcutLine(host);
    assert s[..4] == "URL=";
    ShortcutKeyNoMatch(s);
    ShortcutLineMatch(host);
    FindMatchAt(s, 0, 4);
  }

  /** The link read from a shortcut line is "https://<host>": the match stops at the carriage return. */
  lemma ShortcutLink(host: string)
    requires IsPlainHost(host)
    ensures ParseDotUrl(Some(ShortcutLine(host))) == "https://" + host
  {
    var s := ShortcutLine(host);
    ShortcutLineFirstMatch(host);
    ShortcutLineMatch(host);
    assert ParseDotUrl(Some(s)) == s[4..12 + |host|];
    assert s[4..12 + |host|] == "https://" + host;
  }

  /** Prose around a link: text without an 'h', the link, a space, then anything. */
  function LinkInProse(pre: string, host: string, post: string): string {
    pre + "https://" + host + " " + post
  }

  lemma LinkInProseMatch(pre: string, host: string, post: string)
    requires IsPlainHost(host)
    ensures MatchAt(LinkInProse(pre, host, post), |pre|) == Some(8 + |host|)
  {
    var s := LinkInProse(pre, host, post);
    var i, n := |pre|, |host|;
    assert s[i..i + 8] == "https://" && s[i + 8..i + 8 + n] == host && s[i + 8 + n] == ' ';
    assert IsSpace(s[i + 8 + n]);
    SecureLinkMatch(s, i, host);
  }

  lemma LinkInProseFirstMatch(pre: string, host: string, post: string)
    requires 'h' !in pre && IsPlainHost(host)
    ensures FindMatch(LinkInProse(pre, host, post), 0) == Some(|pre|)
  {
    var s := LinkInProse(pre, host, post);
    forall j | 0 <= j < |pre| ensures MatchAt(s, j).None? {
      assert s[j] == pre[j];
      NoMatchWithoutH(s, j);
    }
    LinkInProseMatch(pre, host, post);
    FindMatchAt(s, 0, |pre|);
  }

  /**
   * The leading prose holds no 'h', so the match starts at the link, and it
   * stops at the space after it.
   */
  lemma LinkInProseLink(pre: string, host: string, post: string)
    requires 'h' !in pre && IsPlainHost(host)
    ensures ParseDotUrl(Some(LinkInProse(pre, host, post))) == "https://" + host
  {
    LinkInProseFirstMatch(pre, host, post);
    LinkInProseMatch(pre, host, post);
    ParseDotUrlAt(LinkInProse(pre, host, post), |pre|, 8 + |host|);
    LinkInProseSlice(pre, host, post);
  }

  lemma LinkInProseSlice(pre: string, host: string, post: string)
    ensures |pre| + 8 + |host| <= |LinkInProse(pre, host, post)|
    ensures LinkInProse(pre, host, post)[|pre|..|pre| + 8 + |host|] == "https://" + host
  {
    var s := LinkInProse(pre, host, post);
    assert s == pre + ("https://" + host) + (" " + post);
  }

  /**
   * An astral host character fills both places of `[^\s/$.?#].`, so a link
   * that ends right after it is still matched: "http://" and one emoji.
   */
  lemma AstralHostLink(c: char)
    requires IsAstral(c)
    ensures ParseDotUrl(Some("http://" + [c])) == "http://" + [c]
  {
    var s := "http://" + [c];
    assert s[..7] == "http://";
    assert OccursAt(s, "http://", 0);
    assert SchemeAt(s, 0) == 7;
    assert MatchAt(s, 0) == Some(8);
    assert FindMatch(s, 0) == Some(0);
  }

  /**
   * "http://" and one host character is a link exactly when that character is
   * astral: any other character leaves the `.` of the pattern with nothing to take.
   */
  lemma SingleCharHost(c: char)
    ensures ParseDotUrl(Some("http://" + [c])) != "" <==> IsAstral(c)
  {
    var s := "http://" + [c];
    if IsAstral(c) {
      AstralHostLink(c);
    } else {
      forall j | 0 <= j <= |s| ensures MatchAt(s, j).None? {
        if j == 0 && MatchAt(s, 0).Some? {
          assert s[..7] == "http://";
          assert OccursAt(s, "http://", 0);
        }
      }
    }
  }

  /** The sentence `Some text https://example.com/x?y=1 trailing` gives `https://example.com/x?y=1`. */
  lemma ProseExample()
    ensures ParseDotUrl(Some("Some text https://example.com/x?y=1 trailing")) == "https://example.com/x?y=1"
  {
    ExampleParts();
    LinkInProseLink("Some text ", "example.com/x?y=1", "trailing");
  }

  /** The example sentence split as LinkInProse needs it. */
  lemma ExampleParts()
    ensures 'h' !in "Some text "
    ensures IsPlainHost("example.com/x?y=1")
    ensures LinkInProse("Some text ", "example.com/x?y=1", "trailing") == "Some text https://example.com/x?y=1 trailing"
    ensures "https://" + "example.com/x?y=1" == "https://example.com/x?y=1"
  {
    ExamplePre();
    ExampleHost();
    ExampleJoin();
  }

  lemma ExamplePre()
    ensures 'h' !in "Some text "
  {
    var pre := "Some text ";
    assert forall m :: 0 <= m < |pre| ==> pre[m] != 'h';
  }

  lemma ExampleHost()
    ensures IsPlainHost("example.com/x?y=1")
  {
    var host := "example.com/x?y=1";
    forall m | 0 <= m < |host| ensures !IsSpace(host[m]) {
      assert host[m] == 'x' || host[m] == 'y' || host[m] == '1' || ('.' <= host[m] <= 'p') || host[m] == '?' || host[m] == '=';
    }
  }

  lemma ExampleJoin()
    ensures LinkInProse("Some text ", "example.com/x?y=1", "trailing") == "Some text https://example.com/x?y=1 trailing"
    ensures "https://" + "example.com/x?y=1" == "https://example.com/x?y=1"
  {
    ExampleTail();
    var a := "Some text " + "https://";
    assert a == "Some text https://";
    var b := a + "example.com/x?y=1";
    assert b == "Some text https://example.com/x?y=1";
    assert b + " " + "trailing" == "Some text https://example.com/x?y=1 trailing";
  }

  lemma ExampleTail()
    ensures "https://" + "example.com/x?y=1" == "https://example.com/x?y=1"
    ensures "https://example.com/x?y=1" + " " + "trailing" == "https://example.com/x?y=1 trailing"
  {
  }

  // ---- the page ----

  /**
   * Error first, then loading while validating, and otherwise the link page,
   * which is shown even when the link is empty. Its download group copies the
   * raw URL of the page's own path and downloads the link itself.
   */
  function UrlView(state: FetchState, baseUrl: string, asPath: string): (p: Page)
    ensures state.error.Some? ==> p == Page(ErrorPanel(state.error.value), None)
    ensures state.error.None? && state.validating ==> p == Page(Loading, None)
    ensures state.error.None? && !state.validating ==>
      p == Page(LinkPage(ParseDotUrl(state.content)),
                Some(DownloadProps(Some(DirectLink(baseUrl, asPath)), Some(ParseDotUrl(state.content)))))
  {
    if state.error.Some? then
      Page(ErrorPanel(state.error.value), None)
    else if state.validating then
      Page(Loading, None)
    else
      var hyperlink := ParseDotUrl(state.content);
      Page(LinkPage(hyperlink), Some(DownloadProps(Some(DirectLink(baseUrl, asPath)), Some(hyperlink))))
  }

  /**
   * On the link page the copy button is always offered (the direct link always
   * holds the raw-API prefix), and the download button exactly when a link was found.
   */
  lemma UrlButtons(state: FetchState, baseUrl: string, asPath: string)
    requires state.error.None? && !state.validating
    ensures UrlView(state, baseUrl, asPath).download.Some?
    ensures HasCopy(Buttons(UrlView(state, baseUrl, asPath).download.value))
    ensures HasDownload(Buttons(UrlView(state, baseUrl, asPath).download.value)) <==> ParseDotUrl(state.content) != ""
  {
    var p := UrlView(state, baseUrl, asPath);
    assert |DirectLink(baseUrl, asPath)| > 0;
  }
}
