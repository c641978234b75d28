/**
 * `extract_video_id` of analyzer.py: `re.search(r"(?:v=|\/)([0-9A-Za-z_-]{11}).*", url)`
 * and its group 1, or `None` when there is no match.
 */
module VideoId {
  import opened Wrappers

  const IdLength: nat := 11

  /** `[0-9A-Za-z_-]` */
  predicate IsIdChar(c: char) {
    '0' <= c <= '9' || 'A' <= c <= 'Z' || 'a' <= c <= 'z' || c == '_' || c == '-'
  }

  /** Eleven identifier characters start at position `i`. */
  predicate IdAt(s: string, i: nat) {
    i + IdLength <= |s| && forall j :: i <= j < i + IdLength ==> IsIdChar(s[j])
  }

  /**
   * The pattern matches starting at position `i`: `v=` or `/` there, then
   * eleven identifier characters. The trailing `.*` matches the empty string,
   * so it never prevents a match.
   */
  predicate MatchAt(s: string, i: nat) {
    i < |s| &&
    ((s[i] == 'v' && i + 1 < |s| && s[i + 1] == '=' && IdAt(s, i + 2)) ||
     (s[i] == '/' && IdAt(s, i + 1)))
  }

  /** Group 1 of a match at `i`: the eleven characters after `v=` or `/`. */
  function GroupAt(s: string, i: nat): (id: string)
    requires MatchAt(s, i)
    ensures |id| == IdLength && forall j :: 0 <= j < |id| ==> IsIdChar(id[j])
  {
    var start := if s[i] == 'v' then i + 2 else i + 1;
    s[start .. start + IdLength]
  }

  /** `re.search` from position `i`: the first matching start position wins. */
  function SearchFrom(s: string, i: nat): Option<string>
    decreases |s| - i
  {
    if i >= |s| then None
    else if MatchAt(s, i) then Some(GroupAt(s, i))
    else SearchFrom(s, i + 1)
  }

  /** `extract_video_id(url)`. */
  function ExtractVideoId(url: string): Option<string> {
    SearchFrom(url, 0)
  }

  lemma {:induction false} SearchFromSpec(s: string, i: nat)
    requires i <= |s|
    ensures SearchFrom(s, i).None? <==> forall k :: i <= k < |s| ==> !MatchAt(s, k)
    ensures SearchFrom(s, i).Some? ==>
      (exists k :: i <= k < |s| && MatchAt(s, k) && SearchFrom(s, i).value == GroupAt(s, k) &&
        forall m :: i <= m < k ==> !MatchAt(s, m))
    decreases |s| - i
  {
    if i < |s| && !MatchAt(s, i) {
      SearchFromSpec(s, i + 1);
      if SearchFrom(s, i).Some? {
        var k :| i + 1 <= k < |s| && MatchAt(s, k) &&
          SearchFrom(s, i).value == GroupAt(s, k) && forall m :: i + 1 <= m < k ==> !MatchAt(s, m);
        assert forall m :: i <= m < k ==> !MatchAt(s, m);
      }
    }
  }

  /**
   * The extractor answers `None` exactly when no position of the URL holds `v=`
   * or `/` followed by eleven identifier characters; otherwise it answers the
   * eleven `[0-9A-Za-z_-]` characters after the leftmost such position.
   */
  lemma ExtractVideoIdSpec(url: string)
    ensures ExtractVideoId(url).None? <==> forall k :: 0 <= k < |url| ==> !MatchAt(url, k)
    ensures ExtractVideoId(url).Some? ==>
      (exists k :: 0 <= k < |url| && MatchAt(url, k) && ExtractVideoId(url).value == GroupAt(url, k) &&
        forall m :: 0 <= m < k ==> !MatchAt(url, m))
    ensures ExtractVideoId(url).Some? ==>
      |ExtractVideoId(url).value| == IdLength &&
      forall j :: 0 <= j < IdLength ==> IsIdChar(ExtractVideoId(url).value[j])
  {
    SearchFromSpec(url, 0);
  }

  /** A short link: the earlier `/` are not followed by eleven identifier characters; the one before the identifier is. */
  lemma ExtractVideoIdExample(url: string)
    requires url == "https://youtu.be/" + "dQw4w9WgXcQ"
    ensures ExtractVideoId(url) == Some("dQw4w9WgXcQ")
  {
    ExtractVideoIdSpec(url);
    assert MatchAt(url, 16);
    forall m | 0 <= m < 16 ensures !MatchAt(url, m) {
      if m == 6 {
        assert !IsIdChar(url[7]);
      } else if m == 7 {
        assert !IsIdChar(url[13]);
      } else {
        assert url[m] != 'v' && url[m] != '/';
      }
    }
    var k :| 0 <= k < |url| && MatchAt(url, k) && ExtractVideoId(url).value == GroupAt(url, k) &&
      forall m :: 0 <= m < k ==> !MatchAt(url, m);
    assert k == 16;
    assert GroupAt(url, 16) == url[17..28] == "dQw4w9WgXcQ";
  }
}
