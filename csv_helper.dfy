/** The CSV ingestion code of utils/csvHelper.ts: sheet-id extraction, logo-link clean-up, the
    line tokenizer, the tiered column resolver and the record builder. */
module CsvHelper {
  import opened Types
  import opened Text

  // ===========================================================================================
  // extractSheetId: the regular expression /\/d\/(.*?)(\/|$)/
  // ===========================================================================================

  /** Where the lazy capture that starts at `e` stops: at the first `/` or at the end of the
      string, unless a line terminator (which `.` does not match) comes first. */
  function CaptureEnd(s: string, e: nat): (r: Option<nat>)
    requires e <= |s|
    ensures r.Some? ==> e <= r.value <= |s| && (r.value == |s| || s[r.value] == '/')
    ensures r.Some? ==> forall j :: e <= j < r.value ==> s[j] != '/' && !IsLineTerminator(s[j])
    ensures r.None? ==> exists j :: e <= j < |s| && IsLineTerminator(s[j]) && s[j] != '/'
    decreases |s| - e
  {
    if e == |s| || s[e] == '/' then Some(e)
    else if IsLineTerminator(s[e]) then None
    else CaptureEnd(s, e + 1)
  }

  /** The expression matches with its `/d/` at index `q`. */
  predicate CompletesAt(s: string, q: int) {
    0 <= q && q + 3 <= |s| && s[q..q + 3] == "/d/" && CaptureEnd(s, q + 3).Some?
  }

  /** The text captured by a match whose `/d/` is at `q`. */
  function SheetIdAt(s: string, q: int): (id: string)
    requires CompletesAt(s, q)
    ensures '/' !in id
  {
    var k := CaptureEnd(s, q + 3).value;
    var id := s[q + 3..k];
    assert forall j :: 0 <= j < |id| ==> id[j] == s[q + 3 + j];
    id
  }

  function SheetIdFrom(s: string, q: nat): (r: Option<string>)
    requires q <= |s|
    ensures r.None? <==> forall j :: q <= j < |s| ==> !CompletesAt(s, j)
    ensures r.Some? ==> exists j :: q <= j < |s| && CompletesAt(s, j) && r.value == SheetIdAt(s, j)
                                    && forall i :: q <= i < j ==> !CompletesAt(s, i)
    decreases |s| - q
  {
    if q + 3 > |s| then None
    else if CompletesAt(s, q) then Some(SheetIdAt(s, q))
    else
      var r := SheetIdFrom(s, q + 1);
      assert r.Some? ==> exists j :: q <= j < |s| && CompletesAt(s, j) && r.value == SheetIdAt(s, j)
                                     && forall i :: q <= i < j ==> !CompletesAt(s, i)
      by {
        if r.Some? {
          var j :| q + 1 <= j < |s| && CompletesAt(s, j) && r.value == SheetIdAt(s, j)
                   && forall i :: q + 1 <= i < j ==> !CompletesAt(s, i);
          assert forall i :: q <= i < j ==> !CompletesAt(s, i);
        }
      }
      r
  }

  /** `extractSheetId` (utils/csvHelper.ts:3-6): the text after the leftmost `/d/` that the
      expression can complete, up to the next `/` or the end; `None` stands for `null`. */
  function ExtractSheetId(url: string): (r: Option<string>)
    ensures r.None? <==> forall q :: 0 <= q < |url| ==> !CompletesAt(url, q)
    ensures r.Some? ==> '/' !in r.value
    ensures r.Some? ==> exists q :: 0 <= q < |url| && CompletesAt(url, q) && r.value == SheetIdAt(url, q)
                                    && forall i :: 0 <= i < q ==> !CompletesAt(url, i)
  {
    SheetIdFrom(url, 0)
  }

  lemma {:induction false} CaptureEndWithoutBreaks(s: string, e: nat)
    requires e <= |s|
    requires forall j :: e <= j < |s| ==> !IsLineTerminator(s[j])
    ensures CaptureEnd(s, e).Some?
    decreases |s| - e
  {
    if e < |s| && s[e] != '/' {
      CaptureEndWithoutBreaks(s, e + 1);
    }
  }

  /** On a one-line URL, `extractSheetId` is `null` exactly when `/d/` does not occur. */
  lemma SheetIdOfOneLineUrl(url: string)
    requires forall j :: 0 <= j < |url| ==> !IsLineTerminator(url[j])
    ensures ExtractSheetId(url).None? <==> !Contains(url, "/d/")
  {
    if Contains(url, "/d/") {
      var q :| 0 <= q <= |url| - 3 && OccursAt(url, "/d/", q);
      CaptureEndWithoutBreaks(url, q + 3);
      assert CompletesAt(url, q);
    } else {
      forall q | 0 <= q < |url| ensures !CompletesAt(url, q) {
        if q + 3 <= |url| {
          assert !OccursAt(url, "/d/", q);
        }
      }
    }
  }

  // ===========================================================================================
  // sanitizeLogoUrl: the regular expression
  //   /(?:drive|docs)\.google\.com\/.*(?:id=|d\/)([a-zA-Z0-9_-]+)/
  // ===========================================================================================

  const DriveHost: string := "drive.google.com/"
  const DocsHost: string := "docs.google.com/"

  /** `url.replace(/^"|"$/g, '')`: one leading and one trailing `"` go; a lone `"` is one match. */
  function StripQuotes(s: string): (r: string)
    ensures |r| <= |s|
    ensures s == "" ==> r == ""
    ensures s == "\"" ==> r == ""
    ensures |s| >= 2 && s[0] == '"' && s[|s| - 1] == '"' ==> r == s[1..|s| - 1]
    ensures |s| > 0 && s[0] == '"' && s[|s| - 1] != '"' ==> r == s[1..]
    ensures |s| > 0 && s[0] != '"' && s[|s| - 1] == '"' ==> r == s[..|s| - 1]
    ensures |s| > 0 && s[0] != '"' && s[|s| - 1] != '"' ==> r == s
  {
    var a := if |s| > 0 && s[0] == '"' then 1 else 0;
    var b := if |s| > a && s[|s| - 1] == '"' then |s| - 1 else |s|;
    s[a..b]
  }

  /** The URL after the quotes are stripped and the result trimmed. */
  function CleanUrl(url: string): string {
    Trim(StripQuotes(url))
  }

  /** The capture group's character class `[a-zA-Z0-9_-]`. */
  predicate IsIdChar(c: char) {
    'a' <= c <= 'z' || 'A' <= c <= 'Z' || '0' <= c <= '9' || c == '_' || c == '-'
  }

  /** The end of a `drive.google.com/` or `docs.google.com/` that starts at `q`, or -1. */
  function HostEnd(s: string, q: nat): (e: int)
    ensures e == -1 || q < e <= |s|
  {
    if q <= |s| && DriveHost <= s[q..] then q + |DriveHost|
    else if q <= |s| && DocsHost <= s[q..] then q + |DocsHost|
    else -1
  }

  /** The first line terminator at or after `e`, or the end: how far `.*` can reach. */
  function LineEnd(s: string, e: nat): (k: nat)
    requires e <= |s|
    ensures e <= k <= |s|
    ensures forall j :: e <= j < k ==> !IsLineTerminator(s[j])
    ensures k < |s| ==> IsLineTerminator(s[k])
    decreases |s| - e
  {
    if e == |s| || IsLineTerminator(s[e]) then e else LineEnd(s, e + 1)
  }

  /** The length of an `id=` or `d/` that starts at `p`, or 0. */
  function MarkerLen(s: string, p: nat): nat {
    if p <= |s| && "id=" <= s[p..] then 3
    else if p <= |s| && "d/" <= s[p..] then 2
    else 0
  }

  /** At `p` stands a marker followed by at least one id character. */
  predicate MarkerAt(s: string, p: int) {
    0 <= p && MarkerLen(s, p) > 0 && p + MarkerLen(s, p) < |s| && IsIdChar(s[p + MarkerLen(s, p)])
  }

  /** The expression matches with its host at `q` and its marker at `p`. */
  predicate DriveMatch(s: string, q: int, p: int) {
    0 <= q <= |s| && HostEnd(s, q) >= 0 && HostEnd(s, q) <= p <= LineEnd(s, HostEnd(s, q)) && MarkerAt(s, p)
  }

  /** The end of the run of id characters that starts at `j`. */
  function IdRunEnd(s: string, j: nat): (k: nat)
    requires j <= |s|
    ensures j <= k <= |s|
    ensures forall i :: j <= i < k ==> IsIdChar(s[i])
    ensures k < |s| ==> !IsIdChar(s[k])
    decreases |s| - j
  {
    if j < |s| && IsIdChar(s[j]) then IdRunEnd(s, j + 1) else j
  }

  /** The capture group of a match whose marker is at `p`: the longest run of id characters. */
  function Capture(s: string, p: int): (id: string)
    requires MarkerAt(s, p)
    ensures |id| > 0 && forall i :: 0 <= i < |id| ==> IsIdChar(id[i])
  {
    var j := p + MarkerLen(s, p);
    var id := s[j..IdRunEnd(s, j)];
    assert forall i :: 0 <= i < |id| ==> id[i] == s[j + i];
    id
  }

  /** The smallest marker position in `[p, hi]`: where a lazy `.*?` would stop. */
  function FirstMarker(s: string, p: nat, hi: nat): (r: Option<nat>)
    ensures r.Some? ==> p <= r.value <= hi && MarkerAt(s, r.value)
    ensures forall i :: p <= i <= hi && (r.None? || i < r.value) ==> !MarkerAt(s, i)
    decreases hi + 1 - p
  {
    if p > hi then None
    else if MarkerAt(s, p) then Some(p)
    else FirstMarker(s, p + 1, hi)
  }

  /** The largest marker position in `[lo, p]`: where the greedy `.*` of the source stops. */
  function LastMarker(s: string, lo: nat, p: int): (r: Option<nat>)
    ensures r.Some? ==> lo <= r.value <= p && MarkerAt(s, r.value)
    ensures forall i :: lo <= i <= p && (r.None? || i > r.value) ==> !MarkerAt(s, i)
    decreases p + 1 - lo
  {
    if p < lo then None
    else if MarkerAt(s, p) then Some(p)
    else LastMarker(s, lo, p - 1)
  }

  /** The marker a match with its host at `q` uses: the first one when `greedy` is false, the
      last one when it is true. */
  function DriveMarker(s: string, q: nat, greedy: bool): (r: Option<nat>)
    ensures r.None? <==> forall p :: !DriveMatch(s, q, p)
    ensures r.Some? ==> DriveMatch(s, q, r.value)
    ensures r.Some? && !greedy ==> forall p :: p < r.value ==> !DriveMatch(s, q, p)
    ensures r.Some? && greedy ==> forall p :: p > r.value ==> !DriveMatch(s, q, p)
  {
    if q > |s| then None
    else
      var e := HostEnd(s, q);
      if e < 0 then None
      else
        var hi := LineEnd(s, e);
        var r := if greedy then LastMarker(s, e, hi) else FirstMarker(s, e, hi);
        assert r.None? ==> forall p :: !DriveMatch(s, q, p) by {
          if r.None? {
            forall p ensures !DriveMatch(s, q, p) {
              if e <= p <= hi {
                assert !MarkerAt(s, p);
              }
            }
          }
        }
        assert r.Some? ==> DriveMatch(s, q, r.value);
        r
  }

  /** The leftmost host position at or after `q` that has a match. */
  function MatchStart(s: string, q: nat, greedy: bool): (r: Option<nat>)
    ensures r.None? ==> forall j, p :: q <= j ==> !DriveMatch(s, j, p)
    ensures r.Some? ==> q <= r.value <= |s| && DriveMarker(s, r.value, greedy).Some?
    ensures r.Some? ==> forall i, p :: q <= i < r.value ==> !DriveMatch(s, i, p)
    decreases |s| + 1 - q
  {
    if q > |s| then None
    else if DriveMarker(s, q, greedy).Some? then Some(q)
    else
      var r := MatchStart(s, q + 1, greedy);
      assert forall p :: !DriveMatch(s, q, p);
      assert r.Some? ==> forall i, p :: q <= i < r.value ==> !DriveMatch(s, i, p) by {
        if r.Some? {
          forall i, p | q <= i < r.value ensures !DriveMatch(s, i, p) {
            if i > q {
              assert q + 1 <= i < r.value;
            }
          }
        }
      }
      r
  }

  /** The id captured by the leftmost match; the marker is the first or the last one after
      the host, as `greedy` says. */
  function DriveId(s: string, greedy: bool): (r: Option<string>)
    ensures r.None? <==> forall q, p :: !DriveMatch(s, q, p)
    ensures r.Some? ==> exists q, p :: DriveMatch(s, q, p) && r.value == Capture(s, p)
                                       && (forall i, p' :: i < q ==> !DriveMatch(s, i, p'))
                                       && (!greedy ==> forall p' :: p' < p ==> !DriveMatch(s, q, p'))
                                       && (greedy ==> forall p' :: p' > p ==> !DriveMatch(s, q, p'))
  {
    match MatchStart(s, 0, greedy)
    case None => None
    case Some(q) =>
      var p := DriveMarker(s, q, greedy).value;
      assert DriveMatch(s, q, p);
      Some(Capture(s, p))
  }

  /** The file id a Google Drive or Docs link carries, taken after the FIRST `id=` or `d/`
      that follows the host (the corrected expression, with a lazy `.*?`). */
  function DriveFileId(s: string): (r: Option<string>)
    ensures r.None? <==> forall q, p :: !DriveMatch(s, q, p)
    ensures r.Some? ==> exists q, p :: DriveMatch(s, q, p) && r.value == Capture(s, p)
                                       && (forall i, p' :: i < q ==> !DriveMatch(s, i, p'))
                                       && (forall p' :: p' < p ==> !DriveMatch(s, q, p'))
  {
    DriveId(s, false)
  }

  /** The file id as the source's expression finds it: after the LAST `id=` or `d/` that
      follows the host on the same line, because its `.*` is greedy. */
  function DriveFileIdAsWritten(s: string): (r: Option<string>)
    ensures r.None? <==> forall q, p :: !DriveMatch(s, q, p)
    ensures r.Some? ==> exists q, p :: DriveMatch(s, q, p) && r.value == Capture(s, p)
                                       && (forall i, p' :: i < q ==> !DriveMatch(s, i, p'))
                                       && (forall p' :: p' > p ==> !DriveMatch(s, q, p'))
  {
    DriveId(s, true)
  }

  function ThumbnailUrl(id: string): string {
    "https://drive.google.com/thumbnail?id=" + id + "&sz=w1000"
  }

  /** `sanitizeLogoUrl` (utils/csvHelper.ts:9-26) with the corrected id extraction. */
  function SanitizeLogoUrl(url: string): (r: string)
    ensures url == "" ==> r == ""
    ensures url != "" && DriveFileId(CleanUrl(url)).Some? ==> r == ThumbnailUrl(DriveFileId(CleanUrl(url)).value)
    ensures url != "" && DriveFileId(CleanUrl(url)).None? ==> r == CleanUrl(url)
  {
    if url == "" then ""
    else
      var clean := CleanUrl(url);
      match DriveFileId(clean)
      case Some(id) => ThumbnailUrl(id)
      case None => clean
  }

  /** `sanitizeLogoUrl` exactly as written, with the greedy id extraction. */
  function SanitizeLogoUrlAsWritten(url: string): (r: string)
    ensures url == "" ==> r == ""
    ensures url != "" && DriveFileIdAsWritten(CleanUrl(url)).Some? ==>
              r == ThumbnailUrl(DriveFileIdAsWritten(CleanUrl(url)).value)
    ensures url != "" && DriveFileIdAsWritten(CleanUrl(url)).None? ==> r == CleanUrl(url)
  {
    if url == "" then ""
    else
      var clean := CleanUrl(url);
      match DriveFileIdAsWritten(clean)
      case Some(id) => ThumbnailUrl(id)
      case None => clean
  }

  /** The search finds the match whose host is at `q` and whose marker is at `p`, when no
      host starts before `q` and no other marker lies on the side the search prefers. */
  lemma {:induction false} DriveIdFindsMatch(s: string, q: nat, p: nat, greedy: bool)
    requires DriveMatch(s, q, p)
    requires forall i :: 0 <= i < q ==> HostEnd(s, i) == -1
    requires !greedy ==> forall i :: HostEnd(s, q) <= i < p ==> !MarkerAt(s, i)
    requires greedy ==> forall i :: p < i <= LineEnd(s, HostEnd(s, q)) ==> !MarkerAt(s, i)
    ensures DriveId(s, greedy) == Some(Capture(s, p))
  {
    var m := DriveMarker(s, q, greedy);
    assert m.Some?;
    assert m.value == p by {
      assert DriveMatch(s, q, m.value);
    }
    var start := MatchStart(s, 0, greedy);
    assert start.Some?;
    assert start.value == q by {
      assert DriveMarker(s, start.value, greedy).Some?;
      assert HostEnd(s, start.value) >= 0;
    }
  }

  /** `s` holds `w` from index `k` on. */
  lemma PrefixAt(s: string, k: nat, w: string)
    requires k + |w| <= |s| && s[k..k + |w|] == w
    ensures w <= s[k..]
  {
    assert s[k..][..|w|] == s[k..k + |w|];
  }

  // A share link as Google Drive hands it out: `https://drive.google.com/file/d/<id>/view...`.
  const SharePrefix: string := "https://" + DriveHost + "file/" + "d/"

  lemma ShareLinkIsClean(id: string, tail: string)
    requires |id| > 0 && forall i :: 0 <= i < |id| ==> IsIdChar(id[i])
    requires tail != "" ==> tail[|tail| - 1] != '"' && !IsSpace(tail[|tail| - 1])
    ensures CleanUrl(SharePrefix + id + tail) == SharePrefix + id + tail
  {
    var s := SharePrefix + id + tail;
    var last := s[|s| - 1];
    assert last != '"' && !IsSpace(last) by {
      if tail == "" {
        assert last == id[|id| - 1];
      } else {
        assert last == tail[|tail| - 1];
      }
    }
    assert s[0] == 'h';
    assert StripQuotes(s) == s;
    TrimUnpadded(s);
  }

  /** In a share link, no host starts before index 8, the one at 8 ends at 25, and the first
      marker after it is the `d/` at 30. */
  lemma ShareLinkHost(s: string, rest: string)
    requires s == SharePrefix + rest
    ensures forall q :: 0 <= q < 8 ==> HostEnd(s, q) == -1
    ensures HostEnd(s, 8) == 25
    ensures LineEnd(s, 25) >= 30
    ensures forall p :: 25 <= p < 30 ==> !MarkerAt(s, p)
    ensures s[30..] == "d/" + rest
  {
    ShareLinkScheme(s, rest);
    ShareLinkHostEnd(s, rest);
    ShareLinkPath(s, rest);
  }

  lemma ShareLinkScheme(s: string, rest: string)
    requires s == SharePrefix + rest
    ensures forall q :: 0 <= q < 8 ==> HostEnd(s, q) == -1
  {
    assert s[..8] == "https://";
    forall q | 0 <= q < 8 ensures HostEnd(s, q) == -1 {
      assert s[q] == "https://"[q];
    }
  }

  lemma ShareLinkHostEnd(s: string, rest: string)
    requires s == SharePrefix + rest
    ensures HostEnd(s, 8) == 25
  {
    assert s[8..25] == DriveHost;
    PrefixAt(s, 8, DriveHost);
  }

  lemma ShareLinkPath(s: string, rest: string)
    requires s == SharePrefix + rest
    ensures LineEnd(s, 25) >= 30
    ensures forall p :: 25 <= p < 30 ==> !MarkerAt(s, p)
    ensures s[30..] == "d/" + rest
  {
    assert s[25..32] == "file/d/";
    forall p | 25 <= p < 30 ensures !MarkerAt(s, p) {
      assert s[p] == "file/d/"[p - 25] && s[p + 1] == "file/d/"[p + 1 - 25];
    }
    assert s[30..] == "d/" + rest;
  }

  /** The id run of a share link ends where the id does. */
  lemma ShareLinkCapture(s: string, id: string, tail: string)
    requires s == SharePrefix + id + tail
    requires |id| > 0 && forall i :: 0 <= i < |id| ==> IsIdChar(id[i])
    requires tail == "" || !IsIdChar(tail[0])
    ensures MarkerAt(s, 30) && Capture(s, 30) == id
  {
    ShareLinkPath(s, id + tail);
    assert MarkerLen(s, 30) == 2 by {
      assert s[30..32] == "d/";
      PrefixAt(s, 30, "d/");
      assert s[30] == 'd';
    }
    assert s[32..] == id + tail;
    IdRunOf(s, 32, id, tail);
    assert s[32..32 + |id|] == id;
  }

  /** The run of id characters at `j` is `id` when `id` is followed by a non-id character
      or by the end. */
  lemma IdRunOf(s: string, j: nat, id: string, tail: string)
    requires j <= |s| && s[j..] == id + tail
    requires forall i :: 0 <= i < |id| ==> IsIdChar(id[i])
    requires tail == "" || !IsIdChar(tail[0])
    ensures IdRunEnd(s, j) == j + |id|
  {
    forall i | j <= i < j + |id| ensures IsIdChar(s[i]) {
      assert s[i] == id[i - j];
    }
    if j + |id| < |s| {
      assert s[j + |id|] == tail[0];
    }
  }

  /** The corrected search finds the id of a share link. */
  lemma ShareLinkDriveId(s: string, id: string, tail: string)
    requires s == SharePrefix + id + tail
    requires |id| > 0 && forall i :: 0 <= i < |id| ==> IsIdChar(id[i])
    requires tail == "" || !IsIdChar(tail[0])
    ensures DriveFileId(s) == Some(id)
  {
    ShareLinkHost(s, id + tail);
    ShareLinkCapture(s, id, tail);
    assert DriveMatch(s, 8, 30);
    DriveIdFindsMatch(s, 8, 30, false);
  }

  /** With the corrected expression, a share link's logo becomes the thumbnail of its id,
      whatever follows the id. */
  lemma {:induction false} ShareLinkThumbnail(id: string, tail: string)
    requires |id| > 0 && forall i :: 0 <= i < |id| ==> IsIdChar(id[i])
    requires tail == "" || !IsIdChar(tail[0])
    requires tail != "" ==> tail[|tail| - 1] != '"' && !IsSpace(tail[|tail| - 1])
    ensures SanitizeLogoUrl(SharePrefix + id + tail) == ThumbnailUrl(id)
  {
    var s := SharePrefix + id + tail;
    ShareLinkIsClean(id, tail);
    ShareLinkDriveId(s, id, tail);
    assert s != "" by {
      assert |s| >= |SharePrefix| > 0;
    }
  }

  /** No marker starts at a `/` followed only by id characters: both markers hold a
      character (`=` or `/`) that is not one. */
  lemma NoMarkerInFinalSegment(s: string, n: nat)
    requires n < |s| && s[n] == '/'
    requires forall p :: n < p < |s| ==> IsIdChar(s[p])
    ensures forall p :: n <= p ==> !MarkerAt(s, p)
  {
    forall p | n <= p ensures !MarkerAt(s, p) {
      if p < |s| {
        assert !("id=" <= s[p..]) by {
          if p + 2 < |s| { assert s[p..][2] == s[p + 2]; }
        }
        assert !("d/" <= s[p..]) by {
          if p + 1 < |s| { assert s[p..][1] == s[p + 1]; }
        }
      }
    }
  }

  /** A `d/` at `n - 1` followed by id characters up to the end is a marker. */
  lemma FinalMarker(s: string, n: nat)
    requires 1 <= n && n + 1 < |s| && s[n - 1] == 'd' && s[n] == '/' && IsIdChar(s[n + 1])
    ensures MarkerAt(s, n - 1) && MarkerLen(s, n - 1) == 2
  {
    assert s[n - 1..n + 1] == "d/";
    PrefixAt(s, n - 1, "d/");
    assert s[n - 1..][0] == 'd';
  }

  /** The greedy search on a link laid out as `<host at 8>...d/<run of id characters>`. */
  lemma {:induction false} GreedyPicksLastSegment(s: string, n: nat)
    requires forall q :: 0 <= q < 8 ==> HostEnd(s, q) == -1
    requires HostEnd(s, 8) == 25
    requires 26 <= n && n + 1 < |s|
    requires forall p :: 25 <= p < n - 1 ==> !IsLineTerminator(s[p])
    requires s[n - 1] == 'd' && s[n] == '/'
    requires forall p :: n < p < |s| ==> IsIdChar(s[p])
    ensures DriveId(s, true) == Some(s[n + 1..])
  {
    FinalMarker(s, n);
    assert DriveMatch(s, 8, n - 1);
    assert Capture(s, n - 1) == s[n + 1..] by {
      IdRunToEnd(s, n + 1);
    }
    NoMarkerInFinalSegment(s, n);
    DriveIdFindsMatch(s, 8, n - 1, true);
  }

  lemma {:induction false} IdRunToEnd(s: string, j: nat)
    requires j <= |s| && forall i :: j <= i < |s| ==> IsIdChar(s[i])
    ensures IdRunEnd(s, j) == |s|
    decreases |s| - j
  {
    if j < |s| {
      IdRunToEnd(s, j + 1);
    }
  }

  /** Where the parts of `SharePrefix + id + "/" + v` stand. */
  lemma ShareLinkLayout(s: string, id: string, v: string)
    requires s == SharePrefix + id + "/" + v
    requires |id| > 0 && forall i :: 0 <= i < |id| ==> IsIdChar(id[i])
    requires forall i :: 0 <= i < |v| ==> IsIdChar(v[i])
    ensures |s| == 33 + |id| + |v|
    ensures forall p :: 25 <= p < 31 + |id| ==> !IsLineTerminator(s[p])
    ensures s[31 + |id|] == id[|id| - 1] && s[32 + |id|] == '/'
    ensures forall p :: 32 + |id| < p < |s| ==> IsIdChar(s[p])
  {
    assert |SharePrefix| == 32;
    forall p | 25 <= p < 31 + |id| ensures !IsLineTerminator(s[p]) {
      if p < 30 {
        assert s[p] == "file/"[p - 25];
      } else if p < 32 {
        assert s[p] == "d/"[p - 30];
      } else {
        assert s[p] == id[p - 32];
      }
    }
    forall p | 32 + |id| < p < |s| ensures IsIdChar(s[p]) {
      assert s[p] == v[p - 33 - |id|];
    }
  }

  /** The source's greedy `.*` takes the last marker on the line: in a share link whose id ends
      in `d` and that ends with one more path segment of id characters, the `d/` before that
      segment wins, and the segment is taken for the id. */
  lemma {:induction false} GreedyTakesNextSegment(id: string, v: string)
    requires |id| > 0 && id[|id| - 1] == 'd' && forall i :: 0 <= i < |id| ==> IsIdChar(id[i])
    requires |v| > 0 && forall i :: 0 <= i < |v| ==> IsIdChar(v[i])
    ensures SanitizeLogoUrlAsWritten(SharePrefix + id + "/" + v) == ThumbnailUrl(v)
  {
    var rest := id + "/" + v;
    var s := SharePrefix + rest;
    assert s == SharePrefix + id + "/" + v;
    var n := 32 + |id|;
    ShareLinkHost(s, rest);
    ShareLinkLayout(s, id, v);
    assert CleanUrl(s) == s by {
      assert s == SharePrefix + id + ("/" + v);
      ShareLinkIsClean(id, "/" + v);
    }
    assert s[n + 1..] == v;
    GreedyPicksLastSegment(s, n);
  }

  /** The sample link of the finding, spelled as a share link. */
  lemma SampleLinkLayout(url: string)
    requires url == "https://drive.google.com/file/d/1abcd/view"
    ensures url == SharePrefix + "1abcd" + "/" + "view"
    ensures url == SharePrefix + "1abcd" + "/view"
  {
    SampleLinkPieces();
    assert SharePrefix + "1abcd" + "/" + "view" == SharePrefix + ("1abcd" + "/" + "view");
    assert SharePrefix + "1abcd" + "/view" == SharePrefix + ("1abcd" + "/view");
  }

  /** Proof helper for `SampleLinkLayout`: the sample link cut into its literal pieces. */
  lemma SampleLinkPieces()
    ensures "https://drive.google.com/file/d/1abcd/view" == "https://drive.google.com/file/d/" + "1abcd/view"
    ensures "https://drive.google.com/file/d/" == SharePrefix
    ensures "1abcd/view" == "1abcd" + "/" + "view" == "1abcd" + "/view"
  {
    SampleLinkSplit();
    SampleLinkPrefix();
  }

  /** Proof helper for `SampleLinkPieces`: the share prefix split off the sample link. */
  lemma SampleLinkSplit()
    ensures "https://drive.google.com/file/d/1abcd/view" == "https://drive.google.com/file/d/" + "1abcd/view"
  {
  }

  /** Proof helper for `SampleLinkPieces`: the share prefix spelled out. */
  lemma SampleLinkPrefix()
    ensures "https://drive.google.com/file/d/" == SharePrefix
  {
    assert "https://drive.google.com/file/d/" == "https://" + "drive.google.com/" + "file/" + "d/";
  }

  /** Proof helper for the sample link: both of its last path segments are runs of id
      characters. */
  lemma SampleLinkIds()
    ensures forall i :: 0 <= i < |"1abcd"| ==> IsIdChar("1abcd"[i])
    ensures forall i :: 0 <= i < |"view"| ==> IsIdChar("view"[i])
  {
  }

  /** A share link on which the source goes wrong: its id `1abcd` ends in `d`, so the
      expression as written takes `view` for the id. */
  lemma GreedyIdCounterexample(url: string)
    requires url == "https://drive.google.com/file/d/1abcd/view"
    ensures SanitizeLogoUrlAsWritten(url) == ThumbnailUrl("view")
  {
    SampleLinkLayout(url);
    SampleLinkIds();
    GreedyTakesNextSegment("1abcd", "view");
  }

  /** The same link under the corrected expression: the thumbnail of `1abcd`. */
  lemma CorrectedIdOnTrailingD(url: string)
    requires url == "https://drive.google.com/file/d/1abcd/view"
    ensures SanitizeLogoUrl(url) == ThumbnailUrl("1abcd")
  {
    SampleLinkLayout(url);
    SampleLinkIds();
    ShareLinkThumbnail("1abcd", "/view");
  }

  // ===========================================================================================
  // parseCSVLine: split at the commas the expression ,(?=(?:(?:[^"]*"){2})*[^"]*$) matches,
  // then trim every field, unwrap one pair of quotes and turn each "" into "
  // ===========================================================================================

  /** The number of `"` in `s`. */
  function Quotes(s: string): nat {
    if s == "" then 0 else (if s[0] == '"' then 1 else 0) + Quotes(s[1..])
  }

  lemma {:induction false} QuotesConcat(a: string, b: string)
    ensures Quotes(a + b) == Quotes(a) + Quotes(b)
  {
    if a != "" {
      assert (a + b)[1..] == a[1..] + b;
      QuotesConcat(a[1..], b);
    } else {
      assert a + b == b;
    }
  }

  lemma {:induction false} QuotesAbsent(s: string)
    requires '"' !in s
    ensures Quotes(s) == 0
  {
    if s != "" {
      assert '"' !in s[1..] by { assert forall c :: c in s[1..] ==> c in s; }
      QuotesAbsent(s[1..]);
    }
  }

  /** The lookahead holds at a comma when an even number of `"` follows it, that is when the
      comma is outside every quoted section. */
  predicate IsSplitPoint(s: string, p: int) {
    0 <= p < |s| && s[p] == ',' && EvenFrom(s, p + 1)
  }

  /** `s[i..]` holds an even number of `"`, counted one character at a time. */
  predicate EvenFrom(s: string, i: nat)
    decreases |s| - i
  {
    i >= |s| || (EvenFrom(s, i + 1) == (s[i] != '"'))
  }

  lemma {:induction false} EvenFromQuotes(s: string, i: nat)
    requires i <= |s|
    ensures EvenFrom(s, i) <==> Quotes(s[i..]) % 2 == 0
    decreases |s| - i
  {
    if i < |s| {
      EvenFromQuotes(s, i + 1);
      assert s[i..][1..] == s[i + 1..];
    }
  }

  /** The first split point at or after `i`, or -1. */
  function FirstSplitFrom(s: string, i: nat): (k: int)
    ensures k == -1 || i <= k < |s|
    ensures k >= 0 ==> IsSplitPoint(s, k)
    ensures forall p :: i <= p < |s| && (k < 0 || p < k) ==> !IsSplitPoint(s, p)
    decreases |s| - i
  {
    if i >= |s| then -1
    else if IsSplitPoint(s, i) then i
    else FirstSplitFrom(s, i + 1)
  }

  /** `text.split(pattern)`: the pieces between the split points, in order. */
  function SplitFields(s: string): (fields: seq<string>)
    ensures |fields| >= 1
    decreases |s|
  {
    var k := FirstSplitFrom(s, 0);
    if k < 0 then [s]
    else
      var rest := SplitFields(s[k + 1..]);
      var fields := [s[..k]] + rest;
      fields
  }

  /** Joining the fields with commas gives the line back: `split` drops only the commas it
      cuts at. */
  lemma {:induction false} SplitFieldsJoin(s: string)
    ensures JoinWith(SplitFields(s), ',') == s
    decreases |s|
  {
    var k := FirstSplitFrom(s, 0);
    if k >= 0 {
      var rest := SplitFields(s[k + 1..]);
      SplitFieldsJoin(s[k + 1..]);
      assert SplitFields(s) == [s[..k]] + rest;
      assert ([s[..k]] + rest)[1..] == rest;
      assert s == s[..k] + [','] + s[k + 1..];
    }
  }

  /** `s.replace(/""/g, '"')`: pairs of quotes, taken from the left without overlap, become one. */
  function Undouble(s: string): (r: string)
    ensures |r| <= |s|
  {
    if |s| >= 2 && s[0] == '"' && s[1] == '"' then ['"'] + Undouble(s[2..])
    else if |s| > 0 then [s[0]] + Undouble(s[1..])
    else ""
  }

  /** One field of `parseCSVLine` (utils/csvHelper.ts:34-42). A lone `"` counts as both the
      opening and the closing quote and leaves an empty field. */
  function CleanField(field: string): (r: string)
    ensures '"' !in field ==> r == Trim(field)
  {
    var val := Trim(field);
    var inner := if |val| >= 1 && val[0] == '"' && val[|val| - 1] == '"' then
                   (if |val| == 1 then "" else val[1..|val| - 1])
                 else val;
    if '"' !in field then
      assert '"' !in val;
      UndoubleQuoteFree(val);
      Undouble(inner)
    else
      Undouble(inner)
  }

  /** `parseCSVLine` (utils/csvHelper.ts:29-43). */
  function ParseCsvLine(text: string): (r: seq<string>)
    ensures |r| == |SplitFields(text)| >= 1
    ensures forall k :: 0 <= k < |r| ==> r[k] == CleanField(SplitFields(text)[k])
  {
    var fields := SplitFields(text);
    seq(|fields|, k requires 0 <= k < |fields| => CleanField(fields[k]))
  }

  lemma {:induction false} UndoubleQuoteFree(s: string)
    requires '"' !in s
    ensures Undouble(s) == s
  {
    if |s| > 0 {
      assert '"' !in s[1..] by { assert forall c :: c in s[1..] ==> c in s; }
      UndoubleQuoteFree(s[1..]);
    }
  }

  /** How a writer escapes a value: every `"` doubled. */
  function Double(x: string): (d: string)
    ensures Quotes(d) == 2 * Quotes(x)
  {
    if x == "" then ""
    else
      var h := if x[0] == '"' then "\"\"" else [x[0]];
      QuotesConcat(h, Double(x[1..]));
      h + Double(x[1..])
  }

  /** A value written as a quoted CSV field. */
  function Encode(x: string): (e: string)
    ensures |e| >= 2 && e[0] == '"' && e[|e| - 1] == '"'
    ensures Quotes(e) == 2 * Quotes(x) + 2
  {
    QuotesConcat(['"'] + Double(x), ['"']);
    QuotesConcat(['"'], Double(x));
    ['"'] + Double(x) + ['"']
  }

  lemma {:induction false} UndoubleDouble(x: string)
    ensures Undouble(Double(x)) == x
  {
    if x != "" {
      UndoubleDouble(x[1..]);
      var d := Double(x);
      if x[0] == '"' {
        assert d[2..] == Double(x[1..]);
      } else {
        assert d[1..] == Double(x[1..]);
      }
      assert x == [x[0]] + x[1..];
    }
  }

  /** Reading a quoted field back gives the value, whatever it holds: commas, quotes, spaces. */
  lemma CleanFieldEncode(x: string)
    ensures CleanField(Encode(x)) == x
  {
    var e := Encode(x);
    TrimUnpadded(e);
    assert e[1..|e| - 1] == Double(x);
    UndoubleDouble(x);
  }

  /** A field whose trimmed text is wrapped in quotes loses the wrapping, and then every pair
      of quotes inside becomes one. */
  lemma CleanFieldQuoted(f: string, v: string)
    requires Trim(f) == "\"" + v + "\""
    ensures CleanField(f) == Undouble(v)
  {
    var val := Trim(f);
    assert val[1..|val| - 1] == v;
  }

  /** Doubling keeps a last character that is not a quote. */
  lemma {:induction false} DoubleLast(x: string)
    requires |x| > 0 && x[|x| - 1] != '"'
    ensures |Double(x)| > 0 && Double(x)[|Double(x)| - 1] == x[|x| - 1]
  {
    var h := if x[0] == '"' then "\"\"" else [x[0]];
    assert Double(x) == h + Double(x[1..]);
    if |x| > 1 {
      assert x[1..][|x[1..]| - 1] == x[|x| - 1];
      DoubleLast(x[1..]);
    }
  }

  /** A field that is not wrapped in quotes is un-doubled as well: a value that neither starts
      nor ends with a quote or white space, written with its quotes doubled, reads back as the
      value (`a""b` gives `a"b`). */
  lemma CleanFieldBare(x: string)
    requires x != "" ==> x[0] != '"' && x[|x| - 1] != '"' && !IsSpace(x[0]) && !IsSpace(x[|x| - 1])
    ensures CleanField(Double(x)) == x
  {
    UndoubleDouble(x);
    if x != "" {
      var d := Double(x);
      assert d[0] == x[0];
      DoubleLast(x);
      TrimUnpadded(d);
    }
  }

  /** A comma inside an escaped value has an odd number of `"` after it in the value: the
      doubled quotes come in pairs, and the closing quote is left over. */
  lemma {:induction false} DoubleCommaSuffix(x: string, p: nat)
    requires 0 < p <= |Double(x)| && Double(x)[p - 1] == ','
    ensures Quotes(Double(x)[p..]) % 2 == 0
  {
    var h := if x[0] == '"' then "\"\"" else [x[0]];
    var d := Double(x);
    assert d == h + Double(x[1..]);
    if p - 1 < |h| {
      assert h == [','];
      assert d[p..] == Double(x[1..]);
    } else {
      assert d[p..] == Double(x[1..])[p - |h|..];
      DoubleCommaSuffix(x[1..], p - |h|);
    }
  }

  lemma EncodeCommaSuffix(x: string, p: nat)
    requires p < |Encode(x)| && Encode(x)[p] == ','
    ensures Quotes(Encode(x)[p + 1..]) % 2 == 1
  {
    var e := Encode(x);
    var d := Double(x);
    assert e == ['"'] + d + ['"'];
    assert 0 < p < |e| - 1;
    assert d[p - 1] == ',' by {
      assert d[p - 1] == e[p];
    }
    DoubleCommaSuffix(x, p);
    assert e[p + 1..] == d[p..] + ['"'];
    QuotesConcat(d[p..], ['"']);
    assert Quotes(['"']) == 1;
    OddPlusEven(Quotes(['"']), Quotes(d[p..]));
  }

  /** Every value of a row, each written as a quoted field. */
  function Encoded(xs: seq<string>): (es: seq<string>)
    ensures |es| == |xs| && forall i :: 0 <= i < |xs| ==> es[i] == Encode(xs[i])
  {
    seq(|xs|, i requires 0 <= i < |xs| => Encode(xs[i]))
  }

  lemma {:induction false} JoinEncodedEven(xs: seq<string>)
    ensures Quotes(JoinWith(Encoded(xs), ',')) % 2 == 0
    decreases |xs|
  {
    var es := Encoded(xs);
    if |xs| > 1 {
      JoinEncodedEven(xs[1..]);
      assert es[1..] == Encoded(xs[1..]);
      assert JoinWith(es, ',') == es[0] + ([','] + JoinWith(Encoded(xs[1..]), ','));
      QuotesConcat(es[0], [','] + JoinWith(Encoded(xs[1..]), ','));
      QuotesConcat([','], JoinWith(Encoded(xs[1..]), ','));
    }
  }

  /** Proof helper: parity of a sum, kept apart so the quote-counting proofs stay small. */
  lemma OddPlusEven(a: nat, b: nat)
    requires a % 2 == 1 && b % 2 == 0
    ensures (a + b) % 2 == 1
  {
  }

  /** No comma inside a quoted field `e` is a split point of `e`, a comma and `r`, when `r`
      holds an even number of quotes. */
  lemma FieldCommaNotSplit(x: string, r: string, p: nat)
    requires Quotes(r) % 2 == 0
    requires p < |Encode(x)|
    ensures !IsSplitPoint(Encode(x) + [','] + r, p)
  {
    var e := Encode(x);
    var s := e + [','] + r;
    if s[p] == ',' {
      assert e[p] == ',';
      var u := e[p + 1..];
      EncodeCommaSuffix(x, p);
      assert Quotes(u) % 2 == 1;
      assert s[p + 1..] == u + ([','] + r);
      QuotesConcat(u, [','] + r);
      QuotesConcat([','], r);
      assert Quotes([','] + r) == Quotes(r) by {
        assert ([','] + r)[1..] == r;
      }
      assert Quotes(s[p + 1..]) == Quotes(u) + Quotes(r);
      OddPlusEven(Quotes(u), Quotes(r));
      EvenFromQuotes(s, p + 1);
    }
  }

  /** The comma between `e` and `r` is the first split point when `e` is a quoted field and
      `r` holds an even number of quotes. */
  lemma FirstSplitAfterField(x: string, r: string)
    requires Quotes(r) % 2 == 0
    ensures FirstSplitFrom(Encode(x) + [','] + r, 0) == |Encode(x)|
  {
    var e := Encode(x);
    var s := e + [','] + r;
    assert IsSplitPoint(s, |e|) by {
      assert s[|e| + 1..] == r;
      EvenFromQuotes(s, |e| + 1);
    }
    forall p | 0 <= p < |e| ensures !IsSplitPoint(s, p) {
      FieldCommaNotSplit(x, r, p);
    }
  }

  lemma NoSplitInField(x: string)
    ensures FirstSplitFrom(Encode(x), 0) == -1
  {
    var e := Encode(x);
    forall p | 0 <= p < |e| ensures !IsSplitPoint(e, p) {
      if e[p] == ',' {
        EncodeCommaSuffix(x, p);
        EvenFromQuotes(e, p + 1);
      }
    }
  }

  lemma {:induction false} SplitEncoded(xs: seq<string>)
    requires |xs| >= 1
    ensures SplitFields(JoinWith(Encoded(xs), ',')) == Encoded(xs)
    decreases |xs|
  {
    var es := Encoded(xs);
    if |xs| == 1 {
      NoSplitInField(xs[0]);
    } else {
      var r := JoinWith(Encoded(xs[1..]), ',');
      assert es[1..] == Encoded(xs[1..]);
      var s := JoinWith(es, ',');
      assert s == es[0] + [','] + r;
      JoinEncodedEven(xs[1..]);
      FirstSplitAfterField(xs[0], r);
      assert s[..|es[0]|] == es[0] && s[|es[0]| + 1..] == r;
      SplitEncoded(xs[1..]);
    }
  }

  /** A row written with every value quoted and comma-separated reads back as the same values. */
  lemma ParseCsvLineRoundTrip(xs: seq<string>)
    requires |xs| >= 1
    ensures ParseCsvLine(JoinWith(Encoded(xs), ',')) == xs
  {
    SplitEncoded(xs);
    forall k | 0 <= k < |xs| ensures CleanField(Encode(xs[k])) == xs[k] {
      CleanFieldEncode(xs[k]);
    }
  }

  /** Without quotes, every comma is a split point. */
  lemma {:induction false} SplitFieldsQuoteFree(s: string)
    requires '"' !in s
    ensures SplitFields(s) == SplitOn(s, ',')
    decreases |s|
  {
    var k := IndexOf(s, ',');
    forall p | 0 <= p < |s| && s[p] == ',' ensures IsSplitPoint(s, p) {
      assert '"' !in s[p + 1..] by { assert forall c :: c in s[p + 1..] ==> c in s; }
      QuotesAbsent(s[p + 1..]);
      EvenFromQuotes(s, p + 1);
    }
    if k < 0 {
      assert FirstSplitFrom(s, 0) == -1;
    } else {
      forall p | 0 <= p < k ensures s[p] != ',' {
        assert s[p] == s[..k][p];
      }
      assert FirstSplitFrom(s, 0) == k;
      assert '"' !in s[k + 1..] by { assert forall c :: c in s[k + 1..] ==> c in s; }
      SplitFieldsQuoteFree(s[k + 1..]);
    }
  }

  /** Where the comma after field `k` stands once the fields are joined with commas: the
      lengths of fields `0 .. k` and of the `k` commas between them. */
  function CutAt(fields: seq<string>, k: nat): nat
    requires k < |fields|
  {
    if k == 0 then |fields[0]| else CutAt(fields, k - 1) + 1 + |fields[k]|
  }

  /** The cuts of a line whose first field is `a`: the first right after `a`, the others
      shifted by `a` and its comma. */
  lemma {:induction false} CutAtCons(a: string, rest: seq<string>, j: nat)
    requires j < |rest|
    ensures CutAt([a] + rest, 0) == |a|
    ensures CutAt([a] + rest, j + 1) == |a| + 1 + CutAt(rest, j)
  {
    if j > 0 {
      CutAtCons(a, rest, j - 1);
    }
    assert ([a] + rest)[j + 1] == rest[j];
  }

  /** A split point of a suffix is a split point of the line, shifted. */
  lemma SplitPointShift(s: string, d: nat, p: nat)
    requires d <= |s|
    ensures IsSplitPoint(s, d + p) <==> IsSplitPoint(s[d..], p)
  {
    if d + p < |s| {
      assert s[d..][p] == s[d + p];
      EvenFromShift(s, d, p + 1);
    }
  }

  /** Proof helper: the quote parity of a suffix does not depend on where it is cut from. */
  lemma {:induction false} EvenFromShift(s: string, d: nat, i: nat)
    requires d <= |s|
    ensures EvenFrom(s, d + i) <==> EvenFrom(s[d..], i)
    decreases |s| - d - i
  {
    if d + i < |s| {
      EvenFromShift(s, d, i + 1);
      assert s[d..][i] == s[d + i];
    }
  }

  /** The cuts of `split`'s result: the first at the first split point, the others those of
      the rest of the line, shifted. */
  lemma SplitFieldsCutAt(s: string, k: nat)
    requires k < |SplitFields(s)| - 1
    ensures 0 <= FirstSplitFrom(s, 0) < |s|
    ensures k == 0 ==> CutAt(SplitFields(s), 0) == FirstSplitFrom(s, 0)
    ensures k > 0 ==> var k0 := FirstSplitFrom(s, 0);
              && k - 1 < |SplitFields(s[k0 + 1..])| - 1
              && CutAt(SplitFields(s), k) == k0 + 1 + CutAt(SplitFields(s[k0 + 1..]), k - 1)
  {
    var k0 := FirstSplitFrom(s, 0);
    var rest := SplitFields(s[k0 + 1..]);
    assert SplitFields(s) == [s[..k0]] + rest;
    if k == 0 {
      CutAtCons(s[..k0], rest, 0);
    } else {
      CutAtCons(s[..k0], rest, k - 1);
    }
  }

  /** The comma after field `k` (not the last) is a split point. */
  lemma {:induction false} CutIsSplitPoint(s: string, k: nat)
    requires k < |SplitFields(s)| - 1
    ensures IsSplitPoint(s, CutAt(SplitFields(s), k))
    decreases |s|
  {
    SplitFieldsCutAt(s, k);
    var k0 := FirstSplitFrom(s, 0);
    if k > 0 {
      var s' := s[k0 + 1..];
      CutIsSplitPoint(s', k - 1);
      ShiftedSplitPoint(s, k0 + 1, CutAt(SplitFields(s'), k - 1), CutAt(SplitFields(s), k));
    }
  }

  /** Proof helper: `SplitPointShift` read from the line to its suffix. */
  lemma UnshiftedSplitPoint(s: string, d: nat, p: int, q: int)
    requires d <= p && d <= |s| && q == p - d && IsSplitPoint(s, p)
    ensures IsSplitPoint(s[d..], q)
  {
    SplitPointShift(s, d, q);
  }

  /** Proof helper: `SplitPointShift` read from the suffix to the line. */
  lemma ShiftedSplitPoint(s: string, d: nat, p: nat, q: int)
    requires d <= |s| && q == d + p && IsSplitPoint(s[d..], p)
    ensures IsSplitPoint(s, q)
  {
    SplitPointShift(s, d, p);
  }

  /** Every split point is the comma after some field. */
  lemma {:induction false} SplitPointIsCut(s: string, p: int)
    requires IsSplitPoint(s, p)
    ensures exists k :: 0 <= k < |SplitFields(s)| - 1 && p == CutAt(SplitFields(s), k)
    decreases |s|
  {
    FirstSplitBefore(s, p);
    var k0 := FirstSplitFrom(s, 0);
    var rest := SplitFields(s[k0 + 1..]);
    assert SplitFields(s) == [s[..k0]] + rest;
    if p == k0 {
      CutAtCons(s[..k0], rest, 0);
      assert 0 < |SplitFields(s)| - 1 && p == CutAt(SplitFields(s), 0);
    } else {
      UnshiftedSplitPoint(s, k0 + 1, p, p - k0 - 1);
      SplitPointIsCut(s[k0 + 1..], p - k0 - 1);
      var j :| 0 <= j < |rest| - 1 && p - k0 - 1 == CutAt(rest, j);
      CutAtCons(s[..k0], rest, j);
      assert j + 1 < |SplitFields(s)| - 1 && p == CutAt(SplitFields(s), j + 1);
    }
  }

  /** A line with a split point has a first one, at or before it. */
  lemma FirstSplitBefore(s: string, p: int)
    requires IsSplitPoint(s, p)
    ensures 0 <= FirstSplitFrom(s, 0) <= p
  {
  }

  /** `p` is the position of the comma after one of `fields` but the last, once they are
      joined with commas. */
  predicate IsCut(fields: seq<string>, p: int) {
    exists k :: 0 <= k < |fields| - 1 && p == CutAt(fields, k)
  }

  /** `split` cuts the line exactly at its split points: the comma after every field but the
      last is one, and every split point is such a comma. With the join of the fields being
      the line, this fixes every field, whatever the quoting, balanced or not. */
  lemma SplitFieldsCuts(s: string)
    ensures forall p :: IsSplitPoint(s, p) <==> IsCut(SplitFields(s), p)
  {
    forall p ensures IsSplitPoint(s, p) <==> IsCut(SplitFields(s), p) {
      if IsSplitPoint(s, p) {
        SplitPointIsCut(s, p);
      }
      if IsCut(SplitFields(s), p) {
        var k :| 0 <= k < |SplitFields(s)| - 1 && p == CutAt(SplitFields(s), k);
        CutIsSplitPoint(s, k);
      }
    }
  }

  /** A line without quotes splits at every comma, and each field is only trimmed. */
  lemma ParseCsvLineQuoteFree(s: string)
    requires '"' !in s
    ensures |ParseCsvLine(s)| == multiset(s)[','] + 1
    ensures forall k :: 0 <= k < |ParseCsvLine(s)| ==> ParseCsvLine(s)[k] == Trim(SplitOn(s, ',')[k])
  {
    SplitFieldsQuoteFree(s);
    var parts := SplitOn(s, ',');
    forall k | 0 <= k < |parts| ensures '"' !in parts[k] {
      assert JoinWith(parts, ',') == s;
      JoinedPartIn(parts, ',', k);
    }
  }

  /** Every character of a piece is a character of the joined string. */
  lemma {:induction false} JoinedPartIn(parts: seq<string>, sep: char, k: nat)
    requires k < |parts|
    ensures forall c :: c in parts[k] ==> c in JoinWith(parts, sep)
    decreases k
  {
    if |parts| > 1 {
      assert JoinWith(parts, sep) == parts[0] + [sep] + JoinWith(parts[1..], sep);
      if k > 0 {
        JoinedPartIn(parts[1..], sep, k - 1);
      }
    }
  }

  // ===========================================================================================
  // getColIndex: exact, then prefix, then substring match of the lower-cased, trimmed headers
  // ===========================================================================================

  /** `h.toLowerCase().trim()`. */
  function NormalizeHeader(h: string): string {
    Trim(ToLower(h))
  }

  /** Whether a normalized header matches keyword `k` at `tier`: 1 exact, 2 prefix, 3 substring
      for keywords longer than three characters; the keyword is lower-cased, not trimmed. */
  predicate TierMatch(h: string, k: string, tier: nat) {
    if tier == 1 then h == ToLower(k)
    else if tier == 2 then ToLower(k) <= h
    else |k| > 3 && Contains(h, ToLower(k))
  }

  /** `keywords.some(k => ...)` for one tier. */
  predicate AnyKeyword(h: string, keywords: seq<string>, tier: nat) {
    keywords != [] && (TierMatch(h, keywords[0], tier) || AnyKeyword(h, keywords[1..], tier))
  }

  lemma {:induction false} AnyKeywordMeaning(h: string, keywords: seq<string>, tier: nat)
    ensures AnyKeyword(h, keywords, tier) <==> exists j :: 0 <= j < |keywords| && TierMatch(h, keywords[j], tier)
  {
    if keywords != [] {
      AnyKeywordMeaning(h, keywords[1..], tier);
      assert forall j :: 1 <= j < |keywords| ==> keywords[j] == keywords[1..][j - 1];
    }
  }

  /** `headers.map(h => h.toLowerCase().trim())`. */
  function NormalizedHeaders(headers: seq<string>): (norm: seq<string>)
    ensures |norm| == |headers| && forall i :: 0 <= i < |headers| ==> norm[i] == NormalizeHeader(headers[i])
  {
    seq(|headers|, i requires 0 <= i < |headers| => NormalizeHeader(headers[i]))
  }

  /** Normalized header `i` matches some keyword at `tier`. */
  predicate Hit(norm: seq<string>, keywords: seq<string>, i: int, tier: nat) {
    0 <= i < |norm| && AnyKeyword(norm[i], keywords, tier)
  }

  /** `normalizedHeaders.findIndex(...)` for one tier, from index `i` on. */
  function FindAtTier(norm: seq<string>, keywords: seq<string>, tier: nat, i: nat): (r: int)
    ensures r == -1 || (i <= r < |norm| && Hit(norm, keywords, r, tier))
    ensures forall j :: i <= j < |norm| && (r == -1 || j < r) ==> !Hit(norm, keywords, j, tier)
    decreases |norm| - i
  {
    if i >= |norm| then -1
    else if Hit(norm, keywords, i, tier) then i
    else FindAtTier(norm, keywords, tier, i + 1)
  }

  predicate HasTier(norm: seq<string>, keywords: seq<string>, tier: nat) {
    exists i :: 0 <= i < |norm| && Hit(norm, keywords, i, tier)
  }

  /** `r` is the leftmost header that matches at `tier`. */
  predicate FirstAtTier(norm: seq<string>, keywords: seq<string>, tier: nat, r: int) {
    Hit(norm, keywords, r, tier) && forall i :: 0 <= i < r ==> !Hit(norm, keywords, i, tier)
  }

  /** `getColIndex` (utils/csvHelper.ts:54-71). */
  function ColIndex(headers: seq<string>, keywords: seq<string>): (index: int)
    ensures -1 <= index < |headers|
  {
    var norm := NormalizedHeaders(headers);
    var i1 := FindAtTier(norm, keywords, 1, 0);
    if i1 != -1 then i1
    else
      var i2 := FindAtTier(norm, keywords, 2, 0);
      if i2 != -1 then i2
      else FindAtTier(norm, keywords, 3, 0)
  }

  /** The column of a field is the leftmost header of the best tier that has a match: any exact
      match beats any prefix match, which beats any substring match; -1 when no tier has one. */
  lemma ColIndexTiers(headers: seq<string>, keywords: seq<string>)
    ensures var norm, index := NormalizedHeaders(headers), ColIndex(headers, keywords);
      && (HasTier(norm, keywords, 1) ==> FirstAtTier(norm, keywords, 1, index))
      && (!HasTier(norm, keywords, 1) && HasTier(norm, keywords, 2) ==> FirstAtTier(norm, keywords, 2, index))
      && (!HasTier(norm, keywords, 1) && !HasTier(norm, keywords, 2) && HasTier(norm, keywords, 3) ==>
            FirstAtTier(norm, keywords, 3, index))
      && (index == -1 <==> !HasTier(norm, keywords, 1) && !HasTier(norm, keywords, 2) && !HasTier(norm, keywords, 3))
  {
  }

  /** Two keyword lists with the same elements match the same headers. */
  lemma AnyKeywordSameSet(h: string, ks: seq<string>, ks': seq<string>, tier: nat)
    requires forall k :: k in ks <==> k in ks'
    ensures AnyKeyword(h, ks, tier) == AnyKeyword(h, ks', tier)
  {
    AnyKeywordMeaning(h, ks, tier);
    AnyKeywordMeaning(h, ks', tier);
    if AnyKeyword(h, ks, tier) {
      var j :| 0 <= j < |ks| && TierMatch(h, ks[j], tier);
      assert ks[j] in ks';
      var j' :| 0 <= j' < |ks'| && ks'[j'] == ks[j];
    }
    if AnyKeyword(h, ks', tier) {
      var j :| 0 <= j < |ks'| && TierMatch(h, ks'[j], tier);
      assert ks'[j] in ks;
      var j' :| 0 <= j' < |ks| && ks[j'] == ks'[j];
    }
  }

  /** Two keyword lists that hit the same headers at a tier find the same header there. */
  lemma FindAtTierSameSet(norm: seq<string>, ks: seq<string>, ks': seq<string>, tier: nat)
    requires forall k :: k in ks <==> k in ks'
    ensures FindAtTier(norm, ks, tier, 0) == FindAtTier(norm, ks', tier, 0)
  {
    forall i | 0 <= i < |norm| ensures Hit(norm, ks, i, tier) == Hit(norm, ks', i, tier) {
      AnyKeywordSameSet(norm[i], ks, ks', tier);
    }
  }

  /** Only the set of keywords matters, not their order: within a tier the leftmost header wins. */
  lemma ColIndexKeywordOrder(headers: seq<string>, ks: seq<string>, ks': seq<string>)
    requires forall k :: k in ks <==> k in ks'
    ensures ColIndex(headers, ks) == ColIndex(headers, ks')
  {
    var norm := NormalizedHeaders(headers);
    FindAtTierSameSet(norm, ks, ks', 1);
    FindAtTierSameSet(norm, ks, ks', 2);
    FindAtTierSameSet(norm, ks, ks', 3);
  }

  // ===========================================================================================
  // idxMap: the keyword lists of every logical field (utils/csvHelper.ts:74-89)
  // ===========================================================================================

  const DivisionKeywords: seq<string> := ["Division", "Div"]
  const StoreKeywords: seq<string> := ["Magasin", "Store", "Depot"]
  const CodeKeywords: seq<string> := ["Code Client", "Code", "Client ID"]
  const NameKeywords: seq<string> := ["Nom Client", "Nom", "Client"]
  const CityKeywords: seq<string> := ["Ville", "City", "Commune"]
  const PhoneKeywords: seq<string> := ["Téléphone", "Tel", "Phone", "Mobile"]
  const DaysKeywords: seq<string> := ["Jours de Livraison", "Jours Liv", "Delivery"]
  const NumDaysKeywords: seq<string> := ["Nbr Jours", "Nb Jours", "Freq"]
  const LatKeywords: seq<string> := ["Latitude", "Lat"]
  const LngKeywords: seq<string> := ["Longitude", "Long", "Lng"]
  const AvgMonthKeywords: seq<string> := ["Moy Achat par Mois", "Moy Achat Mois", "Moyenne Achat", "CA Mensuel"]
  const AvgDelKeywords: seq<string> := ["Moy Achat par Livraison", "Moy Achat Liv", "Moyenne Liv", "Panier Moyen"]
  const LogoKeywords: seq<string> := ["Logo", "Image", "Photo", "Lien Logo", "Url Logo", "Picture"]
  const FreeKeywords: seq<string> := ["Gratuité", "Gratuite", "Free"]

  /** The column index of every logical field, -1 when unresolved. */
  datatype ColumnMap = ColumnMap(
    division: int, store: int, code: int, name: int, city: int, phone: int, days: int,
    numDays: int, lat: int, lng: int, avgMonth: int, avgDel: int, logo: int, free: int)

  /** The keyword lists in the order of the fields of `ColumnMap`. */
  const FieldKeywords: seq<seq<string>> := [
    DivisionKeywords, StoreKeywords, CodeKeywords, NameKeywords, CityKeywords, PhoneKeywords,
    DaysKeywords, NumDaysKeywords, LatKeywords, LngKeywords, AvgMonthKeywords, AvgDelKeywords,
    LogoKeywords, FreeKeywords]

  /** The column of each keyword list, in order. */
  function Resolve(headers: seq<string>, lists: seq<seq<string>>): (ix: seq<int>)
    ensures |ix| == |lists|
  {
    if lists == [] then [] else [ColIndex(headers, lists[0])] + Resolve(headers, lists[1..])
  }

  lemma {:induction false} ResolveAt(headers: seq<string>, lists: seq<seq<string>>, k: nat)
    requires k < |lists|
    ensures Resolve(headers, lists)[k] == ColIndex(headers, lists[k])
  {
    if k > 0 {
      ResolveAt(headers, lists[1..], k - 1);
    }
  }

  /** `idxMap`: every field resolved against the same header row. */
  function Columns(headers: seq<string>): ColumnMap {
    var ix := Resolve(headers, FieldKeywords);
    ColumnMap(ix[0], ix[1], ix[2], ix[3], ix[4], ix[5], ix[6], ix[7], ix[8], ix[9], ix[10], ix[11],
              ix[12], ix[13])
  }

  /** Each field's column is `getColIndex` of the header row with that field's keywords. */
  lemma ColumnsResolve(headers: seq<string>)
    ensures var cols := Columns(headers);
      && cols.division == ColIndex(headers, DivisionKeywords) && cols.store == ColIndex(headers, StoreKeywords)
      && cols.code == ColIndex(headers, CodeKeywords) && cols.name == ColIndex(headers, NameKeywords)
      && cols.city == ColIndex(headers, CityKeywords) && cols.phone == ColIndex(headers, PhoneKeywords)
      && cols.days == ColIndex(headers, DaysKeywords) && cols.numDays == ColIndex(headers, NumDaysKeywords)
      && cols.lat == ColIndex(headers, LatKeywords) && cols.lng == ColIndex(headers, LngKeywords)
      && cols.avgMonth == ColIndex(headers, AvgMonthKeywords) && cols.avgDel == ColIndex(headers, AvgDelKeywords)
      && cols.logo == ColIndex(headers, LogoKeywords) && cols.free == ColIndex(headers, FreeKeywords)
  {
    forall k | 0 <= k < |FieldKeywords| ensures Resolve(headers, FieldKeywords)[k] == ColIndex(headers, FieldKeywords[k]) {
      ResolveAt(headers, FieldKeywords, k);
    }
  }

  // ===========================================================================================
  // parseCSV: the record builder
  // ===========================================================================================

  /** `getValue` (utils/csvHelper.ts:98): the cell at `index`, or `''` when the column is
      unresolved or the row is too short. */
  function GetValue(values: seq<string>, index: int): (v: string)
    ensures 0 <= index < |values| ==> v == values[index]
    ensures !(0 <= index < |values|) ==> v == ""
  {
    if index != -1 && 0 <= index < |values| && values[index] != "" then values[index] else ""
  }

  /** The text a coordinate is parsed from: the cell with its FIRST comma made a dot. */
  function CoordText(values: seq<string>, index: int): (t: string)
    ensures |t| == |GetValue(values, index)|
    ensures forall k :: 0 <= k < |t| && t[k] != GetValue(values, index)[k] ==> t[k] == '.'
    ensures ',' in t ==> '.' in t
    ensures t == ReplaceFirst(GetValue(values, index), ',', '.')
  {
    var cell := GetValue(values, index);
    var t := ReplaceFirst(cell, ',', '.');
    if ',' in t then
      var j :| 0 <= j < |t| && t[j] == ',';
      assert cell[j] == ',';
      assert t[IndexOf(cell, ',')] == '.';
      t
    else
      t
  }

  const BenYedderLogo: string := "https://drive.google.com/thumbnail?id=1WLnyAQ0Y2Hv88COFP_0nOpnPnj5s0TfY&sz=w500"
  const BondinLogo: string := "https://drive.google.com/thumbnail?id=1vXFeon3UtAJgky8hX7Z9gRGKIBbngxnR&sz=w500"

  /** The logo of a row (utils/csvHelper.ts:109-119): a fixed thumbnail for divisions `O152`
      and `Y150`, whatever the logo cell holds; otherwise the cleaned-up logo cell. */
  function LogoFor(division: string, cell: string): (logo: string)
    ensures division == "O152" ==> logo == BenYedderLogo
    ensures division == "Y150" ==> logo == BondinLogo
    ensures division != "O152" && division != "Y150" ==> logo == SanitizeLogoUrl(cell)
  {
    if division == "O152" then BenYedderLogo
    else if division == "Y150" then BondinLogo
    else SanitizeLogoUrl(cell)
  }

  /** The positional id of physical line `i`. */
  function RowId(i: nat): (id: string)
    ensures |id| > 4 && id[..4] == "row-"
  {
    "row-" + Decimal(i)
  }

  /** Different lines have different positional ids. */
  lemma RowIdInjective(i: nat, j: nat)
    requires RowId(i) == RowId(j)
    ensures i == j
  {
    assert Decimal(i) == RowId(i)[4..];
    assert Decimal(j) == RowId(j)[4..];
    DecimalInjective(i, j);
  }

  /** `parseInt(cell) || 0`: `NaN` (and 0) become 0. */
  function DayCount(cell: string): (n: int)
    ensures ParseInt(cell).None? ==> n == 0
    ensures ParseInt(cell).Some? ==> n == ParseInt(cell).value
  {
    match ParseInt(cell)
    case Some(v) => v
    case None => 0
  }

  /** A day count written in decimal reads back as itself. */
  lemma DayCountDecimal(n: nat)
    ensures DayCount(Decimal(n)) == n
  {
    ParseIntDecimal(n);
  }

  /** A blank line, one that `!line || line.trim() === ''` skips: nothing but white space. */
  predicate IsBlank(line: string) {
    forall k :: 0 <= k < |line| ==> IsSpace(line[k])
  }

  /** The record that data line `i` yields, or `None` when its coordinates do not both parse to
      finite numbers. `parseFloat` stands for `parseFloat` followed by `Number.isFinite`: it
      returns `None` for `NaN` and the infinities. */
  function RowRecord(line: string, cols: ColumnMap, i: nat, parseFloat: string -> Option<real>): Option<Client>
  {
    var values := ParseCsvLine(line);
    var lat := parseFloat(CoordText(values, cols.lat));
    var lng := parseFloat(CoordText(values, cols.lng));
    var division := GetValue(values, cols.division);
    if lat.Some? && lng.Some? then
      var code := GetValue(values, cols.code);
      Some(Client(
        id := if code != "" then code else RowId(i),
        division := division,
        store := GetValue(values, cols.store),
        code := code,
        name := GetValue(values, cols.name),
        city := GetValue(values, cols.city),
        phone := GetValue(values, cols.phone),
        deliveryDays := GetValue(values, cols.days),
        numDeliveryDays := DayCount(GetValue(values, cols.numDays)),
        lat := lat.value,
        lng := lng.value,
        avgMonthlyPurchase := GetValue(values, cols.avgMonth),
        avgDeliveryPurchase := GetValue(values, cols.avgDel),
        logo := LogoFor(division, GetValue(values, cols.logo)),
        freeGoodsJan26 := GetValue(values, cols.free)))
    else
      None
  }

  /** What a data line's record holds: it exists exactly when both coordinates parse; the id
      is the code cell, or the positional id when that cell is empty; the logo follows the
      division override. */
  lemma RowRecordFields(line: string, cols: ColumnMap, i: nat, parseFloat: string -> Option<real>)
    ensures var values, r := ParseCsvLine(line), RowRecord(line, cols, i, parseFloat);
      && (r.Some? <==> parseFloat(CoordText(values, cols.lat)).Some? && parseFloat(CoordText(values, cols.lng)).Some?)
      && (r.Some? ==>
            && r.value.lat == parseFloat(CoordText(values, cols.lat)).value
            && r.value.lng == parseFloat(CoordText(values, cols.lng)).value
            && r.value.code == GetValue(values, cols.code)
            && r.value.id != ""
            && (r.value.code != "" ==> r.value.id == r.value.code)
            && (r.value.code == "" ==> r.value.id == RowId(i))
            && r.value.division == GetValue(values, cols.division)
            && r.value.logo == LogoFor(r.value.division, GetValue(values, cols.logo))
            && r.value.numDeliveryDays == DayCount(GetValue(values, cols.numDays)))
  {
  }

  /** Drops one trailing carriage return. */
  function DropCr(s: string): (r: string)
    ensures r <= s && |s| - 1 <= |r|
  {
    if |s| > 0 && s[|s| - 1] == '\r' then s[..|s| - 1] else s
  }

  /** `csvText.split(/\r?\n/)`: the pieces between line feeds; a carriage return right before a
      line feed belongs to the separator, so the last piece keeps its own. */
  function SplitLines(text: string): (lines: seq<string>)
    ensures |lines| == multiset(text)['\n'] + 1
    ensures forall k :: 0 <= k < |lines| ==> '\n' !in lines[k]
  {
    var parts := SplitOn(text, '\n');
    var lines := seq(|parts|, k requires 0 <= k < |parts| => if k < |parts| - 1 then DropCr(parts[k]) else parts[k]);
    assert forall k :: 0 <= k < |parts| ==> lines[k] <= parts[k];
    lines
  }

  /** Lines joined with line feeds split back into the same lines, when none holds a line feed
      and none but the last ends in a carriage return. */
  lemma SplitLinesJoin(lines: seq<string>)
    requires |lines| >= 1 && forall k :: 0 <= k < |lines| ==> '\n' !in lines[k]
    requires forall k :: 0 <= k < |lines| - 1 ==> lines[k] == "" || lines[k][|lines[k]| - 1] != '\r'
    ensures SplitLines(JoinWith(lines, '\n')) == lines
  {
    var text := JoinWith(lines, '\n');
    SplitOnJoin(lines, '\n');
    var split := SplitLines(text);
    assert |split| == |lines|;
    forall k | 0 <= k < |lines| ensures split[k] == lines[k] {
      if k < |lines| - 1 {
        assert split[k] == DropCr(lines[k]);
      }
    }
  }

  /** Lines as a file with CRLF line ends holds them: a carriage return after every line but
      the last, before the line feed that joins them. */
  function CrTerminated(lines: seq<string>): (crs: seq<string>)
    ensures |crs| == |lines|
    ensures forall k :: 0 <= k < |lines| - 1 ==> crs[k] == lines[k] + "\r"
    ensures |lines| > 0 ==> crs[|lines| - 1] == lines[|lines| - 1]
  {
    seq(|lines|, k requires 0 <= k < |lines| => if k < |lines| - 1 then lines[k] + "\r" else lines[k])
  }

  /** CRLF line ends split like bare line feeds: every line comes back as it was, even one
      that ends in a carriage return of its own. */
  lemma SplitLinesCrlf(lines: seq<string>)
    requires |lines| >= 1 && forall k :: 0 <= k < |lines| ==> '\n' !in lines[k]
    ensures SplitLines(JoinWith(CrTerminated(lines), '\n')) == lines
  {
    var crs := CrTerminated(lines);
    forall k | 0 <= k < |crs| ensures '\n' !in crs[k] {
      if k < |lines| - 1 {
        assert forall c :: c in crs[k] ==> c in lines[k] || c == '\r';
      }
    }
    SplitOnJoin(crs, '\n');
    var split := SplitLines(JoinWith(crs, '\n'));
    forall k | 0 <= k < |lines| ensures split[k] == lines[k] {
      if k < |lines| - 1 {
        assert split[k] == DropCr(lines[k] + "\r");
        assert (lines[k] + "\r")[..|lines[k]|] == lines[k];
      }
    }
  }

  /** What the loop body makes of line `i`: its record, or `None` when it is dropped. */
  type RowBuilder = (string, nat) -> Option<Client>

  /** The loop body of `parseCSV` for a given column map and number parser. */
  function BuildRow(cols: ColumnMap, parseFloat: string -> Option<real>): RowBuilder {
    (line: string, i: nat) => RowRecord(line, cols, i, parseFloat)
  }

  /** Line `i` is a data line whose record is emitted. */
  predicate Accepted(lines: seq<string>, row: RowBuilder, i: int) {
    1 <= i < |lines| && !IsBlank(lines[i]) && row(lines[i], i).Some?
  }

  /** The records of lines `1 .. n - 1`, in line order. */
  function EmitRange(lines: seq<string>, row: RowBuilder, n: nat): seq<Client>
    requires n <= |lines|
  {
    if n <= 1 then []
    else
      EmitRange(lines, row, n - 1)
      + (if Accepted(lines, row, n - 1) then [row(lines[n - 1], n - 1).value] else [])
  }

  lemma EmitRangeStep(lines: seq<string>, row: RowBuilder, i: nat)
    requires 1 <= i < |lines|
    ensures !IsBlank(lines[i]) && row(lines[i], i).Some? ==>
              EmitRange(lines, row, i + 1) == EmitRange(lines, row, i) + [row(lines[i], i).value]
    ensures IsBlank(lines[i]) || row(lines[i], i).None? ==> EmitRange(lines, row, i + 1) == EmitRange(lines, row, i)
  {
  }

  /** The indices of the accepted lines below `n`, in increasing order. */
  function AcceptedLines(lines: seq<string>, row: RowBuilder, n: nat): (idx: seq<nat>)
    requires n <= |lines|
    ensures forall k :: 0 <= k < |idx| ==> 1 <= idx[k] < n && Accepted(lines, row, idx[k])
    ensures forall k, l :: 0 <= k < l < |idx| ==> idx[k] < idx[l]
    ensures forall i :: 0 <= i < n && Accepted(lines, row, i) ==> i in idx
  {
    if n <= 1 then []
    else
      AcceptedLines(lines, row, n - 1) + (if Accepted(lines, row, n - 1) then [n - 1] else [])
  }

  /** The `k`-th emitted record is the record of the `k`-th accepted line: records come out in
      line order, one per accepted line, and from nowhere else. */
  lemma {:induction false} EmitRangeLines(lines: seq<string>, row: RowBuilder, n: nat)
    requires n <= |lines|
    ensures var out, idx := EmitRange(lines, row, n), AcceptedLines(lines, row, n);
      && |out| == |idx|
      && forall k :: 0 <= k < |out| ==> Some(out[k]) == row(lines[idx[k]], idx[k])
  {
    if n > 1 {
      EmitRangeLines(lines, row, n - 1);
    }
  }

  /** The column map read off the header line. */
  function HeaderColumns(lines: seq<string>): ColumnMap
    requires |lines| >= 1
  {
    Columns(ParseCsvLine(lines[0]))
  }

  /** The records of every line after the header. */
  function ParsedRecords(csvText: string, parseFloat: string -> Option<real>): seq<Client> {
    var lines := SplitLines(csvText);
    EmitRange(lines, BuildRow(HeaderColumns(lines), parseFloat), |lines|)
  }

  /** The body of the loop of `parseCSV` for one non-blank line (utils/csvHelper.ts:95-141):
      the record, or `None` when a coordinate is not a finite number. */
  method ReadRow(line: string, cols: ColumnMap, i: nat, parseFloat: string -> Option<real>)
    returns (record: Option<Client>)
    ensures record == RowRecord(line, cols, i, parseFloat)
  {
    var values := ParseCsvLine(line);
    var latStr := CoordText(values, cols.lat);
    var lngStr := CoordText(values, cols.lng);
    var lat := parseFloat(latStr);
    var lng := parseFloat(lngStr);
    var division := GetValue(values, cols.division);
    var logoUrl := SanitizeLogoUrl(GetValue(values, cols.logo));
    if division == "O152" {
      logoUrl := BenYedderLogo;
    } else if division == "Y150" {
      logoUrl := BondinLogo;
    }
    if lat.None? || lng.None? {
      return None;
    }
    var code := GetValue(values, cols.code);
    record := Some(Client(
      id := if code != "" then code else RowId(i),
      division := division,
      store := GetValue(values, cols.store),
      code := code,
      name := GetValue(values, cols.name),
      city := GetValue(values, cols.city),
      phone := GetValue(values, cols.phone),
      deliveryDays := GetValue(values, cols.days),
      numDeliveryDays := DayCount(GetValue(values, cols.numDays)),
      lat := lat.value,
      lng := lng.value,
      avgMonthlyPurchase := GetValue(values, cols.avgMonth),
      avgDeliveryPurchase := GetValue(values, cols.avgDel),
      logo := logoUrl,
      freeGoodsJan26 := GetValue(values, cols.free)));
  }

  /** `parseCSV` (utils/csvHelper.ts:45-144). */
  method ParseCsv(csvText: string, parseFloat: string -> Option<real>) returns (clients: seq<Client>)
    ensures clients == ParsedRecords(csvText, parseFloat)
  {
    var lines := SplitLines(csvText);
    // `split` never returns an empty array, so the `lines.length === 0` exit is never taken.
    var headers := ParseCsvLine(lines[0]);
    var cols := Columns(headers);
    ghost var row := BuildRow(cols, parseFloat);
    clients := [];
    var i := 1;
    while i < |lines|
      invariant 1 <= i <= |lines|
      invariant clients == EmitRange(lines, row, i)
    {
      var line := lines[i];
      EmitRangeStep(lines, row, i);
      if line != "" && Trim(line) != "" {
        var record := ReadRow(line, cols, i, parseFloat);
        assert row(line, i) == record;
        if record.Some? {
          clients := clients + [record.value];
        }
      } else {
        assert IsBlank(line);
      }
      i := i + 1;
    }
  }

  /** A text without a line feed, the empty text among them, is a header row alone: no records. */
  lemma SingleLineNoRecords(csvText: string, parseFloat: string -> Option<real>)
    requires '\n' !in csvText
    ensures ParsedRecords(csvText, parseFloat) == []
  {
    assert multiset(csvText)['\n'] == 0;
  }

  /** Every record of `parseCSV` comes from a non-blank data line below the header and is that
      line's record; the records follow line order, and every such line with finite
      coordinates gives one. */
  lemma ParsedRecordsOrigin(csvText: string, parseFloat: string -> Option<real>)
    ensures var lines := SplitLines(csvText);
      var cols := HeaderColumns(lines);
      var idx := AcceptedLines(lines, BuildRow(cols, parseFloat), |lines|);
      var out := ParsedRecords(csvText, parseFloat);
      && |out| == |idx|
      && (forall k :: 0 <= k < |out| ==> 1 <= idx[k] < |lines| && !IsBlank(lines[idx[k]])
                                         && Some(out[k]) == RowRecord(lines[idx[k]], cols, idx[k], parseFloat))
      && (forall k, l :: 0 <= k < l < |idx| ==> idx[k] < idx[l])
      && (forall i :: 1 <= i < |lines| && !IsBlank(lines[i]) && RowRecord(lines[i], cols, i, parseFloat).Some? ==> i in idx)
  {
    var lines := SplitLines(csvText);
    var row := BuildRow(HeaderColumns(lines), parseFloat);
    EmitRangeLines(lines, row, |lines|);
  }
}
