/**
 * Video-id extraction from a link. Three regular expressions are tried in
 * order; each is a set of literal alternatives followed by a capture of
 * exactly eleven id characters, searched leftmost-first as `re.search` does.
 */
module Transcript {
  import opened Wrappers
  import opened Text
  import opened Errors

  const IdLength: nat := 11
  const InvalidUrl: string := "Invalid YouTube URL"
  const NoVideoId: string := "Could not extract video ID"

  /** The class `[0-9A-Za-z_-]`. */
  predicate IsIdChar(c: char) {
    ('0' <= c <= '9') || ('A' <= c <= 'Z') || ('a' <= c <= 'z') || c == '_' || c == '-'
  }

  /** Exactly eleven id characters. */
  predicate IsVideoId(s: string) {
    |s| == IdLength && forall i | 0 <= i < |s| :: IsIdChar(s[i])
  }

  /** The literal `prefix` occurs at `i` and is immediately followed by eleven id characters. */
  predicate MatchAt(url: string, prefix: string, i: int) {
    OccursAt(url, prefix, i) && i + |prefix| + IdLength <= |url|
    && IsVideoId(url[i + |prefix|..i + |prefix| + IdLength])
  }

  /** `(?:v=|/)([0-9A-Za-z_-]{11})` */
  const WatchOrPath: seq<string> := ["v=", "/"]
  /** `youtu\.be/([0-9A-Za-z_-]{11})` */
  const ShortLink: seq<string> := ["youtu.be/"]
  /** `youtube\.com/embed/([0-9A-Za-z_-]{11})` */
  const EmbedLink: seq<string> := ["youtube.com/embed/"]
  /** The patterns in the order they are tried. */
  const Patterns: seq<seq<string>> := [WatchOrPath, ShortLink, EmbedLink]

  /** Some alternative of the pattern matches at `i`. */
  predicate MatchesAt(url: string, alts: seq<string>, i: int) {
    exists k | 0 <= k < |alts| :: MatchAt(url, alts[k], i)
  }

  /** The capture of the first alternative, in order, that matches at `i`. */
  function CaptureAt(url: string, alts: seq<string>, i: int): (r: Option<string>)
    ensures r.Some? <==> MatchesAt(url, alts, i)
    ensures r.Some? ==> IsVideoId(r.value)
  {
    if alts == [] then None
    else if MatchAt(url, alts[0], i) then Some(url[i + |alts[0]|..i + |alts[0]| + IdLength])
    else
      var r := CaptureAt(url, alts[1..], i);
      assert MatchesAt(url, alts, i) ==> MatchesAt(url, alts[1..], i) by {
        if MatchesAt(url, alts, i) {
          var k :| 0 <= k < |alts| && MatchAt(url, alts[k], i);
          assert alts[1..][k - 1] == alts[k];
        }
      }
      r
  }

  /** The capture is the eleven characters after the first alternative, in order, that matches. */
  lemma {:induction false} CaptureAtFirst(url: string, alts: seq<string>, i: int) returns (k: nat)
    requires MatchesAt(url, alts, i)
    ensures k < |alts| && MatchAt(url, alts[k], i)
    ensures forall k' | 0 <= k' < k :: !MatchAt(url, alts[k'], i)
    ensures CaptureAt(url, alts, i) == Some(url[i + |alts[k]|..i + |alts[k]| + IdLength])
  {
    if MatchAt(url, alts[0], i) {
      k := 0;
    } else {
      assert MatchesAt(url, alts[1..], i) by {
        var m :| 0 <= m < |alts| && MatchAt(url, alts[m], i);
        assert alts[1..][m - 1] == alts[m];
      }
      var k1 := CaptureAtFirst(url, alts[1..], i);
      k := k1 + 1;
      assert alts[1..][k1] == alts[k];
      forall k' | 0 <= k' < k
        ensures !MatchAt(url, alts[k'], i)
      {
        if k' > 0 {
          assert alts[1..][k' - 1] == alts[k'];
        }
      }
    }
  }

  /** `re.search` from position `i`: the capture at the leftmost position where the pattern matches. */
  function Search(url: string, alts: seq<string>, i: nat): (r: Option<string>)
    requires i <= |url|
    decreases |url| - i
    ensures r.Some? <==> exists j | i <= j < |url| :: MatchesAt(url, alts, j)
    ensures r.Some? ==> IsVideoId(r.value)
  {
    if i == |url| then None
    else
      var c := CaptureAt(url, alts, i);
      if c.Some? then c
      else
        var r := Search(url, alts, i + 1);
        assert forall j | i <= j < |url| && MatchesAt(url, alts, j) :: i + 1 <= j;
        r
  }

  /** The search result is the capture at the leftmost matching position. */
  lemma {:induction false} SearchLeftmost(url: string, alts: seq<string>, i: nat) returns (j: nat)
    requires i <= |url| && Search(url, alts, i).Some?
    decreases |url| - i
    ensures i <= j < |url| && MatchesAt(url, alts, j)
    ensures forall j' | i <= j' < j :: !MatchesAt(url, alts, j')
    ensures Search(url, alts, i) == CaptureAt(url, alts, j)
  {
    if MatchesAt(url, alts, i) {
      j := i;
      assert CaptureAt(url, alts, i).Some?;
    } else {
      SearchStep(url, alts, i);
      j := SearchLeftmost(url, alts, i + 1);
      forall j' | i <= j' < j
        ensures !MatchesAt(url, alts, j')
      {
        if j' == i {
          assert !MatchesAt(url, alts, i);
        }
      }
    }
  }

  /** The first pattern, in order, that finds a match anywhere. */
  function FirstPattern(url: string, patterns: seq<seq<string>>): (r: Option<string>)
    ensures r.Some? <==> exists p | 0 <= p < |patterns| :: Search(url, patterns[p], 0).Some?
    ensures r.Some? ==> exists p | 0 <= p < |patterns| :: Search(url, patterns[p], 0) == r
  {
    if patterns == [] then None
    else if Search(url, patterns[0], 0).Some? then Search(url, patterns[0], 0)
    else
      var r := FirstPattern(url, patterns[1..]);
      assert forall p | 1 <= p < |patterns| :: patterns[1..][p - 1] == patterns[p];
      r
  }
  // ---------------------------------------------------------------------------
  // Only the first pattern matters
  // ---------------------------------------------------------------------------

  /** Any match of the short-link or embed pattern contains a match of `/` followed by the same id. */
  lemma LaterPatternsImplyFirst(url: string, i: int)
    ensures MatchesAt(url, ShortLink, i) ==> MatchAt(url, "/", i + 8)
    ensures MatchesAt(url, EmbedLink, i) ==> MatchAt(url, "/", i + 17)
  {
    if MatchesAt(url, ShortLink, i) {
      assert MatchAt(url, ShortLink[0], i);
      assert url[i..i + 9][8] == url[i + 8];
      assert url[i + 9..i + 20] == url[i + 8 + 1..i + 8 + 1 + IdLength];
    }
    if MatchesAt(url, EmbedLink, i) {
      assert MatchAt(url, EmbedLink[0], i);
      assert url[i..i + 18][17] == url[i + 17];
      assert url[i + 18..i + 29] == url[i + 17 + 1..i + 17 + 1 + IdLength];
    }
  }

  /** Trying the three patterns in order always gives the first pattern's result: the other two never decide. */
  lemma FirstPatternDecides(url: string)
    ensures FirstPattern(url, Patterns) == Search(url, WatchOrPath, 0)
  {
    assert Patterns[0] == WatchOrPath && Patterns[1] == ShortLink && Patterns[2] == EmbedLink;
    if Search(url, WatchOrPath, 0).None? {
      forall j | 0 <= j < |url|
        ensures !MatchesAt(url, ShortLink, j) && !MatchesAt(url, EmbedLink, j)
      {
        LaterPatternsImplyFirst(url, j);
        if j + 8 < |url| {
          assert !MatchesAt(url, WatchOrPath, j + 8);
          assert !MatchAt(url, WatchOrPath[1], j + 8);
        }
        if j + 17 < |url| {
          assert !MatchesAt(url, WatchOrPath, j + 17);
          assert !MatchAt(url, WatchOrPath[1], j + 17);
        }
      }
    }
  }

  /** A capture found by the search is a piece of the link. */
  lemma SearchContained(url: string, alts: seq<string>)
    requires Search(url, alts, 0).Some?
    ensures Contains(url, Search(url, alts, 0).value)
  {
    var j := SearchLeftmost(url, alts, 0);
    var k := CaptureAtFirst(url, alts, j);
    ContainsIff(url, Search(url, alts, 0).value);
    assert OccursAt(url, Search(url, alts, 0).value, j + |alts[k]|);
  }

  /**
   * `extract_video_id`: an empty input is rejected as an invalid link; the
   * capture of the first pattern that matches is the id; with no match the
   * id cannot be extracted. Only the first pattern ever decides.
   */
  function ExtractVideoId(url: string): (r: Result<string, BotError>)
    ensures url == "" <==> r == Err(TranscriptError(InvalidUrl))
    ensures url != "" ==> r == match Search(url, WatchOrPath, 0)
      case Some(id) => Ok(id)
      case None => Err(TranscriptError(NoVideoId))
    ensures r.Ok? ==> IsVideoId(r.value) && Contains(url, r.value)
    ensures r.Err? <==> url == "" || forall j | 0 <= j < |url| :: !MatchesAt(url, WatchOrPath, j)
  {
    if url == "" then Err(TranscriptError(InvalidUrl))
    else
      FirstPatternDecides(url);
      match FirstPattern(url, Patterns)
      case Some(id) =>
        SearchContained(url, WatchOrPath);
        Ok(id)
      case None => Err(TranscriptError(NoVideoId))
  }

  // ---------------------------------------------------------------------------
  // Worked links
  // ---------------------------------------------------------------------------

  /** Positions where neither `v=` nor `/` can start. */
  lemma NoWatchOrPathAt(url: string, j: int)
    requires 0 <= j < |url| && url[j] != 'v' && url[j] != '/'
    ensures !MatchesAt(url, WatchOrPath, j)
  {
    if j + 2 <= |url| {
      assert url[j..j + 2][0] == url[j];
    }
    assert url[j..j + 1][0] == url[j];
  }

  /** A slash whose eleven following characters include a non-id character starts no match. */
  lemma SlashWithoutId(url: string, j: int, bad: int)
    requires 0 <= j < |url| && url[j] == '/' && j + 1 <= bad < j + 12 && bad < |url| && !IsIdChar(url[bad])
    ensures !MatchesAt(url, WatchOrPath, j)
  {
    if j + 2 <= |url| {
      assert url[j..j + 2][0] == url[j];
    }
    if j + 12 <= |url| {
      assert url[j + 1..j + 12][bad - j - 1] == url[bad];
    }
  }

  /** A position where nothing matches is passed over. */
  lemma SearchStep(url: string, alts: seq<string>, i: nat)
    requires i < |url| && !MatchesAt(url, alts, i)
    ensures Search(url, alts, i) == Search(url, alts, i + 1)
  {
    assert CaptureAt(url, alts, i) == None;
  }

  /** Skipping positions where nothing matches does not change the search. */
  lemma {:induction false} SearchSkips(url: string, alts: seq<string>, i: nat, j: nat)
    requires i <= j <= |url|
    requires forall k | i <= k < j :: !MatchesAt(url, alts, k)
    ensures Search(url, alts, i) == Search(url, alts, j)
    decreases j - i
  {
    if i < j {
      SearchStep(url, alts, i);
      SearchSkips(url, alts, i + 1, j);
    }
  }

  /** A short link yields its id; anything after the eleven id characters is ignored, so a longer run is cut. */
  lemma ShortLinkId(id: string, rest: string)
    requires IsVideoId(id)
    ensures ExtractVideoId("youtu.be/" + id + rest) == Ok(id)
  {
    var url := "youtu.be/" + id + rest;
    assert url[..9] == "youtu.be/";
    forall k | 0 <= k < 8
      ensures !MatchesAt(url, WatchOrPath, k)
    {
      assert url[k] == url[..9][k];
      NoWatchOrPathAt(url, k);
    }
    SearchSkips(url, WatchOrPath, 0, 8);
    assert url[8] == '/';
    assert url[9..20] == id;
    assert url[8..9] == "/";
    assert MatchAt(url, WatchOrPath[1], 8);
    assert !MatchAt(url, WatchOrPath[0], 8) by {
      assert url[8..10][0] == '/';
    }
    assert CaptureAt(url, WatchOrPath, 8) == Some(id) by {
      assert WatchOrPath[1..][0] == "/";
    }
  }

  /** Before `v=`, the prefix of a watch link holds no match: its slashes are followed by non-id characters. */
  lemma {:induction false} NoMatchInWatchHead(url: string, head: string)
    requires head == "https://www.youtube.com/watch?v="
    requires |url| >= 32 && url[..32] == head
    ensures forall k | 0 <= k < 30 :: !MatchesAt(url, WatchOrPath, k)
  {
    forall k | 0 <= k < 30
      ensures !MatchesAt(url, WatchOrPath, k)
    {
      assert url[k] == url[..32][k] == head[k];
      if k == 6 {
        assert url[7] == url[..32][7];
        SlashWithoutId(url, 6, 7);
      } else if k == 7 {
        assert url[11] == url[..32][11];
        SlashWithoutId(url, 7, 11);
      } else if k == 23 {
        assert url[29] == url[..32][29];
        SlashWithoutId(url, 23, 29);
      } else {
        NoWatchOrPathAt(url, k);
      }
    }
  }

  /** A watch link yields the id after `v=`; the slashes before it are followed by non-id characters. */
  lemma WatchLinkId(id: string, rest: string)
    requires IsVideoId(id)
    ensures ExtractVideoId("https://www.youtube.com/watch?v=" + id + rest) == Ok(id)
  {
    var head := "https://www.youtube.com/watch?v=";
    var url := head + id + rest;
    assert |head| == 32;
    assert url[..32] == head;
    NoMatchInWatchHead(url, head);
    SearchSkips(url, WatchOrPath, 0, 30);
    assert url[30..32] == "v=";
    assert url[32..43] == id;
    assert MatchAt(url, WatchOrPath[0], 30);
  }
}
