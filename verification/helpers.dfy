/**
 * General text helpers: truncation with a marker, numbered lists, and
 * splitting text into sentences and packing sentences into bounded chunks.
 */
module Helpers {
  import opened Text

  // ---------------------------------------------------------------------------
  // safe_truncate
  // ---------------------------------------------------------------------------

  const DefaultTruncateLimit: int := 12000
  const TruncationMarker := "\n\n[... truncated ...]"

  /**
   * `safe_truncate`: text of at most `limit` characters is returned as it is;
   * longer text is cut with Python's `text[:limit]` and the marker appended.
   */
  function SafeTruncate(text: string, limit: int): (r: string)
    ensures |text| <= limit ==> r == text
    ensures |text| > limit >= 0 ==> r == text[..limit] + TruncationMarker
    ensures |text| > limit ==> |r| <= |text| + |TruncationMarker|
  {
    if text == "" then ""
    else if |text| <= limit then text
    else Slice(text, 0, limit) + TruncationMarker
  }

  /** A truncated text is a prefix of the original followed by the marker. */
  lemma TruncatedIsPrefixAndMarker(text: string, limit: int)
    requires text != "" && |text| > limit
    ensures var r := SafeTruncate(text, limit);
      |r| >= |TruncationMarker|
      && r[|r| - |TruncationMarker|..] == TruncationMarker
      && r[..|r| - |TruncationMarker|] == text[..|r| - |TruncationMarker|]
  {
  }

  /** A negative limit counts from the end, as Python slicing does: `-k` drops the last `k` characters. */
  lemma NegativeLimitDropsTail(text: string, k: int)
    requires 0 < k <= |text|
    ensures SafeTruncate(text, -k) == text[..|text| - k] + TruncationMarker
  {
  }

  // ---------------------------------------------------------------------------
  // format_list
  // ---------------------------------------------------------------------------

  /** The `i`-th line of a numbered list: `"<i+1>. <item>"`. */
  function NumberedLine(i: nat, item: string): string {
    NatToString(i + 1) + ". " + item
  }

  function NumberedLines(items: seq<string>): seq<string> {
    seq(|items|, i requires 0 <= i < |items| => NumberedLine(i, items[i]))
  }

  /** `format_list`: the numbered lines joined by newlines; an empty list gives "". */
  function FormatList(items: seq<string>): (r: string)
    ensures r == "" <==> items == []
  {
    if items == [] then ""
    else
      var lines := NumberedLines(items);
      assert |lines[0]| > 0;
      JoinNonEmpty(lines, "\n");
      Join(lines, "\n")
  }

  lemma {:induction false} JoinNonEmpty(parts: seq<string>, sep: string)
    requires |parts| > 0 && |parts[0]| > 0
    ensures |Join(parts, sep)| > 0
  {
  }

  /**
   * When no item contains a newline, splitting the formatted list at
   * newlines gives back one numbered line per item.
   */
  lemma FormatListLines(items: seq<string>)
    requires items != []
    requires forall k | 0 <= k < |items| :: '\n' !in items[k]
    ensures SplitOn(FormatList(items), "\n") == NumberedLines(items)
  {
    var lines := NumberedLines(items);
    forall k | 0 <= k < |lines|
      ensures '\n' !in lines[k]
    {
      var d := NatToString(k + 1);
      assert lines[k] == d + ". " + items[k];
      forall p | 0 <= p < |lines[k]|
        ensures lines[k][p] != '\n'
      {
        if p < |d| {
          assert lines[k][p] == d[p];
        } else if p >= |d| + 2 {
          assert lines[k][p] == items[k][p - |d| - 2];
        }
      }
    }
    SplitOnJoin(lines, '\n');
  }

  // ---------------------------------------------------------------------------
  // Sentence splitting: re.split(r'(?<=[.!?])\s+', text)
  // ---------------------------------------------------------------------------

  predicate IsTerminal(c: char) {
    c == '.' || c == '!' || c == '?'
  }

  /** Index `i` starts a separator: whitespace right after a sentence terminal. */
  predicate BreakAt(s: string, i: int) {
    0 < i < |s| && IsTerminal(s[i - 1]) && IsSpace(s[i])
  }

  /** The end of the whitespace run starting at `i`. */
  function RunEnd(s: string, i: nat): (e: nat)
    requires i <= |s|
    ensures i <= e <= |s|
    ensures forall k | i <= k < e :: IsSpace(s[k])
    ensures e == |s| || !IsSpace(s[e])
    decreases |s| - i
  {
    if i < |s| && IsSpace(s[i]) then RunEnd(s, i + 1) else i
  }

  /** Scan from `i`; the current sentence started at `start`. */
  function SentencesFrom(s: string, start: nat, i: nat): (pieces: seq<string>)
    requires start <= i <= |s|
    ensures |pieces| >= 1
    decreases |s| - i
  {
    if i == |s| then [s[start..]]
    else if BreakAt(s, i) then
      var e := RunEnd(s, i);
      [s[start..i]] + SentencesFrom(s, e, e)
    else SentencesFrom(s, start, i + 1)
  }

  /** The pieces Python's `re.split` produces for the sentence pattern. */
  function SplitSentences(text: string): (pieces: seq<string>)
    ensures |pieces| >= 1
    ensures forall k | 0 <= k < |pieces| :: Unbroken(pieces[k])
    ensures WellSeparated(pieces)
  {
    SentencesUnbroken(text, 0, 0);
    SentencesEndings(text, 0, 0);
    SentencesFrom(text, 0, 0)
  }

  /** `pieces[0] + seps[0] + pieces[1] + ... + pieces[n-1]`. */
  function Interleave(pieces: seq<string>, seps: seq<string>): string
    requires |pieces| >= 1 && |seps| == |pieces| - 1
    decreases |pieces|
  {
    if |pieces| == 1 then pieces[0]
    else pieces[0] + seps[0] + Interleave(pieces[1..], seps[1..])
  }

  /** No break point lies strictly inside `p`. */
  predicate Unbroken(p: string) {
    forall j | 0 < j < |p| :: !BreakAt(p, j)
  }

  /** Every piece but the last ends with a terminal, and every piece after the first starts with a non-space. */
  predicate WellSeparated(pieces: seq<string>) {
    (forall k | 0 <= k < |pieces| - 1 :: |pieces[k]| > 0 && IsTerminal(pieces[k][|pieces[k]| - 1]))
    && (forall k | 0 < k < |pieces| :: pieces[k] == "" || !IsSpace(pieces[k][0]))
  }

  /** Re-joining the pieces with the whitespace runs between them gives back the scanned text. */
  lemma {:induction false} SentencesReassemble(s: string, start: nat, i: nat) returns (seps: seq<string>)
    requires start <= i <= |s|
    ensures var pieces := SentencesFrom(s, start, i);
      |seps| == |pieces| - 1
      && Interleave(pieces, seps) == s[start..]
      && (forall k | 0 <= k < |seps| :: |seps[k]| > 0 && AllSpace(seps[k]))
    decreases |s| - i
  {
    if i == |s| {
      seps := [];
    } else if BreakAt(s, i) {
      var e := RunEnd(s, i);
      var rest := SentencesFrom(s, e, e);
      var seps' := SentencesReassemble(s, e, e);
      seps := [s[i..e]] + seps';
      assert e > i;
      assert AllSpace(s[i..e]) by {
        forall k | 0 <= k < e - i
          ensures IsSpace(s[i..e][k])
        {
          assert s[i..e][k] == s[i + k];
        }
      }
      assert forall k | 1 <= k < |seps| :: seps[k] == seps'[k - 1];
      InterleaveCons(s[start..i], s[i..e], rest, seps');
      SliceThree(s, start, i, e);
    } else {
      seps := SentencesReassemble(s, start, i + 1);
    }
  }

  lemma InterleaveCons(p: string, sep: string, rest: seq<string>, seps: seq<string>)
    requires |rest| >= 1 && |seps| == |rest| - 1
    ensures Interleave([p] + rest, [sep] + seps) == p + sep + Interleave(rest, seps)
  {
    assert ([p] + rest)[1..] == rest;
    assert ([sep] + seps)[1..] == seps;
  }

  lemma SliceThree(s: string, a: nat, b: nat, c: nat)
    requires a <= b <= c <= |s|
    ensures s[a..] == s[a..b] + s[b..c] + s[c..]
  {
    assert s[a..] == s[a..b] + s[b..];
    assert s[b..] == s[b..c] + s[c..];
  }

  /** A stretch of the text with no break point inside it is unbroken. */
  lemma PieceUnbroken(s: string, start: nat, i: nat)
    requires start <= i <= |s|
    requires forall j | start < j < i :: !BreakAt(s, j)
    ensures Unbroken(s[start..i])
  {
    var p := s[start..i];
    forall j | 0 < j < |p|
      ensures !BreakAt(p, j)
    {
      assert p[j - 1] == s[start + j - 1] && p[j] == s[start + j];
      assert !BreakAt(s, start + j);
    }
  }

  /** No piece contains a break point. */
  lemma {:induction false} SentencesUnbroken(s: string, start: nat, i: nat)
    requires start <= i <= |s|
    requires forall j | start < j < i :: !BreakAt(s, j)
    ensures forall k | 0 <= k < |SentencesFrom(s, start, i)| :: Unbroken(SentencesFrom(s, start, i)[k])
    decreases |s| - i
  {
    if i == |s| {
      assert s[start..] == s[start..|s|];
      PieceUnbroken(s, start, |s|);
    } else if BreakAt(s, i) {
      var e := RunEnd(s, i);
      PieceUnbroken(s, start, i);
      SentencesUnbroken(s, e, e);
    } else {
      SentencesUnbroken(s, start, i + 1);
    }
  }

  /** The first piece is a prefix of the text from `start`, non-empty when that text is. */
  predicate FirstPieceAt(s: string, start: nat, pieces: seq<string>) {
    |pieces| >= 1
    && start + |pieces[0]| <= |s|
    && pieces[0] == s[start..start + |pieces[0]|]
    && (start < |s| ==> |pieces[0]| > 0)
  }

  lemma EndingsCons(s: string, start: nat, i: nat, e: nat, rest: seq<string>)
    requires start < i < e <= |s|
    requires IsTerminal(s[i - 1])
    requires e == |s| || !IsSpace(s[e])
    requires FirstPieceAt(s, e, rest) && WellSeparated(rest)
    ensures FirstPieceAt(s, start, [s[start..i]] + rest)
    ensures WellSeparated([s[start..i]] + rest)
  {
    var pieces := [s[start..i]] + rest;
    assert forall k | 1 <= k < |pieces| :: pieces[k] == rest[k - 1];
    assert s[start..i][i - start - 1] == s[i - 1];
    if e < |s| {
      assert rest[0][0] == s[e];
    }
  }

  /**
   * The first piece is a prefix of the scanned text, non-empty when the text
   * is; every piece but the last ends with a terminal, and later pieces start
   * with a non-space.
   */
  lemma {:induction false} SentencesEndings(s: string, start: nat, i: nat)
    requires start <= i <= |s|
    requires start == 0 || IsSpace(s[start - 1])
    requires start == 0 || start == |s| || !IsSpace(s[start])
    ensures FirstPieceAt(s, start, SentencesFrom(s, start, i))
    ensures WellSeparated(SentencesFrom(s, start, i))
    decreases |s| - i
  {
    if i == |s| {
      assert s[start..] == s[start..start + |s[start..]|];
    } else if BreakAt(s, i) {
      var e := RunEnd(s, i);
      SentencesEndings(s, e, e);
      assert start == 0 || !IsTerminal(s[start - 1]);
      EndingsCons(s, start, i, e, SentencesFrom(s, e, e));
    } else {
      SentencesEndings(s, start, i + 1);
    }
  }

  /**
   * The sentence split is exact: the pieces, re-joined with the whitespace
   * runs that separated them, give back the text; every piece but the last
   * ends with `.`, `!` or `?`; no piece contains a terminal followed by
   * whitespace; and a non-empty text has a non-empty first sentence.
   */
  lemma SplitSentencesStructure(text: string) returns (seps: seq<string>)
    ensures var pieces := SplitSentences(text);
      |seps| == |pieces| - 1
      && Interleave(pieces, seps) == text
      && (forall k | 0 <= k < |seps| :: |seps[k]| > 0 && AllSpace(seps[k]))
      && (forall k | 0 <= k < |pieces| :: Unbroken(pieces[k]))
      && WellSeparated(pieces)
      && (|text| > 0 ==> |pieces[0]| > 0)
  {
    seps := SentencesReassemble(text, 0, 0);
    assert text[0..] == text;
    SentencesUnbroken(text, 0, 0);
    SentencesEndings(text, 0, 0);
  }

  // ---------------------------------------------------------------------------
  // chunk_by_sentences
  // ---------------------------------------------------------------------------

  const DefaultSentenceChunk: int := 500

  /** Extend the current chunk by a sentence, with a space unless the chunk is empty. */
  function Append(cur: string, sentence: string): string {
    if cur == "" then sentence else cur + " " + sentence
  }

  /** The chunk a group of consecutive sentences accumulates to. */
  function Glue(group: seq<string>): string
    decreases |group|
  {
    if group == [] then "" else Append(Glue(group[..|group| - 1]), group[|group| - 1])
  }

  function Flatten(groups: seq<seq<string>>): seq<string>
    decreases |groups|
  {
    if groups == [] then [] else Flatten(groups[..|groups| - 1]) + groups[|groups| - 1]
  }

  /** The chunks a sequence of groups yields: each group's glued text, skipping empty ones. */
  function Rendered(groups: seq<seq<string>>): seq<string>
    decreases |groups|
  {
    if groups == [] then []
    else
      var g := Glue(groups[|groups| - 1]);
      Rendered(groups[..|groups| - 1]) + (if g == "" then [] else [g])
  }

  /** A group fits when it is a single sentence or its glued text is at most `maxLength` long. */
  predicate Fits(group: seq<string>, maxLength: int) {
    |group| == 1 || |Glue(group)| <= maxLength
  }

  /** Greedy closing: each group was closed because the next group's first sentence did not fit. */
  predicate Greedy(groups: seq<seq<string>>, maxLength: int)
    decreases |groups|
  {
    |groups| <= 1
    || (Greedy(groups[..|groups| - 1], maxLength)
        && |groups[|groups| - 1]| > 0
        && |Glue(groups[|groups| - 2])| + |groups[|groups| - 1][0]| >= maxLength)
  }

  /** `Greedy` in closed form: every boundary between consecutive groups was forced. */
  lemma {:induction false} GreedyAt(groups: seq<seq<string>>, maxLength: int, i: nat)
    requires Greedy(groups, maxLength)
    requires 0 < i < |groups|
    ensures |groups[i]| > 0 && |Glue(groups[i - 1])| + |groups[i][0]| >= maxLength
    decreases |groups|
  {
    if i < |groups| - 1 {
      var front := groups[..|groups| - 1];
      GreedyAt(front, maxLength, i);
      assert front[i] == groups[i] && front[i - 1] == groups[i - 1];
    }
  }

  lemma RenderedNonEmpty(groups: seq<seq<string>>)
    ensures forall k | 0 <= k < |Rendered(groups)| :: Rendered(groups)[k] != ""
    decreases |groups|
  {
    if groups != [] {
      RenderedNonEmpty(groups[..|groups| - 1]);
    }
  }

  lemma GlueSnoc(group: seq<string>, sentence: string)
    ensures Glue(group + [sentence]) == Append(Glue(group), sentence)
  {
    assert (group + [sentence])[..|group|] == group;
  }

  lemma FlattenSnoc(groups: seq<seq<string>>, group: seq<string>)
    ensures Flatten(groups + [group]) == Flatten(groups) + group
  {
    assert (groups + [group])[..|groups|] == groups;
  }

  lemma RenderedSnoc(groups: seq<seq<string>>, group: seq<string>)
    ensures Rendered(groups + [group]) == Rendered(groups) + (if Glue(group) == "" then [] else [Glue(group)])
  {
    assert (groups + [group])[..|groups|] == groups;
  }

  /** Closing a fitting, non-empty group whose first sentence did not fit after the last group keeps every packing property. */
  lemma {:induction false} CloseGroup(groups: seq<seq<string>>, g: seq<string>, maxLength: int)
    requires g != [] && Fits(g, maxLength)
    requires forall i | 0 <= i < |groups| :: |groups[i]| > 0 && Fits(groups[i], maxLength)
    requires Greedy(groups, maxLength)
    requires groups != [] ==> |Glue(groups[|groups| - 1])| + |g[0]| >= maxLength
    ensures Flatten(groups + [g]) == Flatten(groups) + g
    ensures Rendered(groups + [g]) == Rendered(groups) + (if Glue(g) == "" then [] else [Glue(g)])
    ensures forall i | 0 <= i < |groups + [g]| :: |(groups + [g])[i]| > 0 && Fits((groups + [g])[i], maxLength)
    ensures Greedy(groups + [g], maxLength)
  {
    FlattenSnoc(groups, g);
    RenderedSnoc(groups, g);
    var gs := groups + [g];
    assert gs[..|groups|] == groups;
    assert forall i | 0 <= i < |groups| :: gs[i] == groups[i];
  }

  /** The state of the packing loop after the sentences `done`. */
  ghost predicate PackState(done: seq<string>, groups: seq<seq<string>>, curGroup: seq<string>,
                            chunks: seq<string>, cur: string, maxLength: int)
  {
    && Flatten(groups) + curGroup == done
    && cur == Glue(curGroup)
    && chunks == Rendered(groups)
    && (done != [] ==> curGroup != [])
    && (forall i | 0 <= i < |groups| :: |groups[i]| > 0 && Fits(groups[i], maxLength))
    && (curGroup != [] ==> Fits(curGroup, maxLength))
    && Greedy(groups, maxLength)
    && (groups != [] ==> curGroup != [] && |Glue(groups[|groups| - 1])| + |curGroup[0]| >= maxLength)
  }

  /** A sentence that fits joins the current chunk. */
  lemma PackJoin(done: seq<string>, groups: seq<seq<string>>, curGroup: seq<string>,
                 chunks: seq<string>, cur: string, maxLength: int, sentence: string)
    requires PackState(done, groups, curGroup, chunks, cur, maxLength)
    requires |cur| + |sentence| < maxLength
    ensures PackState(done + [sentence], groups, curGroup + [sentence], chunks, Append(cur, sentence), maxLength)
  {
    var g := curGroup + [sentence];
    GlueSnoc(curGroup, sentence);
    assert Flatten(groups) + g == done + [sentence];
    assert |Glue(g)| <= maxLength;
    if curGroup != [] {
      assert g[0] == curGroup[0];
    }
    PackStateIntro(done + [sentence], groups, g, chunks, Append(cur, sentence), maxLength);
  }

  /** A sentence that does not fit closes the current chunk and starts the next one. */
  lemma PackClose(done: seq<string>, groups: seq<seq<string>>, curGroup: seq<string>,
                  chunks: seq<string>, cur: string, maxLength: int, sentence: string)
    requires PackState(done, groups, curGroup, chunks, cur, maxLength)
    requires |cur| + |sentence| >= maxLength
    ensures var groups' := if curGroup != [] then groups + [curGroup] else groups;
      var chunks' := if cur != "" then chunks + [cur] else chunks;
      PackState(done + [sentence], groups', [sentence], chunks', sentence, maxLength)
  {
    if curGroup != [] {
      PackCloseGroup(done, groups, curGroup, chunks, cur, maxLength, sentence);
    } else {
      PackStartFirst(done, groups, chunks, cur, maxLength, sentence);
    }
  }

  /** Closing a non-empty current chunk: it becomes the last group and the sentence starts the next. */
  lemma PackCloseGroup(done: seq<string>, groups: seq<seq<string>>, curGroup: seq<string>,
                       chunks: seq<string>, cur: string, maxLength: int, sentence: string)
    requires PackState(done, groups, curGroup, chunks, cur, maxLength)
    requires |cur| + |sentence| >= maxLength
    requires curGroup != []
    ensures PackState(done + [sentence], groups + [curGroup], [sentence],
      if cur != "" then chunks + [cur] else chunks, sentence, maxLength)
  {
    var groups' := groups + [curGroup];
    var chunks' := if cur != "" then chunks + [cur] else chunks;
    assert Flatten(groups') + [sentence] == done + [sentence] by {
      FlattenSnoc(groups, curGroup);
    }
    assert sentence == Glue([sentence]) by {
      GlueSnoc([], sentence);
      assert [] + [sentence] == [sentence];
    }
    assert chunks' == Rendered(groups') by {
      RenderedSnoc(groups, curGroup);
    }
    assert (forall i | 0 <= i < |groups'| :: |groups'[i]| > 0 && Fits(groups'[i], maxLength))
        && Greedy(groups', maxLength) by {
      CloseGroup(groups, curGroup, maxLength);
    }
    assert groups'[|groups'| - 1] == curGroup;
    assert Fits([sentence], maxLength);
    PackStateIntro(done + [sentence], groups', [sentence], chunks', sentence, maxLength);
  }

  lemma PackStateIntro(done: seq<string>, groups: seq<seq<string>>, curGroup: seq<string>,
                       chunks: seq<string>, cur: string, maxLength: int)
    requires Flatten(groups) + curGroup == done
    requires cur == Glue(curGroup)
    requires chunks == Rendered(groups)
    requires done != [] ==> curGroup != []
    requires forall i | 0 <= i < |groups| :: |groups[i]| > 0 && Fits(groups[i], maxLength)
    requires curGroup != [] ==> Fits(curGroup, maxLength)
    requires Greedy(groups, maxLength)
    requires groups != [] ==> curGroup != [] && |Glue(groups[|groups| - 1])| + |curGroup[0]| >= maxLength
    ensures PackState(done, groups, curGroup, chunks, cur, maxLength)
  {
  }

  /** With nothing packed yet, the sentence starts the first chunk. */
  lemma PackStartFirst(done: seq<string>, groups: seq<seq<string>>,
                       chunks: seq<string>, cur: string, maxLength: int, sentence: string)
    requires PackState(done, groups, [], chunks, cur, maxLength)
    ensures PackState(done + [sentence], groups, [sentence], chunks, sentence, maxLength)
  {
    GlueSnoc([], sentence);
    assert [] + [sentence] == [sentence];
    assert groups == [];
    assert Flatten(groups) + [sentence] == done + [sentence];
  }

  /** At the end the current chunk, if any, is closed. */
  lemma PackFinish(sentences: seq<string>, groups: seq<seq<string>>, curGroup: seq<string>,
                   chunks: seq<string>, cur: string, maxLength: int)
    requires PackState(sentences, groups, curGroup, chunks, cur, maxLength)
    ensures var groups' := if curGroup != [] then groups + [curGroup] else groups;
      var chunks' := if cur != "" then chunks + [cur] else chunks;
      && Flatten(groups') == sentences
      && chunks' == Rendered(groups')
      && (forall i | 0 <= i < |groups'| :: |groups'[i]| > 0 && Fits(groups'[i], maxLength))
      && Greedy(groups', maxLength)
  {
    if curGroup != [] {
      CloseGroup(groups, curGroup, maxLength);
    }
  }

  /** One iteration of the packing loop. */
  method PackStep(ghost done: seq<string>, ghost groups: seq<seq<string>>, ghost curGroup: seq<string>,
                  chunks: seq<string>, cur: string, maxLength: int, sentence: string)
    returns (chunks': seq<string>, cur': string, ghost groups': seq<seq<string>>, ghost curGroup': seq<string>)
    requires PackState(done, groups, curGroup, chunks, cur, maxLength)
    ensures PackState(done + [sentence], groups', curGroup', chunks', cur', maxLength)
    ensures |chunks'| <= |chunks| + 1
  {
    if |cur| + |sentence| < maxLength {
      PackJoin(done, groups, curGroup, chunks, cur, maxLength, sentence);
      chunks', cur', groups', curGroup' := chunks, Append(cur, sentence), groups, curGroup + [sentence];
    } else {
      PackClose(done, groups, curGroup, chunks, cur, maxLength, sentence);
      chunks' := if cur != "" then chunks + [cur] else chunks;
      groups' := if curGroup != [] then groups + [curGroup] else groups;
      cur', curGroup' := sentence, [sentence];
    }
  }

  /** After the loop: emit the last chunk, if any. */
  method PackEnd(ghost sentences: seq<string>, ghost groups: seq<seq<string>>, ghost curGroup: seq<string>,
                 chunks: seq<string>, cur: string, maxLength: int)
    returns (chunks': seq<string>, ghost groups': seq<seq<string>>)
    requires PackState(sentences, groups, curGroup, chunks, cur, maxLength)
    ensures Flatten(groups') == sentences
    ensures chunks' == Rendered(groups')
    ensures forall i | 0 <= i < |groups'| :: |groups'[i]| > 0 && Fits(groups'[i], maxLength)
    ensures Greedy(groups', maxLength)
  {
    PackFinish(sentences, groups, curGroup, chunks, cur, maxLength);
    chunks' := if cur != "" then chunks + [cur] else chunks;
    groups' := if curGroup != [] then groups + [curGroup] else groups;
  }

  /**
   * The packing loop of `chunk_by_sentences`: sentences join the current
   * chunk while the current length plus the sentence's length stays below
   * `maxLength`; otherwise the current chunk, if non-empty, is emitted and the
   * sentence starts the next one. The ghost `groups` records which sentences
   * went into which chunk.
   */
  method PackSentences(sentences: seq<string>, maxLength: int) returns (chunks: seq<string>, ghost groups: seq<seq<string>>)
    ensures Flatten(groups) == sentences
    ensures chunks == Rendered(groups)
    ensures forall i | 0 <= i < |groups| :: |groups[i]| > 0 && Fits(groups[i], maxLength)
    ensures Greedy(groups, maxLength)
    ensures forall k | 0 <= k < |chunks| :: chunks[k] != ""
  {
    chunks := [];
    groups := [];
    var cur := "";
    ghost var curGroup: seq<string> := [];
    var k := 0;
    while k < |sentences|
      invariant 0 <= k <= |sentences|
      invariant PackState(sentences[..k], groups, curGroup, chunks, cur, maxLength)
    {
      assert sentences[..k + 1] == sentences[..k] + [sentences[k]];
      chunks, cur, groups, curGroup := PackStep(sentences[..k], groups, curGroup, chunks, cur, maxLength, sentences[k]);
      k := k + 1;
    }
    assert sentences[..k] == sentences;
    chunks, groups := PackEnd(sentences, groups, curGroup, chunks, cur, maxLength);
    RenderedNonEmpty(groups);
  }

  /**
   * `chunk_by_sentences`: an empty text has no chunks; otherwise the text's
   * sentences are packed greedily into non-empty chunks.
   */
  method ChunkBySentences(text: string, maxLength: int) returns (chunks: seq<string>, ghost groups: seq<seq<string>>)
    ensures text == "" ==> chunks == [] && groups == []
    ensures text != "" ==> Flatten(groups) == SplitSentences(text)
    ensures chunks == Rendered(groups)
    ensures forall i | 0 <= i < |groups| :: |groups[i]| > 0 && Fits(groups[i], maxLength)
    ensures Greedy(groups, maxLength)
    ensures forall k | 0 <= k < |chunks| :: chunks[k] != ""
  {
    if text == "" {
      return [], [];
    }
    chunks, groups := PackSentences(SplitSentences(text), maxLength);
  }

  /** Every chunk is at most `maxLength` long or is a single sentence. */
  lemma ChunkLengths(groups: seq<seq<string>>, maxLength: int)
    requires forall i | 0 <= i < |groups| :: |groups[i]| > 0 && Fits(groups[i], maxLength)
    ensures forall c | c in Rendered(groups) :: |c| <= maxLength || exists i :: 0 <= i < |groups| && groups[i] == [c]
    decreases |groups|
  {
    if groups != [] {
      var front := groups[..|groups| - 1];
      ChunkLengths(front, maxLength);
      var g := groups[|groups| - 1];
      if |g| == 1 {
        assert Glue(g) == g[0] by {
          assert g[..0] == [];
        }
        assert g == [g[0]];
      }
      forall c | c in Rendered(front)
        ensures |c| <= maxLength || exists i :: 0 <= i < |groups| && groups[i] == [c]
      {
        if |c| > maxLength {
          var i :| 0 <= i < |front| && front[i] == [c];
          assert groups[i] == [c];
        }
      }
    }
  }
}
