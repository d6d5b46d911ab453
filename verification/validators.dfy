/**
 * Input validators: recognising YouTube links, blank input, acceptable
 * questions and acceptable language names.
 */
module Validators {
  import opened Wrappers
  import opened Text

  // ---------------------------------------------------------------------------
  // is_youtube_url
  // ---------------------------------------------------------------------------

  /** The optional scheme of the link patterns: nothing, `http://` or `https://`. */
  const Schemes: seq<string> := ["", "http://", "https://"]
  /** The optional host prefix: nothing or `www.`. */
  const HostPrefixes: seq<string> := ["", "www."]
  /** The fixed part of each of the three link patterns. */
  const LinkCores: seq<string> := ["youtu.be/", "youtube.com/watch", "youtube.com/embed/"]

  /** The pattern `(?:https?://)?(www\\.)?<core>` matches at index `i`. */
  predicate PatternAt(text: string, core: string, i: int) {
    exists a, b | a in Schemes && b in HostPrefixes :: OccursAt(text, a + b + core, i)
  }

  /** `re.search` of the pattern: a match at some index. */
  predicate PatternSearch(text: string, core: string) {
    exists i | 0 <= i <= |text| :: PatternAt(text, core, i)
  }

  /** An occurrence of `p + core` contains an occurrence of `core` right after `p`. */
  lemma OccursAfterPrefix(text: string, p: string, core: string, i: int)
    requires OccursAt(text, p + core, i)
    ensures OccursAt(text, core, i + |p|)
  {
    var n := p + core;
    assert text[i + |p|..i + |p| + |core|] == text[i..i + |n|][|p|..];
    assert n[|p|..] == core;
  }

  /** A pattern match yields an occurrence of its core. */
  lemma PatternAtGivesCore(text: string, core: string, i: int)
    requires PatternAt(text, core, i)
    ensures Contains(text, core)
  {
    var a, b :| a in Schemes && b in HostPrefixes && OccursAt(text, a + b + core, i);
    assert a + b + core == (a + b) + core;
    OccursAfterPrefix(text, a + b, core, i);
    ContainsIff(text, core);
  }

  /** Because both prefixes are optional, the pattern is found exactly when its core occurs. */
  lemma PatternSearchIffContains(text: string, core: string)
    ensures PatternSearch(text, core) <==> Contains(text, core)
  {
    if PatternSearch(text, core) {
      var i :| 0 <= i <= |text| && PatternAt(text, core, i);
      PatternAtGivesCore(text, core, i);
    }
    if Contains(text, core) {
      ContainsIff(text, core);
      var i :| OccursAt(text, core, i);
      assert "" + "" + core == core;
      assert "" in Schemes && "" in HostPrefixes;
      assert PatternAt(text, core, i);
    }
  }

  /** `is_youtube_url`: a non-empty text in which one of the three link patterns is found. */
  function IsYoutubeUrl(text: string): (r: bool)
    ensures r <==> text != "" && exists core | core in LinkCores :: Contains(text, core)
  {
    PatternSearchIffContains(text, LinkCores[0]);
    PatternSearchIffContains(text, LinkCores[1]);
    PatternSearchIffContains(text, LinkCores[2]);
    text != "" && (PatternSearch(text, LinkCores[0]) || PatternSearch(text, LinkCores[1]) || PatternSearch(text, LinkCores[2]))
  }

  /** The search is unanchored: a link inside a sentence is still recognised. */
  lemma LinkInsideSentence(id: string)
    ensures IsYoutubeUrl("see youtu.be/" + id)
  {
    var t := "see youtu.be/" + id;
    assert OccursAt(t, "youtu.be/", 4);
    ContainsIff(t, "youtu.be/");
  }

  // ---------------------------------------------------------------------------
  // is_empty, validate_question, validate_language
  // ---------------------------------------------------------------------------

  /** `is_empty`: absent, or only whitespace. */
  function IsEmpty(text: Option<string>): (r: bool)
    ensures r <==> text.None? || AllSpace(text.value)
  {
    match text
    case None => true
    case Some(t) => Strip(t) == ""
  }

  /** `validate_question`: at least three characters once surrounding whitespace is stripped. */
  function ValidateQuestion(question: string): (r: bool)
    ensures r ==> |question| >= 3
  {
    question != "" && |Strip(question)| >= 3
  }

  /** A question is valid exactly when its first and last non-space characters are at least two positions apart. */
  lemma {:induction false} ValidateQuestionIff(question: string)
    ensures ValidateQuestion(question) <==>
      exists i, j | 0 <= i < j < |question| :: j - i >= 2 && !IsSpace(question[i]) && !IsSpace(question[j])
  {
    if ValidateQuestion(question) {
      var i, j := ValidQuestionSpan(question);
    }
    if exists i, j | 0 <= i < j < |question| :: j - i >= 2 && !IsSpace(question[i]) && !IsSpace(question[j]) {
      var i, j :| 0 <= i < j < |question| && j - i >= 2 && !IsSpace(question[i]) && !IsSpace(question[j]);
      WideSpanValid(question, i, j);
    }
  }

  /** A valid question has non-space characters at least two positions apart. */
  lemma {:induction false} ValidQuestionSpan(question: string) returns (i: nat, j: nat)
    requires ValidateQuestion(question)
    ensures i < j < |question| && j - i >= 2
    ensures !IsSpace(question[i]) && !IsSpace(question[j])
  {
    StripSpan(question);
    i := FirstNonSpace(question);
    j := EndNonSpace(question) - 1;
  }

  /** Non-space characters at least two positions apart make a valid question. */
  lemma {:induction false} WideSpanValid(question: string, i: nat, j: nat)
    requires i < j < |question| && j - i >= 2
    requires !IsSpace(question[i]) && !IsSpace(question[j])
    ensures ValidateQuestion(question)
  {
    StripSpan(question);
    var a := FirstNonSpace(question);
    var b := EndNonSpace(question);
    assert a <= i;
    assert j < b;
  }

  /** All characters are ASCII letters. */
  predicate AllAlpha(s: string) {
    forall i | 0 <= i < |s| :: IsAlpha(s[i])
  }

  /** `validate_language`: once stripped, at least two characters, all letters. */
  function ValidateLanguage(language: string): (r: bool)
    ensures r ==> |language| >= 2
  {
    if language == "" then false
    else
      var l := Strip(language);
      |l| >= 2 && AllAlpha(l)
  }

  /** A language name is valid exactly when it is a run of two or more letters surrounded only by whitespace. */
  lemma {:induction false} ValidateLanguageIff(language: string)
    ensures ValidateLanguage(language) <==>
      exists a, b | 0 <= a && a + 2 <= b <= |language| ::
        AllSpace(language[..a]) && AllAlpha(language[a..b]) && AllSpace(language[b..])
  {
    if ValidateLanguage(language) {
      var a, b := ValidLanguageSpan(language);
    }
    if exists a', b' | 0 <= a' && a' + 2 <= b' <= |language| ::
        AllSpace(language[..a']) && AllAlpha(language[a'..b']) && AllSpace(language[b'..]) {
      var a', b' :| 0 <= a' && a' + 2 <= b' <= |language| &&
        AllSpace(language[..a']) && AllAlpha(language[a'..b']) && AllSpace(language[b'..]);
      LetterRunValid(language, a', b');
    }
  }

  /** A valid language name is a run of letters between whitespace. */
  lemma {:induction false} ValidLanguageSpan(language: string) returns (a: nat, b: nat)
    requires ValidateLanguage(language)
    ensures a + 2 <= b <= |language|
    ensures AllSpace(language[..a]) && AllAlpha(language[a..b]) && AllSpace(language[b..])
  {
    a := FirstNonSpace(language);
    b := EndNonSpace(language);
    StripSpan(language);
    assert language[a..b] == Strip(language);
  }

  /** A run of two or more letters between whitespace is a valid language name. */
  lemma {:induction false} LetterRunValid(language: string, a: nat, b: nat)
    requires a + 2 <= b <= |language|
    requires AllSpace(language[..a]) && AllAlpha(language[a..b]) && AllSpace(language[b..])
    ensures ValidateLanguage(language)
  {
    StripSpan(language);
    assert language[a..b][0] == language[a];
    assert language[a..b][b - a - 1] == language[b - 1];
    forall k | 0 <= k < a
      ensures IsSpace(language[k])
    {
      assert language[..a][k] == language[k];
    }
    forall k | b <= k < |language|
      ensures IsSpace(language[k])
    {
      assert language[b..][k - b] == language[k];
    }
    assert FirstNonSpace(language) == a;
    assert EndNonSpace(language) == b;
    assert Strip(language) == language[a..b];
  }

  /** A two-word language name is rejected: the inner space is not a letter. */
  lemma TwoWordLanguageRejected()
    ensures !ValidateLanguage("New York")
  {
    var l := "New York";
    var a := FirstNonSpace(l);
    var b := EndNonSpace(l);
    StripSpan(l);
    assert !IsSpace(l[0]) && !IsSpace(l[7]);
    assert a == 0 && b == 8;
    assert Strip(l)[3] == ' ';
  }
}
