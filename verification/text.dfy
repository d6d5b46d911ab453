/**
 * The slice of Python's `str` and `list` semantics the bot relies on:
 * whitespace splitting, joining, stripping, lower-casing, substring search,
 * splitting on a separator, slicing with negative indices and `str(int)`.
 *
 * Characters are modelled as ASCII: `IsSpace` is the ASCII part of
 * `str.isspace()`, `LowerChar` folds only 'A'..'Z' and `IsAlpha` accepts only
 * ASCII letters.
 */
module Text {

  /** The ASCII characters Python's `str.split()`, `str.strip()` and the regex class `\s` treat as whitespace. */
  predicate IsSpace(c: char) {
    c == ' ' || '\t' <= c <= '\r' || '\U{1C}' <= c <= '\U{1F}'
  }

  predicate AllSpace(s: string) {
    forall i | 0 <= i < |s| :: IsSpace(s[i])
  }

  /** A word as `str.split()` produces it: non-empty, with no whitespace. */
  predicate IsWord(w: string) {
    |w| > 0 && forall i | 0 <= i < |w| :: !IsSpace(w[i])
  }

  predicate AllWords(ws: seq<string>) {
    forall i | 0 <= i < |ws| :: IsWord(ws[i])
  }

  predicate IsAlpha(c: char) {
    'a' <= c <= 'z' || 'A' <= c <= 'Z'
  }

  function LowerChar(c: char): char {
    if 'A' <= c <= 'Z' then (c as int + 32) as char else c
  }

  /** `str.lower()` on ASCII text. */
  function Lower(s: string): (r: string)
    ensures |r| == |s|
    ensures forall i | 0 <= i < |s| :: r[i] == LowerChar(s[i])
  {
    seq(|s|, i requires 0 <= i < |s| => LowerChar(s[i]))
  }

  lemma LowerKeepsSpace(s: string)
    ensures AllSpace(Lower(s)) <==> AllSpace(s)
  {
    var l := Lower(s);
    forall i | 0 <= i < |s|
      ensures IsSpace(l[i]) <==> IsSpace(s[i])
    {
      assert l[i] == LowerChar(s[i]);
    }
  }

  // ---------------------------------------------------------------------------
  // str.split() and " ".join(...)
  // ---------------------------------------------------------------------------

  /** Length of the word that starts `s`. */
  function WordLength(s: string): (n: nat)
    requires |s| > 0 && !IsSpace(s[0])
    ensures 1 <= n <= |s|
    ensures forall i | 0 <= i < n :: !IsSpace(s[i])
    ensures n == |s| || IsSpace(s[n])
    decreases |s|
  {
    if |s| == 1 || IsSpace(s[1]) then 1 else 1 + WordLength(s[1..])
  }

  /** Python's `str.split()` with no argument: the maximal runs of non-space characters, in order. */
  function Split(s: string): (words: seq<string>)
    ensures AllWords(words)
    decreases |s|
  {
    if |s| == 0 then []
    else if IsSpace(s[0]) then Split(s[1..])
    else
      var n := WordLength(s);
      [s[..n]] + Split(s[n..])
  }

  /** Python's `sep.join(parts)`. */
  function Join(parts: seq<string>, sep: string): string
    decreases |parts|
  {
    if |parts| == 0 then ""
    else if |parts| == 1 then parts[0]
    else parts[0] + sep + Join(parts[1..], sep)
  }

  lemma {:induction false} SplitAllSpace(s: string)
    ensures Split(s) == [] <==> AllSpace(s)
    decreases |s|
  {
    if |s| > 0 {
      if IsSpace(s[0]) {
        SplitAllSpace(s[1..]);
        assert AllSpace(s) <==> AllSpace(s[1..]) by {
          if AllSpace(s[1..]) {
            forall i | 0 <= i < |s| ensures IsSpace(s[i]) {
              if i > 0 { assert s[i] == s[1..][i - 1]; }
            }
          }
        }
      }
    }
  }

  lemma {:induction false} WordLengthOfWord(w: string, t: string)
    requires IsWord(w)
    requires t == [] || IsSpace(t[0])
    ensures WordLength(w + t) == |w|
    decreases |w|
  {
    var s := w + t;
    if |w| == 1 {
    } else {
      assert s[1] == w[1];
      assert s[1..] == w[1..] + t;
      WordLengthOfWord(w[1..], t);
    }
  }

  /** A word followed by nothing or by whitespace is split off as one piece. */
  lemma SplitWordThen(w: string, t: string)
    requires IsWord(w)
    requires t == [] || IsSpace(t[0])
    ensures Split(w + t) == [w] + Split(t)
  {
    var s := w + t;
    WordLengthOfWord(w, t);
    assert s[..|w|] == w;
    assert s[|w|..] == t;
  }

  /** Round trip: splitting the single-space join of words gives the words back. */
  lemma {:induction false} SplitJoin(ws: seq<string>)
    requires AllWords(ws)
    ensures Split(Join(ws, " ")) == ws
    decreases |ws|
  {
    if |ws| == 0 {
    } else if |ws| == 1 {
      SplitWordThen(ws[0], []);
      assert ws[0] + [] == ws[0];
    } else {
      var rest := Join(ws[1..], " ");
      assert Join(ws, " ") == ws[0] + (" " + rest);
      SplitWordThen(ws[0], " " + rest);
      assert (" " + rest)[1..] == rest;
      SplitJoin(ws[1..]);
      assert ws == [ws[0]] + ws[1..];
    }
  }

  /** Joining at least one word never gives a blank string. */
  lemma JoinWordsNotBlank(ws: seq<string>, sep: string)
    requires |ws| > 0 && AllWords(ws)
    ensures !AllSpace(Join(ws, sep))
  {
    var j := Join(ws, sep);
    if |ws| > 1 {
      assert j == ws[0] + (sep + Join(ws[1..], sep));
    }
    assert j[0] == ws[0][0];
  }

  // ---------------------------------------------------------------------------
  // str.strip()
  // ---------------------------------------------------------------------------

  /** Index of the first non-space character, or |s| when there is none. */
  function FirstNonSpace(s: string): (a: nat)
    ensures a <= |s|
    ensures forall i | 0 <= i < a :: IsSpace(s[i])
    ensures a < |s| ==> !IsSpace(s[a])
    decreases |s|
  {
    if |s| == 0 || !IsSpace(s[0]) then 0 else 1 + FirstNonSpace(s[1..])
  }

  /** One past the last non-space character, or 0 when there is none. */
  function EndNonSpace(s: string): (b: nat)
    ensures b <= |s|
    ensures forall i | b <= i < |s| :: IsSpace(s[i])
    ensures b > 0 ==> !IsSpace(s[b - 1])
    decreases |s|
  {
    if |s| == 0 || !IsSpace(s[|s| - 1]) then |s| else EndNonSpace(s[..|s| - 1])
  }

  /** Python's `str.strip()`: drop leading and trailing whitespace. */
  function Strip(s: string): (r: string)
    ensures |r| <= |s|
    ensures r == "" <==> AllSpace(s)
    ensures r != "" ==> !IsSpace(r[0]) && !IsSpace(r[|r| - 1])
  {
    var a := FirstNonSpace(s);
    var b := EndNonSpace(s);
    if a < b then s[a..b] else ""
  }

  /** Strip keeps exactly the span between the first and the last non-space character. */
  lemma StripSpan(s: string)
    ensures FirstNonSpace(s) < EndNonSpace(s) ==> Strip(s) == s[FirstNonSpace(s)..EndNonSpace(s)]
    ensures FirstNonSpace(s) >= EndNonSpace(s) ==> Strip(s) == "" && AllSpace(s)
  {
  }

  // ---------------------------------------------------------------------------
  // Substring search: `needle in hay` and `str.startswith`
  // ---------------------------------------------------------------------------

  predicate StartsWith(s: string, prefix: string) {
    |prefix| <= |s| && s[..|prefix|] == prefix
  }

  predicate OccursAt(hay: string, needle: string, i: int) {
    0 <= i && i + |needle| <= |hay| && hay[i..i + |needle|] == needle
  }

  /** Python's `needle in hay` for strings. */
  predicate Contains(hay: string, needle: string)
    decreases |hay|
  {
    StartsWith(hay, needle) || (|hay| > 0 && Contains(hay[1..], needle))
  }

  /** `Contains` holds exactly when the needle occurs at some index. */
  lemma {:induction false} ContainsIff(hay: string, needle: string)
    ensures Contains(hay, needle) <==> exists i :: OccursAt(hay, needle, i)
    decreases |hay|
  {
    if StartsWith(hay, needle) {
      assert OccursAt(hay, needle, 0);
    } else if |hay| > 0 {
      ContainsIff(hay[1..], needle);
      if exists i :: OccursAt(hay[1..], needle, i) {
        var i :| OccursAt(hay[1..], needle, i);
        assert hay[1..][i..i + |needle|] == hay[i + 1..i + 1 + |needle|];
        assert OccursAt(hay, needle, i + 1);
      }
      if exists i :: OccursAt(hay, needle, i) {
        var i :| OccursAt(hay, needle, i);
        assert i != 0;
        assert hay[1..][i - 1..i - 1 + |needle|] == hay[i..i + |needle|];
        assert OccursAt(hay[1..], needle, i - 1);
      }
    }
  }

  /** A needle whose first character never appears in the haystack does not occur in it. */
  lemma NotContainsFirstChar(hay: string, needle: string)
    requires |needle| > 0 && needle[0] !in hay
    ensures !Contains(hay, needle)
  {
    ContainsIff(hay, needle);
    forall i ensures !OccursAt(hay, needle, i) {
      if 0 <= i && i + |needle| <= |hay| {
        assert hay[i..i + |needle|][0] == hay[i];
      }
    }
  }

  // ---------------------------------------------------------------------------
  // str.split(sep) with an explicit separator
  // ---------------------------------------------------------------------------

  /** Scan `s` from index `i`; the current piece started at `start`. */
  function SplitFrom(s: string, sep: string, start: nat, i: nat): (pieces: seq<string>)
    requires |sep| > 0
    requires start <= i <= |s|
    ensures |pieces| >= 1
    decreases |s| - i
  {
    if i + |sep| > |s| then [s[start..]]
    else if s[i..i + |sep|] == sep then [s[start..i]] + SplitFrom(s, sep, i + |sep|, i + |sep|)
    else SplitFrom(s, sep, start, i + 1)
  }

  /** Python's `s.split(sep)`: the pieces between non-overlapping occurrences of `sep`, leftmost first. */
  function SplitOn(s: string, sep: string): (pieces: seq<string>)
    requires |sep| > 0
    ensures |pieces| >= 1
  {
    SplitFrom(s, sep, 0, 0)
  }

  /** Scanning over characters that are not the (one-character) separator does not cut. */
  lemma {:induction false} SplitFromSkips(s: string, c: char, start: nat, i: nat, j: nat)
    requires start <= i <= j <= |s|
    requires forall k | i <= k < j :: s[k] != c
    ensures SplitFrom(s, [c], start, i) == SplitFrom(s, [c], start, j)
    decreases j - i
  {
    if i < j {
      assert s[i..i + 1] == [s[i]];
      SplitFromSkips(s, c, start, i + 1, j);
    }
  }

  lemma {:induction false} SplitFromJoin(s: string, c: char, start: nat, parts: seq<string>)
    requires start <= |s|
    requires |parts| >= 1
    requires s[start..] == Join(parts, [c])
    requires forall k | 0 <= k < |parts| :: c !in parts[k]
    ensures SplitFrom(s, [c], start, start) == parts
    decreases |parts|
  {
    var p := parts[0];
    var e := start + |p|;
    if |parts| == 1 {
      assert s[start..] == p;
      forall k | start <= k < |s| ensures s[k] != c {
        assert s[k] == p[k - start];
      }
      SplitFromSkips(s, c, start, start, |s|);
    } else {
      var rest := Join(parts[1..], [c]);
      assert s[start..] == p + [c] + rest;
      assert e < |s|;
      forall k | start <= k < e ensures s[k] != c {
        assert s[k] == s[start..][k - start] == p[k - start];
      }
      SplitFromSkips(s, c, start, start, e);
      assert s[e] == s[start..][|p|] == c;
      assert s[e..e + 1] == [c];
      assert s[start..e] == p;
      assert s[e + 1..] == rest;
      SplitFromJoin(s, c, e + 1, parts[1..]);
      assert parts == [p] + parts[1..];
    }
  }

  /** Round trip: splitting on a character undoes a join on it, when no part contains the character. */
  lemma SplitOnJoin(parts: seq<string>, c: char)
    requires |parts| >= 1
    requires forall k | 0 <= k < |parts| :: c !in parts[k]
    ensures SplitOn(Join(parts, [c]), [c]) == parts
  {
    var s := Join(parts, [c]);
    assert s[0..] == s;
    SplitFromJoin(s, c, 0, parts);
  }

  // ---------------------------------------------------------------------------
  // Python slicing and str(int)
  // ---------------------------------------------------------------------------

  /** How Python normalises a slice bound: negative counts from the end, then clamp to [0, len]. */
  function ClampIndex(k: int, len: nat): (r: nat)
    ensures r <= len
    ensures 0 <= k <= len ==> r == k
    ensures k > len ==> r == len
  {
    if k < 0 then (if k + len < 0 then 0 else k + len)
    else if k > len then len
    else k
  }

  /** Python's `s[i:j]`. */
  function Slice<T>(s: seq<T>, i: int, j: int): seq<T> {
    var a := ClampIndex(i, |s|);
    var b := ClampIndex(j, |s|);
    if a < b then s[a..b] else []
  }

  function DigitChar(d: nat): (c: char)
    requires d < 10
    ensures '0' <= c <= '9'
  {
    "0123456789"[d]
  }

  /** Decimal digits of a natural number, as `str(n)` prints them. */
  function NatToString(n: nat): (r: string)
    ensures |r| >= 1
    ensures forall i | 0 <= i < |r| :: '0' <= r[i] <= '9'
    ensures n >= 10 ==> |r| >= 2
    decreases n
  {
    if n < 10 then [DigitChar(n)] else NatToString(n / 10) + [DigitChar(n % 10)]
  }

  /** Python's `str(i)` for an integer. */
  function IntToString(i: int): (r: string)
    ensures |r| >= 1
  {
    if i < 0 then "-" + NatToString(-i) else NatToString(i)
  }

  lemma DigitCharInjective(a: nat, b: nat)
    requires a < 10 && b < 10
    requires DigitChar(a) == DigitChar(b)
    ensures a == b
  {
  }

  lemma {:induction false} NatToStringInjective(m: nat, n: nat)
    requires NatToString(m) == NatToString(n)
    ensures m == n
    decreases m
  {
    var s := NatToString(m);
    if m < 10 && n < 10 {
      DigitCharInjective(m, n);
    } else if m >= 10 && n >= 10 {
      var pm := NatToString(m / 10);
      var pn := NatToString(n / 10);
      assert s == pm + [DigitChar(m % 10)] == pn + [DigitChar(n % 10)];
      assert |pm| == |pn|;
      assert s[|s| - 1] == DigitChar(m % 10) == DigitChar(n % 10);
      DigitCharInjective(m % 10, n % 10);
      assert pm == s[..|s| - 1] == pn;
      NatToStringInjective(m / 10, n / 10);
    }
  }

  /** Distinct integers print differently, so `str(user_id)` keys never collide for integer ids. */
  lemma {:induction false} IntToStringInjective(a: int, b: int)
    requires IntToString(a) == IntToString(b)
    ensures a == b
  {
    SignFirst(a);
    SignFirst(b);
    if a < 0 {
      var m: nat, n: nat := -a, -b;
      assert NatToString(m) == NatToString(n) by {
        SameAfterSign(NatToString(m), NatToString(n));
      }
      NatToStringInjective(m, n);
    } else {
      assert NatToString(a) == NatToString(b);
      NatToStringInjective(a, b);
    }
  }

  lemma {:induction false} SameAfterSign(x: string, y: string)
    requires "-" + x == "-" + y
    ensures x == y
  {
    assert x == ("-" + x)[1..];
    assert y == ("-" + y)[1..];
  }

  /** The printed form starts with a minus sign exactly for negative numbers. */
  lemma {:induction false} SignFirst(i: int)
    ensures IntToString(i)[0] == '-' <==> i < 0
  {
    if i >= 0 {
      var r := NatToString(i);
      assert '0' <= r[0] <= '9';
    }
  }

}
