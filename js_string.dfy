/**
 The JavaScript string operations the parser relies on: `includes`, `startsWith`,
 `trim` and `split(/\s+/)`, over strings of code points, together with an
 independent count of whitespace-separated words that the word counter is
 proved against.
 */
module JsString {

  /** The characters matched by `\s` in a JavaScript regular expression
      (WhiteSpace and LineTerminator); `String.prototype.trim` strips the same set. */
  predicate IsSpace(c: char)
  {
    c == ' ' || ('\t' <= c <= '\r') || c == '\U{A0}' || c == '\U{1680}'
    || ('\U{2000}' <= c <= '\U{200A}') || c == '\U{2028}' || c == '\U{2029}'
    || c == '\U{202F}' || c == '\U{205F}' || c == '\U{3000}' || c == '\U{FEFF}'
  }

  predicate NoSpace(s: string)
  {
    forall i :: 0 <= i < |s| ==> !IsSpace(s[i])
  }

  /** `s.startsWith(prefix)` */
  predicate StartsWith(s: string, prefix: string)
  {
    |prefix| <= |s| && s[..|prefix|] == prefix
  }

  /** `s.includes(sub)` */
  predicate Includes(s: string, sub: string)
    decreases |s|
  {
    StartsWith(s, sub) || (s != [] && Includes(s[1..], sub))
  }

  /** Drops leading whitespace; the result does not start with whitespace. */
  function TrimStart(s: string): (r: string)
    ensures |r| <= |s|
    ensures r == [] || !IsSpace(r[0])
  {
    if s != [] && IsSpace(s[0]) then TrimStart(s[1..]) else s
  }

  /** Drops trailing whitespace: the result is a prefix that does not end with whitespace. */
  function TrimEnd(s: string): (r: string)
    ensures |r| <= |s| && r == s[..|r|]
    ensures r == [] || !IsSpace(r[|r| - 1])
  {
    if s != [] && IsSpace(s[|s| - 1]) then TrimEnd(s[..|s| - 1]) else s
  }

  /** `TrimStart` keeps a suffix and drops only whitespace. */
  lemma {:induction false} TrimStartDropsOnlySpace(s: string)
    ensures TrimStart(s) == s[|s| - |TrimStart(s)|..]
    ensures forall i :: 0 <= i < |s| - |TrimStart(s)| ==> IsSpace(s[i])
    decreases |s|
  {
    if s != [] && IsSpace(s[0]) {
      TrimStartDropsOnlySpace(s[1..]);
      assert forall i :: 1 <= i < |s| ==> s[1..][i - 1] == s[i];
    }
  }

  /** `TrimEnd` drops only whitespace. */
  lemma {:induction false} TrimEndDropsOnlySpace(s: string)
    ensures forall i :: |TrimEnd(s)| <= i < |s| ==> IsSpace(s[i])
    decreases |s|
  {
    if s != [] && IsSpace(s[|s| - 1]) {
      TrimEndDropsOnlySpace(s[..|s| - 1]);
    }
  }

  /** `s.trim()` */
  function Trim(s: string): (r: string)
    ensures r == [] || (!IsSpace(r[0]) && !IsSpace(r[|r| - 1]))
  {
    TrimEnd(TrimStart(s))
  }

  /** `s.split(/\s+/)`: the pieces between maximal runs of whitespace. Like
      JavaScript, the empty string splits into one empty piece, and a leading
      or trailing run yields an empty piece at that end. */
  function SplitOnSpace(s: string): (r: seq<string>)
    ensures |r| >= 1
    ensures forall k :: 0 <= k < |r| ==> NoSpace(r[k])
    decreases |s|
  {
    if s == [] then [""]
    else if IsSpace(s[0]) then [""] + SplitOnSpace(TrimStart(s[1..]))
    else
      var rest := SplitOnSpace(s[1..]);
      [[s[0]] + rest[0]] + rest[1..]
  }

  /** The number of places in `s` where a non-whitespace character follows
      whitespace; `afterSpace` says whether the text before `s` ended in
      whitespace (or is the start of the text). */
  function WordStarts(s: string, afterSpace: bool): nat
  {
    if s == [] then 0
    else (if !IsSpace(s[0]) && afterSpace then 1 else 0) + WordStarts(s[1..], IsSpace(s[0]))
  }

  /** The number of places in `s` where whitespace follows a non-whitespace character. */
  function RunStarts(s: string, afterSpace: bool): nat
  {
    if s == [] then 0
    else (if IsSpace(s[0]) && !afterSpace then 1 else 0) + RunStarts(s[1..], IsSpace(s[0]))
  }

  /** The number of whitespace-separated words in `s`. */
  function Words(s: string): nat
  {
    WordStarts(s, true)
  }

  /** Whether the text up to and including `s` ends in whitespace. */
  predicate EndsAfterSpace(s: string, afterSpace: bool)
  {
    if s == [] then afterSpace else IsSpace(s[|s| - 1])
  }

  lemma {:induction false} RunStartsAfterSpace(s: string)
    ensures RunStarts(s, true) == RunStarts(TrimStart(s), false)
    decreases |s|
  {
    if s != [] && IsSpace(s[0]) {
      RunStartsAfterSpace(s[1..]);
    }
  }

  /** `split(/\s+/)` yields one piece more than there are runs of whitespace. */
  lemma {:induction false} SplitCount(s: string)
    ensures |SplitOnSpace(s)| == 1 + RunStarts(s, false)
    decreases |s|
  {
    if s == [] {
    } else if IsSpace(s[0]) {
      SplitCount(TrimStart(s[1..]));
      RunStartsAfterSpace(s[1..]);
    } else {
      SplitCount(s[1..]);
    }
  }

  /** In text that does not end in whitespace, words and runs of whitespace alternate. */
  lemma {:induction false} WordsAlternateWithRuns(s: string, afterSpace: bool)
    requires s != [] && !IsSpace(s[|s| - 1])
    ensures WordStarts(s, afterSpace) == RunStarts(s, afterSpace) + (if afterSpace then 1 else 0)
    decreases |s|
  {
    if |s| > 1 {
      WordsAlternateWithRuns(s[1..], IsSpace(s[0]));
    }
  }

  lemma {:induction false} WordStartsTrimStart(s: string)
    ensures WordStarts(s, true) == WordStarts(TrimStart(s), true)
    decreases |s|
  {
    if s != [] && IsSpace(s[0]) {
      WordStartsTrimStart(s[1..]);
    }
  }

  lemma {:induction false} WordStartsSnoc(s: string, c: char, afterSpace: bool)
    ensures WordStarts(s + [c], afterSpace)
         == WordStarts(s, afterSpace) + (if !IsSpace(c) && EndsAfterSpace(s, afterSpace) then 1 else 0)
    decreases |s|
  {
    if s == [] {
      assert s + [c] == [c];
    } else {
      assert (s + [c])[1..] == s[1..] + [c];
      WordStartsSnoc(s[1..], c, IsSpace(s[0]));
      if |s| > 1 {
        assert s[1..][|s| - 2] == s[|s| - 1];
      }
    }
  }

  lemma {:induction false} WordStartsTrimEnd(s: string, afterSpace: bool)
    ensures WordStarts(s, afterSpace) == WordStarts(TrimEnd(s), afterSpace)
    decreases |s|
  {
    if s != [] && IsSpace(s[|s| - 1]) {
      var init := s[..|s| - 1];
      assert s == init + [s[|s| - 1]];
      WordStartsSnoc(init, s[|s| - 1], afterSpace);
      WordStartsTrimEnd(init, afterSpace);
    }
  }

  /** Trimming does not change the number of words. */
  lemma WordsOfTrim(s: string)
    ensures Words(Trim(s)) == Words(s)
  {
    WordStartsTrimStart(s);
    WordStartsTrimEnd(TrimStart(s), true);
  }

  /** `s.trim().split(/\s+/).length` is the number of words of `s`, except that
      text with no words at all still splits into one (empty) piece. */
  lemma SplitTrimLength(s: string)
    ensures |SplitOnSpace(Trim(s))| == if Words(s) == 0 then 1 else Words(s)
  {
    var u := Trim(s);
    WordsOfTrim(s);
    if u != [] {
      SplitCount(u);
      WordsAlternateWithRuns(u, false);
      WordsAlternateWithRuns(u, true);
    }
  }
}
