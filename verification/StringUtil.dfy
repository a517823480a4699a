/** Destructive extraction from string views (include/string_util.h). */
module StringUtil {
  const CRLF := "\r\n"

  predicate StartsWithCrlf(s: string) {
    |s| >= 2 && s[0] == '\r' && s[1] == '\n'
  }

  predicate Ends(c: char, delim: char) {
    c == delim || c == '\r' || c == '\n'
  }

  /** The first index from `i` on whose character is not `c`, or the length. */
  function SkipChar(s: string, c: char, i: nat): (r: nat)
    requires i <= |s|
    ensures i <= r <= |s| && (r < |s| ==> s[r] != c)
    ensures forall j :: i <= j < r ==> s[j] == c
    decreases |s| - i
  {
    if i == |s| || s[i] != c then i else SkipChar(s, c, i + 1)
  }

  /** The first index from `i` on that ends a word, or the length. */
  function FindEnd(s: string, delim: char, i: nat): (r: nat)
    requires i <= |s|
    ensures i <= r <= |s| && (r < |s| ==> Ends(s[r], delim))
    ensures forall j :: i <= j < r ==> !Ends(s[j], delim)
    decreases |s| - i
  {
    if i == |s| || Ends(s[i], delim) then i else FindEnd(s, delim, i + 1)
  }

  /** Where a word starts: behind leading `delim`s, or at 0 if there is nothing else. */
  function WordStart(s: string, delim: char): (r: nat)
    ensures r <= |s|
  {
    var i := SkipChar(s, delim, 0);
    if i == |s| then 0 else i
  }

  /** What an extraction returns and what it leaves of the view. */
  datatype Extracted = Extracted(word: string, rest: string)

  function Word(s: string, delim: char): (r: Extracted)
    ensures |r.rest| <= |s| && (r.word != "" ==> |r.rest| < |s|)
  {
    if StartsWithCrlf(s) then Extracted("", s)
    else
      var start := WordStart(s, delim);
      var end := FindEnd(s, delim, start);
      Extracted(s[start..end], s[SkipChar(s, delim, end)..])
  }

  function UntilNewline(s: string): (r: Extracted)
    ensures |r.rest| <= |s|
  {
    if StartsWithCrlf(s) then Extracted("", s)
    else
      var start := WordStart(s, ' ');
      var end := FindEnd(s, '\r', start);
      Extracted(s[start..end], s[end..])
  }

  function AfterNewline(s: string): (r: string)
    ensures |r| <= |s|
  {
    if StartsWithCrlf(s) then s[2..] else s
  }

  /** A `std::string_view` taken by reference. */
  class StringView {
    var text: string

    constructor (text: string)
      ensures this.text == text
    {
      this.text := text;
    }

    method ExtractWord(delim: char) returns (word: string)
      modifies this
      ensures Extracted(word, text) == Word(old(text), delim)
    {
      if |text| >= 2 && text[0] == '\r' && text[1] == '\n' {
        return "";
      }
      var start := SkipChar(text, delim, 0);
      if start == |text| {
        start := 0;
      }
      var end := FindEnd(text, delim, start);
      word := text[start..end];
      text := text[SkipChar(text, delim, end)..];
    }

    method ExtractUntilNewline() returns (line: string)
      modifies this
      ensures Extracted(line, text) == UntilNewline(old(text))
    {
      if |text| >= 2 && text[0] == '\r' && text[1] == '\n' {
        return "";
      }
      var start := SkipChar(text, ' ', 0);
      if start == |text| {
        start := 0;
      }
      var end := FindEnd(text, '\r', start);
      line := text[start..end];
      text := text[end..];
    }

    method ExtractNewline() returns (found: bool)
      modifies this
      ensures found <==> StartsWithCrlf(old(text))
      ensures text == AfterNewline(old(text))
    {
      if |text| < 2 || text[0] != '\r' || text[1] != '\n' {
        return false;
      }
      text := text[2..];
      return true;
    }
  }

  // ---------------------------------------------------------------- laws

  /** A token that an extraction with this delimiter returns whole. */
  ghost predicate IsToken(t: string, delim: char) {
    t != "" && forall i :: 0 <= i < |t| ==> !Ends(t[i], delim)
  }

  lemma FindEndBehind(t: string, tail: string, delim: char, from: nat)
    requires from <= |t| && (forall i :: from <= i < |t| ==> !Ends(t[i], delim))
    requires tail == "" || Ends(tail[0], delim)
    ensures FindEnd(t + tail, delim, from) == |t|
  {
    var s := t + tail;
    assert forall i :: from <= i < |t| ==> s[i] == t[i];
    assert tail != "" ==> s[|t|] == tail[0];
  }

  /** A token followed by something that ends it comes out whole; the delimiters behind it are
      consumed with it. */
  lemma WordIsToken(t: string, tail: string, delim: char)
    requires IsToken(t, delim) && (tail == "" || Ends(tail[0], delim))
    ensures Word(t + tail, delim) == Extracted(t, tail[SkipChar(tail, delim, 0)..])
  {
    var s := t + tail;
    assert s[0] == t[0] && !Ends(t[0], delim);
    assert SkipChar(s, delim, 0) == 0 == WordStart(s, delim);
    FindEndBehind(t, tail, delim, 0);
    SkipBehind(t, tail, delim);
  }

  lemma SkipBehind(t: string, tail: string, c: char)
    ensures SkipChar(t + tail, c, |t|) == |t| + SkipChar(tail, c, 0)
    ensures (t + tail)[SkipChar(t + tail, c, |t|)..] == tail[SkipChar(tail, c, 0)..]
  {
    var s := t + tail;
    var a, b := SkipChar(s, c, |t|), SkipChar(tail, c, 0);
    assert b < |tail| ==> s[|t| + b] == tail[b];
    assert a < |s| ==> s[a] == tail[a - |t|];
    assert s[|t| + b..] == tail[b..];
  }

  /** And so are the delimiters in front of it. */
  lemma {:induction false} DelimitersInFront(lead: string, t: string, tail: string, delim: char)
    requires forall i :: 0 <= i < |lead| ==> lead[i] == delim
    requires IsToken(t, delim) && (tail == "" || Ends(tail[0], delim))
    ensures Word(lead + (t + tail), delim) == Extracted(t, tail[SkipChar(tail, delim, 0)..])
  {
    var s, n := lead + (t + tail), |lead| + |t|;
    StartBehind(lead, t + tail, delim);
    TokenEnd(lead, t, tail, delim);
    RestBehind(lead + t, tail, s, n, delim);
    WordBetween(s, delim, |lead|, n);
  }

  lemma {:induction false} WordBetween(s: string, delim: char, start: nat, end: nat)
    requires !StartsWithCrlf(s) && WordStart(s, delim) == start && FindEnd(s, delim, start) == end
    ensures Word(s, delim) == Extracted(s[start..end], s[SkipChar(s, delim, end)..])
  {
  }

  lemma {:induction false} RestBehind(front: string, tail: string, s: string, n: nat, delim: char)
    requires s == front + tail && n == |front|
    ensures s[SkipChar(s, delim, n)..] == tail[SkipChar(tail, delim, 0)..]
  {
    SkipBehind(front, tail, delim);
  }

  lemma StartBehind(lead: string, rest: string, delim: char)
    requires forall i :: 0 <= i < |lead| ==> lead[i] == delim
    requires rest != "" && !Ends(rest[0], delim)
    ensures WordStart(lead + rest, delim) == |lead| && !StartsWithCrlf(lead + rest)
  {
    var s := lead + rest;
    assert s[|lead|] == rest[0];
    assert forall i :: 0 <= i < |lead| ==> s[i] == delim;
  }

  lemma TokenEnd(lead: string, t: string, tail: string, delim: char)
    requires IsToken(t, delim) && (tail == "" || Ends(tail[0], delim))
    ensures var s := lead + (t + tail);
      FindEnd(s, delim, |lead|) == |lead| + |t| && s[|lead|..|lead| + |t|] == t
  {
    var s := lead + (t + tail);
    assert forall i :: 0 <= i < |t| ==> s[|lead| + i] == t[i];
    assert tail != "" ==> s[|lead| + |t|] == tail[0];
  }

  /** A token and one delimiter in front of something else are taken off together. */
  lemma WordBeforeDelimiter(t: string, delim: char, rest: string)
    requires IsToken(t, delim) && (rest == "" || rest[0] != delim)
    ensures Word(t + ([delim] + rest), delim) == Extracted(t, rest)
  {
    var tail := [delim] + rest;
    WordIsToken(t, tail, delim);
    assert rest != "" ==> tail[1] == rest[0];
    assert SkipChar(tail, delim, 0) == SkipChar(tail, delim, 1) == 1;
    assert tail[1..] == rest;
  }

  /** A line that does not start with a blank comes out whole, up to its newline. */
  lemma LineIsValue(v: string, tail: string)
    requires forall i :: 0 <= i < |v| ==> v[i] != '\r' && v[i] != '\n'
    requires v != "" ==> v[0] != ' '
    requires StartsWithCrlf(tail)
    ensures UntilNewline(v + tail) == Extracted(v, tail)
  {
    var s := v + tail;
    if v == "" {
      assert s == tail;
    } else {
      assert s[0] == v[0];
      assert WordStart(s, ' ') == 0;
      assert forall i :: 0 <= i < |v| ==> !Ends(v[i], '\r');
      FindEndBehind(v, tail, '\r', 0);
    }
  }
}
