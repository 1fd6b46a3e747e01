/** NUL-terminated strings in a character buffer, and the two quoting codecs of
    libdm-string.c: a quote character placed before selected characters, and its
    removal in place. */
module CStrings {

  const NUL: char := '\0'

  /** Text that a C string can carry. */
  predicate IsText(s: string) {
    NUL !in s
  }

  /** The buffer holds the string s, terminated, from index at on. */
  ghost predicate Holds(buf: array<char>, at: nat, s: string)
    reads buf
  {
    && IsText(s)
    && at + |s| < buf.Length
    && (forall k :: at <= k < at + |s| ==> buf[k] == s[k - at])
    && buf[at + |s|] == NUL
  }
}

module StringQuoting {
  import opened CStrings

  /** What _quote_characters appends for src. */
  function Quote(src: string, orig: char, quote: char, quoteQuote: bool): string {
    if src == [] then []
    else
      (if src[0] == orig || (src[0] == quote && quoteQuote) then [quote, src[0]] else [src[0]])
      + Quote(src[1..], orig, quote, quoteQuote)
  }

  /** What _unquote_one_character leaves of s: every quote character that is
      followed by orig or by a quote character disappears. */
  function Unquote(s: string, orig: char, quote: char): string {
    if s == [] then []
    else if s[0] == quote && |s| > 1 && (s[1] == orig || s[1] == quote) then
      [s[1]] + Unquote(s[2..], orig, quote)
    else
      [s[0]] + Unquote(s[1..], orig, quote)
  }

  function Escape(s: string): string { Quote(s, '"', '\\', true) }

  function Unescape(s: string): string { Unquote(s, '"', '\\') }

  lemma {:induction false} QuoteKeepsText(s: string, orig: char, quote: char, qq: bool)
    requires IsText(s) && quote != NUL
    ensures IsText(Quote(s, orig, quote, qq))
  {
    if s != [] {
      QuoteKeepsText(s[1..], orig, quote, qq);
    }
  }

  /** A quote character in front of anything else stays. */
  lemma {:induction false} OtherQuotesStay(s: string, orig: char, quote: char)
    requires forall i :: 0 <= i < |s| - 1 && s[i] == quote ==> s[i + 1] != orig && s[i + 1] != quote
    ensures Unquote(s, orig, quote) == s
  {
    if s != [] {
      forall i | 0 <= i < |s[1..]| - 1 && s[1..][i] == quote ensures s[1..][i + 1] != orig && s[1..][i + 1] != quote {
        assert s[i + 1] == quote && s[i + 2] == s[1..][i + 1];
      }
      OtherQuotesStay(s[1..], orig, quote);
    }
  }

  lemma {:induction false} UnquoteShrinks(s: string, orig: char, quote: char)
    ensures |Unquote(s, orig, quote)| <= |s|
    ensures IsText(s) ==> IsText(Unquote(s, orig, quote))
  {
    if s == [] {
    } else if s[0] == quote && |s| > 1 && (s[1] == orig || s[1] == quote) {
      UnquoteShrinks(s[2..], orig, quote);
    } else {
      UnquoteShrinks(s[1..], orig, quote);
    }
  }

  /** Removing the quoting restores every string, whatever the two characters,
      when the quote character is itself quoted. */
  lemma {:induction false} UnquoteUndoesQuote(s: string, orig: char, quote: char)
    ensures Unquote(Quote(s, orig, quote, true), orig, quote) == s
  {
    if s != [] {
      var rest := Quote(s[1..], orig, quote, true);
      UnquoteUndoesQuote(s[1..], orig, quote);
      if s[0] == orig || s[0] == quote {
        assert Quote(s, orig, quote, true) == [quote, s[0]] + rest;
        assert ([quote, s[0]] + rest)[2..] == rest;
      } else {
        assert Quote(s, orig, quote, true) == [s[0]] + rest;
        assert ([s[0]] + rest)[1..] == rest;
      }
    }
  }

  /** Number of characters of s among c1 and c2 (_count_chars). */
  function Occurrences(s: string, c1: char, c2: char): nat {
    if s == [] then 0 else (if s[0] == c1 || s[0] == c2 then 1 else 0) + Occurrences(s[1..], c1, c2)
  }

  lemma {:induction false} OccurrencesSnoc(s: string, k: nat, c1: char, c2: char)
    requires k < |s|
    ensures Occurrences(s[..k + 1], c1, c2)
         == Occurrences(s[..k], c1, c2) + (if s[k] == c1 || s[k] == c2 then 1 else 0)
    decreases k
  {
    if k == 0 {
      assert s[..1][1..] == [];
    } else {
      assert s[..k + 1][1..] == s[1..][..k];
      assert s[..k][1..] == s[1..][..k - 1];
      OccurrencesSnoc(s[1..], k - 1, c1, c2);
    }
  }

  method CountChars(s: string, c1: char, c2: char) returns (len: nat, count: nat)
    ensures len == |s| && count == Occurrences(s, c1, c2)
  {
    len, count := 0, 0;
    while len < |s|
      invariant len <= |s|
      invariant count == Occurrences(s[..len], c1, c2)
    {
      OccurrencesSnoc(s, len, c1, c2);
      if s[len] == c1 || s[len] == c2 {
        count := count + 1;
      }
      len := len + 1;
    }
    assert s[..len] == s;
  }

  lemma {:induction false} QuoteLength(s: string, orig: char, quote: char, qq: bool)
    ensures |Quote(s, orig, quote, qq)|
         == |s| + Occurrences(s, orig, if qq then quote else orig)
  {
    if s != [] {
      QuoteLength(s[1..], orig, quote, qq);
    }
  }

  /** dm_escaped_len: exactly the room the escaped string and its terminator take. */
  method EscapedLen(s: string) returns (n: nat)
    ensures n == |Escape(s)| + 1
  {
    var len, count := CountChars(s, '"', '\\');
    QuoteLength(s, '"', '\\', true);
    n := 1 + len + count;
  }

  /** _quote_characters: everything around the quoted text keeps its old value. */
  method QuoteCharacters(buf: array<char>, at: nat, src: string, orig: char, quote: char, quoteQuote: bool)
    returns (end: nat)
    requires at + |Quote(src, orig, quote, quoteQuote)| <= buf.Length
    modifies buf
    ensures end == at + |Quote(src, orig, quote, quoteQuote)|
    ensures buf[at..end] == Quote(src, orig, quote, quoteQuote)
    ensures forall k :: 0 <= k < at || end <= k < buf.Length ==> buf[k] == old(buf[k])
  {
    hide Quote;
    end := at;
    var i := 0;
    ghost var all := Quote(src, orig, quote, quoteQuote);
    assert src[0..] == src && all[0..] == all;
    while i < |src|
      invariant i <= |src| && at <= end <= at + |all|
      invariant all[end - at..] == Quote(src[i..], orig, quote, quoteQuote)
      invariant forall k :: at <= k < end ==> buf[k] == all[k - at]
      invariant forall k :: 0 <= k < at || end <= k < buf.Length ==> buf[k] == old(buf[k])
    {
      ghost var step := QuoteStep(src, i, all, end - at, orig, quote, quoteQuote);
      if src[i] == orig || (src[i] == quote && quoteQuote) {
        buf[end] := quote;
        end := end + 1;
      }
      buf[end] := src[i];
      end := end + 1;
      i := i + 1;
    }
    QuoteEnd(src, all, end - at, orig, quote, quoteQuote);
  }

  lemma QuoteEnd(src: string, all: string, n: nat, orig: char, quote: char, qq: bool)
    requires n <= |all| && all[n..] == Quote(src[|src|..], orig, quote, qq)
    ensures n == |all|
  {
  }

  /** One character of the source accounts for the next one or two of the output. */
  lemma QuoteStep(src: string, i: nat, all: string, n: nat, orig: char, quote: char, qq: bool) returns (step: nat)
    requires i < |src| && n <= |all| && all[n..] == Quote(src[i..], orig, quote, qq)
    ensures step == if src[i] == orig || (src[i] == quote && qq) then 2 else 1
    ensures n + step <= |all| && all[n + step - 1] == src[i] && (step == 2 ==> all[n] == quote)
    ensures all[n + step..] == Quote(src[i + 1..], orig, quote, qq)
  {
    step := if src[i] == orig || (src[i] == quote && qq) then 2 else 1;
    assert src[i..][1..] == src[i + 1..];
    var head := if step == 2 then [quote, src[i]] else [src[i]];
    assert all[n..] == head + Quote(src[i + 1..], orig, quote, qq);
    assert all[n + step..] == all[n..][step..];
    assert all[n] == all[n..][0];
    assert all[n + step - 1] == all[n..][step - 1];
  }

  /** The unread part of the buffer, from index src on, is still the old text. */
  ghost predicate Unread(buf: array<char>, at: nat, text: string, src: nat)
    reads buf
  {
    && at <= src <= at + |text| < buf.Length
    && (forall k :: src <= k < at + |text| ==> buf[k] == text[k - at])
    && buf[at + |text|] == NUL
  }

  /** One step of the unquoting scan over text from offset k. */
  lemma UnquoteStep(text: string, k: nat, goal: string, n: nat, orig: char, quote: char)
    requires k < |text| && n <= |goal| && goal[n..] == Unquote(text[k..], orig, quote)
    ensures n < |goal|
    ensures if text[k] == quote && k + 1 < |text| && (text[k + 1] == orig || text[k + 1] == quote)
            then goal[n] == text[k + 1] && goal[n + 1..] == Unquote(text[k + 2..], orig, quote)
            else goal[n] == text[k] && goal[n + 1..] == Unquote(text[k + 1..], orig, quote)
  {
    assert text[k..][1..] == text[k + 1..];
    assert k + 1 < |text| ==> text[k..][2..] == text[k + 2..] && text[k..][1] == text[k + 1];
    assert goal[n] == goal[n..][0] && goal[n + 1..] == goal[n..][1..];
  }

  lemma UnquoteEnd(text: string, goal: string, n: nat, orig: char, quote: char)
    requires n <= |goal| && goal[n..] == Unquote(text[|text|..], orig, quote)
    ensures n == |goal|
  {
  }

  /** The outer loop of _unquote_one_character: looks for the first quoted
      character, and changes nothing. */
  method FindQuoted(buf: array<char>, at: nat, ghost text: string, orig: char, quote: char) returns (n: nat)
    requires IsText(text) && Unread(buf, at, text, at) && orig != NUL && quote != NUL
    ensures n <= |text|
    ensures n <= |Unquote(text, orig, quote)|
    ensures Unquote(text, orig, quote)[..n] == text[..n]
    ensures Unquote(text, orig, quote)[n..] == Unquote(text[n..], orig, quote)
    ensures n < |text| ==>
              n + 1 < |text| && text[n] == quote && (text[n + 1] == orig || text[n + 1] == quote)
  {
    hide Unquote;
    ghost var goal := Unquote(text, orig, quote);
    n := 0;
    assert text[0..] == text && goal[0..] == goal;
    while buf[at + n] != NUL && !(buf[at + n] == quote && (buf[at + n + 1] == orig || buf[at + n + 1] == quote))
      invariant n <= |text|
      invariant n <= |goal| && goal[..n] == text[..n]
      invariant goal[n..] == Unquote(text[n..], orig, quote)
      decreases |text| - n
    {
      UnquoteStep(text, n, goal, n, orig, quote);
      n := n + 1;
    }
  }

  /** _unquote_one_character, in the buffer that holds the string: characters are
      moved only from the first quoted one on, and the write index stays behind the
      read index, so no unread character is lost. */
  method UnquoteOneCharacter(buf: array<char>, at: nat, ghost text: string, orig: char, quote: char)
    requires Holds(buf, at, text) && orig != NUL && quote != NUL
    modifies buf
    ensures Holds(buf, at, Unquote(text, orig, quote))
    ensures forall k :: 0 <= k < at || at + |text| < k < buf.Length ==> buf[k] == old(buf[k])
  {
    hide Unquote;
    UnquoteShrinks(text, orig, quote);
    ghost var goal := Unquote(text, orig, quote);
    var n := FindQuoted(buf, at, text, orig, quote);
    if buf[at + n] == NUL {
      UnquoteEnd(text, goal, n, orig, quote);
      assert goal == goal[..n] && text == text[..n];
      return;
    }
    UnquoteStep(text, n, goal, n, orig, quote);
    buf[at + n] := buf[at + n + 1];
    PrefixSame(text, goal, n);
    UnquoteTail(buf, at, text, goal, n + 2, n + 1, orig, quote);
  }

  lemma PrefixSame(text: string, goal: string, n: nat)
    requires n <= |text| && n <= |goal| && goal[..n] == text[..n]
    ensures forall k :: 0 <= k < n ==> text[k] == goal[k]
  {
    forall k | 0 <= k < n
      ensures text[k] == goal[k]
    {
      assert goal[..n][k] == text[..n][k];
    }
  }

  /** The inner loop of _unquote_one_character, entered behind the first quoted
      character. */
  method UnquoteTail(buf: array<char>, at: nat, ghost text: string, ghost goal: string,
                     from: nat, to: nat, orig: char, quote: char)
    requires IsText(text) && IsText(goal) && 0 < to < from && Unread(buf, at, text, at + from)
    requires orig != NUL && quote != NUL
    requires to <= |goal| && goal[to..] == Unquote(text[from..], orig, quote)
    requires forall k :: at <= k < at + to ==> buf[k] == goal[k - at]
    modifies buf
    ensures Holds(buf, at, goal)
    ensures forall k :: 0 <= k < at || at + |text| < k < buf.Length ==> buf[k] == old(buf[k])
  {
    hide Unquote;
    var src, out := from, to;
    while buf[at + src] != NUL
      invariant 0 < out < src && Unread(buf, at, text, at + src)
      invariant out <= |goal| && goal[out..] == Unquote(text[src..], orig, quote)
      invariant forall k :: at <= k < at + out ==> buf[k] == goal[k - at]
      invariant forall k :: 0 <= k < at || at + |text| < k < buf.Length ==> buf[k] == old(buf[k])
      decreases |text| - src
    {
      UnquoteStep(text, src, goal, out, orig, quote);
      var s := buf[at + src];
      src := src + 1;
      if s == quote && (buf[at + src] == orig || buf[at + src] == quote) {
        s := buf[at + src];
        src := src + 1;
      }
      buf[at + out] := s;
      out := out + 1;
    }
    UnquoteEnd(text, goal, out, orig, quote);
    buf[at + out] := NUL;
  }
}
