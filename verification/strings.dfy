/** The string primitives the parser is built on: first-occurrence search,
    splitting once at a character, whitespace tokenising, and line splitting
    with the behaviour of Rust's `str::lines`. Strings are `seq<char>`. */
module Strings {
  import opened Wrappers

  predicate StartsWithChar(s: string, c: char)
  {
    |s| > 0 && s[0] == c
  }

  /** Index of the first occurrence of `c` in `s`. */
  function IndexOf(s: string, c: char): (r: Option<nat>)
    ensures r.None? <==> c !in s
    ensures r.Some? ==> r.value < |s| && s[r.value] == c && c !in s[..r.value]
  {
    if |s| == 0 then None
    else if s[0] == c then Some(0)
    else
      match IndexOf(s[1..], c)
      case None => None
      case Some(i) =>
        assert s[..i + 1] == [s[0]] + s[1..][..i];
        Some(i + 1)
  }

  /** Rust's `split_once(c)`: the text before and after the first `c`. */
  function SplitOnce(s: string, c: char): (r: Option<(string, string)>)
    ensures r.None? <==> c !in s
    ensures r.Some? ==> s == r.value.0 + [c] + r.value.1 && c !in r.value.0
  {
    match IndexOf(s, c)
    case None => None
    case Some(i) =>
      assert s == s[..i] + [c] + s[i + 1..];
      Some((s[..i], s[i + 1..]))
  }

  /** Splitting a joined pair at a separator the left part does not contain
      gives the pair back. */
  lemma SplitOnceJoin(k: string, c: char, v: string)
    requires c !in k
    ensures SplitOnce(k + [c] + v, c) == Some((k, v))
  {
    var s := k + [c] + v;
    assert s[..|k|] == k;
    assert s[|k|] == c;
    var i := IndexOf(s, c).value;
    assert i == |k|;
    assert s[i + 1..] == v;
  }

  // ----- whitespace tokenising (Rust's `split_whitespace`) -----

  /** The ASCII characters of the Unicode White_Space property: tab, line
      feed, vertical tab, form feed, carriage return and space. */
  predicate IsWhitespace(ch: char)
  {
    ch == ' ' || ch == '\t' || ch == '\n' || ch == '\U{000B}' || ch == '\U{000C}' || ch == '\r'
  }

  predicate AllWhitespace(s: string)
  {
    forall i :: 0 <= i < |s| ==> IsWhitespace(s[i])
  }

  /** A token of `split_whitespace`: non-empty and free of whitespace. */
  predicate IsToken(t: string)
  {
    |t| > 0 && forall i :: 0 <= i < |t| ==> !IsWhitespace(t[i])
  }

  /** Length of the leading run of non-whitespace characters. */
  function TokenLength(s: string): (n: nat)
    ensures n <= |s|
    ensures forall i :: 0 <= i < n ==> !IsWhitespace(s[i])
    ensures n < |s| ==> IsWhitespace(s[n])
  {
    if |s| == 0 || IsWhitespace(s[0]) then 0 else 1 + TokenLength(s[1..])
  }

  /** The maximal runs of non-whitespace characters of `s`, in order. */
  function SplitWhitespace(s: string): (r: seq<string>)
    decreases |s|
    ensures forall i :: 0 <= i < |r| ==> IsToken(r[i])
    ensures r == [] <==> AllWhitespace(s)
  {
    if |s| == 0 then []
    else if IsWhitespace(s[0]) then
      var r := SplitWhitespace(s[1..]);
      assert AllWhitespace(s[1..]) ==> AllWhitespace(s) by {
        if AllWhitespace(s[1..]) {
          forall i | 0 < i < |s| ensures IsWhitespace(s[i]) { assert s[i] == s[1..][i - 1]; }
        }
      }
      r
    else
      var n := TokenLength(s);
      [s[..n]] + SplitWhitespace(s[n..])
  }

  /** `parts` separated by `sep`. */
  function JoinWith(parts: seq<string>, sep: string): string
  {
    if |parts| == 0 then ""
    else if |parts| == 1 then parts[0]
    else parts[0] + sep + JoinWith(parts[1..], sep)
  }

  /** Whitespace around a single token is dropped. */
  lemma SingleToken(w: string, t: string)
    requires AllWhitespace(w) && IsToken(t)
    ensures SplitWhitespace(w + t) == [t]
  {
    SplitWhitespaceSkipsLeading(w, t);
    assert JoinWith([t], " ") == t;
    SplitWhitespaceJoin([t]);
  }

  /** Leading whitespace does not change the tokens. */
  lemma {:induction false} SplitWhitespaceSkipsLeading(w: string, s: string)
    requires AllWhitespace(w)
    ensures SplitWhitespace(w + s) == SplitWhitespace(s)
    decreases |w|
  {
    if |w| > 0 {
      assert (w + s)[1..] == w[1..] + s;
      SplitWhitespaceSkipsLeading(w[1..], s);
    } else {
      assert w + s == s;
    }
  }

  /** Tokens joined by single spaces split back into the same tokens. */
  lemma {:induction false} SplitWhitespaceJoin(tokens: seq<string>)
    requires forall i :: 0 <= i < |tokens| ==> IsToken(tokens[i])
    ensures SplitWhitespace(JoinWith(tokens, " ")) == tokens
    decreases |tokens|
  {
    if |tokens| == 0 {
    } else {
      var t := tokens[0];
      var s := JoinWith(tokens, " ");
      TokenPrefix(t, s[|t|..]);
      if |tokens| == 1 {
        assert s == t + [];
      } else {
        var rest := JoinWith(tokens[1..], " ");
        assert s == t + (" " + rest);
        assert s[|t|..] == " " + rest;
        assert (" " + rest)[1..] == rest;
        SplitWhitespaceJoin(tokens[1..]);
        assert tokens == [t] + tokens[1..];
      }
    }
  }

  /** A token followed by nothing or by whitespace is read as one token. */
  lemma TokenPrefix(t: string, rest: string)
    requires IsToken(t)
    requires |rest| == 0 || IsWhitespace(rest[0])
    ensures SplitWhitespace(t + rest) == [t] + SplitWhitespace(rest)
  {
    var s := t + rest;
    TokenLengthOf(t, rest);
    assert s[..|t|] == t;
    assert s[|t|..] == rest;
  }

  lemma {:induction false} TokenLengthOf(t: string, rest: string)
    requires forall i :: 0 <= i < |t| ==> !IsWhitespace(t[i])
    requires |rest| == 0 || IsWhitespace(rest[0])
    ensures TokenLength(t + rest) == |t|
    decreases |t|
  {
    if |t| > 0 {
      assert (t + rest)[1..] == t[1..] + rest;
      TokenLengthOf(t[1..], rest);
    } else {
      assert t + rest == rest;
    }
  }

  // ----- line splitting (Rust's `str::lines`) -----

  predicate EndsWithCR(s: string)
  {
    |s| > 0 && s[|s| - 1] == '\r'
  }

  /** Drops one carriage return at the end of a line, if present. */
  function StripCR(s: string): (r: string)
    ensures r <= s
  {
    if EndsWithCR(s) then s[..|s| - 1] else s
  }

  /** The lines of `s`: the text between line feeds, where a line feed ends a
      line rather than separating two, and a carriage return directly before
      a line feed belongs to the line break. */
  function Lines(s: string): (r: seq<string>)
    decreases |s|
    ensures r == [] <==> s == ""
    ensures forall i :: 0 <= i < |r| ==> '\n' !in r[i]
  {
    if |s| == 0 then []
    else
      match IndexOf(s, '\n')
      case None => [s]
      case Some(i) =>
        var line := StripCR(s[..i]);
        assert forall c :: c in line ==> c in s[..i];
        [line] + Lines(s[i + 1..])
  }

  /** Every line followed by a line feed. */
  function Unlines(lines: seq<string>): string
  {
    if |lines| == 0 then "" else lines[0] + "\n" + Unlines(lines[1..])
  }

  /** Every line followed by a carriage return and a line feed. */
  function UnlinesCRLF(lines: seq<string>): string
  {
    if |lines| == 0 then "" else lines[0] + "\r\n" + UnlinesCRLF(lines[1..])
  }

  /** Splitting `line + "\n" + rest` stops at the first line feed. */
  lemma LinesCons(line: string, rest: string)
    requires '\n' !in line
    ensures Lines(line + "\n" + rest) == [StripCR(line)] + Lines(rest)
  {
    var s := line + "\n" + rest;
    SplitOnceJoin(line, '\n', rest);
    assert SplitOnce(s, '\n') == Some((line, rest));
    var i := IndexOf(s, '\n').value;
    assert s[..i] == line;
  }

  /** Newline-terminated lines split back into the same lines, so a final line
      feed does not produce an extra empty line. */
  lemma {:induction false} LinesUnlines(lines: seq<string>)
    requires forall i :: 0 <= i < |lines| ==> '\n' !in lines[i] && !EndsWithCR(lines[i])
    ensures Lines(Unlines(lines)) == lines
    decreases |lines|
  {
    if |lines| > 0 {
      LinesCons(lines[0], Unlines(lines[1..]));
      LinesUnlines(lines[1..]);
      assert lines == [lines[0]] + lines[1..];
    }
  }

  /** A text without a line feed is one line, kept whole: a carriage return
      at its end is not a line break and stays. */
  lemma LinesLast(s: string)
    requires s != "" && '\n' !in s
    ensures Lines(s) == [s]
  {
  }

  /** A last line without a line feed after it is still a line, after the
      newline-terminated lines before it. */
  lemma {:induction false} LinesUnlinesLast(lines: seq<string>, last: string)
    requires forall i :: 0 <= i < |lines| ==> '\n' !in lines[i] && !EndsWithCR(lines[i])
    requires last != "" && '\n' !in last
    ensures Lines(Unlines(lines) + last) == lines + [last]
    decreases |lines|
  {
    if |lines| == 0 {
      assert Unlines(lines) + last == last;
      LinesLast(last);
    } else {
      LinesUnlinesLast(lines[1..], last);
      LinesUnlinesLastStep(lines, last);
    }
  }

  /** The step of `LinesUnlinesLast`: one more newline-terminated line in
      front adds that line in front. */
  lemma LinesUnlinesLastStep(lines: seq<string>, last: string)
    requires |lines| > 0 && '\n' !in lines[0] && !EndsWithCR(lines[0])
    requires Lines(Unlines(lines[1..]) + last) == lines[1..] + [last]
    ensures Lines(Unlines(lines) + last) == lines + [last]
  {
    var head := lines[0] + "\n";
    var rest := Unlines(lines[1..]);
    assert Unlines(lines) == head + rest;
    ConcatAssoc(head, rest, last);
    LinesConsOf(lines[0], rest + last, lines[1..] + [last]);
    ConsSnoc(lines, last);
  }

  lemma ConsSnoc<T>(xs: seq<T>, x: T)
    requires |xs| > 0
    ensures xs + [x] == [xs[0]] + (xs[1..] + [x])
  {
    assert xs == [xs[0]] + xs[1..];
  }

  lemma ConcatAssoc(a: string, b: string, c: string)
    ensures (a + b) + c == a + (b + c)
  {
  }

  /** `LinesCons` with the lines of the rest already known. */
  lemma LinesConsOf(line: string, rest: string, tail: seq<string>)
    requires '\n' !in line && !EndsWithCR(line)
    requires Lines(rest) == tail
    ensures Lines(line + "\n" + rest) == [line] + tail
  {
    LinesCons(line, rest);
  }

  /** With CRLF line ends the carriage return is removed as part of the line
      break, so even lines ending in a carriage return survive. */
  lemma {:induction false} LinesUnlinesCRLF(lines: seq<string>)
    requires forall i :: 0 <= i < |lines| ==> '\n' !in lines[i]
    ensures Lines(UnlinesCRLF(lines)) == lines
    decreases |lines|
  {
    if |lines| > 0 {
      var l := lines[0] + "\r";
      assert lines[0] + "\r\n" + UnlinesCRLF(lines[1..]) == l + "\n" + UnlinesCRLF(lines[1..]);
      assert '\n' !in l by { assert l == lines[0] + ['\r']; }
      LinesCons(l, UnlinesCRLF(lines[1..]));
      assert StripCR(l) == lines[0];
      LinesUnlinesCRLF(lines[1..]);
      assert lines == [lines[0]] + lines[1..];
    }
  }
}
