/** Concrete porcelain inputs and what the parser makes of them.

    The lemmas are stated over variables, and the literal parts of a line are
    written as separate pieces (`"author" + " " + v`, `ToDecimal(1)` for
    "1"): the pieces match the key-plus-space and rendered-number shapes the
    general lemmas are stated over, where one whole literal would make the
    verifier unfold the string functions character by character. */
module Examples {
  import opened Wrappers
  import opened Strings
  import opened Numbers
  import opened BlameRecord
  import opened RecordParser
  import opened Segmenter

  /** A 40-character hash is shortened to its first seven characters. */
  lemma ShortCommitOfFullHash()
    ensures ShortCommit(Default.(commit := "abcdefghijklmnopqrstuvwxyz1234567890abcd")) == "abcdefg"
  {
    var c := "abcdefghijklmnopqrstuvwxyz1234567890abcd";
    assert c[..7] == "abcdefg";
  }

  lemma JoinThree(a: string, b: string, c: string)
    ensures JoinWith([a, b, c], " ") == a + " " + b + " " + c
  {
    var parts := [a, b, c];
    assert parts[1..] == [b, c];
    assert parts[1..][1..] == [c];
    assert JoinWith([b, c], " ") == b + " " + c;
    assert JoinWith(parts, " ") == a + " " + (b + " " + c);
  }

  /** A blob whose header reads `<commit> <orig> <final>` starts from the
      record holding those three values. */
  lemma HeaderTokens(commit: string, orig: nat, final: nat, body: seq<string>)
    requires IsToken(commit)
    ensures ParseOneBlame([commit + " " + ToDecimal(orig) + " " + ToDecimal(final)] + body)
      == Ok(ApplyLines(Default.(commit := commit, originalLineNo := orig, finalLineNo := final), body))
  {
    var parts := [commit, ToDecimal(orig), ToDecimal(final)];
    JoinThree(commit, ToDecimal(orig), ToDecimal(final));
    HeaderLine(parts, body);
    ParseNatOrZeroRoundTrip(orig);
    ParseNatOrZeroRoundTrip(final);
  }

  /** A blob made of a content line alone: line 0 is still read as the
      header, so the commit is the text after the tab and `content` stays
      empty. */
  lemma LoneContentLine(text: string)
    requires IsToken(text)
    ensures ParseOneBlame(["\t" + text]) == Ok(Default.(commit := text))
  {
    SingleToken("\t", text);
    var p := ["\t" + text];
    assert p[0] == "\t" + text && p[1..] == [];
    assert HeaderRecord([text]) == Default.(commit := text);
  }

  lemma LoneContentLineHello()
    ensures ParseOneBlame(["\tHello"]) == Ok(Default.(commit := "Hello"))
  {
    assert "\tHello" == "\t" + "Hello";
    LoneContentLine("Hello");
  }

  /** A blob whose header line is empty panics rather than reporting the
      "no header" error. */
  lemma EmptyHeaderPanics()
    ensures Parse("\n\tx\n").Panic?
  {
    var lines := ["", "\tx"];
    assert Unlines(lines) == "\n\tx\n";
    BlankHeaderPanics(lines[1]);
  }

  /** A blob of an empty header line and a content line panics. */
  lemma BlankHeaderPanics(line: string)
    requires IsContentLine(line) && '\n' !in line && !EndsWithCR(line)
    ensures Parse(Unlines(["", line])).Panic?
  {
    var lines := ["", line];
    assert forall i :: 0 <= i < |lines| ==> '\n' !in lines[i] && !EndsWithCR(lines[i]);
    ParseUnlines(lines);
    assert IsBlob(lines);
    SegmentSingleBlob(lines, []);
    assert [] + lines == lines;
    assert Blobs(lines) == [lines];
    ParseBlobsOutcome([lines]);
    assert [lines][0][0] == "";
    assert SomeHeaderBlank([lines]);
  }

  lemma ApplyThreeLines(b: Blame, l1: string, l2: string, l3: string)
    ensures ApplyLines(b, [l1, l2, l3]) == Step(Step(Step(b, l1), l2), l3)
  {
    ApplyLinesSnoc(b, [], l1);
    assert [] + [l1] == [l1];
    ApplyLinesSnoc(b, [l1], l2);
    assert [l1] + [l2] == [l1, l2];
    ApplyLinesSnoc(b, [l1, l2], l3);
    assert [l1, l2] + [l3] == [l1, l2, l3];
  }

  /** The blob `<commit> 1 1`, `summary: <text>`, `boundary`, tab-content. */
  function ColonBlob(commit: string, summary: string, content: string): seq<string>
  {
    [commit + " " + ToDecimal(1) + " " + ToDecimal(1), "summary:" + " " + summary, "boundary", "\t" + content]
  }

  /** `summary: x` has the key `summary:`, which is not recognised, so the
      summary stays empty; the bare `boundary` line sets the flag. */
  lemma SummaryWithColon(commit: string, summary: string, content: string)
    requires IsToken(commit)
    ensures ParseOneBlame(ColonBlob(commit, summary, content))
      == Ok(Default.(commit := commit, originalLineNo := 1, finalLineNo := 1, content := content, boundary := true))
  {
    var blob := ColonBlob(commit, summary, content);
    var body := blob[1..];
    HeaderTokens(commit, 1, 1, body);
    assert [blob[0]] + body == blob;
    var b0 := Default.(commit := commit, originalLineNo := 1, finalLineNo := 1);
    assert !IsKnownKey("summary:");
    UnknownKeyIgnored(b0, "summary:", summary);
    BoundaryLineSetsFlag(b0);
    var b2 := b0.(boundary := true);
    ContentLineSetsContent(b2, content);
    ApplyThreeLines(b0, body[0], body[1], body[2]);
    assert body == [body[0], body[1], body[2]];
  }

  /** The same blob as porcelain text gives exactly one record. */
  lemma SummaryWithColonText(commit: string, summary: string, content: string)
    requires IsToken(commit)
    requires '\n' !in summary && '\n' !in content
    requires !EndsWithCR(summary) && !EndsWithCR(content)
    ensures Parse(Unlines(ColonBlob(commit, summary, content)))
      == Ok([Default.(commit := commit, originalLineNo := 1, finalLineNo := 1, content := content, boundary := true)])
  {
    var lines := ColonBlob(commit, summary, content);
    assert lines[0] == commit + " 1 1";
    assert '\n' !in commit;
    JoinedLine(commit, " 1 1");
    JoinedLine("summary: ", summary);
    assert lines[1] == "summary: " + summary;
    JoinedLine("\t", content);
    assert lines[3] == "\t" + content;
    assert forall i :: 0 <= i < |lines| ==> '\n' !in lines[i] && !EndsWithCR(lines[i]);
    assert IsBlob(lines);
    SummaryWithColon(commit, summary, content);
    BlobText(lines);
  }

  /** One blob written out as newline-terminated text parses to its record. */
  lemma BlobText(lines: seq<string>)
    requires IsBlob(lines)
    requires forall i :: 0 <= i < |lines| ==> '\n' !in lines[i] && !EndsWithCR(lines[i])
    ensures ParseOneBlame(lines).Ok? ==> Parse(Unlines(lines)) == Ok([ParseOneBlame(lines).value])
  {
    ParseUnlines(lines);
    ParseSingleBlob(lines);
  }

  /** A line joined from two pieces has a line feed or a final carriage
      return only if one of its pieces does. */
  lemma JoinedLine(a: string, b: string)
    requires '\n' !in a && '\n' !in b && !EndsWithCR(b)
    requires |b| > 0 || !EndsWithCR(a)
    ensures '\n' !in a + b && !EndsWithCR(a + b)
  {
    if |b| > 0 {
      assert (a + b)[|a + b| - 1] == b[|b| - 1];
    } else {
      assert a + b == a;
    }
  }

  /** The same when the content line ends the text without a line feed:
      the blob still gives its record. */
  lemma BlobTextUnterminated(lines: seq<string>)
    requires IsBlob(lines)
    requires forall i :: 0 <= i < |lines| ==> '\n' !in lines[i]
    requires forall i :: 0 <= i < |lines| - 1 ==> !EndsWithCR(lines[i])
    ensures var n := |lines| - 1;
      ParseOneBlame(lines).Ok? ==> Parse(Unlines(lines[..n]) + lines[n]) == Ok([ParseOneBlame(lines).value])
  {
    var n := |lines| - 1;
    assert lines[n] != "";
    ParseUnlinesLast(lines[..n], lines[n]);
    assert lines[..n] + [lines[n]] == lines;
    ParseSingleBlob(lines);
  }

  lemma ApplyFiveLines(b: Blame, l1: string, l2: string, l3: string, l4: string, l5: string)
    ensures ApplyLines(b, [l1, l2, l3, l4, l5]) == Step(Step(ApplyLines(b, [l1, l2, l3]), l4), l5)
  {
    ApplyLinesSnoc(b, [l1, l2, l3], l4);
    assert [l1, l2, l3] + [l4] == [l1, l2, l3, l4];
    ApplyLinesSnoc(b, [l1, l2, l3, l4], l5);
    assert [l1, l2, l3, l4] + [l5] == [l1, l2, l3, l4, l5];
  }

  lemma AuthorLine(b: Blame, v: string)
    ensures Step(b, "author" + " " + v) == b.(author := v)
  {
    assert FieldKey(Author).value == "author";
    assert SetKeyed(b, Author, v) == b.(author := v);
    KeyedLineSetsOnlyItsField(b, Author, v);
  }

  lemma AuthorMailLine(b: Blame, v: string)
    ensures Step(b, "author-mail" + " " + v) == b.(authorMail := v)
  {
    assert FieldKey(AuthorMail).value == "author-mail";
    assert SetKeyed(b, AuthorMail, v) == b.(authorMail := v);
    KeyedLineSetsOnlyItsField(b, AuthorMail, v);
  }

  lemma CommitterLine(b: Blame, v: string)
    ensures Step(b, "committer" + " " + v) == b.(committer := v)
  {
    assert FieldKey(Committer).value == "committer";
    assert SetKeyed(b, Committer, v) == b.(committer := v);
    KeyedLineSetsOnlyItsField(b, Committer, v);
  }

  lemma CommitterMailLine(b: Blame, v: string)
    ensures Step(b, "committer-mail" + " " + v) == b.(committerMail := v)
  {
    assert FieldKey(CommitterMail).value == "committer-mail";
    assert SetKeyed(b, CommitterMail, v) == b.(committerMail := v);
    KeyedLineSetsOnlyItsField(b, CommitterMail, v);
  }

  /** Lines not yet committed carry the all-zero hash and the placeholder
      author and committer; the keyed lines set exactly their own fields. */
  lemma PlaceholderIdentity(commit: string, name: string, mail: string, content: string)
    requires IsToken(commit)
    ensures ParseOneBlame([
        commit + " " + ToDecimal(1) + " " + ToDecimal(1),
        "author" + " " + name,
        "author-mail" + " " + mail,
        "committer" + " " + name,
        "committer-mail" + " " + mail,
        "\t" + content])
      == Ok(Default.(commit := commit, originalLineNo := 1, finalLineNo := 1,
          author := name, authorMail := mail, committer := name, committerMail := mail, content := content))
  {
    var blob := [
      commit + " " + ToDecimal(1) + " " + ToDecimal(1),
      "author" + " " + name,
      "author-mail" + " " + mail,
      "committer" + " " + name,
      "committer-mail" + " " + mail,
      "\t" + content];
    var body := blob[1..];
    HeaderTokens(commit, 1, 1, body);
    assert [blob[0]] + body == blob;
    var b0 := Default.(commit := commit, originalLineNo := 1, finalLineNo := 1);
    AuthorLine(b0, name);
    var b1 := b0.(author := name);
    AuthorMailLine(b1, mail);
    var b2 := b1.(authorMail := mail);
    CommitterLine(b2, name);
    var b3 := b2.(committer := name);
    CommitterMailLine(b3, mail);
    var b4 := b3.(committerMail := mail);
    ContentLineSetsContent(b4, content);
    ApplyThreeLines(b0, body[0], body[1], body[2]);
    ApplyFiveLines(b0, body[0], body[1], body[2], body[3], body[4]);
    assert body == [body[0], body[1], body[2], body[3], body[4]];
  }
}
