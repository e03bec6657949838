/** The record parser: turns one blob (a header line, metadata lines and a
    content line) into a `Blame`. Line 0 is always the header; every later
    line is read by `Step`, and the record is the fold of `Step` over them. */
module RecordParser {
  import opened Wrappers
  import opened Strings
  import opened Numbers
  import opened BlameRecord
  import opened Folds

  /** A line carrying source text: it starts with the tab marker. */
  predicate IsContentLine(line: string)
  {
    StartsWithChar(line, '\t')
  }

  /** The field a single-field key names, if it names one. */
  function KeyField(key: string): (r: Option<Field>)
    ensures r.Some? ==> FieldKey(r.value) == Some(key)
    ensures r.None? ==> forall f :: FieldKey(f) != Some(key)
  {
    if key == "filename" then Some(Filename)
    else if key == "summary" then Some(Summary)
    else if key == "author" then Some(Author)
    else if key == "author-mail" then Some(AuthorMail)
    else if key == "author-time" then Some(AuthorTime)
    else if key == "author-tz" then Some(AuthorTz)
    else if key == "committer" then Some(Committer)
    else if key == "committer-mail" then Some(CommitterMail)
    else if key == "committer-time" then Some(CommitterTime)
    else if key == "committer-tz" then Some(CommitterTz)
    else None
  }

  /** The effect of a metadata line split into `key` and `value` at its first
      space. Keys are matched exactly: a single-field key sets its field,
      `previous` sets both previous fields when its value has a space, and
      any other key changes nothing. */
  function ApplyKeyValue(b: Blame, key: string, value: string): (r: Blame)
    ensures r.commit == b.commit && r.originalLineNo == b.originalLineNo && r.finalLineNo == b.finalLineNo
    ensures r.content == b.content && r.boundary == b.boundary
    ensures PreviousPaired(b) ==> PreviousPaired(r)
  {
    match KeyField(key)
    case Some(f) => SetKeyed(b, f, value)
    case None =>
      if key == "previous" then
        match SplitOnce(value, ' ')
        case Some((commit, filepath)) => b.(previousCommit := Some(commit), previousFilepath := Some(filepath))
        case None => b
      else b
  }

  /** The record with field `f` of a keyed line set from its text `v`
      (parse-or-0 for the two times) and nothing else changed. */
  function SetKeyed(b: Blame, f: Field, v: string): (r: Blame)
    requires FieldKey(f).Some?
    ensures Get(r, f) == KeyedText(f, v)
    ensures r.commit == b.commit && r.originalLineNo == b.originalLineNo && r.finalLineNo == b.finalLineNo
    ensures r.content == b.content && r.boundary == b.boundary
    ensures r.previousCommit == b.previousCommit && r.previousFilepath == b.previousFilepath
  {
    match f
    case Filename => b.(filename := v)
    case Summary => b.(summary := v)
    case Author => b.(author := v)
    case AuthorMail => b.(authorMail := v)
    case AuthorTime => b.(authorTime := ParseU64OrZero(v))
    case AuthorTz => b.(authorTz := v)
    case Committer => b.(committer := v)
    case CommitterMail => b.(committerMail := v)
    case CommitterTime => b.(committerTime := ParseU64OrZero(v))
    case CommitterTz => b.(committerTz := v)
  }

  /** The effect of one body line on the record built so far. A body line
      never touches the header fields, changes `content` only if it is a
      content line, and marks `boundary` exactly when it is the bare word. */
  function Step(b: Blame, line: string): (r: Blame)
    ensures r.commit == b.commit && r.originalLineNo == b.originalLineNo && r.finalLineNo == b.finalLineNo
    ensures r.content != b.content ==> IsContentLine(line)
    ensures r.boundary <==> b.boundary || line == "boundary"
    ensures PreviousPaired(b) ==> PreviousPaired(r)
  {
    if IsContentLine(line) then b.(content := line[1..])
    else
      assert ' ' !in "boundary";
      match SplitOnce(line, ' ')
      case Some((key, value)) => ApplyKeyValue(b, key, value)
      case None => if line == "boundary" then b.(boundary := true) else b
  }

  /** `Step` applied to each of `lines` in order. No body line changes the
      header fields, and a whole body keeps the previous fields paired. */
  function ApplyLines(b: Blame, lines: seq<string>): (r: Blame)
    ensures r.commit == b.commit && r.originalLineNo == b.originalLineNo && r.finalLineNo == b.finalLineNo
    ensures PreviousPaired(b) ==> PreviousPaired(r)
  {
    var kept := (x: Blame) =>
      && x.commit == b.commit && x.originalLineNo == b.originalLineNo && x.finalLineNo == b.finalLineNo
      && (PreviousPaired(b) ==> PreviousPaired(x));
    FoldPreserves(Step, kept, b, lines);
    FoldLeft(Step, b, lines)
  }

  /** The record after the header: the commit is the first token, the line
      numbers the second and third, each read as parse-or-0 when present. */
  function HeaderRecord(parts: seq<string>): (r: Blame)
    requires |parts| > 0
    ensures r.(commit := "", originalLineNo := 0, finalLineNo := 0) == Default
    ensures |parts| < 2 ==> r.originalLineNo == 0
    ensures |parts| < 3 ==> r.finalLineNo == 0
  {
    Default.(
      commit := parts[0],
      originalLineNo := if |parts| > 1 then ParseNatOrZero(parts[1]) else 0,
      finalLineNo := if |parts| > 2 then ParseNatOrZero(parts[2]) else 0)
  }

  /** Parses one blob. An empty blob is the "no header" error; a header line
      without any token panics on the out-of-bounds token access. */
  function ParseOneBlame(porcelain: seq<string>): (r: Outcome<Blame>)
    ensures r.Err? <==> |porcelain| == 0
    ensures r.Err? ==> r.error == ParseError("no header")
    ensures r.Panic? <==> |porcelain| > 0 && AllWhitespace(porcelain[0])
    ensures r.Ok? ==> IsToken(r.value.commit) && PreviousPaired(r.value)
    ensures r.Ok? ==>
      var parts := SplitWhitespace(porcelain[0]);
      && r.value.commit == parts[0]
      && r.value.originalLineNo == (if |parts| > 1 then ParseNatOrZero(parts[1]) else 0)
      && r.value.finalLineNo == (if |parts| > 2 then ParseNatOrZero(parts[2]) else 0)
  {
    if |porcelain| == 0 then Err(ParseError("no header"))
    else
      var parts := SplitWhitespace(porcelain[0]);
      if |parts| == 0 then Panic("index out of bounds: the len is 0 but the index is 0")
      else
        var header := HeaderRecord(parts);
        Ok(ApplyLines(header, porcelain[1..]))
  }

  /** A header line made of single-space separated tokens gives the record
      those tokens describe, which the later lines then update. */
  lemma HeaderLine(parts: seq<string>, body: seq<string>)
    requires |parts| > 0
    requires forall i :: 0 <= i < |parts| ==> IsToken(parts[i])
    ensures ParseOneBlame([JoinWith(parts, " ")] + body) == Ok(ApplyLines(HeaderRecord(parts), body))
  {
    var blob := [JoinWith(parts, " ")] + body;
    SplitWhitespaceJoin(parts);
    assert blob[0] == JoinWith(parts, " ");
    assert blob[1..] == body;
  }

  /** The loop of the source: the header, then each later line in turn. */
  method ParseOneBlameLoop(porcelain: seq<string>) returns (r: Outcome<Blame>)
    ensures r == ParseOneBlame(porcelain)
  {
    if |porcelain| == 0 {
      return Err(ParseError("no header"));
    }
    var parts := SplitWhitespace(porcelain[0]);
    if |parts| == 0 {
      return Panic("index out of bounds: the len is 0 but the index is 0");
    }
    var blame := HeaderRecord(parts);
    var i := 1;
    while i < |porcelain|
      invariant 1 <= i <= |porcelain|
      invariant blame == ApplyLines(HeaderRecord(parts), porcelain[1..i])
    {
      ApplyLinesSnoc(HeaderRecord(parts), porcelain[1..i], porcelain[i]);
      assert porcelain[1..i] + [porcelain[i]] == porcelain[1..i + 1];
      blame := Step(blame, porcelain[i]);
      i := i + 1;
    }
    assert porcelain[1..i] == porcelain[1..];
    return Ok(blame);
  }

  // ----- the line grammar, field by field -----

  /** The key that introduces each single-field metadata line. */
  function FieldKey(f: Field): Option<string>
  {
    match f
    case Filename => Some("filename")
    case Summary => Some("summary")
    case Author => Some("author")
    case AuthorMail => Some("author-mail")
    case AuthorTime => Some("author-time")
    case AuthorTz => Some("author-tz")
    case Committer => Some("committer")
    case CommitterMail => Some("committer-mail")
    case CommitterTime => Some("committer-time")
    case CommitterTz => Some("committer-tz")
    case _ => None
  }

  predicate IsTimeField(f: Field)
  {
    f == AuthorTime || f == CommitterTime
  }

  /** The fields only the header line sets. */
  predicate IsHeaderField(f: Field)
  {
    f == Commit || f == OriginalLineNo || f == FinalLineNo
  }

  /** The value of `line` when it reads `key`, one space, then the value. */
  function KeyedValue(line: string, key: string): Option<string>
  {
    if |line| > |key| && line[..|key| + 1] == key + " " then Some(line[|key| + 1..]) else None
  }

  /** The commit and path of a `previous <commit> <path>` line. */
  function PreviousValue(line: string): Option<(string, string)>
  {
    match KeyedValue(line, "previous")
    case Some(v) => SplitOnce(v, ' ')
    case None => None
  }

  /** What `line` writes into field `f`, if anything: the line grammar read
      field by field, without reference to how `Step` dispatches. */
  function Writes(line: string, f: Field): Option<Value>
  {
    match f
    case Content => if IsContentLine(line) then Some(Text(line[1..])) else None
    case Boundary => if line == "boundary" then Some(Flag(true)) else None
    case PreviousCommit =>
      (match PreviousValue(line)
       case Some((c, _)) => Some(MaybeText(Some(c)))
       case None => None)
    case PreviousFilepath =>
      (match PreviousValue(line)
       case Some((_, p)) => Some(MaybeText(Some(p)))
       case None => None)
    case _ =>
      match FieldKey(f)
      case None => None
      case Some(key) =>
        match KeyedValue(line, key)
        case None => None
        case Some(v) => Some(KeyedText(f, v))
  }

  /** Reading `key value` by prefix agrees with splitting at the first space,
      for a key without spaces that does not start with a tab. */
  lemma KeyedValueBySplit(line: string, key: string)
    requires |key| > 0 && key[0] != '\t' && ' ' !in key
    ensures IsContentLine(line) ==> KeyedValue(line, key) == None
    ensures !IsContentLine(line) ==>
      KeyedValue(line, key) ==
        match SplitOnce(line, ' ')
        case Some((k, v)) => if k == key then Some(v) else None
        case None => None
  {
    if KeyedValue(line, key).Some? {
      assert line[0] == (key + " ")[0] == key[0];
      assert line == key + [' '] + line[|key| + 1..];
      SplitOnceJoin(key, ' ', line[|key| + 1..]);
    }
  }

  /** One line changes each field exactly as `Writes` says and leaves every
      field it does not write unchanged. */
  lemma StepWrites(b: Blame, line: string, f: Field)
    ensures Get(Step(b, line), f) == Writes(line, f).GetOr(Get(b, f))
  {
    if IsContentLine(line) {
      ContentLineWrites(b, line, f);
    } else {
      match SplitOnce(line, ' ')
      case None =>
        BareLineWrites(b, line, f);
      case Some((k, v)) =>
        assert Step(b, line) == ApplyKeyValue(b, k, v);
        KeyValueLineWrites(b, line, k, v, f);
    }
  }

  /** A content line writes `content` and nothing else. */
  lemma ContentLineWrites(b: Blame, line: string, f: Field)
    requires IsContentLine(line)
    ensures Get(Step(b, line), f) == Writes(line, f).GetOr(Get(b, f))
  {
    KeyedValueBySplit(line, "previous");
    if FieldKey(f).Some? {
      KeyedValueBySplit(line, FieldKey(f).value);
      WritesKeyed(line, f);
    }
  }

  /** A line without a space writes at most the boundary flag. */
  lemma BareLineWrites(b: Blame, line: string, f: Field)
    requires !IsContentLine(line) && SplitOnce(line, ' ').None?
    ensures Get(Step(b, line), f) == Writes(line, f).GetOr(Get(b, f))
  {
    KeyedValueBySplit(line, "previous");
    if FieldKey(f).Some? {
      KeyedValueBySplit(line, FieldKey(f).value);
      WritesKeyed(line, f);
    }
  }

  /** A `key value` line writes exactly the field its key names. */
  lemma KeyValueLineWrites(b: Blame, line: string, k: string, v: string, f: Field)
    requires !IsContentLine(line) && SplitOnce(line, ' ') == Some((k, v))
    ensures Get(ApplyKeyValue(b, k, v), f) == Writes(line, f).GetOr(Get(b, f))
  {
    if f == PreviousCommit || f == PreviousFilepath {
      PreviousLineWrites(b, line, k, v, f);
    } else if FieldKey(f).Some? {
      KeyedValueBySplit(line, FieldKey(f).value);
      WritesKeyed(line, f);
      ApplyKeyValueKeyed(b, k, v, f);
    } else {
      UnkeyedFieldKept(b, k, v, f);
    }
  }

  /** What a line writes into a keyed field is read by its key. */
  lemma WritesKeyed(line: string, f: Field)
    requires FieldKey(f).Some?
    ensures Writes(line, f) ==
      match KeyedValue(line, FieldKey(f).value)
      case None => None
      case Some(v) => Some(KeyedText(f, v))
  {
    assert f != Content && f != Boundary && f != PreviousCommit && f != PreviousFilepath;
  }

  lemma PreviousLineWrites(b: Blame, line: string, k: string, v: string, f: Field)
    requires !IsContentLine(line) && SplitOnce(line, ' ') == Some((k, v))
    requires f == PreviousCommit || f == PreviousFilepath
    ensures Get(ApplyKeyValue(b, k, v), f) == Writes(line, f).GetOr(Get(b, f))
  {
    KeyedValueBySplit(line, "previous");
    WritesPrevious(line, f);
    if k == "previous" {
      ApplyPrevious(b, v);
      assert PreviousValue(line) == SplitOnce(v, ' ');
    } else {
      assert PreviousValue(line) == None;
      match KeyField(k)
      case Some(g) => GetSetKeyed(b, g, v, f);
      case None =>
    }
  }

  /** What a line writes into a previous field is read from its `previous`
      value. */
  lemma WritesPrevious(line: string, f: Field)
    requires f == PreviousCommit || f == PreviousFilepath
    ensures Writes(line, f) ==
      match PreviousValue(line)
      case Some((c, p)) => Some(MaybeText(Some(if f == PreviousCommit then c else p)))
      case None => None
  {
  }

  lemma UnkeyedFieldKept(b: Blame, k: string, v: string, f: Field)
    requires FieldKey(f).None? && f != PreviousCommit && f != PreviousFilepath
    ensures Get(ApplyKeyValue(b, k, v), f) == Get(b, f)
  {
    match KeyField(k)
    case Some(g) => GetSetKeyed(b, g, v, f);
    case None =>
  }

  /** The value a keyed line's text gives its field. */
  function KeyedText(f: Field, v: string): Value
  {
    if IsTimeField(f) then Number(ParseU64OrZero(v) as int) else Text(v)
  }

  lemma ApplyKeyValueKeyed(b: Blame, k: string, v: string, f: Field)
    requires FieldKey(f).Some?
    ensures Get(ApplyKeyValue(b, k, v), f) == if k == FieldKey(f).value then KeyedText(f, v) else Get(b, f)
  {
    if k == FieldKey(f).value {
      KeyFieldOfFieldKey(f);
      GetSetKeyed(b, f, v, f);
    } else {
      match KeyField(k)
      case Some(g) => GetSetKeyed(b, g, v, f);
      case None =>
    }
  }

  /** Setting a keyed field changes that field and no other. */
  lemma GetSetKeyed(b: Blame, f: Field, v: string, g: Field)
    requires FieldKey(f).Some?
    ensures Get(SetKeyed(b, f, v), g) == if g == f then KeyedText(f, v) else Get(b, g)
  {
    match f
    case Filename =>
    case Summary =>
    case Author =>
    case AuthorMail =>
    case AuthorTime =>
    case AuthorTz =>
    case Committer =>
    case CommitterMail =>
    case CommitterTime =>
    case CommitterTz =>
  }

  /** `i` is the last line of `lines` that writes field `f`. */
  ghost predicate LastWriteAt(lines: seq<string>, f: Field, i: int)
  {
    && 0 <= i < |lines|
    && Writes(lines[i], f).Some?
    && forall j :: i < j < |lines| ==> Writes(lines[j], f).None?
  }

  ghost predicate NoWrite(lines: seq<string>, f: Field)
  {
    forall j :: 0 <= j < |lines| ==> Writes(lines[j], f).None?
  }

  /** After folding over `lines`, every field holds what the last line that
      writes it wrote, or its starting value if no line writes it. */
  lemma ApplyLinesLastWrite(b: Blame, lines: seq<string>, f: Field)
    ensures NoWrite(lines, f) ==> Get(ApplyLines(b, lines), f) == Get(b, f)
    ensures forall i :: LastWriteAt(lines, f, i) ==> Get(ApplyLines(b, lines), f) == Writes(lines[i], f).value
  {
    var get := (x: Blame) => Get(x, f);
    var hit := (line: string) => Writes(line, f);
    forall s': Blame, x: string
      ensures get(Step(s', x)) == hit(x).GetOr(get(s'))
    {
      StepWrites(s', x, f);
    }
    FoldLastHit(Step, get, hit, b, lines);
    assert NoWrite(lines, f) ==> NoHit(hit, lines);
    forall i | LastWriteAt(lines, f, i)
      ensures IsLastHit(hit, lines, i)
    {
    }
  }

  /** Every line keeps the previous commit and path paired. */
  lemma StepKeepsPaired(b: Blame, line: string)
    requires PreviousPaired(b)
    ensures PreviousPaired(Step(b, line))
  {
    StepWrites(b, line, PreviousCommit);
    StepWrites(b, line, PreviousFilepath);
  }

  // ----- what a parsed blob holds -----

  /** If some line writes `f`, one of them is the last. */
  lemma LastWriteExists(lines: seq<string>, f: Field)
    requires !NoWrite(lines, f)
    ensures exists i :: LastWriteAt(lines, f, i)
  {
    var hit := (line: string) => Writes(line, f);
    LastHitExists(hit, lines);
    var i :| IsLastHit(hit, lines, i);
    assert LastWriteAt(lines, f, i);
  }

  /** Every field a parsed blob takes from its body lines holds what the last
      body line writing it wrote, or its default when no body line writes
      it. Line 0 is never read as a body line. */
  lemma ParseOneBlameBody(porcelain: seq<string>, f: Field)
    requires |porcelain| > 0 && !AllWhitespace(porcelain[0])
    requires !IsHeaderField(f)
    ensures ParseOneBlame(porcelain).Ok?
    ensures NoWrite(porcelain[1..], f) ==> Get(ParseOneBlame(porcelain).value, f) == Get(Default, f)
    ensures forall i :: LastWriteAt(porcelain[1..], f, i) ==>
      Get(ParseOneBlame(porcelain).value, f) == Writes(porcelain[1..][i], f).value
  {
    var header := HeaderRecord(SplitWhitespace(porcelain[0]));
    ApplyLinesLastWrite(header, porcelain[1..], f);
  }

  /** `content` is the last body line that starts with a tab, minus exactly
      that one tab, or empty when no body line starts with a tab. */
  lemma ContentIsLastTabLine(porcelain: seq<string>)
    requires |porcelain| > 0 && !AllWhitespace(porcelain[0])
    ensures ParseOneBlame(porcelain).Ok?
    ensures (forall i :: 1 <= i < |porcelain| ==> !IsContentLine(porcelain[i])) ==>
      ParseOneBlame(porcelain).value.content == ""
    ensures forall i ::
      (1 <= i < |porcelain| && IsContentLine(porcelain[i])
       && (forall j :: i < j < |porcelain| ==> !IsContentLine(porcelain[j]))) ==>
      ParseOneBlame(porcelain).value.content == porcelain[i][1..]
  {
    var body := porcelain[1..];
    ParseOneBlameBody(porcelain, Content);
    forall i | 1 <= i < |porcelain| && IsContentLine(porcelain[i])
      && (forall j :: i < j < |porcelain| ==> !IsContentLine(porcelain[j]))
      ensures LastWriteAt(body, Content, i - 1)
    {
      assert forall j :: i - 1 < j < |body| ==> body[j] == porcelain[j + 1];
    }
  }

  /** The boundary flag is set exactly when some body line is the bare word
      `boundary`. */
  lemma BoundaryIffBoundaryLine(porcelain: seq<string>)
    requires |porcelain| > 0 && !AllWhitespace(porcelain[0])
    ensures ParseOneBlame(porcelain).Ok?
    ensures ParseOneBlame(porcelain).value.boundary <==>
      exists i :: 1 <= i < |porcelain| && porcelain[i] == "boundary"
  {
    var body := porcelain[1..];
    ParseOneBlameBody(porcelain, Boundary);
    var flag := ParseOneBlame(porcelain).value.boundary;
    assert Get(ParseOneBlame(porcelain).value, Boundary) == Flag(flag);
    if exists i :: 1 <= i < |porcelain| && porcelain[i] == "boundary" {
      var i :| 1 <= i < |porcelain| && porcelain[i] == "boundary";
      assert body[i - 1] == porcelain[i];
      WritesBoundary(body[i - 1]);
      LastWriteExists(body, Boundary);
      var j :| LastWriteAt(body, Boundary, j);
      WritesBoundary(body[j]);
    } else {
      assert NoWrite(body, Boundary) by {
        forall j | 0 <= j < |body| ensures Writes(body[j], Boundary).None? {
          assert body[j] == porcelain[j + 1];
          WritesBoundary(body[j]);
        }
      }
    }
  }

  lemma WritesBoundary(line: string)
    ensures Writes(line, Boundary) == if line == "boundary" then Some(Flag(true)) else None
  {
  }

  /** The keys the parser recognises. */
  /** A key the parser recognises: one of the single-field keys, or
      `previous`. */
  predicate IsKnownKey(k: string)
  {
    KeyField(k).Some? || k == "previous"
  }

  /** A recognised single-field key line sets its own field to the text after
      the first space and leaves every other field as it was. */
  lemma KeyedLineSetsOnlyItsField(b: Blame, f: Field, v: string)
    requires FieldKey(f).Some?
    ensures Step(b, FieldKey(f).value + " " + v) == SetKeyed(b, f, v)
  {
    var key := FieldKey(f).value;
    assert ' ' !in key && !StartsWithChar(key, '\t');
    StepKeyValue(b, key, v);
    ApplyKeyValueSetKeyed(b, f, v);
  }

  lemma ApplyKeyValueSetKeyed(b: Blame, f: Field, v: string)
    requires FieldKey(f).Some?
    ensures ApplyKeyValue(b, FieldKey(f).value, v) == SetKeyed(b, f, v)
  {
    KeyFieldOfFieldKey(f);
  }

  /** `KeyField` undoes `FieldKey`. */
  lemma KeyFieldOfFieldKey(f: Field)
    requires FieldKey(f).Some?
    ensures KeyField(FieldKey(f).value) == Some(f)
  {
    match f
    case Filename =>
    case Summary =>
    case Author =>
    case AuthorMail =>
    case AuthorTime =>
    case AuthorTz =>
    case Committer =>
    case CommitterMail =>
    case CommitterTime =>
    case CommitterTz =>
  }

  /** A line made of a key without spaces, one space and a value is
      dispatched on that key and value. */
  lemma StepKeyValue(b: Blame, k: string, v: string)
    requires ' ' !in k && !StartsWithChar(k, '\t')
    ensures Step(b, k + " " + v) == ApplyKeyValue(b, k, v)
  {
    var line := k + " " + v;
    SplitOnceJoin(k, ' ', v);
    assert line == k + [' '] + v;
    assert !IsContentLine(line) by {
      if |k| == 0 { assert line[0] == ' '; } else { assert line[0] == k[0]; }
    }
  }

  /** The `previous` key sets both previous fields from a value split at its
      first space, and nothing when the value has no space. */
  lemma ApplyPrevious(b: Blame, v: string)
    ensures ApplyKeyValue(b, "previous", v) ==
      match SplitOnce(v, ' ')
      case Some((c, p)) => b.(previousCommit := Some(c), previousFilepath := Some(p))
      case None => b
  {
    assert KeyField("previous") == None;
  }

  /** A `previous` line whose value has a space sets both previous fields,
      split at that first space. */
  lemma PreviousLineSetsPair(b: Blame, commit: string, path: string)
    requires ' ' !in commit
    ensures Step(b, "previous " + commit + " " + path)
      == b.(previousCommit := Some(commit), previousFilepath := Some(path))
  {
    var v := commit + " " + path;
    assert "previous " + commit + " " + path == "previous" + " " + v;
    StepKeyValue(b, "previous", v);
    ApplyPrevious(b, v);
    SplitOnceJoin(commit, ' ', path);
    assert v == commit + [' '] + path;
  }

  /** A `previous` line whose value has no space changes nothing, so neither
      previous field is set by it. */
  lemma PreviousWithoutSpaceIgnored(b: Blame, v: string)
    requires ' ' !in v
    ensures Step(b, "previous " + v) == b
  {
    assert "previous " + v == "previous" + " " + v;
    StepKeyValue(b, "previous", v);
    ApplyPrevious(b, v);
  }

  /** A line whose key is not recognised changes nothing. */
  lemma UnknownKeyIgnored(b: Blame, k: string, v: string)
    requires ' ' !in k && !IsKnownKey(k)
    requires !StartsWithChar(k, '\t')
    ensures Step(b, k + " " + v) == b
  {
    StepKeyValue(b, k, v);
    assert KeyField(k) == None;
  }

  /** A line without a space that is not a content line changes nothing
      unless it is exactly `boundary`. */
  lemma BareWordIgnored(b: Blame, line: string)
    requires ' ' !in line && !IsContentLine(line) && line != "boundary"
    ensures Step(b, line) == b
  {
  }

  /** The bare word `boundary` sets the flag and nothing else. */
  lemma BoundaryLineSetsFlag(b: Blame)
    ensures Step(b, "boundary") == b.(boundary := true)
  {
    assert ' ' !in "boundary";
    assert SplitOnce("boundary", ' ') == None;
  }

  /** A tab-prefixed line sets `content` to the text after the tab and
      nothing else. */
  lemma ContentLineSetsContent(b: Blame, text: string)
    ensures Step(b, "\t" + text) == b.(content := text)
  {
    assert ("\t" + text)[1..] == text;
  }

  /** Folding over one more line is one more step. */
  lemma ApplyLinesSnoc(b: Blame, lines: seq<string>, line: string)
    ensures ApplyLines(b, lines + [line]) == Step(ApplyLines(b, lines), line)
  {
    assert (lines + [line])[..|lines|] == lines;
  }
}
