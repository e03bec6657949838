/** The segmenter: splits the whole porcelain output into blobs, each ended
    by its tab-prefixed content line, and parses every blob in order. */
module Segmenter {
  import opened Strings
  import opened BlameRecord
  import opened RecordParser
  import opened Folds

  /** The blobs completed while reading `lines`, given the lines `blob`
      already collected for the current one. A content line closes the
      current blob; lines left over after the last content line never form a
      blob. */
  function Segment(lines: seq<string>, blob: seq<string>): (r: seq<seq<string>>)
    ensures |r| == CountContentLines(lines)
    decreases |lines|
  {
    if |lines| == 0 then []
    else
      var current := blob + [lines[0]];
      if IsContentLine(lines[0]) then [current] + Segment(lines[1..], [])
      else Segment(lines[1..], current)
  }

  function Blobs(lines: seq<string>): seq<seq<string>>
  {
    Segment(lines, [])
  }

  /** A blob: lines without a content line, then exactly one content line. */
  ghost predicate IsBlob(blob: seq<string>)
  {
    && |blob| > 0
    && IsContentLine(blob[|blob| - 1])
    && forall i :: 0 <= i < |blob| - 1 ==> !IsContentLine(blob[i])
  }

  predicate NoContentLine(lines: seq<string>)
  {
    forall i :: 0 <= i < |lines| ==> !IsContentLine(lines[i])
  }

  function Flatten(blobs: seq<seq<string>>): seq<string>
  {
    if |blobs| == 0 then [] else blobs[0] + Flatten(blobs[1..])
  }

  function CountContentLines(lines: seq<string>): nat
  {
    if |lines| == 0 then 0
    else (if IsContentLine(lines[0]) then 1 else 0) + CountContentLines(lines[1..])
  }

  /** The blobs split `blob + lines` into well-formed blobs, one per content
      line, followed by a remainder that holds no content line. */
  lemma {:induction false} SegmentPartition(lines: seq<string>, blob: seq<string>)
    requires NoContentLine(blob)
    ensures var blobs := Segment(lines, blob);
      && (forall k :: 0 <= k < |blobs| ==> IsBlob(blobs[k]))
      && |blobs| == CountContentLines(lines)
      && Flatten(blobs) <= blob + lines
      && NoContentLine((blob + lines)[|Flatten(blobs)|..])
    decreases |lines|
  {
    if |lines| == 0 {
      assert blob + lines == blob;
    } else {
      var current := blob + [lines[0]];
      assert blob + lines == current + lines[1..];
      if IsContentLine(lines[0]) {
        SegmentPartition(lines[1..], []);
        var rest := Segment(lines[1..], []);
        assert Segment(lines, blob) == [current] + rest;
        assert ([current] + rest)[1..] == rest;
        assert Flatten([current] + rest) == current + Flatten(rest);
        assert [] + lines[1..] == lines[1..];
        assert (current + lines[1..])[|current + Flatten(rest)|..] == lines[1..][|Flatten(rest)|..];
      } else {
        assert NoContentLine(current);
        SegmentPartition(lines[1..], current);
      }
    }
  }

  /** Every blob the segmenter hands on holds at least its content line, so
      the "no header" error can never arise from it. */
  lemma BlobsAreNonEmpty(lines: seq<string>)
    ensures forall k :: 0 <= k < |Blobs(lines)| ==> IsBlob(Blobs(lines)[k])
    ensures |Blobs(lines)| == CountContentLines(lines)
    ensures Flatten(Blobs(lines)) <= lines
    ensures NoContentLine(lines[|Flatten(Blobs(lines))|..])
  {
    SegmentPartition(lines, []);
    assert [] + lines == lines;
  }

  /** Lines after the last content line are dropped: appending lines without
      a content line changes no blob. */
  lemma {:induction false} SegmentIgnoresTrailing(lines: seq<string>, tail: seq<string>, blob: seq<string>)
    requires NoContentLine(tail)
    ensures Segment(lines + tail, blob) == Segment(lines, blob)
    decreases |lines| + |tail|
  {
    if |lines| == 0 {
      assert lines + tail == tail;
      TailMakesNoBlob(tail, blob);
    } else {
      assert (lines + tail)[0] == lines[0];
      assert (lines + tail)[1..] == lines[1..] + tail;
      var current := blob + [lines[0]];
      if IsContentLine(lines[0]) {
        SegmentIgnoresTrailing(lines[1..], tail, []);
      } else {
        SegmentIgnoresTrailing(lines[1..], tail, current);
      }
    }
  }

  lemma {:induction false} TailMakesNoBlob(tail: seq<string>, blob: seq<string>)
    requires NoContentLine(tail)
    ensures Segment(tail, blob) == []
    decreases |tail|
  {
    if |tail| > 0 {
      assert !IsContentLine(tail[0]);
      TailMakesNoBlob(tail[1..], blob + [tail[0]]);
    }
  }

  /** Input that ends with a content line segments independently of what
      follows it. */
  lemma {:induction false} SegmentAppend(a: seq<string>, b: seq<string>, blob: seq<string>)
    requires |a| > 0 && IsContentLine(a[|a| - 1])
    ensures Segment(a + b, blob) == Segment(a, blob) + Segment(b, [])
    decreases |a|
  {
    assert (a + b)[0] == a[0];
    assert (a + b)[1..] == a[1..] + b;
    var current := blob + [a[0]];
    if |a| == 1 {
      assert a[1..] + b == b;
      assert Segment(a[1..], []) == [];
      assert Segment(a[1..], current) == [];
    } else if IsContentLine(a[0]) {
      SegmentAppend(a[1..], b, []);
    } else {
      SegmentAppend(a[1..], b, current);
    }
  }

  // ----- parsing the blobs -----

  /** `xs` in front of the values of a successful outcome; a failure is
      passed on unchanged. */
  function Prepend<T>(xs: seq<T>, r: Outcome<seq<T>>): Outcome<seq<T>>
  {
    match r
    case Ok(ys) => Ok(xs + ys)
    case Err(e) => Err(e)
    case Panic(m) => Panic(m)
  }

  /** A failed outcome, retyped for the whole sequence. */
  function Failed<T>(r: Outcome<T>): Outcome<seq<T>>
    requires !r.Ok?
  {
    match r
    case Err(e) => Err(e)
    case Panic(m) => Panic(m)
  }

  /** `k` is the first failed outcome of `rs`. */
  ghost predicate FirstFailureAt<T>(rs: seq<Outcome<T>>, k: int)
  {
    && 0 <= k < |rs|
    && !rs[k].Ok?
    && forall j :: 0 <= j < k ==> rs[j].Ok?
  }

  /** Runs outcomes in order and stops at the first failure: either every
      outcome succeeds and their values are collected in order, or the first
      failure is the result. */
  function Collect<T>(rs: seq<Outcome<T>>): (r: Outcome<seq<T>>)
    ensures r.Ok? <==> forall k :: 0 <= k < |rs| ==> rs[k].Ok?
    ensures r.Ok? ==> |r.value| == |rs| && forall k :: 0 <= k < |rs| ==> rs[k] == Ok(r.value[k])
    ensures !r.Ok? ==> exists k :: FirstFailureAt(rs, k) && r == Failed(rs[k])
  {
    if |rs| == 0 then Ok([])
    else
      match rs[0]
      case Ok(x) =>
        var rest := Collect(rs[1..]);
        assert forall k :: 0 < k < |rs| ==> rs[k] == rs[1..][k - 1];
        assert !rest.Ok? ==> exists k :: FirstFailureAt(rs, k) && Prepend([x], rest) == Failed(rs[k]) by {
          if !rest.Ok? {
            var k :| FirstFailureAt(rs[1..], k) && rest == Failed(rs[1..][k]);
            assert FirstFailureAt(rs, k + 1);
          }
        }
        Prepend([x], rest)
      case Err(e) =>
        assert FirstFailureAt(rs, 0);
        Err(e)
      case Panic(m) =>
        assert FirstFailureAt(rs, 0);
        Panic(m)
  }

  /** Collecting two runs one after the other. */
  lemma {:induction false} CollectAppend<T>(xs: seq<Outcome<T>>, ys: seq<Outcome<T>>)
    ensures Collect(xs).Ok? ==> Collect(xs + ys) == Prepend(Collect(xs).value, Collect(ys))
    ensures !Collect(xs).Ok? ==> Collect(xs + ys) == Collect(xs)
    decreases |xs|
  {
    if |xs| == 0 {
      assert xs + ys == ys;
      assert Collect(xs).value == [];
      match Collect(ys) {
        case Ok(v) => assert [] + v == v;
        case Err(_) =>
        case Panic(_) =>
      }
    } else {
      var x, rest := xs[0], xs[1..];
      assert xs == [x] + rest;
      assert xs + ys == [x] + (rest + ys);
      CollectAppend(rest, ys);
      CollectCons(x, rest);
      CollectCons(x, rest + ys);
      if x.Ok? && Collect(rest).Ok? {
        PrependTwice([x.value], Collect(rest).value, Collect(ys));
      }
    }
  }

  /** The outcome of parsing each blob on its own. */
  function Outcomes(blobs: seq<seq<string>>): (rs: seq<Outcome<Blame>>)
    ensures |rs| == |blobs|
    ensures forall k :: 0 <= k < |blobs| ==> rs[k] == ParseOneBlame(blobs[k])
  {
    Map(ParseOneBlame, blobs)
  }

  /** Parses the blobs in order and stops at the first one that fails. */
  function ParseBlobs(blobs: seq<seq<string>>): Outcome<seq<Blame>>
  {
    Collect(Outcomes(blobs))
  }

  /** The records of a list of lines. */
  function ParseLines(lines: seq<string>): Outcome<seq<Blame>>
  {
    ParseBlobs(Blobs(lines))
  }

  /** Parses the whole porcelain output: one record per content line, in
      input order. It never fails with "no header"; it panics when some
      blob's header line has no token. */
  function Parse(porcelain: string): (r: Outcome<seq<Blame>>)
    ensures !r.Err?
    ensures porcelain == "" ==> r == Ok([])
    ensures r.Ok? ==> |r.value| == CountContentLines(Lines(porcelain))
  {
    var lines := Lines(porcelain);
    BlobsAreNonEmpty(lines);
    assert forall k :: 0 <= k < |Blobs(lines)| ==> !Outcomes(Blobs(lines))[k].Err?;
    ParseLines(lines)
  }

  /** The loop of the source: collect lines into the current blob, parse it
      when a content line arrives, and return at the first failure. */
  method ParseLoop(porcelain: string) returns (r: Outcome<seq<Blame>>)
    ensures r == Parse(porcelain)
  {
    var lines := Lines(porcelain);
    var blames: seq<Blame> := [];
    var blob: seq<string> := [];
    var i := 0;
    assert lines[0..] == lines;
    PrependNothing(ParseBlobs(Blobs(lines)));
    while i < |lines|
      invariant 0 <= i <= |lines|
      invariant Prepend(blames, ParseBlobs(Segment(lines[i..], blob))) == Parse(porcelain)
    {
      var line := lines[i];
      assert lines[i..][0] == line && lines[i..][1..] == lines[i + 1..];
      if IsContentLine(line) {
        ContentLineClosesBlob(blob, lines[i..]);
      }
      blob := blob + [line];
      if IsContentLine(line) {
        match ParseOneBlame(blob) {
          case Ok(b) =>
            PrependTwice(blames, [b], ParseBlobs(Segment(lines[i + 1..], [])));
            blames := blames + [b];
          case Err(e) =>
            return Err(e);
          case Panic(m) =>
            return Panic(m);
        }
        blob := [];
      }
      i := i + 1;
    }
    assert lines[i..] == [];
    assert Outcomes([]) == [];
    assert blames + [] == blames;
    return Ok(blames);
  }

  /** A content line closes the current blob: that blob is parsed first, and
      the rest follows only if it succeeds. */
  lemma ContentLineClosesBlob(blob: seq<string>, lines: seq<string>)
    requires |lines| > 0 && IsContentLine(lines[0])
    ensures ParseBlobs(Segment(lines, blob)) ==
      match ParseOneBlame(blob + [lines[0]])
      case Ok(b) => Prepend([b], ParseBlobs(Segment(lines[1..], [])))
      case Err(e) => Err(e)
      case Panic(m) => Panic(m)
  {
    var current := blob + [lines[0]];
    var rest := Segment(lines[1..], []);
    assert Segment(lines, blob) == [current] + rest;
    OutcomesAppend([current], rest);
    assert Outcomes([current]) == [ParseOneBlame(current)];
    CollectCons(ParseOneBlame(current), Outcomes(rest));
  }

  /** Collecting after one more outcome in front. */
  lemma CollectCons<T>(x: Outcome<T>, rs: seq<Outcome<T>>)
    ensures x.Ok? ==> Collect([x] + rs) == Prepend([x.value], Collect(rs))
    ensures !x.Ok? ==> Collect([x] + rs) == Failed(x)
  {
    assert ([x] + rs)[0] == x;
    assert ([x] + rs)[1..] == rs;
  }

  /** Parsing blobs one after the other parses each in turn. */
  lemma OutcomesAppend(xs: seq<seq<string>>, ys: seq<seq<string>>)
    ensures Outcomes(xs + ys) == Outcomes(xs) + Outcomes(ys)
  {
    MapAppend(ParseOneBlame, xs, ys);
  }

  lemma PrependNothing<T>(r: Outcome<seq<T>>)
    ensures Prepend([], r) == r
  {
    if r.Ok? {
      assert [] + r.value == r.value;
    }
  }

  lemma PrependTwice<T>(xs: seq<T>, ys: seq<T>, r: Outcome<seq<T>>)
    ensures Prepend(xs, Prepend(ys, r)) == Prepend(xs + ys, r)
  {
    if r.Ok? {
      assert xs + (ys + r.value) == (xs + ys) + r.value;
    }
  }

  /** Every blob's header line holds a token. */
  predicate HeadersHaveTokens(blobs: seq<seq<string>>)
  {
    forall k :: 0 <= k < |blobs| ==> |blobs[k]| > 0 && !AllWhitespace(blobs[k][0])
  }

  /** Some blob's header line holds no token. */
  predicate SomeHeaderBlank(blobs: seq<seq<string>>)
  {
    exists k :: 0 <= k < |blobs| && |blobs[k]| > 0 && AllWhitespace(blobs[k][0])
  }

  /** Record `k` is the parse of blob `k`; the parse succeeds exactly when
      every blob's header line holds a token, and otherwise panics. */
  lemma ParseRecords(porcelain: string)
    ensures Parse(porcelain).Ok? <==> HeadersHaveTokens(Blobs(Lines(porcelain)))
    ensures Parse(porcelain).Panic? <==> SomeHeaderBlank(Blobs(Lines(porcelain)))
    ensures Parse(porcelain).Ok? ==>
      forall k :: 0 <= k < |Blobs(Lines(porcelain))| ==>
        Parse(porcelain).value[k] == ParseOneBlame(Blobs(Lines(porcelain))[k]).value
  {
    var blobs := Blobs(Lines(porcelain));
    BlobsAreNonEmpty(Lines(porcelain));
    ParseBlobsOutcome(blobs);
    assert Parse(porcelain) == ParseBlobs(blobs);
  }

  /** `ParseRecords` for a list of well-formed blobs. */
  lemma ParseBlobsOutcome(blobs: seq<seq<string>>)
    requires forall k :: 0 <= k < |blobs| ==> IsBlob(blobs[k])
    ensures ParseBlobs(blobs).Ok? <==> HeadersHaveTokens(blobs)
    ensures ParseBlobs(blobs).Panic? <==> SomeHeaderBlank(blobs)
    ensures ParseBlobs(blobs).Ok? ==>
      forall k :: 0 <= k < |blobs| ==> ParseBlobs(blobs).value[k] == ParseOneBlame(blobs[k]).value
  {
    var rs := Outcomes(blobs);
    forall k | 0 <= k < |blobs|
      ensures rs[k].Ok? <==> |blobs[k]| > 0 && !AllWhitespace(blobs[k][0])
      ensures rs[k].Panic? <==> |blobs[k]| > 0 && AllWhitespace(blobs[k][0])
    {
      assert IsBlob(blobs[k]);
      assert rs[k] == ParseOneBlame(blobs[k]);
    }
    if !Collect(rs).Ok? {
      var k :| FirstFailureAt(rs, k) && Collect(rs) == Failed(rs[k]);
      assert rs[k].Panic?;
    }
  }

  /** Lines after the last content line never change the result. */
  lemma ParseIgnoresTrailing(lines: seq<string>, tail: seq<string>)
    requires NoContentLine(tail)
    ensures ParseLines(lines + tail) == ParseLines(lines)
  {
    SegmentIgnoresTrailing(lines, tail, []);
  }

  /** Output that ends with a content line parses independently of what
      follows: the records of the whole are those of the two parts. */
  lemma ParseAppend(a: seq<string>, b: seq<string>)
    requires |a| > 0 && IsContentLine(a[|a| - 1])
    ensures ParseLines(a).Ok? ==> ParseLines(a + b) == Prepend(ParseLines(a).value, ParseLines(b))
    ensures !ParseLines(a).Ok? ==> ParseLines(a + b) == ParseLines(a)
  {
    SegmentAppend(a, b, []);
    ParseBlobsAppend(Blobs(a), Blobs(b));
  }

  lemma ParseBlobsAppend(xs: seq<seq<string>>, ys: seq<seq<string>>)
    ensures ParseBlobs(xs).Ok? ==> ParseBlobs(xs + ys) == Prepend(ParseBlobs(xs).value, ParseBlobs(ys))
    ensures !ParseBlobs(xs).Ok? ==> ParseBlobs(xs + ys) == ParseBlobs(xs)
  {
    OutcomesAppend(xs, ys);
    CollectAppend(Outcomes(xs), Outcomes(ys));
  }

  /** Text made of newline-terminated lines parses as those lines. */
  lemma ParseUnlines(lines: seq<string>)
    requires forall i :: 0 <= i < |lines| ==> '\n' !in lines[i] && !EndsWithCR(lines[i])
    ensures Parse(Unlines(lines)) == ParseLines(lines)
  {
    LinesUnlines(lines);
  }

  /** Text whose last line has no line feed after it parses as its lines,
      the last one included. */
  lemma ParseUnlinesLast(lines: seq<string>, last: string)
    requires forall i :: 0 <= i < |lines| ==> '\n' !in lines[i] && !EndsWithCR(lines[i])
    requires last != "" && '\n' !in last
    ensures Parse(Unlines(lines) + last) == ParseLines(lines + [last])
  {
    LinesUnlinesLast(lines, last);
  }

  /** Lines forming one blob give exactly that blob. */
  lemma {:induction false} SegmentSingleBlob(lines: seq<string>, blob: seq<string>)
    requires IsBlob(lines) && NoContentLine(blob)
    ensures Segment(lines, blob) == [blob + lines]
    decreases |lines|
  {
    var current := blob + [lines[0]];
    if |lines| == 1 {
      assert lines[1..] == [];
      assert current == blob + lines;
    } else {
      assert !IsContentLine(lines[0]);
      assert IsBlob(lines[1..]) by {
        assert forall i :: 0 <= i < |lines| - 2 ==> lines[1..][i] == lines[i + 1];
      }
      SegmentSingleBlob(lines[1..], current);
      assert current + lines[1..] == blob + lines;
    }
  }

  /** Lines forming one blob parse to the one record of that blob. */
  lemma ParseSingleBlob(lines: seq<string>)
    requires IsBlob(lines)
    ensures ParseOneBlame(lines).Ok? ==> ParseLines(lines) == Ok([ParseOneBlame(lines).value])
  {
    SegmentSingleBlob(lines, []);
    assert [] + lines == lines;
    var rs := Outcomes([lines]);
    assert rs[0] == ParseOneBlame(lines);
    if ParseOneBlame(lines).Ok? {
      var r := Collect(rs);
      assert r.Ok?;
      assert r.value == [ParseOneBlame(lines).value];
    }
  }
}
