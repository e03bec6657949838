# git-blame-parser in Dafny

A model of the parser for `git blame --line-porcelain` output in `src/lib.rs`,
with proofs of what it does.

The porcelain output is a sequence of lines. Each blamed source line produces
one **blob**:

- a header line `<commit> <original line> <final line> [<group size>]`;
- metadata lines `key value` (`author`, `author-mail`, `author-time`, `summary`,
  `previous <commit> <path>`, the bare word `boundary`, ...);
- a **content line**: a tab followed by the source text. This line ends the blob.

The library has three parts. `parse` splits the text into lines and cuts the
lines into blobs at every content line. `parse_one_blame` turns one blob into
a `Blame` record. `Blame::short_commit` abbreviates the commit hash.

The project mirrors that structure:

| file | module | models |
|---|---|---|
| `wrappers.dfy` | `Wrappers` | `Option` |
| `strings.dfy` | `Strings` | Rust's `split_once`, `split_whitespace` and `str::lines` |
| `numbers.dfy` | `Numbers` | `str::parse` for `usize`/`u64` and the `unwrap_or(0)` fallback |
| `record.dfy` | `BlameRecord` | the `Blame` struct, `short_commit`, the three outcomes of a parse |
| `folds.dfy` | `Folds` | left folds and which step last wrote a component |
| `parser.dfy` | `RecordParser` | `parse_one_blame`: header, then one `Step` per body line |
| `segmenter.dfy` | `Segmenter` | `parse`: lines to blobs to records |
| `examples.dfy` | `Examples` | the library's own test expectations and edge cases, stated generically |

Design points:

- **Outcomes.** A parse returns `Ok(value)`, `Err(ParseError(message))` or
  `Panic(reason)`. Rust panics on `parts[0]` when line 0 of a blob has no
  token. That panic is a third outcome, not a precondition, so `Parse` takes
  any input. The `"no header"` error is a different thing: it happens only
  for an empty blob, and `Parse` never returns it.
- **Body lines as a fold.** `ParseOneBlame` reads line 0 as the header. It
  then folds `Step` over the remaining lines.
- **A reference grammar to check `Step` against.** `Writes(line, f)` says,
  field by field, what a line writes. It is defined independently of how
  `Step` dispatches: keys are matched by the prefix `key + " "`, not by
  splitting at the first space. `StepWrites` proves the two agree.
  `ApplyLinesLastWrite` lifts that agreement to a whole blob: each field holds
  what the last line writing it wrote.
- **Key lookup.** The source's `match` on keys is modelled as `KeyField`
  (key to field) followed by `SetKeyed` (set that field). The `previous`
  key sets two fields and is handled on its own. `KeyFieldOfFieldKey` proves
  `KeyField` undoes `FieldKey`.
- **Segmenting.** `Segment` is a recursive segmenter carrying the blob being
  collected. `ParseLoop` is the source's `while let` loop, proved equal to
  `Parse`.

A line `summary: Initial commit` splits at its first space into the key
`summary:`, which the parser does not know, so the summary stays empty
(`Examples.SummaryWithColon`).

The proofs by induction that carry the weight are `Folds.FoldLastHit`,
`Folds.LastHitExists` and `Folds.FoldPreserves` (what a fold of `Step`
leaves in each field), `Segmenter.SegmentPartition` (how the lines split into
blobs) and the loop invariants of `RecordParser.ParseOneBlameLoop` and
`Segmenter.ParseLoop`.

## Model

| member | source | states |
|---|---|---|
| BlameRecord.ShortCommit | src/lib.rs:76-78 | the short hash is a prefix of the commit, `min(7, len)` characters long |
| Examples.ShortCommitOfFullHash | src/lib.rs:251-257 | the test's 40-character hash shortens to `abcdefg` |
| RecordParser.ParseOneBlame | src/lib.rs:83-99 | an empty blob, and only an empty blob, is the `"no header"` error; a blob whose line 0 is blank or all whitespace, and only such a blob, panics; otherwise the commit is token 0 of line 0 and the two line numbers are the parse-or-0 of tokens 1 and 2, or 0 when absent; the commit is a whitespace-free token; the two previous fields are both set or both unset |
| RecordParser.ParseOneBlameLoop | src/lib.rs:83-143 | the source's loop over `porcelain.iter().skip(1)` computes the same outcome as the fold |
| RecordParser.HeaderRecord | src/lib.rs:87-96 | the record after the header has every field at its default except the commit and the two line numbers, and a line number whose token is missing is 0 |
| RecordParser.Step | src/lib.rs:102-139 | one body line never changes the commit or the line numbers, changes `content` only if it starts with a tab, sets `boundary` exactly when it is the bare word `boundary` (once set, it stays), and keeps the two previous fields paired; `StepWrites` states its full effect |
| RecordParser.ApplyKeyValue | src/lib.rs:107-137 | a `key value` line never changes the header fields, `content` or `boundary`, and keeps the previous fields paired; `ApplyKeyValueKeyed` and `PreviousLineWrites` state what it does set |
| RecordParser.KeyField | src/lib.rs:108-123 | a key names a field exactly when it is that field's key, and a key no field has names none |
| RecordParser.SetKeyed | src/lib.rs:108-123 | the keyed field gets the line's text (parse-or-0 for the two times), and the header fields, `content`, `boundary` and the previous fields are unchanged |
| RecordParser.HeaderLine | src/lib.rs:87-96 | a header made of single-space-separated tokens gives the record those tokens describe, which the body then updates |
| RecordParser.ApplyLines | src/lib.rs:102-140 | folding the body lines never changes the commit or the two line numbers, and keeps the previous commit and path both set or both unset; `ApplyLinesLastWrite` states what each other field ends up holding |
| RecordParser.StepWrites | src/lib.rs:102-139 | one body line changes each field exactly as the reference grammar `Writes` says, and leaves every field it does not write unchanged |
| RecordParser.ContentLineWrites | src/lib.rs:103-105 | a tab-prefixed line writes only `content` |
| RecordParser.BareLineWrites | src/lib.rs:132-135 | a line without a space writes at most the boundary flag |
| RecordParser.KeyValueLineWrites | src/lib.rs:107-137 | a `key value` line writes only the field(s) its key names |
| RecordParser.ApplyLinesLastWrite | src/lib.rs:102-140 | after all body lines, every field holds what the last line writing it wrote, or its starting value if no line writes it |
| RecordParser.ParseOneBlameBody | src/lib.rs:84-142 | the same for a whole blob: fields start at their defaults, and line 0 is never read as a body line |
| RecordParser.ContentIsLastTabLine | src/lib.rs:102-105 | `content` is the last body line starting with a tab, minus exactly one tab, or empty if there is none |
| RecordParser.ContentLineSetsContent | src/lib.rs:103-105 | a tab line sets `content` to the text after the tab and changes nothing else |
| RecordParser.KeyedLineSetsOnlyItsField | src/lib.rs:107-123 | `filename`, `summary`, `author`, `author-mail`, `author-time`, `author-tz` and the four `committer` keys each set their own field from the text after the first space (parse-or-0 for the two times) |
| RecordParser.GetSetKeyed | src/lib.rs:108-123 | setting a keyed field changes that field and no other |
| RecordParser.KeyFieldOfFieldKey | src/lib.rs:108-123 | every key of a single-field line dispatches to the field it names |
| RecordParser.ApplyKeyValueKeyed | src/lib.rs:107-123 | a split `key value` pair changes a keyed field exactly when the key is that field's key |
| RecordParser.PreviousLineWrites | src/lib.rs:125-130 | the previous fields change only on a `previous` line, and then as the reference grammar says |
| RecordParser.PreviousLineSetsPair | src/lib.rs:125-129 | `previous <c> <p>` sets both previous fields, split at the first space of the value |
| RecordParser.PreviousWithoutSpaceIgnored | src/lib.rs:125-130 | a `previous` value without a space changes nothing |
| RecordParser.StepKeepsPaired | src/lib.rs:125-130 | every line keeps the previous commit and previous path both set or both unset |
| RecordParser.BoundaryIffBoundaryLine | src/lib.rs:132-135 | `boundary` is true exactly when some body line is the bare word `boundary` |
| RecordParser.BoundaryLineSetsFlag | src/lib.rs:132-133 | the line `boundary` sets the flag and nothing else |
| RecordParser.BareWordIgnored | src/lib.rs:132-134 | any other line without a space, not starting with a tab, changes nothing |
| RecordParser.UnknownKeyIgnored | src/lib.rs:137 | a line whose key is not one of the eleven known keys changes nothing |
| RecordParser.StepKeyValue | src/lib.rs:106-107 | a line made of a space-free key, a space and a value is dispatched on exactly that key and value |
| Numbers.ParseUnsigned | src/lib.rs:92 | a value is produced exactly for one optional `+` followed by one or more ASCII digits |
| Numbers.ParseNatOrZero | src/lib.rs:92-95 | an unsigned literal gives its value, anything else 0 |
| Numbers.ParseU64OrZero | src/lib.rs:113-121 | a non-zero result is the literal's value; a literal whose value fits in 64 bits gives that value |
| Numbers.ParseUnsignedLeadingZeros | src/lib.rs:92 | a number written after any count of leading zeros, with or without `+`, parses to that number (`"007"` is 7) |
| Numbers.DigitsShape | src/lib.rs:92 | every digit string is its value's shortest rendering after some leading zeros |
| Numbers.ParseUnsignedEveryLiteral | src/lib.rs:92 | so every unsigned literal parses to the number it writes after its sign and leading zeros |
| Numbers.ParseUnsignedRoundTrip | src/lib.rs:92 | every decimal rendering, with or without `+`, parses back to its number |
| Numbers.ParseNatOrZeroRoundTrip | src/lib.rs:91-96 | the line-number fallback reads every rendered number back |
| Numbers.ParseU64OrZeroRange | src/lib.rs:113-114 | a time that fits in 64 bits reads back; a larger one becomes 0 |
| Numbers.ParseOrZeroTolerant | src/lib.rs:120-121 | anything that is not an unsigned literal becomes 0 |
| Strings.SplitOnce | src/lib.rs:107 | the result is the text before and after the first occurrence of the separator, and is absent exactly when the separator does not occur |
| Strings.SplitOnceJoin | src/lib.rs:126 | splitting `k + c + v` at `c`, with no `c` in `k`, gives back `(k, v)` |
| Strings.SplitWhitespace | src/lib.rs:88 | every token is non-empty and free of whitespace, and there are no tokens exactly when the line is all whitespace |
| Strings.SplitWhitespaceJoin | src/lib.rs:88 | tokens joined by single spaces split back into the same tokens |
| Strings.SplitWhitespaceSkipsLeading | src/lib.rs:88 | leading whitespace does not change the tokens |
| Strings.Lines | src/lib.rs:148 | no line contains a line feed, and there are no lines exactly when the text is empty |
| Strings.LinesUnlines | src/lib.rs:148 | newline-terminated lines split back into the same lines: a final line feed adds no empty line |
| Strings.LinesLast | src/lib.rs:148 | a non-empty text without a line feed is one line, kept whole, a trailing carriage return included |
| Strings.LinesUnlinesLast | src/lib.rs:148 | a last line without a line feed after it is still a line, after the newline-terminated lines before it |
| Strings.LinesUnlinesCRLF | src/lib.rs:148 | with CRLF line ends the carriage return goes with the line break |
| Segmenter.Parse | src/lib.rs:147-167 | never the `"no header"` error; empty text gives no records; on success, one record per content line |
| Segmenter.ParseLoop | src/lib.rs:147-167 | the source's loop, which returns at the first failing blob, computes `Parse` |
| Segmenter.Segment | src/lib.rs:151-163 | one blob is completed per content line read; `SegmentPartition` states the full partition |
| Segmenter.SegmentPartition | src/lib.rs:151-163 | the blobs are well formed (one content line, at the end), one per content line, their concatenation is a prefix of the input, and what follows the last blob has no content line |
| Segmenter.BlobsAreNonEmpty | src/lib.rs:151-163 | the same for a whole input: every blob handed on holds at least its content line |
| Segmenter.Collect | src/lib.rs:157-160 | all records in order when every blob parses, otherwise the first failure |
| Segmenter.ParseRecords | src/lib.rs:152-166 | success exactly when every blob's header holds a token, a panic exactly when some blob's header does not, and record `k` is the parse of blob `k` |
| Segmenter.ParseBlobsOutcome | src/lib.rs:152-166 | for well-formed blobs: success exactly when every header holds a token, a panic exactly when some header does not, and record `k` is the parse of blob `k` |
| Segmenter.ContentLineClosesBlob | src/lib.rs:156-163 | a content line parses the current blob first, and the rest follows only if that succeeds |
| Segmenter.ParseIgnoresTrailing | src/lib.rs:152-166 | lines after the last content line never change the result |
| Segmenter.ParseAppend | src/lib.rs:147-167 | input ending in a content line parses independently of what follows |
| Segmenter.ParseUnlinesLast | src/lib.rs:148-163 | text whose last line has no line feed after it parses as all its lines, the last one included |
| Segmenter.ParseUnlines | src/lib.rs:148 | text made of newline-terminated lines parses as those lines |
| Segmenter.ParseSingleBlob | src/lib.rs:152-166 | the lines of one blob give exactly one record |
| Examples.HeaderTokens | src/lib.rs:87-96 | header `<commit> <n> <m>` gives that commit and those line numbers |
| Examples.LoneContentLine | src/lib.rs:87-105 | a blob of only `\t<text>` reads `<text>` as the commit and leaves `content` empty |
| Examples.EmptyHeaderPanics | src/lib.rs:88-89 | a blob with an empty header line panics rather than reporting `"no header"` |
| Examples.BlankHeaderPanics | src/lib.rs:87-89 | an empty header line followed by any content line panics, for every content line |
| Examples.SummaryWithColon | src/lib.rs:107-137 | in `summary: x` the key is `summary:`, so the summary stays empty, while `boundary` sets the flag |
| Examples.SummaryWithColonText | src/lib.rs:147-167 | the same blob as text parses to that one record |
| Examples.BlobTextUnterminated | src/lib.rs:147-167 | one blob whose content line ends the text without a line feed still parses to exactly that blob's record |
| Examples.BlobText | src/lib.rs:147-167 | one blob written out as newline-terminated text parses to exactly that blob's record |
| Examples.PlaceholderIdentity | src/lib.rs:234-249 | the "Not Committed Yet" author and committer lines come through unchanged |

## Left out

- The demo program `demo.rs`: it runs `git` as a subprocess, checks paths and prints results. All of that is I/O.
- The `Display` and `Error` impls of `ParseError` (`src/lib.rs:9-15`): message formatting only. The error is an opaque message.
- The test fixture files under `tests/`, which the tests read from disk, are not part of this model. Their expectations appear as generic lemmas over the same line shapes (`Examples`).
- Strings.IsWhitespace: only the ASCII whitespace characters (tab, line feed, vertical tab, form feed, carriage return, space) are modelled. Rust's `split_whitespace` also splits on the non-ASCII Unicode White_Space characters.
- BlameRecord.ShortCommit: lengths are counted in characters, not bytes, because strings are sequences of characters. Rust's `7.min(self.commit.len())` counts UTF-8 bytes, so for a non-ASCII commit the result can differ (`"é"` followed by seven `a`s keeps six characters in Rust and seven here), and Rust can panic when byte 7 falls inside a character. Git hashes are ASCII, where the two agree.
- Numbers.ParseNatOrZero: `usize` is taken as unbounded, so a line number above the platform's `usize` maximum reads as its value instead of 0. The two `u64` times do model overflow to 0.
- Strings.Lines: a final line without a line feed keeps a trailing carriage return, as in current Rust (`Strings.LinesLast`). Older Rust versions stripped it; that behaviour is not modelled.

## Findings

None. The panic on a blank header line and the unknown `summary:` key look
like surprises, but they are what the code does, and the model reproduces them.
