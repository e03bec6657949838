/** The blame record: one per source line attributed by `git blame
    --line-porcelain`, with the commit metadata repeated for every line. */
module BlameRecord {
  import opened Wrappers
  import opened Numbers

  /** The error a parse can fail with; its text is rendered as is. */
  datatype ParseError = ParseError(message: string)

  /** What a parsing call does: return a value, return an error, or panic
      (Rust aborts the call; no value and no error reach the caller). */
  datatype Outcome<+T> = Ok(value: T) | Err(error: ParseError) | Panic(reason: string)

  datatype Blame = Blame(
    commit: string,
    originalLineNo: nat,
    finalLineNo: nat,
    filename: string,
    summary: string,
    content: string,
    previousCommit: Option<string>,
    previousFilepath: Option<string>,
    boundary: bool,
    author: string,
    authorMail: string,
    authorTime: u64,
    authorTz: string,
    committer: string,
    committerMail: string,
    committerTime: u64,
    committerTz: string)

  /** The record every parse starts from: empty strings, zeros, no previous
      commit and no boundary mark. */
  const Default: Blame := Blame("", 0, 0, "", "", "", None, None, false, "", "", 0, "", "", "", 0, "")

  /** The previous commit and the previous file path are set together or not
      at all. */
  predicate PreviousPaired(b: Blame)
  {
    b.previousCommit.Some? <==> b.previousFilepath.Some?
  }

  /** The abbreviated commit hash: its first seven characters, or the whole
      hash when it is shorter. */
  function ShortCommit(b: Blame): (r: string)
    ensures |r| == if |b.commit| < 7 then |b.commit| else 7
    ensures r <= b.commit
  {
    b.commit[..if |b.commit| < 7 then |b.commit| else 7]
  }

  // ----- field-wise view of a record -----

  /** The fields of a record, one constructor per field of `Blame`. */
  datatype Field =
    | Commit | OriginalLineNo | FinalLineNo
    | Filename | Summary | Content
    | PreviousCommit | PreviousFilepath | Boundary
    | Author | AuthorMail | AuthorTime | AuthorTz
    | Committer | CommitterMail | CommitterTime | CommitterTz

  /** The value held in one field. */
  datatype Value = Text(text: string) | Number(number: int) | MaybeText(maybe: Option<string>) | Flag(flag: bool)

  function Get(b: Blame, f: Field): Value
  {
    match f
    case Commit => Text(b.commit)
    case OriginalLineNo => Number(b.originalLineNo)
    case FinalLineNo => Number(b.finalLineNo)
    case Filename => Text(b.filename)
    case Summary => Text(b.summary)
    case Content => Text(b.content)
    case PreviousCommit => MaybeText(b.previousCommit)
    case PreviousFilepath => MaybeText(b.previousFilepath)
    case Boundary => Flag(b.boundary)
    case Author => Text(b.author)
    case AuthorMail => Text(b.authorMail)
    case AuthorTime => Number(b.authorTime as int)
    case AuthorTz => Text(b.authorTz)
    case Committer => Text(b.committer)
    case CommitterMail => Text(b.committerMail)
    case CommitterTime => Number(b.committerTime as int)
    case CommitterTz => Text(b.committerTz)
  }
}
