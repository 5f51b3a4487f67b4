# gpg result classification

A Dafny model of the gpg wrapper in `pkg/gpg/gpg.go`. The wrapper runs gpg to
decrypt a message (`Decrypt`) or to check a detached or inline signature
(`Verify`, `VerifyInline`). It then decides from the way gpg ended and from
what gpg wrote to standard error what to report. The result is a `Status`
(the signer, whether the signature is good, the recipients the message was
encrypted to) or an error.

gpg's diagnostics contain text chosen by whoever made the message: the signer
and recipient names. The model therefore proves what the wrapper promises
about that text:

- no ESC or CR byte reaches the caller;
- a good verdict comes only from a line that starts with
  `gpg: Good signature from "`;
- without a Good or a BAD line, the verify operations return no verdict;
- an exit other than a clean one or exit status 1 is an error.

The model has five modules:

- `Wrappers`: `Option` and `Result`.
- `Text`: the ESC/CR sanitizer, `strings.Trim(_, "\t ")` and the line
  structure of the stream.
- `Matchers`: the three regular expressions, written as predicates and
  functions over the lines of the stream.
- `Gpg`: `Status`, the handle, the process outcome, and the three operations.
  The datatype `Gpg.Status` has the four fields of the Go `Status` struct
  (pkg/gpg/gpg.go:20-26), and `Gpg.Handle` has the two fields of the `GPG`
  handle (pkg/gpg/gpg.go:37-41). Both are values and have no contract of their
  own; `Gpg.New` states how a handle starts out.
- `Scenarios`: concrete diagnostic streams and what the operations make of
  them.

The process is not run. Each operation receives the outcome of
`cmd.Start()`/`cmd.Wait()` as a `Run` value and the captured streams as
strings. Everything after that point follows the source. `Verify` and
`VerifyInline` share one method, `CheckSignature`, for their identical tails.
It works step by step as the source does: the exit gate, the BAD match, the
Good match overwriting it, then the `goodOrBad` flag. Its result is proved
equal to the declarative `VerifyOutcome`, so both operations are proved to
give the same answer. `Decrypt` appends one recipient per match in a loop,
proved against `DecryptedStatus`.

The regular expressions follow Go's RE2 semantics under `(?m)`:

- `^` matches at the start of every line.
- `.` and `[^\n]` never cross a newline.
- The greedy `(.*)"` captures up to the last quote of the line.
- `FindStringSubmatch` uses the first matching line.
- `FindAllStringSubmatch` collects non-overlapping matches, resuming after each.
- `\s` is `[\t\n\f\r ]`, so `\s*` can skip lines that are blank or hold only
  white space.

Two behaviours of the code a reader may not expect:

- `gpg: Good signature from ""` gives a good signature with an empty signer
  (`GoodWithEmptySignerScenario`).
- A recipient block is only matched when its quoted line is followed by a
  newline (`RecipientNeedsNewlineScenario`).

## Model

| member | source | states |
|---|---|---|
| Text.Sanitize | pkg/gpg/gpg.go:32 | the result of removing `[\033\r]` never holds ESC or CR and is no longer than the input |
| Text.SanitizeAppend | pkg/gpg/gpg.go:32 | sanitizing a concatenation is the concatenation of the sanitized parts, so removal works character by character and keeps order |
| Text.SanitizeChar | pkg/gpg/gpg.go:32 | a single character is removed exactly when it is ESC or CR; with SanitizeAppend this fixes the whole result |
| Text.SanitizePrintable | pkg/gpg/gpg.go:32 | text without ESC and CR passes through unchanged |
| Text.SanitizeIdempotent | pkg/gpg/gpg.go:32 | sanitizing twice gives the same as sanitizing once |
| Text.SanitizeKeepsOthers | pkg/gpg/gpg.go:32 | every character other than ESC and CR occurs in the result exactly as often as in the input |
| Text.LeadingBlanks | pkg/gpg/gpg.go:78 | counts the run of tabs and spaces at the start: all of them are blank and the next character is not |
| Text.TrailingBlanks | pkg/gpg/gpg.go:78 | counts the run of tabs and spaces at the end: all of them are blank and the character before is not |
| Text.Trim | pkg/gpg/gpg.go:78 | `strings.Trim(_, "\t ")` leaves neither end blank, is no longer than its input and adds no character |
| Text.TrimPadded | pkg/gpg/gpg.go:78 | tabs and spaces around a text whose ends are not blank are exactly what Trim removes |
| Text.Lines | pkg/gpg/gpg.go:29-31 | the lines `(?m)^` anchors to: at least one, none containing a newline, and joined with newlines they give back the stream |
| Text.LinesSingle | pkg/gpg/gpg.go:29-31 | a stream without a newline is one line |
| Text.LinesCons | pkg/gpg/gpg.go:29-31 | a newline-free head followed by a newline is the first line, and the rest are the lines after it |
| Text.LinesOfJoin | pkg/gpg/gpg.go:29-31 | splitting undoes joining for newline-free lines |
| Matchers.LastIndex | pkg/gpg/gpg.go:29-30 | where the greedy `.*` stops: the position of the last quote, with no quote after it, or none when there is no quote |
| Matchers.SignatureCapture | pkg/gpg/gpg.go:29-30 | one line matches exactly when it starts with the prefix and has a quote after it; the line is then prefix, capture, quote and a tail without quotes |
| Matchers.SignatureCaptureOf | pkg/gpg/gpg.go:29-30 | the capture is unique: for any line written as prefix, name, quote and a quote-free tail, it is that name |
| Matchers.PrefixesExclusive | pkg/gpg/gpg.go:29-30 | no line can start with both the Good and the BAD prefix |
| Matchers.FirstSignatureLine | pkg/gpg/gpg.go:29-30 | the first matching line: none exists exactly when it is absent, and no earlier line matches |
| Matchers.MatchSignature | pkg/gpg/gpg.go:29-30 | `FindStringSubmatch(...)[1]` is present exactly when some line matches, and the capture holds no newline |
| Matchers.MatchSignatureFirst | pkg/gpg/gpg.go:29-30 | the capture comes from the first matching line; later lines are never consulted |
| Matchers.MatchOneLine | pkg/gpg/gpg.go:29-30 | in a one-line stream the match is that line's capture |
| Matchers.MatchTwoLines | pkg/gpg/gpg.go:29-30 | in a two-line stream the second line counts only when the first does not match |
| Matchers.LeadingSpace | pkg/gpg/gpg.go:31 | the run of `\s` characters at the start of a line: all are white space and the next is not |
| Matchers.LeadingSpaceOf | pkg/gpg/gpg.go:31 | white space followed by a non-space is measured exactly |
| Matchers.QuotedLineCapture | pkg/gpg/gpg.go:31 | a line `\s*"([^\n]+)"` captures the non-empty text between its first quote after the white space and its final quote |
| Matchers.QuotedLineCaptureOf | pkg/gpg/gpg.go:31 | white space, a quote, a non-empty name and a closing quote capture that name |
| Matchers.FirstNonSpaceLine | pkg/gpg/gpg.go:31 | `\s*` skips the whole-white-space lines: all skipped lines are white space and the one reached is not |
| Matchers.SignatureLineIffCapture | pkg/gpg/gpg.go:29-30 | the per-line condition (the line starts with the prefix and has a quote after it) holds exactly when the pattern captures something on that line |
| Matchers.SignatureLineOf | pkg/gpg/gpg.go:29-30 | every line made of the prefix, a name, a quote and any tail is matched |
| Matchers.EncryptedMatchAt | pkg/gpg/gpg.go:31 | there is a match at the first line exactly when a block starts there: a header line, only white-space lines, then a quoted line with a line after it; the capture is that quoted line's name and the match consumes the block through its newline |
| Matchers.BlockQuotedLineIsFirst | pkg/gpg/gpg.go:31 | `\s*` cannot stop early or skip a name: in a block the quoted line is the first line after the header that is not all white space |
| Matchers.EncryptedIn | pkg/gpg/gpg.go:31 | `FindAllStringSubmatch(_, -1)`: every capture is non-empty and each needs at least two lines |
| Matchers.EncryptedFromBlock | pkg/gpg/gpg.go:31 | every capture comes from a block of the input: a header line, then only white-space lines, then a quoted line whose name is the capture, followed by a newline |
| Matchers.EncryptedMatches | pkg/gpg/gpg.go:31 | the captures of the whole stream are non-empty |
| Matchers.EncryptedBlock | pkg/gpg/gpg.go:31 | a header, white-space lines and a quoted line followed by a newline contribute exactly that name, and scanning resumes after the block |
| Matchers.EncryptedSkip | pkg/gpg/gpg.go:31 | lines that are not headers contribute nothing |
| Matchers.EncryptedNeedsNewline | pkg/gpg/gpg.go:31 | a block whose quoted line ends the stream without a newline yields nothing |
| Gpg.New | pkg/gpg/gpg.go:37-48 | a new handle runs the given binary and has no passphrase |
| Gpg.DecryptArgs | pkg/gpg/gpg.go:54-61 | the arguments are always the binary, `--batch`, `--no-tty`, followed by `--passphrase <p> --pinentry-mode loopback` exactly when the passphrase is set |
| Gpg.Recipient | pkg/gpg/gpg.go:78 | each recipient is sanitized and then trimmed: no ESC or CR, and neither end blank |
| Gpg.Recipients | pkg/gpg/gpg.go:76-79 | the loop yields one recipient per match, in stream order, each the cleaned-up capture |
| Gpg.RecipientPadded | pkg/gpg/gpg.go:78 | a printable name padded with tabs and spaces comes out as the bare name |
| Gpg.RecipientClean | pkg/gpg/gpg.go:78 | a name without ESC or CR and without a blank at either end is reported as it is |
| Gpg.RecipientIdempotent | pkg/gpg/gpg.go:78 | cleaning a recipient a second time changes nothing |
| Gpg.Decrypt | pkg/gpg/gpg.go:65-82 | a failed start or wait gives `""`, no status and an error of that kind; otherwise the plaintext is stdout, the signer comes from the first Good line only, there is one recipient per match, and nothing reported holds ESC or CR |
| Gpg.DecryptRecipientFromBlock | pkg/gpg/gpg.go:76-79 | every recipient Decrypt reports is the cleaned-up name of an "encrypted with" block of the diagnostics: header, white-space lines, quoted line, newline |
| Gpg.DecryptGoodIffGoodLine | pkg/gpg/gpg.go:71-75 | Decrypt reports a good signature exactly when a Good line is present, BAD lines are not consulted, and without a Good line there is no signer |
| Gpg.VerifyExitCheck | pkg/gpg/gpg.go:114-127 | a clean exit or exit status 1 goes on; any other wait error is an odd failure, a non-Unix status is its own error, and any other exit status is reported with its value |
| Gpg.VerifyOutcome | pkg/gpg/gpg.go:112-140 | a status is only returned after an accepted exit, then exactly when a Good or a BAD line is present; it is good exactly when a Good line is present, its signer holds no ESC or CR, and it has no recipients and no warnings |
| Gpg.CheckSignature | pkg/gpg/gpg.go:112-140 | the step-by-step tail (exit gate, BAD match, Good match overwriting it, `goodOrBad` check) gives the declarative outcome |
| Gpg.Verify | pkg/gpg/gpg.go:106-141 | a failed start is an error; otherwise the result is the declarative outcome of the exit and the diagnostics |
| Gpg.VerifyInline | pkg/gpg/gpg.go:144-181 | the same result as Verify for the same run and diagnostics |
| Gpg.VerifyNeedsAcceptedExit | pkg/gpg/gpg.go:114-127 | only an accepted exit can give a status; each other outcome is its own error whatever gpg printed |
| Gpg.VerifyIndeterminate | pkg/gpg/gpg.go:137-139 | after an accepted exit, the result is "neither good nor bad" exactly when there is neither a Good nor a BAD line |
| Gpg.VerifyGoodIffGoodLine | pkg/gpg/gpg.go:132-136 | a good verdict is returned exactly when the exit was accepted and a Good line is present |
| Gpg.VerifyGoodLine | pkg/gpg/gpg.go:128-136 | with a Good line the signer is the sanitized capture of the first Good line, even when a BAD line is present too |
| Gpg.VerifyBadLine | pkg/gpg/gpg.go:128-131 | with a BAD line and no Good line, the result is a bad signature by the sanitized capture of the first BAD line |
| Gpg.VerifyStatusClean | pkg/gpg/gpg.go:112-140 | a returned status has a signer without ESC or CR and empty recipient and warning lists |
| Gpg.GoodVerdictHasGoodLine | pkg/gpg/gpg.go:132-135 | a good verdict points to a line that starts with the Good prefix and holds the text the signer was sanitized from, with no earlier Good line |
| Scenarios.OnlyGoodLine | pkg/gpg/gpg.go:132-136 | a stream that is a single Good line gives a good signature by its sanitized name |
| Scenarios.OnlyBadLine | pkg/gpg/gpg.go:128-131 | a stream that is a single BAD line gives a bad signature by its sanitized name |
| Scenarios.BadThenGoodLine | pkg/gpg/gpg.go:128-136 | a BAD line followed by a Good line gives a good signature by the Good line's signer |
| Scenarios.GoodSignatureScenario | pkg/gpg/gpg.go:132-136 | Alice's Good line gives a good signature by Alice |
| Scenarios.BadSignatureScenario | pkg/gpg/gpg.go:128-131 | Eve's BAD line gives a bad signature by Eve |
| Scenarios.GoodOverridesBadScenario | pkg/gpg/gpg.go:128-136 | Eve's BAD line then Alice's Good line gives Alice's good signature |
| Scenarios.EscapeStrippedScenario | pkg/gpg/gpg.go:132-133 | a name with an ESC-introduced screen-clearing sequence is reported without the ESC byte |
| Scenarios.EscapeDropped | pkg/gpg/gpg.go:32 | an ESC between two printable pieces is all that sanitizing removes |
| Scenarios.GoodWithEmptySignerScenario | pkg/gpg/gpg.go:132-136 | an empty name between the quotes still gives a good signature, with an empty signer |
| Scenarios.IndentedGoodLine | pkg/gpg/gpg.go:128-139 | a Good line that does not start at the beginning of a line is no match, so there is no verdict |
| Scenarios.OneBlock | pkg/gpg/gpg.go:76-79 | a header, an indented quoted name and a newline give exactly that recipient |
| Scenarios.OneBlockUnterminated | pkg/gpg/gpg.go:31 | the same block without the final newline gives no recipient |
| Scenarios.TwoBlocks | pkg/gpg/gpg.go:76-79 | two blocks, the second with a blank line before its name, give both recipients in order |
| Scenarios.NotGoodLine | pkg/gpg/gpg.go:29 | a header line, an empty line or a line not starting with `g` is never a Good line |
| Scenarios.DecryptOnlyRecipients | pkg/gpg/gpg.go:71-79 | without Good lines, Decrypt reports exactly the matched names when cleaning leaves them alone, and no signature |
| Scenarios.DecryptOneBlock | pkg/gpg/gpg.go:71-79 | Decrypt on one block with an indented clean name reports that name alone and no signature |
| Scenarios.DecryptTwoBlocks | pkg/gpg/gpg.go:71-79 | Decrypt on two blocks reports both clean names in stream order and no signature |
| Scenarios.OneRecipientScenario | pkg/gpg/gpg.go:71-79 | Decrypt on "encrypted with RSA key" and Bob's indented name on the next line reports Bob as the only recipient and no signature |
| Scenarios.RecipientNeedsNewlineScenario | pkg/gpg/gpg.go:31 | the same text without the final newline gives no recipient |
| Scenarios.TwoRecipientsScenario | pkg/gpg/gpg.go:71-79 | Decrypt reports identity-A then identity-B, in that order, and no signature |
| Scenarios.RecipientTrimScenario | pkg/gpg/gpg.go:78 | spaces and a tab around Bob's name are trimmed from the recipient |

## Left out

- Starting gpg and waiting for it, the context, and the stdin, stdout and
  stderr pipes (pkg/gpg/gpg.go:51-68, 106-111, 145-151) are process I/O. The
  operations receive the outcome (`Run`) and the captured streams instead.
- The argument lists of `Verify` and `VerifyInline` (pkg/gpg/gpg.go:107, 146)
  name temporary files or stdin and are not modelled.
- The temporary directory, the data and signature files, their removal and the
  `debug_keep_sig_tempfiles` flag (pkg/gpg/gpg.go:34, 87-104) are file-system
  side effects. A failure to create or write them is not one of the modelled
  errors.
- Logging (pkg/gpg/gpg.go:95-96) and the text of the wrapped error messages are
  left out. Each error is modelled as one `GpgError` constructor per `return`
  in the source.
- The general RE2 engine is left out. Only the four fixed patterns are
  modelled, as predicates over lines. A character stands for a byte; every
  character the patterns name is ASCII.
- `Status` is a value built inside each operation and returned. The Go pointer
  `*Status` is modelled as `Option<Status>` (nil is `None`).
- cmd/cmdg/view_attachments.go (dialogs, downloads, file creation, spawning an
  opener) and pkg/cmdg/page.go (concurrent preloading over the Gmail API) are
  user-interface, file and network code. They are not part of this model.
