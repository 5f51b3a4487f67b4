/**
 * The gpg handle of pkg/gpg/gpg.go: how Decrypt, Verify and VerifyInline turn
 * the way gpg ended and what it wrote to standard error into a `Status` or an
 * error.
 *
 * Running gpg is outside the model. Each operation receives the outcome of
 * `cmd.Start()` and `cmd.Wait()` as a `Run` value, and the captured streams
 * as strings. Everything after that point is modelled as the source does it.
 */
module Gpg {
  import opened Wrappers
  import opened Text
  import opened Matchers

  /** The result of a decrypt or verify operation. */
  datatype Status = Status(
    signed: string,            // who gpg says made the signature, sanitized
    encrypted: seq<string>,    // the recipients gpg says the message was encrypted to
    goodSignature: bool,       // gpg reported a good signature
    warnings: seq<string>)     // never filled in

  /** The `&Status{}` every operation starts from. */
  const EmptyStatus: Status := Status("", [], false, [])

  /** A gpg handle: the binary to run and a passphrase that is only set by tests. */
  datatype Handle = Handle(gpg: string, passphrase: string)

  /** `New`: a handle for the given binary, without a passphrase. */
  function New(gpg: string): (h: Handle)
    ensures h.gpg == gpg && h.passphrase == ""
  {
    Handle(gpg, "")
  }

  /** What `ExitError.Sys()` holds: a Unix wait status, or something else on other systems. */
  datatype SysStatus = UnixStatus(exitStatus: int) | OtherSysStatus

  /** What `cmd.Wait()` returned: nil, an `*exec.ExitError`, or any other error. */
  datatype WaitResult = WaitOk | ExitError(sys: SysStatus) | WaitError

  /** How the gpg process went: it could not be started, or it was started and waited for. */
  datatype Run = StartError | Started(wait: WaitResult)

  /** The errors the operations return, one per `return ..., err` in the source. */
  datatype GpgError =
    | StartFailed              // "failed to start gpg"
    | DecryptFailed            // "gpg decrypt failed"
    | OddFailure               // "gpg verify failed for odd reason"
    | NotUnixStatus            // "gpg verify failed, and not unix status"
    | BadExitStatus(status: int)  // "gpg verify failed, and not status 1"
    | NeitherGoodNorBad        // "signature not good nor bad"

  // ---------------------------------------------------------------------------
  // Decrypt
  // ---------------------------------------------------------------------------

  /**
   * The argument list `Decrypt` runs gpg with: the binary, `--batch` and
   * `--no-tty`, then the loopback passphrase options only when a passphrase is set.
   */
  method DecryptArgs(h: Handle) returns (args: seq<string>)
    ensures |args| == (if h.passphrase == "" then 3 else 7)
    ensures args[..3] == [h.gpg, "--batch", "--no-tty"]
    ensures h.passphrase != "" ==> args[3..] == ["--passphrase", h.passphrase, "--pinentry-mode", "loopback"]
  {
    args := [h.gpg, "--batch", "--no-tty"];
    if h.passphrase != "" {
      args := args + ["--passphrase", h.passphrase, "--pinentry-mode", "loopback"];
    }
  }

  /** One entry of `Encrypted`: the captured name without ESC and CR, then without surrounding tabs and spaces. */
  function Recipient(m: string): (r: string)
    ensures Printable(r) && Tight(r)
  {
    Trim(Sanitize(m))
  }

  /** The loop over the "encrypted with" matches: one cleaned-up recipient per match, in order. */
  method Recipients(ms: seq<string>) returns (rs: seq<string>)
    ensures |rs| == |ms|
    ensures forall k :: 0 <= k < |ms| ==> rs[k] == Recipient(ms[k])
  {
    rs := [];
    for i := 0 to |ms|
      invariant |rs| == i
      invariant forall k :: 0 <= k < i ==> rs[k] == Recipient(ms[k])
    {
      rs := rs + [Recipient(ms[i])];
    }
  }

  /** A name padded with tabs and spaces comes out as the bare name. */
  lemma RecipientPadded(p: string, m: string, q: string)
    requires AllBlank(p) && AllBlank(q) && Tight(m) && Printable(m)
    ensures Recipient(p + m + q) == m
  {
    SanitizePrintable(p + m + q);
    TrimPadded(p, m, q);
  }

  /** A name with no ESC or CR and no tab or space at either end is kept as it is. */
  lemma RecipientClean(m: string)
    requires Tight(m) && Printable(m)
    ensures Recipient(m) == m
  {
    RecipientPadded("", m, "");
    assert "" + m + "" == m;
  }

  /** Cleaning a recipient again changes nothing. */
  lemma RecipientIdempotent(m: string)
    ensures Recipient(Recipient(m)) == Recipient(m)
  {
    RecipientClean(Recipient(m));
  }

  /**
   * The status `Decrypt` builds from gpg's diagnostics: the signer of the
   * first Good line, if any, and one recipient per "encrypted with" match.
   */
  predicate DecryptedStatus(st: Status, stderr: string) {
    var good := MatchSignature(stderr, GoodPrefix);
    var ms := EncryptedMatches(stderr);
    && st.goodSignature == good.Some?
    && st.signed == (if good.Some? then Sanitize(good.value) else "")
    && |st.encrypted| == |ms|
    && (forall k :: 0 <= k < |ms| ==> st.encrypted[k] == Recipient(ms[k]))
    && st.warnings == []
  }

  /**
   * `Decrypt` after gpg was run with the message on standard input. Any
   * failure to start or to finish cleanly gives `""`, no status and an
   * error. Otherwise the plaintext is what gpg wrote to standard output, the
   * signature comes only from a Good line (BAD lines are not looked at), and
   * there is one recipient per "encrypted with" match, in stream order.
   */
  method Decrypt(run: Run, stdout: string, stderr: string)
    returns (plaintext: string, status: Option<Status>, err: Option<GpgError>)
    ensures err.None? <==> run == Started(WaitOk)
    ensures err.Some? ==>
      && plaintext == "" && status.None?
      && err.value == (if run == StartError then StartFailed else DecryptFailed)
    ensures err.None? ==> plaintext == stdout && status.Some?
    ensures status.Some? ==> DecryptedStatus(status.value, stderr)
    ensures status.Some? ==>
      && Printable(status.value.signed)
      && forall k :: 0 <= k < |status.value.encrypted| ==> Printable(status.value.encrypted[k])
  {
    if run == StartError {
      return "", None, Some(StartFailed);
    }
    if run.wait != WaitOk {
      return "", None, Some(DecryptFailed);
    }
    var st := EmptyStatus;
    var good := MatchSignature(stderr, GoodPrefix);
    if good.Some? {
      st := st.(signed := Sanitize(good.value), goodSignature := true);
    }
    var ms := EncryptedMatches(stderr);
    var recipients := Recipients(ms);
    st := st.(encrypted := recipients);
    assert DecryptedStatus(st, stderr);
    return stdout, Some(st), None;
  }

  // ---------------------------------------------------------------------------
  // Verify and VerifyInline
  // ---------------------------------------------------------------------------

  /**
   * The exit gate of the two verify operations: a clean exit and exit status 1
   * go on to parsing; any other outcome is an error of its own kind.
   */
  function VerifyExitCheck(w: WaitResult): (r: Option<GpgError>)
    ensures r.None? <==> w == WaitOk || w == ExitError(UnixStatus(1))
    ensures w == WaitError ==> r == Some(OddFailure)
    ensures w == ExitError(OtherSysStatus) ==> r == Some(NotUnixStatus)
    ensures w.ExitError? && w.sys.UnixStatus? && w.sys.exitStatus != 1 ==> r == Some(BadExitStatus(w.sys.exitStatus))
  {
    match w
    case WaitOk => None
    case WaitError => Some(OddFailure)
    case ExitError(OtherSysStatus) => Some(NotUnixStatus)
    case ExitError(UnixStatus(code)) => if code != 1 then Some(BadExitStatus(code)) else None
  }

  /** The run ended in a way the verify operations accept. */
  predicate VerifyAccepts(run: Run) {
    run == Started(WaitOk) || run == Started(ExitError(UnixStatus(1)))
  }

  /**
   * What Verify and VerifyInline return, stated declaratively: after an
   * accepted exit, a Good line gives a good signature by its signer, else a
   * BAD line gives a bad signature by its signer, else there is no verdict.
   */
  function VerifyOutcome(run: Run, stderr: string): (r: Result<Status, GpgError>)
    ensures r.Success? ==> VerifyAccepts(run) && Printable(r.value.signed)
    ensures r.Success? ==> r.value.encrypted == [] && r.value.warnings == []
    ensures r.Success? ==> (r.value.goodSignature <==> HasSignatureLine(stderr, GoodPrefix))
    ensures VerifyAccepts(run) ==>
      (r.Success? <==> HasSignatureLine(stderr, GoodPrefix) || HasSignatureLine(stderr, BadPrefix))
  {
    match run
    case StartError => Failure(StartFailed)
    case Started(w) =>
      match VerifyExitCheck(w)
      case Some(e) => Failure(e)
      case None =>
        match (MatchSignature(stderr, GoodPrefix), MatchSignature(stderr, BadPrefix))
        case (Some(g), _) => Success(Status(Sanitize(g), [], true, []))
        case (None, Some(b)) => Success(Status(Sanitize(b), [], false, []))
        case (None, None) => Failure(NeitherGoodNorBad)
  }

  /**
   * The part that follows `cmd.Wait()` in both verify operations, step by
   * step as the source does it: the exit gate, then the BAD match, then the
   * Good match overwriting it, then the `goodOrBad` check.
   */
  method CheckSignature(wait: WaitResult, stderr: string) returns (res: Result<Status, GpgError>)
    ensures res == VerifyOutcome(Started(wait), stderr)
  {
    var status := EmptyStatus;
    var goodOrBad := false;
    match wait {
      case WaitOk =>
      case WaitError =>
        return Failure(OddFailure);
      case ExitError(sys) =>
        if !sys.UnixStatus? {
          return Failure(NotUnixStatus);
        }
        if sys.exitStatus != 1 {
          return Failure(BadExitStatus(sys.exitStatus));
        }
    }
    var bad := MatchSignature(stderr, BadPrefix);
    if bad.Some? {
      status := status.(signed := Sanitize(bad.value));
      goodOrBad := true;
    }
    var good := MatchSignature(stderr, GoodPrefix);
    if good.Some? {
      status := status.(signed := Sanitize(good.value), goodSignature := true);
      goodOrBad := true;
    }
    if !goodOrBad {
      return Failure(NeitherGoodNorBad);
    }
    return Success(status);
  }

  /**
   * `Verify`, after the content and the detached signature were written to
   * temporary files and gpg was run on them.
   */
  method Verify(run: Run, stderr: string) returns (res: Result<Status, GpgError>)
    ensures res == VerifyOutcome(run, stderr)
  {
    if run == StartError {
      return Failure(StartFailed);
    }
    res := CheckSignature(run.wait, stderr);
  }

  /**
   * `VerifyInline`, after gpg was run with the signed content on standard
   * input. Its contract is Verify's: the two give the same result for the
   * same run and the same diagnostics.
   */
  method VerifyInline(run: Run, stderr: string) returns (res: Result<Status, GpgError>)
    ensures res == VerifyOutcome(run, stderr)
  {
    if run == StartError {
      return Failure(StartFailed);
    }
    res := CheckSignature(run.wait, stderr);
  }

  // ---------------------------------------------------------------------------
  // What the verify operations promise
  // ---------------------------------------------------------------------------

  /** Only an accepted exit can produce a status; every other outcome fails whatever gpg printed. */
  lemma VerifyNeedsAcceptedExit(run: Run, stderr: string)
    ensures VerifyOutcome(run, stderr).Success? ==> VerifyAccepts(run)
    ensures run == StartError ==> VerifyOutcome(run, stderr) == Failure(StartFailed)
    ensures run == Started(WaitError) ==> VerifyOutcome(run, stderr) == Failure(OddFailure)
    ensures run == Started(ExitError(OtherSysStatus)) ==> VerifyOutcome(run, stderr) == Failure(NotUnixStatus)
    ensures forall code :: code != 1 && run == Started(ExitError(UnixStatus(code))) ==>
      VerifyOutcome(run, stderr) == Failure(BadExitStatus(code))
  {
  }

  /** Without a Good and without a BAD line there is no verdict, only an error. */
  lemma VerifyIndeterminate(run: Run, stderr: string)
    requires VerifyAccepts(run)
    ensures VerifyOutcome(run, stderr) == Failure(NeitherGoodNorBad)
        <==> !HasSignatureLine(stderr, GoodPrefix) && !HasSignatureLine(stderr, BadPrefix)
  {
  }

  /** A good verdict comes from a Good line and from nothing else, and a Good line always gives one. */
  lemma VerifyGoodIffGoodLine(run: Run, stderr: string)
    ensures (VerifyOutcome(run, stderr).Success? && VerifyOutcome(run, stderr).value.goodSignature)
        <==> VerifyAccepts(run) && HasSignatureLine(stderr, GoodPrefix)
  {
  }

  /** A Good line decides the result even when a BAD line is present too: its signer is reported. */
  lemma VerifyGoodLine(run: Run, stderr: string)
    requires VerifyAccepts(run) && HasSignatureLine(stderr, GoodPrefix)
    ensures VerifyOutcome(run, stderr) == Success(Status(Sanitize(MatchSignature(stderr, GoodPrefix).value), [], true, []))
  {
  }

  /** With a BAD line and no Good line, the result is a bad signature by the BAD line's signer. */
  lemma VerifyBadLine(run: Run, stderr: string)
    requires VerifyAccepts(run)
    requires !HasSignatureLine(stderr, GoodPrefix) && HasSignatureLine(stderr, BadPrefix)
    ensures VerifyOutcome(run, stderr) == Success(Status(Sanitize(MatchSignature(stderr, BadPrefix).value), [], false, []))
  {
  }

  /** A returned status carries no escape byte and no carriage return, and nothing but the signer. */
  lemma VerifyStatusClean(run: Run, stderr: string)
    requires VerifyOutcome(run, stderr).Success?
    ensures Printable(VerifyOutcome(run, stderr).value.signed)
    ensures VerifyOutcome(run, stderr).value.encrypted == []
    ensures VerifyOutcome(run, stderr).value.warnings == []
  {
  }

  /**
   * A good verdict is backed by a line of the stream that starts with the
   * Good prefix and holds, before a closing quote, the text the signer was
   * sanitized from; no earlier line is a Good line.
   */
  lemma {:induction false} GoodVerdictHasGoodLine(run: Run, stderr: string) returns (k: nat, c: string)
    requires VerifyOutcome(run, stderr).Success? && VerifyOutcome(run, stderr).value.goodSignature
    ensures k < |Lines(stderr)|
    ensures GoodPrefix + c + "\"" <= Lines(stderr)[k]
    ensures VerifyOutcome(run, stderr).value.signed == Sanitize(c)
    ensures forall j :: 0 <= j < k ==> !IsSignatureLine(Lines(stderr)[j], GoodPrefix)
  {
    var lines := Lines(stderr);
    k := FirstSignatureLine(lines, GoodPrefix).value;
    c := SignatureCapture(lines[k], GoodPrefix).value;
    var line := lines[k];
    assert line == GoodPrefix + c + "\"" + line[|GoodPrefix| + |c| + 1..];
    assert line[..|GoodPrefix + c + "\""|] == GoodPrefix + c + "\"";
  }

  /**
   * Every recipient Decrypt reports was printed by gpg in an "encrypted with"
   * block: a header line, then only white-space lines, then the quoted name
   * the recipient was cleaned from, followed by a newline.
   */
  lemma DecryptRecipientFromBlock(st: Status, stderr: string, i: nat) returns (h: nat, q: nat, c: string)
    requires DecryptedStatus(st, stderr) && i < |st.encrypted|
    ensures EncryptedBlockAt(Lines(stderr), h, q, c)
    ensures st.encrypted[i] == Recipient(c)
  {
    c := EncryptedMatches(stderr)[i];
    h, q := EncryptedFromBlock(Lines(stderr), i);
  }

  /**
   * Decrypt reports a good signature exactly when the stream has a Good line;
   * BAD lines play no part, and without a Good line there is no signer.
   */
  lemma DecryptGoodIffGoodLine(st: Status, stderr: string)
    requires DecryptedStatus(st, stderr)
    ensures st.goodSignature <==> HasSignatureLine(stderr, GoodPrefix)
    ensures !st.goodSignature ==> st.signed == ""
  {
  }
}
