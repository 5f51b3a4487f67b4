/**
 * Concrete diagnostic streams and what the gpg handle makes of them.
 */
module Scenarios {
  import opened Wrappers
  import opened Text
  import opened Matchers
  import opened Gpg

  const Alice: string := "Alice <alice@example.com>"
  const Eve: string := "Eve <eve@example.com>"
  const Bob: string := "Bob <bob@example.com>"

  /** A stream that is one Good line reports a good signature by the sanitized name on it. */
  lemma OnlyGoodLine(run: Run, c: string)
    requires VerifyAccepts(run) && '\n' !in c
    ensures VerifyOutcome(run, GoodPrefix + c + "\"") == Success(Status(Sanitize(c), [], true, []))
  {
    var s := GoodPrefix + c + "\"";
    QuotedLine(GoodPrefix, c);
    PrefixesExclusive(s);
    MatchOneLine(s, GoodPrefix);
    MatchOneLine(s, BadPrefix);
    VerifyGoodLine(run, s);
  }

  /** A stream that is one BAD line reports a bad signature by the sanitized name on it. */
  lemma OnlyBadLine(run: Run, c: string)
    requires VerifyAccepts(run) && '\n' !in c
    ensures VerifyOutcome(run, BadPrefix + c + "\"") == Success(Status(Sanitize(c), [], false, []))
  {
    var s := BadPrefix + c + "\"";
    QuotedLine(BadPrefix, c);
    PrefixesExclusive(s);
    MatchOneLine(s, GoodPrefix);
    MatchOneLine(s, BadPrefix);
    VerifyBadLine(run, s);
  }

  /** A BAD line followed by a Good line: the Good line is applied last and wins. */
  lemma BadThenGoodLine(run: Run, b: string, g: string)
    requires VerifyAccepts(run) && '\n' !in b && '\n' !in g
    ensures VerifyOutcome(run, (BadPrefix + b + "\"") + "\n" + (GoodPrefix + g + "\""))
         == Success(Status(Sanitize(g), [], true, []))
  {
    var bad := BadPrefix + b + "\"";
    var good := GoodPrefix + g + "\"";
    QuotedLine(BadPrefix, b);
    QuotedLine(GoodPrefix, g);
    PrefixesExclusive(bad);
    MatchTwoLines(bad, good, GoodPrefix);
    VerifyGoodLine(run, bad + "\n" + good);
  }

  /** A signature line built from a prefix and a one-line name: one line, starting with the prefix, capturing the name. */
  lemma QuotedLine(prefix: string, c: string)
    requires prefix == GoodPrefix || prefix == BadPrefix
    requires '\n' !in c
    ensures '\n' !in prefix + c + "\""
    ensures prefix <= prefix + c + "\""
    ensures SignatureCapture(prefix + c + "\"", prefix) == Some(c)
  {
    assert prefix + c + "\"" == prefix + c + "\"" + "";
    SignatureCaptureOf(prefix, c, "");
  }

  /** `gpg: Good signature from "Alice <alice@example.com>"` gives a good signature by Alice. */
  lemma GoodSignatureScenario(run: Run)
    requires VerifyAccepts(run)
    ensures VerifyOutcome(run, GoodPrefix + Alice + "\"") == Success(Status(Alice, [], true, []))
  {
    var r := VerifyOutcome(run, GoodPrefix + Alice + "\"");
    OnlyGoodLine(run, Alice);
    assert r == Success(Status(Sanitize(Alice), [], true, []));
    NameUnchanged(Alice);
  }

  /** `gpg: BAD signature from "Eve <eve@example.com>"` gives a bad signature by Eve. */
  lemma BadSignatureScenario(run: Run)
    requires VerifyAccepts(run)
    ensures VerifyOutcome(run, BadPrefix + Eve + "\"") == Success(Status(Eve, [], false, []))
  {
    var r := VerifyOutcome(run, BadPrefix + Eve + "\"");
    OnlyBadLine(run, Eve);
    assert r == Success(Status(Sanitize(Eve), [], false, []));
    NameUnchanged(Eve);
  }

  /** Eve's BAD line followed by Alice's Good line reports Alice's good signature. */
  lemma GoodOverridesBadScenario(run: Run, stderr: string)
    requires VerifyAccepts(run)
    requires stderr == (BadPrefix + Eve + "\"") + "\n" + (GoodPrefix + Alice + "\"")
    ensures VerifyOutcome(run, stderr) == Success(Status(Alice, [], true, []))
  {
    BadThenGoodLine(run, Eve, Alice);
    assert VerifyOutcome(run, stderr) == Success(Status(Sanitize(Alice), [], true, []));
    NameUnchanged(Alice);
  }

  /** A name with a screen-clearing escape sequence in it. */
  const Mallory: string := "Mallory" + [Esc] + "[2J"

  /**
   * An escape sequence inside the quoted name loses its ESC byte: the name
   * `Mallory<ESC>[2J` is reported as `Mallory[2J`, which a terminal prints
   * instead of clearing the screen.
   */
  lemma EscapeStrippedScenario(run: Run)
    requires VerifyAccepts(run)
    ensures VerifyOutcome(run, GoodPrefix + Mallory + "\"") == Success(Status("Mallory[2J", [], true, []))
  {
    var r := VerifyOutcome(run, GoodPrefix + Mallory + "\"");
    EscapeRemoved();
    OnlyGoodLine(run, Mallory);
    assert r == Success(Status(Sanitize(Mallory), [], true, []));
  }

  lemma EscapeRemoved()
    ensures '\n' !in Mallory
    ensures Sanitize(Mallory) == "Mallory[2J"
  {
    EscapeDropped("Mallory", "[2J");
    assert "Mallory" + "[2J" == "Mallory[2J";
  }

  /** An ESC between two printable pieces is all that sanitizing removes. */
  lemma EscapeDropped(a: string, b: string)
    requires Printable(a) && Printable(b)
    ensures Sanitize(a + [Esc] + b) == a + b
  {
    var e: string := [Esc];
    assert Sanitize(e) == [] by {
      assert e[1..] == [];
    }
    SanitizeAppend(a, e);
    SanitizePrintable(a);
    assert Sanitize(a + e) == a;
    SanitizeAppend(a + e, b);
    SanitizePrintable(b);
  }

  /** The names used here hold no ESC and no CR, so sanitizing keeps them. */
  lemma NameUnchanged(c: string)
    requires c == Alice || c == Eve || c == Bob
    ensures Sanitize(c) == c
  {
    SanitizePrintable(c);
  }

  /**
   * The signer can be empty although the signature is reported good: the
   * pattern accepts an empty name between the quotes.
   */
  lemma GoodWithEmptySignerScenario(run: Run)
    requires VerifyAccepts(run)
    ensures VerifyOutcome(run, GoodPrefix + "" + "\"") == Success(Status("", [], true, []))
  {
    OnlyGoodLine(run, "");
  }

  /** A Good line that does not start at the beginning of a line is no Good line: no verdict. */
  lemma IndentedGoodLine(run: Run, c: string)
    requires VerifyAccepts(run) && '\n' !in c
    ensures VerifyOutcome(run, " " + GoodPrefix + c + "\"") == Failure(NeitherGoodNorBad)
  {
    var s := " " + GoodPrefix + c + "\"";
    assert s[0] == ' ';
    assert GoodPrefix[0] == 'g' && BadPrefix[0] == 'g';
    MatchOneLine(s, GoodPrefix);
    MatchOneLine(s, BadPrefix);
  }

  /** A block of header, indented quoted name and newline gives exactly that one recipient. */
  lemma OneBlock(header: string, w: string, c: string)
    requires IsEncryptedHeader(header) && '\n' !in header
    requires AllSpace(w) && '\n' !in w && |c| >= 1 && '\n' !in c
    ensures EncryptedMatches(header + "\n" + w + "\"" + c + "\"\n") == [c]
  {
    var quoted := w + "\"" + c + "\"";
    var s := header + "\n" + w + "\"" + c + "\"\n";
    assert s == header + "\n" + (quoted + "\n" + "");
    LinesCons(header, quoted + "\n" + "");
    LinesCons(quoted, "");
    assert Lines(s) == [header] + [] + [quoted] + [""];
    EncryptedBlock(header, [], w, c, [""]);
    EncryptedSkip([""], []);
    assert [""] + [] == [""];
  }

  /** The same block without the newline after the quoted name gives no recipient. */
  lemma OneBlockUnterminated(header: string, w: string, c: string)
    requires IsEncryptedHeader(header) && '\n' !in header
    requires AllSpace(w) && '\n' !in w && '\n' !in c
    ensures EncryptedMatches(header + "\n" + w + "\"" + c + "\"") == []
  {
    var quoted := w + "\"" + c + "\"";
    var s := header + "\n" + w + "\"" + c + "\"";
    assert s == header + "\n" + quoted;
    LinesCons(header, quoted);
    LinesSingle(quoted);
    EncryptedNeedsNewline(header, w, c);
  }

  /**
   * Two blocks, the second with a blank line before its name, give both
   * recipients in the order gpg printed them.
   */
  lemma TwoBlocks(h1: string, c1: string, h2: string, c2: string)
    requires IsEncryptedHeader(h1) && IsEncryptedHeader(h2) && '\n' !in h1 && '\n' !in h2
    requires |c1| >= 1 && |c2| >= 1 && '\n' !in c1 && '\n' !in c2
    ensures EncryptedMatches(JoinLines([h1, "  " + "\"" + c1 + "\"", h2, "", "  " + "\"" + c2 + "\"", ""])) == [c1, c2]
    ensures Lines(JoinLines([h1, "  " + "\"" + c1 + "\"", h2, "", "  " + "\"" + c2 + "\"", ""]))
         == [h1, "  " + "\"" + c1 + "\"", h2, "", "  " + "\"" + c2 + "\"", ""]
  {
    var q1 := "  " + "\"" + c1 + "\"";
    var q2 := "  " + "\"" + c2 + "\"";
    var lines: seq<string> := [h1, q1, h2, "", q2, ""];
    LinesOfJoin(lines);
    var rest := [h2] + [""] + [q2] + [""];
    assert lines == [h1] + [] + [q1] + rest;
    EncryptedBlock(h1, [], "  ", c1, rest);
    SecondBlockIn(h2, c2);
  }

  lemma SecondBlockIn(h2: string, c2: string)
    requires IsEncryptedHeader(h2) && |c2| >= 1
    ensures EncryptedIn([h2] + [""] + ["  " + "\"" + c2 + "\""] + [""]) == [c2]
  {
    EncryptedBlock(h2, [""], "  ", c2, [""]);
    EncryptedSkip([""], []);
    assert [""] + [] == [""];
  }

  /**
   * A header line, an empty line or a line that does not start with `g` is
   * never a Good line: the Good prefix starts with `g` and differs from the
   * header in its sixth character.
   */
  lemma NotGoodLine(line: string)
    requires IsEncryptedHeader(line) || line == [] || line[0] != 'g'
    ensures !IsSignatureLine(line, GoodPrefix)
  {
    if IsEncryptedHeader(line) {
      assert line[5] == EncryptedHeader[5] != GoodPrefix[5];
    } else if line != [] {
      assert line[0] != GoodPrefix[0];
    }
  }

  /**
   * A stream without Good lines whose blocks name recipients that cleaning
   * leaves alone: Decrypt reports exactly those names, and no signature.
   */
  lemma DecryptOnlyRecipients(st: Status, stderr: string, names: seq<string>)
    requires DecryptedStatus(st, stderr) && EncryptedMatches(stderr) == names
    requires forall k :: 0 <= k < |names| ==> Recipient(names[k]) == names[k]
    requires forall k :: 0 <= k < |Lines(stderr)| ==> !IsSignatureLine(Lines(stderr)[k], GoodPrefix)
    ensures st.encrypted == names
    ensures !st.goodSignature && st.signed == ""
  {
    DecryptGoodIffGoodLine(st, stderr);
  }

  /** Decrypt on one block with an indented name reports that name alone, and no signature. */
  lemma DecryptOneBlock(st: Status, stderr: string, header: string, w: string, c: string)
    requires IsEncryptedHeader(header) && '\n' !in header
    requires AllSpace(w) && |w| >= 1 && '\n' !in w && |c| >= 1 && '\n' !in c
    requires Tight(c) && Printable(c)
    requires stderr == header + "\n" + w + "\"" + c + "\"\n"
    requires DecryptedStatus(st, stderr)
    ensures st.encrypted == [c]
    ensures !st.goodSignature && st.signed == ""
  {
    OneBlock(header, w, c);
    OneBlockNoGoodLine(header, w, c);
    RecipientClean(c);
    DecryptOnlyRecipients(st, stderr, [c]);
  }

  /** The lines of a one-block stream are the header, the quoted line and an empty line; none is a Good line. */
  lemma OneBlockNoGoodLine(header: string, w: string, c: string)
    requires IsEncryptedHeader(header) && '\n' !in header
    requires AllSpace(w) && |w| >= 1 && '\n' !in w && '\n' !in c
    ensures forall k :: 0 <= k < |Lines(header + "\n" + w + "\"" + c + "\"\n")| ==>
      !IsSignatureLine(Lines(header + "\n" + w + "\"" + c + "\"\n")[k], GoodPrefix)
  {
    var quoted := w + "\"" + c + "\"";
    assert quoted[0] == w[0] != 'g';
    NotGoodLine(header);
    NotGoodLine(quoted);
    NotGoodLine("");
    var lines := OneBlockLines(header, w, c);
    forall k | 0 <= k < |lines| ensures !IsSignatureLine(lines[k], GoodPrefix) {
      if k == 0 {
      } else if k == 1 {
      } else {
        assert k == 2;
      }
    }
  }

  /** A header line and a quoted line, each followed by a newline, are two lines and an empty one. */
  lemma OneBlockLines(header: string, w: string, c: string) returns (lines: seq<string>)
    requires '\n' !in header && '\n' !in w && '\n' !in c
    ensures lines == Lines(header + "\n" + w + "\"" + c + "\"\n")
    ensures |lines| == 3 && lines[0] == header && lines[1] == w + "\"" + c + "\"" && lines[2] == ""
  {
    var quoted := w + "\"" + c + "\"";
    var s := header + "\n" + w + "\"" + c + "\"\n";
    assert s == header + "\n" + (quoted + "\n" + "");
    LinesCons(header, quoted + "\n" + "");
    LinesCons(quoted, "");
    lines := Lines(s);
  }

  /** Decrypt on the two blocks of `TwoBlocks` reports both names in order, and no signature. */
  lemma DecryptTwoBlocks(st: Status, stderr: string, h1: string, c1: string, h2: string, c2: string)
    requires IsEncryptedHeader(h1) && IsEncryptedHeader(h2) && '\n' !in h1 && '\n' !in h2
    requires |c1| >= 1 && |c2| >= 1 && '\n' !in c1 && '\n' !in c2
    requires Tight(c1) && Printable(c1) && Tight(c2) && Printable(c2)
    requires stderr == JoinLines([h1, "  " + "\"" + c1 + "\"", h2, "", "  " + "\"" + c2 + "\"", ""])
    requires DecryptedStatus(st, stderr)
    ensures st.encrypted == [c1, c2]
    ensures !st.goodSignature && st.signed == ""
  {
    TwoBlocks(h1, c1, h2, c2);
    TwoBlocksNoGoodLine(h1, c1, h2, c2);
    RecipientClean(c1);
    RecipientClean(c2);
    DecryptOnlyRecipients(st, stderr, [c1, c2]);
  }

  /** None of the lines of `TwoBlocks`' stream is a Good line. */
  lemma TwoBlocksNoGoodLine(h1: string, c1: string, h2: string, c2: string)
    requires IsEncryptedHeader(h1) && IsEncryptedHeader(h2) && '\n' !in h1 && '\n' !in h2
    requires '\n' !in c1 && '\n' !in c2
    ensures var lines := [h1, "  " + "\"" + c1 + "\"", h2, "", "  " + "\"" + c2 + "\"", ""];
      forall k :: 0 <= k < |Lines(JoinLines(lines))| ==> !IsSignatureLine(Lines(JoinLines(lines))[k], GoodPrefix)
  {
    var q1 := "  " + "\"" + c1 + "\"";
    var q2 := "  " + "\"" + c2 + "\"";
    var lines := [h1, q1, h2, "", q2, ""];
    LinesOfJoin(lines);
    forall k | 0 <= k < |lines| ensures !IsSignatureLine(lines[k], GoodPrefix) {
      if k == 0 || k == 2 {
        NotGoodLine(lines[k]);
      } else if k == 1 || k == 4 {
        assert lines[k][0] == ' ';
        NotGoodLine(lines[k]);
      } else {
        NotGoodLine("");
      }
    }
  }

  /**
   * `gpg: encrypted with RSA key` and Bob's indented name on the next line:
   * Decrypt reports Bob as the one recipient, and no signature.
   */
  lemma OneRecipientScenario(st: Status, stderr: string)
    requires stderr == EncryptedHeader + " RSA key" + "\n" + "      " + "\"" + Bob + "\"\n"
    requires DecryptedStatus(st, stderr)
    ensures st.encrypted == [Bob]
    ensures !st.goodSignature && st.signed == ""
  {
    BobBlockParts();
    DecryptOneBlock(st, stderr, EncryptedHeader + " RSA key", "      ", Bob);
  }

  /** The parts of Bob's block: a header, six spaces, and a clean name, none holding a newline. */
  lemma BobBlockParts()
    ensures IsEncryptedHeader(EncryptedHeader + " RSA key") && '\n' !in EncryptedHeader + " RSA key"
    ensures AllSpace("      ") && '\n' !in "      "
    ensures |Bob| >= 1 && '\n' !in Bob && Tight(Bob) && Printable(Bob)
  {
    assert Bob[0] == 'B' && Bob[|Bob| - 1] == '>';
  }

  /** Without the final newline the same text gives no recipient. */
  lemma RecipientNeedsNewlineScenario()
    ensures EncryptedMatches(EncryptedHeader + " RSA key" + "\n" + "      " + "\"" + Bob + "\"") == []
  {
    OneBlockUnterminated(EncryptedHeader + " RSA key", "      ", Bob);
  }

  /**
   * Two recipients, identity-A then identity-B: Decrypt reports both, in that
   * order, and no signature.
   */
  lemma TwoRecipientsScenario(st: Status, stderr: string)
    requires stderr == JoinLines([
      EncryptedHeader + " RSA key, ID 1", "  " + "\"" + "identity-A" + "\"",
      EncryptedHeader + " RSA key, ID 2", "", "  " + "\"" + "identity-B" + "\"", ""])
    requires DecryptedStatus(st, stderr)
    ensures st.encrypted == ["identity-A", "identity-B"]
    ensures !st.goodSignature && st.signed == ""
  {
    IdentityBlockParts();
    DecryptTwoBlocks(st, stderr, EncryptedHeader + " RSA key, ID 1", "identity-A",
                     EncryptedHeader + " RSA key, ID 2", "identity-B");
  }

  /** The parts of the two identity blocks: two headers and two clean names, none holding a newline. */
  lemma IdentityBlockParts()
    ensures IsEncryptedHeader(EncryptedHeader + " RSA key, ID 1") && '\n' !in EncryptedHeader + " RSA key, ID 1"
    ensures IsEncryptedHeader(EncryptedHeader + " RSA key, ID 2") && '\n' !in EncryptedHeader + " RSA key, ID 2"
    ensures |"identity-A"| >= 1 && '\n' !in "identity-A" && Tight("identity-A") && Printable("identity-A")
    ensures |"identity-B"| >= 1 && '\n' !in "identity-B" && Tight("identity-B") && Printable("identity-B")
  {
  }

  /** Tabs and spaces inside the quotes are trimmed from a recipient. */
  lemma RecipientTrimScenario()
    ensures Recipient("  " + Bob + "\t") == Bob
  {
    NameUnchanged(Bob);
    RecipientPadded("  ", Bob, "\t");
  }
}
