/**
 * The three fixed patterns the gpg wrapper applies to gpg's diagnostic stream
 * (pkg/gpg/gpg.go, goodSignatureRE, badSignatureRE and encryptedRE), written
 * out over the lines of the stream instead of through a regular-expression
 * engine.
 *
 * Under `(?m)`, `^` matches at the start of every line. Neither `.` nor
 * `[^\n]` matches a newline, so each signature match lies inside one line,
 * and an "encrypted with" match spans a header line, any lines holding only
 * white space, and the line holding the quoted name.
 */
module Matchers {
  import opened Wrappers
  import opened Text

  /** `gpg: Good signature from "`: what goodSignatureRE needs at the start of a line. */
  const GoodPrefix: string := "gpg: Good signature from \""

  /** `gpg: BAD signature from "`: what badSignatureRE needs at the start of a line. */
  const BadPrefix: string := "gpg: BAD signature from \""

  /** `gpg: encrypted with`: the literal start of encryptedRE. */
  const EncryptedHeader: string := "gpg: encrypted with"

  /** The position of the last `c` in `s`, if any. */
  function LastIndex(s: string, c: char): (r: Option<nat>)
    ensures r.None? ==> forall j :: 0 <= j < |s| ==> s[j] != c
    ensures r.Some? ==> r.value < |s| && s[r.value] == c
    ensures r.Some? ==> forall j :: r.value < j < |s| ==> s[j] != c
  {
    if s == [] then None
    else if s[|s| - 1] == c then Some(|s| - 1)
    else LastIndex(s[..|s| - 1], c)
  }

  // ---------------------------------------------------------------------------
  // goodSignatureRE and badSignatureRE: `(?m)^<prefix>(.*)"`
  // ---------------------------------------------------------------------------

  /**
   * What `^<prefix>(.*)"` captures on one line. The greedy `.*` runs to the
   * last quote of the line, so the capture is everything between the prefix
   * and that quote, and what follows the quote holds no quote. There is no
   * match when the line does not start with the prefix or has no quote after it.
   */
  function SignatureCapture(line: string, prefix: string): (r: Option<string>)
    ensures r.Some? <==> prefix <= line && '"' in line[|prefix|..]
    ensures r.Some? ==>
      && |prefix| + |r.value| < |line|
      && line == prefix + r.value + "\"" + line[|prefix| + |r.value| + 1..]
      && '"' !in line[|prefix| + |r.value| + 1..]
  {
    if !(prefix <= line) then None
    else
      var rest := line[|prefix|..];
      match LastIndex(rest, '"')
      case None => None
      case Some(k) =>
        assert line == prefix + rest;
        assert rest == rest[..k] + "\"" + rest[k + 1..];
        assert rest[k + 1..] == line[|prefix| + k + 1..];
        Some(rest[..k])
  }

  /** The greedy capture is unique: any split of the line whose tail has no quote gives it. */
  lemma SignatureCaptureOf(prefix: string, c: string, tail: string)
    requires '"' !in tail
    ensures SignatureCapture(prefix + c + "\"" + tail, prefix) == Some(c)
  {
    var line := prefix + c + "\"" + tail;
    assert line[..|prefix|] == prefix;
    var rest := line[|prefix|..];
    assert rest == c + "\"" + tail;
    LastIndexOf(c, '"', tail);
    assert rest[..|c|] == c;
  }

  /** An occurrence of `c` followed by no other `c` is the last one. */
  lemma {:induction false} LastIndexOf(a: string, c: char, tail: string)
    requires c !in tail
    ensures LastIndex(a + [c] + tail, c) == Some(|a|)
  {
    var s := a + [c] + tail;
    if tail != [] {
      assert s[..|s| - 1] == a + [c] + tail[..|tail| - 1];
      assert s[|s| - 1] == tail[|tail| - 1];
      LastIndexOf(a, c, tail[..|tail| - 1]);
    } else {
      assert s[|s| - 1] == c;
    }
  }

  /** No line starts with both prefixes: they differ in their sixth character. */
  lemma PrefixesExclusive(line: string)
    ensures !(GoodPrefix <= line && BadPrefix <= line)
  {
    if GoodPrefix <= line {
      assert line[5] == GoodPrefix[5];
    }
  }

  /** The line is one the pattern matches: it starts with the prefix and has a quote after it. */
  predicate IsSignatureLine(line: string, prefix: string) {
    prefix <= line && '"' in line[|prefix|..]
  }

  /** The pattern matches a line exactly when it captures something on it. */
  lemma SignatureLineIffCapture(line: string, prefix: string)
    ensures IsSignatureLine(line, prefix) <==> SignatureCapture(line, prefix).Some?
  {
  }

  /** Every line made of the prefix, a name, a quote and anything after it is matched. */
  lemma SignatureLineOf(prefix: string, c: string, tail: string)
    ensures IsSignatureLine(prefix + c + "\"" + tail, prefix)
  {
    var line := prefix + c + "\"" + tail;
    assert line[..|prefix|] == prefix;
    assert line[|prefix|..][|c|] == '"';
  }

  /** The first matching line: the leftmost match of the pattern starts there. */
  function FirstSignatureLine(lines: seq<string>, prefix: string): (r: Option<nat>)
    ensures r.None? <==> forall k :: 0 <= k < |lines| ==> !IsSignatureLine(lines[k], prefix)
    ensures r.Some? ==>
      && r.value < |lines|
      && IsSignatureLine(lines[r.value], prefix)
      && forall k :: 0 <= k < r.value ==> !IsSignatureLine(lines[k], prefix)
  {
    if lines == [] then None
    else if IsSignatureLine(lines[0], prefix) then Some(0)
    else
      var tail := lines[1..];
      assert forall k :: 0 <= k < |tail| ==> tail[k] == lines[k + 1];
      match FirstSignatureLine(tail, prefix)
      case None => None
      case Some(k) => Some(k + 1)
  }

  /** Some line of `stderr` is matched by the pattern for `prefix`. */
  predicate HasSignatureLine(stderr: string, prefix: string) {
    exists k :: 0 <= k < |Lines(stderr)| && IsSignatureLine(Lines(stderr)[k], prefix)
  }

  /**
   * `FindStringSubmatch(stderr)[1]`: the capture of the first matching line,
   * or nothing when no line matches. The capture never holds a newline.
   */
  function MatchSignature(stderr: string, prefix: string): (r: Option<string>)
    ensures r.Some? <==> HasSignatureLine(stderr, prefix)
    ensures r.Some? ==> '\n' !in r.value
  {
    var lines := Lines(stderr);
    match FirstSignatureLine(lines, prefix)
    case None => None
    case Some(k) =>
      SignatureCapture(lines[k], prefix)
  }

  /** Only the first matching line counts: lines after it are never looked at. */
  lemma MatchSignatureFirst(stderr: string, prefix: string, k: nat)
    requires k < |Lines(stderr)|
    requires IsSignatureLine(Lines(stderr)[k], prefix)
    requires forall j :: 0 <= j < k ==> !IsSignatureLine(Lines(stderr)[j], prefix)
    ensures MatchSignature(stderr, prefix) == SignatureCapture(Lines(stderr)[k], prefix)
  {
    var f := FirstSignatureLine(Lines(stderr), prefix);
    assert f.Some?;
  }

  /** In a one-line stream the match is that line's capture. */
  lemma MatchOneLine(line: string, prefix: string)
    requires '\n' !in line
    ensures MatchSignature(line, prefix) == SignatureCapture(line, prefix)
  {
    LinesSingle(line);
  }

  /** In a two-line stream the second line is looked at only when the first does not match. */
  lemma MatchTwoLines(first: string, second: string, prefix: string)
    requires '\n' !in first && '\n' !in second
    ensures MatchSignature(first + "\n" + second, prefix)
         == if IsSignatureLine(first, prefix) then SignatureCapture(first, prefix)
            else SignatureCapture(second, prefix)
  {
    LinesCons(first, second);
    LinesSingle(second);
  }

  // ---------------------------------------------------------------------------
  // encryptedRE: `(?m)^gpg: encrypted with[^\n]+\n\s*"([^\n]+)"\n`
  // ---------------------------------------------------------------------------

  /** Go's `\s`: tab, newline, form feed, carriage return and space (not vertical tab). */
  predicate Space(c: char) {
    c == '\t' || c == '\n' || c == '\U{0C}' || c == '\r' || c == ' '
  }

  predicate AllSpace(s: string) {
    forall i :: 0 <= i < |s| ==> Space(s[i])
  }

  /** The length of the run of white space that starts `s`. */
  function LeadingSpace(s: string): (n: nat)
    ensures n <= |s| && AllSpace(s[..n])
    ensures n < |s| ==> !Space(s[n])
  {
    if s != [] && Space(s[0]) then
      var n := 1 + LeadingSpace(s[1..]);
      assert s[..n] == [s[0]] + s[1..][..n - 1];
      n
    else 0
  }

  /**
   * The header line `^gpg: encrypted with[^\n]+`: the literal and at least one
   * more character before the newline.
   */
  predicate IsEncryptedHeader(line: string) {
    EncryptedHeader <= line && |line| > |EncryptedHeader|
  }

  /**
   * What `"([^\n]+)"` captures on the line that holds the recipient, after the
   * white space `\s*` consumed at its start. The closing quote must be the last
   * character of the line, because the pattern wants a newline right after it,
   * and at least one character lies between the quotes.
   */
  function QuotedLineCapture(line: string): (r: Option<string>)
    ensures r.Some? ==>
      && 1 <= |r.value| && |r.value| + 2 <= |line|
      && AllSpace(line[..|line| - |r.value| - 2])
      && line == line[..|line| - |r.value| - 2] + "\"" + r.value + "\""
  {
    var i := LeadingSpace(line);
    if i + 3 <= |line| && line[i] == '"' && line[|line| - 1] == '"' then
      var c := line[i + 1..|line| - 1];
      assert line == line[..i] + "\"" + c + "\"";
      Some(c)
    else None
  }

  /** Any line made of white space, a quote, a non-empty name and a final quote yields that name. */
  lemma QuotedLineCaptureOf(w: string, c: string)
    requires AllSpace(w) && |c| >= 1
    ensures QuotedLineCapture(w + "\"" + c + "\"") == Some(c)
  {
    var line := w + "\"" + c + "\"";
    assert line == w + ("\"" + c + "\"");
    LeadingSpaceOf(w, "\"" + c + "\"");
    assert line[|w| + 1..|line| - 1] == c;
  }

  /** A run of white space followed by something else is exactly the leading run. */
  lemma {:induction false} LeadingSpaceOf(w: string, s: string)
    requires AllSpace(w)
    requires s == [] || !Space(s[0])
    ensures LeadingSpace(w + s) == |w|
  {
    if w == [] {
      assert w + s == s;
    } else {
      assert (w + s)[1..] == w[1..] + s;
      LeadingSpaceOf(w[1..], s);
    }
  }

  /** The index of the first line at or after `from` that is not all white space. */
  function FirstNonSpaceLine(lines: seq<string>, from: nat): (j: nat)
    requires from <= |lines|
    ensures from <= j <= |lines|
    ensures forall k :: from <= k < j ==> AllSpace(lines[k])
    ensures j < |lines| ==> !AllSpace(lines[j])
    decreases |lines| - from
  {
    if from < |lines| && AllSpace(lines[from]) then FirstNonSpaceLine(lines, from + 1)
    else from
  }

  /**
   * Lines `h` to `q` are an "encrypted with" block capturing `c`: a header
   * line, then only lines of white space, then the quoted line with capture
   * `c`, and a newline after it (so a further line exists).
   */
  predicate EncryptedBlockAt(lines: seq<string>, h: nat, q: nat, c: string) {
    && h < q && q + 1 < |lines|
    && IsEncryptedHeader(lines[h])
    && (forall k {:trigger AllSpace(lines[k])} :: h < k < q ==> AllSpace(lines[k]))
    && QuotedLineCapture(lines[q]) == Some(c)
  }

  /**
   * One attempt of encryptedRE at the start of `lines[0]`: the captured name
   * and the number of lines the match consumed (through the newline that ends
   * the quoted line). `\s*` swallows every line that is all white space, so the
   * first other line must be the quoted one, and it must end with a newline.
   * There is a match exactly when a block starts at the first line.
   */
  function EncryptedMatchAt(lines: seq<string>): (r: Option<(string, nat)>)
    requires |lines| >= 1
    ensures r.Some? ==> 2 <= r.value.1 < |lines| && |r.value.0| >= 1
    ensures r.Some? ==> EncryptedBlockAt(lines, 0, r.value.1 - 1, r.value.0)
    ensures r.None? ==> forall q: nat, c :: !EncryptedBlockAt(lines, 0, q, c)
  {
    if !IsEncryptedHeader(lines[0]) || |lines| < 2 then None
    else
      var j := FirstNonSpaceLine(lines, 1);
      BlockQuotedLineIsFirst(lines, j);
      if j + 1 >= |lines| then None
      else
        match QuotedLineCapture(lines[j])
        case None => None
        case Some(c) => Some((c, j + 1))
  }

  /** In a block starting at the first line, the quoted line is the first line after it that is not all white space. */
  lemma BlockQuotedLineIsFirst(lines: seq<string>, j: nat)
    requires 1 <= |lines| && j == FirstNonSpaceLine(lines, 1)
    ensures forall q: nat, c :: EncryptedBlockAt(lines, 0, q, c) ==> q == j
  {
    forall q: nat, c | EncryptedBlockAt(lines, 0, q, c) ensures q == j {
      QuotedLineNotSpace(lines[q], c);
    }
  }

  /** A quoted line is not all white space: it ends with a quote. */
  lemma QuotedLineNotSpace(line: string, c: string)
    requires QuotedLineCapture(line) == Some(c)
    ensures !AllSpace(line)
  {
    assert line[|line| - 1] == '"';
  }

  /**
   * `FindAllStringSubmatch(_, -1)` over lines: the leftmost match, then the
   * next one from the line after it, so that matches never overlap; a line
   * where no match starts is skipped.
   */
  function EncryptedIn(lines: seq<string>): (r: seq<string>)
    ensures forall i :: 0 <= i < |r| ==> |r[i]| >= 1
    ensures 2 * |r| <= |lines|
    decreases |lines|
  {
    if lines == [] then []
    else
      match EncryptedMatchAt(lines)
      case Some((c, used)) => [c] + EncryptedIn(lines[used..])
      case None => EncryptedIn(lines[1..])
  }

  /**
   * Every captured name comes from an "encrypted with" block of the input:
   * nothing is reported that gpg did not print under such a header.
   */
  lemma {:induction false} EncryptedFromBlock(lines: seq<string>, i: nat) returns (h: nat, q: nat)
    requires i < |EncryptedIn(lines)|
    ensures EncryptedBlockAt(lines, h, q, EncryptedIn(lines)[i])
    decreases |lines|, 1
  {
    if EncryptedMatchAt(lines).Some? {
      var c, used := EncryptedInAtMatch(lines);
      h, q := EncryptedFromMatch(lines, c, used, i);
    } else {
      EncryptedInAtSkip(lines);
      h, q := EncryptedFromSkip(lines, i);
    }
  }

  /** A match at the first line: its own block, or one of the blocks after it. */
  lemma {:induction false} EncryptedFromMatch(lines: seq<string>, c: string, used: nat, i: nat) returns (h: nat, q: nat)
    requires 2 <= used <= |lines| && EncryptedBlockAt(lines, 0, used - 1, c)
    requires EncryptedIn(lines) == [c] + EncryptedIn(lines[used..])
    requires i < |EncryptedIn(lines)|
    ensures EncryptedBlockAt(lines, h, q, EncryptedIn(lines)[i])
    decreases |lines|, 0
  {
    if i == 0 {
      h, q := 0, used - 1;
    } else {
      var tail := lines[used..];
      var h', q' := EncryptedFromBlock(tail, i - 1);
      assert EncryptedIn(lines)[i] == EncryptedIn(tail)[i - 1];
      h, q := h' + used, q' + used;
      BlockShift(lines, used, tail, h', q', h, q, EncryptedIn(tail)[i - 1]);
    }
  }

  /** No match at the first line: the block is one of those after it. */
  lemma {:induction false} EncryptedFromSkip(lines: seq<string>, i: nat) returns (h: nat, q: nat)
    requires |lines| >= 1 && EncryptedIn(lines) == EncryptedIn(lines[1..])
    requires i < |EncryptedIn(lines)|
    ensures EncryptedBlockAt(lines, h, q, EncryptedIn(lines)[i])
    decreases |lines|, 0
  {
    var tail := lines[1..];
    var h', q' := EncryptedFromBlock(tail, i);
    h, q := h' + 1, q' + 1;
    BlockShift(lines, 1, tail, h', q', h, q, EncryptedIn(lines)[i]);
  }

  /** A match at the first line yields its name first, then the matches after the lines it used. */
  lemma EncryptedInAtMatch(lines: seq<string>) returns (c: string, used: nat)
    requires |lines| >= 1 && EncryptedMatchAt(lines).Some?
    ensures 2 <= used <= |lines|
    ensures EncryptedBlockAt(lines, 0, used - 1, c)
    ensures EncryptedIn(lines) == [c] + EncryptedIn(lines[used..])
  {
    c, used := EncryptedMatchAt(lines).value.0, EncryptedMatchAt(lines).value.1;
  }

  /** Without a match at the first line, scanning resumes at the second. */
  lemma EncryptedInAtSkip(lines: seq<string>)
    requires |lines| >= 1 && EncryptedMatchAt(lines).None?
    ensures EncryptedIn(lines) == EncryptedIn(lines[1..])
  {
  }

  /** A block found after the first `n` lines is a block of the whole input, `n` lines further on. */
  lemma BlockShift(lines: seq<string>, n: nat, tail: seq<string>, h: nat, q: nat, h2: nat, q2: nat, c: string)
    requires n <= |lines| && tail == lines[n..] && h2 == h + n && q2 == q + n
    requires EncryptedBlockAt(tail, h, q, c)
    ensures EncryptedBlockAt(lines, h2, q2, c)
  {
    forall k | h + n < k < q + n ensures AllSpace(lines[k]) {
      assert lines[k] == tail[k - n];
    }
  }

  /** The captured names of all "encrypted with" matches of `stderr`, in stream order. */
  function EncryptedMatches(stderr: string): (r: seq<string>)
    ensures forall i :: 0 <= i < |r| ==> |r[i]| >= 1
  {
    EncryptedIn(Lines(stderr))
  }

  /**
   * A complete block (header, blank lines, quoted line followed by a newline)
   * contributes exactly its name, and scanning resumes after it.
   */
  lemma EncryptedBlock(header: string, blanks: seq<string>, w: string, c: string, rest: seq<string>)
    requires IsEncryptedHeader(header)
    requires forall k :: 0 <= k < |blanks| ==> AllSpace(blanks[k])
    requires AllSpace(w) && |c| >= 1 && |rest| >= 1
    ensures EncryptedIn([header] + blanks + [w + "\"" + c + "\""] + rest) == [c] + EncryptedIn(rest)
  {
    var quoted := w + "\"" + c + "\"";
    var lines := [header] + blanks + [quoted] + rest;
    var q := |blanks| + 1;
    assert lines[q] == quoted;
    QuotedLineCaptureOf(w, c);
    assert forall k :: 0 < k < q ==> lines[k] == blanks[k - 1];
    assert EncryptedBlockAt(lines, 0, q, c);
    BlockQuotedLineIsFirst(lines, FirstNonSpaceLine(lines, 1));
    assert EncryptedMatchAt(lines) == Some((c, q + 1));
    assert lines[q + 1..] == rest;
  }

  /** Lines that are not headers contribute nothing and are skipped. */
  lemma {:induction false} EncryptedSkip(noise: seq<string>, rest: seq<string>)
    requires forall k :: 0 <= k < |noise| ==> !IsEncryptedHeader(noise[k])
    ensures EncryptedIn(noise + rest) == EncryptedIn(rest)
  {
    if noise != [] {
      EncryptedInSkipsLine(noise + rest);
      assert (noise + rest)[1..] == noise[1..] + rest;
      EncryptedSkip(noise[1..], rest);
    } else {
      assert noise + rest == rest;
    }
  }

  /** No match starts on a line that is not a header, so scanning moves to the next line. */
  lemma EncryptedInSkipsLine(lines: seq<string>)
    requires |lines| >= 1 && !IsEncryptedHeader(lines[0])
    ensures EncryptedIn(lines) == EncryptedIn(lines[1..])
  {
  }

  /** The quoted line must end with a newline: a block at the very end of the stream yields nothing. */
  lemma EncryptedNeedsNewline(header: string, w: string, c: string)
    requires IsEncryptedHeader(header) && AllSpace(w)
    ensures EncryptedIn([header, w + "\"" + c + "\""]) == []
  {
    var quoted := w + "\"" + c + "\"";
    assert !IsEncryptedHeader(quoted) by {
      assert quoted[0] == (if |w| > 0 then w[0] else '"');
      assert EncryptedHeader[0] == 'g';
    }
    var lines: seq<string> := [header, quoted];
    assert lines[1..] == [quoted];
    assert lines[1..][1..] == [];
  }
}
