/**
 * The string operations the gpg wrapper applies to the captured diagnostic
 * stream: removing ESC and CR (`unprintableRE.ReplaceAllString(_, "")`),
 * trimming tabs and spaces (`strings.Trim(_, "\t ")`), and the line structure
 * that the `(?m)` flag of the matchers works on.
 *
 * A `char` here stands for one byte of the stream. Every character the
 * patterns name is ASCII, so no byte of a multi-byte UTF-8 sequence can be
 * taken for one of them.
 */
module Text {

  /** ESC (0x1B), the byte that opens a terminal escape sequence. */
  const Esc: char := '\U{1B}'

  /** Carriage return, which lets a line overwrite what was printed before it. */
  const Cr: char := '\r'

  /** The character class `[\033\r]`. */
  predicate Unprintable(c: char) {
    c == Esc || c == Cr
  }

  /** Nothing in `s` can start an escape sequence or rewind the line. */
  predicate Printable(s: string) {
    Esc !in s && Cr !in s
  }

  /** Deletes every ESC and CR, keeping all other characters in order. */
  function Sanitize(s: string): (r: string)
    ensures Printable(r)
    ensures |r| <= |s|
  {
    if s == [] then []
    else if Unprintable(s[0]) then Sanitize(s[1..])
    else [s[0]] + Sanitize(s[1..])
  }

  /** Sanitizing works piecewise: the result is the concatenation of the pieces' results. */
  lemma {:induction false} SanitizeAppend(a: string, b: string)
    ensures Sanitize(a + b) == Sanitize(a) + Sanitize(b)
  {
    if a == [] {
      assert a + b == b;
    } else {
      assert (a + b)[1..] == a[1..] + b;
      SanitizeAppend(a[1..], b);
    }
  }

  /** A string without ESC and CR passes through unchanged. */
  lemma {:induction false} SanitizePrintable(s: string)
    requires Printable(s)
    ensures Sanitize(s) == s
  {
    if s != [] {
      assert s == [s[0]] + s[1..];
      SanitizePrintable(s[1..]);
    }
  }

  /**
   * A single character is dropped exactly when it is ESC or CR. With
   * `SanitizeAppend` this fixes `Sanitize` completely: the kept characters
   * stay in their original order.
   */
  lemma SanitizeChar(c: char)
    ensures Sanitize([c]) == if Unprintable(c) then [] else [c]
  {
    assert [c][1..] == [];
  }

  /** Sanitizing twice is the same as sanitizing once. */
  lemma {:induction false} SanitizeIdempotent(s: string)
    ensures Sanitize(Sanitize(s)) == Sanitize(s)
  {
    SanitizePrintable(Sanitize(s));
  }

  /** Each character other than ESC and CR occurs in the result as often as in the input. */
  lemma {:induction false} SanitizeKeepsOthers(s: string, c: char)
    requires !Unprintable(c)
    ensures multiset(Sanitize(s))[c] == multiset(s)[c]
  {
    if s != [] {
      assert s == [s[0]] + s[1..];
      SanitizeKeepsOthers(s[1..], c);
    }
  }

  /** The cut set `"\t "` of `strings.Trim`. */
  predicate Blank(c: char) {
    c == '\t' || c == ' '
  }

  predicate AllBlank(s: string) {
    forall i :: 0 <= i < |s| ==> Blank(s[i])
  }

  /** Neither end of `s` is a tab or a space. */
  predicate Tight(s: string) {
    s == [] || (!Blank(s[0]) && !Blank(s[|s| - 1]))
  }

  /** How many tabs and spaces `s` starts with. */
  function LeadingBlanks(s: string): (n: nat)
    ensures n <= |s|
    ensures forall i :: 0 <= i < n ==> Blank(s[i])
    ensures n < |s| ==> !Blank(s[n])
  {
    if s != [] && Blank(s[0]) then 1 + LeadingBlanks(s[1..]) else 0
  }

  /** How many tabs and spaces `s` ends with. */
  function TrailingBlanks(s: string): (n: nat)
    ensures n <= |s|
    ensures forall i :: |s| - n <= i < |s| ==> Blank(s[i])
    ensures n < |s| ==> !Blank(s[|s| - 1 - n])
  {
    if s != [] && Blank(s[|s| - 1]) then 1 + TrailingBlanks(s[..|s| - 1]) else 0
  }

  /**
   * `strings.Trim(s, "\t ")`: the leading tabs and spaces are cut, then the
   * trailing ones of what is left. The result is a piece of `s` with neither
   * end blank.
   */
  function Trim(s: string): (r: string)
    ensures Tight(r)
    ensures |r| <= |s|
    ensures forall c :: c in r ==> c in s
  {
    var i := LeadingBlanks(s);
    var l := s[i..];
    l[..|l| - TrailingBlanks(l)]
  }

  /** Padding of tabs and spaces around a tight middle is exactly what `Trim` removes. */
  lemma TrimPadded(p: string, m: string, q: string)
    requires AllBlank(p) && AllBlank(q) && Tight(m)
    ensures Trim(p + m + q) == m
  {
    var s := p + m + q;
    if m == [] {
      assert AllBlank(s);
      assert LeadingBlanks(s) == |s|;
    } else {
      assert s[|p|] == m[0];
      assert LeadingBlanks(s) == |p|;
      var l := s[|p|..];
      assert l == m + q;
      assert l[|m| - 1] == m[|m| - 1];
      assert TrailingBlanks(l) == |q|;
      assert l[..|m|] == m;
    }
  }

  /** Joins lines with `'\n'` between them; the inverse of `Lines`. */
  function JoinLines(ls: seq<string>): string {
    if |ls| == 0 then ""
    else if |ls| == 1 then ls[0]
    else ls[0] + "\n" + JoinLines(ls[1..])
  }

  /** No element of `ls` contains a newline. */
  predicate SingleLines(ls: seq<string>) {
    forall k :: 0 <= k < |ls| ==> '\n' !in ls[k]
  }

  /**
   * The lines of `s`: the pieces between newlines. A line starts at the
   * beginning of `s` and after every `'\n'`, which is where `^` matches under
   * the `(?m)` flag; the last piece is empty when `s` ends with a newline.
   */
  function Lines(s: string): (r: seq<string>)
    ensures |r| >= 1
    ensures SingleLines(r)
    ensures JoinLines(r) == s
  {
    if s == [] then [""]
    else
      var rest := Lines(s[1..]);
      if s[0] == '\n' then
        assert ([""] + rest)[1..] == rest;
        [""] + rest
      else
        var r := [[s[0]] + rest[0]] + rest[1..];
        assert r[1..] == rest[1..];
        assert JoinLines(r) == s by {
          if |rest| > 1 {
            assert JoinLines(rest) == rest[0] + "\n" + JoinLines(rest[1..]);
            assert JoinLines(r) == [s[0]] + rest[0] + "\n" + JoinLines(rest[1..]);
          }
          assert s == [s[0]] + s[1..];
        }
        r
  }

  /** A string without a newline is a single line. */
  lemma {:induction false} LinesSingle(a: string)
    requires '\n' !in a
    ensures Lines(a) == [a]
  {
    if a != [] {
      LinesSingle(a[1..]);
      assert a == [a[0]] + a[1..];
    }
  }

  /** A newline-free head followed by a newline is the first line. */
  lemma {:induction false} LinesCons(a: string, s: string)
    requires '\n' !in a
    ensures Lines(a + "\n" + s) == [a] + Lines(s)
  {
    if a == [] {
      assert (a + "\n" + s)[1..] == s;
    } else {
      assert (a + "\n" + s)[1..] == a[1..] + "\n" + s;
      LinesCons(a[1..], s);
      assert a == [a[0]] + a[1..];
    }
  }

  /** Splitting undoes joining: newline-free lines are recovered exactly. */
  lemma {:induction false} LinesOfJoin(ls: seq<string>)
    requires |ls| >= 1 && SingleLines(ls)
    ensures Lines(JoinLines(ls)) == ls
  {
    if |ls| == 1 {
      LinesSingle(ls[0]);
    } else {
      LinesOfJoin(ls[1..]);
      LinesCons(ls[0], JoinLines(ls[1..]));
      assert ls == [ls[0]] + ls[1..];
    }
  }
}
