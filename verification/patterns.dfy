/** The three line patterns of the source view, matched against a whole
    line the way `std::regex_match` matches an ECMAScript expression:
      bracket_regex                       ^([ \t]*).*\{ *$
      no_bracket_statement_regex          ^([ \t]*)(if|for|else if|while) *\(.*[^;}] *$
      no_bracket_no_para_statement_regex  ^([ \t]*)(else) *$
    Every keyword starts with a letter, so the first group always captures
    the line's whole leading run of blanks. */
module LinePatterns {
  import opened Text

  /** What `.` matches in an ECMAScript regex over `char`: anything but
      '\n' and '\r'. */
  predicate Dot(c: char) {
    c != '\n' && c != '\r'
  }

  predicate AllDot(s: string) {
    forall k :: 0 <= k < |s| ==> Dot(s[k])
  }

  predicate AllSpaces(s: string) {
    forall k :: 0 <= k < |s| ==> s[k] == ' '
  }

  /** `bracket_regex`: the line ends in `{`, then nothing but spaces. */
  predicate OpensBlock(line: string) {
    exists k :: 0 <= k < |line| && line[k] == '{' && AllDot(line[..k]) && AllSpaces(line[k + 1..])
  }

  const HeadKeywords: seq<string> := ["if", "for", "else if", "while"]

  /** The tail `.*[^;}] *` after the opening parenthesis. */
  predicate OpenTail(u: string) {
    exists j :: 0 <= j < |u| && u[j] != ';' && u[j] != '}' && AllDot(u[..j]) && AllSpaces(u[j + 1..])
  }

  /** `(keyword) *\(` followed by an open tail, for the text after the indentation. */
  predicate HeadAfter(r: string, kw: string) {
    |kw| <= |r| && r[..|kw|] == kw &&
    var s := r[|kw|..];
    var n := CountLeading(s, ' ');
    n < |s| && s[n] == '(' && OpenTail(s[n + 1..])
  }

  /** `no_bracket_statement_regex`: an `if`, `for`, `else if` or `while`
      head whose line does not end in `;` or `}`. */
  predicate HeadlessStatement(line: string) {
    var r := line[Indentation(line)..];
    exists i :: 0 <= i < |HeadKeywords| && HeadAfter(r, HeadKeywords[i])
  }

  /** `no_bracket_no_para_statement_regex`: a bare `else`. */
  predicate BareElse(line: string) {
    var r := line[Indentation(line)..];
    |r| >= 4 && r[..4] == "else" && AllSpaces(r[4..])
  }

  /** The first capture group of each pattern: the leading blanks. */
  function Captured(line: string): string {
    line[..Indentation(line)]
  }

  /** The last character of the line decides `bracket_regex` once trailing
      spaces are set aside. */
  lemma {:induction false} OpensBlockByLastNonSpace(line: string, k: nat)
    requires k < |line| && line[k] != ' ' && AllSpaces(line[k + 1..])
    ensures OpensBlock(line) <==> line[k] == '{' && AllDot(line[..k])
  {
    if OpensBlock(line) {
      var k' :| 0 <= k' < |line| && line[k'] == '{' && AllDot(line[..k']) && AllSpaces(line[k' + 1..]);
    }
  }

  /** A line whose last character is `;` or `}` is never a headless head. */
  lemma TerminatedIsNotHeadless(line: string)
    requires |line| > 0 && (line[|line| - 1] == ';' || line[|line| - 1] == '}')
    ensures !HeadlessStatement(line)
  {
    var r := line[Indentation(line)..];
    forall i | 0 <= i < |HeadKeywords|
      ensures !HeadAfter(r, HeadKeywords[i])
    {
      var kw := HeadKeywords[i];
      if |kw| <= |r| && r[..|kw|] == kw {
        var s := r[|kw|..];
        var n := CountLeading(s, ' ');
        if n < |s| && s[n] == '(' {
          var u := s[n + 1..];
          TerminatedTail(u);
          assert u == line[|line| - |u|..];
        }
      }
    }
  }

  lemma TerminatedTail(u: string)
    requires |u| == 0 || u[|u| - 1] == ';' || u[|u| - 1] == '}'
    ensures !OpenTail(u)
  {
  }
}
