/** A text buffer as a plain character sequence addressed by offsets
    `0 .. |t|`, with the conventions of the toolkit's text iterators:
    reading at the end of the buffer yields NUL, and stepping back from the
    start of the buffer fails without moving. Lines are separated by '\n'. */
module Text {

  datatype Option<T> = None | Some(value: T)

  const NUL: char := '\0'

  /** The character under an iterator: the toolkit yields 0 at the buffer end. */
  function At(t: string, i: nat): char {
    if i < |t| then t[i] else NUL
  }

  /** One step back; at the buffer start the iterator stays where it is. */
  function Back(i: nat): nat {
    if i > 0 then i - 1 else 0
  }

  predicate IsBlank(c: char) {
    c == ' ' || c == '\t'
  }

  predicate StartsLine(t: string, i: nat)
    requires i <= |t|
  {
    i == 0 || t[i - 1] == '\n'
  }

  predicate EndsLine(t: string, i: nat)
    requires i <= |t|
  {
    i == |t| || t[i] == '\n'
  }

  predicate NoNewline(s: string) {
    forall k :: 0 <= k < |s| ==> s[k] != '\n'
  }

  predicate AllBlank(s: string) {
    forall k :: 0 <= k < |s| ==> IsBlank(s[k])
  }

  /** Start of the line holding offset `i`. */
  function LineStart(t: string, i: nat): (r: nat)
    requires i <= |t|
    ensures r <= i && StartsLine(t, r)
    ensures forall k :: r <= k < i ==> t[k] != '\n'
    decreases i
  {
    if i == 0 || t[i - 1] == '\n' then i else LineStart(t, i - 1)
  }

  /** End of the line holding offset `i`: its '\n', or the buffer end. */
  function LineEnd(t: string, i: nat): (r: nat)
    requires i <= |t|
    ensures i <= r <= |t| && EndsLine(t, r)
    ensures forall k :: i <= k < r ==> t[k] != '\n'
    decreases |t| - i
  {
    if i == |t| || t[i] == '\n' then i else LineEnd(t, i + 1)
  }

  /** Moves forward from `p` over spaces and tabs; this is the loop of
      `get_tabs_end_iter` (a '\n' and the buffer end are never blank). */
  function SkipBlanks(t: string, p: nat): (r: nat)
    requires p <= |t|
    ensures p <= r <= |t|
    ensures forall k :: p <= k < r ==> IsBlank(t[k])
    ensures r == |t| || !IsBlank(t[r])
    decreases |t| - p
  {
    if p < |t| && IsBlank(t[p]) then SkipBlanks(t, p + 1) else p
  }

  /** `get_tabs_end_iter`: the first non-blank offset of the line holding `i`,
      or the line end when the line is blank. */
  function TabsEnd(t: string, i: nat): (r: nat)
    requires i <= |t|
    ensures LineStart(t, i) <= r <= LineEnd(t, i)
    ensures forall k :: LineStart(t, i) <= k < r ==> IsBlank(t[k])
    ensures r == LineEnd(t, i) || !IsBlank(t[r])
  {
    var s := LineStart(t, i);
    var r := SkipBlanks(t, s);
    SkipBlanksStaysOnLine(t, s, i);
    r
  }

  lemma SkipBlanksStaysOnLine(t: string, s: nat, i: nat)
    requires i <= |t| && s == LineStart(t, i)
    ensures SkipBlanks(t, s) <= LineEnd(t, i)
  {
    var e := LineEnd(t, i);
    assert e < |t| ==> !IsBlank(t[e]);
  }

  /** The whitespace the line holding `i` starts with. */
  function LeadingWs(t: string, i: nat): (w: string)
    requires i <= |t|
    ensures AllBlank(w)
  {
    t[LineStart(t, i)..TabsEnd(t, i)]
  }

  /** `get_line_before`: the text of the line holding `i`, up to `i`. */
  function LineBefore(t: string, i: nat): string
    requires i <= |t|
  {
    t[LineStart(t, i)..i]
  }

  /** `get_line`: the whole text of the line holding `i`, without its '\n'. */
  function LineAt(t: string, i: nat): string
    requires i <= |t|
  {
    t[LineStart(t, i)..LineEnd(t, i)]
  }

  /** The number of leading blanks of a single line. */
  function Indentation(line: string): (n: nat)
    ensures n <= |line|
    ensures AllBlank(line[..n])
    ensures n == |line| || !IsBlank(line[n])
  {
    if |line| > 0 && IsBlank(line[0]) then
      var n := 1 + Indentation(line[1..]);
      assert line[..n] == [line[0]] + line[1..][..n - 1];
      n
    else 0
  }

  function Insert(t: string, i: nat, s: string): (r: string)
    requires i <= |t|
    ensures |r| == |t| + |s|
  {
    t[..i] + s + t[i..]
  }

  function Erase(t: string, a: nat, b: nat): (r: string)
    requires a <= b <= |t|
    ensures |r| == |t| - (b - a)
  {
    t[..a] + t[b..]
  }

  function Min(a: nat, b: nat): nat {
    if a <= b then a else b
  }

  /** A string of `n` copies of `c`. */
  function Repeat(c: char, n: nat): (r: string)
    ensures |r| == n
    ensures forall k :: 0 <= k < n ==> r[k] == c
  {
    if n == 0 then "" else [c] + Repeat(c, n - 1)
  }

  /** The number of leading copies of `c` in `s`. */
  function CountLeading(s: string, c: char): (n: nat)
    ensures n <= |s|
    ensures forall k :: 0 <= k < n ==> s[k] == c
    ensures n == |s| || s[n] != c
  {
    if |s| > 0 && s[0] == c then 1 + CountLeading(s[1..], c) else 0
  }

  // ---------------------------------------------------------------------
  // Line view of a buffer

  /** The lines of a buffer: the pieces between its '\n' characters. */
  function Lines(t: string): (ls: seq<string>)
    ensures |ls| >= 1
    ensures forall j :: 0 <= j < |ls| ==> NoNewline(ls[j])
    decreases |t|
  {
    if |t| == 0 then [""]
    else
      var rest := Lines(t[1..]);
      if t[0] == '\n' then [""] + rest
      else [[t[0]] + rest[0]] + rest[1..]
  }

  /** The buffer made of `ls`, one '\n' between consecutive lines. */
  function Join(ls: seq<string>): string
    requires |ls| >= 1
    decreases |ls|
  {
    if |ls| == 1 then ls[0] else ls[0] + "\n" + Join(ls[1..])
  }

  lemma {:induction false} JoinLines(t: string)
    ensures Join(Lines(t)) == t
    decreases |t|
  {
    if |t| == 0 {
    } else {
      var rest := Lines(t[1..]);
      JoinLines(t[1..]);
      if t[0] == '\n' {
        assert Lines(t) == [""] + rest;
        assert ([""] + rest)[1..] == rest;
        assert t == [t[0]] + t[1..];
      } else {
        var ls := Lines(t);
        assert ls == [[t[0]] + rest[0]] + rest[1..];
        if |rest| == 1 {
          assert Join(ls) == [t[0]] + rest[0];
          assert t == [t[0]] + t[1..];
        } else {
          assert ls[1..] == rest[1..];
          assert Join(rest) == rest[0] + "\n" + Join(rest[1..]);
          assert Join(ls) == [t[0]] + rest[0] + "\n" + Join(rest[1..]);
          assert t == [t[0]] + t[1..];
        }
      }
    }
  }

  lemma {:induction false} LinesOfLine(s: string)
    requires NoNewline(s)
    ensures Lines(s) == [s]
    decreases |s|
  {
    if |s| > 0 {
      LinesOfLine(s[1..]);
      assert [s[0]] + s[1..] == s;
    }
  }

  lemma {:induction false} LinesOfLineThen(s: string, u: string)
    requires NoNewline(s)
    ensures Lines(s + "\n" + u) == [s] + Lines(u)
    decreases |s|
  {
    var w := s + "\n" + u;
    if |s| == 0 {
      assert w == "\n" + u;
      assert w[1..] == u;
    } else {
      assert w[1..] == s[1..] + "\n" + u;
      LinesOfLineThen(s[1..], u);
      assert [s[0]] + s[1..] == s;
    }
  }

  lemma {:induction false} LinesJoin(ls: seq<string>)
    requires |ls| >= 1
    requires forall j :: 0 <= j < |ls| ==> NoNewline(ls[j])
    ensures Lines(Join(ls)) == ls
    decreases |ls|
  {
    if |ls| == 1 {
      LinesOfLine(ls[0]);
    } else {
      LinesJoin(ls[1..]);
      LinesOfLineThen(ls[0], Join(ls[1..]));
      assert [ls[0]] + ls[1..] == ls;
    }
  }

  /** Offset of the first character of line `l` in `Join(ls)`. */
  function LineOffset(ls: seq<string>, l: nat): nat
    requires l < |ls|
    decreases l
  {
    if l == 0 then 0 else |ls[0]| + 1 + LineOffset(ls[1..], l - 1)
  }

  lemma {:induction false} LineOffsetBound(ls: seq<string>, l: nat)
    requires l < |ls|
    ensures LineOffset(ls, l) + |ls[l]| <= |Join(ls)|
    ensures l == |ls| - 1 ==> LineOffset(ls, l) + |ls[l]| == |Join(ls)|
    decreases l
  {
    if l > 0 {
      LineOffsetBound(ls[1..], l - 1);
    } else if |ls| > 1 {
      assert |Join(ls)| == |ls[0]| + 1 + |Join(ls[1..])|;
    }
  }

  /** The line of `Join(ls)` offset `p` lies on; an offset at the end of a
      line (on its '\n') belongs to that line. */
  function LineOf(ls: seq<string>, p: nat): (l: nat)
    requires |ls| >= 1
    ensures l < |ls|
    ensures LineOffset(ls, l) <= p
    ensures p <= |Join(ls)| ==> p <= LineOffset(ls, l) + |ls[l]|
    decreases |ls|
  {
    if |ls| == 1 || p <= |ls[0]| then 0
    else
      var l := 1 + LineOf(ls[1..], p - |ls[0]| - 1);
      assert ls[1..][l - 1] == ls[l];
      l
  }

  /** Offset `p`, column `col` of line `l`, is found back on line `l`. */
  lemma {:induction false} LineOfOffset(ls: seq<string>, l: nat, col: nat, p: nat)
    requires l < |ls| && col <= |ls[l]| && p == LineOffset(ls, l) + col
    ensures LineOf(ls, p) == l
    decreases l
  {
    if l > 0 {
      assert ls[1..][l - 1] == ls[l];
      LineOfOffset(ls[1..], l - 1, col, p - |ls[0]| - 1);
    }
  }

  /** A line ends before any later line starts. */
  lemma {:induction false} LineOffsetGrows(ls: seq<string>, l1: nat, l2: nat)
    requires l1 < l2 < |ls|
    ensures LineOffset(ls, l1) + |ls[l1]| < LineOffset(ls, l2)
    decreases l1
  {
    if l1 > 0 {
      assert ls[1..][l1 - 1] == ls[l1];
      LineOffsetGrows(ls[1..], l1 - 1, l2 - 1);
    }
  }

  /** Later offsets lie on the same or a later line. */
  lemma LineOfMonotone(ls: seq<string>, m1: nat, m2: nat)
    requires |ls| >= 1 && m1 <= m2 <= |Join(ls)|
    ensures LineOf(ls, m1) <= LineOf(ls, m2)
  {
    var l1, l2 := LineOf(ls, m1), LineOf(ls, m2);
    if l2 < l1 {
      LineOffsetGrows(ls, l2, l1);
    }
  }

  // ---------------------------------------------------------------------
  // Line positions under edits

  /** A line start followed by a run without '\n' is the start of the run's end. */
  lemma {:induction false} LineStartOfRun(t: string, p: nat, r: nat)
    requires p <= r <= |t| && StartsLine(t, p)
    requires forall k :: p <= k < r ==> t[k] != '\n'
    ensures LineStart(t, r) == p
    decreases r - p
  {
    if r > p {
      LineStartOfRun(t, p, r - 1);
    }
  }

  /** A run without '\n' that ends at a line end ends there from its start on. */
  lemma {:induction false} LineEndOfRun(t: string, p: nat, r: nat)
    requires p <= r <= |t| && EndsLine(t, r)
    requires forall k :: p <= k < r ==> t[k] != '\n'
    ensures LineEnd(t, p) == r
    decreases r - p
  {
    if p < r {
      LineEndOfRun(t, p + 1, r);
    }
  }

  /** Every offset of a line has the same line bounds. */
  lemma SameLine(t: string, c: nat, p: nat)
    requires c <= |t| && LineStart(t, c) <= p <= LineEnd(t, c)
    ensures LineStart(t, p) == LineStart(t, c) && LineEnd(t, p) == LineEnd(t, c)
  {
    LineStartOfRun(t, LineStart(t, c), p);
    LineEndOfRun(t, p, LineEnd(t, c));
  }

  /** The line start of `i` depends only on the text before `i`. */
  lemma {:induction false} LineStartOfPrefix(s: string, t: string, i: nat)
    requires i <= |s| && i <= |t| && s[..i] == t[..i]
    ensures LineStart(s, i) == LineStart(t, i)
    decreases i
  {
    if i > 0 && t[i - 1] != '\n' {
      assert s[i - 1] == s[..i][i - 1];
      assert s[..i - 1] == t[..i - 1] by {
        assert s[..i - 1] == s[..i][..i - 1];
        assert t[..i - 1] == t[..i][..i - 1];
      }
      LineStartOfPrefix(s, t, i - 1);
    } else if i > 0 {
      assert s[i - 1] == s[..i][i - 1];
    }
  }

  /** Skipping blanks that stop before `n` depends only on the text before `n`. */
  lemma {:induction false} SkipBlanksOfPrefix(s: string, t: string, p: nat, n: nat)
    requires p <= n <= |s| && n <= |t| && s[..n] == t[..n]
    requires SkipBlanks(t, p) < n
    ensures SkipBlanks(s, p) == SkipBlanks(t, p)
    decreases n - p
  {
    assert s[p] == s[..n][p];
    if IsBlank(t[p]) {
      SkipBlanksOfPrefix(s, t, p + 1, n);
    }
  }

  /** Skipping blanks depends only on the text from the starting point on. */
  lemma {:induction false} SkipBlanksOfSuffix(s: string, i: nat, t: string, j: nat)
    requires i <= |s| && j <= |t| && s[i..] == t[j..]
    ensures SkipBlanks(s, i) - i == SkipBlanks(t, j) - j
    decreases |t| - j
  {
    assert |s| - i == |t| - j;
    if j < |t| {
      assert s[i] == s[i..][0];
      assert t[j] == t[j..][0];
      if IsBlank(t[j]) {
        assert s[i + 1..] == s[i..][1..];
        assert t[j + 1..] == t[j..][1..];
        SkipBlanksOfSuffix(s, i + 1, t, j + 1);
      }
    }
  }

  /** Skipping blanks stops exactly at the first non-blank. */
  lemma SkipBlanksStopsAt(t: string, p: nat, q: nat)
    requires p <= q <= |t|
    requires forall k :: p <= k < q ==> IsBlank(t[k])
    requires q == |t| || !IsBlank(t[q])
    ensures SkipBlanks(t, p) == q
    decreases q - p
  {
    if p < q {
      SkipBlanksStopsAt(t, p + 1, q);
    }
  }

  /** Skipping blanks never passes a non-blank character. */
  lemma {:induction false} SkipBlanksStopsBefore(t: string, p: nat, j: nat)
    requires p <= j < |t| && !IsBlank(t[j])
    ensures SkipBlanks(t, p) <= j
    decreases j - p
  {
    if p < j && IsBlank(t[p]) {
      SkipBlanksStopsBefore(t, p + 1, j);
    }
  }

  /** The indentation of a stretch of text is where skipping blanks stops,
      cut at the end of the stretch. */
  lemma {:induction false} IndentationOfSlice(t: string, p: nat, q: nat)
    requires p <= q <= |t|
    ensures p + Indentation(t[p..q]) == if SkipBlanks(t, p) < q then SkipBlanks(t, p) else q
    decreases q - p
  {
    if p < q && IsBlank(t[p]) {
      assert t[p..q][0] == t[p];
      assert t[p..q][1..] == t[p + 1..q];
      IndentationOfSlice(t, p + 1, q);
    } else if p < q {
      assert t[p..q][0] == t[p];
    }
  }
}
