/** `cleanup_whitespace_characters`: every line loses its trailing spaces
    and tabs, and a buffer whose last line is not empty gets a final '\n'. */
module Cleanup {
  import opened Text
  import opened Edits

  /** `n` splits `line` into its content and its trailing blanks. */
  predicate TrimPoint(line: string, n: nat) {
    n <= |line| && (forall k :: n <= k < |line| ==> IsBlank(line[k])) && (n == 0 || !IsBlank(line[n - 1]))
  }

  /** A line ends in neither a space nor a tab. */
  predicate Clean(line: string) {
    |line| == 0 || !IsBlank(line[|line| - 1])
  }

  /** The length of `line` without its trailing blanks. */
  function ContentLength(line: string): (n: nat)
    ensures TrimPoint(line, n)
    decreases |line|
  {
    if |line| > 0 && IsBlank(line[|line| - 1]) then
      ContentLength(line[..|line| - 1])
    else |line|
  }

  /** There is only one way to split a line into content and trailing blanks. */
  lemma TrimPointUnique(line: string, a: nat, b: nat)
    requires TrimPoint(line, a) && TrimPoint(line, b)
    ensures a == b
  {
  }

  function Trimmed(line: string): string {
    line[..ContentLength(line)]
  }

  /** The trimmed line is what is left of `line` after dropping blanks at
      its end, and it no longer ends in a blank. */
  lemma TrimmedIsPrefix(line: string)
    ensures var r := Trimmed(line);
      r <= line && AllBlank(line[|r|..]) && Clean(r)
  {
  }

  /** A line that does not end in a blank is its own trimmed form. */
  lemma TrimmedClean(line: string)
    ensures Clean(line) <==> Trimmed(line) == line
  {
    if Clean(line) {
      assert TrimPoint(line, |line|);
      TrimPointUnique(line, |line|, ContentLength(line));
    }
  }

  /** The backward walk of the source for a non-empty line: from the line
      end, step back while not at the line start and the character is a
      blank (or the line end itself); step forward again unless it stopped
      on a blank. */
  method WalkBack(line: string) returns (n: nat)
    requires |line| > 0
    ensures TrimPoint(line, n) && n == ContentLength(line)
  {
    var i: nat := |line|;
    while i > 0 && (i == |line| || IsBlank(line[i]))
      invariant i <= |line|
      invariant forall k :: i < k < |line| ==> IsBlank(line[k])
      decreases i
    {
      i := i - 1;
    }
    assert i < |line|;
    n := if IsBlank(line[i]) then i else i + 1;
    TrimPointUnique(line, n, ContentLength(line));
  }

  /** The erase the cleanup makes on one line, if any. */
  function CleanupEdits(ls: seq<string>): (eds: seq<LineEdit>)
    ensures AllFit(ls, eds)
    ensures forall l :: 0 <= l < |ls| ==> ApplyEdit(ls[l], eds[l]) == Trimmed(ls[l])
  {
    seq(|ls|, l requires 0 <= l < |ls| =>
      var n := ContentLength(ls[l]);
      if n < |ls[l]| then EraseAt(n, |ls[l]|) else Keep)
  }

  /** The lines of a buffer end in an empty one exactly when the buffer is
      empty or ends with '\n'. */
  lemma {:induction false} EndsAtLineStart(ls: seq<string>)
    requires |ls| >= 1
    requires forall j :: 0 <= j < |ls| ==> NoNewline(ls[j])
    ensures var t := Join(ls); StartsLine(t, |t|) <==> ls[|ls| - 1] == ""
    decreases |ls|
  {
    if |ls| > 1 {
      var rest := Join(ls[1..]);
      EndsAtLineStart(ls[1..]);
      var t := Join(ls);
      assert t == ls[0] + "\n" + rest;
      if |rest| > 0 {
        assert t[|t| - 1] == rest[|rest| - 1];
      }
    }
  }

  lemma {:induction false} JoinThenEmpty(ls: seq<string>)
    requires |ls| >= 1
    ensures Join(ls + [""]) == Join(ls) + "\n"
    decreases |ls|
  {
    if |ls| > 1 {
      JoinThenEmpty(ls[1..]);
      assert (ls + [""])[1..] == ls[1..] + [""];
    }
  }

  /** The final step: a '\n' goes at the end of a buffer that does not end
      at a line start, which adds an empty last line. */
  function EndWithBreak(r: Editor): (r2: Editor)
    requires Valid(r)
    ensures Valid(r2) && StartsLine(r2.text, |r2.text|)
    ensures var ls := Lines(r.text); ls[|ls| - 1] == "" ==> r2 == r
    ensures var ls := Lines(r.text); ls[|ls| - 1] != "" ==> Lines(r2.text) == ls + [""]
  {
    var ls := Lines(r.text);
    JoinLines(r.text);
    EndsAtLineStart(ls);
    if StartsLine(r.text, |r.text|) then r
    else
      var r2 := InsertText(r, |r.text|, "\n");
      assert r2.text == r.text + "\n";
      JoinThenEmpty(ls);
      LinesJoin(ls + [""]);
      EndsAtLineStart(ls + [""]);
      r2
  }

  /** `cleanup_whitespace_characters`. */
  function CleanupWhitespace(e: Editor): (r: Editor)
    requires Valid(e)
    ensures Valid(r)
  {
    EndWithBreak(Commit(e, CleanupEdits(Lines(e.text))))
  }

  /** `ls1` holds the trimmed lines of `ls`, followed by an empty line
      exactly when the last of them keeps some content. */
  predicate TrimmedAll(ls: seq<string>, ls1: seq<string>)
    requires |ls| >= 1
  {
    var last := Trimmed(ls[|ls| - 1]);
    (if last == "" then |ls1| == |ls| else |ls1| == |ls| + 1 && ls1[|ls|] == "") &&
    (forall l :: 0 <= l < |ls| ==> ls1[l] == Trimmed(ls[l]))
  }

  /** Every line of the buffer becomes its trimmed form; a line break is
      added after the last line exactly when that line keeps some content,
      so the buffer ends up empty or ending in '\n'. */
  lemma CleanupLines(e: Editor)
    requires Valid(e)
    ensures TrimmedAll(Lines(e.text), Lines(CleanupWhitespace(e).text))
    ensures var t1 := CleanupWhitespace(e).text; StartsLine(t1, |t1|)
  {
    var ls := Lines(e.text);
    var eds := CleanupEdits(ls);
    var r := Commit(e, eds);
    var ts := ApplyEdits(ls, eds);
    assert forall l :: 0 <= l < |ls| ==> ts[l] == Trimmed(ls[l]);
    var r2 := EndWithBreak(r);
    var ls1 := Lines(r2.text);
    assert (ts[|ts| - 1] == "" ==> ls1 == ts) && (ts[|ts| - 1] != "" ==> ls1 == ts + [""]) by {
      BreakLines(r, ts, r2);
    }
    TrimmedLines(ls, ts, ls1);
  }

  lemma BreakLines(r: Editor, ts: seq<string>, r2: Editor)
    requires Valid(r) && Lines(r.text) == ts && r2 == EndWithBreak(r)
    ensures ts[|ts| - 1] == "" ==> Lines(r2.text) == ts
    ensures ts[|ts| - 1] != "" ==> Lines(r2.text) == ts + [""]
  {
  }

  lemma TrimmedLines(ls: seq<string>, ts: seq<string>, ls1: seq<string>)
    requires |ls| >= 1 && |ts| == |ls|
    requires forall l :: 0 <= l < |ls| ==> ts[l] == Trimmed(ls[l])
    requires ts[|ts| - 1] == "" ==> ls1 == ts
    requires ts[|ts| - 1] != "" ==> ls1 == ts + [""]
    ensures TrimmedAll(ls, ls1)
  {
  }

  /** After the cleanup no line ends in a blank. */
  lemma CleanupLeavesClean(e: Editor)
    requires Valid(e)
    ensures var ls1 := Lines(CleanupWhitespace(e).text);
      forall l :: 0 <= l < |ls1| ==> Clean(ls1[l])
  {
    CleanupLines(e);
    TrimmedAllClean(Lines(e.text), Lines(CleanupWhitespace(e).text));
  }

  lemma TrimmedAllClean(ls: seq<string>, ls1: seq<string>)
    requires |ls| >= 1 && TrimmedAll(ls, ls1)
    ensures forall l :: 0 <= l < |ls1| ==> Clean(ls1[l])
  {
    forall l | 0 <= l < |ls1|
      ensures Clean(ls1[l])
    {
      if l < |ls| {
        TrimmedIsPrefix(ls[l]);
      }
    }
  }

  /** A buffer whose lines are all clean and which is empty or ends with
      '\n' is left as it is. */
  lemma CleanBufferUnchanged(e: Editor)
    requires Valid(e)
    requires forall l :: 0 <= l < |Lines(e.text)| ==> Clean(Lines(e.text)[l])
    requires StartsLine(e.text, |e.text|)
    ensures CleanupWhitespace(e).text == e.text
  {
    var ls := Lines(e.text);
    var eds := CleanupEdits(ls);
    forall l | 0 <= l < |ls|
      ensures eds[l] == Keep
    {
      TrimmedClean(ls[l]);
    }
    KeepAllChangesNothing(e, eds);
  }

  /** Cleaning up twice is cleaning up once. */
  lemma CleanupIdempotent(e: Editor)
    requires Valid(e)
    ensures CleanupWhitespace(CleanupWhitespace(e)).text == CleanupWhitespace(e).text
  {
    CleanupLines(e);
    CleanupLeavesClean(e);
    CleanBufferUnchanged(CleanupWhitespace(e));
  }
}
