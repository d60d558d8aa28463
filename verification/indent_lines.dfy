/** Whole-line indenting and unindenting, as Tab and Shift-Tab do it over the
    lines a selection touches. Lines are numbered as in `Lines`; a span
    `lo .. hi` holds the lines `l` with `lo <= l < hi`. */
module LineIndent {
  import opened Text
  import opened Edits

  datatype Span = Span(lo: nat, hi: nat)

  predicate InSpan(sp: Span, l: nat) {
    sp.lo <= l < sp.hi
  }

  /** The lines Tab and Shift-Tab act on: from the line of the selection
      start to the line of the selection end, without that last line when a
      selection ends right at its start. With no selection this is the
      cursor's line. */
  function Touched(e: Editor): (sp: Span)
    requires Valid(e)
    ensures sp.lo < sp.hi <= |Lines(e.text)|
  {
    JoinLines(e.text);
    SpanOfNotEmpty(Lines(e.text), SelStart(e), SelEnd(e), HasSelection(e));
    SpanOf(Lines(e.text), SelStart(e), SelEnd(e), HasSelection(e))
  }

  /** The lines from the one holding offset `s` to the one holding `t`, the
      last left out when `sel` and `t` starts it. */
  function SpanOf(ls: seq<string>, s: nat, t: nat, sel: bool): Span
    requires |ls| >= 1
  {
    var lo, last := LineOf(ls, s), LineOf(ls, t);
    Span(lo, if sel && LineOffset(ls, last) == t then last else last + 1)
  }

  /** Every selection touches at least one line. */
  lemma SpanOfNotEmpty(ls: seq<string>, s: nat, t: nat, sel: bool)
    requires |ls| >= 1 && s <= t <= |Join(ls)| && (sel ==> s < t)
    ensures SpanOf(ls, s, t, sel).lo < SpanOf(ls, s, t, sel).hi <= |ls|
  {
    var lo, last := LineOf(ls, s), LineOf(ls, t);
    if last < lo {
      LineOffsetGrows(ls, last, lo);
    }
  }

  // ---------------------------------------------------------------------
  // Tab

  /** One `InsertAt(0, tab)` per line of the span. */
  function IndentEdits(ls: seq<string>, sp: Span, tab: string): (eds: seq<LineEdit>)
    requires NoNewline(tab)
    ensures AllFit(ls, eds)
  {
    seq(|ls|, l requires 0 <= l < |ls| => if InSpan(sp, l) then InsertAt(0, tab) else Keep)
  }

  /** The lines after Tab: each line of the span gets `tab` in front, the
      others are as they were. */
  lemma IndentLines(ls: seq<string>, sp: Span, tab: string)
    requires NoNewline(tab)
    ensures var r := ApplyEdits(ls, IndentEdits(ls, sp, tab));
      |r| == |ls| &&
      forall l :: 0 <= l < |ls| ==> r[l] == if InSpan(sp, l) then tab + ls[l] else ls[l]
  {
    var r := ApplyEdits(ls, IndentEdits(ls, sp, tab));
    forall l | 0 <= l < |ls|
      ensures r[l] == if InSpan(sp, l) then tab + ls[l] else ls[l]
    {
      if InSpan(sp, l) {
        assert r[l] == ls[l][..0] + tab + ls[l][0..];
        assert ls[l][..0] == "" && ls[l][0..] == ls[l];
      }
    }
  }

  // ---------------------------------------------------------------------
  // Shift-Tab

  /** The first pass of Shift-Tab over the lines `lo .. hi`: empty lines are
      ignored; a non-empty line without leading blanks stops the key (None);
      otherwise `steps` is lowered to every line's indentation. */
  function UnindentSteps(ls: seq<string>, lo: nat, hi: nat, steps: nat): (r: Option<nat>)
    requires hi <= |ls|
    ensures r.None? <==> exists l :: lo <= l < hi && |ls[l]| > 0 && Indentation(ls[l]) == 0
    ensures r.Some? ==> r.value <= steps
    ensures r.Some? ==> forall l :: lo <= l < hi && |ls[l]| > 0 ==> r.value <= Indentation(ls[l])
    ensures r.Some? ==> r.value == steps || exists l :: lo <= l < hi && |ls[l]| > 0 && r.value == Indentation(ls[l])
    decreases hi - lo
  {
    if lo >= hi then Some(steps)
    else if |ls[lo]| == 0 then UnindentSteps(ls, lo + 1, hi, steps)
    else if Indentation(ls[lo]) > 0 then UnindentSteps(ls, lo + 1, hi, Min(steps, Indentation(ls[lo])))
    else None
  }

  /** One `EraseAt(0, steps)` per non-empty line of the span. */
  function UnindentEdits(ls: seq<string>, sp: Span, steps: nat): (eds: seq<LineEdit>)
    requires sp.hi <= |ls|
    requires forall l: nat :: InSpan(sp, l) && |ls[l]| > 0 ==> steps <= Indentation(ls[l])
    ensures AllFit(ls, eds)
  {
    var eds := seq(|ls|, l requires 0 <= l < |ls| => if InSpan(sp, l) && |ls[l]| > 0 then EraseAt(0, steps) else Keep);
    assert AllFit(ls, eds) by {
      forall l | 0 <= l < |ls| ensures Fits(ls[l], eds[l]) {
        if InSpan(sp, l) && |ls[l]| > 0 {
          assert steps <= Indentation(ls[l]) <= |ls[l]|;
        }
      }
    }
    eds
  }

  /** The lines after Shift-Tab: the same number of leading blanks comes
      off every non-empty line of the span, and nothing else changes. */
  lemma UnindentLines(ls: seq<string>, sp: Span, steps: nat)
    requires sp.hi <= |ls|
    requires forall l: nat :: InSpan(sp, l) && |ls[l]| > 0 ==> steps <= Indentation(ls[l])
    ensures var r := ApplyEdits(ls, UnindentEdits(ls, sp, steps));
      |r| == |ls| &&
      forall l :: 0 <= l < |ls| ==>
        if InSpan(sp, l) && |ls[l]| > 0 then AllBlank(ls[l][..steps]) && r[l] == ls[l][steps..]
        else r[l] == ls[l]
  {
    var r := ApplyEdits(ls, UnindentEdits(ls, sp, steps));
    forall l | 0 <= l < |ls| && InSpan(sp, l) && |ls[l]| > 0
      ensures AllBlank(ls[l][..steps]) && r[l] == ls[l][steps..]
    {
      var n := Indentation(ls[l]);
      assert ls[l][..steps] == ls[l][..n][..steps];
      assert ls[l][..0] == "";
    }
  }

  /** A line that starts with `tab`, all blanks, is indented at least that far. */
  lemma {:induction false} IndentationOfBlankPrefix(tab: string, line: string)
    requires AllBlank(tab)
    ensures Indentation(tab + line) >= |tab|
    decreases |tab|
  {
    if |tab| > 0 {
      IndentationOfBlankPrefix(tab[1..], line);
      assert (tab + line)[1..] == tab[1..] + line;
    }
  }

  /** When every line of the span is non-empty and indented at least `n > 0`
      deep, Shift-Tab goes ahead and removes exactly `n` from each. */
  lemma StepsOfIndentedSpan(ls: seq<string>, sp: Span, n: nat)
    requires n > 0 && sp.hi <= |ls|
    requires forall l: nat :: InSpan(sp, l) ==> |ls[l]| > 0 && Indentation(ls[l]) >= n
    ensures UnindentSteps(ls, sp.lo, sp.hi, n) == Some(n)
  {
    forall l | sp.lo <= l < sp.hi
      ensures |ls[l]| > 0 && Indentation(ls[l]) >= n
    {
      assert InSpan(sp, l);
    }
  }

  /** Shift-Tab undoes Tab line by line: after `tab` went in front of every
      line of the span, no line stops Shift-Tab, `|tab|` characters come off
      each, and the original lines are back. */
  lemma UnindentAfterIndent(ls: seq<string>, sp: Span, tab: string)
    requires |tab| > 0 && AllBlank(tab) && NoNewline(tab) && sp.hi <= |ls|
    ensures var ls1 := ApplyEdits(ls, IndentEdits(ls, sp, tab));
      UnindentSteps(ls1, sp.lo, sp.hi, |tab|) == Some(|tab|) &&
      ApplyEdits(ls1, UnindentEdits(ls1, sp, |tab|)) == ls
  {
    var ls1 := ApplyEdits(ls, IndentEdits(ls, sp, tab));
    IndentLines(ls, sp, tab);
    forall l: nat | InSpan(sp, l)
      ensures |ls1[l]| > 0 && Indentation(ls1[l]) >= |tab|
    {
      IndentationOfBlankPrefix(tab, ls[l]);
    }
    StepsOfIndentedSpan(ls1, sp, |tab|);
    UnindentLines(ls1, sp, |tab|);
    var r := ApplyEdits(ls1, UnindentEdits(ls1, sp, |tab|));
    forall l | 0 <= l < |ls|
      ensures r[l] == ls[l]
    {
      if InSpan(sp, l) {
        assert ls1[l][|tab|..] == ls[l];
      }
    }
  }

  // ---------------------------------------------------------------------
  // The two keys on the editor

  /** Tab over the touched lines: `tab` goes in front of each of them. */
  function IndentSelection(e: Editor, tab: string): (r: Editor)
    requires Valid(e) && NoNewline(tab)
    ensures Valid(r)
    ensures var ls := Lines(e.text);
      var sp := Touched(e);
      var ls1 := Lines(r.text);
      |ls1| == |ls| &&
      forall l :: 0 <= l < |ls| ==> ls1[l] == if InSpan(sp, l) then tab + ls[l] else ls[l]
  {
    var ls := Lines(e.text);
    JoinLines(e.text);
    var sp := Touched(e);
    IndentLines(ls, sp, tab);
    Commit(e, IndentEdits(ls, sp, tab))
  }

  /** Shift-Tab over the touched lines: nothing happens when one of them is
      non-empty and starts without a blank; otherwise the smallest
      indentation of the non-empty ones, capped at `size`, comes off each
      non-empty one. */
  function UnindentSelection(e: Editor, size: nat): (r: Editor)
    requires Valid(e)
    ensures Valid(r)
    ensures var ls := Lines(e.text);
      var sp := Touched(e);
      var steps := UnindentSteps(ls, sp.lo, sp.hi, size);
      var ls1 := Lines(r.text);
      (steps.None? ==> r == e) &&
      (steps.Some? ==>
        |ls1| == |ls| &&
        forall l :: 0 <= l < |ls| ==>
          if InSpan(sp, l) && |ls[l]| > 0 then AllBlank(ls[l][..steps.value]) && ls1[l] == ls[l][steps.value..]
          else ls1[l] == ls[l])
  {
    var ls := Lines(e.text);
    JoinLines(e.text);
    var sp := Touched(e);
    match UnindentSteps(ls, sp.lo, sp.hi, size)
    case None => e
    case Some(steps) =>
      UnindentLines(ls, sp, steps);
      Commit(e, UnindentEdits(ls, sp, steps))
  }

  /** Where a mark lands after Tab: on the same line, `|tab|` columns
      further right when that line was indented. */
  lemma MarkAfterIndent(ls: seq<string>, sp: Span, tab: string, m: nat)
    requires NoNewline(tab) && |ls| >= 1 && m <= |Join(ls)|
    ensures var eds := IndentEdits(ls, sp, tab);
      var ls1 := ApplyEdits(ls, eds);
      var l := LineOf(ls, m);
      var m1 := MapMark(ls, eds, m);
      LineOf(ls1, m1) == l &&
      m1 - LineOffset(ls1, l) == (if InSpan(sp, l) then m - LineOffset(ls, l) + |tab| else m - LineOffset(ls, l))
  {
    var eds := IndentEdits(ls, sp, tab);
    var l := LineOf(ls, m);
    assert eds[l] == if InSpan(sp, l) then InsertAt(0, tab) else Keep;
    MapMarkStaysOnLine(ls, eds, m);
  }

  /** Tab keeps the order of marks. */
  lemma IndentKeepsOrder(ls: seq<string>, sp: Span, tab: string, m1: nat, m2: nat)
    requires NoNewline(tab) && |ls| >= 1 && m1 < m2 <= |Join(ls)|
    ensures MapMark(ls, IndentEdits(ls, sp, tab), m1) < MapMark(ls, IndentEdits(ls, sp, tab), m2)
  {
    var eds := IndentEdits(ls, sp, tab);
    var l1, l2 := LineOf(ls, m1), LineOf(ls, m2);
    LineOfMonotone(ls, m1, m2);
    MapMarkColumn(ls, eds, m1);
    MapMarkColumn(ls, eds, m2);
    assert eds[l1] == if InSpan(sp, l1) then InsertAt(0, tab) else Keep;
    OffsetsInOrder(ApplyEdits(ls, eds), l1, MapColumn(m1 - LineOffset(ls, l1), eds[l1]),
      l2, MapColumn(m2 - LineOffset(ls, l2), eds[l2]));
  }

  lemma OffsetsInOrder(ls: seq<string>, l1: nat, c1: nat, l2: nat, c2: nat)
    requires l1 <= l2 < |ls| && c1 <= |ls[l1]| && (l1 == l2 ==> c1 < c2)
    ensures LineOffset(ls, l1) + c1 < LineOffset(ls, l2) + c2
  {
    if l1 < l2 {
      LineOffsetGrows(ls, l1, l2);
    }
  }

  /** Tab moves the selection bounds as their marks, keeping their order. */
  lemma SelectionAfterIndent(e: Editor, ls: seq<string>, sp: Span, tab: string)
    requires Valid(e) && NoNewline(tab) && ls == Lines(e.text) && Join(ls) == e.text
    ensures var eds := IndentEdits(ls, sp, tab);
      var r := Commit(e, eds);
      SelStart(r) == MapMark(ls, eds, SelStart(e)) && SelEnd(r) == MapMark(ls, eds, SelEnd(e)) &&
      HasSelection(r) == HasSelection(e)
  {
    if e.insert < e.bound {
      IndentKeepsOrder(ls, sp, tab, e.insert, e.bound);
    } else if e.bound < e.insert {
      IndentKeepsOrder(ls, sp, tab, e.bound, e.insert);
    }
  }

  /** The span of two offsets is the same before and after Tab over it. */
  lemma SpanAfterIndent(ls: seq<string>, sp: Span, tab: string, s: nat, t: nat, sel: bool)
    requires NoNewline(tab) && |ls| >= 1 && s <= t <= |Join(ls)| && sp == SpanOf(ls, s, t, sel)
    ensures var eds := IndentEdits(ls, sp, tab);
      SpanOf(ApplyEdits(ls, eds), MapMark(ls, eds, s), MapMark(ls, eds, t), sel) == sp
  {
    MarkAfterIndent(ls, sp, tab, s);
    MarkAfterIndent(ls, sp, tab, t);
  }

  /** Tab leaves the selection touching the same lines. */
  lemma TouchedAfterIndent(e: Editor, tab: string)
    requires Valid(e) && NoNewline(tab)
    ensures Touched(IndentSelection(e, tab)) == Touched(e)
  {
    var ls := Lines(e.text);
    JoinLines(e.text);
    var sp := Touched(e);
    var eds := IndentEdits(ls, sp, tab);
    var r := IndentSelection(e, tab);
    assert r == Commit(e, eds);
    SelectionAfterIndent(e, ls, sp, tab);
    SpanAfterIndent(ls, sp, tab, SelStart(e), SelEnd(e), HasSelection(e));
  }

  /** Shift-Tab with the same unit undoes Tab on the editor: the text comes
      back unchanged. */
  lemma UnindentSelectionAfterIndent(e: Editor, tab: string)
    requires Valid(e) && |tab| > 0 && AllBlank(tab) && NoNewline(tab)
    ensures UnindentSelection(IndentSelection(e, tab), |tab|).text == e.text
  {
    var ls := Lines(e.text);
    JoinLines(e.text);
    var sp := Touched(e);
    var r := IndentSelection(e, tab);
    TouchedAfterIndent(e, tab);
    var ls1 := ApplyEdits(ls, IndentEdits(ls, sp, tab));
    assert Lines(r.text) == ls1;
    UnindentAfterIndent(ls, sp, tab);
    var u := UnindentSelection(r, |tab|);
    assert Lines(u.text) == ls;
    JoinLines(u.text);
  }
}
