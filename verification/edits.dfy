/** The editing session the key handlers work on: the buffer text with the
    toolkit's two marks, "insert" (the cursor) and "selection_bound". Both
    marks have right gravity: text inserted where a mark stands ends up
    before it. An erase pulls the marks inside the erased range to its
    start. Multi-line rewrites are expressed as one edit per line. */
module Edits {
  import opened Text

  datatype Editor = Editor(text: string, insert: nat, bound: nat)

  predicate Valid(e: Editor) {
    e.insert <= |e.text| && e.bound <= |e.text|
  }

  predicate HasSelection(e: Editor) {
    e.insert != e.bound
  }

  function SelStart(e: Editor): nat {
    if e.insert <= e.bound then e.insert else e.bound
  }

  function SelEnd(e: Editor): nat {
    if e.insert <= e.bound then e.bound else e.insert
  }

  /** What a key handler leaves behind: either it consumed the key, or the
      toolkit's own handling of the key runs next on the editor it returns. */
  datatype Outcome = Handled(after: Editor) | PassThrough(after: Editor)

  function ShiftForInsert(m: nat, at: nat, n: nat): nat {
    if m >= at then m + n else m
  }

  function ShiftForErase(m: nat, a: nat, b: nat): nat
    requires a <= b
  {
    if m <= a then m else if m >= b then m - (b - a) else a
  }

  /** `insert(iter, s)`: the marks at or after `at` move along. */
  function InsertText(e: Editor, at: nat, s: string): (r: Editor)
    requires Valid(e) && at <= |e.text|
    ensures Valid(r)
    ensures r.text == e.text[..at] + s + e.text[at..]
  {
    Editor(Insert(e.text, at, s), ShiftForInsert(e.insert, at, |s|), ShiftForInsert(e.bound, at, |s|))
  }

  /** `insert_at_cursor(s)`: the cursor ends up after `s`. */
  function InsertAtCursor(e: Editor, s: string): (r: Editor)
    requires Valid(e)
    ensures Valid(r)
    ensures r.text == e.text[..e.insert] + s + e.text[e.insert..]
    ensures r.insert == e.insert + |s|
  {
    InsertText(e, e.insert, s)
  }

  /** `erase(a, b)`. */
  function EraseText(e: Editor, a: nat, b: nat): (r: Editor)
    requires Valid(e) && a <= b <= |e.text|
    ensures Valid(r)
    ensures r.text == e.text[..a] + e.text[b..]
    ensures a <= e.insert <= b ==> r.insert == a
  {
    Editor(Erase(e.text, a, b), ShiftForErase(e.insert, a, b), ShiftForErase(e.bound, a, b))
  }

  /** Erasing around a lone cursor and typing at it replaces the range. */
  lemma ReplaceAtCursor(e: Editor, a: nat, b: nat, s: string)
    requires Valid(e) && !HasSelection(e) && a <= e.insert <= b <= |e.text|
    ensures InsertAtCursor(EraseText(e, a, b), s) == Editor(e.text[..a] + s + e.text[b..], a + |s|, a + |s|)
  {
    var e1 := EraseText(e, a, b);
    assert e1.text[..a] == e.text[..a] && e1.text[a..] == e.text[b..];
  }

  /** `place_cursor(p)`: both marks move, clearing the selection. */
  function PlaceCursor(e: Editor, p: nat): Editor {
    Editor(e.text, p, p)
  }

  /** `move_mark_by_name("insert", p)`: the selection is extended. */
  function MoveInsert(e: Editor, p: nat): Editor {
    Editor(e.text, p, e.bound)
  }

  // ---------------------------------------------------------------------
  // Per-line edits

  /** The change a multi-line rewrite makes to one line. */
  datatype LineEdit = Keep | InsertAt(col: nat, s: string) | EraseAt(lo: nat, hi: nat)

  predicate Fits(line: string, ed: LineEdit) {
    match ed
    case Keep => true
    case InsertAt(c, s) => c <= |line| && NoNewline(s)
    case EraseAt(a, b) => a <= b <= |line|
  }

  function ApplyEdit(line: string, ed: LineEdit): (r: string)
    requires Fits(line, ed)
    ensures NoNewline(line) ==> NoNewline(r)
  {
    match ed
    case Keep => line
    case InsertAt(c, s) => line[..c] + s + line[c..]
    case EraseAt(a, b) => line[..a] + line[b..]
  }

  /** Where a mark in column `col` of a line ends up after the line's edit. */
  function MapColumn(col: nat, ed: LineEdit): nat {
    match ed
    case Keep => col
    case InsertAt(c, s) => ShiftForInsert(col, c, |s|)
    case EraseAt(a, b) => if a <= b then ShiftForErase(col, a, b) else col
  }

  lemma MapColumnFits(line: string, ed: LineEdit, col: nat)
    requires Fits(line, ed) && col <= |line|
    ensures MapColumn(col, ed) <= |ApplyEdit(line, ed)|
  {
  }

  predicate AllFit(ls: seq<string>, eds: seq<LineEdit>) {
    |eds| == |ls| && forall j :: 0 <= j < |ls| ==> Fits(ls[j], eds[j])
  }

  function ApplyEdits(ls: seq<string>, eds: seq<LineEdit>): (r: seq<string>)
    requires AllFit(ls, eds)
    ensures |r| == |ls|
    ensures forall j :: 0 <= j < |ls| ==> r[j] == ApplyEdit(ls[j], eds[j])
  {
    seq(|ls|, j requires 0 <= j < |ls| => ApplyEdit(ls[j], eds[j]))
  }

  /** Where a mark at offset `m` of `Join(ls)` ends up after the edits. */
  function MapMark(ls: seq<string>, eds: seq<LineEdit>, m: nat): (r: nat)
    requires |ls| >= 1 && AllFit(ls, eds) && m <= |Join(ls)|
    ensures r <= |Join(ApplyEdits(ls, eds))|
  {
    var l := LineOf(ls, m);
    var ls' := ApplyEdits(ls, eds);
    MapColumnFits(ls[l], eds[l], m - LineOffset(ls, l));
    LineOffsetBound(ls', l);
    LineOffset(ls', l) + MapColumn(m - LineOffset(ls, l), eds[l])
  }

  /** A mapped mark stays on its line, in the column its line's edit maps
      its column to. */
  lemma MapMarkStaysOnLine(ls: seq<string>, eds: seq<LineEdit>, m: nat)
    requires |ls| >= 1 && AllFit(ls, eds) && m <= |Join(ls)|
    ensures var l := LineOf(ls, m);
      var ls1 := ApplyEdits(ls, eds);
      var m1 := MapMark(ls, eds, m);
      LineOf(ls1, m1) == l && m1 == LineOffset(ls1, l) + MapColumn(m - LineOffset(ls, l), eds[l])
  {
    var l := LineOf(ls, m);
    var ls1 := ApplyEdits(ls, eds);
    var c1 := MapColumn(m - LineOffset(ls, l), eds[l]);
    MapMarkColumn(ls, eds, m);
    LineOfOffset(ls1, l, c1, MapMark(ls, eds, m));
  }

  lemma MapMarkColumn(ls: seq<string>, eds: seq<LineEdit>, m: nat)
    requires |ls| >= 1 && AllFit(ls, eds) && m <= |Join(ls)|
    ensures var l := LineOf(ls, m);
      var ls1 := ApplyEdits(ls, eds);
      var c1 := MapColumn(m - LineOffset(ls, l), eds[l]);
      MapMark(ls, eds, m) == LineOffset(ls1, l) + c1 && c1 <= |ls1[l]|
  {
    var l := LineOf(ls, m);
    assert ApplyEdits(ls, eds)[l] == ApplyEdit(ls[l], eds[l]);
    MapColumnFits(ls[l], eds[l], m - LineOffset(ls, l));
  }

  /** Carries out one edit per line of the buffer, as the toolkit does when
      the edits are made one after another: lines keep their number. */
  function Commit(e: Editor, eds: seq<LineEdit>): (r: Editor)
    requires Valid(e) && AllFit(Lines(e.text), eds)
    ensures Valid(r)
    ensures Lines(r.text) == ApplyEdits(Lines(e.text), eds)
  {
    var ls := Lines(e.text);
    JoinLines(e.text);
    var ls' := ApplyEdits(ls, eds);
    LinesJoin(ls');
    Editor(Join(ls'), MapMark(ls, eds, e.insert), MapMark(ls, eds, e.bound))
  }

  lemma KeepAllChangesNothing(e: Editor, eds: seq<LineEdit>)
    requires Valid(e) && AllFit(Lines(e.text), eds)
    requires forall j :: 0 <= j < |eds| ==> eds[j] == Keep
    ensures Commit(e, eds).text == e.text
  {
    var ls := Lines(e.text);
    assert ApplyEdits(ls, eds) == ls;
    JoinLines(e.text);
  }
}
