/** The bracket-structure scans of the source view: two backward scans over
    `()`/`[]` depth and two scans over `{}` nesting. All four skip the
    positions the syntax highlighter classifies as comment or string (the
    parameter `skip`), and all four share one escape-aware toggle for
    single-quoted literals, inside which brackets do not count. */
module Scanner {
  import opened Text

  /** Counters of a scan over `()` and `[]`: a closing symbol met while
      scanning backwards counts +1, an opening one -1. */
  datatype Depth = Depth(parens: int, brackets: int, quoted: bool)

  /** Nesting of a `{}` scan. */
  datatype Nesting = Nesting(depth: int, quoted: bool)

  const Fresh: Depth := Depth(0, 0, false)
  const Outside: Nesting := Nesting(0, false)

  /** The character at `i` is escaped: the one before it is `\` and the one
      before that is not. Stepping back from the buffer start does not move,
      so the character at offset 0 is its own predecessor. */
  predicate Escaped(t: string, i: nat) {
    At(t, Back(i)) == '\\' && At(t, Back(Back(i))) != '\\'
  }

  /** A `'` toggles the quote state unless it is escaped. */
  predicate TogglesQuote(t: string, i: nat) {
    At(t, i) == '\'' && !Escaped(t, i)
  }

  /** Examining offset `i` in a `()`/`[]` scan. */
  function ParenStep(t: string, skip: nat -> bool, d: Depth, i: nat): (r: Depth)
    ensures skip(i) ==> r == d
    ensures r.quoted != d.quoted <==> !skip(i) && TogglesQuote(t, i)
    ensures d.quoted && At(t, i) != '\'' ==> r == d
    ensures r.parens != d.parens ==> !skip(i) && !d.quoted && (At(t, i) == '(' || At(t, i) == ')')
    ensures r.brackets != d.brackets ==> !skip(i) && !d.quoted && (At(t, i) == '[' || At(t, i) == ']')
  {
    if skip(i) then d
    else if At(t, i) == '\'' then
      (if TogglesQuote(t, i) then d.(quoted := !d.quoted) else d)
    else if d.quoted then d
    else if At(t, i) == ')' then d.(parens := d.parens + 1)
    else if At(t, i) == ']' then d.(brackets := d.brackets + 1)
    else if At(t, i) == '(' then d.(parens := d.parens - 1)
    else if At(t, i) == '[' then d.(brackets := d.brackets - 1)
    else d
  }

  /** The counters after examining offsets `hi - 1, hi - 2, ..., lo`. */
  function Scanned(t: string, skip: nat -> bool, hi: nat, lo: nat): Depth
    requires lo <= hi
    decreases hi - lo
  {
    if lo == hi then Fresh else ParenStep(t, skip, Scanned(t, skip, hi, lo + 1), lo)
  }

  /** A backward scan that began at `from` may stop at `q`: a line start
      where neither depth, counted from `from` down to `q`, is positive. */
  predicate ClosesAt(t: string, skip: nat -> bool, from: nat, q: nat)
    requires q <= from <= |t|
  {
    var d := Scanned(t, skip, from + 1, q);
    StartsLine(t, q) && d.parens <= 0 && d.brackets <= 0
  }

  /** The do-while loop of `find_start_of_closed_expression`, at offset `q`
      with the counters `before` collected above it. */
  function ClosingLineFrom(t: string, skip: nat -> bool, from: nat, q: nat, before: Depth): (r: Option<nat>)
    requires q <= from <= |t|
    requires before == Scanned(t, skip, from + 1, q + 1)
    ensures r.Some? ==> r.value <= q && ClosesAt(t, skip, from, r.value)
    ensures r.Some? ==> forall p :: r.value < p <= q ==> !ClosesAt(t, skip, from, p)
    ensures r.None? ==> forall p :: 0 <= p <= q ==> !ClosesAt(t, skip, from, p)
    decreases q
  {
    var d := ParenStep(t, skip, before, q);
    if StartsLine(t, q) && d.parens <= 0 && d.brackets <= 0 then Some(q)
    else if q == 0 then None
    else ClosingLineFrom(t, skip, from, q - 1, d)
  }

  /** The line start at which `find_start_of_closed_expression` stops: the
      nearest one at or above `from` where the expression is closed. */
  function ClosingLine(t: string, skip: nat -> bool, from: nat): (r: Option<nat>)
    requires from <= |t|
    ensures r.Some? ==> r.value <= from && ClosesAt(t, skip, from, r.value)
    ensures r.Some? ==> forall p :: r.value < p <= from ==> !ClosesAt(t, skip, from, p)
    ensures r.None? <==> forall p :: 0 <= p <= from ==> !ClosesAt(t, skip, from, p)
  {
    ClosingLineFrom(t, skip, from, from, Fresh)
  }

  /** Moves forward over `tabChar`s, never past the cursor. */
  function AdvanceTabs(t: string, tabChar: char, cursor: nat, p: nat): (r: nat)
    requires p <= |t|
    ensures p <= r <= |t|
    ensures forall k :: p <= k < r ==> t[k] == tabChar
    ensures r == cursor || r == |t| || t[r] != tabChar
    ensures p <= cursor ==> r <= cursor
    decreases |t| - p
  {
    if p != cursor && p < |t| && t[p] == tabChar then AdvanceTabs(t, tabChar, cursor, p + 1) else p
  }

  lemma AdvanceTabsStaysOnLine(t: string, tabChar: char, cursor: nat, p: nat)
    requires p <= |t| && StartsLine(t, p)
    ensures tabChar != '\n' ==> LineStart(t, AdvanceTabs(t, tabChar, cursor, p)) == p
  {
    if tabChar != '\n' {
      LineStartOfRun(t, p, AdvanceTabs(t, tabChar, cursor, p));
    }
  }

  /** `find_start_of_closed_expression(iter, found)` with `iter` at `from`
      and the insert mark at `cursor`: the closing line start, advanced over
      the indentation character but never past the cursor; None when the
      buffer start is reached first. */
  function FindStartOfClosedExpression(t: string, skip: nat -> bool, tabChar: char, cursor: nat, from: nat): (r: Option<nat>)
    requires from <= |t| && cursor <= |t|
    ensures r.Some? <==> ClosingLine(t, skip, from).Some?
    ensures r.None? <==> forall p :: 0 <= p <= from ==> !ClosesAt(t, skip, from, p)
    ensures r.Some? ==> ClosingLine(t, skip, from).value <= r.value <= |t|
    ensures r.Some? && from <= cursor ==> r.value <= cursor
    ensures r.Some? && tabChar != '\n' ==> LineStart(t, r.value) == ClosingLine(t, skip, from).value
  {
    match ClosingLine(t, skip, from)
    case None => None
    case Some(p) =>
      AdvanceTabsStaysOnLine(t, tabChar, cursor, p);
      Some(AdvanceTabs(t, tabChar, cursor, p))
  }

  // ---------------------------------------------------------------------
  // find_open_expression_symbol

  /** The backward scan from `from` meets an unmatched `(` or `[` at `q`. */
  predicate OpensAt(t: string, skip: nat -> bool, from: nat, q: nat)
    requires q < from
  {
    var d := Scanned(t, skip, from, q);
    !skip(q) && (d.parens < 0 || d.brackets < 0)
  }

  /** The lowest offset the scan examines: it stops at `until` when it meets
      it, and at the buffer start otherwise. */
  function Lowest(from: nat, until: nat): nat {
    if until <= from then until else 0
  }

  function OpenSymbolFrom(t: string, skip: nat -> bool, from: nat, low: nat, q: nat, after: Depth): (r: Option<nat>)
    requires low <= q <= from
    requires after == Scanned(t, skip, from, q)
    requires after.parens >= 0 && after.brackets >= 0
    ensures r.Some? ==> low <= r.value < q && OpensAt(t, skip, from, r.value)
    ensures r.Some? ==> At(t, r.value) == '(' || At(t, r.value) == '['
    ensures r.Some? ==> forall p :: r.value < p < q ==> !OpensAt(t, skip, from, p)
    ensures r.None? ==> forall p :: low <= p < q ==> !OpensAt(t, skip, from, p)
    decreases q
  {
    if q == low then None
    else
      var d := ParenStep(t, skip, after, q - 1);
      if !skip(q - 1) && (d.parens < 0 || d.brackets < 0) then Some(q - 1)
      else OpenSymbolFrom(t, skip, from, low, q - 1, d)
  }

  /** `find_open_expression_symbol(iter, until_iter, found)`: scanning back
      from `from`, the first unmatched `(` or `[`. */
  function FindOpenExpressionSymbol(t: string, skip: nat -> bool, from: nat, until: nat): (r: Option<nat>)
    requires from <= |t| && until <= |t|
    ensures r.Some? ==> Lowest(from, until) <= r.value < from && OpensAt(t, skip, from, r.value)
    ensures r.Some? ==> forall p :: r.value < p < from ==> !OpensAt(t, skip, from, p)
    ensures r.None? <==> forall p :: Lowest(from, until) <= p < from ==> !OpensAt(t, skip, from, p)
    ensures r.Some? && until <= from ==> until <= r.value
    ensures r.Some? ==> At(t, r.value) == '(' || At(t, r.value) == '['
  {
    OpenSymbolFrom(t, skip, from, Lowest(from, until), from, Fresh)
  }

  // ---------------------------------------------------------------------
  // find_right_bracket_forward and find_left_bracket_backward

  /** Examining offset `i` in a `{}` scan looking for `close`; `open` nests. */
  function BraceStep(t: string, skip: nat -> bool, n: Nesting, i: nat, open: char, close: char): (r: Nesting)
    ensures skip(i) ==> r == n
    ensures r.quoted != n.quoted <==> !skip(i) && TogglesQuote(t, i)
    ensures n.quoted && At(t, i) != '\'' ==> r == n
  {
    if skip(i) then n
    else if At(t, i) == '\'' then
      (if TogglesQuote(t, i) then n.(quoted := !n.quoted) else n)
    else if n.quoted then n
    else if At(t, i) == close then n.(depth := n.depth - 1)
    else if At(t, i) == open then n.(depth := n.depth + 1)
    else n
  }

  /** Nesting after examining offsets `lo, lo + 1, ..., hi - 1`. */
  function ScannedForward(t: string, skip: nat -> bool, lo: nat, hi: nat): Nesting
    requires lo <= hi
    decreases hi - lo
  {
    if hi == lo then Outside else BraceStep(t, skip, ScannedForward(t, skip, lo, hi - 1), hi - 1, '{', '}')
  }

  /** Nesting after examining offsets `hi - 1, hi - 2, ..., lo`. */
  function ScannedBackward(t: string, skip: nat -> bool, hi: nat, lo: nat): Nesting
    requires lo <= hi
    decreases hi - lo
  {
    if hi == lo then Outside else BraceStep(t, skip, ScannedBackward(t, skip, hi, lo + 1), lo, '}', '{')
  }

  /** A `}` at offset `q`, after `from`, at nesting depth 0. */
  predicate MatchesRight(t: string, skip: nat -> bool, from: nat, q: nat)
    requires from < q < |t|
  {
    var n := ScannedForward(t, skip, from + 1, q);
    !skip(q) && t[q] == '}' && !n.quoted && n.depth == 0
  }

  function RightBracketFrom(t: string, skip: nat -> bool, from: nat, q: nat, before: Nesting): (r: Option<nat>)
    requires from < q <= |t|
    requires before == ScannedForward(t, skip, from + 1, q)
    ensures r.Some? ==> q <= r.value < |t| && MatchesRight(t, skip, from, r.value)
    ensures r.Some? ==> forall p :: q <= p < r.value ==> !MatchesRight(t, skip, from, p)
    ensures r.None? ==> forall p :: q <= p < |t| ==> !MatchesRight(t, skip, from, p)
    decreases |t| - q
  {
    if q == |t| then None
    else if !skip(q) && t[q] == '}' && !before.quoted && before.depth == 0 then Some(q)
    else RightBracketFrom(t, skip, from, q + 1, BraceStep(t, skip, before, q, '{', '}'))
  }

  /** `find_right_bracket_forward(iter, found)`: the first `}` after `from`
      that closes the block `from` is in; None at the buffer end. */
  function FindRightBracketForward(t: string, skip: nat -> bool, from: nat): (r: Option<nat>)
    requires from <= |t|
    ensures r.Some? ==> from < r.value < |t| && MatchesRight(t, skip, from, r.value)
    ensures r.Some? ==> forall p :: from < p < r.value ==> !MatchesRight(t, skip, from, p)
    ensures r.None? <==> forall p :: from < p < |t| ==> !MatchesRight(t, skip, from, p)
  {
    if from == |t| then None else RightBracketFrom(t, skip, from, from + 1, Outside)
  }

  /** A `{` at offset `q`, before `from`, at nesting depth 0. */
  predicate MatchesLeft(t: string, skip: nat -> bool, from: nat, q: nat)
    requires q < from && q < |t|
  {
    var n := ScannedBackward(t, skip, from, q + 1);
    !skip(q) && t[q] == '{' && !n.quoted && n.depth == 0
  }

  function LeftBracketFrom(t: string, skip: nat -> bool, from: nat, q: nat, after: Nesting): (r: Option<nat>)
    requires q <= from <= |t|
    requires after == ScannedBackward(t, skip, from, q)
    ensures r.Some? ==> r.value < q && MatchesLeft(t, skip, from, r.value)
    ensures r.Some? ==> forall p :: r.value < p < q ==> !MatchesLeft(t, skip, from, p)
    ensures r.None? ==> forall p :: 0 <= p < q ==> !MatchesLeft(t, skip, from, p)
    decreases q
  {
    if q == 0 then None
    else if !skip(q - 1) && t[q - 1] == '{' && !after.quoted && after.depth == 0 then Some(q - 1)
    else LeftBracketFrom(t, skip, from, q - 1, BraceStep(t, skip, after, q - 1, '}', '{'))
  }

  /** `find_left_bracket_backward(iter, found)`: the nearest `{` before
      `from` that opens the block `from` is in; None at the buffer start. */
  function FindLeftBracketBackward(t: string, skip: nat -> bool, from: nat): (r: Option<nat>)
    requires from <= |t|
    ensures r.Some? ==> r.value < from && MatchesLeft(t, skip, from, r.value)
    ensures r.Some? ==> forall p :: r.value < p < from ==> !MatchesLeft(t, skip, from, p)
    ensures r.None? <==> forall p :: 0 <= p < from ==> !MatchesLeft(t, skip, from, p)
  {
    LeftBracketFrom(t, skip, from, from, Outside)
  }

  // ---------------------------------------------------------------------
  // Quote handling

  /** Away from the buffer start, a quote is escaped exactly when a single
      backslash precedes it: `\'` does not toggle, `\\'` does. */
  lemma QuoteEscape(t: string, i: nat)
    requires 2 <= i < |t| && t[i] == '\''
    ensures TogglesQuote(t, i) <==> !(t[i - 1] == '\\' && t[i - 2] != '\\')
  {
  }

  /** A quote at the buffer start always toggles: it is read as its own
      predecessor, which is not a backslash. */
  lemma QuoteAtStartToggles(t: string)
    requires |t| > 0 && t[0] == '\''
    ensures TogglesQuote(t, 0)
  {
  }

  /** While inside a quoted literal, the depth counters stay put over any
      stretch without quotes. */
  lemma {:induction false} QuotedStretchKeepsDepth(t: string, skip: nat -> bool, hi: nat, lo: nat, mid: nat)
    requires lo <= mid <= hi
    requires Scanned(t, skip, hi, mid).quoted
    requires forall k :: lo <= k < mid ==> At(t, k) != '\''
    ensures Scanned(t, skip, hi, lo) == Scanned(t, skip, hi, mid)
    decreases mid - lo
  {
    if lo < mid {
      QuotedStretchKeepsDepth(t, skip, hi, lo + 1, mid);
    }
  }
}
