/** The key handling of brace-delimited languages
    (`on_key_press_event_bracket_language`) and the dispatch in front of it.
    Enter indents the new line by the structure of the code above the
    cursor: one level deeper after `{` or an unbraced `if`/`for`/`while`/
    `else` head, lined up after an unclosed `(` or `[`, back to the head's
    level after the one statement of an unbraced body. Typing `}` or `{` on
    an indented line pulls it back one level. */
module BracketKeys {
  import opened Text
  import opened Edits
  import opened Settings
  import opened Keys
  import opened Scanner
  import opened LinePatterns
  import opened Token
  import opened BasicKeys

  // ---------------------------------------------------------------------
  // Trimming the blanks around the cursor

  /** The start of the blanks Enter removes before the cursor, as the
      bracket handler computes it: the walk back over blanks counts as
      having met text only when it stopped away from the line start, so a
      non-blank first character of the line is overlooked. */
  function TrimStartAsWritten(t: string, c: nat): (a: nat)
    requires 0 < c <= |t| && !StartsLine(t, c)
    ensures LineStart(t, c) < a <= c
  {
    var sb := BackOverBlanks(t, c - 1);
    if StartsLine(t, sb) then c else sb + 1
  }

  /** The two trims differ exactly on a line whose first character is not
      a blank and is followed by nothing but blanks up to the cursor: there
      the blanks before the cursor are kept. */
  lemma TrimStartAsWrittenDiffers(t: string, c: nat)
    requires 0 < c <= |t| && !StartsLine(t, c)
    ensures var ls := LineStart(t, c);
      TrimStartAsWritten(t, c) != TrimStart(t, c) <==>
        ls + 1 < c && !IsBlank(t[ls]) && forall k :: ls < k < c ==> IsBlank(t[k])
  {
    var ls, sb := LineStart(t, c), BackOverBlanks(t, c - 1);
    assert ls <= sb;
    assert StartsLine(t, sb) ==> sb == ls;
  }

  /** `x` followed by two blanks, with the cursor after them: the handler
      as written keeps the blanks, the trim of the basic handler removes
      them. */
  lemma LoneLetterKeepsBlanks()
    ensures TrimStartAsWritten("x  ", 3) == 3
    ensures TrimStart("x  ", 3) == 1
  {
    assert BackOverBlanks("x  ", 2) == 0 by {
      assert BackOverBlanks("x  ", 0) == 0;
      assert BackOverBlanks("x  ", 1) == 0;
    }
  }

  /** The cursor is where Enter left it after removing the blanks: text or
      the buffer end follows it, and either only blanks or a non-blank
      precede it on its line. */
  predicate TrimmedAt(e: Editor) {
    Valid(e) && !HasSelection(e) && 0 < e.insert && !StartsLine(e.text, e.insert) &&
    (e.insert == |e.text| || !IsBlank(e.text[e.insert])) &&
    (AllBlank(LineBefore(e.text, e.insert)) || !IsBlank(e.text[e.insert - 1]))
  }

  /** The editor once the blanks around the cursor are erased, with the
      trim of the basic handler. */
  function Trimmed(e: Editor): (r: Editor)
    requires Valid(e) && !HasSelection(e) && !StartsLine(e.text, e.insert)
    ensures var a, b := TrimStart(e.text, e.insert), TrimEnd(e.text, e.insert);
      r == Editor(e.text[..a] + e.text[b..], a, a)
    ensures TrimmedAt(r)
  {
    var t, c := e.text, e.insert;
    var a, b := TrimStart(t, c), TrimEnd(t, c);
    var r := EraseText(e, a, b);
    assert TrimmedAt(r) by {
      TrimmedFacts(t, c, a, b, r.text);
    }
    r
  }

  lemma TrimmedFacts(t: string, c: nat, a: nat, b: nat, t1: string)
    requires 0 < c <= |t| && !StartsLine(t, c)
    requires a == TrimStart(t, c) && b == TrimEnd(t, c) && t1 == t[..a] + t[b..]
    ensures 0 < a <= |t1| && !StartsLine(t1, a)
    ensures a == |t1| || !IsBlank(t1[a])
    ensures AllBlank(LineBefore(t1, a)) || !IsBlank(t1[a - 1])
  {
    TrimStartRemovesBlanks(t, c);
    assert t1[a - 1] == t[a - 1];
    if AllBlank(LineBefore(t, c)) {
      assert a == c;
      assert t1[..c] == t[..c];
      LineStartOfPrefix(t1, t, c);
      assert LineBefore(t1, c) == t1[..c][LineStart(t, c)..];
      assert LineBefore(t, c) == t[..c][LineStart(t, c)..];
    }
    if a < |t1| {
      assert t1[a] == t[b];
    }
  }

  // ---------------------------------------------------------------------
  // The shapes of the inserted text

  /** A line break and the indentation `ws` typed at the cursor. */
  function Break(e: Editor, ws: string): (r: Editor)
    requires Valid(e) && !HasSelection(e)
    ensures var t, c := e.text, e.insert;
      r == Editor(t[..c] + "\n" + ws + t[c..], c + 1 + |ws|, c + 1 + |ws|)
  {
    var t, c := e.text, e.insert;
    assert t[..c] + ("\n" + ws) + t[c..] == t[..c] + "\n" + ws + t[c..];
    InsertAtCursor(e, "\n" + ws)
  }

  /** A break after the trim starts a line indented with exactly `ws`, and
      leaves the cursor at the end of that indentation. */
  lemma BreakIndents(e: Editor, ws: string) returns (r: Editor)
    requires Valid(e) && !HasSelection(e) && AllBlank(ws)
    requires e.insert == |e.text| || !IsBlank(e.text[e.insert])
    ensures r == Break(e, ws)
    ensures r.insert <= |r.text| && r.text[..e.insert] == e.text[..e.insert]
    ensures LeadingWs(r.text, r.insert) == ws && TabsEnd(r.text, r.insert) == r.insert && LineBefore(r.text, r.insert) == ws
  {
    var t, c := e.text, e.insert;
    r := Break(e, ws);
    var u, i := r.text, r.insert;
    BreakBetween(t, c, c, ws);
    assert u == t[..c] + "\n" + ws + t[c..] && i == c + 1 + |ws|;
    assert u[..c] == t[..c];
    assert LineBefore(u, i) == LeadingWs(u, i);
  }

  /** Enter between `{` and the text after it: two lines, the first
      indented one level deeper than `tabs`, the second as deep as `tabs`
      and followed by `close`. The cursor is moved back to the end of the
      first of them. */
  function SplitBlock(e: Editor, tabs: string, tab: string, close: string): (r: Editor)
    requires Valid(e) && !HasSelection(e)
    ensures var t, c := e.text, e.insert;
      var ins := "\n" + tabs + tab + "\n" + tabs + close;
      r == Editor(t[..c] + ins + t[c..], c + 1 + |tabs| + |tab|, c + 1 + |tabs| + |tab|)
  {
    var e1 := InsertAtCursor(e, "\n" + tabs + tab + "\n" + tabs + close);
    // `backward_chars(|tabs| + 1 + |close|)` from the end of the insertion
    PlaceCursor(e1, e1.insert - (|tabs| + 1 + |close|))
  }

  /** The layout `SplitBlock` leaves: the cursor ends a new line holding
      the deeper indentation, the next line is indented with `tabs` and
      goes on with `close` and the text that followed the cursor, and
      nothing before the cursor changes. */
  lemma SplitBlockLayout(e: Editor, tabs: string, tab: string, close: string) returns (r: Editor, j: nat)
    requires Valid(e) && !HasSelection(e) && AllBlank(tabs) && AllBlank(tab)
    requires var q := close + e.text[e.insert..]; |q| == 0 || !IsBlank(q[0])
    ensures r == SplitBlock(e, tabs, tab, close) && j == r.insert + 1 + |tabs|
    ensures j <= |r.text| && r.text[r.insert] == '\n'
    ensures r.text[..e.insert] == e.text[..e.insert] && LineBefore(r.text, r.insert) == tabs + tab
    ensures LeadingWs(r.text, j) == tabs && TabsEnd(r.text, j) == j && r.text[j..] == close + e.text[e.insert..]
  {
    var t, c := e.text, e.insert;
    var mid := tabs + tab;
    r := SplitBlock(e, tabs, tab, close);
    j := r.insert + 1 + |tabs|;
    assert AllBlank(mid) by {
      assert forall k :: 0 <= k < |tabs| ==> mid[k] == tabs[k];
      assert forall k :: |tabs| <= k < |mid| ==> mid[k] == tab[k - |tabs|];
    }
    BlockChars(r.text, t[..c], tabs, tab, close, t[c..], r.insert, j);
    TwoIndentedLines(r.text, c, r.insert, j, mid, tabs);
  }

  /** Two line breaks, at `a` and `i`, each followed by blanks, then a
      non-blank or the end at `j`: the line between the breaks holds just
      the first blanks, and the second blanks indent the line after. */
  lemma TwoIndentedLines(u: string, a: nat, i: nat, j: nat, mid: string, tabs: string)
    requires AllBlank(mid) && AllBlank(tabs)
    requires i == a + 1 + |mid| && j == i + 1 + |tabs| && j <= |u|
    requires u[a] == '\n' && u[i] == '\n' && u[a + 1..i] == mid && u[i + 1..j] == tabs
    requires j == |u| || !IsBlank(u[j])
    ensures LineBefore(u, i) == mid && LeadingWs(u, j) == tabs && TabsEnd(u, j) == j
  {
    IndentAfterBreak(u, a, mid);
    IndentAfterBreak(u, i, tabs);
  }

  /** Where the characters of the text `SplitBlock` leaves come from. */
  lemma BlockChars(u: string, p: string, tabs: string, tab: string, close: string, q: string, i: nat, j: nat)
    requires u == p + ("\n" + tabs + tab + "\n" + tabs + close) + q
    requires i == |p| + 1 + |tabs + tab| && j == i + 1 + |tabs|
    ensures j <= |u| && u[..|p|] == p && u[|p|] == '\n' && u[i] == '\n'
    ensures u[|p| + 1..i] == tabs + tab && u[i + 1..j] == tabs
    ensures u[j..] == close + q && (|close + q| > 0 ==> u[j] == (close + q)[0])
  {
    assert u == p + "\n" + (tabs + tab) + "\n" + tabs + (close + q);
  }

  /** A line break at `b`, then blanks `ws`, then a non-blank or the end:
      the blanks are the indentation of the line after the break, and all
      of it before its end. */
  lemma IndentAfterBreak(u: string, b: nat, ws: string)
    requires b + 1 + |ws| <= |u| && u[b] == '\n' && AllBlank(ws)
    requires u[b + 1..b + 1 + |ws|] == ws
    requires b + 1 + |ws| == |u| || !IsBlank(u[b + 1 + |ws|])
    ensures var j := b + 1 + |ws|;
      LeadingWs(u, j) == ws && TabsEnd(u, j) == j && LineBefore(u, j) == ws
  {
    IndentedRun(u, b + 1, ws);
  }

  /** Blanks `ws` at a line start `s`, followed by a non-blank or the end:
      they are the line's indentation. */
  lemma IndentedRun(u: string, s: nat, ws: string)
    requires s + |ws| <= |u| && StartsLine(u, s) && AllBlank(ws)
    requires u[s..s + |ws|] == ws
    requires s + |ws| == |u| || !IsBlank(u[s + |ws|])
    ensures LineStart(u, s + |ws|) == s && TabsEnd(u, s + |ws|) == s + |ws|
    ensures LeadingWs(u, s + |ws|) == ws && LineBefore(u, s + |ws|) == ws
    ensures TabsEnd(u, s) == s + |ws| && LeadingWs(u, s) == ws
  {
    var i := s + |ws|;
    assert forall k :: s <= k < i ==> u[k] == ws[k - s];
    LineStartOfRun(u, s, i);
    SkipBlanksStopsAt(u, s, i);
  }

  // ---------------------------------------------------------------------
  // Enter after `{`

  /** `get_token` at the sentence start `s`, or, when no identifier stands
      there, at the start of the sentence the line above belongs to. */
  function StatementToken(t: string, skip: nat -> bool, tabChar: char, cursor: nat, s: nat): (tok: string)
    requires s <= |t| && cursor <= |t|
    ensures forall k :: 0 <= k < |tok| ==> IsWordChar(tok[k])
    ensures IsWordChar(At(t, s)) ==> tok == GetToken(t, s)
  {
    var tok := GetToken(t, s);
    if tok != "" then tok
    else
      var ls := LineStart(t, s);
      if ls == 0 then ""
      else
        match FindStartOfClosedExpression(t, skip, tabChar, cursor, ls - 1)
        case None => ""
        case Some(p) => GetToken(t, p)
  }

  /** Whether the block Enter opens is closed with `};`: in C and C++,
      after a `class` or `struct` head. */
  predicate AddsSemicolon(t: string, skip: nat -> bool, cfg: Config, cursor: nat, s: nat)
    requires s <= |t| && cursor <= |t|
  {
    ClosesClassWithSemicolon(cfg.language) &&
    StatementToken(t, skip, cfg.unit.ch, cursor, s) in {"class", "struct"}
  }

  /** Whether the `}` that closes the block `from` is in stands on a line
      indented as deep as `tabs`: then the block already has its end. */
  predicate HasClosingBrace(t: string, skip: nat -> bool, from: nat, tabs: string)
    requires from <= |t|
  {
    var f := FindRightBracketForward(t, skip, from);
    f.Some? && |LeadingWs(t, f.value)| == |tabs|
  }

  /** What Enter after `{` (at `c - 1`) puts on a line of its own below the
      new one: nothing before a `}` the cursor already stands in front of,
      a new `}` (or `};`) when the block has no closing brace, and None
      when no second line is opened. */
  function BlockCloser(t: string, skip: nat -> bool, cfg: Config, c: nat, s: nat): (close: Option<string>)
    requires 0 < c <= |t| && s <= c
    ensures close.Some? <==> At(t, c) == '}' || !HasClosingBrace(t, skip, c - 1, LeadingWs(t, s))
    ensures close.Some? ==> |close.value + t[c..]| > 0 && (close.value + t[c..])[0] == '}'
  {
    if At(t, c) == '}' then
      assert ("" + t[c..])[0] == t[c];
      Some("")
    else if !HasClosingBrace(t, skip, c - 1, LeadingWs(t, s)) then
      Some(if AddsSemicolon(t, skip, cfg, c, s) then "};" else "}")
    else None
  }

  /** Enter right after `{`, in a sentence starting at `s`. */
  function EnterAfterBrace(e: Editor, skip: nat -> bool, cfg: Config, s: nat): (r: Editor)
    requires TrimmedAt(e) && s <= e.insert && e.text[e.insert - 1] == '{'
    ensures r.insert == r.bound
  {
    var tabs, tab := LeadingWs(e.text, s), TabString(cfg.unit);
    match BlockCloser(e.text, skip, cfg, e.insert, s)
    case Some(close) => SplitBlock(e, tabs, tab, close)
    case None => Break(e, tabs + tab)
  }

  /** Enter after `{` starts a new line one level deeper than the first
      line of the sentence, and keeps everything before the cursor. */
  lemma EnterAfterBraceIndents(e: Editor, skip: nat -> bool, cfg: Config, s: nat) returns (r: Editor)
    requires TrimmedAt(e) && s <= e.insert && e.text[e.insert - 1] == '{' && ValidUnit(cfg.unit)
    ensures r == EnterAfterBrace(e, skip, cfg, s)
    ensures r.text[..e.insert] == e.text[..e.insert]
    ensures LineBefore(r.text, r.insert) == LeadingWs(e.text, s) + TabString(cfg.unit)
  {
    var tabs, tab := LeadingWs(e.text, s), TabString(cfg.unit);
    match BlockCloser(e.text, skip, cfg, e.insert, s)
    case Some(close) =>
      var j;
      r, j := SplitBlockLayout(e, tabs, tab, close);
    case None =>
      r := BreakIndents(e, tabs + tab);
  }

  /** When the block Enter opens has no closing brace yet, or the cursor
      stands before one, the line after the new one is indented like the
      sentence's first line and starts with the closing brace. */
  lemma EnterAfterBraceCloses(e: Editor, skip: nat -> bool, cfg: Config, s: nat) returns (r: Editor, j: nat)
    requires TrimmedAt(e) && s <= e.insert && e.text[e.insert - 1] == '{' && ValidUnit(cfg.unit)
    requires At(e.text, e.insert) == '}' || !HasClosingBrace(e.text, skip, e.insert - 1, LeadingWs(e.text, s))
    ensures r == EnterAfterBrace(e, skip, cfg, s)
    ensures r.insert < j < |r.text| && r.text[r.insert] == '\n'
    ensures LeadingWs(r.text, j) == LeadingWs(e.text, s) && TabsEnd(r.text, j) == j && r.text[j] == '}'
  {
    var tabs, tab := LeadingWs(e.text, s), TabString(cfg.unit);
    var close := BlockCloser(e.text, skip, cfg, e.insert, s).value;
    r, j := SplitBlockLayout(e, tabs, tab, close);
  }

  // ---------------------------------------------------------------------
  // Enter after anything else

  /** The indentation that lines the new line up after an open `(` or `[`
      at `f`: the blanks its line starts with, then one space for each
      character up to and including the symbol. */
  function AlignedTabs(t: string, f: nat): (ws: string)
    requires f < |t| && (t[f] == '(' || t[f] == '[')
    ensures AllBlank(ws)
    ensures |ws| == f + 1 - LineStart(t, f)
    ensures ws[..|LeadingWs(t, f)|] == LeadingWs(t, f)
  {
    var te := TabsEnd(t, f);
    var ws := LeadingWs(t, f) + Repeat(' ', f + 1 - te);
    assert ws[..|LeadingWs(t, f)|] == LeadingWs(t, f);
    ws
  }

  /** The line above the cursor's when the sentence is indented at least
      one level (`width` against `size`) and that line is an unbraced head:
      the statement just ended is the head's one-statement body. */
  function BodyHead(t: string, c: nat, width: nat, size: nat): (head: Option<string>)
    requires c <= |t|
    ensures head.Some? <==> width >= size && LineStart(t, c) > 0 && OpensUnbracedBody(LineAt(t, LineStart(t, c) - 1))
    ensures head.Some? ==> LineStart(t, c) > 0 && head.value == LineAt(t, LineStart(t, c) - 1)
  {
    var ls := LineStart(t, c);
    if width >= size && ls > 0 && OpensUnbracedBody(LineAt(t, ls - 1)) then Some(LineAt(t, ls - 1)) else None
  }

  /** An `if`, `for`, `while`, `else if` or `else` head without `{`. */
  predicate OpensUnbracedBody(line: string) {
    !OpensBlock(line) && (HeadlessStatement(line) || BareElse(line))
  }

  /** How Enter after `:` treats the line: with no enclosing `{` (or no
      sentence start after it) the new line keeps `tabs`; a label indented
      one level deeper than the statement holding the `{` loses its first
      level and the new line keeps `tabs`; otherwise the new line goes one
      level deeper. */
  datatype LabelCase = Unenclosed | Outdented | Nested

  function LabelCaseOf(t: string, skip: nat -> bool, cfg: Config, c: nat, tabs: string): (k: LabelCase)
    requires 0 < c <= |t|
    ensures k.Unenclosed? ==> (FindLeftBracketBackward(t, skip, c - 1).None? ||
      FindStartOfClosedExpression(t, skip, cfg.unit.ch, c, FindLeftBracketBackward(t, skip, c - 1).value + 1).None?)
    ensures k.Outdented? ==> |tabs| >= cfg.unit.size
  {
    match FindLeftBracketBackward(t, skip, c - 1)
    case None => Unenclosed
    case Some(b) =>
      // `b` holds `{`, which does not end its line: the scan starts after it
      match FindStartOfClosedExpression(t, skip, cfg.unit.ch, c, b + 1)
      case None => Unenclosed
      case Some(s2) =>
        if |tabs| == |LeadingWs(t, s2)| + cfg.unit.size then Outdented else Nested
  }

  /** Enter after `:`, e.g. after a `case` label. */
  function EnterAfterColon(e: Editor, skip: nat -> bool, cfg: Config, tabs: string): (r: Editor)
    requires TrimmedAt(e)
    ensures r.insert == r.bound
  {
    var t, c := e.text, e.insert;
    match LabelCaseOf(t, skip, cfg, c, tabs)
    case Unenclosed => Break(e, tabs)
    case Outdented => Break(EraseLevel(e, cfg.unit), tabs)
    case Nested => Break(e, tabs + TabString(cfg.unit))
  }

  /** The first `u.size` characters of the cursor's line erased;
      `forward_chars` stops at the buffer end. */
  function EraseLevel(e: Editor, u: IndentUnit): (r: Editor)
    requires Valid(e) && !HasSelection(e)
    ensures Valid(r) && !HasSelection(r)
    ensures var ls := LineStart(e.text, e.insert);
      ls + u.size <= e.insert ==>
        r.text == e.text[..ls] + e.text[ls + u.size..] && r.insert == e.insert - u.size
  {
    var t, c := e.text, e.insert;
    var ls := LineStart(t, c);
    var hi := if ls + u.size <= |t| then ls + u.size else |t|;
    EraseText(e, ls, hi)
  }

  /** What decides the new line's indentation after a sentence that does
      not end with `{`. */
  datatype StatementCase =
    | Aligned(symbol: nat)    // an unclosed `(` or `[` at `symbol`
    | AfterHead               // the line is an unbraced head
    | BodyEnd(head: string)   // `;` ends the one statement under the head line above
    | AfterLabel              // the line ends with `:`
    | Plain

  function StatementCaseOf(t: string, skip: nat -> bool, cfg: Config, c: nat, s: nat): (k: StatementCase)
    requires 0 < c <= |t| && s <= c
    ensures k.Aligned? <==> FindOpenExpressionSymbol(t, skip, c, s).Some?
    ensures k.Aligned? ==> k.symbol < c && (t[k.symbol] == '(' || t[k.symbol] == '[')
    ensures k.AfterHead? ==> HeadlessStatement(LineBefore(t, c)) || BareElse(LineBefore(t, c))
    ensures k.BodyEnd? ==> t[c - 1] == ';' && BodyHead(t, c, |LeadingWs(t, s)|, cfg.unit.size) == Some(k.head)
    ensures k.AfterLabel? ==> t[c - 1] == ':'
  {
    var line := LineBefore(t, c);
    match FindOpenExpressionSymbol(t, skip, c, s)
    case Some(f) => Aligned(f)
    case None =>
      if HeadlessStatement(line) || BareElse(line) then AfterHead
      else if t[c - 1] == ';' then
        match BodyHead(t, c, |LeadingWs(t, s)|, cfg.unit.size)
        case Some(head) => BodyEnd(head)
        case None => Plain
      else if t[c - 1] == ':' then AfterLabel
      else Plain
  }

  /** Enter after the text of a sentence starting at `s`, not after `{`. */
  function EnterAfterStatement(e: Editor, skip: nat -> bool, cfg: Config, s: nat): (r: Editor)
    requires TrimmedAt(e) && s <= e.insert
    ensures r.insert == r.bound
  {
    var t, c := e.text, e.insert;
    var tabs := LeadingWs(t, s);
    match StatementCaseOf(t, skip, cfg, c, s)
    case Aligned(f) => Break(e, AlignedTabs(t, f))
    case AfterHead => Break(e, tabs + TabString(cfg.unit))
    case BodyEnd(head) => Break(e, Captured(head))
    case AfterLabel => EnterAfterColon(e, skip, cfg, tabs)
    case Plain => Break(e, tabs)
  }

  /** Enter after `:` keeps the text before the cursor and indents the new
      line like the sentence (`tabs`), one level deeper inside a block whose
      labels sit at the block's own depth; a label one level deeper than
      its block loses that level first. */
  lemma EnterAfterColonIndents(e: Editor, skip: nat -> bool, cfg: Config, tabs: string) returns (r: Editor)
    requires TrimmedAt(e) && AllBlank(tabs) && ValidUnit(cfg.unit)
    ensures r == EnterAfterColon(e, skip, cfg, tabs)
    ensures var k := LabelCaseOf(e.text, skip, cfg, e.insert, tabs);
      k.Unenclosed? ==> r.text[..e.insert] == e.text[..e.insert] && LineBefore(r.text, r.insert) == tabs
    ensures var k := LabelCaseOf(e.text, skip, cfg, e.insert, tabs);
      k.Nested? ==> r.text[..e.insert] == e.text[..e.insert] && LineBefore(r.text, r.insert) == tabs + TabString(cfg.unit)
    ensures var k, ls := LabelCaseOf(e.text, skip, cfg, e.insert, tabs), LineStart(e.text, e.insert);
      k.Outdented? && ls + cfg.unit.size <= e.insert ==>
        r.text == e.text[..ls] + e.text[ls + cfg.unit.size..e.insert] + "\n" + tabs + e.text[e.insert..] &&
        LineBefore(r.text, r.insert) == tabs
  {
    var t, c := e.text, e.insert;
    match LabelCaseOf(t, skip, cfg, c, tabs)
    case Unenclosed =>
      r := BreakIndents(e, tabs);
    case Nested =>
      r := BreakIndents(e, tabs + TabString(cfg.unit));
    case Outdented =>
      if LineStart(t, c) + cfg.unit.size <= c {
        r := OutdentThenBreak(e, cfg.unit, tabs);
      } else {
        r := Break(EraseLevel(e, cfg.unit), tabs);
      }
  }

  /** Erasing the first level of the cursor's line, then breaking it: the
      text before the new line is the old one without that level. */
  lemma OutdentThenBreak(e: Editor, u: IndentUnit, tabs: string) returns (r: Editor)
    requires TrimmedAt(e) && AllBlank(tabs) && LineStart(e.text, e.insert) + u.size <= e.insert
    ensures r == Break(EraseLevel(e, u), tabs)
    ensures var t, c, ls := e.text, e.insert, LineStart(e.text, e.insert);
      r.text == t[..ls] + t[ls + u.size..c] + "\n" + tabs + t[c..]
    ensures LineBefore(r.text, r.insert) == tabs
  {
    var e1 := ErasedLevel(e, u);
    r := BreakIndents(e1, tabs);
  }

  /** The first level of the cursor's line erased: the cursor moves back
      with the text and still has text or the buffer end after it. */
  lemma ErasedLevel(e: Editor, u: IndentUnit) returns (e1: Editor)
    requires Valid(e) && !HasSelection(e) && LineStart(e.text, e.insert) + u.size <= e.insert
    requires e.insert == |e.text| || !IsBlank(e.text[e.insert])
    ensures e1 == EraseLevel(e, u) && Valid(e1) && !HasSelection(e1)
    ensures var t, c, ls := e.text, e.insert, LineStart(e.text, e.insert);
      e1.text[..e1.insert] == t[..ls] + t[ls + u.size..c] && e1.text[e1.insert..] == t[c..]
    ensures e1.insert == |e1.text| || !IsBlank(e1.text[e1.insert])
  {
    var t, c, ls := e.text, e.insert, LineStart(e.text, e.insert);
    e1 := EraseLevel(e, u);
    assert e1.text == t[..ls] + t[ls + u.size..] && e1.insert == c - u.size;
    ErasedPrefix(t, ls, u.size, c, e1.text);
  }

  /** Erasing `t[ls..ls + n]` shifts what followed it `n` places left. */
  lemma ErasedPrefix(t: string, ls: nat, n: nat, c: nat, t1: string)
    requires ls + n <= c <= |t| && t1 == t[..ls] + t[ls + n..]
    ensures t1[..c - n] == t[..ls] + t[ls + n..c] && t1[c - n..] == t[c..]
  {
    assert t1[..c - n] == t[..ls] + t[ls + n..][..c - n - ls];
    assert t[ls + n..][..c - n - ls] == t[ls + n..c];
  }

  /** Enter after a sentence that does not end with `{` keeps the text
      before the cursor and indents the new line: one column past an
      unclosed `(` or `[`, keeping that line's own indentation; one level
      deeper than the sentence after an unbraced head; back at the head's
      indentation once the head's one statement ends; like the sentence
      otherwise. The case after a head's one statement is
      `EnterAfterBodyEnd`. */
  lemma EnterAfterStatementIndents(e: Editor, skip: nat -> bool, cfg: Config, s: nat) returns (r: Editor)
    requires TrimmedAt(e) && s <= e.insert && ValidUnit(cfg.unit)
    ensures r == EnterAfterStatement(e, skip, cfg, s)
    ensures var k := StatementCaseOf(e.text, skip, cfg, e.insert, s);
      !k.AfterLabel? ==> r.text[..e.insert] == e.text[..e.insert]
    ensures var k := StatementCaseOf(e.text, skip, cfg, e.insert, s);
      k.Aligned? ==> var ws := LineBefore(r.text, r.insert);
        |ws| == k.symbol + 1 - LineStart(e.text, k.symbol) && AllBlank(ws) &&
        ws[..|LeadingWs(e.text, k.symbol)|] == LeadingWs(e.text, k.symbol)
    ensures StatementCaseOf(e.text, skip, cfg, e.insert, s).AfterHead? ==>
      LineBefore(r.text, r.insert) == LeadingWs(e.text, s) + TabString(cfg.unit)
    ensures StatementCaseOf(e.text, skip, cfg, e.insert, s).Plain? ==>
      LineBefore(r.text, r.insert) == LeadingWs(e.text, s)
  {
    var t, c := e.text, e.insert;
    var tabs := LeadingWs(t, s);
    match StatementCaseOf(t, skip, cfg, c, s)
    case Aligned(f) =>
      r := BreakIndents(e, AlignedTabs(t, f));
    case AfterHead =>
      r := BreakIndents(e, tabs + TabString(cfg.unit));
    case BodyEnd(head) =>
      r := BreakUnderHead(e, LineStart(t, c), head);
    case AfterLabel =>
      r := EnterAfterColon(e, skip, cfg, tabs);
    case Plain =>
      r := BreakIndents(e, tabs);
  }

  /** Enter after the one statement of an unbraced head's body keeps the
      text before the cursor and indents the new line like the head. */
  lemma EnterAfterBodyEnd(e: Editor, skip: nat -> bool, cfg: Config, s: nat) returns (r: Editor)
    requires TrimmedAt(e) && s <= e.insert && StatementCaseOf(e.text, skip, cfg, e.insert, s).BodyEnd?
    ensures r == EnterAfterStatement(e, skip, cfg, s)
    ensures var ls := LineStart(e.text, e.insert);
      ls > 0 && r.text[..e.insert] == e.text[..e.insert] && LineBefore(r.text, r.insert) == LeadingWs(e.text, ls - 1)
  {
    var k := StatementCaseOf(e.text, skip, cfg, e.insert, s);
    r := BreakUnderHead(e, LineStart(e.text, e.insert), k.head);
  }

  /** A line break indented like the head line above the cursor's. */
  lemma BreakUnderHead(e: Editor, ls: nat, head: string) returns (r: Editor)
    requires Valid(e) && !HasSelection(e) && (e.insert == |e.text| || !IsBlank(e.text[e.insert]))
    requires ls == LineStart(e.text, e.insert) && ls > 0 && head == LineAt(e.text, ls - 1)
    ensures r == Break(e, Captured(head))
    ensures r.text[..e.insert] == e.text[..e.insert] && LineBefore(r.text, r.insert) == LeadingWs(e.text, ls - 1)
  {
    var ws := LeadingWs(e.text, ls - 1);
    CapturedIsLeadingWs(e.text, ls - 1);
    r := BreakIndents(e, ws);
  }

  /** Enter once the blanks are gone: None when no line start above the
      cursor closes the expression, and the basic handling then follows. */
  function EnterAfterTrim(e: Editor, skip: nat -> bool, cfg: Config): (r: Option<Editor>)
    requires TrimmedAt(e)
    ensures r.None? <==> ClosingLine(e.text, skip, e.insert).None?
    ensures r.Some? ==> r.value.insert == r.value.bound
  {
    var t, c := e.text, e.insert;
    match FindStartOfClosedExpression(t, skip, cfg.unit.ch, c, c)
    case None => None
    case Some(s) =>
      if t[c - 1] == '{' then Some(EnterAfterBrace(e, skip, cfg, s))
      else Some(EnterAfterStatement(e, skip, cfg, s))
  }

  // ---------------------------------------------------------------------
  // The `}` and `{` keys

  /** Whether the line holds nothing but at least one level of the
      indentation character before the cursor. */
  predicate OnlyIndentBefore(t: string, c: nat, u: IndentUnit)
    requires c <= |t|
  {
    var ls := LineStart(t, c);
    c - ls >= u.size && forall k :: ls <= k < c ==> t[k] == u.ch
  }

  /** `e` with `t[ls..c]` replaced by `w`, and the cursor, without a
      selection, at the end of `w`. */
  function Splice(e: Editor, ls: nat, w: string): (r: Editor)
    requires Valid(e) && ls <= e.insert
    ensures Valid(r) && !HasSelection(r) && r.insert == ls + |w|
  {
    Editor(e.text[..ls] + w + e.text[e.insert..], ls + |w|, ls + |w|)
  }

  /** The editor with the line before the cursor rewritten to `w`. */
  function WithLineBefore(e: Editor, w: string): (r: Editor)
    requires Valid(e)
    ensures Valid(r) && !HasSelection(r)
  {
    Splice(e, LineStart(e.text, e.insert), w)
  }

  /** When `w` holds no line break, the text before the line and after the
      cursor is kept, and the cursor stays on its line with exactly `w`
      before it. */
  lemma WithLineBeforeLayout(e: Editor, w: string)
    requires Valid(e) && NoNewline(w)
    ensures var r, ls := WithLineBefore(e, w), LineStart(e.text, e.insert);
      LineStart(r.text, r.insert) == ls && LineBefore(r.text, r.insert) == w &&
      r.text[..ls] == e.text[..ls] && r.text[r.insert..] == e.text[e.insert..]
  {
    LineAfterEdit(e.text, LineStart(e.text, e.insert), e.insert, w);
  }

  /** Typing `}`: on a line holding only indentation before the cursor, the
      first level is removed first. Nothing but the line before the cursor
      changes. */
  function CloseBrace(e: Editor, u: IndentUnit): (r: Editor)
    requires Valid(e) && !HasSelection(e)
    ensures var line := LineBefore(e.text, e.insert);
      r == WithLineBefore(e, (if OnlyIndentBefore(e.text, e.insert, u) then line[u.size..] else line) + "}")
  {
    var t, c := e.text, e.insert;
    var ls := LineStart(t, c);
    if OnlyIndentBefore(t, c, u) then
      assert t[ls..c][u.size..] == t[ls + u.size..c];
      DropFrontThenType(e, ls, u.size, t[ls + u.size..c], "}");
      InsertAtCursor(EraseText(e, ls, ls + u.size), "}")
    else
      EraseBeforeThenType(e, ls, ls, "}");
      InsertAtCursor(e, "}")
  }

  /** Erasing the `n` characters after `ls`, then typing `s`. */
  lemma DropFrontThenType(e: Editor, ls: nat, n: nat, kept: string, s: string)
    requires Valid(e) && !HasSelection(e) && ls + n <= e.insert && kept == e.text[ls + n..e.insert]
    ensures InsertAtCursor(EraseText(e, ls, ls + n), s) == Splice(e, ls, kept + s)
  {
    EraseBeforeThenType(e, ls, ls + n, s);
  }

  /** Erasing the `n` characters before the cursor, then typing `s`,
      rewrites the line before the cursor to its first part and `s`. */
  lemma DropBackThenType(e: Editor, n: nat, s: string)
    requires Valid(e) && !HasSelection(e) && LineStart(e.text, e.insert) + n <= e.insert
    ensures var line := LineBefore(e.text, e.insert);
      InsertAtCursor(EraseText(e, e.insert - n, e.insert), s) == WithLineBefore(e, line[..|line| - n] + s)
  {
    var t, c := e.text, e.insert;
    var ls, line := LineStart(t, c), LineBefore(t, c);
    var kept := line[..|line| - n];
    assert kept == t[ls..c - n];
    ReplaceAtCursor(e, c - n, c, s);
    assert t[..c - n] == t[..ls] + kept;
    Assoc(t[..ls], kept, s);
  }

  lemma Assoc(a: string, b: string, c: string)
    ensures a + (b + c) == (a + b) + c
  {
  }

  /** Erasing `t[a..b]` before the cursor, then typing `s`, splices
      `t[b..c] + s` in at `a`. Without an erase (`a == b`) this is typing
      `s`. */
  lemma EraseBeforeThenType(e: Editor, a: nat, b: nat, s: string)
    requires Valid(e) && !HasSelection(e) && a <= b <= e.insert
    ensures InsertAtCursor(EraseText(e, a, b), s) == Splice(e, a, e.text[b..e.insert] + s)
    ensures a == b ==> InsertAtCursor(e, s) == Splice(e, a, e.text[a..e.insert] + s)
  {
    var t, c := e.text, e.insert;
    var t1 := t[..a] + t[b..];
    var c1 := c - (b - a);
    assert t1[..c1] == t[..a] + t[b..c];
    assert t1[c1..] == t[c..];
    assert t[..c] == t[..a] + t[b..c] ==> t[..c] + s + t[c..] == t[..a] + (t[b..c] + s) + t[c..];
  }

  /** Replacing the start of a line up to `c` by text without line breaks
      leaves the line start in place. */
  lemma LineAfterEdit(t: string, ls: nat, c: nat, w: string)
    requires ls <= c <= |t| && StartsLine(t, ls) && NoNewline(w)
    ensures var u := t[..ls] + w + t[c..];
      ls + |w| <= |u| && LineStart(u, ls + |w|) == ls && LineBefore(u, ls + |w|) == w &&
      u[..ls] == t[..ls] && u[ls + |w|..] == t[c..]
  {
    var u := t[..ls] + w + t[c..];
    assert StartsLine(u, ls) by {
      if ls > 0 {
        assert u[ls - 1] == t[ls - 1];
      }
    }
    assert forall k :: ls <= k < ls + |w| ==> u[k] == w[k - ls];
    LineStartOfRun(u, ls, ls + |w|);
    assert u[ls..ls + |w|] == w;
  }

  /** Typing `}` after exactly `n` levels' worth of the indentation
      character leaves one level less before the brace, on the same line. */
  lemma CloseBraceDedents(e: Editor, u: IndentUnit, n: nat)
    requires Valid(e) && !HasSelection(e) && u.ch != '\n'
    requires n >= u.size && LineBefore(e.text, e.insert) == Repeat(u.ch, n)
    ensures var r := CloseBrace(e, u);
      LineStart(r.text, r.insert) == LineStart(e.text, e.insert) &&
      LineBefore(r.text, r.insert) == Repeat(u.ch, n - u.size) + "}"
  {
    var t, c := e.text, e.insert;
    var ls := LineStart(t, c);
    var w := Repeat(u.ch, n - u.size) + "}";
    assert forall k :: ls <= k < c ==> t[k] == LineBefore(t, c)[k - ls];
    assert OnlyIndentBefore(t, c, u);
    assert Repeat(u.ch, n)[u.size..] == Repeat(u.ch, n - u.size);
    assert NoNewline(w) by {
      assert forall k :: 0 <= k < |w| - 1 ==> w[k] == u.ch;
    }
    WithLineBeforeLayout(e, w);
  }

  /** Whether `{` typed at `c` pulls the line back to the head above. */
  predicate DedentsOpenBrace(t: string, c: nat, u: IndentUnit)
    requires c <= |t|
  {
    var ls, tabs := LineStart(t, c), LeadingWs(t, c);
    ls > 0 && |tabs| >= u.size && c == TabsEnd(t, c) &&
    var prev := LineAt(t, ls - 1);
    OpensUnbracedBody(prev) && |tabs| - u.size == |Captured(prev)|
  }

  /** Typing `{` where the indentation ends, on the line after an unbraced
      head: when the line is indented one level deeper than the head, that
      level goes and the brace follows the remaining indentation. None
      otherwise, and the basic handling follows. */
  function OpenBraceDedent(e: Editor, u: IndentUnit): (r: Option<Editor>)
    requires Valid(e) && !HasSelection(e)
    ensures r.Some? <==> DedentsOpenBrace(e.text, e.insert, u)
    ensures r.Some? ==> var line := LineBefore(e.text, e.insert);
      |line| >= u.size && r.value == WithLineBefore(e, line[..|line| - u.size] + "{")
  {
    if DedentsOpenBrace(e.text, e.insert, u) then Some(DedentBrace(e, u)) else None
  }

  /** The `{` key's dedent: the last level of the text before the cursor
      is erased and the brace typed in its place. */
  function DedentBrace(e: Editor, u: IndentUnit): (r: Editor)
    requires Valid(e) && !HasSelection(e) && LineStart(e.text, e.insert) + u.size <= e.insert
    ensures var line := LineBefore(e.text, e.insert);
      r == WithLineBefore(e, line[..|line| - u.size] + "{")
  {
    DropBackThenType(e, u.size, "{");
    InsertAtCursor(EraseText(e, e.insert - u.size, e.insert), "{")
  }

  /** The first capture of the head's pattern is the head line's own
      indentation. */
  lemma CapturedIsLeadingWs(t: string, i: nat)
    requires i <= |t|
    ensures Captured(LineAt(t, i)) == LeadingWs(t, i)
  {
    var ls, le := LineStart(t, i), LineEnd(t, i);
    IndentationOfSlice(t, ls, le);
    SkipBlanksStaysOnLine(t, ls, i);
    assert t[ls..le][..TabsEnd(t, i) - ls] == t[ls..TabsEnd(t, i)];
  }

  /** After the dedent, `{` stands in the head's column: the line keeps as
      much of its indentation as the head line has, then the brace. */
  lemma OpenBraceAligns(e: Editor, u: IndentUnit)
    requires Valid(e) && !HasSelection(e) && DedentsOpenBrace(e.text, e.insert, u)
    ensures var r, ls := OpenBraceDedent(e, u).value, LineStart(e.text, e.insert);
      ls > 0 && |LeadingWs(e.text, ls - 1)| <= |LeadingWs(e.text, e.insert)| &&
      LineStart(r.text, r.insert) == ls &&
      LineBefore(r.text, r.insert) == LeadingWs(e.text, e.insert)[..|LeadingWs(e.text, ls - 1)|] + "{"
  {
    var t, c := e.text, e.insert;
    var ls, tabs := LineStart(t, c), LeadingWs(t, c);
    CapturedIsLeadingWs(t, ls - 1);
    KeptIndentLayout(e, |tabs| - u.size, "{");
  }

  /** Part of the indentation followed by text without line breaks, as the
      new line before the cursor. */
  lemma KeptIndentLayout(e: Editor, keep: nat, s: string)
    requires Valid(e) && keep <= |LeadingWs(e.text, e.insert)| && NoNewline(s)
    ensures var w := LeadingWs(e.text, e.insert)[..keep] + s;
      var r := WithLineBefore(e, w);
      LineStart(r.text, r.insert) == LineStart(e.text, e.insert) && LineBefore(r.text, r.insert) == w
  {
    var tabs := LeadingWs(e.text, e.insert);
    var w := tabs[..keep] + s;
    assert NoNewline(w) by {
      assert forall k :: 0 <= k < keep ==> w[k] == tabs[k];
      assert forall k :: keep <= k < |w| ==> w[k] == s[k - keep];
    }
    WithLineBeforeLayout(e, w);
  }

  // ---------------------------------------------------------------------
  // The handler and the dispatch

  /** `on_key_press_event_bracket_language`. Its caller only hands it an
      editor without a selection. */
  function BracketKeyPress(e: Editor, k: Key, cfg: Config, skip: nat -> bool, afterDeadKey: bool): (r: Outcome)
    requires Valid(e) && !HasSelection(e) && ValidUnit(cfg.unit)
    ensures !k.name.Return? && !k.name.BraceClose? && !k.name.BraceOpen? ==>
      r == BasicKeyPress(e, k, cfg, afterDeadKey)
    ensures k.name.Return? && StartsLine(e.text, e.insert) ==> r == BasicKeyPress(e, k, cfg, afterDeadKey)
    ensures k.name.BraceClose? ==> r.Handled?
  {
    match k.name
    case Return =>
      if StartsLine(e.text, e.insert) then BasicKeyPress(e, k, cfg, afterDeadKey)
      else
        var e1 := Trimmed(e);
        (match EnterAfterTrim(e1, skip, cfg)
         case None => BasicKeyPress(e1, k, cfg, afterDeadKey)
         case Some(r) => Handled(r))
    case BraceClose => Handled(CloseBrace(e, cfg.unit))
    case BraceOpen =>
      (match OpenBraceDedent(e, cfg.unit)
       case Some(r) => Handled(r)
       case None => BasicKeyPress(e, k, cfg, afterDeadKey))
    case _ => BasicKeyPress(e, k, cfg, afterDeadKey)
  }

  /** The tail of `on_key_press_event`: with a selection, right after a
      comment or string, or outside the brace-delimited languages the basic
      rules apply; otherwise the bracket rules do. */
  function KeyPress(e: Editor, k: Key, cfg: Config, skip: nat -> bool, afterDeadKey: bool): (r: Outcome)
    requires Valid(e) && ValidUnit(cfg.unit)
    ensures HasSelection(e) || (e.insert > 0 && skip(e.insert - 1)) || !IsBracketLanguage(cfg.language) ==>
      r == BasicKeyPress(e, k, cfg, afterDeadKey)
    ensures !HasSelection(e) && !(e.insert > 0 && skip(e.insert - 1)) && IsBracketLanguage(cfg.language) ==>
      r == BracketKeyPress(e, k, cfg, skip, afterDeadKey)
  {
    if HasSelection(e) then BasicKeyPress(e, k, cfg, afterDeadKey)
    else if e.insert > 0 && skip(e.insert - 1) then BasicKeyPress(e, k, cfg, afterDeadKey)
    else if IsBracketLanguage(cfg.language) then BracketKeyPress(e, k, cfg, skip, afterDeadKey)
    else BasicKeyPress(e, k, cfg, afterDeadKey)
  }
}
