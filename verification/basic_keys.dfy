/** The keys the source view intercepts, reduced to what its handlers test:
    the key symbol, the Shift, Control and Meta modifiers, and the Unicode
    code point the toolkit maps the symbol to. */
module Keys {

  datatype KeyName =
    | Return
    | TabKey
    | LeftTab
    | BackSpace
    | DeleteKey
    | EndKey
    | HomeKey
    | BraceOpen
    | BraceClose
    | Character(c: char)
    | OtherKey

  datatype Key = Key(name: KeyName, shift: bool, control: bool, meta: bool)

  /** `gdk_keyval_to_unicode`: 0 for keys without a character. */
  function Unicode(k: KeyName): nat {
    match k
    case Return => 13
    case TabKey => 9
    case BackSpace => 8
    case DeleteKey => 127
    case BraceOpen => '{' as nat
    case BraceClose => '}' as nat
    case Character(c) => c as nat
    case _ => 0
  }

  /** The character a key types, when it types one. */
  function Typed(k: KeyName): char {
    match k
    case BraceOpen => '{'
    case BraceClose => '}'
    case Character(c) => c
    case _ => '\0'
  }

  /** The test in front of the generic insertion: no Control or Meta, a
      printable code point, and the previous key was not a dead key. */
  predicate TypesCharacter(k: Key, afterDeadKey: bool) {
    !k.control && !k.meta && Unicode(k.name) >= 32 && Unicode(k.name) != 127 && !afterDeadKey
  }

  lemma TypedCharacterIsPrintable(k: Key, afterDeadKey: bool)
    requires TypesCharacter(k, afterDeadKey)
    ensures Typed(k.name) as nat == Unicode(k.name) && Typed(k.name) != '\n'
  {
  }
}

/** The key handling every language gets (`on_key_press_event_basic`):
    Enter keeps the indentation, Tab and Shift-Tab indent and unindent whole
    lines, Backspace and Delete swallow runs of blanks, and Home and End
    alternate between the text and the line bounds. */
module BasicKeys {
  import opened Text
  import opened Edits
  import opened Settings
  import opened Keys
  import opened LineIndent

  // ---------------------------------------------------------------------
  // Enter

  /** The walk of `start_blank_iter` back from offset `i` over blanks,
      stopping at the line start. */
  function BackOverBlanks(t: string, i: nat): (r: nat)
    requires i < |t|
    ensures r <= i
    ensures forall k :: r < k <= i ==> IsBlank(t[k])
    ensures forall k :: r <= k < i ==> t[k] != '\n'
    ensures r == i || !StartsLine(t, r + 1)
    ensures StartsLine(t, r) || !IsBlank(t[r])
    decreases i
  {
    if IsBlank(t[i]) && !StartsLine(t, i) then BackOverBlanks(t, i - 1) else i
  }

  /** Where the blanks Enter removes before the cursor begin: after the last
      non-blank before the cursor, or at the cursor when the line is blank up
      to it (the line's indentation is kept). */
  function TrimStart(t: string, c: nat): (a: nat)
    requires 0 < c <= |t| && !StartsLine(t, c)
    ensures LineStart(t, c) < a <= c
  {
    var sb := BackOverBlanks(t, c - 1);
    if StartsLine(t, sb) && IsBlank(t[sb]) then c else sb + 1
  }

  /** Where the blanks Enter removes after the cursor end: at the first
      character that is not a blank, the line break included. */
  function TrimEnd(t: string, c: nat): (b: nat)
    requires c <= |t|
    ensures c <= b <= |t| && (b == |t| || !IsBlank(t[b]))
    ensures forall k :: c <= k < b ==> IsBlank(t[k])
  {
    SkipBlanks(t, c)
  }

  /** Only blanks go, and the line's indentation stays when nothing but
      blanks precede the cursor. */
  lemma TrimStartRemovesBlanks(t: string, c: nat)
    requires 0 < c <= |t| && !StartsLine(t, c)
    ensures AllBlank(t[TrimStart(t, c)..c])
    ensures AllBlank(LineBefore(t, c)) ==> TrimStart(t, c) == c
    ensures !AllBlank(LineBefore(t, c)) ==> !IsBlank(t[TrimStart(t, c) - 1])
  {
    var sb := BackOverBlanks(t, c - 1);
    var ls := LineStart(t, c);
    assert ls <= sb;
    assert StartsLine(t, sb) ==> sb == ls;
    assert forall k :: 0 <= k < c - ls ==> LineBefore(t, c)[k] == t[ls + k];
    if !(StartsLine(t, sb) && IsBlank(t[sb])) {
      assert LineBefore(t, c)[sb - ls] == t[sb];
      var w := t[sb + 1..c];
      assert forall k :: 0 <= k < |w| ==> w[k] == t[sb + 1 + k];
      assert AllBlank(w);
    }
  }

  /** A line's own indentation, unless the next line (when it counts) is
      indented deeper. */
  function Deeper(own: string, next: Option<string>): (ws: string)
    ensures ws == own || (next.Some? && ws == next.value && |ws| > |own|)
  {
    if next.Some? && |next.value| > |own| then next.value else own
  }

  /** The blanks the line holding `c` starts with, cut at `c`. */
  function OwnIndentation(t: string, c: nat): (ws: string)
    requires c <= |t|
    ensures AllBlank(ws)
  {
    var te := TabsEnd(t, c);
    t[LineStart(t, c)..if te < c then te else c]
  }

  /** The indentation of the line after the line break at `i`, if there is
      one there. */
  function NextLineIndent(t: string, i: nat): (n: Option<string>)
    ensures n.Some? <==> i < |t| && t[i] == '\n'
    ensures n.Some? ==> AllBlank(n.value)
  {
    if i < |t| && t[i] == '\n' then Some(LeadingWs(t, i + 1)) else None
  }

  /** The indentation Enter gives the new line: the blanks the line starts
      with, cut at the cursor; or the next line's, when only blanks follow the
      cursor on its line and the next line is indented deeper. */
  function EnterIndentation(t: string, c: nat): (ws: string)
    requires c <= |t|
    ensures AllBlank(ws)
  {
    Deeper(OwnIndentation(t, c), NextLineIndent(t, TrimEnd(t, c)))
  }

  /** The indentation as the handler computes it, once the blanks around
      the cursor `a` are gone: the line's leading blanks, or the next line's
      when `a` ends its line and the next line is indented deeper. */
  function IndentAfterTrim(t: string, a: nat): string
    requires a <= |t|
  {
    Deeper(LeadingWs(t, a), NextLineIndent(t, a))
  }

  /** Two choices agree when their candidates agree wherever they are
      chosen. */
  lemma DeeperAgrees(own1: string, own: string, n1: Option<string>, n: Option<string>)
    requires |own1| == |own| && (n1.Some? <==> n.Some?)
    requires n.Some? ==> |n1.value| == |n.value|
    requires n.Some? && |n.value| > |own| ==> n1 == n
    requires !(n.Some? && |n.value| > |own|) ==> own1 == own
    ensures Deeper(own1, n1) == Deeper(own, n)
  {
  }

  /** The character at `k`; used as the trigger of `CutOut`, so that the
      cut relates two characters only where a proof asks for it. */
  function Char(s: string, k: nat): char
    requires k < |s|
  {
    s[k]
  }

  /** `t1` is `t` with `t[a..b]` cut out. */
  predicate CutOut(t: string, a: nat, b: nat, t1: string) {
    a <= b <= |t| && |t1| == |t| - (b - a) &&
    (forall k {:trigger Char(t1, k)} :: 0 <= k < a ==> Char(t1, k) == Char(t, k)) &&
    (forall k {:trigger Char(t1, k)} :: a <= k < |t1| ==> Char(t1, k) == Char(t, k + (b - a)))
  }

  lemma EraseCutsOut(t: string, a: nat, b: nat)
    requires a <= b <= |t|
    ensures CutOut(t, a, b, t[..a] + t[b..])
  {
  }

  /** The cut as slices: the part before and the part after. */
  lemma CutOutSlices(t: string, a: nat, b: nat, t1: string)
    requires CutOut(t, a, b, t1)
    ensures t1[..a] == t[..a] && t1[a..] == t[b..]
  {
    assert forall k :: 0 <= k < a ==> t1[..a][k] == Char(t1, k);
    assert forall k :: 0 <= k < |t1| - a ==> t1[a..][k] == Char(t1, a + k);
  }

  /** What the proofs below use about a trim start `a` for the cursor `c`:
      either the line is blank up to the cursor and nothing is trimmed, or
      the trim starts on the cursor's line right after a non-blank. */
  predicate TrimsAt(t: string, c: nat, a: nat)
    requires 0 < c <= |t| && 0 < a <= c
  {
    var ls := LineStart(t, c);
    if IsBlank(t[a - 1]) then a == c && forall k :: ls <= k < c ==> IsBlank(t[k])
    else ls < a && LineStart(t, a) == ls
  }

  lemma TrimStartCases(t: string, c: nat)
    requires 0 < c <= |t| && !StartsLine(t, c)
    ensures TrimsAt(t, c, TrimStart(t, c))
  {
    var a, ls := TrimStart(t, c), LineStart(t, c);
    var sb := BackOverBlanks(t, c - 1);
    assert ls <= sb;
    assert StartsLine(t, sb) ==> sb == ls;
    LineStartOfRun(t, ls, a);
  }

  /** The own indentation survives the trim. */
  lemma OwnIndentAfterTrim(t: string, c: nat, t1: string, a: nat)
    requires 0 < a <= c <= |t| && !StartsLine(t, c) && TrimsAt(t, c, a)
    requires CutOut(t, a, TrimEnd(t, c), t1)
    ensures LeadingWs(t1, a) == OwnIndentation(t, c)
  {
    var b := TrimEnd(t, c);
    if IsBlank(t[a - 1]) {
      OwnIndentBlankLine(t, c, t1, b);
    } else {
      OwnIndentTextLine(t, c, t1, a, b);
    }
  }

  lemma OwnIndentBlankLine(t: string, c: nat, t1: string, b: nat)
    requires 0 < c <= |t| && !StartsLine(t, c) && b == TrimEnd(t, c)
    requires CutOut(t, c, b, t1)
    requires forall k :: LineStart(t, c) <= k < c ==> IsBlank(t[k])
    ensures LeadingWs(t1, c) == OwnIndentation(t, c)
  {
    var ls := LineStart(t, c);
    CutOutSlices(t, c, b, t1);
    if c < |t1| {
      assert Char(t1, c) == t1[c];
    }
    LineStartOfPrefix(t1, t, c);
    SkipBlanksStopsAt(t, ls, b);
    assert TabsEnd(t, c) >= c;
    BlankPrefixKept(t, t1, ls, c, b);
    assert TabsEnd(t1, c) == c;
  }

  lemma OwnIndentTextLine(t: string, c: nat, t1: string, a: nat, b: nat)
    requires a <= c <= |t| && LineStart(t, c) < a && LineStart(t, a) == LineStart(t, c)
    requires CutOut(t, a, b, t1) && !IsBlank(t[a - 1])
    ensures LeadingWs(t1, a) == OwnIndentation(t, c)
  {
    var ls := LineStart(t, c);
    CutOutSlices(t, a, b, t1);
    LineStartOfPrefix(t1, t, a);
    PrefixIndent(t, t1, ls, a);
    var r := SkipBlanks(t, ls);
    assert TabsEnd(t1, a) == r;
    assert TabsEnd(t, c) == r;
  }

  /** Text that keeps its first `a` characters and has a non-blank just
      before `a` keeps the indentation of a line starting at `ls < a`. */
  lemma PrefixIndent(t: string, t1: string, ls: nat, a: nat)
    requires ls < a <= |t| && a <= |t1| && t1[..a] == t[..a]
    requires !IsBlank(t[a - 1])
    ensures SkipBlanks(t, ls) < a
    ensures SkipBlanks(t1, ls) == SkipBlanks(t, ls)
    ensures t1[ls..SkipBlanks(t, ls)] == t[ls..SkipBlanks(t, ls)]
  {
    var r := SkipBlanks(t, ls);
    SkipBlanksStopsBefore(t, ls, a - 1);
    SkipBlanksOfPrefix(t1, t, ls, a);
    assert t1[ls..r] == t1[..a][ls..r];
    assert t[ls..r] == t[..a][ls..r];
  }

  /** Blanks from `ls` to `c`, then the text from a non-blank offset `b`:
      skipping blanks from `ls` stops at `c`. */
  lemma BlankPrefixKept(t: string, t1: string, ls: nat, c: nat, b: nat)
    requires ls <= c <= b <= |t| && |t1| == |t| - (b - c)
    requires t1[..c] == t[..c] && (c < |t1| ==> t1[c] == t[b])
    requires forall k :: ls <= k < c ==> IsBlank(t[k])
    requires b == |t| || !IsBlank(t[b])
    ensures SkipBlanks(t1, ls) == c
    ensures t1[ls..c] == t[ls..c]
  {
    assert t1[ls..c] == t1[..c][ls..c];
    assert t[ls..c] == t[..c][ls..c];
    forall k | ls <= k < c
      ensures IsBlank(t1[k])
    {
      assert t1[k] == t1[..c][k];
    }
    SkipBlanksStopsAt(t1, ls, c);
  }

  /** The next line is the same line before and after the trim. */
  lemma NextIndentAfterTrim(t: string, a: nat, b: nat, t1: string)
    requires CutOut(t, a, b, t1)
    ensures NextLineIndent(t1, a) == NextLineIndent(t, b)
  {
    CutOutSlices(t, a, b, t1);
    if b < |t| {
      assert t1[a] == t1[a..][0];
    }
    if b < |t| && t[b] == '\n' {
      assert t1[a + 1..] == t[b + 1..] by {
        assert t1[a + 1..] == t1[a..][1..];
        assert t[b + 1..] == t[b..][1..];
      }
      SkipBlanksOfSuffix(t1, a + 1, t, b + 1);
      var n := SkipBlanks(t, b + 1) - (b + 1);
      assert t1[a + 1..][..n] == t[b + 1..][..n];
      assert t1[a] == '\n';
      assert LeadingWs(t1, a + 1) == t1[a + 1..][..n];
      assert LeadingWs(t, b + 1) == t[b + 1..][..n];
    }
  }

  /** Reading the indentation after the trim gives the indentation of the
      line before it. */
  lemma TrimmedIndentation(t: string, c: nat, t1: string, a: nat)
    requires 0 < a <= c <= |t| && !StartsLine(t, c) && TrimsAt(t, c, a)
    requires CutOut(t, a, TrimEnd(t, c), t1)
    ensures IndentAfterTrim(t1, a) == EnterIndentation(t, c)
  {
    var b := TrimEnd(t, c);
    var own1, own := LeadingWs(t1, a), OwnIndentation(t, c);
    var n1, n := NextLineIndent(t1, a), NextLineIndent(t, b);
    assert |own1| == |own| && (!(n.Some? && |n.value| > |own|) ==> own1 == own) by {
      OwnIndentAfterTrim(t, c, t1, a);
    }
    assert n1 == n by {
      NextIndentAfterTrim(t, a, b, t1);
    }
    DeeperAgrees(own1, own, n1, n);
  }

  /** Erasing around the cursor, then typing a line break and blanks. */
  lemma BreakReplaces(e: Editor, a: nat, b: nat, ws: string)
    requires Valid(e) && !HasSelection(e) && a <= e.insert <= b <= |e.text|
    ensures InsertAtCursor(EraseText(e, a, b), "\n" + ws) ==
      Editor(e.text[..a] + "\n" + ws + e.text[b..], a + 1 + |ws|, a + 1 + |ws|)
  {
    ReplaceAtCursor(e, a, b, "\n" + ws);
    var p, q := e.text[..a], e.text[b..];
    assert p + ("\n" + ws) + q == p + "\n" + ws + q;
  }

  /** Enter: without a selection and away from the line start, the blanks
      around the cursor are removed and a line break is inserted followed by
      the indentation. Otherwise the toolkit handles the key. */
  function Enter(e: Editor): (r: Outcome)
    requires Valid(e)
    ensures r.PassThrough? <==> HasSelection(e) || StartsLine(e.text, e.insert)
    ensures r.PassThrough? ==> r.after == e
    ensures r.Handled? ==>
      var t, c := e.text, e.insert;
      var a, b, ws := TrimStart(t, c), TrimEnd(t, c), EnterIndentation(t, c);
      r.after == Editor(t[..a] + "\n" + ws + t[b..], a + 1 + |ws|, a + 1 + |ws|)
  {
    var t, c := e.text, e.insert;
    if HasSelection(e) || StartsLine(t, c) then PassThrough(e)
    else
      var a := TrimStart(t, c);
      var b := TrimEnd(t, c);
      var e1 := EraseText(e, a, b);
      var ws := IndentAfterTrim(e1.text, e1.insert);
      assert ws == EnterIndentation(t, c) by {
        EraseCutsOut(t, a, b);
        TrimStartCases(t, c);
        TrimmedIndentation(t, c, e1.text, a);
      }
      var r := InsertAtCursor(e1, "\n" + ws);
      BreakReplaces(e, a, b, ws);
      Handled(r)
  }

  /** After Enter (the text and cursor its contract gives) the cursor stands
      at the end of the new line's indentation, and that indentation is the
      one `EnterIndentation` computes. */
  lemma EnterIndentsNewLine(t: string, c: nat)
    requires 0 < c <= |t| && !StartsLine(t, c)
    ensures var a, b, ws := TrimStart(t, c), TrimEnd(t, c), EnterIndentation(t, c);
      var u, i := t[..a] + "\n" + ws + t[b..], a + 1 + |ws|;
      i <= |u| && LeadingWs(u, i) == ws && TabsEnd(u, i) == i
  {
    BreakBetween(t, TrimStart(t, c), TrimEnd(t, c), EnterIndentation(t, c));
  }

  lemma BreakBetween(t: string, a: nat, b: nat, ws: string)
    requires a <= b <= |t| && AllBlank(ws) && (b == |t| || !IsBlank(t[b]))
    ensures var u, i := t[..a] + "\n" + ws + t[b..], a + 1 + |ws|;
      i <= |u| && LeadingWs(u, i) == ws && TabsEnd(u, i) == i
  {
    var q := t[b..];
    assert |q| == 0 || !IsBlank(q[0]) by {
      if |q| > 0 {
        assert q[0] == t[b];
      }
    }
    BreakThenIndent(t[..a], ws, q);
  }

  /** A line break, blanks `ws`, then text that does not start with a blank:
      the blanks are the indentation of the new line and end it. */
  lemma BreakThenIndent(p: string, ws: string, q: string)
    requires AllBlank(ws) && (|q| == 0 || !IsBlank(q[0]))
    ensures var u, i := p + "\n" + ws + q, |p| + 1 + |ws|;
      i <= |u| && LeadingWs(u, i) == ws && TabsEnd(u, i) == i
  {
    var u, i := p + "\n" + ws + q, |p| + 1 + |ws|;
    var a := |p|;
    assert u[a] == '\n';
    assert forall k :: a + 1 <= k < i ==> u[k] == ws[k - a - 1];
    LineStartOfRun(u, a + 1, i);
    assert i == |u| || u[i] == q[0];
    SkipBlanksStopsAt(u, a + 1, i);
    assert u[a + 1..i] == ws;
  }

  // ---------------------------------------------------------------------
  // Tab and Shift-Tab

  /** The walk back from an empty line over the empty lines above it: it
      stops on the nearest line above with text, or at the buffer start. */
  function PrevProbe(t: string, p: nat): (r: nat)
    requires p <= |t|
    ensures r <= p && (r == 0 || !StartsLine(t, r))
    ensures forall k :: r < k <= p ==> StartsLine(t, k)
    decreases p
  {
    if p > 0 && StartsLine(t, p) then PrevProbe(t, p - 1) else p
  }

  /** The walk forward from an empty line over the empty lines below it: it
      stops inside the nearest line below with text, or at the buffer end. */
  function NextProbe(t: string, p: nat): (r: nat)
    requires p <= |t|
    ensures p <= r <= |t| && (r == |t| || !StartsLine(t, r))
    ensures forall k :: p <= k < r ==> StartsLine(t, k)
    decreases |t| - p
  {
    if p < |t| && StartsLine(t, p) then NextProbe(t, p + 1) else p
  }

  /** The shallower of the indentations of the lines the two walks find. */
  function NeighbourIndent(t: string, c: nat): (ws: string)
    requires c <= |t|
    ensures AllBlank(ws)
    ensures |ws| <= |LeadingWs(t, PrevProbe(t, c))| && |ws| <= |LeadingWs(t, NextProbe(t, c))|
    ensures ws == LeadingWs(t, PrevProbe(t, c)) || ws == LeadingWs(t, NextProbe(t, c))
  {
    var prev, next := LeadingWs(t, PrevProbe(t, c)), LeadingWs(t, NextProbe(t, c));
    if |prev| < |next| then prev else next
  }

  /** Tab on an empty line, without a selection, copies the neighbours'
      indentation when that is at least one unit deep. */
  predicate CopiesNeighbourIndent(e: Editor, cfg: Config)
    requires Valid(e)
  {
    !HasSelection(e) && StartsLine(e.text, e.insert) && EndsLine(e.text, e.insert) &&
    |NeighbourIndent(e.text, e.insert)| >= cfg.unit.size
  }

  /** Tab indents the touched lines by one unit. */
  predicate IndentsLines(e: Editor, cfg: Config)
    requires Valid(e)
  {
    (cfg.tabIndentsLine || HasSelection(e)) && !CopiesNeighbourIndent(e, cfg)
  }

  /** Tab. With `tabIndentsLine` off and no selection one unit is typed at
      the cursor. On an empty line the neighbours' indentation may be typed
      instead. Otherwise every touched line gets one unit in front. */
  function Tab(e: Editor, cfg: Config): (r: Outcome)
    requires Valid(e) && ValidUnit(cfg.unit)
    ensures r.Handled?
    ensures !cfg.tabIndentsLine && !HasSelection(e) ==>
      var t, c, tab := e.text, e.insert, TabString(cfg.unit);
      r.after == Editor(t[..c] + tab + t[c..], c + |tab|, c + |tab|)
    ensures (cfg.tabIndentsLine || HasSelection(e)) && CopiesNeighbourIndent(e, cfg) ==>
      var t, c, ws := e.text, e.insert, NeighbourIndent(e.text, e.insert);
      r.after == Editor(t[..c] + ws + t[c..], c + |ws|, c + |ws|)
    ensures IndentsLines(e, cfg) ==> r.after == IndentSelection(e, TabString(cfg.unit))
  {
    var t, c, tab := e.text, e.insert, TabString(cfg.unit);
    if !cfg.tabIndentsLine && !HasSelection(e) then Handled(InsertAtCursor(e, tab))
    else if CopiesNeighbourIndent(e, cfg) then Handled(InsertAtCursor(e, NeighbourIndent(t, c)))
    else Handled(IndentSelection(e, tab))
  }

  /** When Tab copies the neighbours' indentation onto an empty line, that
      becomes the line's indentation and the cursor stands at its end. */
  lemma TabIndentsEmptyLine(e: Editor, cfg: Config)
    requires Valid(e) && ValidUnit(cfg.unit)
    requires (cfg.tabIndentsLine || HasSelection(e)) && CopiesNeighbourIndent(e, cfg)
    ensures var r := Tab(e, cfg).after;
      LeadingWs(r.text, r.insert) == NeighbourIndent(e.text, e.insert) && TabsEnd(r.text, r.insert) == r.insert
  {
    var t, c, ws := e.text, e.insert, NeighbourIndent(e.text, e.insert);
    var r := Tab(e, cfg).after;
    BlanksOnEmptyLine(t, c, ws, r.text, r.insert);
  }

  /** Blanks typed on an empty line become that line's whole indentation. */
  lemma BlanksOnEmptyLine(t: string, c: nat, ws: string, u: string, i: nat)
    requires c <= |t| && StartsLine(t, c) && EndsLine(t, c) && AllBlank(ws)
    requires u == t[..c] + ws + t[c..] && i == c + |ws|
    ensures i <= |u| && LeadingWs(u, i) == ws && TabsEnd(u, i) == i
  {
    var p, q := t[..c], t[c..];
    assert |p| == 0 || p[|p| - 1] == '\n';
    assert |q| == 0 || q[0] == '\n';
    IndentAtLineStart(p, ws, q);
  }

  /** Blanks at a line start, followed by text that does not start with a
      blank, are that line's indentation. */
  lemma IndentAtLineStart(p: string, ws: string, q: string)
    requires (|p| == 0 || p[|p| - 1] == '\n') && AllBlank(ws) && (|q| == 0 || !IsBlank(q[0]))
    ensures var u, i := p + ws + q, |p| + |ws|;
      i <= |u| && LeadingWs(u, i) == ws && TabsEnd(u, i) == i
  {
    var u, i := p + ws + q, |p| + |ws|;
    var a := |p|;
    assert StartsLine(u, a) by {
      if a > 0 {
        assert u[a - 1] == p[a - 1];
      }
    }
    assert forall k :: a <= k < i ==> IsBlank(u[k]) by {
      assert forall k :: a <= k < i ==> u[k] == ws[k - a];
    }
    assert i == |u| || u[i] == q[0];
    BlankRunIsIndent(u, a, i);
    assert u[a..i] == ws;
  }

  /** A run of blanks from a line start up to a non-blank or the buffer end
      is the indentation of its line. */
  lemma BlankRunIsIndent(u: string, a: nat, i: nat)
    requires a <= i <= |u| && StartsLine(u, a)
    requires forall k :: a <= k < i ==> IsBlank(u[k])
    requires i == |u| || !IsBlank(u[i])
    ensures LineStart(u, i) == a && TabsEnd(u, i) == i
  {
    LineStartOfRun(u, a, i);
    SkipBlanksStopsAt(u, a, i);
  }

  /** Shift-Tab: the touched lines lose a common amount of leading blanks,
      at most one unit (see `UnindentSelection`). */
  function ShiftTab(e: Editor, cfg: Config): (r: Outcome)
    requires Valid(e)
    ensures r.Handled? && r.after == UnindentSelection(e, cfg.unit.size)
    ensures |r.after.text| <= |e.text|
  {
    var r := UnindentSelection(e, cfg.unit.size);
    ShiftTabShortens(e, cfg.unit.size);
    Handled(r)
  }

  lemma ShiftTabShortens(e: Editor, size: nat)
    requires Valid(e)
    ensures |UnindentSelection(e, size).text| <= |e.text|
  {
    var ls := Lines(e.text);
    JoinLines(e.text);
    var sp := Touched(e);
    var r := UnindentSelection(e, size);
    if UnindentSteps(ls, sp.lo, sp.hi, size).Some? {
      var ls1 := Lines(r.text);
      JoinLines(r.text);
      JoinShorter(ls1, ls);
    }
  }

  /** Joining lines that are each no longer gives no longer text. */
  lemma {:induction false} JoinShorter(ls1: seq<string>, ls: seq<string>)
    requires |ls1| == |ls| >= 1
    requires forall l :: 0 <= l < |ls| ==> |ls1[l]| <= |ls[l]|
    ensures |Join(ls1)| <= |Join(ls)|
    decreases |ls|
  {
    if |ls| > 1 {
      JoinShorter(ls1[1..], ls[1..]);
    }
  }

  /** Shift-Tab undoes a Tab that indented the touched lines. */
  lemma ShiftTabUndoesTab(e: Editor, cfg: Config)
    requires Valid(e) && ValidUnit(cfg.unit) && cfg.unit.size > 0 && IndentsLines(e, cfg)
    ensures ShiftTab(Tab(e, cfg).after, cfg).after.text == e.text
  {
    var tab := TabString(cfg.unit);
    assert AllBlank(tab);
    UnindentSelectionAfterIndent(e, tab);
  }

  // ---------------------------------------------------------------------
  // Backspace and Delete

  /** The toolkit's own Backspace without a selection: the character before
      the cursor goes. */
  function ToolkitBackspace(e: Editor): (r: Editor)
    requires Valid(e)
  {
    if e.insert > 0 then EraseText(e, e.insert - 1, e.insert) else e
  }

  /** The toolkit's own Delete without a selection: the character under the
      cursor goes. */
  function ToolkitDelete(e: Editor): (r: Editor)
    requires Valid(e)
  {
    if e.insert < |e.text| then EraseText(e, e.insert, e.insert + 1) else e
  }

  /** Backspace without a selection: when all of the line before the cursor
      is blank, it is erased. The toolkit's Backspace runs afterwards. */
  function Backspace(e: Editor): (r: Outcome)
    requires Valid(e) && !HasSelection(e)
    ensures r.PassThrough?
    ensures var t, c := e.text, e.insert;
      var ls := LineStart(t, c);
      if AllBlank(t[ls..c]) then r.after == Editor(t[..ls] + t[c..], ls, ls) else r.after == e
  {
    var t, c := e.text, e.insert;
    var ls := LineStart(t, c);
    if AllBlank(LineBefore(t, c)) && ls < c then PassThrough(EraseText(e, ls, c))
    else
      assert ls == c ==> t[..ls] + t[c..] == t;
      PassThrough(e)
  }

  /** One Backspace inside the indentation of a line joins the line to the
      one above, dropping the blanks before the cursor. */
  lemma BackspaceJoinsLines(e: Editor)
    requires Valid(e) && !HasSelection(e)
    requires AllBlank(LineBefore(e.text, e.insert)) && LineStart(e.text, e.insert) > 0
    ensures var t, c, ls := e.text, e.insert, LineStart(e.text, e.insert);
      t[ls - 1] == '\n' &&
      ToolkitBackspace(Backspace(e).after) == Editor(t[..ls - 1] + t[c..], ls - 1, ls - 1)
  {
    var t, c, ls := e.text, e.insert, LineStart(e.text, e.insert);
    var e1 := Backspace(e).after;
    assert e1 == Editor(t[..ls] + t[c..], ls, ls);
    assert e1.text[..ls - 1] == t[..ls - 1];
    assert e1.text[ls..] == t[c..];
  }

  /** The walk of smart Delete from `j`: over blanks to the line end, then
      over the line break. None when a non-blank comes first, when the line
      break is the last character, or at the buffer end. */
  function DeleteWalk(t: string, j: nat): (r: Option<nat>)
    requires j <= |t|
    ensures r == (var q := TrimEnd(t, j);
      if q == |t| then (if j < |t| then Some(|t|) else None)
      else if t[q] == '\n' && q + 1 < |t| then Some(q + 1)
      else None)
    decreases |t| - j
  {
    if j == |t| then None
    else if t[j] == '\n' then (if j + 1 < |t| then Some(j + 1) else None)
    else if IsBlank(t[j]) then (if j + 1 < |t| then DeleteWalk(t, j + 1) else Some(|t|))
    else None
  }

  /** Where the run smart Delete removes ends: after the line break, and
      after the next line's indentation too unless the cursor is at a line
      start. */
  function DeleteEnd(t: string, c: nat): (k: Option<nat>)
    requires c <= |t|
    ensures k.Some? ==> c < k.value <= |t|
    ensures k.Some? ==> forall i :: c <= i < k.value && i != TrimEnd(t, c) ==> IsBlank(t[i])
  {
    match DeleteWalk(t, c)
    case None => None
    case Some(k0) => if StartsLine(t, c) then Some(k0) else Some(TrimEnd(t, k0))
  }

  /** Delete without a selection: a blank rest of line, its line break and
      (away from a line start) the next line's indentation are erased but
      for their last character, which the toolkit's Delete then removes. */
  function Delete(e: Editor): (r: Outcome)
    requires Valid(e) && !HasSelection(e)
    ensures r.PassThrough?
    ensures var t, c := e.text, e.insert;
      match DeleteEnd(t, c)
      case None => r.after == e
      case Some(k) => r.after == Editor(t[..c] + t[k - 1..], c, c)
  {
    var t, c := e.text, e.insert;
    match DeleteEnd(t, c)
    case None => PassThrough(e)
    case Some(k) => PassThrough(EraseText(e, c, k - 1))
  }

  /** Delete followed by the toolkit's Delete removes the whole run. */
  lemma DeleteRemovesRun(e: Editor)
    requires Valid(e) && !HasSelection(e) && DeleteEnd(e.text, e.insert).Some?
    ensures var t, c, k := e.text, e.insert, DeleteEnd(e.text, e.insert).value;
      ToolkitDelete(Delete(e).after) == Editor(t[..c] + t[k..], c, c)
  {
    var t, c, k := e.text, e.insert, DeleteEnd(e.text, e.insert).value;
    var e1 := Delete(e).after;
    assert e1.text[..c] == t[..c];
    assert e1.text[c + 1..] == t[k..];
  }

  // ---------------------------------------------------------------------
  // Home and End

  /** Smart Home: to the end of the indentation, or to the line start when
      the cursor is already inside or at the end of the indentation. */
  function HomeTarget(t: string, c: nat): (p: nat)
    requires c <= |t|
    ensures p == TabsEnd(t, c) || p == LineStart(t, c)
    ensures LineStart(t, c) <= p <= LineEnd(t, c)
  {
    var ss, ls := TabsEnd(t, c), LineStart(t, c);
    if c > ss || c == ls then ss else ls
  }

  /** Pressing Home again and again alternates between the two targets,
      which coincide exactly when the line is not indented. */
  lemma HomeAlternates(t: string, c: nat)
    requires c <= |t|
    ensures var p := HomeTarget(t, c);
      var q := HomeTarget(t, p);
      HomeTarget(t, q) == p && (q == p <==> TabsEnd(t, c) == LineStart(t, c))
  {
    var p := HomeTarget(t, c);
    SameLine(t, c, p);
    var q := HomeTarget(t, p);
    SameLine(t, c, q);
  }

  /** Where the text of the line holding `c` ends: after its last non-blank
      character, or at the line start when the line is blank. */
  function ContentEnd(t: string, c: nat): (p: nat)
    requires c <= |t|
    ensures LineStart(t, c) <= p <= LineEnd(t, c)
    ensures forall k :: p <= k < LineEnd(t, c) ==> IsBlank(t[k])
    ensures p == LineStart(t, c) || !IsBlank(t[p - 1])
  {
    var ls, el := LineStart(t, c), LineEnd(t, c);
    if el == ls then ls
    else
      var q := BackOverBlanks(t, el - 1);
      if IsBlank(t[q]) then ls else q + 1
  }

  /** The walk of smart End back from the line end over blanks. */
  function EndWalk(t: string, p: nat): (r: nat)
    requires p <= |t|
    ensures r <= p
    ensures StartsLine(t, r) || (!EndsLine(t, r) && !IsBlank(t[r]))
    ensures forall k :: r < k <= p ==> !StartsLine(t, k) && (EndsLine(t, k) || IsBlank(t[k]))
    decreases p
  {
    if !StartsLine(t, p) && (EndsLine(t, p) || IsBlank(t[p])) then EndWalk(t, p - 1) else p
  }

  /** Smart End's idea of the end of the text, as the source computes it:
      one past where the walk stops, unless it stopped at the line start. */
  function ContentEndAsWritten(t: string, c: nat): (p: nat)
    requires c <= |t|
  {
    var p := EndWalk(t, LineEnd(t, c));
    if !EndsLine(t, p) && !StartsLine(t, p) then p + 1 else p
  }

  /** The computation as written agrees with `ContentEnd` except on lines
      whose only non-blank character is in column 0, where it gives the line
      start instead of the column after that character. */
  lemma ContentEndAsWrittenDiffers(t: string, c: nat)
    requires c <= |t|
    ensures ContentEndAsWritten(t, c) ==
      if ContentEnd(t, c) == LineStart(t, c) + 1 then LineStart(t, c) else ContentEnd(t, c)
  {
    var ls, el, ce := LineStart(t, c), LineEnd(t, c), ContentEnd(t, c);
    var w := EndWalk(t, el);
    if w < ls {
      assert false;
    }
    if ce != ls && w < ce - 1 {
      assert false;
    }
  }

  /** A lone `}` on a line: the end of its text is column 1, the source
      computes column 0. */
  lemma LoneBraceEnd()
    ensures ContentEnd("}", 0) == 1 && ContentEndAsWritten("}", 0) == 0
  {
    assert LineEnd("}", 0) == 1 by {
      assert LineEnd("}", 1) == 1;
    }
    assert EndWalk("}", 1) == 0;
  }

  /** Smart End: to the line end, or, from the line end, to the end of the
      line's text. */
  function EndTarget(t: string, c: nat): (p: nat)
    requires c <= |t|
    ensures p == LineEnd(t, c) || p == ContentEnd(t, c)
    ensures LineStart(t, c) <= p <= LineEnd(t, c)
  {
    if c == LineEnd(t, c) then ContentEnd(t, c) else LineEnd(t, c)
  }

  /** Pressing End again and again alternates between the two targets,
      which coincide exactly when the line ends in no blanks. */
  lemma EndAlternates(t: string, c: nat)
    requires c <= |t|
    ensures var p := EndTarget(t, c);
      var q := EndTarget(t, p);
      EndTarget(t, q) == p && (q == p <==> ContentEnd(t, c) == LineEnd(t, c))
  {
    var p := EndTarget(t, c);
    SameLine(t, c, p);
    var q := EndTarget(t, p);
    SameLine(t, c, q);
  }

  /** Home and End move the cursor, or with Shift only the insert mark so the
      selection grows or shrinks. */
  function MoveTo(e: Editor, p: nat, shift: bool): (r: Editor)
    ensures r.text == e.text && r.insert == p
    ensures r.bound == if shift then e.bound else p
  {
    if shift then MoveInsert(e, p) else PlaceCursor(e, p)
  }

  // ---------------------------------------------------------------------
  // Printable characters and the dispatcher

  /** Typing a character replaces the selection, leaving the cursor after it. */
  function TypeCharacter(e: Editor, ch: char): (r: Editor)
    requires Valid(e)
    ensures var a, b := SelStart(e), SelEnd(e);
      r == Editor(e.text[..a] + [ch] + e.text[b..], a + 1, a + 1)
  {
    var e1 := EraseText(e, SelStart(e), SelEnd(e));
    assert e1.insert == SelStart(e) && e1.bound == SelStart(e);
    InsertAtCursor(e1, [ch])
  }

  /** The tail of the handler: printable characters are typed, anything else
      goes to the toolkit untouched. */
  function TypeOrPass(e: Editor, k: Key, afterDeadKey: bool): (r: Outcome)
    requires Valid(e)
    ensures r.Handled? <==> TypesCharacter(k, afterDeadKey)
    ensures r.PassThrough? ==> r.after == e
    ensures r.Handled? ==>
      var a := SelStart(e);
      a < |r.after.text| && r.after.text[a] as nat == Unicode(k.name) && r.after.text[a] != '\n' &&
      r.after.text[..a] == e.text[..a] && r.after.text[a + 1..] == e.text[SelEnd(e)..]
  {
    if TypesCharacter(k, afterDeadKey) then
      TypedCharacterIsPrintable(k, afterDeadKey);
      Handled(TypeCharacter(e, Typed(k.name)))
    else PassThrough(e)
  }

  /** `on_key_press_event_basic`: the key handling of languages without
      brace-specific rules. */
  function BasicKeyPress(e: Editor, k: Key, cfg: Config, afterDeadKey: bool): (r: Outcome)
    requires Valid(e) && ValidUnit(cfg.unit)
    ensures r.PassThrough? && !k.name.BackSpace? && !k.name.DeleteKey? ==> r.after == e
    ensures k.name.Character? || k.name.BraceOpen? || k.name.BraceClose? ==>
      (r.Handled? <==> TypesCharacter(k, afterDeadKey))
    ensures (k.name.HomeKey? || k.name.EndKey?) && !k.control ==> r.Handled? && r.after.text == e.text
  {
    match k.name
    case Return => Enter(e)
    case TabKey => if k.shift then ShiftTab(e, cfg) else Tab(e, cfg)
    case LeftTab => if k.shift then ShiftTab(e, cfg) else TypeOrPass(e, k, afterDeadKey)
    case BackSpace => if HasSelection(e) then TypeOrPass(e, k, afterDeadKey) else Backspace(e)
    case DeleteKey => if HasSelection(e) then TypeOrPass(e, k, afterDeadKey) else Delete(e)
    case EndKey =>
      if k.control then TypeOrPass(e, k, afterDeadKey)
      else Handled(MoveTo(e, EndTarget(e.text, e.insert), k.shift))
    case HomeKey =>
      if k.control then TypeOrPass(e, k, afterDeadKey)
      else Handled(MoveTo(e, HomeTarget(e.text, e.insert), k.shift))
    case _ => TypeOrPass(e, k, afterDeadKey)
  }
}
