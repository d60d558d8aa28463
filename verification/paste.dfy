/** `paste`: the clipboard text has its line breaks normalised to '\n';
    pasted onto a line that holds only blanks, without a selection, its
    lines are re-based: the tab characters every line shares are dropped
    and each later line starts with the blanks of the line pasted onto.
    Anywhere else the toolkit's own paste inserts the normalised text. */
module Paste {
  import opened Text
  import opened Edits

  // ---------------------------------------------------------------------
  // Line breaks

  predicate NoReturn(s: string) {
    forall k :: 0 <= k < |s| ==> s[k] != '\r'
  }

  /** Each "\r\n" and each lone '\r' becomes '\n'. */
  function NormalizeBreaks(s: string): (r: string)
    ensures NoReturn(r)
    ensures |r| <= |s| && (|r| == 0 <==> |s| == 0)
    decreases |s|
  {
    if |s| == 0 then ""
    else if s[0] == '\r' then
      if |s| > 1 && s[1] == '\n' then "\n" + NormalizeBreaks(s[2..])
      else "\n" + NormalizeBreaks(s[1..])
    else [s[0]] + NormalizeBreaks(s[1..])
  }

  /** The characters of `s` other than line-break characters, in order. */
  function Content(s: string): string
    decreases |s|
  {
    if |s| == 0 then ""
    else if s[0] == '\r' || s[0] == '\n' then Content(s[1..])
    else [s[0]] + Content(s[1..])
  }

  /** Normalising changes line-break characters only. */
  lemma {:induction false} NormalizeKeepsContent(s: string)
    ensures Content(NormalizeBreaks(s)) == Content(s)
    decreases |s|
  {
    if |s| > 0 {
      var r := NormalizeBreaks(s);
      if s[0] == '\r' && |s| > 1 && s[1] == '\n' {
        NormalizeKeepsContent(s[2..]);
        assert r[1..] == NormalizeBreaks(s[2..]);
        assert Content(s) == Content(s[1..]);
        assert s[1..][1..] == s[2..];
      } else if s[0] == '\r' {
        NormalizeKeepsContent(s[1..]);
        assert r[1..] == NormalizeBreaks(s[1..]);
      } else {
        NormalizeKeepsContent(s[1..]);
        assert r[1..] == NormalizeBreaks(s[1..]);
      }
    }
  }

  /** Text without '\r' is left as it is. */
  lemma {:induction false} NormalizeWithoutReturns(s: string)
    requires NoReturn(s)
    ensures NormalizeBreaks(s) == s
    decreases |s|
  {
    if |s| > 0 {
      assert NoReturn(s[1..]) by {
        forall k | 0 <= k < |s[1..]| ensures s[1..][k] != '\r' {
          assert s[1..][k] == s[k + 1];
        }
      }
      NormalizeWithoutReturns(s[1..]);
      assert [s[0]] + s[1..] == s;
    }
  }

  /** Normalising twice is normalising once. */
  lemma NormalizeIdempotent(s: string)
    ensures NormalizeBreaks(NormalizeBreaks(s)) == NormalizeBreaks(s)
  {
    NormalizeWithoutReturns(NormalizeBreaks(s));
  }

  // ---------------------------------------------------------------------
  // The pasted lines

  /** The lines the paste loops visit: the pieces between '\n's, where a
      '\n' at the very end closes the last line rather than opening an
      empty one. Empty text has no lines. */
  function PasteLines(s: string): (ls: seq<string>)
    ensures |ls| == 0 <==> |s| == 0
    ensures forall j :: 0 <= j < |ls| ==> NoNewline(ls[j])
  {
    if |s| == 0 then []
    else if s[|s| - 1] == '\n' then Lines(s[..|s| - 1])
    else Lines(s)
  }

  /** Joining the lines back, and the closing '\n' if there was one, gives
      the text again. */
  lemma PasteLinesJoin(s: string)
    requires |s| > 0
    ensures Join(PasteLines(s)) + (if s[|s| - 1] == '\n' then "\n" else "") == s
  {
    if s[|s| - 1] == '\n' {
      JoinLines(s[..|s| - 1]);
      assert s[..|s| - 1] + "\n" == s;
    } else {
      JoinLines(s);
    }
  }

  /** The loop over the text as the source writes it: a line ends at each
      '\n', and at the last character when that is not a '\n'. */
  method ScanLines(s: string) returns (ls: seq<string>)
    ensures ls == PasteLines(s)
  {
    ls := [];
    var start, c := 0, 0;
    while c < |s|
      invariant c <= |s| && start <= c + 1
      invariant start <= c ==> NoNewline(s[start..c]) && ls + PasteLines(s[start..]) == PasteLines(s)
      invariant start == c + 1 ==> c == |s| && ls == PasteLines(s)
      invariant start < c ==> c < |s|
      decreases |s| - c
    {
      if s[c] == '\n' {
        LineAtBreak(s, start, c, ls);
        ls := ls + [s[start..c]];
        start := c + 1;
      } else if c == |s| - 1 {
        LineAtEnd(s, start, ls);
        ls := ls + [s[start..]];
        start := c + 2;
      } else {
        LineGoesOn(s, start, c);
      }
      c := c + 1;
    }
    if start <= c {
      assert s[start..] == "";
      assert ls + PasteLines("") == ls;
    }
  }

  /** The loop's step at any other character: the line goes on. */
  lemma LineGoesOn(s: string, start: nat, c: nat)
    requires start <= c < |s| && s[c] != '\n' && NoNewline(s[start..c])
    ensures NoNewline(s[start..c + 1])
  {
    assert s[start..c + 1] == s[start..c] + [s[c]];
  }

  /** The loop's step at a '\n': the line from `start` is complete. */
  lemma LineAtBreak(s: string, start: nat, c: nat, ls: seq<string>)
    requires start <= c < |s| && s[c] == '\n' && NoNewline(s[start..c])
    requires ls + PasteLines(s[start..]) == PasteLines(s)
    ensures (ls + [s[start..c]]) + PasteLines(s[c + 1..]) == PasteLines(s)
    ensures NoNewline(s[c + 1..c + 1])
  {
    var u, x, w := s[start..], s[start..c], s[c + 1..];
    assert u[..c - start] == x && u[c - start + 1..] == w;
    LineThenRest(u, c - start, x, w);
    var rest := PasteLines(w);
    assert ls + ([x] + rest) == (ls + [x]) + rest;
  }

  /** The loop's step at a last character that is not '\n'. */
  lemma LineAtEnd(s: string, start: nat, ls: seq<string>)
    requires start < |s| && s[|s| - 1] != '\n' && NoNewline(s[start..|s| - 1])
    requires ls + PasteLines(s[start..]) == PasteLines(s)
    ensures ls + [s[start..]] == PasteLines(s)
  {
    assert s[start..] == s[start..|s| - 1] + [s[|s| - 1]];
    LastLine(s[start..]);
  }

  /** A line ended by '\n' is the first line of a piece of text. */
  lemma LineThenRest(u: string, k: nat, x: string, w: string)
    requires k < |u| && u[k] == '\n' && x == u[..k] && w == u[k + 1..] && NoNewline(x)
    ensures PasteLines(u) == [x] + PasteLines(w)
  {
    if |w| == 0 {
      assert u[..|u| - 1] == x;
      LinesOfLine(x);
    } else if w[|w| - 1] == '\n' {
      assert u[..|u| - 1] == x + "\n" + w[..|w| - 1];
      LinesOfLineThen(x, w[..|w| - 1]);
    } else {
      assert u == x + "\n" + w;
      LinesOfLineThen(x, w);
    }
  }

  /** Text without '\n' is one line. */
  lemma LastLine(u: string)
    requires |u| > 0 && NoNewline(u)
    ensures PasteLines(u) == [u]
  {
    LinesOfLine(u);
  }

  // ---------------------------------------------------------------------
  // Re-basing

  /** A line holding nothing but tab characters counts as empty. */
  predicate OnlyTabs(line: string, ch: char) {
    CountLeading(line, ch) == |line|
  }

  function MinOpt(acc: Option<nat>, n: nat): nat {
    match acc
    case None => n
    case Some(m) => Min(m, n)
  }

  /** The running minimum of the first loop: `acc` lowered to the tab count
      of every line of `ls` that is not empty. */
  function LeastTabs(ls: seq<string>, ch: char, acc: Option<nat>): (m: Option<nat>)
    ensures m.None? <==> acc.None? && forall j :: 0 <= j < |ls| ==> OnlyTabs(ls[j], ch)
    ensures m.Some? && acc.Some? ==> m.value <= acc.value
    ensures forall j :: 0 <= j < |ls| && !OnlyTabs(ls[j], ch) ==> m.Some? && m.value <= CountLeading(ls[j], ch)
    ensures m.Some? ==>
      (acc.Some? && m.value == acc.value) ||
      (exists j :: 0 <= j < |ls| && !OnlyTabs(ls[j], ch) && m.value == CountLeading(ls[j], ch))
    decreases |ls|
  {
    if |ls| == 0 then acc
    else
      var acc' := if OnlyTabs(ls[0], ch) then acc else Some(MinOpt(acc, CountLeading(ls[0], ch)));
      var m := LeastTabs(ls[1..], ch, acc');
      assert forall j :: 1 <= j < |ls| ==> ls[j] == ls[1..][j - 1];
      assert m.Some? ==>
        (acc'.Some? && m.value == acc'.value) ||
        (exists j :: 1 <= j < |ls| && !OnlyTabs(ls[j], ch) && m.value == CountLeading(ls[j], ch)) by {
        if m.Some? && !(acc'.Some? && m.value == acc'.value) {
          var j :| 0 <= j < |ls[1..]| && !OnlyTabs(ls[1..][j], ch) && m.value == CountLeading(ls[1..][j], ch);
          assert ls[1..][j] == ls[j + 1];
        }
      }
      m
  }

  /** `paste_line_tabs`: how many leading tab characters every line loses
      at most. The first line's count seeds it when it is not 0, and every
      later line that is not empty lowers it; 0 when nothing set it. */
  function BaseTabs(ls: seq<string>, ch: char): (m: nat)
    requires |ls| > 0
    ensures CountLeading(ls[0], ch) != 0 ==> m <= CountLeading(ls[0], ch)
    ensures forall j :: 1 <= j < |ls| && !OnlyTabs(ls[j], ch) ==> m <= CountLeading(ls[j], ch)
    ensures m == 0 || m == CountLeading(ls[0], ch) ||
      exists j :: 1 <= j < |ls| && !OnlyTabs(ls[j], ch) && m == CountLeading(ls[j], ch)
  {
    var first := CountLeading(ls[0], ch);
    var m := LeastTabs(ls[1..], ch, if first != 0 then Some(first) else None);
    assert forall j :: 1 <= j < |ls| ==> ls[j] == ls[1..][j - 1];
    assert m.Some? ==>
      (first != 0 && m.value == first) ||
      (exists j :: 1 <= j < |ls| && !OnlyTabs(ls[j], ch) && m.value == CountLeading(ls[j], ch)) by {
      if m.Some? && !(first != 0 && m.value == first) {
        var j :| 0 <= j < |ls[1..]| && !OnlyTabs(ls[1..][j], ch) && m.value == CountLeading(ls[1..][j], ch);
        assert ls[1..][j] == ls[j + 1];
      }
    }
    match m
    case None => 0
    case Some(n) => n
  }

  /** A line without its first `m` tab characters (fewer when it has
      fewer). */
  function Strip(line: string, ch: char, m: nat): string {
    line[Min(CountLeading(line, ch), m)..]
  }

  /** Stripping loses tab characters only, and lowers the tab count by the
      number lost. */
  lemma StripLosesTabs(line: string, ch: char, m: nat)
    ensures var k := Min(CountLeading(line, ch), m);
      Repeat(ch, k) + Strip(line, ch, m) == line &&
      CountLeading(Strip(line, ch, m), ch) == CountLeading(line, ch) - k
  {
    var n, k := CountLeading(line, ch), Min(CountLeading(line, ch), m);
    var rest := line[k..];
    assert Repeat(ch, k) == line[..k];
    assert line[..k] + rest == line;
    DropLeading(line, ch, k);
  }

  lemma {:induction false} DropLeading(s: string, c: char, k: nat)
    requires k <= CountLeading(s, c)
    ensures CountLeading(s[k..], c) == CountLeading(s, c) - k
    decreases k
  {
    if k > 0 {
      assert s[1..][k - 1..] == s[k..];
      DropLeading(s[1..], c, k - 1);
    }
  }

  /** The lines as the second loop inserts them: the first loses its tab
      characters up to `m` when it has any and stays whole otherwise; each
      later line loses up to `m` and is put after `prefix`. */
  function Rebase(ls: seq<string>, ch: char, prefix: string): (out: seq<string>)
    requires |ls| > 0
    ensures |out| == |ls|
  {
    var m := BaseTabs(ls, ch);
    [if CountLeading(ls[0], ch) != 0 then Strip(ls[0], ch, m) else ls[0]] +
      seq(|ls| - 1, j requires 0 <= j < |ls| - 1 => prefix + Strip(ls[j + 1], ch, m))
  }

  /** The text the loop inserts, piece after piece: the first line, then
      for each later line '\n' and that line. */
  function Pasted(ls: seq<string>, ch: char, prefix: string): string {
    if |ls| == 0 then "" else Join(Rebase(ls, ch, prefix))
  }

  /** The inserted text has the re-based lines as its lines. */
  lemma PastedLines(ls: seq<string>, ch: char, prefix: string)
    requires |ls| > 0 && NoNewline(prefix)
    requires forall j :: 0 <= j < |ls| ==> NoNewline(ls[j])
    ensures Lines(Pasted(ls, ch, prefix)) == Rebase(ls, ch, prefix)
  {
    var out := Rebase(ls, ch, prefix);
    forall j | 0 <= j < |out| ensures NoNewline(out[j]) {
      if j > 0 {
        var m := BaseTabs(ls, ch);
        var k := Min(CountLeading(ls[j], ch), m);
        assert out[j] == prefix + ls[j][k..];
      }
    }
    LinesJoin(out);
  }

  /** Re-basing keeps every later line's indentation relative to the least
      indented one: a later line that is not empty starts, after the
      prefix, with its own tab count less the common one, and keeps the
      rest of its characters. */
  lemma RebaseKeepsRelativeIndent(ls: seq<string>, ch: char, prefix: string, j: nat)
    requires 0 < j < |ls| && !OnlyTabs(ls[j], ch)
    ensures var out, m := Rebase(ls, ch, prefix), BaseTabs(ls, ch);
      out[j][..|prefix|] == prefix &&
      Repeat(ch, m) + out[j][|prefix|..] == ls[j] &&
      CountLeading(out[j][|prefix|..], ch) == CountLeading(ls[j], ch) - m
  {
    var m := BaseTabs(ls, ch);
    var out := Rebase(ls, ch, prefix);
    assert out[j] == prefix + Strip(ls[j], ch, m);
    assert out[j][|prefix|..] == Strip(ls[j], ch, m);
    StripLosesTabs(ls[j], ch, m);
  }

  /** Unless the first line seeds the common count or no later line counts,
      some later line ends up with no tab characters after the prefix: the
      least indented line is put exactly at the prefix. */
  lemma RebaseLeastAtPrefix(ls: seq<string>, ch: char, prefix: string)
    requires |ls| > 0
    requires BaseTabs(ls, ch) != 0 && BaseTabs(ls, ch) != CountLeading(ls[0], ch)
    ensures exists j ::
      0 < j < |ls| && !OnlyTabs(ls[j], ch) && CountLeading(Rebase(ls, ch, prefix)[j][|prefix|..], ch) == 0
  {
    var m := BaseTabs(ls, ch);
    var j :| 1 <= j < |ls| && !OnlyTabs(ls[j], ch) && m == CountLeading(ls[j], ch);
    RebaseKeepsRelativeIndent(ls, ch, prefix, j);
  }

  // ---------------------------------------------------------------------
  // The paste command

  /** Re-based text inserted at the cursor, or the normalised text handed
      to the toolkit's own paste. */
  datatype PasteResult = Rebased(after: Editor) | Default(text: string)

  /** The cursor's line holds only blanks and there is no selection. */
  predicate RebasesAt(e: Editor)
    requires Valid(e)
  {
    !HasSelection(e) && TabsEnd(e.text, e.insert) == LineEnd(e.text, e.insert)
  }

  /** `paste`, with the clipboard's text `clip` and the tab character `ch`. */
  function PasteText(e: Editor, clip: string, ch: char): (r: PasteResult)
    requires Valid(e)
    ensures r.Default? <==> !RebasesAt(e)
    ensures r.Default? ==> NoReturn(r.text) && Content(r.text) == Content(clip)
    ensures r.Rebased? ==> Valid(r.after) && !HasSelection(r.after)
  {
    var text := NormalizeBreaks(clip);
    NormalizeKeepsContent(clip);
    if RebasesAt(e) then
      var prefix := LeadingWs(e.text, e.insert);
      var r := InsertAtCursor(e, Pasted(PasteLines(text), ch, prefix));
      Rebased(PlaceCursor(r, r.insert))
    else Default(text)
  }

  /** A re-based paste keeps the text around the cursor, leaves the cursor
      after the inserted text, and inserts exactly the re-based lines of
      the normalised clipboard text, each later one after the blanks of the
      line pasted onto. */
  lemma PasteRebases(e: Editor, clip: string, ch: char)
    requires Valid(e) && RebasesAt(e) && |clip| > 0
    ensures var r, c := PasteText(e, clip, ch).after, e.insert;
      var ls := PasteLines(NormalizeBreaks(clip));
      c <= r.insert <= |r.text| &&
      r.text[..c] == e.text[..c] && r.text[r.insert..] == e.text[c..] &&
      Lines(r.text[c..r.insert]) == Rebase(ls, ch, LeadingWs(e.text, e.insert))
  {
    var t, c := e.text, e.insert;
    var text := NormalizeBreaks(clip);
    var ls := PasteLines(text);
    var prefix := LeadingWs(t, c);
    assert NoNewline(prefix);
    var p := Pasted(ls, ch, prefix);
    var r := PasteText(e, clip, ch).after;
    assert r.text == t[..c] + p + t[c..] && r.insert == c + |p|;
    assert r.text[c..r.insert] == p;
    PastedLines(ls, ch, prefix);
  }
}
