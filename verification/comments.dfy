/** `toggle_comments`: over the lines a selection touches, line comments
    are added when some line holding code lacks one, and removed when every
    such line has one. Lines of blanks are left alone. Comments go in at the
    smallest indentation of the lines, as the prefix and a space; removing
    takes the prefix and, when every line has it, the space after it. */
module Comments {
  import opened Text
  import opened Edits
  import opened Settings
  import opened LineIndent

  // ---------------------------------------------------------------------
  // One line

  /** A line holding something other than blanks. */
  predicate HasCode(line: string) {
    Indentation(line) < |line|
  }

  /** The prefix `p` follows at column `i`. */
  predicate PrefixAt(line: string, i: nat, p: string) {
    i + |p| <= |line| && line[i..i + |p|] == p
  }

  /** A line of code whose first non-blank characters are the prefix. */
  predicate Commented(line: string, p: string) {
    HasCode(line) && PrefixAt(line, Indentation(line), p)
  }

  /** A commented line with a space right after the prefix; the line end is
      not one. */
  predicate SpaceAfter(line: string, p: string) {
    Commented(line, p) && Indentation(line) + |p| < |line| && line[Indentation(line) + |p|] == ' '
  }

  lemma HasCodeNotBlank(line: string)
    ensures HasCode(line) <==> !AllBlank(line)
  {
    var n := Indentation(line);
    if n == |line| {
      assert line[..n] == line;
    }
  }

  /** What the scan of a line finds: nothing but blanks, or code at
      `indent` that may start with the prefix, and then with a space. */
  datatype LineScan = Blank | Code(indent: nat, commented: bool, extraSpace: bool)

  /** The scan of one line in the first loop of `toggle_comments`: blanks
      are counted until the first other character, where the prefix is
      compared a character at a time, stopping at the line end. */
  method ScanLine(line: string, p: string) returns (k: LineScan)
    requires ValidPrefix(p)
    ensures k.Blank? <==> !HasCode(line)
    ensures k.Code? ==>
      k.indent == Indentation(line) && (k.commented <==> Commented(line, p)) && (k.extraSpace <==> SpaceAfter(line, p))
  {
    var i := 0;
    while i < |line| && IsBlank(line[i])
      invariant i <= |line| && AllBlank(line[..i])
    {
      assert line[..i + 1] == line[..i] + [line[i]];
      i := i + 1;
    }
    IndentationIs(line, i);
    if i == |line| {
      return Blank;
    }
    var c := 0;
    while c < |p| && i + c < |line| && line[i + c] == p[c]
      invariant c <= |p| && i + c <= |line| && line[i..i + c] == p[..c]
    {
      assert line[i..i + c + 1] == line[i..i + c] + [line[i + c]];
      c := c + 1;
    }
    var commented := c == |p|;
    if !commented {
      NoPrefixAt(line, i, p, c);
    }
    k := Code(i, commented, commented && i + |p| < |line| && line[i + |p|] == ' ');
  }

  /** A mismatch, or the line end, before the whole prefix was seen. */
  lemma NoPrefixAt(line: string, i: nat, p: string, c: nat)
    requires c < |p| && i + c <= |line|
    requires i + c == |line| || line[i + c] != p[c]
    ensures !PrefixAt(line, i, p)
  {
    if i + |p| <= |line| {
      assert line[i..i + |p|][c] == line[i + c];
    }
  }

  /** The indentation of a line is where its leading blanks stop. */
  lemma IndentationIs(s: string, k: nat)
    requires k <= |s| && AllBlank(s[..k]) && (k == |s| || !IsBlank(s[k]))
    ensures Indentation(s) == k
    decreases k
  {
    if k > 0 {
      assert s[1..][..k - 1] == s[..k][1..];
      IndentationIs(s[1..], k - 1);
      assert s[..k][0] == s[0];
    }
  }

  // ---------------------------------------------------------------------
  // The lines of the span

  /** Every line of the span holding code starts with the prefix. */
  predicate AllCommented(ls: seq<string>, sp: Span, p: string)
    requires sp.hi <= |ls|
  {
    forall l :: sp.lo <= l < sp.hi && HasCode(ls[l]) ==> Commented(ls[l], p)
  }

  /** Every line of the span holding code has a space after the prefix. */
  predicate AllExtra(ls: seq<string>, sp: Span, p: string)
    requires sp.hi <= |ls|
  {
    forall l :: sp.lo <= l < sp.hi && HasCode(ls[l]) ==> SpaceAfter(ls[l], p)
  }

  /** `min_indentation` over the lines `lo .. hi`: None when none of them
      holds code. */
  function MinIndent(ls: seq<string>, lo: nat, hi: nat): (m: Option<nat>)
    requires lo <= hi <= |ls|
    ensures m.None? <==> forall l :: lo <= l < hi ==> !HasCode(ls[l])
    ensures m.Some? ==> forall l :: lo <= l < hi && HasCode(ls[l]) ==> m.value <= Indentation(ls[l])
    ensures m.Some? ==> exists l :: lo <= l < hi && HasCode(ls[l]) && m.value == Indentation(ls[l])
    decreases hi - lo
  {
    if lo == hi then None
    else
      var rest := MinIndent(ls, lo + 1, hi);
      if !HasCode(ls[lo]) then rest
      else
        match rest
        case None => Some(Indentation(ls[lo]))
        case Some(m) => Some(Min(m, Indentation(ls[lo])))
  }

  /** Which way the toggle goes: comment every touched line of code, or
      take `width` characters off each, the prefix and maybe a space. */
  datatype Toggle = Comment | Uncomment(width: nat)

  /** Lines are uncommented when every touched line of code is commented,
      the space after the prefix too when every such line has one. */
  function Decide(ls: seq<string>, sp: Span, p: string): Toggle
    requires sp.hi <= |ls|
  {
    if AllCommented(ls, sp, p) then Uncomment(|p| + if AllExtra(ls, sp, p) then 1 else 0) else Comment
  }

  /** The edits of a toggle fit the lines of code they go into. */
  predicate Fitting(ls: seq<string>, sp: Span, m: nat, how: Toggle)
    requires sp.hi <= |ls|
  {
    forall l :: sp.lo <= l < sp.hi && HasCode(ls[l]) ==>
      match how
      case Comment => m <= |ls[l]|
      case Uncomment(w) => Indentation(ls[l]) + w <= |ls[l]|
  }

  /** The edit of each line: a touched line of code gets the prefix and a
      space at the smallest indentation `m`, or loses `width` characters
      right after its own indentation; every other line is kept. */
  function ToggleEdits(ls: seq<string>, sp: Span, p: string, m: nat, how: Toggle): (eds: seq<LineEdit>)
    requires sp.lo <= sp.hi <= |ls| && NoNewline(p) && Fitting(ls, sp, m, how)
    ensures AllFit(ls, eds)
  {
    seq(|ls|, l requires 0 <= l < |ls| =>
      if sp.lo <= l < sp.hi && HasCode(ls[l]) then
        match how
        case Comment => InsertAt(m, p + " ")
        case Uncomment(w) => EraseAt(Indentation(ls[l]), Indentation(ls[l]) + w)
      else Keep)
  }

  /** The edit `ToggleEdits` gives line `l`. */
  lemma EditOf(ls: seq<string>, sp: Span, p: string, m: nat, how: Toggle, l: nat)
    requires sp.lo <= sp.hi <= |ls| && NoNewline(p) && Fitting(ls, sp, m, how) && l < |ls|
    ensures var ed := ToggleEdits(ls, sp, p, m, how)[l];
      if sp.lo <= l < sp.hi && HasCode(ls[l]) then
        (how == Comment ==> ed == InsertAt(m, p + " ")) &&
        (how.Uncomment? ==> ed == EraseAt(Indentation(ls[l]), Indentation(ls[l]) + how.width))
      else ed == Keep
  {
  }

  /** Commenting at the smallest indentation fits, and so does the way
      `Decide` picks. */
  lemma DecidedFits(ls: seq<string>, sp: Span, p: string, m: nat)
    requires sp.lo <= sp.hi <= |ls| && MinIndent(ls, sp.lo, sp.hi) == Some(m)
    ensures Fitting(ls, sp, m, Comment) && Fitting(ls, sp, m, Decide(ls, sp, p))
  {
    forall l | sp.lo <= l < sp.hi && HasCode(ls[l]) && AllCommented(ls, sp, p)
      ensures Indentation(ls[l]) + Decide(ls, sp, p).width <= |ls[l]|
    {
      assert Commented(ls[l], p);
      assert AllExtra(ls, sp, p) ==> SpaceAfter(ls[l], p);
    }
  }

  /** The lines after `toggle_comments` over the span. */
  function Toggled(ls: seq<string>, sp: Span, p: string): (r: seq<string>)
    requires sp.lo <= sp.hi <= |ls| && ValidPrefix(p)
    ensures |r| == |ls|
  {
    match MinIndent(ls, sp.lo, sp.hi)
    case None => ls
    case Some(m) =>
      DecidedFits(ls, sp, p, m);
      ApplyEdits(ls, ToggleEdits(ls, sp, p, m, Decide(ls, sp, p)))
  }

  /** Uncommenting takes the prefix, and the space after it when every
      line has one, off right after each touched line's indentation. */
  /** Each touched line of code in `ls` starts, after its indentation, with
      `p` and has `w` characters there removed in `ls1`; the rest is equal. */
  predicate Uncommented(ls: seq<string>, sp: Span, p: string, w: nat, ls1: seq<string>)
    requires |ls1| == |ls|
  {
    forall l :: 0 <= l < |ls| ==>
      if sp.lo <= l < sp.hi && HasCode(ls[l]) then
        var ind := Indentation(ls[l]);
        |p| <= w && ind + w <= |ls[l]| && ls[l][ind..ind + |p|] == p && ls1[l] == ls[l][..ind] + ls[l][ind + w..]
      else ls1[l] == ls[l]
  }

  lemma UncommentLines(ls: seq<string>, sp: Span, p: string, m: nat, w: nat, ls1: seq<string>)
    requires sp.lo <= sp.hi <= |ls| && ValidPrefix(p)
    requires Decide(ls, sp, p) == Uncomment(w) && Fitting(ls, sp, m, Uncomment(w))
    requires ls1 == ApplyEdits(ls, ToggleEdits(ls, sp, p, m, Uncomment(w)))
    ensures AllCommented(ls, sp, p) && w == |p| + if AllExtra(ls, sp, p) then 1 else 0
    ensures Uncommented(ls, sp, p, w, ls1)
  {
    var eds := ToggleEdits(ls, sp, p, m, Uncomment(w));
    forall l | 0 <= l < |ls|
      ensures if sp.lo <= l < sp.hi && HasCode(ls[l]) then
          var ind := Indentation(ls[l]);
          |p| <= w && ind + w <= |ls[l]| && ls[l][ind..ind + |p|] == p && ls1[l] == ls[l][..ind] + ls[l][ind + w..]
        else ls1[l] == ls[l]
    {
      if sp.lo <= l < sp.hi && HasCode(ls[l]) {
        UncommentedLine(ls[l], p, w, eds[l], ls1[l]);
      } else {
        assert eds[l] == Keep;
      }
    }
  }

  /** One commented line losing `w` characters after its indentation. */
  lemma UncommentedLine(line: string, p: string, w: nat, ed: LineEdit, line1: string)
    requires Commented(line, p) && (w == |p| || (w == |p| + 1 && SpaceAfter(line, p)))
    requires ed == EraseAt(Indentation(line), Indentation(line) + w) && Fits(line, ed) && line1 == ApplyEdit(line, ed)
    ensures var ind := Indentation(line);
      ind + w <= |line| && line[ind..ind + |p|] == p && line1 == line[..ind] + line[ind + w..]
  {
  }

  // ---------------------------------------------------------------------
  // Commenting, then toggling again

  /** Where the three parts of a concatenation lie. */
  lemma Pieces(u: string, a: string, b: string, c: string)
    requires u == a + b + c
    ensures u[..|a|] == a && u[|a|..|a| + |b|] == b && u[|a| + |b|..] == c
  {
  }

  /** A line of code commented at `m`, no further in than its indentation,
      has its code at `m`, starting with the prefix and a space; taking them
      off again gives the line back. */
  lemma CommentedLine(line: string, m: nat, p: string, line1: string)
    requires ValidPrefix(p) && HasCode(line) && m <= Indentation(line)
    requires line1 == line[..m] + (p + " ") + line[m..]
    ensures Indentation(line1) == m && SpaceAfter(line1, p)
    ensures line1[..m] + line1[m + |p| + 1..] == line
  {
    var a, b, c := line[..m], p + " ", line[m..];
    Pieces(line1, a, b, c);
    assert AllBlank(a) by {
      assert a == line[..Indentation(line)][..m];
    }
    assert line1[m] == b[0] == p[0] by {
      assert line1[m] == line1[m..m + |b|][0];
    }
    IndentationIs(line1, m);
    assert line1[m..m + |p|] == p by {
      assert line1[m..m + |p|] == line1[m..m + |b|][..|p|];
    }
    assert line1[m + |p|] == ' ' by {
      assert line1[m + |p|] == line1[m..m + |b|][|p|];
    }
    assert a + c == line;
  }

  /** Each touched line of code gets the prefix and a space at `m`, which
      is then where its code starts; every other line is kept. */
  lemma CommentedLines(ls: seq<string>, sp: Span, p: string, m: nat, ls1: seq<string>)
    requires sp.lo <= sp.hi <= |ls| && ValidPrefix(p)
    requires forall l :: sp.lo <= l < sp.hi && HasCode(ls[l]) ==> m <= Indentation(ls[l])
    requires Fitting(ls, sp, m, Comment)
    requires ls1 == ApplyEdits(ls, ToggleEdits(ls, sp, p, m, Comment))
    ensures forall l :: 0 <= l < |ls| ==>
      if sp.lo <= l < sp.hi && HasCode(ls[l]) then
        ls1[l] == ls[l][..m] + (p + " ") + ls[l][m..] && Indentation(ls1[l]) == m && SpaceAfter(ls1[l], p)
      else ls1[l] == ls[l]
  {
    var eds := ToggleEdits(ls, sp, p, m, Comment);
    forall l | 0 <= l < |ls|
      ensures if sp.lo <= l < sp.hi && HasCode(ls[l]) then
          ls1[l] == ls[l][..m] + (p + " ") + ls[l][m..] && Indentation(ls1[l]) == m && SpaceAfter(ls1[l], p)
        else ls1[l] == ls[l]
    {
      if sp.lo <= l < sp.hi && HasCode(ls[l]) {
        assert eds[l] == InsertAt(m, p + " ");
        CommentedLine(ls[l], m, p, ls1[l]);
      } else {
        assert eds[l] == Keep;
      }
    }
  }

  /** After commenting, every touched line of code is commented with the
      space, and the smallest indentation is still `m`. */
  lemma CommentedSpan(ls: seq<string>, ls1: seq<string>, sp: Span, p: string, m: nat)
    requires sp.lo <= sp.hi <= |ls| == |ls1| && MinIndent(ls, sp.lo, sp.hi) == Some(m)
    requires forall l :: 0 <= l < |ls| ==>
      if sp.lo <= l < sp.hi && HasCode(ls[l]) then Indentation(ls1[l]) == m && SpaceAfter(ls1[l], p)
      else ls1[l] == ls[l]
    ensures AllCommented(ls1, sp, p) && AllExtra(ls1, sp, p) && MinIndent(ls1, sp.lo, sp.hi) == Some(m)
  {
    ExtraSpan(ls, ls1, sp, p, m);
    var l0 :| sp.lo <= l0 < sp.hi && HasCode(ls[l0]) && m == Indentation(ls[l0]);
    SameMinIndent(ls, ls1, sp.lo, sp.hi, p, m, l0);
  }

  lemma ExtraSpan(ls: seq<string>, ls1: seq<string>, sp: Span, p: string, m: nat)
    requires sp.lo <= sp.hi <= |ls| == |ls1|
    requires forall l :: 0 <= l < |ls| ==>
      if sp.lo <= l < sp.hi && HasCode(ls[l]) then Indentation(ls1[l]) == m && SpaceAfter(ls1[l], p)
      else ls1[l] == ls[l]
    ensures AllCommented(ls1, sp, p) && AllExtra(ls1, sp, p)
  {
    forall l | sp.lo <= l < sp.hi && HasCode(ls1[l])
      ensures SpaceAfter(ls1[l], p)
    {
    }
  }

  /** The smallest indentation after commenting: every code line is at `m`. */
  lemma SameMinIndent(ls: seq<string>, ls1: seq<string>, lo: nat, hi: nat, p: string, m: nat, l0: nat)
    requires lo <= l0 < hi <= |ls| == |ls1| && HasCode(ls[l0])
    requires forall l :: lo <= l < hi && !HasCode(ls[l]) ==> ls1[l] == ls[l]
    requires forall l :: lo <= l < hi && HasCode(ls[l]) ==> SpaceAfter(ls1[l], p) && Indentation(ls1[l]) == m
    ensures MinIndent(ls1, lo, hi) == Some(m)
  {
    var r := MinIndent(ls1, lo, hi);
    assert HasCode(ls1[l0]);
    var l1 :| lo <= l1 < hi && HasCode(ls1[l1]) && r.value == Indentation(ls1[l1]);
    assert HasCode(ls[l1]);
  }

  /** A span not all commented gets commented: the prefix and a space go
      into each touched line of code at the smallest indentation `m`; then
      every such line is commented, with the space, `m` is still the
      smallest indentation, and the next toggle takes the prefix and the
      space off. */
  lemma CommentLines(ls: seq<string>, sp: Span, p: string, m: nat, ls1: seq<string>)
    requires sp.lo <= sp.hi <= |ls| && ValidPrefix(p) && !AllCommented(ls, sp, p)
    requires MinIndent(ls, sp.lo, sp.hi) == Some(m) && Fitting(ls, sp, m, Comment)
    requires ls1 == ApplyEdits(ls, ToggleEdits(ls, sp, p, m, Comment))
    ensures MinIndent(ls1, sp.lo, sp.hi) == Some(m) && Decide(ls1, sp, p) == Uncomment(|p| + 1)
    ensures forall l :: 0 <= l < |ls| ==>
      if sp.lo <= l < sp.hi && HasCode(ls[l]) then ls1[l] == ls[l][..m] + (p + " ") + ls[l][m..]
      else ls1[l] == ls[l]
  {
    CommentedLines(ls, sp, p, m, ls1);
    CommentedSpan(ls, ls1, sp, p, m);
  }

  /** Toggling a span that was not all commented, then toggling it again,
      gives the original lines back. */
  lemma ToggleTwiceLines(ls: seq<string>, sp: Span, p: string)
    requires sp.lo <= sp.hi <= |ls| && ValidPrefix(p) && !AllCommented(ls, sp, p)
    requires MinIndent(ls, sp.lo, sp.hi).Some?
    ensures Toggled(Toggled(ls, sp, p), sp, p) == ls
  {
    var m := MinIndent(ls, sp.lo, sp.hi).value;
    DecidedFits(ls, sp, p, m);
    var ls1 := ApplyEdits(ls, ToggleEdits(ls, sp, p, m, Comment));
    assert Toggled(ls, sp, p) == ls1;
    CommentLines(ls, sp, p, m, ls1);
    DecidedFits(ls1, sp, p, m);
    var ls2 := ApplyEdits(ls1, ToggleEdits(ls1, sp, p, m, Uncomment(|p| + 1)));
    assert Toggled(ls1, sp, p) == ls2;
    CommentThenUncomment(ls, ls1, ls2, sp, p, m);
  }

  lemma CommentThenUncomment(ls: seq<string>, ls1: seq<string>, ls2: seq<string>, sp: Span, p: string, m: nat)
    requires sp.lo <= sp.hi <= |ls| && ValidPrefix(p)
    requires forall l :: sp.lo <= l < sp.hi && HasCode(ls[l]) ==> m <= Indentation(ls[l])
    requires Fitting(ls, sp, m, Comment)
    requires ls1 == ApplyEdits(ls, ToggleEdits(ls, sp, p, m, Comment))
    requires Fitting(ls1, sp, m, Uncomment(|p| + 1))
    requires ls2 == ApplyEdits(ls1, ToggleEdits(ls1, sp, p, m, Uncomment(|p| + 1)))
    ensures ls2 == ls
  {
    CommentedLines(ls, sp, p, m, ls1);
    forall l | 0 <= l < |ls|
      ensures ls2[l] == ls[l]
    {
      if sp.lo <= l < sp.hi && HasCode(ls[l]) {
        UncommentCommented(ls, ls1, sp, p, m, l);
      } else {
        EditOf(ls1, sp, p, m, Uncomment(|p| + 1), l);
      }
    }
  }

  /** A line commented at `m` and then uncommented with the space. */
  lemma UncommentCommented(ls: seq<string>, ls1: seq<string>, sp: Span, p: string, m: nat, l: nat)
    requires sp.lo <= l < sp.hi <= |ls1| && |ls| == |ls1| && ValidPrefix(p)
    requires Fitting(ls1, sp, m, Uncomment(|p| + 1))
    requires HasCode(ls[l]) && m <= Indentation(ls[l]) && ls1[l] == ls[l][..m] + (p + " ") + ls[l][m..]
    ensures ApplyEdit(ls1[l], ToggleEdits(ls1, sp, p, m, Uncomment(|p| + 1))[l]) == ls[l]
  {
    CommentedLine(ls[l], m, p, ls1[l]);
    EditOf(ls1, sp, p, m, Uncomment(|p| + 1), l);
  }

  // ---------------------------------------------------------------------
  // The command on the editor

  /** Lines of blanks are exactly the lines without code. */
  lemma NoCodeIsBlank(ls: seq<string>, sp: Span)
    requires sp.hi <= |ls|
    ensures (forall l :: sp.lo <= l < sp.hi ==> AllBlank(ls[l])) <==>
      (forall l :: sp.lo <= l < sp.hi ==> !HasCode(ls[l]))
  {
    forall l | sp.lo <= l < sp.hi
      ensures AllBlank(ls[l]) <==> !HasCode(ls[l])
    {
      HasCodeNotBlank(ls[l]);
    }
  }

  /** `toggle_comments` with the language's prefix `p`, over the lines the
      selection touches: nothing happens when they are all blank. */
  function ToggleComments(e: Editor, p: string): (r: Editor)
    requires Valid(e) && ValidPrefix(p)
    ensures Valid(r) && Lines(r.text) == Toggled(Lines(e.text), Touched(e), p)
    ensures var ls, sp := Lines(e.text), Touched(e);
      (forall l :: sp.lo <= l < sp.hi ==> AllBlank(ls[l])) ==> r == e
  {
    var ls := Lines(e.text);
    var sp := Touched(e);
    NoCodeIsBlank(ls, sp);
    match MinIndent(ls, sp.lo, sp.hi)
    case None => e
    case Some(m) =>
      DecidedFits(ls, sp, p, m);
      Commit(e, ToggleEdits(ls, sp, p, m, Decide(ls, sp, p)))
  }

  /** When some touched line of code lacks the prefix, every other line is
      left alone and each touched line of code gets the prefix and a space
      at the smallest indentation among them. */
  lemma ToggleCommentsAdds(e: Editor, p: string)
    requires Valid(e) && ValidPrefix(p)
    requires var ls, sp := Lines(e.text), Touched(e);
      MinIndent(ls, sp.lo, sp.hi).Some? && !AllCommented(ls, sp, p)
    ensures var ls, sp := Lines(e.text), Touched(e);
      var m, ls1 := MinIndent(ls, sp.lo, sp.hi).value, Lines(ToggleComments(e, p).text);
      |ls1| == |ls| &&
      forall l :: 0 <= l < |ls| ==>
        if sp.lo <= l < sp.hi && HasCode(ls[l]) then m <= |ls[l]| && ls1[l] == ls[l][..m] + (p + " ") + ls[l][m..]
        else ls1[l] == ls[l]
  {
    var ls, sp := Lines(e.text), Touched(e);
    var m := MinIndent(ls, sp.lo, sp.hi).value;
    DecidedFits(ls, sp, p, m);
    var ls1 := ApplyEdits(ls, ToggleEdits(ls, sp, p, m, Comment));
    assert Toggled(ls, sp, p) == ls1;
    CommentLines(ls, sp, p, m, ls1);
  }

  /** When every touched line of code has the prefix, each such line loses
      it, and the space after it when all of them have one, right after its
      own indentation; every other line is left alone. */
  lemma ToggleCommentsRemoves(e: Editor, p: string)
    requires Valid(e) && ValidPrefix(p)
    requires var ls, sp := Lines(e.text), Touched(e);
      MinIndent(ls, sp.lo, sp.hi).Some? && AllCommented(ls, sp, p)
    ensures var ls, sp := Lines(e.text), Touched(e);
      var w, ls1 := |p| + (if AllExtra(ls, sp, p) then 1 else 0), Lines(ToggleComments(e, p).text);
      |ls1| == |ls| &&
      Uncommented(ls, sp, p, w, ls1)
  {
    var ls, sp := Lines(e.text), Touched(e);
    var m := MinIndent(ls, sp.lo, sp.hi).value;
    var w := |p| + (if AllExtra(ls, sp, p) then 1 else 0);
    DecidedFits(ls, sp, p, m);
    var ls1 := ApplyEdits(ls, ToggleEdits(ls, sp, p, m, Uncomment(w)));
    assert Toggled(ls, sp, p) == ls1;
    UncommentLines(ls, sp, p, m, w, ls1);
  }

  /** Commenting, then toggling again, gives the text back: the selection
      still touches the same lines, all of them now commented. */
  lemma ToggleCommentsTwice(e: Editor, p: string)
    requires Valid(e) && ValidPrefix(p)
    requires var ls, sp := Lines(e.text), Touched(e);
      MinIndent(ls, sp.lo, sp.hi).Some? && !AllCommented(ls, sp, p)
    ensures ToggleComments(ToggleComments(e, p), p).text == e.text
  {
    var ls, sp := Lines(e.text), Touched(e);
    var r := ToggleComments(e, p);
    TouchedAfterComment(e, p);
    ToggleTwiceLines(ls, sp, p);
    var r2 := ToggleComments(r, p);
    assert Lines(r2.text) == ls;
    JoinLines(r2.text);
    JoinLines(e.text);
  }

  // ---------------------------------------------------------------------
  // The selection across commenting

  /** Edits that only insert keep the order of marks. */
  lemma InsertsKeepOrder(ls: seq<string>, eds: seq<LineEdit>, m1: nat, m2: nat)
    requires |ls| >= 1 && AllFit(ls, eds) && m1 < m2 <= |Join(ls)|
    requires forall l :: 0 <= l < |ls| ==> eds[l].Keep? || eds[l].InsertAt?
    ensures MapMark(ls, eds, m1) < MapMark(ls, eds, m2)
  {
    var l1, l2 := LineOf(ls, m1), LineOf(ls, m2);
    LineOfMonotone(ls, m1, m2);
    MapMarkColumn(ls, eds, m1);
    MapMarkColumn(ls, eds, m2);
    OffsetsInOrder(ApplyEdits(ls, eds), l1, MapColumn(m1 - LineOffset(ls, l1), eds[l1]),
      l2, MapColumn(m2 - LineOffset(ls, l2), eds[l2]));
  }

  /** Edits that only insert, and only into the span of two offsets, leave
      the span of the moved offsets the same. */
  lemma SpanAfterInserts(ls: seq<string>, eds: seq<LineEdit>, sp: Span, s: nat, t: nat, sel: bool)
    requires |ls| >= 1 && AllFit(ls, eds) && s <= t <= |Join(ls)| && sp == SpanOf(ls, s, t, sel)
    requires forall l :: 0 <= l < |ls| ==> eds[l].Keep? || eds[l].InsertAt?
    requires forall l :: 0 <= l < |ls| && !InSpan(sp, l) ==> eds[l].Keep?
    ensures SpanOf(ApplyEdits(ls, eds), MapMark(ls, eds, s), MapMark(ls, eds, t), sel) == sp
  {
    MapMarkStaysOnLine(ls, eds, s);
    MapMarkStaysOnLine(ls, eds, t);
  }

  /** Edits that only insert, and only into the touched lines, leave the
      selection touching the same lines. */
  lemma TouchedAfterInserts(e: Editor, eds: seq<LineEdit>)
    requires Valid(e) && AllFit(Lines(e.text), eds)
    requires forall l :: 0 <= l < |eds| ==> eds[l].Keep? || eds[l].InsertAt?
    requires forall l :: 0 <= l < |eds| && !InSpan(Touched(e), l) ==> eds[l].Keep?
    ensures Touched(Commit(e, eds)) == Touched(e)
  {
    var ls := Lines(e.text);
    JoinLines(e.text);
    var r := Commit(e, eds);
    if e.insert < e.bound {
      InsertsKeepOrder(ls, eds, e.insert, e.bound);
    } else if e.bound < e.insert {
      InsertsKeepOrder(ls, eds, e.bound, e.insert);
    }
    assert SelStart(r) == MapMark(ls, eds, SelStart(e)) && SelEnd(r) == MapMark(ls, eds, SelEnd(e));
    SpanAfterInserts(ls, eds, Touched(e), SelStart(e), SelEnd(e), HasSelection(e));
    JoinLines(r.text);
  }

  /** Commenting leaves the selection touching the same lines. */
  lemma TouchedAfterComment(e: Editor, p: string)
    requires Valid(e) && ValidPrefix(p)
    requires var ls, sp := Lines(e.text), Touched(e);
      MinIndent(ls, sp.lo, sp.hi).Some? && !AllCommented(ls, sp, p)
    ensures Touched(ToggleComments(e, p)) == Touched(e)
  {
    var ls, sp := Lines(e.text), Touched(e);
    var m := MinIndent(ls, sp.lo, sp.hi).value;
    DecidedFits(ls, sp, p, m);
    var eds := ToggleEdits(ls, sp, p, m, Comment);
    assert ToggleComments(e, p) == Commit(e, eds);
    forall l | 0 <= l < |eds|
      ensures (eds[l].Keep? || eds[l].InsertAt?) && (!InSpan(sp, l) ==> eds[l].Keep?)
    {
    }
    TouchedAfterInserts(e, eds);
  }
}
