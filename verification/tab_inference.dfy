/** `find_tab_char_and_size`: one forward pass over the buffer that counts
    the blanks indenting lines and the changes of indentation between
    consecutive lines, then picks the most frequent character and the most
    frequent change. Bracket languages (but not html) only measure the
    lines after a line ending in `{` and skip comments; the other languages
    skip everything inside parentheses. Both skip quoted text. */
module TabInference {
  import opened Text
  import opened Scanner
  import opened Settings

  // ---------------------------------------------------------------------
  // Histograms

  /** The two histograms of the scan: indenting characters, and the sizes
      of the indentation changes. */
  datatype Tally = Tally(chars: map<char, nat>, sizes: map<nat, nat>)

  const NoTally: Tally := Tally(map[], map[])

  function Count<K>(h: map<K, nat>, k: K): nat {
    if k in h then h[k] else 0
  }

  /** `h[k]++` on a `std::unordered_map`: a missing key starts at 0. */
  function Bump<K(!new)>(h: map<K, nat>, k: K): (r: map<K, nat>)
    ensures r.Keys == h.Keys + {k}
    ensures Count(r, k) == Count(h, k) + 1
    ensures forall j :: j != k ==> Count(r, j) == Count(h, j)
  {
    h[k := Count(h, k) + 1]
  }

  /** What the scan can put in its histograms: only blanks as characters,
      only non-zero changes, every entry seen at least once. */
  predicate WellFormed(y: Tally) {
    (forall c :: c in y.chars ==> IsBlank(c) && y.chars[c] > 0) &&
    (forall w :: w in y.sizes ==> w > 0 && y.sizes[w] > 0)
  }

  /** `std::abs(a - b)`. */
  function Dist(a: int, b: int): nat {
    if a >= b then a - b else b - a
  }

  /** Assigning a 32-bit character to a C `char` keeps its low 8 bits. */
  function Narrow(c: char): char {
    ((c as int) % 256) as char
  }

  // ---------------------------------------------------------------------
  // The scan for languages without braces

  /** `tabCount` is -1 once the line has shown a non-blank character;
      `parens` is the parenthesis depth outside quotes. */
  datatype PlainState = PlainState(tabCount: int, lastTabCount: int, single: bool, double: bool,
                                   parens: int, tally: Tally)

  const PlainStart: PlainState := PlainState(-1, 0, false, false, 0, NoTally)

  /** The counting part of a step: a blank at the start of a line outside
      parentheses and quotes is counted; the first other character of a
      line that is not empty records the change of indentation. */
  function PlainCount(t: string, s: PlainState, i: nat): (r: PlainState)
    requires i < |t|
    ensures r.single == s.single && r.double == s.double && r.parens == s.parens
  {
    var tc := if StartsLine(t, i) then 0 else s.tabCount;
    if tc != -1 && s.parens == 0 && !s.single && !s.double then
      if IsBlank(t[i]) then
        s.(tabCount := tc + 1, tally := s.tally.(chars := Bump(s.tally.chars, t[i])))
      else if !EndsLine(t, i) then
        var sizes := if tc != s.lastTabCount then Bump(s.tally.sizes, Dist(tc, s.lastTabCount)) else s.tally.sizes;
        s.(tabCount := tc, lastTabCount := tc, tally := s.tally.(sizes := sizes))
      else s.(tabCount := tc)
    else s.(tabCount := tc)
  }

  /** One character of the scan: counting, then quotes and parentheses,
      then the end of the line's indentation. */
  function PlainStep(t: string, s: PlainState, i: nat): (r: PlainState)
    requires i < |t|
    ensures !IsBlank(t[i]) ==> r.tabCount == -1
  {
    var s1 := PlainCount(t, s, i);
    var c := t[i];
    var s2 :=
      if !s1.double && c == '\'' && !Escaped(t, i) then s1.(single := !s1.single)
      else if !s1.single && c == '"' && !Escaped(t, i) then s1.(double := !s1.double)
      else if !s1.single && !s1.double && c == '(' then s1.(parens := s1.parens + 1)
      else if !s1.single && !s1.double && c == ')' then s1.(parens := s1.parens - 1)
      else s1;
    if !IsBlank(c) then s2.(tabCount := -1) else s2
  }

  function PlainFrom(t: string, s: PlainState, i: nat): PlainState
    decreases |t| - i
  {
    if i < |t| then PlainFrom(t, PlainStep(t, s, i), i + 1) else s
  }

  // ---------------------------------------------------------------------
  // The scan for bracket languages

  /** `bracketLastLine`: the line before ended in `{`; `lastChar` is the
      last character outside comments and quotes that was not blank, as a
      C `char`; `lastTabDiff` is the size of the last change, -1 before any. */
  datatype BracketState = BracketState(tabCount: int, lastTabCount: int, single: bool, double: bool,
                                       lineComment: bool, comment: bool, bracketLastLine: bool,
                                       lastChar: char, lastTabDiff: int, tally: Tally)

  const BracketStart: BracketState := BracketState(-1, 0, false, false, false, false, false, NUL, -1, NoTally)

  /** At a line start: line comments and quotes end, the count restarts,
      and the line is measured if the previous one ended in `{`. */
  function AtLineStart(t: string, s: BracketState, i: nat): BracketState
    requires i <= |t|
  {
    if StartsLine(t, i) then
      s.(lineComment := false, single := false, double := false, tabCount := 0, bracketLastLine := s.lastChar == '{')
    else s
  }

  /** The last non-blank character from `j` to the line end or to the first
      `(` included, as a C `char`; `last` if there is none. */
  function LastLineChar(t: string, j: nat, last: char): char
    decreases |t| - j
  {
    if j >= |t| || t[j] == '\n' then last
    else
      var last' := if IsBlank(t[j]) then last else Narrow(t[j]);
      if t[j] == '(' then last' else LastLineChar(t, j + 1, last')
  }

  /** Where the scan goes after the counting part of a step. */
  datatype Counted = Continue(s: BracketState) | Jump(s: BracketState, to: nat)

  /** The counting part of a step on a measured line. A line ending in `:`
      (before any `(`) or starting with `#` restarts the count and the scan
      jumps to the next line, if there is one. */
  function BracketCount(t: string, s: BracketState, i: nat): (r: Counted)
    requires i < |t|
    ensures r.Jump? ==> i < r.to <= |t|
  {
    if s.bracketLastLine && s.tabCount != -1 then
      var c := t[i];
      if IsBlank(c) then
        Continue(s.(tabCount := s.tabCount + 1, tally := s.tally.(chars := Bump(s.tally.chars, c))))
      else if LastLineChar(t, i, NUL) == ':' || c == '#' then
        var e := LineEnd(t, i);
        if e < |t| then Jump(s.(tabCount := 0), e + 1) else Continue(s.(tabCount := 0))
      else if !EndsLine(t, i) then
        var d := Dist(s.tabCount, s.lastTabCount);
        var sizes := if s.tabCount != s.lastTabCount then Bump(s.tally.sizes, d) else s.tally.sizes;
        Continue(s.(lastTabDiff := d, lastTabCount := s.tabCount, lastChar := NUL, tally := s.tally.(sizes := sizes)))
      else Continue(s)
    else Continue(s)
  }

  /** Quotes and comments at `i`; the offset returned is where the rest of
      the step reads, two further on after the end of a block comment. */
  function BracketQuotes(t: string, s: BracketState, i: nat): (r: (BracketState, nat))
    requires i < |t|
    ensures i <= r.1 <= |t| && r.0.tally == s.tally && r.0.tabCount == s.tabCount
  {
    var c := t[i];
    if !s.double && c == '\'' && !Escaped(t, i) then (s.(single := !s.single), i)
    else if !s.single && c == '"' && !Escaped(t, i) then (s.(double := !s.double), i)
    else if !s.single && !s.double then
      var n := At(t, i + 1);
      if c == '/' && n == '/' then (s.(lineComment := true), i)
      else if c == '/' && n == '*' then (s.(comment := true), i)
      else if c == '*' && n == '/' then (s.(comment := false), Min(i + 2, |t|))
      else (s, i)
    else (s, i)
  }

  /** The end of a step, reading at `k`: the last character is noted, a
      `}` in the indentation takes back the last change, and a character
      that is not blank ends the indentation. */
  function BracketTail(t: string, s: BracketState, k: nat): (r: BracketState)
    requires k <= |t|
    ensures r.tally == s.tally
  {
    var d := At(t, k);
    var live := !s.single && !s.double && !s.comment && !s.lineComment;
    var s1 := if live && !IsBlank(d) && !EndsLine(t, k) then s.(lastChar := Narrow(d)) else s;
    var s2 := if live && d == '}' && s1.tabCount != -1 && s1.lastTabDiff != -1 then
        s1.(lastTabCount := s1.lastTabCount - s1.lastTabDiff)
      else s1;
    if !IsBlank(d) then s2.(tabCount := -1) else s2
  }

  /** One step of the scan: the state after it and the next offset read. */
  function BracketStep(t: string, s: BracketState, i: nat): (r: (BracketState, nat))
    requires i < |t|
    ensures i < r.1 <= |t|
  {
    var s0 := AtLineStart(t, s, i);
    match BracketCount(t, s0, i)
    case Jump(s1, j) => (s1, j)
    case Continue(s1) =>
      var (s2, k) := BracketQuotes(t, s1, i);
      (BracketTail(t, s2, k), Min(k + 1, |t|))
  }

  function BracketFrom(t: string, s: BracketState, i: nat): BracketState
    requires i <= |t|
    decreases |t| - i
  {
    if i < |t| then
      var (s1, j) := BracketStep(t, s, i);
      BracketFrom(t, s1, j)
    else s
  }

  // ---------------------------------------------------------------------
  // Picking the most frequent entries

  /** The loop over a histogram in its iteration `order` with a strict `>`:
      the first entry with the highest count wins, and entries seen fewer
      than once never do. `best` and `occ` are the winner so far. */
  function TopAfter<K>(h: map<K, nat>, order: seq<K>, best: Option<K>, occ: nat): (r: Option<K>)
    requires best.Some? ==> Count(h, best.value) == occ && occ > 0
    requires best.None? ==> occ == 0
    ensures r.None? <==> best.None? && forall j :: 0 <= j < |order| ==> Count(h, order[j]) == 0
    ensures r.Some? ==> Count(h, r.value) >= occ && Count(h, r.value) > 0
    ensures r.Some? ==> forall j :: 0 <= j < |order| ==> Count(h, order[j]) <= Count(h, r.value)
    ensures r.Some? && r != best ==> Count(h, r.value) > occ
    decreases |order|
  {
    if |order| == 0 then best
    else
      var k := order[0];
      assert forall j :: 1 <= j < |order| ==> order[j] == order[1..][j - 1];
      if Count(h, k) > occ then TopAfter(h, order[1..], Some(k), Count(h, k))
      else TopAfter(h, order[1..], best, occ)
  }

  /** A winner that is not the one carried in comes first among the
      entries with its count. */
  lemma {:induction false} TopAfterFirst<K>(h: map<K, nat>, order: seq<K>, best: Option<K>, occ: nat)
    requires best.Some? ==> Count(h, best.value) == occ && occ > 0
    requires best.None? ==> occ == 0
    ensures var r := TopAfter(h, order, best, occ);
      r.Some? && r != best ==>
      exists i :: 0 <= i < |order| && order[i] == r.value && forall j :: 0 <= j < i ==> Count(h, order[j]) < Count(h, r.value)
    decreases |order|
  {
    if |order| > 0 {
      var k := order[0];
      var r := TopAfter(h, order, best, occ);
      var best' := if Count(h, k) > occ then Some(k) else best;
      var occ' := if Count(h, k) > occ then Count(h, k) else occ;
      assert r == TopAfter(h, order[1..], best', occ');
      TopAfterFirst(h, order[1..], best', occ');
      if r == Some(k) && r != best {
        assert order[0] == r.value;
      } else if r.Some? && r != best {
        var i' :| 0 <= i' < |order[1..]| && order[1..][i'] == r.value &&
          forall j :: 0 <= j < i' ==> Count(h, order[1..][j]) < Count(h, r.value);
        assert order[i' + 1] == r.value;
        assert forall j :: 1 <= j < i' + 1 ==> order[j] == order[1..][j - 1];
      }
    }
  }

  /** The key with the highest count, the first such in `order`; none when
      no key in `order` was counted. */
  function Top<K>(h: map<K, nat>, order: seq<K>): (r: Option<K>)
    ensures r.None? <==> forall j :: 0 <= j < |order| ==> Count(h, order[j]) == 0
    ensures r.Some? ==> r.value in h && h[r.value] > 0
    ensures r.Some? ==> forall j :: 0 <= j < |order| ==> Count(h, order[j]) <= h[r.value]
    ensures r.Some? ==>
      exists i :: 0 <= i < |order| && order[i] == r.value && forall j :: 0 <= j < i ==> Count(h, order[j]) < h[r.value]
  {
    TopAfterFirst(h, order, None, 0);
    TopAfter(h, order, None, 0)
  }

  /** A key counted more often than any other wins whatever the order. */
  lemma StrictMaximumWins<K>(h: map<K, nat>, order: seq<K>, k: K)
    requires k in h && h[k] > 0 && k in order
    requires forall j :: j in h && j != k ==> h[j] < h[k]
    ensures Top(h, order) == Some(k)
  {
    var i :| 0 <= i < |order| && order[i] == k;
    var r := Top(h, order);
    assert Count(h, order[i]) > 0;
  }

  // ---------------------------------------------------------------------
  // The inference

  /** The character and the width found; NUL and 0 when none was counted. */
  datatype Found = Found(ch: char, size: nat)

  /** Languages that get the bracket scan: bracket languages other than html. */
  predicate UsesBracketScan(language: Option<string>) {
    IsBracketLanguage(language) && language != Some("html")
  }

  function Scan(t: string, language: Option<string>): Tally {
    if UsesBracketScan(language) then BracketFrom(t, BracketStart, 0).tally
    else PlainFrom(t, PlainStart, 0).tally
  }

  /** `find_tab_char_and_size`; `charOrder` and `sizeOrder` stand for the
      iteration orders of the two unordered maps, which nothing fixes. */
  function FindTabCharAndSize(t: string, language: Option<string>, charOrder: seq<char>, sizeOrder: seq<nat>): (r: Found)
    ensures var y := Scan(t, language);
      (r.ch == NUL <==> forall j :: 0 <= j < |charOrder| ==> Count(y.chars, charOrder[j]) == 0) &&
      (r.size == 0 <==> forall j :: 0 <= j < |sizeOrder| ==> Count(y.sizes, sizeOrder[j]) == 0)
    ensures r.ch == NUL || IsBlank(r.ch)
  {
    var y := Scan(t, language);
    ScanWellFormed(t, language);
    var ch := match Top(y.chars, charOrder) case Some(c) => c case None => NUL;
    var size := match Top(y.sizes, sizeOrder) case Some(w) => w case None => 0;
    Found(ch, size)
  }

  /** When the orders go over all the keys, as the loops over the maps do,
      the width is 0 exactly when no change of indentation was recorded,
      and the character is NUL exactly when no blank was counted. */
  lemma FoundNothing(t: string, language: Option<string>, charOrder: seq<char>, sizeOrder: seq<nat>)
    requires var y := Scan(t, language);
      (forall c :: c in y.chars ==> c in charOrder) && (forall w :: w in y.sizes ==> w in sizeOrder)
    ensures var r, y := FindTabCharAndSize(t, language, charOrder, sizeOrder), Scan(t, language);
      (r.ch == NUL <==> y.chars == map[]) && (r.size == 0 <==> y.sizes == map[])
  {
    var y := Scan(t, language);
    ScanWellFormed(t, language);
    if y.chars != map[] {
      var c :| c in y.chars;
      var i :| 0 <= i < |charOrder| && charOrder[i] == c;
      assert Count(y.chars, charOrder[i]) > 0;
    }
    if y.sizes != map[] {
      var w :| w in y.sizes;
      var i :| 0 <= i < |sizeOrder| && sizeOrder[i] == w;
      assert Count(y.sizes, sizeOrder[i]) > 0;
    }
  }

  // ---------------------------------------------------------------------
  // Well-formed histograms

  lemma {:induction false} PlainWellFormed(t: string, s: PlainState, i: nat)
    requires WellFormed(s.tally)
    ensures WellFormed(PlainFrom(t, s, i).tally)
    decreases |t| - i
  {
    if i < |t| {
      PlainWellFormed(t, PlainStep(t, s, i), i + 1);
    }
  }

  lemma {:induction false} BracketWellFormed(t: string, s: BracketState, i: nat)
    requires i <= |t| && WellFormed(s.tally)
    ensures WellFormed(BracketFrom(t, s, i).tally)
    decreases |t| - i
  {
    if i < |t| {
      var (s1, j) := BracketStep(t, s, i);
      BracketStepWellFormed(t, s, i);
      BracketWellFormed(t, s1, j);
    }
  }

  lemma BracketStepWellFormed(t: string, s: BracketState, i: nat)
    requires i < |t| && WellFormed(s.tally)
    ensures WellFormed(BracketStep(t, s, i).0.tally)
  {
    var s0 := AtLineStart(t, s, i);
    assert s0.tally == s.tally;
    match BracketCount(t, s0, i)
    case Jump(s1, j) =>
    case Continue(s1) =>
      assert WellFormed(s1.tally);
  }

  lemma ScanWellFormed(t: string, language: Option<string>)
    ensures WellFormed(Scan(t, language))
  {
    if UsesBracketScan(language) {
      BracketWellFormed(t, BracketStart, 0);
    } else {
      PlainWellFormed(t, PlainStart, 0);
    }
  }

  // ---------------------------------------------------------------------
  // A consistently indented buffer

  /** Column of offset `i` in its line. */
  function Col(t: string, i: nat): nat
    requires i <= |t|
  {
    i - LineStart(t, i)
  }

  /** Everything before `i` on its line is blank. */
  predicate InIndent(t: string, i: nat)
    requires i <= |t|
  {
    forall k :: LineStart(t, i) <= k < i ==> IsBlank(t[k])
  }

  /** `i` holds the first character of a line of code. */
  predicate FirstOfCode(t: string, i: nat)
    requires i <= |t|
  {
    i < |t| && !IsBlank(t[i]) && t[i] != '\n' && InIndent(t, i)
  }

  /** The indentation of the last line of code before `i`; 0 if none. */
  function PrevIndent(t: string, i: nat): nat
    requires i <= |t|
  {
    if i == 0 then 0
    else if FirstOfCode(t, i - 1) then Col(t, i - 1)
    else PrevIndent(t, i - 1)
  }

  /** No quote and no parenthesis: nothing the scan skips. */
  predicate Unquoted(t: string) {
    forall k :: 0 <= k < |t| ==> t[k] != '\'' && t[k] != '"' && t[k] != '(' && t[k] != ')'
  }

  /** A buffer indented with the unit `c`, `w`: lines are indented with `c`
      only, each line of code is indented like the line of code before it
      or one unit more or less, and the indentation changes somewhere. */
  predicate IndentedWith(t: string, c: char, w: nat) {
    IsBlank(c) && w > 0 && Unquoted(t) &&
    (forall i :: 0 <= i < |t| && InIndent(t, i) && IsBlank(t[i]) ==> t[i] == c) &&
    (forall i :: 0 <= i < |t| && FirstOfCode(t, i) ==> Dist(Col(t, i), PrevIndent(t, i)) in {0, w}) &&
    (exists i :: 0 <= i < |t| && FirstOfCode(t, i) && Col(t, i) != PrevIndent(t, i))
  }

  /** What the scan of such a buffer knows after reading `[0, i)`. */
  predicate PlainInvariant(t: string, c: char, w: nat, i: nat, s: PlainState)
    requires i <= |t|
  {
    !s.single && !s.double && s.parens == 0 &&
    (!StartsLine(t, i) ==> s.tabCount == if InIndent(t, i) then Col(t, i) else -1) &&
    s.lastTabCount == PrevIndent(t, i) &&
    (forall d :: d in s.tally.chars ==> d == c) &&
    (forall d :: d in s.tally.sizes ==> d == w) &&
    ((exists k :: 0 <= k < i && InIndent(t, k) && IsBlank(t[k])) ==> c in s.tally.chars) &&
    ((exists k :: 0 <= k < i && FirstOfCode(t, k) && Col(t, k) != PrevIndent(t, k)) ==> w in s.tally.sizes)
  }

  lemma InIndentNext(t: string, i: nat)
    requires i < |t| && t[i] != '\n'
    ensures LineStart(t, i + 1) == LineStart(t, i)
    ensures InIndent(t, i + 1) <==> InIndent(t, i) && IsBlank(t[i])
  {
  }

  lemma PlainStepKeeps(t: string, c: char, w: nat, i: nat, s: PlainState)
    requires i < |t| && IndentedWith(t, c, w) && PlainInvariant(t, c, w, i, s)
    ensures PlainInvariant(t, c, w, i + 1, PlainStep(t, s, i))
  {
    var r := PlainStep(t, s, i);
    if t[i] != '\n' {
      InIndentNext(t, i);
    }
    StepCounts(t, c, w, i, s);
    StepSeen(t, c, w, i, s);
  }

  /** The count of the step: what it reads as the indentation so far. */
  lemma StepTabCount(t: string, c: char, w: nat, i: nat, s: PlainState)
    requires i < |t| && PlainInvariant(t, c, w, i, s)
    ensures var tc := if StartsLine(t, i) then 0 else s.tabCount;
      tc == if InIndent(t, i) then Col(t, i) else -1
  {
  }

  lemma StepCounts(t: string, c: char, w: nat, i: nat, s: PlainState)
    requires i < |t| && IndentedWith(t, c, w) && PlainInvariant(t, c, w, i, s)
    requires t[i] != '\n' ==> LineStart(t, i + 1) == LineStart(t, i) && (InIndent(t, i + 1) <==> InIndent(t, i) && IsBlank(t[i]))
    ensures var r := PlainStep(t, s, i);
      !r.single && !r.double && r.parens == 0 &&
      (!StartsLine(t, i + 1) ==> r.tabCount == if InIndent(t, i + 1) then Col(t, i + 1) else -1) &&
      r.lastTabCount == PrevIndent(t, i + 1) &&
      (forall d :: d in r.tally.chars ==> d == c) &&
      (forall d :: d in r.tally.sizes ==> d == w)
  {
    StepTabCount(t, c, w, i, s);
    if InIndent(t, i) && IsBlank(t[i]) {
      assert t[i] == c;
    }
    if FirstOfCode(t, i) {
      assert Dist(Col(t, i), PrevIndent(t, i)) in {0, w};
    }
  }

  lemma StepSeen(t: string, c: char, w: nat, i: nat, s: PlainState)
    requires i < |t| && IndentedWith(t, c, w) && PlainInvariant(t, c, w, i, s)
    ensures var r := PlainStep(t, s, i);
      ((exists k :: 0 <= k < i + 1 && InIndent(t, k) && IsBlank(t[k])) ==> c in r.tally.chars) &&
      ((exists k :: 0 <= k < i + 1 && FirstOfCode(t, k) && Col(t, k) != PrevIndent(t, k)) ==> w in r.tally.sizes)
  {
    var r := PlainStep(t, s, i);
    assert s.tally.chars.Keys <= r.tally.chars.Keys && s.tally.sizes.Keys <= r.tally.sizes.Keys;
    if InIndent(t, i) && IsBlank(t[i]) {
      SeenBlank(t, c, w, i, s);
    }
    if FirstOfCode(t, i) && Col(t, i) != PrevIndent(t, i) {
      SeenChange(t, c, w, i, s);
    }
  }

  lemma SeenBlank(t: string, c: char, w: nat, i: nat, s: PlainState)
    requires i < |t| && IndentedWith(t, c, w) && PlainInvariant(t, c, w, i, s)
    requires InIndent(t, i) && IsBlank(t[i])
    ensures c in PlainStep(t, s, i).tally.chars
  {
    StepTabCount(t, c, w, i, s);
    assert t[i] == c;
  }

  lemma SeenChange(t: string, c: char, w: nat, i: nat, s: PlainState)
    requires i < |t| && IndentedWith(t, c, w) && PlainInvariant(t, c, w, i, s)
    requires FirstOfCode(t, i) && Col(t, i) != PrevIndent(t, i)
    ensures w in PlainStep(t, s, i).tally.sizes
  {
    StepTabCount(t, c, w, i, s);
    assert Dist(Col(t, i), PrevIndent(t, i)) == w;
  }

  lemma {:induction false} PlainRunKeeps(t: string, c: char, w: nat, i: nat, s: PlainState)
    requires i <= |t| && IndentedWith(t, c, w) && PlainInvariant(t, c, w, i, s)
    ensures PlainInvariant(t, c, w, |t|, PlainFrom(t, s, i))
    decreases |t| - i
  {
    if i < |t| {
      PlainStepKeeps(t, c, w, i, s);
      PlainRunKeeps(t, c, w, i + 1, PlainStep(t, s, i));
    }
  }

  /** A line of code indented by more than nothing, or one indented less
      than the line of code before it, shows a blank of the indentation. */
  lemma {:induction false} SomeIndentBlank(t: string, i: nat)
    requires i <= |t|
    requires (exists k :: 0 <= k < |t| && FirstOfCode(t, k) && Col(t, k) > 0) || PrevIndent(t, i) > 0
    ensures exists k :: 0 <= k < |t| && InIndent(t, k) && IsBlank(t[k])
    decreases i
  {
    if k :| 0 <= k < |t| && FirstOfCode(t, k) && Col(t, k) > 0 {
      var a := LineStart(t, k);
      assert InIndent(t, a) && IsBlank(t[a]);
    } else if !FirstOfCode(t, i - 1) {
      SomeIndentBlank(t, i - 1);
    }
  }

  /** The histograms of a consistently indented buffer hold its unit only. */
  lemma ConsistentTally(t: string, c: char, w: nat)
    requires IndentedWith(t, c, w)
    ensures var y := PlainFrom(t, PlainStart, 0).tally;
      y.chars.Keys == {c} && y.sizes.Keys == {w}
  {
    PlainRunKeeps(t, c, w, 0, PlainStart);
    var k :| 0 <= k < |t| && FirstOfCode(t, k) && Col(t, k) != PrevIndent(t, k);
    SomeIndentBlank(t, k);
  }

  /** The round trip of the inference: a buffer indented consistently with
      one unit gives back that unit, whatever the maps' iteration order. */
  lemma InfersConsistentUnit(t: string, language: Option<string>, c: char, w: nat,
                             charOrder: seq<char>, sizeOrder: seq<nat>)
    requires !UsesBracketScan(language) && IndentedWith(t, c, w)
    requires c in charOrder && w in sizeOrder
    ensures FindTabCharAndSize(t, language, charOrder, sizeOrder) == Found(c, w)
  {
    var y := Scan(t, language);
    assert y == PlainFrom(t, PlainStart, 0).tally;
    ConsistentTally(t, c, w);
    ScanWellFormed(t, language);
    StrictMaximumWins(y.chars, charOrder, c);
    StrictMaximumWins(y.sizes, sizeOrder, w);
  }

  // ---------------------------------------------------------------------
  // Applying the result when the view is created

  /** The unit the view takes when it is created, as written: with
      automatic detection on, a found character replaces the configured unit
      together with the found width, even a width of 0. */
  function OpeningUnitAsWritten(default: IndentUnit, auto: bool, found: Found): (u: IndentUnit)
    ensures u.ch == (if auto && found.ch != NUL then found.ch else default.ch)
    ensures auto && found.ch != NUL ==> u.size == found.size
  {
    if auto && found.ch != NUL then IndentUnit(found.ch, found.size) else default
  }

  /** The unit the view takes when it is created, keeping the configured
      width when the scan found no change of indentation. */
  function OpeningUnit(default: IndentUnit, auto: bool, found: Found): (u: IndentUnit)
    ensures u.ch == (if auto && found.ch != NUL then found.ch else default.ch)
    ensures u.size == (if auto && found.ch != NUL && found.size != 0 then found.size else default.size)
  {
    if auto && found.ch != NUL then
      IndentUnit(found.ch, if found.size != 0 then found.size else default.size)
    else default
  }

  /** A buffer whose only indentation is a line of blanks. */
  lemma BlankLineTally()
    ensures var y := Scan("  \n", None);
      y.chars == map[' ' := 2] && y.sizes == map[]
  {
  }

  /** As written, a buffer with blanks but no change of indentation sets a
      width of 0, so one level of indentation is the empty string. */
  lemma WidthZeroAsWritten(default: IndentUnit, sizeOrder: seq<nat>)
    ensures var found := FindTabCharAndSize("  \n", None, [' '], sizeOrder);
      var u := OpeningUnitAsWritten(default, true, found);
      u == IndentUnit(' ', 0) && TabString(u) == ""
  {
    BlankLineTally();
  }

  /** With the fix, the unit is never narrower than one column when the
      configured one is not, and the found width is used whenever there is one. */
  lemma OpeningUnitKeepsWidth(default: IndentUnit, auto: bool, found: Found)
    requires default.size > 0 && ValidUnit(default) && (found.ch == NUL || IsBlank(found.ch))
    ensures var u := OpeningUnit(default, auto, found);
      u.size > 0 && ValidUnit(u) &&
      (found.size != 0 ==> u == OpeningUnitAsWritten(default, auto, found))
  {
  }

  /** The unit a new view uses: the configured one,
      or the one inferred from the buffer when automatic detection is on. */
  function UnitOnOpen(default: IndentUnit, auto: bool, t: string, language: Option<string>,
                       charOrder: seq<char>, sizeOrder: seq<nat>): (u: IndentUnit)
    requires ValidUnit(default) && default.size > 0
    ensures ValidUnit(u) && u.size > 0
    ensures !auto ==> u == default
    ensures forall c: char, w: nat :: (auto && !UsesBracketScan(language) && IndentedWith(t, c, w) &&
      c in charOrder && w in sizeOrder) ==> u == IndentUnit(c, w)
  {
    var found := FindTabCharAndSize(t, language, charOrder, sizeOrder);
    OpeningUnitKeepsWidth(default, auto, found);
    forall c: char, w: nat | auto && !UsesBracketScan(language) && IndentedWith(t, c, w) &&
      c in charOrder && w in sizeOrder
      ensures OpeningUnit(default, auto, found) == IndentUnit(c, w)
    {
      InfersConsistentUnit(t, language, c, w, charOrder, sizeOrder);
    }
    OpeningUnit(default, auto, found)
  }
}
