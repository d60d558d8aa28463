/** Per-view settings: the indentation unit (`tab_char`, `tab_size` and the
    string `tab` built from them), the language classification made from the
    highlighter's language id, and the comment prefix chosen from it. */
module Settings {
  import opened Text

  /** One indentation level: `size` copies of `ch`. */
  datatype IndentUnit = IndentUnit(ch: char, size: nat)

  /** The settings the key handlers read. `tabIndentsLine` is the user
      option that makes Tab indent the whole line rather than insert at the
      cursor. `language` is the highlighter's language id, if any. */
  datatype Config = Config(unit: IndentUnit, tabIndentsLine: bool, language: Option<string>)

  /** The units the settings and the buffer scan produce: spaces or tabs. */
  predicate ValidUnit(u: IndentUnit) {
    IsBlank(u.ch)
  }

  /** `set_tab_char_and_size`: the string one indentation level inserts. */
  function TabString(u: IndentUnit): (tab: string)
    ensures |tab| == u.size
    ensures CountLeading(tab, u.ch) == u.size
    ensures u.ch != '\n' ==> NoNewline(tab)
    ensures IsBlank(u.ch) ==> AllBlank(tab)
  {
    var tab := Repeat(u.ch, u.size);
    assert CountLeading(tab, u.ch) == u.size by {
      CountLeadingOfRun(tab, u.ch);
    }
    tab
  }

  lemma {:induction false} CountLeadingOfRun(s: string, c: char)
    requires forall k :: 0 <= k < |s| ==> s[k] == c
    ensures CountLeading(s, c) == |s|
    decreases |s|
  {
    if |s| > 0 {
      CountLeadingOfRun(s[1..], c);
    }
  }

  /** Language ids of the brace-delimited languages. */
  const BracketLanguages: set<string> :=
    {"chdr", "cpphdr", "c", "cpp", "objc", "java", "js", "ts", "proto", "c-sharp",
     "html", "cuda", "php", "rust", "swift", "go", "scala", "opencl"}

  /** Language ids whose `class` and `struct` blocks are closed with `};`. */
  const SemicolonLanguages: set<string> := {"chdr", "cpphdr", "c", "cpp"}

  predicate IsBracketLanguage(language: Option<string>) {
    language.Some? && language.value in BracketLanguages
  }

  predicate ClosesClassWithSemicolon(language: Option<string>) {
    language.Some? && language.value in SemicolonLanguages
  }

  /** A usable line-comment prefix: non-empty, without blanks or line breaks. */
  predicate ValidPrefix(p: string) {
    |p| > 0 && forall k :: 0 <= k < |p| ==> !IsBlank(p[k]) && p[k] != '\n'
  }

  /** The line-comment prefix of a language; None disables comment toggling. */
  function CommentPrefix(language: Option<string>): (p: Option<string>)
    ensures IsBracketLanguage(language) ==> p == Some("//")
    ensures language.None? ==> p.None?
    ensures p.Some? ==> ValidPrefix(p.value)
  {
    if IsBracketLanguage(language) then Some("//")
    else if language.None? then None
    else
      var id := language.value;
      if id in {"cmake", "makefile", "python", "python3", "sh", "perl", "ruby", "r", "asm", "automake"} then Some("#")
      else if id in {"latex", "matlab", "octave", "bibtex"} then Some("%")
      else if id == "fortran" then Some("!")
      else if id == "pascal" then Some("//")
      else if id == "lua" then Some("--")
      else None
  }
}

/** The kind of a compiler-suggested fix, decided when it is constructed. */
module FixIts {

  datatype Offset = Offset(line: nat, index: nat)

  datatype Kind = Insert | Replace | Erase

  /** `FixIt::FixIt`: an empty replacement erases the range; otherwise an
      empty range is an insertion and a non-empty one a replacement. */
  function Classify(source: string, first: Offset, second: Offset): (k: Kind)
    ensures k == Erase <==> source == ""
    ensures k == Insert <==> source != "" && first == second
    ensures k == Replace <==> source != "" && first != second
  {
    if |source| == 0 then Erase
    else if first == second then Insert
    else Replace
  }
}

/** `get_token`: the identifier around an offset. */
module Token {
  import opened Text

  predicate IsWordChar(c: char) {
    ('A' <= c <= 'Z') || ('a' <= c <= 'z') || ('0' <= c <= '9') || c == '_'
  }

  function WordStart(t: string, i: nat): (s: nat)
    requires i < |t| && IsWordChar(t[i])
    ensures s <= i
    ensures forall k :: s <= k <= i ==> IsWordChar(t[k])
    ensures s == 0 || !IsWordChar(t[s - 1])
    decreases i
  {
    if i == 0 || !IsWordChar(t[i - 1]) then i else WordStart(t, i - 1)
  }

  function WordEnd(t: string, i: nat): (e: nat)
    requires i <= |t|
    ensures i <= e <= |t|
    ensures forall k :: i <= k < e ==> IsWordChar(t[k])
    ensures e == |t| || !IsWordChar(t[e])
    decreases |t| - i
  {
    if i < |t| && IsWordChar(t[i]) then WordEnd(t, i + 1) else i
  }

  /** The bounds of the token: the maximal run of identifier characters
      holding offset `i`, or the empty range at `i` when there is none. */
  function TokenBounds(t: string, i: nat): (b: (nat, nat))
    requires i <= |t|
    ensures b.0 <= i <= b.1 <= |t|
    ensures forall k :: b.0 <= k < b.1 ==> IsWordChar(t[k])
    ensures b.0 == b.1 <==> !IsWordChar(At(t, i))
    ensures b.0 < b.1 ==> b.0 == 0 || !IsWordChar(t[b.0 - 1])
    ensures b.0 < b.1 ==> b.1 == |t| || !IsWordChar(t[b.1])
  {
    if i < |t| && IsWordChar(t[i]) then (WordStart(t, i), WordEnd(t, i)) else (i, i)
  }

  function GetToken(t: string, i: nat): (tok: string)
    requires i <= |t|
    ensures forall k :: 0 <= k < |tok| ==> IsWordChar(tok[k])
    ensures tok == "" <==> !IsWordChar(At(t, i))
  {
    var b := TokenBounds(t, i);
    t[b.0..b.1]
  }
}
