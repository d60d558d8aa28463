/** The history of the entry boxes: every placeholder text has one list of
    the texts activated in entries showing it, newest first, shared by all
    such entries. Each entry keeps the index of the history item it shows;
    Up moves to older items and Down to newer ones. */
module EntryHistory {
  import opened Text

  /** The histories, keyed by placeholder text. A missing key stands for an
      empty list, as `operator[]` creates one on first use. */
  type Histories = map<string, seq<string>>

  /** An entry: its text, its placeholder, its maximum length (0 for no
      limit), the index of the history item it shows, and whether it was
      given an activation callback. */
  datatype Entry = Entry(text: string, placeholder: string, maxLength: nat, selected: nat, hasCallback: bool)

  function HistoryOf(hs: Histories, key: string): seq<string> {
    if key in hs then hs[key] else []
  }

  /** `operator[]`: the key is present afterwards, with an empty list if it
      was missing. */
  function Touch(hs: Histories, key: string): (r: Histories)
    ensures key in r && r.Keys == hs.Keys + {key}
    ensures forall k :: k in r ==> r[k] == HistoryOf(hs, k)
  {
    if key in hs then hs else hs[key := []]
  }

  /** `set_text` on an entry with a maximum length keeps only that many
      characters. */
  function Clip(s: string, maxLength: nat): (r: string)
    ensures r <= s
    ensures |r| == if maxLength > 0 && |s| > maxLength then maxLength else |s|
  {
    if maxLength > 0 && |s| > maxLength then s[..maxLength] else s
  }

  /** The constructor: the content is shown and no history item is selected. */
  function NewEntry(content: string, placeholder: string, length: nat, hasCallback: bool): (e: Entry)
    ensures e.selected == 0 && e.text <= content && (length == 0 ==> e.text == content)
  {
    Entry(Clip(content, length), placeholder, length, 0, hasCallback)
  }

  /** A list with no two equal neighbours. */
  predicate NoAdjacentDuplicates(h: seq<string>) {
    forall i :: 0 <= i < |h| - 1 ==> h[i] != h[i + 1]
  }

  predicate AllWithoutDuplicates(hs: Histories) {
    forall k :: k in hs ==> NoAdjacentDuplicates(hs[k])
  }

  // ---------------------------------------------------------------------
  // Activation

  /** The history after activating `text`: the text goes in front unless it
      is already there. */
  function Record(h: seq<string>, text: string): (r: seq<string>)
    ensures |r| > 0 && r[0] == text
    ensures r == h || r == [text] + h
    ensures r == h <==> |h| > 0 && h[0] == text
  {
    if |h| == 0 || h[0] != text then [text] + h else h
  }

  /** The result of activating an entry: the histories, the entry, and the
      text handed to the callback, if there is one. */
  datatype Activated = Activated(histories: Histories, entry: Entry, handed: Option<string>)

  /** The activate handler: without a callback nothing happens; otherwise the
      text is recorded in its placeholder's history, the selection goes
      back to the newest item, and the callback gets the text. */
  function Activate(hs: Histories, e: Entry): (r: Activated)
    ensures !e.hasCallback ==> r == Activated(hs, e, None)
    ensures e.hasCallback ==>
      r.handed == Some(e.text) && r.entry == e.(selected := 0) &&
      r.histories.Keys == hs.Keys + {e.placeholder} &&
      r.histories[e.placeholder] == Record(HistoryOf(hs, e.placeholder), e.text)
    ensures forall k :: k in hs && k != e.placeholder ==> k in r.histories && r.histories[k] == hs[k]
  {
    if !e.hasCallback then Activated(hs, e, None)
    else
      var h := HistoryOf(hs, e.placeholder);
      Activated(hs[e.placeholder := Record(h, e.text)], e.(selected := 0), Some(e.text))
  }

  /** Recording keeps a list free of equal neighbours. */
  lemma RecordKeepsNoDuplicates(h: seq<string>, text: string)
    requires NoAdjacentDuplicates(h)
    ensures NoAdjacentDuplicates(Record(h, text))
  {
    var r := Record(h, text);
    if r != h {
      forall i | 0 <= i < |r| - 1
        ensures r[i] != r[i + 1]
      {
        if i > 0 {
          assert r[i] == h[i - 1] && r[i + 1] == h[i];
        }
      }
    }
  }

  /** No history ever holds the same text twice in a row. */
  lemma ActivateKeepsNoDuplicates(hs: Histories, e: Entry)
    requires AllWithoutDuplicates(hs)
    ensures AllWithoutDuplicates(Activate(hs, e).histories)
  {
    if e.hasCallback {
      RecordKeepsNoDuplicates(HistoryOf(hs, e.placeholder), e.text);
    }
  }

  /** Activating the same text again leaves the histories as they are. */
  lemma ActivateTwice(hs: Histories, e: Entry)
    ensures var r := Activate(hs, e);
      Activate(r.histories, r.entry).histories == r.histories
  {
  }

  /** Histories only grow: the old list is what follows the new one's head,
      or all of it. */
  lemma ActivateOnlyGrows(hs: Histories, e: Entry, k: string)
    ensures var h, h1 := HistoryOf(hs, k), HistoryOf(Activate(hs, e).histories, k);
      h == h1 || (|h1| == |h| + 1 && h1[1..] == h)
  {
  }

  // ---------------------------------------------------------------------
  // Up and Down

  /** The result of a key press: the histories (the lookup may add an empty
      one) and the entry. */
  datatype Moved = Moved(histories: Histories, entry: Entry)

  /** Up: on a non-empty history, select the next older item, stopping at
      the oldest, and show it. */
  function Up(hs: Histories, e: Entry): (r: Moved)
    ensures r.histories == Touch(hs, e.placeholder)
    ensures var h := HistoryOf(hs, e.placeholder);
      (|h| == 0 ==> r.entry == e) &&
      (|h| > 0 ==> r.entry.selected < |h|) &&
      (|h| > 0 ==> r.entry == e.(selected := r.entry.selected, text := Clip(h[r.entry.selected], e.maxLength)))
  {
    var h := HistoryOf(hs, e.placeholder);
    if |h| == 0 then Moved(Touch(hs, e.placeholder), e)
    else
      var i := if e.selected + 1 >= |h| then |h| - 1 else e.selected + 1;
      Moved(Touch(hs, e.placeholder), e.(selected := i, text := Clip(h[i], e.maxLength)))
  }

  /** The index Down reads: one newer, stopping at the newest. */
  function DownIndex(e: Entry): nat {
    if e.selected != 0 then e.selected - 1 else 0
  }

  /** Down: on a non-empty history, select the next newer item, stopping at
      the newest, and show it. Reading past the end of the list is not
      defined, so the index read must be in the list. */
  function Down(hs: Histories, e: Entry): (r: Moved)
    requires |HistoryOf(hs, e.placeholder)| > 0 ==> DownIndex(e) < |HistoryOf(hs, e.placeholder)|
    ensures r.histories == Touch(hs, e.placeholder)
    ensures var h := HistoryOf(hs, e.placeholder);
      (|h| == 0 ==> r.entry == e) &&
      (|h| > 0 ==> r.entry.selected < |h|) &&
      (|h| > 0 ==> r.entry == e.(selected := r.entry.selected, text := Clip(h[r.entry.selected], e.maxLength)))
  {
    var h := HistoryOf(hs, e.placeholder);
    if |h| == 0 then Moved(Touch(hs, e.placeholder), e)
    else
      var i := DownIndex(e);
      Moved(Touch(hs, e.placeholder), e.(selected := i, text := Clip(h[i], e.maxLength)))
  }

  /** The selection of an entry points into its history, or is 0 while
      that history is empty. */
  predicate Bounded(hs: Histories, e: Entry) {
    e.selected == 0 || e.selected < |HistoryOf(hs, e.placeholder)|
  }

  /** Up moves to the next older item, or stays on the oldest. */
  lemma UpSelects(hs: Histories, e: Entry)
    requires Bounded(hs, e) && |HistoryOf(hs, e.placeholder)| > 0
    ensures var n := |HistoryOf(hs, e.placeholder)|;
      Up(hs, e).entry.selected == if e.selected + 1 < n then e.selected + 1 else n - 1
  {
  }

  /** Down moves to the next newer item, or stays on the newest. */
  lemma DownSelects(hs: Histories, e: Entry)
    requires Bounded(hs, e) && |HistoryOf(hs, e.placeholder)| > 0
    ensures Down(hs, e).entry.selected == if e.selected > 0 then e.selected - 1 else 0
  {
  }

  /** Down undoes an Up that moved, and Up undoes a Down that moved. */
  lemma UpThenDown(hs: Histories, e: Entry)
    requires Bounded(hs, e) && e.selected + 1 < |HistoryOf(hs, e.placeholder)|
    ensures var r := Up(hs, e);
      Bounded(r.histories, r.entry) && Down(r.histories, r.entry).entry.selected == e.selected
  {
  }

  lemma DownThenUp(hs: Histories, e: Entry)
    requires Bounded(hs, e) && 0 < e.selected
    ensures var r := Down(hs, e);
      Up(r.histories, r.entry).entry.selected == e.selected
  {
  }

  /** Every handler keeps each entry's selection inside its history: its
      own Activate, Up and Down, and the activation of any other entry,
      which only adds to the histories. */
  lemma HandlersKeepBounded(hs: Histories, e: Entry, other: Entry)
    requires Bounded(hs, e)
    ensures var r := Activate(hs, e); Bounded(r.histories, r.entry)
    ensures var r := Up(hs, e); Bounded(r.histories, r.entry)
    ensures var r := Down(hs, e); Bounded(r.histories, r.entry)
    ensures Bounded(Activate(hs, other).histories, e)
  {
    ActivateOnlyGrows(hs, other, e.placeholder);
  }

  /** A new entry is bounded, and histories of other placeholders are never
      touched by an entry's handlers. */
  lemma HandlersKeepOtherHistories(hs: Histories, e: Entry, k: string)
    requires k != e.placeholder && Bounded(hs, e)
    ensures HistoryOf(Activate(hs, e).histories, k) == HistoryOf(hs, k)
    ensures HistoryOf(Up(hs, e).histories, k) == HistoryOf(hs, k)
    ensures HistoryOf(Down(hs, e).histories, k) == HistoryOf(hs, k)
  {
  }

  lemma NewEntryBounded(hs: Histories, content: string, placeholder: string, length: nat, hasCallback: bool)
    ensures Bounded(hs, NewEntry(content, placeholder, length, hasCallback))
  {
  }
}
