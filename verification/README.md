# The indentation engine of a source editor view, in Dafny

This project models the text-editing core of a source code view (`Source::View`) and the
history of its entry boxes (`EntryBox::Entry`). The buffer is a string, positions are
offsets into it, and the syntax highlighter's verdict "this position is inside a comment or
a string" is a parameter `skip: nat -> bool`. The model covers:

- the four depth scans with their escape-aware quote toggle: back to the start of a closed
  expression, back to an open `(`/`[`, and forward or back to the matching `}`/`{`;
- the key rules of the brace-delimited languages: Enter after `{`, after `:`, after an
  unbraced `if (...)`, after the one statement of such a head, and under an open
  parenthesis; and the `}` and `{` keys that remove a level of indentation;
- the basic key rules: Enter, Tab, Shift-Tab, smart Backspace, smart Delete, smart
  Home/End and typed characters, with the dispatch between the two rule sets;
- smart paste, with its normalisation of `\r\n` and `\r`;
- toggling line comments;
- removing trailing blanks;
- inferring the indentation character and width from a buffer, and how a new view
  uses the result;
- the helpers `get_tabs_end_iter`, `get_token` and `set_tab_char_and_size`, the
  comment prefix of each language, and the classification of fix-its;
- the entry-box history: Activate, Up and Down.

The modules are:

- `Text`: offsets, lines and indentation, with the toolkit's iterator conventions. Reading
  at the buffer end gives NUL, and stepping back from offset 0 stays at 0.
- `Edits`: the editor (text, insert mark, selection bound) and its edits.
- `Settings`, `FixIts` and `Token`.
- `Scanner`, `LinePatterns`, `LineIndent`, `BasicKeys`, `BracketKeys` and `Keys`.
- `Paste`, `Comments`, `Cleanup` and `TabInference`.
- `EntryHistory`.

## Model

| member | source | states |
|---|---|---|
| Scanner.ParenStep | src/source.cc:921-939 | A position the highlighter skips changes nothing. The quote state flips exactly at an unskipped, unescaped `'`. Inside quotes only a quote matters. Parenthesis and bracket depths change only at unquoted, unskipped brackets. |
| Scanner.QuoteEscape | src/source.cc:922-928 | Away from the buffer start, a `'` toggles exactly when it is not preceded by one backslash that is itself not preceded by a backslash. So `\'` does not toggle and `\\'` does. |
| Scanner.QuoteAtStartToggles | src/source.cc:923-928 | A `'` at offset 0 always toggles: it is read as its own predecessor. |
| Scanner.QuotedStretchKeepsDepth | src/source.cc:930-939 | While inside quotes, a stretch without quotes leaves the depth counters unchanged. |
| Scanner.ClosingLine | src/source.cc:920-947 | The scan from the cursor backwards, the cursor's own character included, stops at the nearest line start at or above it where both depths are at most 0. None exactly when no such line start exists. |
| Scanner.AdvanceTabs | src/source.cc:942-943 | The move over indentation characters passes only indentation characters. It stops at the cursor, the buffer end or another character, and never passes the cursor. |
| Scanner.AdvanceTabsStaysOnLine | src/source.cc:942-943 | The move over indentation characters stays on the line it started on. |
| Scanner.FindStartOfClosedExpression | src/source.cc:914-949 | Found exactly when a closing line start exists. The result is that line start advanced over indentation characters, is on the same line, and is not past the cursor. |
| Scanner.FindOpenExpressionSymbol | src/source.cc:951-985 | The result is the first `(` or `[` met backwards where a depth goes negative. It is never below `until` when the scan meets `until`. None exactly when no examined position opens. |
| Scanner.FindRightBracketForward | src/source.cc:987-1016 | The result is the first `}` after the start at nesting depth 0 outside quotes. None exactly when there is none before the buffer end. |
| Scanner.FindLeftBracketBackward | src/source.cc:1018-1047 | The result is the nearest `{` before the start at nesting depth 0 outside quotes. None exactly when there is none after the buffer start. |
| Text.TabsEnd | src/source.cc:905-909 | `get_tabs_end_iter`: the end of the line's leading blanks. Everything before it on the line is blank, and it is the line end or a non-blank. |
| Token.TokenBounds | src/source.cc:1049-1064 | The bounds are the maximal run of identifier characters around the offset. The range is empty exactly when the character there is not an identifier character. |
| Token.GetToken | src/source.cc:1049-1064 | The token holds identifier characters only, and is empty exactly when the offset does not hold one. |
| Settings.TabString | src/source.cc:376-383 | One level of indentation is exactly `size` copies of the indentation character. |
| Settings.CommentPrefix | src/source.cc:272-290 | The brace-delimited languages use `//`. Without a language there is no prefix. Every prefix is non-empty and free of blanks and line breaks. |
| FixIts.Classify | src/source.cc:48-57 | An empty replacement is an erase. Otherwise the fix-it is an insertion exactly when the range is empty, and a replacement exactly when it is not. |
| LinePatterns.OpensBlockByLastNonSpace | src/source.cc:88 | For a line without line breaks, `bracket_regex` matches exactly when the last character before the trailing spaces is `{`. |
| LinePatterns.TerminatedIsNotHeadless | src/source.cc:89-90 | A line ending in `;` or `}` never matches `no_bracket_statement_regex`. |
| Keys.TypedCharacterIsPrintable | src/source.cc:1374-1376 | A key that passes the printable test types its Unicode value, and never a line break. `TypeOrPass` relies on it. |
| BasicKeys.TrimStartRemovesBlanks | src/source.cc:1163-1176 | Enter removes only blanks before the cursor. It keeps the indentation of a line that is blank up to the cursor, and otherwise stops right after a non-blank. |
| BasicKeys.EnterIndentation | src/source.cc:1178-1192 | The new line's indentation is the line's leading blanks cut at the cursor. It is the next line's indentation instead when the cursor ends its line and the next line is indented deeper. |
| BasicKeys.Enter | src/source.cc:1161-1196 | Without a selection and away from a line start, the blanks around the cursor are replaced by a line break and the indentation. Otherwise the toolkit handles the key and nothing changes. |
| BasicKeys.EnterIndentsNewLine | src/source.cc:1161-1196 | After Enter the cursor stands at the end of the new line's indentation, and that indentation is the one computed. |
| BasicKeys.NeighbourIndent | src/source.cc:1205-1220 | On an empty line, the candidate indentation is the shallower of the nearest non-empty lines above and below. |
| BasicKeys.Tab | src/source.cc:1197-1239 | With line indenting off and no selection, one unit is typed. On an empty line the neighbours' indentation is typed when it is at least one unit deep. Otherwise every touched line gets one unit in front. |
| BasicKeys.TabIndentsEmptyLine | src/source.cc:1205-1225 | The copied indentation becomes the empty line's whole indentation, with the cursor at its end. |
| BasicKeys.ShiftTab | src/source.cc:1240-1281 | Shift-Tab is always handled, and its result is the line-by-line unindent of the touched lines that `LineIndent.UnindentSelection` characterises. It never lengthens the text. |
| BasicKeys.ShiftTabUndoesTab | src/source.cc:1197-1281 | Shift-Tab after a Tab that indented the touched lines gives the text back. |
| BasicKeys.Backspace | src/source.cc:1282-1297 | When everything before the cursor on its line is blank, that part is erased. Otherwise nothing changes. The toolkit's Backspace follows in both cases. |
| BasicKeys.BackspaceJoinsLines | src/source.cc:1282-1297 | Inside a line's indentation, one Backspace joins the line to the one above and drops the blanks before the cursor. |
| BasicKeys.Delete | src/source.cc:1298-1319 | A blank rest of line, its line break and, away from a line start, the next line's indentation are erased up to their last character. Otherwise nothing changes. |
| BasicKeys.DeleteEnd | src/source.cc:1300-1315 | Everything smart Delete removes is blank, apart from the one line break. |
| BasicKeys.DeleteRemovesRun | src/source.cc:1298-1319 | Smart Delete followed by the toolkit's Delete removes the whole run. |
| BasicKeys.HomeTarget | src/source.cc:1346-1368 | Home goes to the end of the indentation or to the line start, and stays on the line. |
| BasicKeys.HomeAlternates | src/source.cc:1346-1368 | Pressing Home repeatedly alternates between the two targets. They coincide exactly when the line is not indented. |
| BasicKeys.ContentEnd | src/source.cc:1323-1329 | Corrected definition (second column of the first finding), not the code as written: the end of the line's text: after its last non-blank, or at the line start when the line is blank. Only blanks follow it on the line. |
| BasicKeys.EndAlternates | src/source.cc:1322-1345 | For the corrected End that the model runs: pressing End repeatedly alternates between the line end and the end of the text. They coincide exactly when the line ends in no blank. |
| BasicKeys.ContentEndAsWrittenDiffers | src/source.cc:1325-1329 | The computation as written agrees with `ContentEnd`, except on lines whose only non-blank is in column 0. There it gives column 0. |
| BasicKeys.LoneBraceEnd | src/source.cc:1325-1329 | On the line `}`, the text ends at column 1, but the source computes column 0. |
| BasicKeys.MoveTo | src/source.cc:1330-1341 | Home and End move the cursor. With Shift they move only the insert mark, so the selection is kept. |
| BasicKeys.TypeCharacter | src/source.cc:1377-1382 | A typed character replaces the selection, with the cursor after it. |
| BasicKeys.BasicKeyPress | src/source.cc:1157-1396 | A key passed on to the toolkit changes nothing, apart from Backspace and Delete. A character key is handled exactly when it types a character. Home and End never change the text. |
| LineIndent.IndentSelection | src/source.cc:1228-1236 | Every touched line gets the unit in front. The other lines are unchanged. |
| LineIndent.UnindentSteps | src/source.cc:1247-1268 | Shift-Tab stops exactly when a touched non-empty line has no leading blanks. Otherwise it takes off the least indentation of the non-empty lines, capped at the unit width. |
| LineIndent.UnindentSelection | src/source.cc:1240-1281 | Either nothing changes, or every touched non-empty line loses the same number of leading blanks and the other lines are unchanged. |
| LineIndent.UnindentAfterIndent | src/source.cc:1228-1281 | Shift-Tab undoes Tab line by line. |
| LineIndent.TouchedAfterIndent | src/source.cc:1228-1236 | After Tab, the selection touches the same lines. |
| BracketKeys.TrimStartAsWrittenDiffers | src/source.cc:1405-1417 | The bracket handler's trim differs from the basic one exactly on a line whose first character is not blank and is followed only by blanks up to the cursor. |
| BracketKeys.LoneLetterKeepsBlanks | src/source.cc:1405-1417 | With the cursor after `x  `, the bracket handler as written keeps the two blanks. |
| BracketKeys.TrimmedFacts | src/source.cc:1404-1418 | For the corrected trim (second finding), which the model uses for both handlers instead of the code as written: the cursor afterwards is followed by a non-blank or the line end. Before it stands a non-blank, or nothing but the line's indentation. |
| BracketKeys.StatementToken | src/source.cc:1452-1458 | The token that decides `};` consists of identifier characters only. It is `get_token` at the sentence start whenever an identifier stands there. |
| BracketKeys.BlockCloser | src/source.cc:1426-1470 | A second line is opened exactly when the cursor is before `}` or the block has no `}` at the sentence's indentation. That line then starts with `}`. |
| BracketKeys.EnterAfterBraceIndents | src/source.cc:1426-1476 | Enter after `{` keeps the text before the cursor. The new line holds the sentence's indentation plus one unit, and the cursor is at its end. |
| BracketKeys.EnterAfterBraceCloses | src/source.cc:1437-1470 | When a closing line is opened, it is indented like the sentence and starts with `}`. |
| BracketKeys.AlignedTabs | src/source.cc:1481-1489 | Under an open `(` or `[`, the new line is indented with blanks up to one past the symbol's column, and starts with the symbol line's own indentation. |
| BracketKeys.StatementCaseOf | src/source.cc:1478-1525 | The cases follow the source's branches. Aligned holds exactly when an open symbol is found. After a head, the line matches a head pattern. At a body end, the line ends in `;` under a head. After a label, the line ends in `:`. |
| BracketKeys.EnterAfterStatementIndents | src/source.cc:1478-1554 | The new line's indentation in each case: aligned under the open symbol, one unit deeper after a head, or like the sentence otherwise. |
| BracketKeys.EnterAfterBodyEnd | src/source.cc:1503-1523 | After the one statement under an unbraced head, the new line is indented like the head line. |
| BracketKeys.EnterAfterColonIndents | src/source.cc:1525-1551 | After `:`, the new line is indented like the sentence, or one unit deeper when the label sits at the block's depth. A label one unit deeper than its block first loses that unit. |
| BracketKeys.EnterAfterTrim | src/source.cc:1418-1421 | The bracket rules give no result exactly when no line start above the cursor closes the expression. |
| BracketKeys.CloseBrace | src/source.cc:1558-1577 | Typing `}` rewrites only the line before the cursor. It loses one unit first when it is all indentation characters and at least one unit long. |
| BracketKeys.CloseBraceDedents | src/source.cc:1558-1577 | After `n >= size` indentation characters, `}` follows `n - size` of them on the same line. |
| BracketKeys.OpenBraceDedent | src/source.cc:1579-1602 | `{` dedents exactly in the source's case: the line after an unbraced head, with the cursor at the end of an indentation one unit deeper than the head. The last unit is then replaced by the brace. |
| BracketKeys.OpenBraceAligns | src/source.cc:1579-1602 | After the dedent, `{` stands in the head's column on the same line. |
| BracketKeys.BracketKeyPress | src/source.cc:1399-1606 | Keys other than Enter, `}` and `{` get the basic rules, as does Enter at a line start. `}` is always handled. |
| BracketKeys.KeyPress | src/source.cc:1143-1153 | With a selection, after a comment or string, or outside the brace-delimited languages, the basic rules apply. Otherwise the bracket rules apply. |
| Paste.NormalizeBreaks | src/source.cc:693-701 | The result holds no `\r`. It is empty exactly when the input is, and is never longer. |
| Paste.NormalizeKeepsContent | src/source.cc:693-701 | Normalising changes line-break characters only. |
| Paste.NormalizeIdempotent | src/source.cc:693-701 | Normalising twice is normalising once. |
| Paste.PasteLinesJoin | src/source.cc:715-749 | Joining the pasted lines, plus a final `\n` if there was one, gives the text back. |
| Paste.ScanLines | src/source.cc:715-749 | The source's loop over the text visits exactly the lines of `PasteLines`. |
| Paste.LeastTabs | src/source.cc:715-749 | The running minimum is at most the tab count of every non-empty later line, and it is attained. |
| Paste.BaseTabs | src/source.cc:736-751 | The common count is at most the first line's count when that is not 0, and at most the count of every non-empty later line. It is 0, the first line's count, or some later line's count. |
| Paste.StripLosesTabs | src/source.cc:775-788 | Stripping removes only leading tab characters, and lowers the tab count by exactly the number removed. |
| Paste.PastedLines | src/source.cc:757-792 | The inserted text's lines are exactly the re-based lines. |
| Paste.RebaseKeepsRelativeIndent | src/source.cc:775-788 | A non-empty later line starts after the prefix with its own tab count less the common one, and keeps the rest of its characters. |
| Paste.RebaseLeastAtPrefix | src/source.cc:736-788 | Unless the first line seeded the common count, some later line ends up exactly at the prefix. |
| Paste.PasteText | src/source.cc:690-802 | Re-basing happens exactly when there is no selection and the cursor's whole line is blank, so that its leading blanks reach the line end. Otherwise the toolkit pastes the normalised text. |
| Paste.PasteRebases | src/source.cc:703-793 | The text before the cursor and after the insertion is kept. The inserted lines are the re-based lines of the normalised clipboard text, each later one after the line's blanks. |
| Comments.ScanLine | src/source.cc:303-344 | The per-line scan is blank exactly for lines without code. For a line of code it reports the indentation, whether the prefix follows it, and whether a space follows the prefix. |
| Comments.MinIndent | src/source.cc:345-351 | The least indentation over the touched lines of code is attained. It is None exactly when no touched line holds code. |
| Comments.ToggleComments | src/source.cc:292-372 | The lines become the toggled lines. Nothing changes when every touched line is blank. |
| Comments.ToggleCommentsAdds | src/source.cc:352-369 | When some touched line of code lacks the prefix, each touched line of code gets the prefix and a space at the least indentation. Every other line is unchanged. |
| Comments.ToggleCommentsRemoves | src/source.cc:352-366 | When every touched line of code has the prefix, each one loses it right after its indentation, together with the space when all of them have one. Every other line is unchanged. |
| Comments.UncommentLines | src/source.cc:300-366 | The removal is chosen only when every touched line of code is commented. The width removed is the prefix, plus one exactly when every such line has the space. |
| Comments.ToggleCommentsTwice | src/source.cc:292-372 | Commenting and then toggling again gives the text back. |
| Comments.TouchedAfterComment | src/source.cc:294-299 | After commenting, the selection touches the same lines. |
| Cleanup.ContentLength | src/source.cc:393-397 | The split point leaves only blanks after it, and a non-blank or nothing right before it. |
| Cleanup.TrimPointUnique | src/source.cc:393-397 | There is only one such split point. |
| Cleanup.WalkBack | src/source.cc:388-400 | The source's backward walk over a non-empty line stops at that split point. |
| Cleanup.TrimmedClean | src/source.cc:393-400 | A line is left unchanged exactly when it does not end in a blank. |
| Cleanup.CleanupLines | src/source.cc:385-406 | Every line becomes its trimmed form. A line break is added exactly when the last line keeps content, so the buffer ends empty or with `\n`. |
| Cleanup.CleanupLeavesClean | src/source.cc:385-406 | Afterwards no line ends in a blank. |
| Cleanup.CleanBufferUnchanged | src/source.cc:385-406 | A buffer of clean lines that ends at a line start is left unchanged. |
| Cleanup.CleanupIdempotent | src/source.cc:385-406 | Cleaning up twice is cleaning up once. |
| TabInference.Bump | src/source.cc:1665-1670 | `h[k]++` raises the key's count by one, inserting it at 1 when missing, and leaves every other key unchanged. |
| TabInference.BracketStep | src/source.cc:1652-1728 | One step of the brace-language scan always moves forward and stays within the buffer. |
| TabInference.Top | src/source.cc:1771-1786 | The loop over a histogram picks a key of highest count, the first such in iteration order. It gives nothing exactly when no key in the order was counted. |
| TabInference.StrictMaximumWins | src/source.cc:1771-1786 | A key counted more often than every other wins, whatever the iteration order. |
| TabInference.FindTabCharAndSize | src/source.cc:1637-1788 | The character is NUL, and the width 0, exactly when nothing in the iteration order was counted. A found character is a blank. |
| TabInference.FoundNothing | src/source.cc:1771-1787 | Over all keys, the width is 0 exactly when no change of indentation was recorded. The character is NUL exactly when no blank was counted. |
| TabInference.ScanWellFormed | src/source.cc:1637-1769 | Both scans count only spaces and tabs, and record only positive widths. |
| TabInference.InfersConsistentUnit | src/source.cc:1730-1788 | A buffer indented consistently with one blank character and width gives back that character and width, whatever the iteration order. |
| TabInference.OpeningUnitAsWritten | src/source.cc:253-270 | As written, a found character replaces the configured unit together with the found width, even a width of 0. |
| TabInference.WidthZeroAsWritten | src/source.cc:253-270 | For the buffer `"  \n"` the view as written takes width 0, so one level of indentation is the empty string. |
| TabInference.OpeningUnit | src/source.cc:253-270 | Corrected definition (third finding), not the code as written: a found character is taken. The found width is taken only when it is not 0, and the configured width otherwise. |
| TabInference.OpeningUnitKeepsWidth | src/source.cc:253-270 | With the fix, the unit is never narrower than one column, and agrees with the source whenever a width was found. |
| TabInference.UnitOnOpen | src/source.cc:253-270 | With the corrected width rule: a new view's unit is valid and at least one column wide. It is the configured unit when detection is off, and the buffer's consistent unit when detection is on. |
| EntryHistory.Touch | src/entrybox.cc:35 | Looking a placeholder up adds it with an empty history when missing, and changes no other history. |
| EntryHistory.Clip | src/entrybox.cc:20-21 | Showing a text in an entry with a maximum length keeps a prefix of at most that length. |
| EntryHistory.NewEntry | src/entrybox.cc:19-22 | A new entry shows a prefix of its content and selects item 0. |
| EntryHistory.Record | src/entrybox.cc:27-28 | The activated text ends up first. The history is unchanged exactly when it already started with that text, and otherwise grows by that text in front. |
| EntryHistory.Activate | src/entrybox.cc:23-31 | Without a callback nothing happens. Otherwise the text is recorded in its placeholder's history, the selection goes back to 0, the callback gets the text, and every other history is kept. |
| EntryHistory.ActivateKeepsNoDuplicates | src/entrybox.cc:25-28 | No history ever holds the same text twice in a row. |
| EntryHistory.ActivateTwice | src/entrybox.cc:25-28 | Activating the same text again leaves the histories unchanged. |
| EntryHistory.ActivateOnlyGrows | src/entrybox.cc:25-28 | A history either stays the same or gains one item in front. |
| EntryHistory.Up | src/entrybox.cc:34-42 | On an empty history the entry is unchanged. Otherwise the selection stays in the history and the entry shows the selected item. |
| EntryHistory.UpSelects | src/entrybox.cc:36-39 | Up selects the next older item, or stays on the oldest. |
| EntryHistory.Down | src/entrybox.cc:44-52 | On an empty history the entry is unchanged. Otherwise the selection stays in the history and the entry shows the selected item. |
| EntryHistory.DownSelects | src/entrybox.cc:46-48 | Down selects the next newer item, or stays on the newest. |
| EntryHistory.UpThenDown | src/entrybox.cc:34-52 | Down undoes an Up that moved. |
| EntryHistory.DownThenUp | src/entrybox.cc:34-52 | Up undoes a Down that moved. |
| EntryHistory.HandlersKeepBounded | src/entrybox.cc:22-52 | Activate, Up and Down keep an entry's selection inside its history, or at 0 while that history is empty. So does another entry's Activate. |
| EntryHistory.HandlersKeepOtherHistories | src/entrybox.cc:17-45 | An entry's handlers never change the history of another placeholder. |
| EntryHistory.NewEntryBounded | src/entrybox.cc:19-22 | A new entry starts with its selection bounded. |

## Left out

- Line ends: the toolkit also ends lines at `\r` and at Unicode separators. The model splits lines at `\n` only. Paste turns every `\r` into `\n` before it splits.
- The syntax highlighter: whether a position is in a comment or string is the parameter `skip`.
- The clipboard: paste takes the clipboard text as a parameter. When no re-basing happens, the model returns the normalised text handed back to the toolkit, and does not model the toolkit's own paste.
- The toolkit's default key handling is represented in two ways:
  - a key the model does not handle is returned as passed on;
  - the toolkit's Backspace and Delete without a selection are modelled as erasing one character (`ToolkitBackspace`, `ToolkitDelete`), as the toolkit does.
- Not modelled because they do not change the text or the cursor:
  - scrolling;
  - undo grouping (`begin_user_action`/`end_user_action`);
  - the cursor-visibility trick.
- The dead-key check: whether the previous key was a dead key is the parameter `afterDeadKey`.
- Unicode: characters are Dafny `char`s, and `gdk_keyval_to_unicode` is modelled only for the keys the model names.
- Iteration order: the order of the two `std::unordered_map`s that `find_tab_char_and_size` loops over is fixed by nothing. It is the parameters `charOrder` and `sizeOrder`.
- TabInference.InfersConsistentUnit: the round trip is proved only for the scan of languages without brace rules, and only on buffers without quotes or parentheses. For the brace-language scan, the model proves only that the histograms hold blanks and positive widths (`ScanWellFormed`).
- TabInference.Narrow: storing a character in a C `char` is modelled as keeping the low 8 bits. Only the comparisons with ASCII characters depend on it.
- BasicKeys.EndTarget: the End key runs the corrected `ContentEnd`, not the walk of src/source.cc:1325-1329 as written. On a line whose only non-blank is in column 0, such as `}` with the cursor at its end, the source moves to column 0 and the model to column 1. `ContentEndAsWritten` and `LoneBraceEnd` model the code as written.
- BasicKeys.ContentEnd, BasicKeys.EndAlternates and BasicKeys.BasicKeyPress: these are stated for the corrected End above.
- BracketKeys.BracketKeyPress: Enter in a brace-delimited language trims with the basic handler's trim, not the walk of src/source.cc:1409-1417 as written. On `x  ` with the cursor at the end the source keeps the blanks and the model removes them. `TrimStartAsWritten` and `LoneLetterKeepsBlanks` model the code as written.
- BracketKeys.TrimmedFacts: stated for the corrected trim. The trim as written can leave blanks before the cursor after a non-blank in column 0.
- TabInference.UnitOnOpen: a new view takes the corrected width rule `OpeningUnit`, so its unit is at least one column wide. As written, src/source.cc:266-267 set the width to 0 when a character but no width was found, as for the buffer `"  \n"`; `OpeningUnitAsWritten` and `WidthZeroAsWritten` model that.
- TabInference.OpeningUnit: the corrected rule above, not the code as written.
- EntryHistory.Up: the declaration of `selected_history` (in `entrybox.h`) is not part of this model. The index is an unbounded `nat`, so a wrap-around of an unsigned counter is not modelled. The bound invariant keeps the index below the history length anyway.
- EntryHistory.Down: reading past the end of the history vector is undefined in the source. `Down` therefore requires the index it reads to be in range, which `HandlersKeepBounded` shows always holds.
- Entry boxes: placing the cursor at the end after Up and Down (`set_position(-1)`), the key handler's `false` return that lets the toolkit go on, and the widget code are not modelled. The callback is represented only by the text it receives.
- The `auto_indent` formatter, file I/O, search and replace, styling, tooltips, the paragraph moves with Ctrl-Up/Down and the generic language views are outside the modelled core.

## Findings

| source | as written | input that shows it | evidently intended | confidence | as-written member | corrected member |
|---|---|---|---|---|---|---|
| src/source.cc:1325-1329 | Smart End steps one past where the walk back stops, unless the walk stopped at the line start. A non-blank in column 0 is then taken as the end of the text. | the line `}` with the cursor at its end: the second End goes to column 0 | the end of the text is after the last non-blank, column 1 | not executed | BasicKeys.LoneBraceEnd | BasicKeys.EndAlternates |
| src/source.cc:1410-1417 | The bracket Enter handler takes the walk back over blanks as having met text only when it stopped away from the line start. A non-blank first character is then overlooked, and the blanks before the cursor are kept. | `x  ` with the cursor at the end, then Enter: the line stays `x  ` | remove the blanks after `x`, as the basic handler does (src/source.cc:1171-1176) | not executed | BracketKeys.LoneLetterKeepsBlanks | BracketKeys.TrimmedFacts |
| src/source.cc:256-268 | A found indentation character replaces the configured unit together with the found width, even when the width is 0. | the buffer `"  \n"`, with automatic detection on: the width becomes 0 and one level of indentation is empty | keep the configured width when no change of indentation was found | not executed | TabInference.WidthZeroAsWritten | TabInference.OpeningUnitKeepsWidth |

Where the code and its documentation disagree, the model follows the code, with the three findings above as the exceptions:

- Smart End goes first to the end of the line and only then to the end of its text.
- The model runs the corrected halves of the three findings; "## Left out" names each member that does.
