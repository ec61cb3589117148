# Advanced text editor and weather lookup — Dafny model

This project models the core of two small Tkinter desktop programs.

**The advanced text editor** (`TextEditor` in `ms_editor_2.py`) keeps a
text buffer with named tags over its characters. The model covers:

- the editor's own undo and redo lists of plain-text checkpoints;
- the bold, italic and underline toggles, the alignment and colour
  commands, and hyperlink insertion;
- the spell-check pass, which tags every span the widget's forward search
  visits for each word the dictionary does not know;
- Replace All, which is Python's `str.replace`;
- New and Open;
- the word count shown in the status bar.

**The weather app** (`weatherChanges.py`) turns a WMO weather code into a
description, with "Unknown" for unlisted codes.

## Structure

- `basics.dfy` — `Option`, `Span` (a half-open offset range), `Range` (the
  offsets of a span), and two set identities.
- `search.dfy` — `Search`: the text widget's exact forward search
  (`FindFrom`). `Matches` is the left-to-right non-overlapping scan built on
  it: find a match, resume at its end. The file proves that the scan skips
  nothing except overlapping occurrences, and that its spans are disjoint
  and in increasing order.
- `tokens.dfy` — `Tokens`: maximal runs of one character class. With `\w` the
  runs are `re.findall(r'\b\w+\b', …)`; with non-whitespace they are
  `str.split()`, whose length is the status bar's word count.
- `replace.dfy` — `StrReplace`: `str.replace` with no count, including the
  empty-pattern case. It proves the length law, that replacing an absent
  pattern changes nothing, and that replacing a pattern by itself changes
  nothing.
- `tags.dfy` — `Tags`: a tag map (tag name → set of offsets), with
  `tag_add` and `tag_remove`, the first-character toggle, and the link tag's
  name.
- `history.dfy` — `History`: the two checkpoint lists as a value, with the
  undo/redo round trips.
- `spelling.dfy` — `Spelling`: the set of offsets the spell-check pass tags,
  and its exact characterisation.
- `editor.dfy` — `Editor.TextEditor`: the editor as a class whose methods
  update its fields. The spell-check pass and the link's tag stripping are
  loops, proved against the functions above.
- `weather.dfy` — `Weather`: the description table and its lookup.

Buffer positions are flat character offsets from 0 rather than Tk's
`line.column` indices.

Some of the source's behaviour is easy to misread. The model follows the
source:

- The undo list starts empty (`ms_editor_2.py:27`), not with a checkpoint of
  the initial text. Until two changes are recorded, Undo does nothing.
- Checkpoints hold the plain text only. Undo and Redo drop every tag's
  characters.
- The style toggles look only at the first selected character
  (`tag_names("sel.first")`). After toggling a partly tagged selection
  twice, the selection is uniformly tagged or untagged, as its first
  character was, and is not restored.
  `Tags.DoubleToggleRestores` proves when restoration does and does not
  happen.
- The spell-check pass never removes `misspelled` tags. It adds to the ones
  already there.
- The `misspelled` tag is created (configured) even when nothing is tagged.
- Undo's and redo's own delete and insert (`ms_editor_2.py:261-262`,
  `ms_editor_2.py:268-269`) set the widget's modified flag. The
  `<<Modified>>` binding (`ms_editor_2.py:29`) then runs `track_changes`,
  which pushes a copy of the checkpoint now shown and empties the redo
  list. So in the running program Redo never has anything to restore, and
  a second Undo only shows the same checkpoint again.
  `Editor.UndoWithModifiedEvent` states this sequence.
  `History.UndoThenRedo` and `Editor.UndoRedoRoundTrip` hold only when
  redo directly follows undo, with no event in between.

## Model

| member | source | states |
|---|---|---|
| Editor.TextEditor.constructor | ms_editor_2.py:27-28 | The editor starts with an empty buffer, no tags, no selection, and empty undo and redo lists |
| Editor.TextEditor.Select | ms_editor_2.py:99 | The selection (`sel.first`/`sel.last`) becomes the chosen non-empty in-bounds range |
| Editor.TextEditor.SetBuffer | ms_editor_2.py:261-262 | Delete-all-then-insert: the text becomes `t`; every tag keeps its name but loses its characters; the selection goes; modified is set exactly when a character was deleted or inserted |
| Editor.TextEditor.TrackChanges | ms_editor_2.py:251-255 | When the modified flag is set, the current text is pushed on the undo list, the redo list is emptied and the flag cleared; otherwise both lists are untouched |
| Editor.TextEditor.Undo | ms_editor_2.py:257-262 | With more than one checkpoint, the top moves to the redo list and the buffer shows the new top; with one or none, nothing changes |
| Editor.TextEditor.Redo | ms_editor_2.py:264-269 | With a redo entry, it moves back to the undo list and the buffer shows it; with none, nothing changes |
| Editor.UndoRedoRoundTrip | ms_editor_2.py:257-269 | On the editor object, undo followed directly by redo restores both lists and shows the checkpoint that was on top |
| Editor.UndoWithModifiedEvent | ms_editor_2.py:29 | Undo followed by the `<<Modified>>` handler that its own buffer change triggers: the redo list ends empty and the undo list holds the shown checkpoint twice, so the undone text cannot be redone |
| Editor.TextEditor.ToggleStyle | ms_editor_2.py:98-120 | The tag is removed from the whole selection if the first selected character has it, added otherwise; no selection, no change |
| Editor.TextEditor.ToggleBold | ms_editor_2.py:98-104 | `ToggleStyle` with the `bold` tag |
| Editor.TextEditor.ToggleItalic | ms_editor_2.py:106-112 | `ToggleStyle` with the `italic` tag |
| Editor.TextEditor.ToggleUnderline | ms_editor_2.py:114-120 | `ToggleStyle` with the `underline` tag |
| Editor.TextEditor.Align | ms_editor_2.py:122-124 | The toolbar's `'left'`, `'center'` or `'right'` argument (`ms_editor_2.py:76-78`, the `Alignment` value whose `Name` is that string) is added as a tag over the selection; other alignment tags are left in place |
| Editor.TextEditor.ChangeColor | ms_editor_2.py:126-130 | When the chooser returns a non-empty colour and there is a selection, the `color` tag is added over it; otherwise nothing changes |
| Editor.TextEditor.InsertLink | ms_editor_2.py:132-152 | Without a selection or a non-empty URL nothing changes. Otherwise every tag, `sel` included, is stripped from the range, `link-<start>` is added over it and bound to the URL, and no other link binding changes |
| Editor.TextEditor.CheckSpelling | ms_editor_2.py:236-249 | For any dictionary answer of non-empty words, the `misspelled` tag gains exactly the offsets of `Spelling.Misspelt` for that answer; every other tag is unchanged |
| Editor.TextEditor.TagOccurrences | ms_editor_2.py:241-248 | The inner search loop adds exactly the spans of the non-overlapping forward scan (`Search.Cover`) to `misspelled`, touches no other tag, and stops |
| Editor.TextEditor.ReplaceText | ms_editor_2.py:230-234 | The text becomes `str.replace(find, repl)` of the old text; tags keep their names but lose their characters |
| Editor.TextEditor.NewFile | ms_editor_2.py:179-180 | The buffer is emptied; modified is set exactly when it held text |
| Editor.TextEditor.OpenFile | ms_editor_2.py:182-188 | A cancelled dialog changes nothing; otherwise the buffer holds the file's content |
| History.Record | ms_editor_2.py:253-254 | A recorded change leaves nothing to redo, the recorded text on top, and the earlier checkpoints below it |
| History.Undo | ms_editor_2.py:257-260 | With more than one checkpoint, exactly one leaves the undo list (at least one stays) and the old top becomes the redo list's top; otherwise nothing changes |
| History.Redo | ms_editor_2.py:264-267 | With something to redo, the redo list's top moves onto the undo list as its new top; otherwise nothing changes |
| History.StepsPreserveSize | ms_editor_2.py:257-269 | Undo and redo move checkpoints between the lists and never create or lose one |
| History.UndoThenRedo | ms_editor_2.py:257-269 | Redo right after undo restores both lists and shows the undone text again |
| History.RedoThenUndo | ms_editor_2.py:257-269 | Undo right after redo restores both lists |
| History.UndoNLength | ms_editor_2.py:257-262 | k undos with more than k checkpoints remove exactly k of them |
| History.RedoAfterUndo | ms_editor_2.py:257-269 | Any run of redos that starts right after an undo first cancels that undo |
| History.UndoRedoN | ms_editor_2.py:257-269 | Any k undos followed by k redos return to the same history |
| Tags.Add | ms_editor_2.py:103 | `tag_add`: the tag covers its old offsets plus the range; the tag becomes defined; every other tag is unchanged |
| Tags.AddKeepsOthers | ms_editor_2.py:247 | Adding an in-buffer range keeps every tag inside the buffer and changes no other entry of the map |
| Tags.Remove | ms_editor_2.py:101 | `tag_remove`: the tag keeps exactly its offsets outside the range; every other tag is unchanged |
| Tags.Strip | ms_editor_2.py:144-145 | Removing every defined tag from a range keeps every name and exactly the offsets outside the range |
| Tags.Cleared | ms_editor_2.py:180 | Deleting the whole text keeps every tag name and leaves no offset tagged |
| Tags.Toggled | ms_editor_2.py:98-103 | After one toggle every selected character is tagged exactly when the first one was not; no other tag and nothing outside the selection changes |
| Tags.DoubleToggleUniform | ms_editor_2.py:98-103 | After two toggles every selected character has the first character's original state |
| Tags.DoubleToggleRestores | ms_editor_2.py:98-103 | Two toggles restore every tag if and only if the selection was uniformly tagged or untagged |
| Tags.LinkedExclusive | ms_editor_2.py:144-148 | After inserting a link, a character in the range carries the link's tag and nothing else; characters outside keep their tags |
| Tags.LinkTagName | ms_editor_2.py:147 | A link's tag name is `link-` followed by its start position |
| Tags.Decimal | ms_editor_2.py:147 | The start position is written in decimal digits, one digit exactly for values below ten |
| Tags.DecimalInjective | ms_editor_2.py:147 | Different positions have different decimal numerals |
| Tags.LinkTagNames | ms_editor_2.py:147 | Links at different starts get different tags, and no link tag is a style, colour, spelling or alignment tag |
| Search.FindFrom | ms_editor_2.py:243 | A found position is at or after the start and the word occurs there |
| Search.FindFromFirst | ms_editor_2.py:243 | The search skips no occurrence: it finds one at or before any occurrence at or after the start |
| Search.MatchAtSlice | ms_editor_2.py:243 | The character-wise match is the same as the slice of the text being equal to the word |
| Search.Matches | ms_editor_2.py:242-248 | Every position the scan takes is an in-bounds occurrence at or after the start |
| Search.MatchesStep | ms_editor_2.py:246-248 | After a match at p, the scan continues from p + len(word) |
| Search.MatchesSpaced | ms_editor_2.py:246-248 | The scan's spans are disjoint and in increasing order |
| Search.SpacedCons | ms_editor_2.py:246-248 | A first match that ends before every later one keeps the spans disjoint |
| Search.ScanAdvance | ms_editor_2.py:243-248 | One round of the loop takes the scan's next match |
| Search.ScanEnd | ms_editor_2.py:244-245 | When the search fails, the loop has taken every match of the scan |
| Search.MatchesComplete | ms_editor_2.py:242-248 | Every occurrence lies inside one of the spans the scan takes |
| Search.MatchesExact | ms_editor_2.py:242-248 | An occurrence that no taken span straddles is itself taken |
| Search.SpanUnionMembers | ms_editor_2.py:247 | An offset is covered by the spans exactly when it lies in one of them |
| Search.SpanUnionBelow | ms_editor_2.py:247 | Spans that end inside the buffer cover only offsets inside it |
| Search.SpanUnionAppend | ms_editor_2.py:247 | Tagging one more span adds exactly its offsets |
| Search.Cover | ms_editor_2.py:241-248 | The offsets tagged for one word all lie inside the text |
| Spelling.Misspelt | ms_editor_2.py:240-248 | The offsets tagged for the unknown words all lie inside the text |
| Spelling.MisspeltInsert | ms_editor_2.py:240 | Handling one more word adds exactly that word's tagged offsets |
| Spelling.MisspeltExact | ms_editor_2.py:240-248 | An offset is tagged if and only if it lies in a span the search visits for some unknown word |
| Spelling.UnknownWordTagged | ms_editor_2.py:238-248 | Every dictionary answer that is also one of the text's words is tagged over at least one full occurrence; an answer spelt differently (lowercased) may tag nothing |
| Tokens.RunEnd | ms_editor_2.py:238 | A run ends at the first character outside the class, or at the end of the text |
| Tokens.RunSpans | ms_editor_2.py:238 | Runs are non-empty, in bounds, separated and in increasing order |
| Tokens.RunSpansFromExact | ms_editor_2.py:238 | Starting from a run boundary, the runs found are exactly the maximal runs after it |
| Tokens.RunSpansExact | ms_editor_2.py:238 | The runs of the whole text are exactly its maximal runs |
| Tokens.Words | ms_editor_2.py:238 | `re.findall(r'\b\w+\b')` returns, in order, the text of each maximal run of word characters |
| Tokens.WordsAreRuns | ms_editor_2.py:238 | Each word is non-empty, made of word characters, and occurs in the text |
| Tokens.SliceChars | ms_editor_2.py:238 | Every character of a run is in the run's class |
| Tokens.IsSpace | ms_editor_2.py:91 | Python's `str.isspace`; among ASCII characters it holds exactly for space, tab, line feed, carriage return, vertical tab, form feed and the four separators U+001C-U+001F |
| Tokens.IsWordChar | ms_editor_2.py:238 | The class `\w` (ASCII); no word character is whitespace |
| Tokens.WordCount | ms_editor_2.py:91 | `len(content.split())` is the number of non-whitespace characters that follow whitespace or the start of the text |
| Tokens.NoStartsInsideRun | ms_editor_2.py:91 | No token starts strictly inside a run |
| Tokens.RunSpansCount | ms_editor_2.py:91 | From a boundary, the number of runs is the number of run starts |
| Tokens.WordCountTokensExact | ms_editor_2.py:91 | The counted tokens are exactly the maximal runs of non-whitespace characters |
| StrReplace.Replace | ms_editor_2.py:232 | `len(s.replace(old, new)) == len(s) + s.count(old) * (len(new) - len(old))`, empty `old` included |
| StrReplace.Count | ms_editor_2.py:232 | `s.count(old)` is zero exactly when `old` does not occur (the empty string occurs everywhere) |
| StrReplace.CountedOccurrences | ms_editor_2.py:232 | The scan takes some match exactly when a non-empty pattern occurs |
| StrReplace.InterleaveLength | ms_editor_2.py:232 | An empty pattern inserts the replacement len(s) + 1 times |
| StrReplace.ReplaceFromLength | ms_editor_2.py:232 | Each non-overlapping match found by the scan changes the length by len(new) - len(old) |
| StrReplace.ReplaceAbsent | ms_editor_2.py:232 | When the pattern does not occur, the text is unchanged |
| StrReplace.InterleaveEmpty | ms_editor_2.py:232 | Replacing the empty pattern with the empty string changes nothing |
| StrReplace.ReplaceFromSelf | ms_editor_2.py:232 | Replacing every scan match by itself gives back the text from the start point |
| StrReplace.ReplaceSelf | ms_editor_2.py:232 | Replacing any pattern by itself leaves the text unchanged |
| Weather.Description | weatherChanges.py:72-84 | The listed text for a listed code, "Unknown" exactly for unlisted or missing codes, and never empty |
| Weather.NoEntryIsUnknown | weatherChanges.py:73-83 | No entry of the table is empty or reads "Unknown" |
| Weather.KnownCodes | weatherChanges.py:74-82 | Code 0 reads "Clear sky" and code 95 reads "Thunderstorm" |
| Weather.DefaultCodes | weatherChanges.py:84 | Unlisted and missing codes read "Unknown" |
| Weather.SharedShowers | weatherChanges.py:78-80 | Codes 63, 65 and 81 share "Heavy showers", so the lookup is not injective |
| Weather.SharedSnow | weatherChanges.py:79 | Codes 73 and 75 share "Heavy snow" |
| Weather.SharedHail | weatherChanges.py:82 | Codes 96 and 99 share "Thunderstorm with hail" |

## Left out

- Tk's `line.column` indices: positions are flat offsets. A link's tag is therefore `link-<offset>`, not `link-<line>.<column>`.
- The newline that `get(1.0, END)` appends: checkpoints, the spell-check text and the Replace All input are the buffer without it. In the source, Replace All re-inserts that newline, and so do Undo and Redo: the checkpoint taken at `ms_editor_2.py:253` already ends in it, and `ms_editor_2.py:260-262` and `ms_editor_2.py:266-269` insert it into a buffer that keeps its own final newline. Each such command therefore adds one more trailing newline; the model does not capture this.
- Commands that need a selection: without one, `tag_names("sel.first")` (`ms_editor_2.py:99`, `:107`, `:115`) and `tag_add(..., "sel.first", "sel.last")` (`ms_editor_2.py:123`, `:129`) raise `TclError`, which Tk reports. The model treats these commands as no-ops: the state is the same, but the error is not modelled.
- Editor.TextEditor.SetBuffer: typing, cut, copy and paste are not modelled; only whole-buffer replacement changes the text. Tk gives inserted text every tag present on both the character before and the character after the insertion point. After `delete(1.0, END)` no character precedes the insertion point, so `SetBuffer` leaves the inserted text untagged.
- The `<<Modified>>` event loop is not modelled as a loop. `TrackChanges` is a separate call that a caller makes after a command, as `Editor.UndoWithModifiedEvent` does after `Undo`. The further event caused by `edit_modified(False)` finds the flag clear and changes nothing, so it is left out.
- Editor.TextEditor.CheckSpelling: pyspellchecker is a parameter `unknown`. It is required to answer with non-empty words, which need not be among the words it is given (the library lowercases them). Its dictionary and its lowercasing are not modelled; the case-sensitive search then tags only occurrences spelt as answered.
- Tokens.IsWordChar: `\w` is restricted to ASCII letters, digits and `_`. Python's Unicode word characters are not modelled.
- The colour chooser, the URL dialog and the file dialog are `Option` parameters. Reading the file is the parameter's content.
- Fonts, colours, justification and `tag_configure` appearance are not modelled, nor are tooltips, the web browser, images, saving, printing or the font boxes. Tags are modelled only as which offsets they cover.
- The line and column shown in the status bar are not modelled. Only the word count (`Tokens.WordCount`) is.
- Weather.Description: codes are integers or missing. Float codes and Python's equality of `0`, `0.0` and `False` as dictionary keys are not modelled.
- The network requests, geocoding, JSON parsing, date formatting and Tk layout of `weatherChanges.py` are not modelled. Only the description lookup and the caller's non-empty guard (`weatherChanges.py:180`) are.
