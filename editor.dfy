/**
 * The editing state of the advanced text editor: the buffer, its tags, the
 * selection, the widget's "modified" flag, and the editor's own undo and
 * redo lists of plain-text checkpoints.  Each command is one atomic call.
 */
module Editor {
  import opened Basics
  import Search
  import Tokens
  import StrReplace
  import Tags
  import History
  import Spelling

  datatype Alignment = Left | Center | Right {
    /** The tag name, which is also the justification. */
    function Name(): string {
      match this
      case Left => "left"
      case Center => "center"
      case Right => "right"
    }
  }

  class TextEditor {
    var text: string
    var tags: Tags.TagMap
    /** The URL bound to each link tag's click and hover handlers. */
    var links: map<string, string>
    /** The `sel` tag: the selected range, never empty. */
    var selection: Option<Span>
    var modified: bool
    var undoStack: seq<string>
    var redoStack: seq<string>

    ghost predicate Valid()
      reads this
    {
      && Tags.InBounds(tags, |text|)
      && (selection.Some? ==> selection.value.start < selection.value.end <= |text|)
    }

    function Stacks(): History.Stacks
      reads this
    {
      History.Stacks(undoStack, redoStack)
    }

    constructor ()
      ensures Valid()
      ensures text == [] && tags == map[] && links == map[] && selection == None
      ensures !modified && undoStack == [] && redoStack == []
    {
      text := [];
      tags := map[];
      links := map[];
      selection := None;
      modified := false;
      undoStack := [];
      redoStack := [];
    }

    /** The user selects a range with the mouse or keyboard, or clears the selection. */
    method Select(sel: Option<Span>)
      requires Valid()
      requires sel.Some? ==> sel.value.start < sel.value.end <= |text|
      modifies this`selection
      ensures Valid() && selection == sel
    {
      selection := sel;
    }

    /**
     * Deleting from the first character to the end, then inserting `t`:
     * every tag loses all its characters (names and link bindings stay),
     * the selection goes with them, and the modified flag is set when a
     * character was deleted or inserted.
     */
    method SetBuffer(t: string)
      requires Valid()
      modifies this`text, this`tags, this`selection, this`modified
      ensures Valid()
      ensures text == t && tags == Tags.Cleared(old(tags)) && selection == None
      ensures modified == (old(modified) || old(text) != [] || t != [])
    {
      modified := modified || text != [] || t != [];
      text := t;
      tags := Tags.Cleared(tags);
      selection := None;
    }

    /** Records the current text when the widget says it was modified. */
    method TrackChanges()
      requires Valid()
      modifies this`undoStack, this`redoStack, this`modified
      ensures Valid() && !modified
      ensures Stacks() == if old(modified) then History.Record(old(Stacks()), text) else old(Stacks())
    {
      if modified {
        undoStack := undoStack + [text];
        redoStack := [];
        modified := false;
      }
    }

    method Undo()
      requires Valid()
      modifies this`text, this`tags, this`selection, this`modified, this`undoStack, this`redoStack
      ensures Valid()
      ensures Stacks() == History.Undo(old(Stacks()))
      ensures History.CanUndo(old(Stacks())) ==>
        && text == History.Last(undoStack)
        && tags == Tags.Cleared(old(tags)) && selection == None
        && modified == (old(modified) || old(text) != [] || text != [])
      ensures !History.CanUndo(old(Stacks())) ==>
        text == old(text) && tags == old(tags) && selection == old(selection) && modified == old(modified)
    {
      if |undoStack| > 1 {
        var top := undoStack[|undoStack| - 1];
        undoStack := undoStack[..|undoStack| - 1];
        redoStack := redoStack + [top];
        SetBuffer(undoStack[|undoStack| - 1]);
      }
    }

    method Redo()
      requires Valid()
      modifies this`text, this`tags, this`selection, this`modified, this`undoStack, this`redoStack
      ensures Valid()
      ensures Stacks() == History.Redo(old(Stacks()))
      ensures History.CanRedo(old(Stacks())) ==>
        && text == History.Last(undoStack)
        && tags == Tags.Cleared(old(tags)) && selection == None
        && modified == (old(modified) || old(text) != [] || text != [])
      ensures !History.CanRedo(old(Stacks())) ==>
        text == old(text) && tags == old(tags) && selection == old(selection) && modified == old(modified)
    {
      if redoStack != [] {
        var t := redoStack[|redoStack| - 1];
        redoStack := redoStack[..|redoStack| - 1];
        undoStack := undoStack + [t];
        SetBuffer(t);
      }
    }

    /**
     * A style toggle: the tags on the first selected character decide
     * between removing `name` from the whole selection and adding it.
     * Without a selection nothing changes.
     */
    method ToggleStyle(name: string)
      requires Valid()
      modifies this`tags
      ensures Valid()
      ensures tags == if selection.None? then old(tags)
        else Tags.Toggled(old(tags), name, selection.value.start, selection.value.end)
    {
      if selection.Some? {
        var first, last := selection.value.start, selection.value.end;
        if Tags.Has(tags, name, first) {
          tags := Tags.Remove(tags, name, first, last);
        } else {
          tags := Tags.Add(tags, name, first, last);
        }
      }
    }

    method ToggleBold()
      requires Valid()
      modifies this`tags
      ensures Valid()
      ensures tags == if selection.None? then old(tags)
        else Tags.Toggled(old(tags), Tags.Bold, selection.value.start, selection.value.end)
    {
      ToggleStyle(Tags.Bold);
    }

    method ToggleItalic()
      requires Valid()
      modifies this`tags
      ensures Valid()
      ensures tags == if selection.None? then old(tags)
        else Tags.Toggled(old(tags), Tags.Italic, selection.value.start, selection.value.end)
    {
      ToggleStyle(Tags.Italic);
    }

    method ToggleUnderline()
      requires Valid()
      modifies this`tags
      ensures Valid()
      ensures tags == if selection.None? then old(tags)
        else Tags.Toggled(old(tags), Tags.Underline, selection.value.start, selection.value.end)
    {
      ToggleStyle(Tags.Underline);
    }

    /** Adds the alignment's tag over the selection; other alignment tags stay. */
    method Align(alignment: Alignment)
      requires Valid()
      modifies this`tags
      ensures Valid()
      ensures tags == if selection.None? then old(tags)
        else Tags.Add(old(tags), alignment.Name(), selection.value.start, selection.value.end)
    {
      if selection.Some? {
        tags := Tags.Add(tags, alignment.Name(), selection.value.start, selection.value.end);
      }
    }

    /** `color` is the colour chooser's answer; None when it was cancelled. */
    method ChangeColor(color: Option<string>)
      requires Valid()
      modifies this`tags
      ensures Valid()
      ensures tags == if color.None? || color.value == [] || selection.None? then old(tags)
        else Tags.Add(old(tags), Tags.Color, selection.value.start, selection.value.end)
    {
      if color.Some? && color.value != [] && selection.Some? {
        tags := Tags.Add(tags, Tags.Color, selection.value.start, selection.value.end);
      }
    }

    /**
     * `url` is the dialog's answer; None when it was cancelled.  Every tag,
     * the selection's own included, is removed from the selected range, then
     * the link's tag is added over it and bound to the URL.
     */
    method InsertLink(url: Option<string>)
      requires Valid()
      modifies this`tags, this`selection, this`links
      ensures Valid()
      ensures old(selection).None? || url.None? || url.value == [] ==>
        tags == old(tags) && selection == old(selection) && links == old(links)
      ensures old(selection).Some? && url.Some? && url.value != [] ==>
        var a, b := old(selection).value.start, old(selection).value.end;
        && tags == Tags.Add(Tags.Strip(old(tags), a, b), Tags.LinkTagName(a), a, b)
        && selection == None
        && links == old(links)[Tags.LinkTagName(a) := url.value]
    {
      if selection.None? {
        return;
      }
      if url.Some? && url.value != [] {
        var a, b := selection.value.start, selection.value.end;
        var remaining := tags.Keys;
        while remaining != {}
          invariant remaining <= tags.Keys && tags.Keys == old(tags).Keys
          invariant links == old(links) && selection == old(selection)
          invariant forall n | n in tags ::
            tags[n] == if n in remaining then old(tags)[n] else old(tags)[n] - Range(a, b)
          decreases remaining
        {
          var n :| n in remaining;
          tags := tags[n := tags[n] - Range(a, b)];
          remaining := remaining - {n};
        }
        assert tags == Tags.Strip(old(tags), a, b);
        selection := None;
        var name := Tags.LinkTagName(a);
        Tags.AddKeepsOthers(tags, name, a, b, |text|);
        tags := Tags.Add(tags, name, a, b);
        links := links[name := url.value];
      }
    }

    /**
     * The spell-check pass: the words of the text go to the dictionary's
     * `unknown`, which answers with non-empty words (not necessarily spelt
     * as they were given, since the dictionary lowercases); every span the forward
     * search visits for an unknown word gets the `misspelled` tag.  Existing
     * `misspelled` offsets are kept.
     */
    method CheckSpelling(unknown: seq<string> -> set<string>)
      requires Valid()
      requires forall w | w in unknown(Tokens.Words(text)) :: |w| > 0
      modifies this`tags
      ensures Valid()
      ensures tags == old(tags)[Tags.Misspelled :=
        Tags.TagSet(old(tags), Tags.Misspelled) + Spelling.Misspelt(text, unknown(Tokens.Words(text)))]
    {
      var words := Tokens.Words(text);
      var misspelled := unknown(words);
      var remaining := misspelled;
      ghost var done: set<string> := {};
      while remaining != {}
        invariant Valid()
        invariant remaining <= misspelled && done == misspelled - remaining
        invariant tags - {Tags.Misspelled} == old(tags) - {Tags.Misspelled}
        invariant Tags.TagSet(tags, Tags.Misspelled) ==
          Tags.TagSet(old(tags), Tags.Misspelled) + Spelling.Misspelt(text, done)
        decreases remaining
      {
        var word :| word in remaining;
        TagOccurrences(word);
        Spelling.MisspeltInsert(text, done, word);
        UnionAssoc(Tags.TagSet(old(tags), Tags.Misspelled), Spelling.Misspelt(text, done), Search.Cover(text, word));
        VisitOne(misspelled, remaining, word);
        remaining := remaining - {word};
        done := done + {word};
      }
      assert done == misspelled;
      tags := tags[Tags.Misspelled := Tags.TagSet(tags, Tags.Misspelled)];
      Tags.UpdatedAt(tags, old(tags), Tags.Misspelled);
    }

    /**
     * The search loop for one unknown word: from the start of the text,
     * find the next occurrence, tag it, continue right after it.  It stops
     * because each round moves past a non-empty match.
     */
    method TagOccurrences(word: string)
      requires Valid() && |word| > 0
      modifies this`tags
      ensures Valid()
      ensures tags - {Tags.Misspelled} == old(tags) - {Tags.Misspelled}
      ensures Tags.TagSet(tags, Tags.Misspelled) ==
        Tags.TagSet(old(tags), Tags.Misspelled) + Search.Cover(text, word)
    {
      var content := text;
      var start: nat := 0;
      ghost var done: seq<nat> := [];
      while true
        invariant Tags.InBounds(tags, |content|) && start <= |content|
        invariant Search.Matches(content, word, 0) == done + Search.Matches(content, word, start)
        invariant tags - {Tags.Misspelled} == old(tags) - {Tags.Misspelled}
        invariant Tags.TagSet(tags, Tags.Misspelled) ==
          Tags.TagSet(old(tags), Tags.Misspelled) + Search.SpanUnion(done, |word|)
        decreases |content| - start
      {
        var found := Search.FindFrom(content, word, start);
        if found.None? {
          Search.ScanEnd(content, word, done, start);
          break;
        }
        var p: nat := found.value;
        Search.ScanAdvance(content, word, done, start, p);
        assert Search.Matches(content, word, 0) == (done + [p]) + Search.Matches(content, word, p + |word|);
        Search.SpanUnionAppend(done, p, |word|);
        Tags.AddKeepsOthers(tags, Tags.Misspelled, p, p + |word|, |content|);
        UnionAssoc(Tags.TagSet(old(tags), Tags.Misspelled), Search.SpanUnion(done, |word|), Range(p, p + |word|));
        tags := Tags.Add(tags, Tags.Misspelled, p, p + |word|);
        done := done + [p];
        assert Search.Matches(content, word, 0) == done + Search.Matches(content, word, p + |word|);
        start := p + |word|;
        assert Search.Matches(content, word, 0) == done + Search.Matches(content, word, start);
      }
    }

    /** Replace All: the text becomes `str.replace(find, repl)` of itself. */
    method ReplaceText(find: string, repl: string)
      requires Valid()
      modifies this`text, this`tags, this`selection, this`modified
      ensures Valid()
      ensures text == StrReplace.Replace(old(text), find, repl)
      ensures tags == Tags.Cleared(old(tags)) && selection == None
      ensures modified == (old(modified) || old(text) != [] || text != [])
    {
      SetBuffer(StrReplace.Replace(text, find, repl));
    }

    method NewFile()
      requires Valid()
      modifies this`text, this`tags, this`selection, this`modified
      ensures Valid()
      ensures text == [] && tags == Tags.Cleared(old(tags)) && selection == None
      ensures modified == (old(modified) || old(text) != [])
    {
      SetBuffer([]);
    }

    /** `content` is what the chosen file holds; None when the dialog was cancelled. */
    method OpenFile(content: Option<string>)
      requires Valid()
      modifies this`text, this`tags, this`selection, this`modified
      ensures Valid()
      ensures content.None? ==>
        text == old(text) && tags == old(tags) && selection == old(selection) && modified == old(modified)
      ensures content.Some? ==>
        && text == content.value && tags == Tags.Cleared(old(tags)) && selection == None
        && modified == (old(modified) || old(text) != [] || text != [])
    {
      if content.Some? {
        SetBuffer(content.value);
      }
    }
  }

  /**
   * Undo immediately followed by redo, on the editor object: both lists are
   * as before, and the text is the checkpoint that was on top.
   */
  method UndoRedoRoundTrip(ed: TextEditor)
    requires ed.Valid() && History.CanUndo(ed.Stacks())
    modifies ed
    ensures ed.Valid()
    ensures ed.undoStack == old(ed.undoStack) && ed.redoStack == old(ed.redoStack)
    ensures ed.text == History.Last(old(ed.undoStack))
  {
    ghost var h := ed.Stacks();
    ed.Undo();
    ed.Redo();
    History.UndoThenRedo(h);
  }

  /**
   * Undo as the running program delivers it: the buffer replacement sets
   * the widget's modified flag, so the `<<Modified>>` handler runs next and
   * records the checkpoint now shown.  The undone text is then no longer on
   * the redo list, and the undo list holds the shown checkpoint twice.
   */
  method UndoWithModifiedEvent(ed: TextEditor)
    requires ed.Valid() && History.CanUndo(ed.Stacks())
    modifies ed
    ensures ed.Valid() && !ed.modified
    ensures ed.text == old(ed.undoStack)[|old(ed.undoStack)| - 2]
    ensures old(ed.modified) || old(ed.text) != [] || ed.text != [] ==>
      && ed.redoStack == []
      && ed.undoStack == old(ed.undoStack)[..|old(ed.undoStack)| - 1] + [ed.text]
  {
    ed.Undo();
    ed.TrackChanges();
  }
}
