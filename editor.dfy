/**
 * The text logic of `EditorPanel` (gui/editor_panel.py): the metrics shown
 * under the editor, the checklist toggle that the preview's checkboxes
 * call back into, and the two fields `current_note_id` and `_is_modified`
 * that decide when an autosave writes the note. The editor widget is the
 * field `text`; the signal `note_saved` is what `SaveNote` returns.
 */
module Editor {
  import opened Wrappers
  import opened Text

  // ---------------------------------------------------------------- metrics

  /** The counts `calculate_metrics` emits (the image and link counts are not modelled). */
  datatype Metrics = Metrics(words: nat, chars: nat, lines: nat)

  /** `calculate_metrics` on the editor text. */
  function CalculateMetrics(text: string): (m: Metrics)
    ensures text != "" ==> m.lines == |Split(text, "\n")|
  {
    SplitCount(text, '\n');
    if text == "" then Metrics(0, 0, 0)
    else Metrics(|Tokens(text)|, |text|, CountChar(text, '\n') + 1)
  }

  /**
   * The character count is the text's length; the line count is the number
   * of lines `split('\n')` gives, 0 for the empty text; the word count is the
   * number of maximal runs of non-whitespace characters, which together are
   * exactly the text's non-whitespace characters.
   */
  lemma MetricsMeaning(text: string)
    ensures CalculateMetrics(text).chars == |text|
    ensures CalculateMetrics(text).lines == if text == "" then 0 else |Split(text, "\n")|
    ensures CalculateMetrics(text).words == |Tokens(text)| == WordStarts(text)
    ensures forall t | t in Tokens(text) :: |t| > 0 && forall k | 0 <= k < |t| :: !IsSpace(t[k])
    ensures Concat(Tokens(text)) == NonSpace(text)
  {
    TokensAreWords(text);
    TokensCoverText(text);
    TokensCountStarts(text);
  }

  // ---------------------------------------------------------------- checklist lines

  predicate StartsWith(s: string, prefix: string) {
    prefix <= s
  }

  /** A line the Markdown task-list extension renders as a checkbox item. */
  predicate IsTaskLine(line: string) {
    var t := LStrip(line);
    StartsWith(t, "- [ ] ") || StartsWith(t, "- [x] ") || StartsWith(t, "* [ ] ") || StartsWith(t, "* [x] ")
  }

  /** How many task lines `lines` holds. */
  function TaskCount(lines: seq<string>): nat
    decreases |lines|
  {
    if |lines| == 0 then 0
    else TaskCount(lines[..|lines| - 1]) + (if IsTaskLine(lines[|lines| - 1]) then 1 else 0)
  }

  /**
   * The index of the task line numbered `k` (from 0), or -1 when there is no
   * such line: the line the `k`-th checkbox of the preview stands for.
   */
  function TargetLine(lines: seq<string>, k: int): (r: int)
    ensures -1 <= r < |lines|
    ensures r >= 0 ==> IsTaskLine(lines[r]) && TaskCount(lines[..r]) == k
    ensures r == -1 <==> k < 0 || TaskCount(lines) <= k
    decreases |lines|
  {
    if |lines| == 0 || k < 0 then -1
    else
      var n := |lines| - 1;
      var p := TargetLine(lines[..n], k);
      assert lines[..n][..n] == lines[..n];
      if p >= 0 then
        assert lines[..n][..p] == lines[..p];
        p
      else if IsTaskLine(lines[n]) && TaskCount(lines[..n]) == k then n
      else -1
  }

  /** Whether the first `[ ]` becomes `[x]` (checking) or the first `[x]` becomes `[ ]`. */
  function ToggledLine(line: string, checked: bool): string {
    if checked then ReplaceFirst(line, "[ ]", "[x]") else ReplaceFirst(line, "[x]", "[ ]")
  }

  /** The editor text after the `k`-th checkbox is set to `checked`. */
  function ToggleText(text: string, k: int, checked: bool): string {
    var lines := Split(text, "\n");
    var t := TargetLine(lines, k);
    if t == -1 then text
    else
      var line := ToggledLine(lines[t], checked);
      if line == lines[t] then text else Join(lines[t := line], "\n")
  }

  /** The scan of `_on_checklist_toggled` for the line of checkbox `k`. */
  method FindTaskLine(lines: seq<string>, k: int) returns (target: int)
    ensures target == TargetLine(lines, k)
  {
    var taskCount := -1;
    target := -1;
    var i := 0;
    while i < |lines|
      invariant 0 <= i <= |lines|
      invariant target == -1
      invariant taskCount == TaskCount(lines[..i]) - 1
      invariant TargetLine(lines[..i], k) == -1
    {
      assert lines[..i + 1][..i] == lines[..i];
      if IsTaskLine(lines[i]) {
        taskCount := taskCount + 1;
        if taskCount == k {
          target := i;
          TargetLineExtends(lines, k, i + 1);
          break;
        }
      }
      i := i + 1;
    }
    if target == -1 {
      assert lines[..|lines|] == lines;
    }
  }

  /** Once a prefix holds the line of checkbox `k`, the whole text has it at the same index. */
  lemma {:induction false} TargetLineExtends(lines: seq<string>, k: int, j: nat)
    requires j <= |lines| && TargetLine(lines[..j], k) >= 0
    ensures TargetLine(lines, k) == TargetLine(lines[..j], k)
    decreases |lines|
  {
    if j == |lines| {
      assert lines[..j] == lines;
    } else {
      var pre := lines[..|lines| - 1];
      assert pre[..j] == lines[..j];
      TargetLineExtends(pre, k, j);
      TargetLineKept(lines, k);
    }
  }

  /** A line found before the last one is still the one found with the last line added. */
  lemma TargetLineKept(lines: seq<string>, k: int)
    requires |lines| > 0 && TargetLine(lines[..|lines| - 1], k) >= 0
    ensures TargetLine(lines, k) == TargetLine(lines[..|lines| - 1], k)
  {
  }

  // ---------------------------------------------------------------- the toggle's effect

  /**
   * `replace` of the first box `[a]` by `[b]` leaves the line as it is
   * exactly when there is no such box, and otherwise changes just the one
   * character inside the first one.
   */
  lemma ReplaceBox(line: string, a: char, b: char)
    requires a != b && b != '\n'
    ensures var r := ReplaceFirst(line, ['[', a, ']'], ['[', b, ']']);
      (r == line <==> !Contains(line, ['[', a, ']'])) &&
      |r| == |line| && ('\n' !in line ==> '\n' !in r)
    ensures var i := Find(line, ['[', a, ']']);
      i.Some? ==> var r := ReplaceFirst(line, ['[', a, ']'], ['[', b, ']']);
        forall j | 0 <= j < |line| :: r[j] == if j == i.value + 1 then b else line[j]
  {
    var box := ['[', a, ']'];
    var r := ReplaceFirst(line, box, ['[', b, ']']);
    var f := Find(line, box);
    if f.Some? {
      var i := f.value;
      assert r == line[..i] + ['[', b, ']'] + line[i + 3..];
      assert line[i..i + 3] == box;
      assert r[i + 1] == b && line[i + 1] == a;
      assert Contains(line, box);
      forall j | 0 <= j < |r|
        ensures r[j] != '\n' || '\n' in line
      {
        if j < i {
          assert r[j] == line[j];
        } else if j >= i + 3 {
          assert r[j] == line[j];
        } else {
          assert r[j] == ['[', b, ']'][j - i];
        }
      }
      forall j | 0 <= j < |line|
        ensures r[j] == if j == i + 1 then b else line[j]
      {
        if j < i {
          assert r[j] == line[j];
        } else if j >= i + 3 {
          assert r[j] == line[j];
        } else {
          assert r[j] == ['[', b, ']'][j - i] && line[j] == box[j - i];
        }
      }
    } else {
      assert !Contains(line, box);
    }
  }

  /** Checking sets the first `[ ]` to `[x]`; unchecking sets the first `[x]` to `[ ]`; no box, no change. */
  lemma ToggledLineSpec(line: string, checked: bool)
    ensures var box := if checked then "[ ]" else "[x]";
      (ToggledLine(line, checked) == line <==> !Contains(line, box)) &&
      |ToggledLine(line, checked)| == |line|
    ensures '\n' !in line ==> '\n' !in ToggledLine(line, checked)
  {
    if checked {
      ReplaceBox(line, ' ', 'x');
    } else {
      ReplaceBox(line, 'x', ' ');
    }
  }

  /**
   * Only the target line can change: every other line of the new text is
   * the old one, the target line is the toggled line, and when there is no
   * such checkbox the text is unchanged.
   */
  lemma ToggleOnlyTarget(text: string, k: int, checked: bool)
    ensures var lines := Split(text, "\n");
      var t := TargetLine(lines, k);
      var r := Split(ToggleText(text, k, checked), "\n");
      |r| == |lines| &&
      (forall j | 0 <= j < |lines| && j != t :: r[j] == lines[j]) &&
      (t >= 0 ==> r[t] == ToggledLine(lines[t], checked))
    ensures TargetLine(Split(text, "\n"), k) == -1 ==> ToggleText(text, k, checked) == text
    ensures ToggleText(text, k, checked) != text <==>
      var t := TargetLine(Split(text, "\n"), k);
      t >= 0 && ToggledLine(Split(text, "\n")[t], checked) != Split(text, "\n")[t]
  {
    var lines := Split(text, "\n");
    var t := TargetLine(lines, k);
    SplitPartsLackChar(text, '\n');
    if t >= 0 {
      var line := ToggledLine(lines[t], checked);
      ToggledLineSpec(lines[t], checked);
      if line != lines[t] {
        var parts := lines[t := line];
        assert forall j | 0 <= j < |parts| :: '\n' !in parts[j];
        SplitJoinChar(parts, '\n');
        assert parts != lines by {
          assert parts[t] != lines[t];
        }
      }
    }
  }

  // ---------------------------------------------------------------- the panel

  // ---------------------------------------------------------------- the editor's plain text

  /**
   * The characters `QTextDocument` does not give back as they were set:
   * a carriage return, the line and paragraph separators U+2028 and U+2029,
   * the frame markers U+FDD0 and U+FDD1, and the no-break space U+00A0.
   */
  predicate Altered(c: char) {
    c == '\r' || c == '\U{2028}' || c == '\U{2029}' || c == '\U{FDD0}' || c == '\U{FDD1}' || c == '\U{00A0}'
  }

  /** What `toPlainText` reports for one character: a no-break space as a space, every other altered one as `\n`. */
  function PlainChar(c: char): char {
    if c == '\U{00A0}' then ' ' else if Altered(c) then '\n' else c
  }

  /**
   * `toPlainText()` after `setPlainText(s)`: `insertText` starts a new block
   * at `\r\n`, `\r`, `\n`, U+2029 and the frame markers, and `toPlainText`
   * writes every block break as `\n`.
   */
  function PlainText(s: string): (r: string)
    ensures |r| <= |s|
    ensures forall k | 0 <= k < |r| :: !Altered(r[k])
    decreases |s|
  {
    if |s| == 0 then ""
    else if s[0] == '\r' && |s| > 1 && s[1] == '\n' then "\n" + PlainText(s[2..])
    else [PlainChar(s[0])] + PlainText(s[1..])
  }

  /** The editor gives a text back unchanged exactly when it holds no altered character. */
  lemma {:induction false} PlainTextKeeps(s: string)
    ensures PlainText(s) == s <==> forall k | 0 <= k < |s| :: !Altered(s[k])
    decreases |s|
  {
    if |s| > 0 && forall k | 0 <= k < |s| :: !Altered(s[k]) {
      assert forall k | 0 <= k < |s| - 1 :: s[1..][k] == s[k + 1];
      PlainTextKeeps(s[1..]);
      assert !Altered(s[0]);
    }
  }

  /** Setting the editor's own text again changes nothing. */
  lemma PlainTextIdempotent(s: string)
    ensures PlainText(PlainText(s)) == PlainText(s)
  {
    PlainTextKeeps(PlainText(s));
  }

  /** A Windows line end, and a no-break space, do not survive the round trip. */
  lemma PlainTextNormalises()
    ensures PlainText("a\r\nb") == "a\nb"
    ensures PlainText("a\rb") == "a\nb"
    ensures PlainText("a\U{00A0}b") == "a b"
  {
    assert "a\r\nb"[1..] == "\r\nb" && "\r\nb"[2..] == "b";
    assert "a\rb"[1..] == "\rb" && "\rb"[1..] == "b";
    assert "a\U{00A0}b"[1..] == "\U{00A0}b" && "\U{00A0}b"[1..] == "b";
  }

  /** The note-dependent state of the editor panel. */
  class EditorPanel {
    /** The note being edited, `None` while the editor is disabled. */
    var currentNoteId: Option<int>
    /** Whether the text changed since it was loaded or last saved. */
    var isModified: bool
    /** The editor's plain text, as `toPlainText` reports it. */
    var text: string

    /** The panel as `__init__` leaves it, after its call to `clear_and_disable`. */
    constructor()
      ensures currentNoteId == None && !isModified && text == ""
    {
      currentNoteId := None;
      isModified := false;
      text := "";
    }

    /** `trigger_preview_update`, which the editor's `textChanged` signal calls: marks the note modified. */
    method TriggerPreviewUpdate() returns (m: Metrics)
      modifies this
      ensures isModified
      ensures currentNoteId == old(currentNoteId) && text == old(text)
      ensures m == CalculateMetrics(text)
    {
      isModified := true;
      m := CalculateMetrics(text);
    }

    /**
     * The user edits the text, and `newText` is the editor's plain text
     * afterwards: `textChanged` fires and runs `trigger_preview_update`.
     */
    method UserEdit(newText: string) returns (m: Metrics)
      modifies this
      ensures text == newText && isModified
      ensures currentNoteId == old(currentNoteId)
      ensures m == CalculateMetrics(newText)
    {
      text := newText;
      m := TriggerPreviewUpdate();
    }

    /**
     * `clear_and_disable`: no note, not modified, empty text. The editor's
     * `clear()` runs with signals on, so when it reports a text change
     * (`clearSignals`) `trigger_preview_update` marks the flag again.
     */
    method ClearAndDisable(clearSignals: bool) returns (m: Metrics)
      modifies this
      ensures currentNoteId == None && text == ""
      ensures isModified == clearSignals
      ensures m == CalculateMetrics("")
    {
      currentNoteId := None;
      isModified := false;
      text := "";
      if clearSignals {
        m := TriggerPreviewUpdate();
      }
      m := CalculateMetrics(text);
    }

    /**
     * `load_note`: the body (`""` for `None`) is set with signals blocked,
     * and the editor then holds its `PlainText`; the flag is cleared, and then `trigger_preview_update` is called
     * directly, so the note ends up marked modified.
     */
    method LoadNote(nid: int, title: string, body: Option<string>) returns (m: Metrics)
      modifies this
      ensures currentNoteId == Some(nid)
      ensures text == PlainText(if body.Some? then body.value else "")
      ensures isModified
      ensures m == CalculateMetrics(text)
    {
      currentNoteId := Some(nid);
      text := PlainText(if body.Some? then body.value else "");
      isModified := false;
      m := TriggerPreviewUpdate();
    }

    /** `_save_note`: with a note loaded, emits `note_saved(id, text)` and clears the flag; else does nothing. */
    method SaveNote() returns (saved: Option<(int, string)>)
      modifies this
      ensures saved.Some? <==> currentNoteId.Some?
      ensures saved.Some? ==> saved.value == (currentNoteId.value, text) && !isModified
      ensures saved.None? ==> isModified == old(isModified)
      ensures currentNoteId == old(currentNoteId) && text == old(text)
    {
      if currentNoteId.Some? {
        saved := Some((currentNoteId.value, text));
        isModified := false;
      } else {
        saved := None;
      }
    }

    /** `_autosave`, run by the 30-second timer: saves only a modified note. */
    method Autosave() returns (saved: Option<(int, string)>)
      modifies this
      ensures saved.Some? <==> old(isModified) && currentNoteId.Some?
      ensures saved.Some? ==> saved.value == (currentNoteId.value, text) && !isModified
      ensures saved.None? ==> isModified == old(isModified)
      ensures currentNoteId == old(currentNoteId) && text == old(text)
    {
      if isModified {
        saved := SaveNote();
      } else {
        saved := None;
      }
    }

    /**
     * `_on_checklist_toggled`: the line of checkbox `index` gets its first
     * box flipped; the text and the flag change only when that line does.
     */
    method OnChecklistToggled(index: int, isChecked: bool)
      modifies this
      ensures text == ToggleText(old(text), index, isChecked)
      ensures isModified == (old(isModified) || text != old(text))
      ensures currentNoteId == old(currentNoteId)
    {
      var lines := Split(text, "\n");
      var target := FindTaskLine(lines, index);
      ToggleOnlyTarget(text, index, isChecked);
      if target != -1 {
        var lineContent := lines[target];
        var newLine := ToggledLine(lineContent, isChecked);
        if newLine != lineContent {
          text := Join(lines[target := newLine], "\n");
          isModified := true;
        }
      }
    }
  }

  // ---------------------------------------------------------------- sequences of events

  /**
   * Loading a note and letting the autosave timer fire saves the note's
   * text, though nobody typed. The text written is the editor's plain text,
   * which differs from the stored body exactly when the body holds an
   * altered character.
   */
  method LoadThenAutosave(e: EditorPanel, nid: int, title: string, body: Option<string>)
    returns (saved: Option<(int, string)>)
    modifies e
    ensures var b := if body.Some? then body.value else "";
      && saved == Some((nid, PlainText(b)))
      && (saved.value.1 == b <==> forall k | 0 <= k < |b| :: !Altered(b[k]))
    ensures !e.isModified
  {
    var _ := e.LoadNote(nid, title, body);
    saved := e.Autosave();
    PlainTextKeeps(if body.Some? then body.value else "");
  }

  /** After the editor is cleared no autosave writes anything, whatever the flag says. */
  method ClearThenAutosave(e: EditorPanel, clearSignals: bool) returns (saved: Option<(int, string)>)
    modifies e
    ensures saved.None?
    ensures e.currentNoteId.None?
  {
    var _ := e.ClearAndDisable(clearSignals);
    saved := e.Autosave();
  }

  /** An edit to a loaded note is saved, with the edited text, by the next autosave. */
  method EditThenAutosave(e: EditorPanel, newText: string) returns (saved: Option<(int, string)>)
    requires e.currentNoteId.Some?
    modifies e
    ensures saved == Some((old(e.currentNoteId).value, newText))
  {
    var _ := e.UserEdit(newText);
    saved := e.Autosave();
  }
}
