/**
 * The data-model half of `SidebarPanel` (gui/sidebar_panel.py): the folder
 * and note dicts, the two id allocators and the current folder. Dialog
 * answers, confirmations, the selected list items and the order the note
 * list shows after a drag are parameters. Every method that ends in
 * `save_data_to_storage` returns the data object it hands to the store;
 * `None` means it did not save.
 */
module Sidebar {
  import opened Wrappers
  import opened Text
  import opened Dicts
  import opened Aggregate

  function IdSet(s: seq<int>): set<int> {
    set x | x in s
  }

  /** A dialog answer `save`-worthy text: `name.strip()` is not empty. */
  predicate NonBlank(s: string) {
    Strip(s) != ""
  }

  /** `f"Untitled Note {nid}"`. */
  function UntitledTitle(nid: int): string {
    "Untitled Note " + IntToDec(nid)
  }

  // ---------------------------------------------------------------- the note list

  /** `f"#{i+1:02d} - {title}"`: the text of the list item for index `i` of a folder's list. */
  function Label(i: nat, title: string): string {
    "#" + ZeroPad2(i + 1) + " - " + title
  }

  /**
   * `_populate_note_list`: one item per id of the folder's list that has a
   * note, numbered by its index in the full list.
   */
  function NoteItems(ids: seq<int>, notes: map<int, Note>): seq<(int, string)>
    decreases |ids|
  {
    if |ids| == 0 then []
    else
      var i := |ids| - 1;
      NoteItems(ids[..i], notes) + (if ids[i] in notes then [(ids[i], Label(i, notes[ids[i]].title))] else [])
  }

  /** `_filter_notes`: an item is hidden when the lower-cased query is not in its lower-cased text. */
  predicate Hidden(text: string, query: string) {
    !Contains(Lower(text), Lower(query))
  }

  class SidebarPanel {
    var currentFolder: Option<int>
    var folders: Dict<int, Folder>
    var notes: map<int, Note>
    var nextFolderId: int
    var nextNoteId: int

    /** The folder dict is well formed, the current folder exists, and both allocators are ahead. */
    ghost predicate Valid()
      reads this
    {
      && Dicts.Valid(folders)
      && (currentFolder.Some? ==> currentFolder.value in folders.vals)
      && AllocatorsAhead(Snapshot())
    }

    /** The data object `save_data_to_storage` hands to the store. */
    function Snapshot(): Data
      reads this
    {
      Data(folders, notes, nextFolderId, nextNoteId)
    }

    constructor ()
      ensures Valid()
      ensures currentFolder == None && folders == Empty() && notes == map[]
      ensures nextFolderId == 1 && nextNoteId == 1
    {
      currentFolder := None;
      folders := Empty();
      notes := map[];
      nextFolderId := 1;
      nextNoteId := 1;
    }

    /**
     * `load_data_from_storage` with `loaded` the store's data: adopt it, and
     * if it has no folder, add one named `defaultName` and save.
     */
    method LoadDataFromStorage(loaded: Data, defaultName: string) returns (persisted: Option<Data>)
      requires Aggregate.Valid(loaded) && AllocatorsAhead(loaded)
      requires currentFolder.Some? ==> currentFolder.value in loaded.folders.vals
      modifies this
      ensures Valid()
      ensures |folders.keys| > 0
      ensures notes == loaded.notes && nextNoteId == loaded.nextNoteId && currentFolder == old(currentFolder)
      ensures |loaded.folders.keys| > 0 ==>
        folders == loaded.folders && nextFolderId == loaded.nextFolderId && persisted == None
      ensures |loaded.folders.keys| == 0 ==>
        && folders == Dict([loaded.nextFolderId], map[loaded.nextFolderId := Folder(defaultName, [])])
        && nextFolderId == loaded.nextFolderId + 1
        && persisted == Some(Snapshot())
    {
      folders := loaded.folders;
      notes := loaded.notes;
      nextFolderId := loaded.nextFolderId;
      nextNoteId := loaded.nextNoteId;
      persisted := None;
      if |folders.keys| == 0 {
        var fid := nextFolderId;
        nextFolderId := nextFolderId + 1;
        assert folders.vals == map[];
        PutValid(folders, fid, Folder(defaultName, []));
        folders := Put(folders, fid, Folder(defaultName, []));
        persisted := Some(Snapshot());
      }
    }

    /**
     * `create_folder` through the dialog: a cancelled or blank name changes
     * nothing; otherwise a new empty folder under the next folder id, made
     * the current folder, and a save.
     */
    method CreateFolder(name: string, ok: bool) returns (persisted: Option<Data>)
      requires Valid()
      modifies this
      ensures Valid()
      ensures !ok || !NonBlank(name) ==>
        && persisted == None && folders == old(folders) && nextFolderId == old(nextFolderId)
        && currentFolder == old(currentFolder)
      ensures ok && NonBlank(name) ==>
        && old(nextFolderId) !in old(folders.vals)
        && folders == Put(old(folders), old(nextFolderId), Folder(name, []))
        && folders.keys == old(folders.keys) + [old(nextFolderId)]
        && nextFolderId == old(nextFolderId) + 1
        && currentFolder == Some(old(nextFolderId))
        && persisted == Some(Snapshot())
      ensures notes == old(notes) && nextNoteId == old(nextNoteId)
    {
      persisted := None;
      if |name| == 0 || !ok || !NonBlank(name) {
        return;
      }
      var fid := nextFolderId;
      nextFolderId := nextFolderId + 1;
      PutValid(folders, fid, Folder(name, []));
      folders := Put(folders, fid, Folder(name, []));
      // `setCurrentRow` on the new last item selects it
      currentFolder := Some(fid);
      persisted := Some(Snapshot());
    }

    /**
     * `create_note`: in the current folder, a note under the next note id
     * titled "Untitled Note <id>" with an empty body, appended to the list.
     */
    method CreateNote() returns (nid: Option<int>, persisted: Option<Data>)
      requires Valid()
      modifies this
      ensures Valid()
      ensures old(currentFolder).None? ==>
        nid == None && persisted == None && folders == old(folders) && notes == old(notes)
        && nextNoteId == old(nextNoteId)
      ensures old(currentFolder).Some? ==>
        var cur := old(currentFolder).value;
        && nid == Some(old(nextNoteId))
        && old(nextNoteId) !in old(notes)
        && nextNoteId == old(nextNoteId) + 1
        && notes == old(notes)[old(nextNoteId) := Note(UntitledTitle(old(nextNoteId)), "")]
        && folders.keys == old(folders.keys)
        && folders.vals == old(folders.vals)[cur := old(folders.vals)[cur].(notes := old(folders.vals)[cur].notes + [old(nextNoteId)])]
        && persisted == Some(Snapshot())
      ensures nextFolderId == old(nextFolderId) && currentFolder == old(currentFolder)
    {
      if currentFolder.None? {
        return None, None;
      }
      var cur := currentFolder.value;
      var id := nextNoteId;
      nextNoteId := nextNoteId + 1;
      notes := notes[id := Note(UntitledTitle(id), "")];
      var f := folders.vals[cur];
      PutValid(folders, cur, f.(notes := f.notes + [id]));
      folders := Put(folders, cur, f.(notes := f.notes + [id]));
      nid := Some(id);
      persisted := Some(Snapshot());
    }

    /** `update_note_content`: only the body of an existing note changes. */
    method UpdateNoteContent(nid: int, newBody: string) returns (persisted: Option<Data>)
      requires Valid()
      modifies this
      ensures Valid()
      ensures nid !in old(notes) ==> notes == old(notes) && persisted == None
      ensures nid in old(notes) ==>
        notes == old(notes)[nid := old(notes)[nid].(body := newBody)] && persisted == Some(Snapshot())
      ensures folders == old(folders) && currentFolder == old(currentFolder)
      ensures nextFolderId == old(nextFolderId) && nextNoteId == old(nextNoteId)
    {
      persisted := None;
      if nid in notes {
        notes := notes[nid := notes[nid].(body := newBody)];
        persisted := Some(Snapshot());
      }
    }

    /** `_rename_folder` on the folder list's current item `selected`. */
    method RenameFolder(selected: Option<int>, newName: string, ok: bool) returns (persisted: Option<Data>)
      requires Valid()
      requires selected.Some? ==> selected.value in folders.vals
      modifies this
      ensures Valid()
      ensures
        if selected.Some? && ok && NonBlank(newName) && newName != old(folders.vals)[selected.value].name then
          && folders.keys == old(folders.keys)
          && folders.vals == old(folders.vals)[selected.value := old(folders.vals)[selected.value].(name := newName)]
          && persisted == Some(Snapshot())
        else folders == old(folders) && persisted == None
      ensures notes == old(notes) && currentFolder == old(currentFolder)
      ensures nextFolderId == old(nextFolderId) && nextNoteId == old(nextNoteId)
    {
      persisted := None;
      if selected.None? {
        return;
      }
      var fid := selected.value;
      var oldName := folders.vals[fid].name;
      if ok && NonBlank(newName) && newName != oldName {
        PutValid(folders, fid, folders.vals[fid].(name := newName));
        folders := Put(folders, fid, folders.vals[fid].(name := newName));
        persisted := Some(Snapshot());
      }
    }

    /**
     * `_rename_note`: only with exactly one selected note item, and then on
     * the note list's current item `current`, which Qt keeps apart from the
     * selection (a Ctrl-click can deselect the current item).
     */
    method RenameNote(selected: seq<int>, current: int, newTitle: string, ok: bool) returns (persisted: Option<Data>)
      requires Valid()
      requires |selected| == 1 ==> current in notes
      modifies this
      ensures Valid()
      ensures
        if |selected| == 1 && ok && NonBlank(newTitle) && newTitle != old(notes)[current].title then
          notes == old(notes)[current := old(notes)[current].(title := newTitle)] && persisted == Some(Snapshot())
        else notes == old(notes) && persisted == None
      ensures folders == old(folders) && currentFolder == old(currentFolder)
      ensures nextFolderId == old(nextFolderId) && nextNoteId == old(nextNoteId)
    {
      persisted := None;
      if |selected| != 1 {
        return;
      }
      var oldTitle := notes[current].title;
      if ok && NonBlank(newTitle) && newTitle != oldTitle {
        notes := notes[current := notes[current].(title := newTitle)];
        persisted := Some(Snapshot());
      }
    }

    /**
     * `_delete_folder` on the folder list's current item, once confirmed:
     * the folder and every note of its list go. `takeItem` of the current
     * row makes Qt select the next row (or the previous one), whose
     * `itemSelectionChanged` runs `_on_folder_selection_changed`: the folder
     * `after` becomes current. With no other folder left, there is none,
     * and the deleted current folder is deselected.
     */
    method DeleteFolder(selected: Option<int>, confirmed: bool, after: Option<int>) returns (persisted: Option<Data>)
      requires Valid()
      requires selected.Some? ==> selected.value in folders.vals
      requires selected.Some? && confirmed ==>
        && (after.None? <==> |folders.keys| == 1)
        && (after.Some? ==> after.value in folders.vals && after.value != selected.value)
      modifies this
      ensures Valid()
      ensures selected.None? || !confirmed ==>
        folders == old(folders) && notes == old(notes) && currentFolder == old(currentFolder) && persisted == None
      ensures selected.Some? && confirmed ==>
        var fid := selected.value;
        && folders == Remove(old(folders), fid)
        && notes == old(notes) - IdSet(old(folders).vals[fid].notes)
        && currentFolder == after
        && persisted == Some(Snapshot())
      ensures nextFolderId == old(nextFolderId) && nextNoteId == old(nextNoteId)
    {
      persisted := None;
      if selected.None? || !confirmed {
        return;
      }
      var fid := selected.value;
      var ids := folders.vals[fid].notes;
      for k := 0 to |ids|
        invariant notes == old(notes) - IdSet(ids[..k])
        invariant folders == old(folders) && currentFolder == old(currentFolder)
        invariant nextFolderId == old(nextFolderId) && nextNoteId == old(nextNoteId)
      {
        assert IdSet(ids[..k + 1]) == IdSet(ids[..k]) + {ids[k]} by {
          assert ids[..k + 1] == ids[..k] + [ids[k]];
        }
        if ids[k] in notes {
          notes := notes - {ids[k]};
        }
      }
      assert ids[..|ids|] == ids;
      RemoveValid(folders, fid);
      folders := Remove(folders, fid);
      // `after` differs from `fid`, so the test `current_folder == fid` that follows is false.
      currentFolder := after;
      persisted := Some(Snapshot());
    }

    /**
     * `_delete_notes` on the selected note items, once confirmed: those
     * notes go and the current folder's list keeps its other ids in order.
     */
    method DeleteNotes(selected: seq<int>, confirmed: bool) returns (persisted: Option<Data>)
      requires Valid()
      requires |selected| > 0 ==> currentFolder.Some?
      modifies this
      ensures Valid()
      ensures |selected| == 0 || !confirmed ==> folders == old(folders) && notes == old(notes) && persisted == None
      ensures |selected| > 0 && confirmed ==>
        var cur := old(currentFolder).value;
        && notes == old(notes) - IdSet(selected)
        && folders.keys == old(folders.keys)
        && folders.vals == old(folders.vals)[cur := old(folders.vals)[cur].(notes := Without(old(folders.vals)[cur].notes, IdSet(selected)))]
        && persisted == Some(Snapshot())
      ensures currentFolder == old(currentFolder)
      ensures nextFolderId == old(nextFolderId) && nextNoteId == old(nextNoteId)
    {
      persisted := None;
      if |selected| == 0 || !confirmed {
        return;
      }
      var cur := currentFolder.value;
      var folderNotes := folders.vals[cur].notes;
      var gone := IdSet(selected);
      for k := 0 to |selected|
        invariant notes == old(notes) - IdSet(selected[..k])
        invariant folders == old(folders) && currentFolder == old(currentFolder)
        invariant nextFolderId == old(nextFolderId) && nextNoteId == old(nextNoteId)
      {
        assert IdSet(selected[..k + 1]) == IdSet(selected[..k]) + {selected[k]} by {
          assert selected[..k + 1] == selected[..k] + [selected[k]];
        }
        if selected[k] in notes {
          notes := notes - {selected[k]};
        }
      }
      assert selected[..|selected|] == selected;
      var f := folders.vals[cur];
      PutValid(folders, cur, f.(notes := Without(folderNotes, gone)));
      folders := Put(folders, cur, f.(notes := Without(folderNotes, gone)));
      persisted := Some(Snapshot());
    }

    /** `_on_note_reordered`: the current folder's list becomes the order the note list now shows. */
    method OnNoteReordered(shown: seq<int>) returns (persisted: Option<Data>)
      requires Valid()
      modifies this
      ensures Valid()
      ensures old(currentFolder).None? ==> folders == old(folders) && persisted == None
      ensures old(currentFolder).Some? ==>
        var cur := old(currentFolder).value;
        && folders.keys == old(folders.keys)
        && folders.vals == old(folders.vals)[cur := old(folders.vals)[cur].(notes := shown)]
        && persisted == Some(Snapshot())
      ensures notes == old(notes) && currentFolder == old(currentFolder)
      ensures nextFolderId == old(nextFolderId) && nextNoteId == old(nextNoteId)
    {
      persisted := None;
      if currentFolder.None? {
        return;
      }
      var cur := currentFolder.value;
      PutValid(folders, cur, folders.vals[cur].(notes := shown));
      folders := Put(folders, cur, folders.vals[cur].(notes := shown));
      persisted := Some(Snapshot());
    }
  }

  // ---------------------------------------------------------------- lemmas

  /** The entry `NoteItems` appends for index `i` of the list: one item when the id has a note. */
  function ItemAt(ids: seq<int>, notes: map<int, Note>, i: nat): seq<(int, string)>
    requires i < |ids|
  {
    if ids[i] in notes then [(ids[i], Label(i, notes[ids[i]].title))] else []
  }

  lemma NoteItemsSnoc(ids: seq<int>, notes: map<int, Note>)
    requires |ids| > 0
    ensures NoteItems(ids, notes) == NoteItems(ids[..|ids| - 1], notes) + ItemAt(ids, notes, |ids| - 1)
  {
  }

  lemma {:induction false} NoteItemsKeys(ids: seq<int>, notes: map<int, Note>)
    ensures PairKeys(NoteItems(ids, notes)) == Present(ids, notes)
    decreases |ids|
  {
    if |ids| > 0 {
      var n := |ids| - 1;
      NoteItemsKeys(ids[..n], notes);
      NoteItemsSnoc(ids, notes);
      var a, b := NoteItems(ids[..n], notes), ItemAt(ids, notes, n);
      assert PairKeys(a + b) == PairKeys(a) + PairKeys(b);
    }
  }

  lemma {:induction false} NoteItemsComplete(ids: seq<int>, notes: map<int, Note>)
    ensures forall i | 0 <= i < |ids| && ids[i] in notes :: (ids[i], Label(i, notes[ids[i]].title)) in NoteItems(ids, notes)
    decreases |ids|
  {
    if |ids| > 0 {
      var n := |ids| - 1;
      var p := ids[..n];
      NoteItemsComplete(p, notes);
      NoteItemsSnoc(ids, notes);
      forall i | 0 <= i < |ids| && ids[i] in notes
        ensures (ids[i], Label(i, notes[ids[i]].title)) in NoteItems(ids, notes)
      {
        if i < n {
          assert p[i] == ids[i];
          assert (ids[i], Label(i, notes[ids[i]].title)) in NoteItems(p, notes);
        } else {
          assert ItemAt(ids, notes, n)[0] == (ids[i], Label(i, notes[ids[i]].title));
        }
      }
    }
  }

  lemma {:induction false} NoteItemsSound(ids: seq<int>, notes: map<int, Note>)
    ensures forall it | it in NoteItems(ids, notes) ::
      exists i | 0 <= i < |ids| :: ids[i] == it.0 && ids[i] in notes && it.1 == Label(i, notes[ids[i]].title)
    decreases |ids|
  {
    if |ids| > 0 {
      var n := |ids| - 1;
      var p := ids[..n];
      NoteItemsSound(p, notes);
      NoteItemsSnoc(ids, notes);
      var a := NoteItems(p, notes);
      forall it | it in NoteItems(ids, notes)
        ensures exists i | 0 <= i < |ids| :: ids[i] == it.0 && ids[i] in notes && it.1 == Label(i, notes[ids[i]].title)
      {
        if it in a {
          var i :| 0 <= i < |p| && p[i] == it.0 && p[i] in notes && it.1 == Label(i, notes[p[i]].title);
          assert ids[i] == p[i];
        } else {
          assert it == ItemAt(ids, notes, n)[0];
        }
      }
    }
  }

  /**
   * The items of the note list are the folder's ids that have a note, in
   * list order, and the item for index `i` of the list shows `Label(i, title)`.
   */
  lemma NoteItemsSpec(ids: seq<int>, notes: map<int, Note>)
    ensures PairKeys(NoteItems(ids, notes)) == Present(ids, notes)
    ensures forall i | 0 <= i < |ids| && ids[i] in notes :: (ids[i], Label(i, notes[ids[i]].title)) in NoteItems(ids, notes)
    ensures forall it | it in NoteItems(ids, notes) ::
      exists i | 0 <= i < |ids| :: ids[i] == it.0 && ids[i] in notes && it.1 == Label(i, notes[ids[i]].title)
  {
    NoteItemsKeys(ids, notes);
    NoteItemsComplete(ids, notes);
    NoteItemsSound(ids, notes);
  }

  /**
   * The text after the first `" - "` of a label is the note title: the
   * single-note delete question quotes exactly the title.
   */
  lemma LabelTitle(i: nat, title: string)
    ensures var l := Label(i, title);
      Find(l, " - ").Some? && l[Find(l, " - ").value + 3..] == title
  {
    var num := "#" + ZeroPad2(i + 1);
    var l := Label(i, title);
    assert l == num + " - " + title;
    forall k | 0 <= k < |num|
      ensures num[k] != ' '
    {
      var d := NatToDec(i + 1);
      if i + 1 < 10 {
        assert num == "#0" + d;
      } else {
        assert num == "#" + d;
      }
    }
    assert OccursAt(l, " - ", |num|);
    forall j | 0 <= j < |num|
      ensures !OccursAt(l, " - ", j)
    {
      assert l[j] == num[j] != ' ';
      if j + 3 <= |l| {
        assert l[j..j + 3][0] == l[j];
      }
    }
    assert Find(l, " - ").value == |num|;
  }

  /** A note whose title contains the query is never hidden by the filter. */
  lemma TitleMatchShown(i: nat, title: string, query: string)
    requires Contains(Lower(title), Lower(query))
    ensures !Hidden(Label(i, title), query)
  {
    var pre := "#" + ZeroPad2(i + 1) + " - ";
    assert Label(i, title) == pre + title;
    LowerConcat(pre, title);
    ContainsSuffix(Lower(pre), Lower(title), Lower(query));
  }

  /** The empty query hides nothing. */
  lemma EmptyQueryShowsAll(text: string)
    ensures !Hidden(text, "")
  {
    assert OccursAt(Lower(text), Lower(""), 0);
  }

  /**
   * After a drag in the note list, the folder's list is the shown order,
   * so ids without a note drop out of it: it now holds exactly the ids it
   * held that have a note.
   */
  lemma ReorderDropsDangling(ids: seq<int>, notes: map<int, Note>, shown: seq<int>)
    requires multiset(shown) == multiset(PairKeys(NoteItems(ids, notes)))
    ensures forall x :: x in shown <==> x in ids && x in notes
    ensures Present(shown, notes) == shown
  {
    NoteItemsSpec(ids, notes);
    PresentMembers(ids, notes);
    forall x
      ensures x in shown <==> x in ids && x in notes
    {
      assert x in shown <==> x in multiset(shown);
      assert x in Present(ids, notes) <==> x in multiset(Present(ids, notes));
    }
    assert forall i | 0 <= i < |shown| :: shown[i] in shown;
    PresentKeepsAll(shown, notes);
  }

  lemma {:induction false} PresentKeepsAll(s: seq<int>, notes: map<int, Note>)
    requires forall i | 0 <= i < |s| :: s[i] in notes
    ensures Present(s, notes) == s
    decreases |s|
  {
    if |s| > 0 {
      var p := s[..|s| - 1];
      assert forall i | 0 <= i < |p| :: p[i] == s[i];
      PresentKeepsAll(p, notes);
      assert s == p + [s[|s| - 1]];
    }
  }
}
