/**
 * The in-memory data object that the sidebar owns and hands to the storage
 * manager: folders (in dict order) each with an ordered list of note ids,
 * notes by id, and the two id allocators.
 */
module Aggregate {
  import opened Dicts

  datatype Folder = Folder(name: string, notes: seq<int>)

  datatype Note = Note(title: string, body: string)

  datatype Data = Data(
    folders: Dict<int, Folder>,
    notes: map<int, Note>,
    nextFolderId: int,
    nextNoteId: int)

  ghost predicate Valid(d: Data) {
    Dicts.Valid(d.folders)
  }

  /** Both allocators are above every id in use. */
  ghost predicate AllocatorsAhead(d: Data) {
    && (forall fid | fid in d.folders.vals :: fid < d.nextFolderId)
    && (forall nid | nid in d.notes :: nid < d.nextNoteId)
  }

  /** `[nid for nid in ids if nid in notes]`: a folder's list with dangling ids skipped. */
  function Present(ids: seq<int>, notes: map<int, Note>): seq<int>
    decreases |ids|
  {
    if |ids| == 0 then []
    else Present(ids[..|ids| - 1], notes) + (if ids[|ids| - 1] in notes then [ids[|ids| - 1]] else [])
  }

  /** `[nid for nid in ids if nid not in gone]`. */
  function Without(ids: seq<int>, gone: set<int>): seq<int>
    decreases |ids|
  {
    if |ids| == 0 then []
    else Without(ids[..|ids| - 1], gone) + (if ids[|ids| - 1] in gone then [] else [ids[|ids| - 1]])
  }

  /** The ids kept by `Present` are exactly those of the list that have a note, in list order. */
  lemma {:induction false} PresentMembers(ids: seq<int>, notes: map<int, Note>)
    ensures forall x :: x in Present(ids, notes) <==> x in ids && x in notes
    ensures |Present(ids, notes)| <= |ids|
    decreases |ids|
  {
    if |ids| > 0 {
      PresentMembers(ids[..|ids| - 1], notes);
      assert ids == ids[..|ids| - 1] + [ids[|ids| - 1]];
    }
  }

  /** `Without` keeps exactly the ids outside `gone`, and only those. */
  lemma {:induction false} WithoutMembers(ids: seq<int>, gone: set<int>)
    ensures forall x :: x in Without(ids, gone) <==> x in ids && x !in gone
    decreases |ids|
  {
    if |ids| > 0 {
      WithoutMembers(ids[..|ids| - 1], gone);
      assert ids == ids[..|ids| - 1] + [ids[|ids| - 1]];
    }
  }
}
