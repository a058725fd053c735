/**
 * What `StorageManager.save` writes. Inside one transaction it runs
 * statement 0 `BEGIN`, statements 1 and 2 `DELETE FROM notes` and
 * `DELETE FROM folders`, then one INSERT per folder (in dict order, under
 * its normalised name) followed by one INSERT per note id of that folder's
 * list that has a note (with `sort_order` the id's index in the full list),
 * and finally `COMMIT`.
 */
module SaveSpec {
  import opened Wrappers
  import opened Dicts
  import opened Aggregate
  import opened FolderNames
  import opened Schema

  function NamesOf(items: seq<(int, Folder)>): (r: seq<string>)
    ensures |r| == |items| && forall i | 0 <= i < |items| :: r[i] == items[i].1.name
  {
    seq(|items|, i requires 0 <= i < |items| => items[i].1.name)
  }

  /** `modified_folders`: every folder in order, renamed against the names given before it. */
  function Renamed(items: seq<(int, Folder)>): (r: seq<(int, Folder)>)
    ensures |r| == |items|
    decreases |items|
  {
    if |items| == 0 then []
    else
      var p := Renamed(items[..|items| - 1]);
      var last := items[|items| - 1];
      p + [(last.0, last.1.(name := UniqueName(last.1.name, SetOf(NamesOf(p)))))]
  }

  /** The note row `save` writes for id `nid` at index `j` of folder `fid`'s list. */
  function RowFor(notes: map<int, Note>, nid: int, fid: int, j: int): NoteRow
    requires nid in notes
  {
    NoteRow(notes[nid].title, notes[nid].body, fid, j)
  }

  /** The note inserts for one folder's list: dangling ids are skipped but still count in `enumerate`. */
  function NoteInserts(fid: int, ids: seq<int>, notes: map<int, Note>): seq<Insert>
    decreases |ids|
  {
    if |ids| == 0 then []
    else
      var nid := ids[|ids| - 1];
      NoteInserts(fid, ids[..|ids| - 1], notes)
      + (if nid in notes then [AddNote(nid, RowFor(notes, nid, fid, |ids| - 1))] else [])
  }

  /** The inserts for one folder: the folder row, then its notes. */
  function FolderInserts(item: (int, Folder), notes: map<int, Note>): seq<Insert> {
    [AddFolder(item.0, item.1.name)] + NoteInserts(item.0, item.1.notes, notes)
  }

  /** Every insert of the loop body of (features/storage.py:123-134), folder by folder. */
  function Inserts(items: seq<(int, Folder)>, notes: map<int, Note>): seq<Insert>
    decreases |items|
  {
    if |items| == 0 then []
    else
      Inserts(items[..|items| - 1], notes) + FolderInserts(items[|items| - 1], notes)
  }

  /** The ids of all folder lists that have a note, folder after folder: the note ids `save` inserts. */
  function AllPresent(items: seq<(int, Folder)>, notes: map<int, Note>): seq<int>
    decreases |items|
  {
    if |items| == 0 then []
    else AllPresent(items[..|items| - 1], notes) + Present(items[|items| - 1].1.notes, notes)
  }

  /** The statements after the two deletes, for the folders `items` in dict order. */
  function SaveInserts(items: seq<(int, Folder)>, notes: map<int, Note>): seq<Insert> {
    Inserts(Renamed(items), notes)
  }

  /** All statements of the transaction: BEGIN, two DELETEs, the inserts, COMMIT. */
  function StatementCount(items: seq<(int, Folder)>, notes: map<int, Note>): nat {
    |SaveInserts(items, notes)| + 4
  }

  /**
   * The tables a save commits, or `None` where one of its statements
   * raises and the transaction is rolled back. `failAt` is the number of a
   * statement that raises for reasons outside the model.
   */
  function SaveTables(items: seq<(int, Folder)>, notes: map<int, Note>, failAt: Option<nat>): Option<Tables> {
    SaveTransaction(SaveInserts(items, notes), failAt)
  }

  /** BEGIN and the two DELETEs (statements 0 to 2), the inserts `ins` from statement 3, then COMMIT. */
  function SaveTransaction(ins: seq<Insert>, failAt: Option<nat>): Option<Tables> {
    if FailsWithin(failAt, 0, 3) then None
    else
      var r := ExecAll(NoTables(), ins, failAt, 3);
      if r.None? || failAt == Some(3 + |ins|) then None else r
  }

  // ---------------------------------------------------------------- renaming

  lemma PairKeysSnoc(items: seq<(int, Folder)>, x: (int, Folder))
    ensures PairKeys(items + [x]) == PairKeys(items) + [x.0]
  {
  }

  lemma NamesOfSnoc(items: seq<(int, Folder)>, x: (int, Folder))
    ensures NamesOf(items + [x]) == NamesOf(items) + [x.1.name]
  {
  }

  /** Renaming leaves ids and note lists alone and gives the folders the normalised names. */
  lemma {:induction false} RenamedSpec(items: seq<(int, Folder)>)
    ensures PairKeys(Renamed(items)) == PairKeys(items)
    ensures NamesOf(Renamed(items)) == Normalize(NamesOf(items))
    ensures forall i | 0 <= i < |items| :: Renamed(items)[i].1.notes == items[i].1.notes
    decreases |items|
  {
    if |items| > 0 {
      var n := |items| - 1;
      var p, last := items[..n], items[n];
      RenamedSpec(p);
      var rp := Renamed(p);
      var x := (last.0, last.1.(name := UniqueName(last.1.name, SetOf(NamesOf(rp)))));
      assert Renamed(items) == rp + [x];
      assert items == p + [last];
      PairKeysSnoc(rp, x);
      PairKeysSnoc(p, last);
      NamesOfSnoc(rp, x);
      NamesOfSnoc(p, last);
      assert Normalize(NamesOf(p) + [last.1.name]) == Normalize(NamesOf(p)) + [x.1.name] by {
        assert (NamesOf(p) + [last.1.name])[..n] == NamesOf(p);
      }
    }
  }

  lemma {:induction false} AllPresentRenamed(items: seq<(int, Folder)>, notes: map<int, Note>)
    ensures AllPresent(Renamed(items), notes) == AllPresent(items, notes)
    decreases |items|
  {
    if |items| > 0 {
      var p := items[..|items| - 1];
      AllPresentRenamed(p, notes);
      var r := Renamed(items);
      assert r[..|p|] == Renamed(p);
    }
  }

  /** The names `save` inserts are pairwise distinct, so the UNIQUE constraint never fires. */
  lemma RenamedNamesDistinct(items: seq<(int, Folder)>)
    ensures Distinct(NamesOf(Renamed(items)))
  {
    RenamedSpec(items);
    NormalizeDistinct(NamesOf(items));
  }

  // ---------------------------------------------------------------- the insert list

  lemma {:induction false} FolderKeysAppend(a: seq<Insert>, b: seq<Insert>)
    ensures FolderKeys(a + b) == FolderKeys(a) + FolderKeys(b)
    decreases |b|
  {
    if |b| == 0 {
      assert a + b == a;
    } else {
      FolderKeysAppend(a, b[..|b| - 1]);
      assert (a + b)[..|a + b| - 1] == a + b[..|b| - 1];
    }
  }

  lemma {:induction false} FolderNamesAppend(a: seq<Insert>, b: seq<Insert>)
    ensures FolderNamesOf(a + b) == FolderNamesOf(a) + FolderNamesOf(b)
    decreases |b|
  {
    if |b| == 0 {
      assert a + b == a;
    } else {
      FolderNamesAppend(a, b[..|b| - 1]);
      assert (a + b)[..|a + b| - 1] == a + b[..|b| - 1];
    }
  }

  lemma {:induction false} NoteKeysAppend(a: seq<Insert>, b: seq<Insert>)
    ensures NoteKeys(a + b) == NoteKeys(a) + NoteKeys(b)
    decreases |b|
  {
    if |b| == 0 {
      assert a + b == a;
    } else {
      NoteKeysAppend(a, b[..|b| - 1]);
      assert (a + b)[..|a + b| - 1] == a + b[..|b| - 1];
    }
  }

  lemma {:induction false} NoteInsertsKeys(fid: int, ids: seq<int>, notes: map<int, Note>)
    ensures FolderKeys(NoteInserts(fid, ids, notes)) == []
    ensures FolderNamesOf(NoteInserts(fid, ids, notes)) == []
    ensures NoteKeys(NoteInserts(fid, ids, notes)) == Present(ids, notes)
    decreases |ids|
  {
    if |ids| > 0 {
      var nid := ids[|ids| - 1];
      var a := NoteInserts(fid, ids[..|ids| - 1], notes);
      var b := if nid in notes then [AddNote(nid, RowFor(notes, nid, fid, |ids| - 1))] else [];
      NoteInsertsKeys(fid, ids[..|ids| - 1], notes);
      FolderKeysAppend(a, b);
      FolderNamesAppend(a, b);
      NoteKeysAppend(a, b);
      if nid in notes {
        assert b[..0] == [];
      }
    }
  }

  lemma FolderInsertsKeys(item: (int, Folder), notes: map<int, Note>)
    ensures FolderKeys(FolderInserts(item, notes)) == [item.0]
    ensures FolderNamesOf(FolderInserts(item, notes)) == [item.1.name]
    ensures NoteKeys(FolderInserts(item, notes)) == Present(item.1.notes, notes)
  {
    var a := [AddFolder(item.0, item.1.name)];
    var b := NoteInserts(item.0, item.1.notes, notes);
    assert a[..0] == [];
    NoteInsertsKeys(item.0, item.1.notes, notes);
    FolderKeysAppend(a, b);
    FolderNamesAppend(a, b);
    NoteKeysAppend(a, b);
  }

  /** The folder rows inserted carry the folders' ids in order. */
  lemma {:induction false} InsertsFolderKeys(items: seq<(int, Folder)>, notes: map<int, Note>)
    ensures FolderKeys(Inserts(items, notes)) == PairKeys(items)
    decreases |items|
  {
    if |items| > 0 {
      var n := |items| - 1;
      var p, last := items[..n], items[n];
      InsertsFolderKeys(p, notes);
      FolderInsertsKeys(last, notes);
      FolderKeysAppend(Inserts(p, notes), FolderInserts(last, notes));
      assert items == p + [last];
      PairKeysSnoc(p, last);
    }
  }

  /** The folder rows inserted carry the folders' names in order. */
  lemma {:induction false} InsertsFolderNames(items: seq<(int, Folder)>, notes: map<int, Note>)
    ensures FolderNamesOf(Inserts(items, notes)) == NamesOf(items)
    decreases |items|
  {
    if |items| > 0 {
      var n := |items| - 1;
      var p, last := items[..n], items[n];
      InsertsFolderNames(p, notes);
      FolderInsertsKeys(last, notes);
      FolderNamesAppend(Inserts(p, notes), FolderInserts(last, notes));
      assert items == p + [last];
      NamesOfSnoc(p, last);
    }
  }

  /** The note rows inserted carry, in order, the ids of every list that have a note. */
  lemma {:induction false} InsertsNoteKeys(items: seq<(int, Folder)>, notes: map<int, Note>)
    ensures NoteKeys(Inserts(items, notes)) == AllPresent(items, notes)
    decreases |items|
  {
    if |items| > 0 {
      var p := items[..|items| - 1];
      InsertsNoteKeys(p, notes);
      FolderInsertsKeys(items[|items| - 1], notes);
      NoteKeysAppend(Inserts(p, notes), FolderInserts(items[|items| - 1], notes));
    }
  }

  /** Some folder of `items` lists `nid`. */
  predicate Listed(items: seq<(int, Folder)>, nid: int) {
    exists i | 0 <= i < |items| :: nid in items[i].1.notes
  }

  lemma ListedSnoc(items: seq<(int, Folder)>, nid: int)
    requires |items| > 0
    ensures Listed(items, nid) <==> Listed(items[..|items| - 1], nid) || nid in items[|items| - 1].1.notes
  {
    var p := items[..|items| - 1];
    if Listed(p, nid) {
      var i :| 0 <= i < |p| && nid in p[i].1.notes;
      assert items[i] == p[i];
    }
    if Listed(items, nid) && nid !in items[|items| - 1].1.notes {
      var i :| 0 <= i < |items| && nid in items[i].1.notes;
      assert items[i] == p[i];
    }
  }

  /** A note id is inserted exactly when it has a note and some folder lists it. */
  lemma {:induction false} AllPresentMembers(items: seq<(int, Folder)>, notes: map<int, Note>)
    ensures forall nid :: nid in AllPresent(items, notes) <==> nid in notes && Listed(items, nid)
    decreases |items|
  {
    if |items| > 0 {
      var p := items[..|items| - 1];
      var ids := items[|items| - 1].1.notes;
      AllPresentMembers(p, notes);
      PresentMembers(ids, notes);
      assert AllPresent(items, notes) == AllPresent(p, notes) + Present(ids, notes);
      forall nid
        ensures nid in AllPresent(items, notes) <==> nid in notes && Listed(items, nid)
      {
        ListedSnoc(items, nid);
      }
    }
  }

  // ---------------------------------------------------------------- success and failure

  lemma FailsWithinSplit(failAt: Option<nat>, n: nat)
    ensures FailsWithin(failAt, 0, n + 4) <==>
      FailsWithin(failAt, 0, 3) || FailsWithin(failAt, 3, n) || failAt == Some(3 + n)
  {
  }

  /**
   * A save with distinct folder ids commits exactly when no statement fails
   * from outside and no note id is listed twice among the ids that have a
   * note (which would break the `note_id` primary key); the committed tables
   * are then the inserted rows.
   */
  lemma SaveSucceedsIff(items: seq<(int, Folder)>, notes: map<int, Note>, failAt: Option<nat>)
    requires Distinct(PairKeys(items))
    ensures SaveTables(items, notes, failAt).Some? <==>
      !FailsWithin(failAt, 0, StatementCount(items, notes)) && Distinct(AllPresent(items, notes))
    ensures SaveTables(items, notes, failAt).Some? ==>
      SaveTables(items, notes, failAt).value == Applied(SaveInserts(items, notes))
  {
    CleanInsertsSucceed(items, notes);
    SaveTransactionOutcome(SaveInserts(items, notes), failAt);
  }

  /** A transaction commits exactly when no statement fails from outside and the inserts go through cleanly. */
  lemma SaveTransactionOutcome(ins: seq<Insert>, failAt: Option<nat>)
    ensures SaveTransaction(ins, failAt).Some? <==>
      !FailsWithin(failAt, 0, |ins| + 4) && ExecAll(NoTables(), ins, None, 3).Some?
    ensures SaveTransaction(ins, failAt).Some? ==> SaveTransaction(ins, failAt) == ExecAll(NoTables(), ins, None, 3)
  {
    ExecAllFailAt(NoTables(), ins, failAt, 3);
    FailsWithinSplit(failAt, |ins|);
  }

  /** Without outside failures the inserts of a save go through exactly when no note id repeats. */
  lemma CleanInsertsSucceed(items: seq<(int, Folder)>, notes: map<int, Note>)
    requires Distinct(PairKeys(items))
    ensures ExecAll(NoTables(), SaveInserts(items, notes), None, 3).Some? <==> Distinct(AllPresent(items, notes))
    ensures ExecAll(NoTables(), SaveInserts(items, notes), None, 3).Some? ==>
      ExecAll(NoTables(), SaveInserts(items, notes), None, 3).value == Applied(SaveInserts(items, notes))
  {
    var r := Renamed(items);
    RenamedSpec(items);
    RenamedNamesDistinct(items);
    AllPresentRenamed(items, notes);
    InsertsFolderKeys(r, notes);
    InsertsFolderNames(r, notes);
    InsertsNoteKeys(r, notes);
    ExecAllClean(Inserts(r, notes), 3);
  }

  lemma {:induction false} PresentIndex(ids: seq<int>, notes: map<int, Note>, j: nat)
    requires j < |ids| && ids[j] in notes
    ensures |Present(ids[..j], notes)| < |Present(ids, notes)|
    ensures Present(ids, notes)[|Present(ids[..j], notes)|] == ids[j]
    ensures Present(ids[..j], notes) == Present(ids, notes)[..|Present(ids[..j], notes)|]
    decreases |ids|
  {
    var n := |ids| - 1;
    var q := Present(ids[..n], notes);
    assert Present(ids, notes)[..|q|] == q;
    if j == n {
      assert Present(ids, notes) == q + [ids[n]];
    } else {
      PresentIndex(ids[..n], notes, j);
      assert ids[..n][..j] == ids[..j];
    }
  }

  /** The present ids split at folder `i`: those of the folders before it, its own, then the rest. */
  lemma {:induction false} AllPresentSplit(items: seq<(int, Folder)>, notes: map<int, Note>, i: nat)
    requires i < |items|
    ensures var pre, mid := AllPresent(items[..i], notes), Present(items[i].1.notes, notes);
      |pre| + |mid| <= |AllPresent(items, notes)|
      && AllPresent(items, notes) == pre + (mid + AllPresent(items, notes)[|pre| + |mid|..])
    decreases |items|
  {
    var n := |items| - 1;
    var pre, mid := AllPresent(items[..i], notes), Present(items[i].1.notes, notes);
    var all, last := AllPresent(items[..n], notes), Present(items[n].1.notes, notes);
    assert AllPresent(items, notes) == all + last;
    if i == n {
      assert items[..n] == items[..i];
      assert (all + last)[|pre| + |mid|..] == [];
    } else {
      AllPresentSplit(items[..n], notes, i);
      assert items[..n][..i] == items[..i] && items[..n][i] == items[i];
      var post := all[|pre| + |mid|..];
      SplitRest(pre, mid, post, last);
    }
  }

  lemma SplitRest(pre: seq<int>, mid: seq<int>, post: seq<int>, last: seq<int>)
    ensures (pre + (mid + post)) + last == pre + (mid + ((pre + (mid + post)) + last)[|pre| + |mid|..])
  {
    var s := (pre + (mid + post)) + last;
    assert s[|pre| + |mid|..] == post + last;
  }

  /** One list holding a present id twice has repeated present ids. */
  lemma RepeatInOneList(ids: seq<int>, notes: map<int, Note>, ja: nat, jb: nat)
    requires ja < jb < |ids| && ids[ja] == ids[jb] && ids[ja] in notes
    ensures !Distinct(Present(ids, notes))
  {
    PresentIndex(ids, notes, ja);
    PresentIndex(ids, notes, jb);
    var ka, kb := |Present(ids[..ja], notes)|, |Present(ids[..jb], notes)|;
    PresentMembers(ids[..jb], notes);
    assert ids[..jb][ja] == ids[ja];
    assert ids[ja] in Present(ids[..jb], notes);
    var k :| 0 <= k < kb && Present(ids[..jb], notes)[k] == ids[ja];
    assert Present(ids, notes)[k] == Present(ids, notes)[kb];
  }

  /** Two present positions holding one id leave the concatenated present ids with a repeat. */
  lemma NotDistinctAllPresent(items: seq<(int, Folder)>, notes: map<int, Note>, i1: nat, j1: nat, i2: nat, j2: nat)
    requires i1 < |items| && j1 < |items[i1].1.notes| && i2 < |items| && j2 < |items[i2].1.notes|
    requires (i1, j1) != (i2, j2) && items[i1].1.notes[j1] == items[i2].1.notes[j2]
    requires items[i1].1.notes[j1] in notes
    ensures !Distinct(AllPresent(items, notes))
  {
    if i1 == i2 {
      var ids := items[i1].1.notes;
      if j1 < j2 {
        RepeatInOneList(ids, notes, j1, j2);
      } else {
        RepeatInOneList(ids, notes, j2, j1);
      }
      AllPresentSplit(items, notes, i1);
      var pre, mid := AllPresent(items[..i1], notes), Present(ids, notes);
      var post := AllPresent(items, notes)[|pre| + |mid|..];
      DistinctConcat(pre, mid + post);
      DistinctConcat(mid, post);
    } else {
      var ia, ib := if i1 < i2 then i1 else i2, if i1 < i2 then i2 else i1;
      var nid := items[i1].1.notes[j1];
      assert nid in items[ia].1.notes && nid in items[ib].1.notes;
      AllPresentSplit(items, notes, ib);
      AllPresentMembers(items[..ib], notes);
      assert items[..ib][ia] == items[ia];
      var pre, mid := AllPresent(items[..ib], notes), Present(items[ib].1.notes, notes);
      var post := AllPresent(items, notes)[|pre| + |mid|..];
      assert nid in pre;
      PresentMembers(items[ib].1.notes, notes);
      assert nid in mid + post;
      DistinctConcat(pre, mid + post);
    }
  }

  /** A note listed twice, in one folder or in two, makes the save roll back. */
  lemma DuplicateNoteFails(items: seq<(int, Folder)>, notes: map<int, Note>, failAt: Option<nat>,
                           i1: nat, j1: nat, i2: nat, j2: nat)
    requires Distinct(PairKeys(items))
    requires i1 < |items| && j1 < |items[i1].1.notes| && i2 < |items| && j2 < |items[i2].1.notes|
    requires (i1, j1) != (i2, j2) && items[i1].1.notes[j1] == items[i2].1.notes[j2]
    requires items[i1].1.notes[j1] in notes
    ensures SaveTables(items, notes, failAt).None?
  {
    SaveSucceedsIff(items, notes, failAt);
    NotDistinctAllPresent(items, notes, i1, j1, i2, j2);
  }

  // ---------------------------------------------------------------- contents

  /** The rows one folder's list contributes (a repeated id keeps its later row). */
  function RowsOf(fid: int, ids: seq<int>, notes: map<int, Note>): map<int, NoteRow>
    decreases |ids|
  {
    if |ids| == 0 then map[]
    else
      var nid := ids[|ids| - 1];
      var r := RowsOf(fid, ids[..|ids| - 1], notes);
      if nid in notes then r[nid := RowFor(notes, nid, fid, |ids| - 1)] else r
  }

  function FolderMapOf(items: seq<(int, Folder)>): map<int, string>
    decreases |items|
  {
    if |items| == 0 then map[]
    else FolderMapOf(items[..|items| - 1])[items[|items| - 1].0 := items[|items| - 1].1.name]
  }

  function NoteMapOf(items: seq<(int, Folder)>, notes: map<int, Note>): map<int, NoteRow>
    decreases |items|
  {
    if |items| == 0 then map[]
    else NoteMapOf(items[..|items| - 1], notes) + RowsOf(items[|items| - 1].0, items[|items| - 1].1.notes, notes)
  }

  lemma {:induction false} AppliedNoteInserts(pre: seq<Insert>, fid: int, ids: seq<int>, notes: map<int, Note>)
    ensures Applied(pre + NoteInserts(fid, ids, notes)) ==
      Tables(Applied(pre).folders, Applied(pre).notes + RowsOf(fid, ids, notes))
    decreases |ids|
  {
    if |ids| == 0 {
      assert pre + NoteInserts(fid, ids, notes) == pre;
    } else {
      var n := |ids| - 1;
      var nid := ids[n];
      AppliedNoteInserts(pre, fid, ids[..n], notes);
      var mid := pre + NoteInserts(fid, ids[..n], notes);
      var rows := RowsOf(fid, ids[..n], notes);
      if nid in notes {
        var row := RowFor(notes, nid, fid, n);
        var x := AddNote(nid, row);
        assert NoteInserts(fid, ids, notes) == NoteInserts(fid, ids[..n], notes) + [x];
        InsertsAssoc(pre, NoteInserts(fid, ids[..n], notes), [x]);
        AppliedSnoc(mid, x);
        assert RowsOf(fid, ids, notes) == rows[nid := row];
        UnionUpdate(Applied(pre).notes, rows, nid, row);
      } else {
        assert NoteInserts(fid, ids, notes) == NoteInserts(fid, ids[..n], notes) + [];
        assert pre + NoteInserts(fid, ids, notes) == mid;
        assert RowsOf(fid, ids, notes) == rows;
      }
    }
  }

  lemma UnionUpdate<K, V>(m: map<K, V>, r: map<K, V>, k: K, v: V)
    ensures m + r[k := v] == (m + r)[k := v]
  {
  }

  lemma InsertsAssoc(a: seq<Insert>, b: seq<Insert>, c: seq<Insert>)
    ensures a + (b + c) == (a + b) + c
  {
  }

  lemma AppliedSnoc(ins: seq<Insert>, x: Insert)
    ensures Applied(ins + [x]) == Step(Applied(ins), x)
  {
    assert (ins + [x])[..|ins|] == ins;
  }

  /** Applying the inserts of a save builds the folder map and the note map folder by folder. */
  lemma {:induction false} AppliedInserts(items: seq<(int, Folder)>, notes: map<int, Note>)
    ensures Applied(Inserts(items, notes)) == Tables(FolderMapOf(items), NoteMapOf(items, notes))
    decreases |items|
  {
    if |items| > 0 {
      var p := items[..|items| - 1];
      var last := items[|items| - 1];
      AppliedInserts(p, notes);
      var pre := Inserts(p, notes) + [AddFolder(last.0, last.1.name)];
      assert Inserts(items, notes) == pre + NoteInserts(last.0, last.1.notes, notes);
      assert pre[..|pre| - 1] == Inserts(p, notes);
      AppliedNoteInserts(pre, last.0, last.1.notes, notes);
    }
  }

  lemma {:induction false} RowsOfKeys(fid: int, ids: seq<int>, notes: map<int, Note>)
    ensures forall nid :: nid in RowsOf(fid, ids, notes) <==> nid in ids && nid in notes
    decreases |ids|
  {
    if |ids| > 0 {
      RowsOfKeys(fid, ids[..|ids| - 1], notes);
      assert ids == ids[..|ids| - 1] + [ids[|ids| - 1]];
    }
  }

  /** With no present id repeated, id `ids[j]` gets the row with index `j`. */
  lemma {:induction false} RowsOfAt(fid: int, ids: seq<int>, notes: map<int, Note>)
    requires Distinct(Present(ids, notes))
    ensures forall j | 0 <= j < |ids| && ids[j] in notes ::
      ids[j] in RowsOf(fid, ids, notes) && RowsOf(fid, ids, notes)[ids[j]] == RowFor(notes, ids[j], fid, j)
    decreases |ids|
  {
    if |ids| > 0 {
      var n := |ids| - 1;
      var q := ids[..n];
      var nid := ids[n];
      if nid in notes {
        assert Present(ids, notes) == Present(q, notes) + [nid];
        DistinctSnoc(Present(q, notes), nid);
      } else {
        assert Present(ids, notes) == Present(q, notes);
      }
      RowsOfAt(fid, q, notes);
      RowsOfKeys(fid, q, notes);
      PresentMembers(q, notes);
      forall j | 0 <= j < n && ids[j] in notes
        ensures ids[j] in RowsOf(fid, ids, notes) && RowsOf(fid, ids, notes)[ids[j]] == RowFor(notes, ids[j], fid, j)
      {
        assert q[j] == ids[j];
        assert ids[j] in q;
      }
    }
  }

  lemma {:induction false} FolderMapSpec(items: seq<(int, Folder)>)
    requires Distinct(PairKeys(items))
    ensures forall fid :: fid in FolderMapOf(items) <==> fid in PairKeys(items)
    ensures forall i | 0 <= i < |items| :: items[i].0 in FolderMapOf(items) && FolderMapOf(items)[items[i].0] == items[i].1.name
    decreases |items|
  {
    if |items| > 0 {
      var n := |items| - 1;
      var p := items[..n];
      assert PairKeys(items) == PairKeys(p) + [items[n].0];
      DistinctSnoc(PairKeys(p), items[n].0);
      FolderMapSpec(p);
      forall i | 0 <= i < n
        ensures items[i].0 in FolderMapOf(items) && FolderMapOf(items)[items[i].0] == items[i].1.name
      {
        assert p[i] == items[i] && PairKeys(p)[i] == items[i].0;
      }
    }
  }

  lemma {:induction false} NoteMapKeys(items: seq<(int, Folder)>, notes: map<int, Note>)
    ensures forall nid :: nid in NoteMapOf(items, notes) <==> nid in AllPresent(items, notes)
    decreases |items|
  {
    if |items| > 0 {
      var last := items[|items| - 1];
      NoteMapKeys(items[..|items| - 1], notes);
      RowsOfKeys(last.0, last.1.notes, notes);
      PresentMembers(last.1.notes, notes);
    }
  }

  lemma {:induction false} NoteMapAt(items: seq<(int, Folder)>, notes: map<int, Note>)
    requires Distinct(AllPresent(items, notes))
    ensures forall i, j | 0 <= i < |items| && 0 <= j < |items[i].1.notes| && items[i].1.notes[j] in notes ::
      items[i].1.notes[j] in NoteMapOf(items, notes)
      && NoteMapOf(items, notes)[items[i].1.notes[j]] == RowFor(notes, items[i].1.notes[j], items[i].0, j)
    decreases |items|
  {
    if |items| > 0 {
      var n := |items| - 1;
      var p := items[..n];
      var last := items[n];
      DistinctConcat(AllPresent(p, notes), Present(last.1.notes, notes));
      NoteMapAt(p, notes);
      RowsOfAt(last.0, last.1.notes, notes);
      RowsOfKeys(last.0, last.1.notes, notes);
      AllPresentMembers(p, notes);
      PresentMembers(last.1.notes, notes);
      forall i, j | 0 <= i < n && 0 <= j < |items[i].1.notes| && items[i].1.notes[j] in notes
        ensures items[i].1.notes[j] in NoteMapOf(items, notes)
          && NoteMapOf(items, notes)[items[i].1.notes[j]] == RowFor(notes, items[i].1.notes[j], items[i].0, j)
      {
        var nid := items[i].1.notes[j];
        assert p[i] == items[i];
        assert nid in AllPresent(p, notes);
        assert nid !in RowsOf(last.0, last.1.notes, notes);
      }
    }
  }

  /**
   * The committed tables of a save with distinct folder ids and no note id
   * listed twice: every folder under its name, and for every id that is
   * listed and has a note, one row with that note's title and body, the
   * listing folder and the id's index in the full list. Notes that no
   * folder lists are not written.
   */
  lemma SavedContent(items: seq<(int, Folder)>, notes: map<int, Note>)
    requires Distinct(PairKeys(items)) && Distinct(AllPresent(items, notes))
    ensures var t := Applied(Inserts(items, notes));
      && (forall fid :: fid in t.folders <==> fid in PairKeys(items))
      && (forall i | 0 <= i < |items| :: items[i].0 in t.folders && t.folders[items[i].0] == items[i].1.name)
      && (forall nid :: nid in t.notes <==> nid in AllPresent(items, notes))
      && (forall i, j | 0 <= i < |items| && 0 <= j < |items[i].1.notes| && items[i].1.notes[j] in notes ::
            items[i].1.notes[j] in t.notes
            && t.notes[items[i].1.notes[j]] == RowFor(notes, items[i].1.notes[j], items[i].0, j))
  {
    AppliedInserts(items, notes);
    FolderMapSpec(items);
    NoteMapKeys(items, notes);
    NoteMapAt(items, notes);
  }
}
