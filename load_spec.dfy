/**
 * What `StorageManager.load` rebuilds from the tables. SQLite hands the
 * folder rows back in an order of its choosing, and the note rows sorted by
 * `sort_order` with ties in an order of its choosing; both orders are
 * parameters (`folderScan`, `noteScan`) constrained only by what the
 * queries guarantee.
 */
module LoadSpec {
  import opened Wrappers
  import opened Dicts
  import opened Aggregate
  import opened FolderNames
  import opened Schema
  import opened SaveSpec

  /** `scan` lists each of `keys` exactly once. */
  predicate IsScan(scan: seq<int>, keys: set<int>) {
    Distinct(scan) && (forall x | x in scan :: x in keys) && (forall x | x in keys :: x in scan)
  }

  /** `ORDER BY sort_order ASC`. */
  predicate SortedBySortOrder(scan: seq<int>, rows: map<int, NoteRow>) {
    forall i, j | 0 <= i < j < |scan| && scan[i] in rows && scan[j] in rows ::
      rows[scan[i]].sortOrder <= rows[scan[j]].sortOrder
  }

  /** The row orders the two SELECTs of `load` may return for tables `t`. */
  predicate ValidScans(t: Tables, folderScan: seq<int>, noteScan: seq<int>) {
    IsScan(folderScan, t.folders.Keys) && IsScan(noteScan, t.notes.Keys) && SortedBySortOrder(noteScan, t.notes)
  }

  /** The scanned notes whose row names folder `fid`, in scan order: that folder's rebuilt list. */
  function InFolder(scan: seq<int>, rows: map<int, NoteRow>, fid: int): seq<int>
    decreases |scan|
  {
    if |scan| == 0 then []
    else
      var nid := scan[|scan| - 1];
      InFolder(scan[..|scan| - 1], rows, fid) + (if nid in rows && rows[nid].folderId == fid then [nid] else [])
  }

  function MaxOf(ids: seq<int>): int
    requires |ids| > 0
    decreases |ids|
  {
    if |ids| == 1 then ids[0]
    else
      var m := MaxOf(ids[..|ids| - 1]);
      if ids[|ids| - 1] > m then ids[|ids| - 1] else m
  }

  /** `(SELECT MAX(id) ... or 0) + 1`. */
  function NextId(ids: seq<int>): int {
    (if |ids| == 0 then 0 else MaxOf(ids)) + 1
  }

  /** The aggregate `load` returns for tables `t` read in the given orders. */
  function LoadData(t: Tables, folderScan: seq<int>, noteScan: seq<int>): Data {
    Data(
      Dict(folderScan, map fid | fid in t.folders :: Folder(t.folders[fid], InFolder(noteScan, t.notes, fid))),
      map nid | nid in t.notes :: Note(t.notes[nid].title, t.notes[nid].body),
      NextId(folderScan),
      NextId(noteScan))
  }

  // ---------------------------------------------------------------- next ids

  /** The next id is one above the largest id, or 1 for an empty table. */
  lemma {:induction false} NextIdSpec(ids: seq<int>)
    ensures forall x | x in ids :: x < NextId(ids)
    ensures |ids| == 0 ==> NextId(ids) == 1
    ensures |ids| > 0 ==> NextId(ids) - 1 in ids
    decreases |ids|
  {
    if |ids| > 1 {
      NextIdSpec(ids[..|ids| - 1]);
      assert ids == ids[..|ids| - 1] + [ids[|ids| - 1]];
    }
  }

  /** The loaded aggregate is well formed and its allocators are above every id read. */
  lemma LoadValid(t: Tables, folderScan: seq<int>, noteScan: seq<int>)
    requires ValidScans(t, folderScan, noteScan)
    ensures Aggregate.Valid(LoadData(t, folderScan, noteScan))
    ensures AllocatorsAhead(LoadData(t, folderScan, noteScan))
  {
    NextIdSpec(folderScan);
    NextIdSpec(noteScan);
  }

  /**
   * Allocators are recomputed from the tables, so an id above every stored
   * one (such as the id of the newest note, once deleted and saved) is
   * handed out again after a reload.
   */
  lemma ReloadReusesIds(t: Tables, folderScan: seq<int>, noteScan: seq<int>, m: int)
    requires ValidScans(t, folderScan, noteScan)
    requires m >= 1 && forall x | x in t.notes :: x < m
    ensures LoadData(t, folderScan, noteScan).nextNoteId <= m
  {
    NextIdSpec(noteScan);
  }

  // ---------------------------------------------------------------- order reconstruction

  /** `s` is strictly increasing in `sort_order`. */
  predicate StrictlySorted(s: seq<int>, rows: map<int, NoteRow>) {
    (forall i | 0 <= i < |s| :: s[i] in rows)
    && forall i, j | 0 <= i < j < |s| :: rows[s[i]].sortOrder < rows[s[j]].sortOrder
  }

  /** Dropping the head of a strictly sorted list keeps it strictly sorted and removes exactly the head. */
  lemma StrictlySortedTail(s: seq<int>, rows: map<int, NoteRow>)
    requires StrictlySorted(s, rows) && |s| > 0
    ensures StrictlySorted(s[1..], rows)
    ensures forall x :: x in s[1..] <==> x in s && x != s[0]
  {
    var t := s[1..];
    forall p, q | 0 <= p < q < |t|
      ensures rows[t[p]].sortOrder < rows[t[q]].sortOrder
    {
      assert t[p] == s[p + 1] && t[q] == s[q + 1];
    }
    forall x | x in t
      ensures x != s[0]
    {
      var k :| 0 <= k < |t| && t[k] == x;
      assert s[k + 1] == x;
    }
    assert s == [s[0]] + t;
  }

  /** Two non-empty strictly sorted lists holding the same ids start with the same id. */
  lemma StrictlySortedHead(a: seq<int>, b: seq<int>, rows: map<int, NoteRow>)
    requires StrictlySorted(a, rows) && StrictlySorted(b, rows) && |a| > 0 && |b| > 0
    requires a[0] in b && b[0] in a
    ensures a[0] == b[0]
  {
    var i :| 0 <= i < |b| && b[i] == a[0];
    var j :| 0 <= j < |a| && a[j] == b[0];
    if i != 0 {
      HeadLeast(b, rows, i);
    }
    if j != 0 {
      HeadLeast(a, rows, j);
    }
  }

  lemma HeadLeast(s: seq<int>, rows: map<int, NoteRow>, k: int)
    requires StrictlySorted(s, rows) && 0 < k < |s|
    ensures rows[s[0]].sortOrder < rows[s[k]].sortOrder
  {
  }

  /** Two lists strictly sorted by the same key and holding the same ids are the same list. */
  lemma {:induction false} SortedUnique(a: seq<int>, b: seq<int>, rows: map<int, NoteRow>)
    requires StrictlySorted(a, rows) && StrictlySorted(b, rows)
    requires forall x :: x in a <==> x in b
    ensures a == b
    decreases |a|
  {
    if |a| > 0 {
      var x := a[0];
      assert x in a;
      assert x in b;
    }
    if |b| > 0 {
      var x := b[0];
      assert x in b;
      assert x in a;
    }
    if |a| > 0 && |b| > 0 {
      StrictlySortedHead(a, b, rows);
      StrictlySortedTail(a, rows);
      StrictlySortedTail(b, rows);
      SortedUnique(a[1..], b[1..], rows);
      assert a == [a[0]] + a[1..] && b == [b[0]] + b[1..];
    }
  }

  lemma {:induction false} InFolderMembers(scan: seq<int>, rows: map<int, NoteRow>, fid: int)
    ensures forall x :: x in InFolder(scan, rows, fid) <==> x in scan && x in rows && rows[x].folderId == fid
    decreases |scan|
  {
    if |scan| > 0 {
      InFolderMembers(scan[..|scan| - 1], rows, fid);
      assert scan == scan[..|scan| - 1] + [scan[|scan| - 1]];
    }
  }

  /**
   * A folder's rebuilt list keeps the scan's order: it is duplicate-free and
   * strictly sorted when its rows have pairwise different `sort_order`s.
   */
  lemma {:induction false} InFolderSorted(scan: seq<int>, rows: map<int, NoteRow>, fid: int)
    requires Distinct(scan) && SortedBySortOrder(scan, rows)
    requires forall x, y | x in rows && y in rows && x != y && rows[x].folderId == fid && rows[y].folderId == fid ::
      rows[x].sortOrder != rows[y].sortOrder
    ensures StrictlySorted(InFolder(scan, rows, fid), rows)
    decreases |scan|
  {
    if |scan| > 0 {
      var n := |scan| - 1;
      var q := scan[..n];
      assert Distinct(q) && SortedBySortOrder(q, rows) by {
        forall i, j | 0 <= i < j < |q|
          ensures q[i] != q[j]
        {
          assert q[i] == scan[i] && q[j] == scan[j];
        }
        forall i, j | 0 <= i < j < |q| && q[i] in rows && q[j] in rows
          ensures rows[q[i]].sortOrder <= rows[q[j]].sortOrder
        {
          assert q[i] == scan[i] && q[j] == scan[j];
        }
      }
      InFolderSorted(q, rows, fid);
      InFolderMembers(q, rows, fid);
      var nid := scan[n];
      var a := InFolder(q, rows, fid);
      if nid in rows && rows[nid].folderId == fid {
        var s := a + [nid];
        forall i | 0 <= i < |a|
          ensures rows[a[i]].sortOrder < rows[nid].sortOrder
        {
          assert a[i] in a;
          var k :| 0 <= k < |q| && q[k] == a[i];
          assert scan[k] == a[i];
          assert a[i] != nid;
        }
        forall i, j | 0 <= i < j < |s|
          ensures rows[s[i]].sortOrder < rows[s[j]].sortOrder
        {
          if j == |a| {
            assert s[i] == a[i];
          } else {
            assert s[i] == a[i] && s[j] == a[j];
          }
        }
      }
    }
  }

  /** A folder's present ids are strictly sorted when each sits at its own index as `sort_order`. */
  lemma {:induction false} PresentSorted(ids: seq<int>, notes: map<int, Note>, rows: map<int, NoteRow>)
    requires forall j | 0 <= j < |ids| && ids[j] in notes :: ids[j] in rows && rows[ids[j]].sortOrder == j
    ensures StrictlySorted(Present(ids, notes), rows)
    ensures forall x | x in Present(ids, notes) :: x in rows && rows[x].sortOrder < |ids|
    decreases |ids|
  {
    if |ids| > 0 {
      var n := |ids| - 1;
      var q := ids[..n];
      assert forall j | 0 <= j < |q| :: q[j] == ids[j];
      PresentSorted(q, notes, rows);
      var a := Present(q, notes);
      if ids[n] in notes {
        var s := a + [ids[n]];
        assert s == Present(ids, notes);
        forall i, j | 0 <= i < j < |s|
          ensures rows[s[i]].sortOrder < rows[s[j]].sortOrder
        {
          if j == |a| {
            assert s[i] == a[i] && a[i] in a;
          } else {
            assert s[i] == a[i] && s[j] == a[j];
          }
        }
      }
    }
  }

  // ---------------------------------------------------------------- round trip

  lemma ItemsKeys<V>(d: Dict<int, V>)
    requires Dicts.Valid(d)
    ensures |Items(d)| == |d.keys|
    ensures forall i | 0 <= i < |d.keys| :: Items(d)[i] == (d.keys[i], d.vals[d.keys[i]])
  {
  }

  /**
   * `load` after a successful `save` gives back every folder, under its
   * normalised name, with its note list stripped of dangling ids and
   * otherwise in the same order; the notes read back are exactly those some
   * folder list names, unchanged.
   */
  lemma LoadAfterSave(folders: Dict<int, Folder>, notes: map<int, Note>, failAt: Option<nat>,
                      t: Tables, folderScan: seq<int>, noteScan: seq<int>)
    requires Dicts.Valid(folders)
    requires SaveTables(Items(folders), notes, failAt) == Some(t)
    requires ValidScans(t, folderScan, noteScan)
    ensures var d := LoadData(t, folderScan, noteScan);
      && (forall fid :: fid in d.folders.vals <==> fid in folders.vals)
      && (forall i | 0 <= i < |folders.keys| ::
            folders.keys[i] in d.folders.vals
            && d.folders.vals[folders.keys[i]].name == Normalize(NamesOf(Items(folders)))[i])
      && (forall fid | fid in folders.vals ::
            fid in d.folders.vals && d.folders.vals[fid].notes == Present(folders.vals[fid].notes, notes))
      && (forall nid :: nid in d.notes <==>
            nid in notes && exists fid | fid in folders.vals :: nid in folders.vals[fid].notes)
      && (forall nid | nid in d.notes :: nid in notes && d.notes[nid] == notes[nid])
  {
    var items := Items(folders);
    var r := Renamed(items);
    ItemsKeys(folders);
    assert PairKeys(items) == folders.keys;
    SaveSucceedsIff(items, notes, failAt);
    RenamedSpec(items);
    AllPresentRenamed(items, notes);
    forall i | 0 <= i < |r|
      ensures r[i].0 == folders.keys[i] && r[i].1.notes == folders.vals[folders.keys[i]].notes
    {
      assert PairKeys(r)[i] == r[i].0;
      assert items[i].1 == folders.vals[folders.keys[i]];
    }
    forall i | 0 <= i < |r|
      ensures r[i].1.name == Normalize(NamesOf(items))[i]
    {
      assert NamesOf(r)[i] == r[i].1.name;
    }
    FoldersRestored(folders, r, notes, t, folderScan, noteScan);
    NotesRestored(folders, r, notes, t, folderScan, noteScan);
  }

  lemma FoldersRestored(folders: Dict<int, Folder>, r: seq<(int, Folder)>, notes: map<int, Note>,
                        t: Tables, folderScan: seq<int>, noteScan: seq<int>)
    requires Dicts.Valid(folders) && |r| == |folders.keys|
    requires forall i | 0 <= i < |r| :: r[i].0 == folders.keys[i] && r[i].1.notes == folders.vals[folders.keys[i]].notes
    requires Distinct(PairKeys(r)) && Distinct(AllPresent(r, notes))
    requires t == Applied(Inserts(r, notes))
    requires ValidScans(t, folderScan, noteScan)
    ensures var d := LoadData(t, folderScan, noteScan);
      && (forall fid :: fid in d.folders.vals <==> fid in folders.vals)
      && (forall i | 0 <= i < |r| :: folders.keys[i] in d.folders.vals && d.folders.vals[folders.keys[i]].name == r[i].1.name)
      && (forall fid | fid in folders.vals ::
            fid in d.folders.vals && d.folders.vals[fid].notes == Present(folders.vals[fid].notes, notes))
  {
    SavedContent(r, notes);
    var d := LoadData(t, folderScan, noteScan);
    forall fid
      ensures fid in d.folders.vals <==> fid in folders.vals
    {
      if fid in folders.vals {
        var i :| 0 <= i < |folders.keys| && folders.keys[i] == fid;
        assert PairKeys(r)[i] == fid;
      }
      if fid in d.folders.vals {
        var i :| 0 <= i < |r| && PairKeys(r)[i] == fid;
        assert folders.keys[i] == fid;
      }
    }
    forall i | 0 <= i < |r|
      ensures folders.keys[i] in d.folders.vals && d.folders.vals[folders.keys[i]].name == r[i].1.name
    {
      assert PairKeys(r)[i] == folders.keys[i];
    }
    forall fid | fid in folders.vals
      ensures fid in d.folders.vals && d.folders.vals[fid].notes == Present(folders.vals[fid].notes, notes)
    {
      var i :| 0 <= i < |folders.keys| && folders.keys[i] == fid;
      assert PairKeys(r)[i] == fid;
      FolderListRestored(r, notes, t, noteScan, i);
    }
  }

  lemma NotesRestored(folders: Dict<int, Folder>, r: seq<(int, Folder)>, notes: map<int, Note>,
                      t: Tables, folderScan: seq<int>, noteScan: seq<int>)
    requires Dicts.Valid(folders) && |r| == |folders.keys|
    requires forall i | 0 <= i < |r| :: r[i].1.notes == folders.vals[folders.keys[i]].notes
    requires Distinct(AllPresent(r, notes))
    requires t == Applied(Inserts(r, notes))
    ensures var d := LoadData(t, folderScan, noteScan);
      && (forall nid :: nid in d.notes <==>
            nid in notes && exists fid | fid in folders.vals :: nid in folders.vals[fid].notes)
      && (forall nid | nid in d.notes :: nid in notes && d.notes[nid] == notes[nid])
  {
    AppliedInserts(r, notes);
    NoteMapKeys(r, notes);
    NoteMapAt(r, notes);
    AllPresentMembers(r, notes);
    var d := LoadData(t, folderScan, noteScan);
    forall nid
      ensures nid in d.notes <==> nid in notes && exists fid | fid in folders.vals :: nid in folders.vals[fid].notes
    {
      ListedFolders(folders, r, nid);
    }
    forall nid | nid in d.notes
      ensures nid in notes && d.notes[nid] == notes[nid]
    {
      assert Listed(r, nid);
      var i :| 0 <= i < |r| && nid in r[i].1.notes;
      var j :| 0 <= j < |r[i].1.notes| && r[i].1.notes[j] == nid;
      assert t.notes[nid] == RowFor(notes, nid, r[i].0, j);
    }
  }

  /** Some entry of `r` lists `nid` exactly when some folder of `folders` does, `r` holding the folders' lists in key order. */
  lemma ListedFolders(folders: Dict<int, Folder>, r: seq<(int, Folder)>, nid: int)
    requires Dicts.Valid(folders) && |r| == |folders.keys|
    requires forall i | 0 <= i < |r| :: r[i].1.notes == folders.vals[folders.keys[i]].notes
    ensures Listed(r, nid) <==> exists fid | fid in folders.vals :: nid in folders.vals[fid].notes
  {
    if exists fid | fid in folders.vals :: nid in folders.vals[fid].notes {
      var fid :| fid in folders.vals && nid in folders.vals[fid].notes;
      var i :| 0 <= i < |folders.keys| && folders.keys[i] == fid;
      assert nid in r[i].1.notes;
    }
    if Listed(r, nid) {
      var i :| 0 <= i < |r| && nid in r[i].1.notes;
      assert folders.keys[i] in folders.vals;
    }
  }

  /** The list rebuilt for folder `i` of a saved sequence is that folder's present ids, in order. */
  lemma FolderListRestored(r: seq<(int, Folder)>, notes: map<int, Note>, t: Tables, noteScan: seq<int>, i: nat)
    requires i < |r|
    requires Distinct(PairKeys(r)) && Distinct(AllPresent(r, notes))
    requires t == Applied(Inserts(r, notes))
    requires IsScan(noteScan, t.notes.Keys) && SortedBySortOrder(noteScan, t.notes)
    ensures InFolder(noteScan, t.notes, r[i].0) == Present(r[i].1.notes, notes)
  {
    var fid, ids := r[i].0, r[i].1.notes;
    SavedContent(r, notes);
    AllPresentMembers(r, notes);
    InFolderMembers(noteScan, t.notes, fid);
    PresentMembers(ids, notes);
    assert forall j | 0 <= j < |ids| && ids[j] in notes :: ids[j] in t.notes && t.notes[ids[j]].sortOrder == j by {
      forall j | 0 <= j < |ids| && ids[j] in notes
        ensures ids[j] in t.notes && t.notes[ids[j]].sortOrder == j
      {
        assert t.notes[r[i].1.notes[j]] == RowFor(notes, r[i].1.notes[j], r[i].0, j);
      }
    }
    // Every row of folder `fid` comes from folder `i`'s list.
    forall x | x in t.notes && t.notes[x].folderId == fid
      ensures x in ids && x in notes
    {
      assert Listed(r, x);
      var i' :| 0 <= i' < |r| && x in r[i'].1.notes;
      var j' :| 0 <= j' < |r[i'].1.notes| && r[i'].1.notes[j'] == x;
      assert t.notes[x] == RowFor(notes, x, r[i'].0, j');
      assert PairKeys(r)[i'] == PairKeys(r)[i];
    }
    forall x, y | x in t.notes && y in t.notes && x != y && t.notes[x].folderId == fid && t.notes[y].folderId == fid
      ensures t.notes[x].sortOrder != t.notes[y].sortOrder
    {
      var jx :| 0 <= jx < |ids| && ids[jx] == x;
      var jy :| 0 <= jy < |ids| && ids[jy] == y;
    }
    InFolderSorted(noteScan, t.notes, fid);
    PresentSorted(ids, notes, t.notes);
    SortedUnique(InFolder(noteScan, t.notes, fid), Present(ids, notes), t.notes);
  }
}
