/**
 * `StorageManager` (features/storage.py): the only component that touches
 * the database file. The file system is a map from paths to what each file
 * holds; an SQLite statement that raises for reasons outside the model (a
 * lock, an I/O error) and a `shutil.copy2` or `os.rename` that fails are
 * inputs of the operations.
 */
module Storage {
  import opened Wrappers
  import opened Text
  import opened Dicts
  import opened Aggregate
  import opened FolderNames
  import opened Schema
  import opened SaveSpec
  import opened LoadSpec
  import opened LegacyImport
  import opened Search
  import opened Paths

  /**
   * What a file holds: an SQLite database (`schema` is `None` until the two
   * tables are created, as in the empty file `sqlite3.connect` creates), a
   * JSON text (`doc` is `None` when it does not parse as a legacy
   * document), or anything else.
   */
  datatype FileImage = Db(schema: Option<Tables>) | Json(doc: Option<LegacyDoc>) | Other

  type Files = map<string, FileImage>

  /** The disk, shared by every storage manager that is opened on it. */
  class FileSystem {
    var files: Files

    constructor (files: Files)
      ensures this.files == files
    {
      this.files := files;
    }
  }

  /** `load` returns the aggregate, or raises `DatabaseCorruptError`. */
  datatype LoadResult = Loaded(data: Data) | Corrupt

  /** `sqlite3.connect(path)`: a missing file is created, empty. */
  function Connected(fs: Files, path: string): Files {
    if path in fs then fs else fs[path := Db(None)]
  }

  /** `BACKUP_LOCATION/<basename>.bak`. */
  function BackupPathFor(backupLocation: string, filepath: string): string {
    JoinPath(backupLocation, Basename(filepath) + ".bak")
  }

  /** The two CREATE TABLE IF NOT EXISTS statements; `None` where SQLite refuses the file. */
  function WithSchema(img: FileImage): (r: Option<FileImage>)
    ensures r.Some? <==> img.Db?
    ensures r.Some? ==> r.value.Db? && r.value.schema.Some?
    ensures img.Db? && img.schema.Some? ==> r == Some(img)
    ensures img == Db(None) ==> r == Some(Db(Some(NoTables())))
  {
    match img
    case Db(s) => Some(Db(if s.Some? then s else Some(NoTables())))
    case _ => None
  }

  /**
   * What `load` makes of the database file. `readFails` stands for a
   * `sqlite3.DatabaseError` that one of the SELECTs raises on a database
   * that has its tables (a lock, an I/O error, a malformed page).
   */
  function LoadOutcome(img: FileImage, readFails: bool, folderScan: seq<int>, noteScan: seq<int>): LoadResult {
    if img.Db? && img.schema.Some? && !readFails then Loaded(LoadData(img.schema.value, folderScan, noteScan))
    else Corrupt
  }

  /** The disk after the backup step of `save`: the database copied aside, or created by `connect`. */
  function AfterBackup(fs: Files, filepath: string, backupPath: string): Files {
    if filepath in fs then fs[backupPath := fs[filepath]] else fs[filepath := Db(None)]
  }

  /**
   * The value `save` returns and the disk it leaves. When the backup copy
   * fails nothing is written; otherwise the database file either holds
   * exactly the committed tables or, rolled back, what it held before.
   */
  function SaveOutcome(fs: Files, filepath: string, backupPath: string,
                       items: seq<(int, Folder)>, notes: map<int, Note>,
                       copyFails: bool, failAt: Option<nat>): (r: (bool, Files))
    ensures filepath in fs && copyFails ==> r == (false, fs)
    ensures r.0 <==>
      && filepath in fs && !copyFails
      && fs[filepath].Db? && fs[filepath].schema.Some?
      && SaveTables(items, notes, failAt).Some?
    ensures filepath in r.1
    ensures r.0 ==> r.1[filepath] == Db(SaveTables(items, notes, failAt))
    ensures r.0 && backupPath != filepath ==> backupPath in r.1 && r.1[backupPath] == fs[filepath]
    ensures !r.0 && filepath in fs ==> r.1[filepath] == fs[filepath]
    ensures forall p | p != filepath && p != backupPath :: (p in r.1 <==> p in fs) && (p in fs ==> r.1[p] == fs[p])
  {
    if filepath in fs && copyFails then (false, fs)
    else
      var fs1 := AfterBackup(fs, filepath, backupPath);
      var img := fs1[filepath];
      var saved := SaveTables(items, notes, failAt);
      if img.Db? && img.schema.Some? && saved.Some? then (true, fs1[filepath := Db(saved)])
      else (false, fs1)
  }

  /** The document in a legacy JSON file, with integer keys, when it reads and converts. */
  function ImportData(img: FileImage): Option<(Dict<int, Folder>, Dict<int, Note>)> {
    if img.Json? && img.doc.Some? && Dicts.Valid(img.doc.value.folders) && Dicts.Valid(img.doc.value.notes)
    then CoerceDoc(img.doc.value)
    else None
  }

  /** The legacy file is read and converted, and `save` of its data returns True. */
  predicate ImportSaves(fs: Files, filepath: string, backupPath: string, jsonPath: string,
                        copyFails: bool, failAt: Option<nat>)
  {
    && jsonPath in fs
    && var d := ImportData(fs[jsonPath]);
    && d.Some?
    && (CoerceKeysValid(fs[jsonPath].doc.value.folders);
        SaveOutcome(fs, filepath, backupPath, Items(d.value.0), d.value.1.vals, copyFails, failAt).0)
  }

  /** `os.rename(a, b)`. */
  function Rename(fs: Files, a: string, b: string): Files
    requires a in fs
  {
    (fs - {a})[b := fs[a]]
  }

  /**
   * The disk after `_import_from_json_if_needed`: the legacy file is saved
   * into the database and renamed to `<json>.imported` only when `save`
   * returned True; any exception on the way is logged and swallowed.
   */
  function ImportOutcome(fs: Files, filepath: string, backupPath: string, jsonPath: string,
                         copyFails: bool, failAt: Option<nat>, renameFails: bool): (r: Files)
    ensures jsonPath !in fs ==> r == fs
    ensures jsonPath in fs && ImportData(fs[jsonPath]).None? ==> r == fs
    ensures jsonPath in fs && jsonPath != filepath && jsonPath != backupPath ==>
      (jsonPath !in r <==> ImportSaves(fs, filepath, backupPath, jsonPath, copyFails, failAt) && !renameFails)
    ensures jsonPath in fs && jsonPath != filepath && jsonPath != backupPath && jsonPath !in r ==>
      jsonPath + ".imported" in r && r[jsonPath + ".imported"] == fs[jsonPath]
    ensures filepath in fs && jsonPath != filepath && !ImportSaves(fs, filepath, backupPath, jsonPath, copyFails, failAt) ==>
      filepath in r && r[filepath] == fs[filepath]
  {
    if jsonPath !in fs then fs
    else
      var d := ImportData(fs[jsonPath]);
      if d.None? then fs
      else
        CoerceKeysValid(fs[jsonPath].doc.value.folders);
        var s := SaveOutcome(fs, filepath, backupPath, Items(d.value.0), d.value.1.vals, copyFails, failAt);
        if s.0 && !renameFails && jsonPath in s.1 then Rename(s.1, jsonPath, jsonPath + ".imported") else s.1
  }

  class StorageManager {
    const disk: FileSystem
    const filepath: string
    const backupPath: string
    const jsonPath: string

    /** The attribute assignments of `__init__`. */
    constructor Make(disk: FileSystem, filepath: string, backupLocation: string, jsonPath: string)
      ensures this.disk == disk && this.filepath == filepath && this.jsonPath == jsonPath
      ensures backupPath == BackupPathFor(backupLocation, filepath)
    {
      this.disk := disk;
      this.filepath := filepath;
      this.backupPath := BackupPathFor(backupLocation, filepath);
      this.jsonPath := jsonPath;
    }

    /**
     * `StorageManager(filepath)`: create the tables, then import the legacy
     * JSON file if there is one. `null` stands for the `sqlite3.DatabaseError`
     * the constructor raises when the file is not a database, or when
     * `createFails` makes a CREATE TABLE statement raise.
     */
    static method Open(disk: FileSystem, filepath: string, backupLocation: string, jsonPath: string,
                       createFails: bool, copyFails: bool, failAt: Option<nat>, renameFails: bool)
      returns (sm: StorageManager?)
      modifies disk
      ensures sm == null <==> createFails || (filepath in old(disk.files) && !old(disk.files)[filepath].Db?)
      ensures sm == null ==> disk.files == Connected(old(disk.files), filepath)
      ensures sm == null && !createFails ==> disk.files == old(disk.files)
      ensures sm != null ==> fresh(sm) && sm.disk == disk && sm.filepath == filepath && sm.jsonPath == jsonPath
      ensures sm != null ==> sm.backupPath == BackupPathFor(backupLocation, filepath)
      ensures sm != null ==>
        var created := Connected(old(disk.files), filepath);
        disk.files == ImportOutcome(created[filepath := WithSchema(created[filepath]).value],
                                    filepath, sm.backupPath, jsonPath, copyFails, failAt, renameFails)
    {
      sm := new StorageManager.Make(disk, filepath, backupLocation, jsonPath);
      var raised := sm.CreateTables(createFails);
      if raised {
        sm := null;
        return;
      }
      sm.ImportFromJsonIfNeeded(copyFails, failAt, renameFails);
    }

    /**
     * `_create_tables`: harmless on a database that already has its tables.
     * `createFails` stands for a `sqlite3.DatabaseError` from outside the
     * file's contents (a lock, an I/O error, a read-only file) raised before
     * the first table is created.
     */
    method CreateTables(createFails: bool) returns (raised: bool)
      modifies disk
      ensures var created := Connected(old(disk.files), filepath);
        && (raised <==> createFails || WithSchema(created[filepath]).None?)
        && (raised ==> disk.files == created)
        && (raised && !createFails ==> disk.files == old(disk.files))
        && (!raised ==> disk.files == created[filepath := WithSchema(created[filepath]).value])
    {
      disk.files := Connected(disk.files, filepath);
      var img := WithSchema(disk.files[filepath]);
      if createFails || img.None? {
        return true;
      }
      disk.files := disk.files[filepath := img.value];
      raised := false;
    }

    /**
     * `load`: the folders in the order the first SELECT returns them, each
     * note appended to its folder's list in `sort_order` order, and the next
     * ids one above the largest stored ids.
     */
    method Load(readFails: bool, folderScan: seq<int>, noteScan: seq<int>) returns (r: LoadResult)
      requires filepath in disk.files && disk.files[filepath].Db? && disk.files[filepath].schema.Some? ==>
        ValidScans(disk.files[filepath].schema.value, folderScan, noteScan)
      modifies disk
      ensures disk.files == Connected(old(disk.files), filepath)
      ensures r == LoadOutcome(disk.files[filepath], readFails, folderScan, noteScan)
      ensures r.Corrupt? <==> readFails || !(disk.files[filepath].Db? && disk.files[filepath].schema.Some?)
    {
      disk.files := Connected(disk.files, filepath);
      var img := disk.files[filepath];
      if !(img.Db? && img.schema.Some?) || readFails {
        return Corrupt;
      }
      var t := img.schema.value;
      var fmap, notesData := ReadNotes(t, noteScan);
      NoteMapFull(t, noteScan);
      r := Loaded(Data(Dict(folderScan, fmap), notesData, NextId(folderScan), NextId(noteScan)));
    }

    /**
     * `save(data)`: back the database up, then in one transaction replace
     * both tables by the folders (renamed so that names are unique) and the
     * notes their lists name. `copyFails` makes `shutil.copy2` raise;
     * `failAt` numbers the statement that raises, if any.
     */
    method Save(folders: Dict<int, Folder>, notes: map<int, Note>, copyFails: bool, failAt: Option<nat>)
      returns (ok: bool)
      requires Dicts.Valid(folders)
      modifies disk
      ensures (ok, disk.files) == SaveOutcome(old(disk.files), filepath, backupPath, Items(folders), notes, copyFails, failAt)
    {
      var items := Items(folders);
      if filepath in disk.files {
        if copyFails {
          return false;
        }
        disk.files := disk.files[backupPath := disk.files[filepath]];
      } else {
        disk.files := disk.files[filepath := Db(None)];
      }
      // BEGIN, the renaming, the two DELETEs (which raise on a file without the tables), the inserts, COMMIT
      var img := disk.files[filepath];
      if !(img.Db? && img.schema.Some?) {
        return false;
      }
      var tx := Transaction(items, notes, failAt);
      if tx.None? {
        return false;
      }
      disk.files := disk.files[filepath := Db(tx)];
      ok := true;
    }

    /** `restore_from_backup`: copy the backup over the database file, if there is a backup. */
    method RestoreFromBackup(copyFails: bool) returns (ok: bool)
      modifies disk
      ensures ok <==> backupPath in old(disk.files) && !copyFails
      ensures ok ==> disk.files == old(disk.files)[filepath := old(disk.files)[backupPath]]
      ensures !ok ==> disk.files == old(disk.files)
    {
      if backupPath !in disk.files || copyFails {
        return false;
      }
      disk.files := disk.files[filepath := disk.files[backupPath]];
      ok := true;
    }

    /**
     * `search_notes(query)`: `None` is the `sqlite3` error that propagates
     * when the file has no tables or is not a database, or when `readFails`
     * makes the SELECT raise (a lock, an I/O error, a malformed page).
     */
    method SearchNotes(query: string, readFails: bool, noteScan: seq<int>) returns (hits: Option<seq<SearchHit>>)
      requires filepath in disk.files && disk.files[filepath].Db? && disk.files[filepath].schema.Some? ==>
        IsScan(noteScan, disk.files[filepath].schema.value.notes.Keys)
      modifies disk
      ensures disk.files == Connected(old(disk.files), filepath)
      ensures hits.None? <==> readFails || !(disk.files[filepath].Db? && disk.files[filepath].schema.Some?)
      ensures hits.Some? ==> hits.value == Hits(disk.files[filepath].schema.value, query, noteScan)
    {
      disk.files := Connected(disk.files, filepath);
      var img := disk.files[filepath];
      if !(img.Db? && img.schema.Some?) || readFails {
        return None;
      }
      var results := CollectHits(img.schema.value, query, noteScan);
      hits := Some(results);
    }

    /** `_import_from_json_if_needed`. `renameFails` makes `os.rename` raise. */
    method ImportFromJsonIfNeeded(copyFails: bool, failAt: Option<nat>, renameFails: bool)
      modifies disk
      ensures disk.files == ImportOutcome(old(disk.files), filepath, backupPath, jsonPath, copyFails, failAt, renameFails)
    {
      if jsonPath !in disk.files {
        return;
      }
      var d := ImportData(disk.files[jsonPath]);
      if d.None? {
        return;
      }
      CoerceKeysValid(disk.files[jsonPath].doc.value.folders);
      var saved := Save(d.value.0, d.value.1.vals, copyFails, failAt);
      if saved && !renameFails && jsonPath in disk.files {
        disk.files := Rename(disk.files, jsonPath, jsonPath + ".imported");
      }
    }
  }

  // ---------------------------------------------------------------- lemmas

  /** The folder map `load` builds from the note rows in `scan`: every folder row with the notes naming it. */
  function FolderMap(t: Tables, scan: seq<int>): map<int, Folder> {
    map fid | fid in t.folders :: Folder(t.folders[fid], InFolder(scan, t.notes, fid))
  }

  /** The notes `load` has read after the note rows in `scan`. */
  function NoteMap(t: Tables, scan: seq<int>): map<int, Note> {
    map nid | nid in scan && nid in t.notes :: Note(t.notes[nid].title, t.notes[nid].body)
  }

  /** The loop of `load` over the note rows, in `sort_order` order. */
  method ReadNotes(t: Tables, noteScan: seq<int>) returns (fmap: map<int, Folder>, notesData: map<int, Note>)
    requires forall nid | nid in noteScan :: nid in t.notes
    ensures fmap == FolderMap(t, noteScan)
    ensures notesData == NoteMap(t, noteScan)
  {
    fmap := map fid | fid in t.folders :: Folder(t.folders[fid], []);
    notesData := map[];
    for k := 0 to |noteScan|
      invariant fmap == FolderMap(t, noteScan[..k])
      invariant notesData == NoteMap(t, noteScan[..k])
    {
      var nid := noteScan[k];
      var row := t.notes[nid];
      FolderMapStep(t, noteScan, k);
      NoteMapStep(t, noteScan, k);
      notesData := notesData[nid := Note(row.title, row.body)];
      if row.folderId in fmap {
        fmap := fmap[row.folderId := Folder(fmap[row.folderId].name, fmap[row.folderId].notes + [nid])];
      }
    }
    assert noteScan[..|noteScan|] == noteScan;
  }

  lemma FolderMapStep(t: Tables, scan: seq<int>, k: nat)
    requires k < |scan| && scan[k] in t.notes
    ensures var row := t.notes[scan[k]];
      var m := FolderMap(t, scan[..k]);
      FolderMap(t, scan[..k + 1]) ==
        if row.folderId in m then m[row.folderId := Folder(m[row.folderId].name, m[row.folderId].notes + [scan[k]])] else m
  {
    assert scan[..k + 1][..k] == scan[..k];
    var row := t.notes[scan[k]];
    var m := FolderMap(t, scan[..k]);
    var m' := if row.folderId in m then m[row.folderId := Folder(m[row.folderId].name, m[row.folderId].notes + [scan[k]])] else m;
    var n := FolderMap(t, scan[..k + 1]);
    forall fid | fid in t.folders
      ensures fid in m' && n[fid] == m'[fid]
    {
      assert InFolder(scan[..k + 1], t.notes, fid) ==
        InFolder(scan[..k], t.notes, fid) + (if row.folderId == fid then [scan[k]] else []);
    }
    assert n.Keys == m'.Keys;
    assert n == m';
  }

  lemma NoteMapFull(t: Tables, scan: seq<int>)
    requires IsScan(scan, t.notes.Keys)
    ensures NoteMap(t, scan) == map nid | nid in t.notes :: Note(t.notes[nid].title, t.notes[nid].body)
  {
    var a := NoteMap(t, scan);
    var b := map nid | nid in t.notes :: Note(t.notes[nid].title, t.notes[nid].body);
    forall nid | nid in t.notes
      ensures nid in a
    {
      assert nid in t.notes.Keys;
      assert nid in scan;
    }
    assert a.Keys == b.Keys;
  }

  lemma NoteMapStep(t: Tables, scan: seq<int>, k: nat)
    requires k < |scan| && scan[k] in t.notes
    ensures NoteMap(t, scan[..k + 1]) == NoteMap(t, scan[..k])[scan[k] := Note(t.notes[scan[k]].title, t.notes[scan[k]].body)]
  {
    assert scan[..k + 1] == scan[..k] + [scan[k]];
  }

  /**
   * The transaction of `save` on a database that has its tables: `None`
   * where a statement raises and the transaction is rolled back.
   */
  method Transaction(items: seq<(int, Folder)>, notes: map<int, Note>, failAt: Option<nat>) returns (tx: Option<Tables>)
    ensures tx == SaveTables(items, notes, failAt)
  {
    // statement 0: BEGIN
    if failAt == Some(0) {
      return None;
    }
    var modified := RenameFolders(items);
    // statements 1 and 2: DELETE FROM notes, DELETE FROM folders
    if failAt == Some(1) || failAt == Some(2) {
      return None;
    }
    var r, next := InsertFolders(modified, notes, failAt);
    // COMMIT
    if r.None? || failAt == Some(next) {
      return None;
    }
    tx := r;
  }

  /** The rename loop of `save` over all folders, in dict order. */
  method RenameFolders(items: seq<(int, Folder)>) returns (modified: seq<(int, Folder)>)
    ensures modified == Renamed(items)
  {
    var seen: set<string> := {};
    modified := [];
    for k := 0 to |items|
      invariant modified == Renamed(items[..k])
      invariant seen == SetOf(NamesOf(modified))
    {
      var f := items[k].1;
      var newName := NextFreeName(f.name, seen);
      assert items[..k + 1][..k] == items[..k];
      var entry := (items[k].0, f.(name := newName));
      assert NamesOf(modified + [entry]) == NamesOf(modified) + [newName];
      seen := seen + {newName};
      modified := modified + [entry];
    }
    assert items[..|items|] == items;
  }

  /**
   * The note inserts of one folder, the first being statement `stmt`, after
   * the statements `done` have left the tables `tx`.
   */
  method InsertNotes(ghost done: seq<Insert>, stmt: nat, tx: Tables, fid: int, ids: seq<int>,
                     notes: map<int, Note>, failAt: Option<nat>)
    returns (r: Option<Tables>, next: nat)
    requires stmt == 3 + |done|
    requires ExecAll(NoTables(), done, failAt, 3) == Some(tx)
    ensures r == ExecAll(NoTables(), done + NoteInserts(fid, ids, notes), failAt, 3)
    ensures r.Some? ==> next == 3 + |done + NoteInserts(fid, ids, notes)|
  {
    var cur := tx;
    next := stmt;
    assert done + NoteInserts(fid, ids[..0], notes) == done;
    for j := 0 to |ids|
      invariant next == 3 + |done + NoteInserts(fid, ids[..j], notes)|
      invariant ExecAll(NoTables(), done + NoteInserts(fid, ids[..j], notes), failAt, 3) == Some(cur)
    {
      var nid := ids[j];
      assert ids[..j + 1][..j] == ids[..j];
      ghost var pre := done + NoteInserts(fid, ids[..j], notes);
      if nid in notes {
        var y := AddNote(nid, RowFor(notes, nid, fid, j));
        assert done + NoteInserts(fid, ids[..j + 1], notes) == pre + [y];
        ExecAllSnoc(NoTables(), pre, y, failAt, 3);
        var e := Exec(cur, y);
        if failAt == Some(next) || e.None? {
          NoteInsertsPrefix(fid, ids, notes, j + 1);
          PrefixConcat(done, NoteInserts(fid, ids[..j + 1], notes), NoteInserts(fid, ids, notes));
          ExecAllPrefixNone(NoTables(), pre + [y], done + NoteInserts(fid, ids, notes), failAt, 3);
          return None, next;
        }
        cur := e.value;
        next := next + 1;
      } else {
        assert done + NoteInserts(fid, ids[..j + 1], notes) == pre;
      }
    }
    assert ids[..|ids|] == ids;
    r := Some(cur);
  }

  /** The insert loop of `save`: each folder row, then its notes, statement 3 being the first. */
  method InsertFolders(modified: seq<(int, Folder)>, notes: map<int, Note>, failAt: Option<nat>)
    returns (r: Option<Tables>, next: nat)
    ensures r == ExecAll(NoTables(), Inserts(modified, notes), failAt, 3)
    ensures r.Some? ==> next == 3 + |Inserts(modified, notes)|
  {
    var tx := NoTables();
    next := 3;
    for k := 0 to |modified|
      invariant next == 3 + |Inserts(modified[..k], notes)|
      invariant ExecAll(NoTables(), Inserts(modified[..k], notes), failAt, 3) == Some(tx)
    {
      var fid, f := modified[k].0, modified[k].1;
      ghost var done := Inserts(modified[..k], notes);
      var x := AddFolder(fid, f.name);
      FolderRowStep(modified, notes, k, failAt, tx);
      var e := Exec(tx, x);
      if failAt == Some(next) || e.None? {
        return None, next;
      }
      var r2, n2 := InsertNotes(done + [x], next + 1, e.value, fid, f.notes, notes, failAt);
      if r2.None? {
        ExecAllPrefixNone(NoTables(), Inserts(modified[..k + 1], notes), Inserts(modified, notes), failAt, 3);
        return None, n2;
      }
      tx := r2.value;
      next := n2;
    }
    assert modified[..|modified|] == modified;
    r := Some(tx);
  }

  /** The loop of `search_notes` over the rows of the query. */
  method CollectHits(t: Tables, query: string, noteScan: seq<int>) returns (results: seq<SearchHit>)
    ensures results == Hits(t, query, noteScan)
  {
    results := [];
    for k := 0 to |noteScan|
      invariant results == Hits(t, query, noteScan[..k])
    {
      var nid := noteScan[k];
      assert noteScan[..k + 1][..k] == noteScan[..k];
      if Matches(t, query, nid) {
        results := results + [HitFor(t, nid)];
      }
    }
    assert noteScan[..|noteScan|] == noteScan;
  }

  lemma PrefixTrans<T>(a: seq<T>, b: seq<T>, c: seq<T>)
    requires a <= b && b <= c
    ensures a <= c
  {
    assert c[..|a|] == b[..|a|];
  }

  lemma PrefixConcat<T>(a: seq<T>, b: seq<T>, c: seq<T>)
    requires b <= c
    ensures a + b <= a + c
  {
    assert (a + c)[..|a + b|] == a + b;
  }

  lemma {:induction false} NoteInsertsPrefix(fid: int, ids: seq<int>, notes: map<int, Note>, j: nat)
    requires j <= |ids|
    ensures NoteInserts(fid, ids[..j], notes) <= NoteInserts(fid, ids, notes)
    decreases |ids|
  {
    if j < |ids| {
      var p := ids[..|ids| - 1];
      NoteInsertsPrefix(fid, p, notes, j);
      assert p[..j] == ids[..j];
    } else {
      assert ids[..j] == ids;
    }
  }

  lemma {:induction false} InsertsPrefix(items: seq<(int, Folder)>, notes: map<int, Note>, k: nat)
    requires k <= |items|
    ensures Inserts(items[..k], notes) <= Inserts(items, notes)
    decreases |items|
  {
    if k < |items| {
      var p := items[..|items| - 1];
      InsertsPrefix(p, notes, k);
      assert p[..k] == items[..k];
    } else {
      assert items[..k] == items;
    }
  }

  /**
   * The folder row of folder `k`, run after the inserts of the folders
   * before it left `tx`: it fails when the statement fails from outside or
   * the row is refused, and then the whole insert loop fails.
   */
  lemma FolderRowStep(items: seq<(int, Folder)>, notes: map<int, Note>, k: nat, failAt: Option<nat>, tx: Tables)
    requires k < |items|
    requires ExecAll(NoTables(), Inserts(items[..k], notes), failAt, 3) == Some(tx)
    ensures var done, x := Inserts(items[..k], notes), AddFolder(items[k].0, items[k].1.name);
      && Inserts(items[..k + 1], notes) == (done + [x]) + NoteInserts(items[k].0, items[k].1.notes, notes)
      && Inserts(items[..k + 1], notes) <= Inserts(items, notes)
      && ExecAll(NoTables(), done + [x], failAt, 3) == (if failAt == Some(3 + |done|) then None else Exec(tx, x))
      && (ExecAll(NoTables(), done + [x], failAt, 3).None? ==> ExecAll(NoTables(), Inserts(items, notes), failAt, 3).None?)
  {
    var done, x := Inserts(items[..k], notes), AddFolder(items[k].0, items[k].1.name);
    InsertsStep(items, notes, k);
    ExecAllSnoc(NoTables(), done, x, failAt, 3);
    if ExecAll(NoTables(), done + [x], failAt, 3).None? {
      ExecAllPrefixNone(NoTables(), done + [x], Inserts(items, notes), failAt, 3);
    }
  }

  /** The inserts of the first `k + 1` folders: those of the first `k`, folder `k`'s row, then its notes. */
  lemma InsertsStep(items: seq<(int, Folder)>, notes: map<int, Note>, k: nat)
    requires k < |items|
    ensures var pre := Inserts(items[..k], notes) + [AddFolder(items[k].0, items[k].1.name)];
      && Inserts(items[..k + 1], notes) == pre + NoteInserts(items[k].0, items[k].1.notes, notes)
      && Inserts(items[..k + 1], notes) <= Inserts(items, notes)
      && pre <= Inserts(items, notes)
  {
    var x := AddFolder(items[k].0, items[k].1.name);
    var done, mine := Inserts(items[..k], notes), NoteInserts(items[k].0, items[k].1.notes, notes);
    var q := items[..k + 1];
    assert q[..k] == items[..k] && q[k] == items[k];
    assert Inserts(q, notes) == done + FolderInserts(items[k], notes);
    assert FolderInserts(items[k], notes) == [x] + mine;
    InsertsAssoc(done, [x], mine);
    InsertsPrefix(items, notes, k + 1);
    PrefixTrans(done + [x], Inserts(items[..k + 1], notes), Inserts(items, notes));
  }

  /** Creating the tables twice is creating them once. */
  lemma CreateTablesIdempotent(img: FileImage)
    requires WithSchema(img).Some?
    ensures WithSchema(WithSchema(img).value) == WithSchema(img)
  {
  }

  /**
   * Importing a legacy file that `json.dump` wrote from integer-keyed data
   * leaves the database exactly as saving that data directly would.
   */
  lemma ImportOfDump(fs: Files, filepath: string, backupPath: string, jsonPath: string,
                     folders: Dict<int, Folder>, notes: Dict<int, Note>,
                     copyFails: bool, failAt: Option<nat>, renameFails: bool)
    requires Dicts.Valid(folders) && Dicts.Valid(notes)
    requires jsonPath in fs && fs[jsonPath] == Json(Some(LegacyDoc(Stringify(folders), Stringify(notes))))
    requires jsonPath != filepath && jsonPath + ".imported" != filepath
    ensures var r := ImportOutcome(fs, filepath, backupPath, jsonPath, copyFails, failAt, renameFails);
      var s := SaveOutcome(fs, filepath, backupPath, Items(folders), notes.vals, copyFails, failAt);
      filepath in r && r[filepath] == s.1[filepath]
  {
    CoerceRoundTrip(folders);
    CoerceRoundTrip(notes);
    assert ImportData(fs[jsonPath]) == Some((folders, notes));
    ImportSavesData(fs, filepath, backupPath, jsonPath, (folders, notes), copyFails, failAt, renameFails);
  }

  /** An import that reads and converts leaves the database as `save` of the converted data does. */
  lemma ImportSavesData(fs: Files, filepath: string, backupPath: string, jsonPath: string,
                        d: (Dict<int, Folder>, Dict<int, Note>),
                        copyFails: bool, failAt: Option<nat>, renameFails: bool)
    requires Dicts.Valid(d.0) && Dicts.Valid(d.1)
    requires jsonPath in fs && ImportData(fs[jsonPath]) == Some(d)
    requires jsonPath != filepath && jsonPath + ".imported" != filepath
    ensures var r := ImportOutcome(fs, filepath, backupPath, jsonPath, copyFails, failAt, renameFails);
      var s := SaveOutcome(fs, filepath, backupPath, Items(d.0), d.1.vals, copyFails, failAt);
      filepath in r && r[filepath] == s.1[filepath]
  {
  }
}
