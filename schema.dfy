/**
 * The two tables of the note database and the INSERT statements `save`
 * issues into them. `folders` maps `folder_id` (INTEGER PRIMARY KEY) to a
 * `name` declared NOT NULL UNIQUE; `notes` maps `note_id` (INTEGER PRIMARY
 * KEY) to its title, body, owning `folder_id` and `sort_order`. The foreign
 * key is declared but SQLite does not enforce it without
 * `PRAGMA foreign_keys`, so an insert never checks it.
 */
module Schema {
  import opened Wrappers
  import opened Dicts

  datatype NoteRow = NoteRow(title: string, body: string, folderId: int, sortOrder: int)

  datatype Tables = Tables(folders: map<int, string>, notes: map<int, NoteRow>)

  /** Both tables freshly emptied by the two DELETE statements. */
  function NoTables(): Tables {
    Tables(map[], map[])
  }

  /** Some folder row already carries `name`. */
  predicate NameStored(folders: map<int, string>, name: string) {
    exists fid | fid in folders :: folders[fid] == name
  }

  datatype Insert = AddFolder(fid: int, name: string) | AddNote(nid: int, row: NoteRow)

  /** One INSERT: refused when it repeats a primary key or, for a folder, a name already stored. */
  function Exec(t: Tables, ins: Insert): (r: Option<Tables>)
    ensures r.Some? <==>
      (if ins.AddFolder? then ins.fid !in t.folders && !NameStored(t.folders, ins.name) else ins.nid !in t.notes)
    ensures r.Some? ==> r.value == Step(t, ins)
  {
    match ins
    case AddFolder(fid, name) =>
      if fid in t.folders || NameStored(t.folders, name) then None else Some(Step(t, ins))
    case AddNote(nid, row) =>
      if nid in t.notes then None else Some(Step(t, ins))
  }

  /** The row an INSERT adds, without its constraint checks. */
  function Step(t: Tables, ins: Insert): Tables {
    match ins
    case AddFolder(fid, name) => t.(folders := t.folders[fid := name])
    case AddNote(nid, row) => t.(notes := t.notes[nid := row])
  }

  /**
   * The statements `ins` run one after another inside the transaction, the
   * first of them being statement number `first`; `failAt` names the
   * statement at which the database raises for reasons outside the model
   * (I/O error, lock), if any. `None` means some statement raised.
   */
  function ExecAll(t: Tables, ins: seq<Insert>, failAt: Option<nat>, first: nat): Option<Tables>
    decreases |ins|
  {
    if |ins| == 0 then Some(t)
    else
      var r := ExecAll(t, ins[..|ins| - 1], failAt, first);
      if r.None? || failAt == Some(first + |ins| - 1) then None
      else Exec(r.value, ins[|ins| - 1])
  }

  /** The tables after all of `ins`, starting from empty ones, constraints aside. */
  function Applied(ins: seq<Insert>): Tables
    decreases |ins|
  {
    if |ins| == 0 then NoTables() else Step(Applied(ins[..|ins| - 1]), ins[|ins| - 1])
  }

  function FolderKeys(ins: seq<Insert>): seq<int>
    decreases |ins|
  {
    if |ins| == 0 then []
    else FolderKeys(ins[..|ins| - 1]) + (if ins[|ins| - 1].AddFolder? then [ins[|ins| - 1].fid] else [])
  }

  function FolderNamesOf(ins: seq<Insert>): seq<string>
    decreases |ins|
  {
    if |ins| == 0 then []
    else FolderNamesOf(ins[..|ins| - 1]) + (if ins[|ins| - 1].AddFolder? then [ins[|ins| - 1].name] else [])
  }

  function NoteKeys(ins: seq<Insert>): seq<int>
    decreases |ins|
  {
    if |ins| == 0 then []
    else NoteKeys(ins[..|ins| - 1]) + (if ins[|ins| - 1].AddNote? then [ins[|ins| - 1].nid] else [])
  }

  /** The statement with number `failAt` is among the `count` statements from `first` on. */
  predicate FailsWithin(failAt: Option<nat>, first: nat, count: nat) {
    failAt.Some? && first <= failAt.value < first + count
  }

  // ---------------------------------------------------------------- lemmas

  lemma LastOfSnoc<T>(a: seq<T>, x: T)
    ensures (a + [x])[..|a|] == a && (a + [x])[|a|] == x
  {
  }

  /** The keys of the applied tables are the folder ids and note ids inserted. */
  lemma {:induction false} AppliedKeys(ins: seq<Insert>)
    ensures forall fid :: fid in Applied(ins).folders <==> fid in FolderKeys(ins)
    ensures forall nid :: nid in Applied(ins).notes <==> nid in NoteKeys(ins)
    decreases |ins|
  {
    if |ins| > 0 {
      AppliedKeys(ins[..|ins| - 1]);
    }
  }

  /** With no folder id repeated, the stored folder names are exactly the names inserted. */
  lemma {:induction false} AppliedNames(ins: seq<Insert>)
    requires Distinct(FolderKeys(ins))
    ensures forall n :: NameStored(Applied(ins).folders, n) <==> n in FolderNamesOf(ins)
    decreases |ins|
  {
    if |ins| > 0 {
      var p := ins[..|ins| - 1];
      var x := ins[|ins| - 1];
      var t := Applied(p);
      if x.AddFolder? {
        DistinctSnoc(FolderKeys(p), x.fid);
        AppliedNames(p);
        AppliedKeys(p);
        var m, m' := t.folders, Applied(ins).folders;
        assert m' == m[x.fid := x.name];
        forall n
          ensures NameStored(m', n) <==> n in FolderNamesOf(ins)
        {
          if NameStored(m, n) {
            var k :| k in m && m[k] == n;
            assert m'[k] == n;
          }
          if NameStored(m', n) {
            var k :| k in m' && m'[k] == n;
            if k != x.fid {
              assert m[k] == n;
            }
          }
          assert m'[x.fid] == x.name;
        }
      } else {
        assert FolderKeys(ins) == FolderKeys(p) && FolderNamesOf(ins) == FolderNamesOf(p);
        AppliedNames(p);
        assert Applied(ins).folders == t.folders;
      }
    }
  }

  /**
   * Without an outside failure, the inserts succeed from empty tables exactly
   * when folder ids, folder names and note ids are each free of repeats, and
   * then the tables hold exactly the inserted rows.
   */
  lemma {:induction false} ExecAllClean(ins: seq<Insert>, first: nat)
    ensures ExecAll(NoTables(), ins, None, first).Some? <==>
      Distinct(FolderKeys(ins)) && Distinct(FolderNamesOf(ins)) && Distinct(NoteKeys(ins))
    ensures ExecAll(NoTables(), ins, None, first).Some? ==> ExecAll(NoTables(), ins, None, first).value == Applied(ins)
    decreases |ins|
  {
    if |ins| > 0 {
      var p := ins[..|ins| - 1];
      var x := ins[|ins| - 1];
      ExecAllClean(p, first);
      AppliedKeys(p);
      if x.AddFolder? {
        DistinctSnoc(FolderKeys(p), x.fid);
        DistinctSnoc(FolderNamesOf(p), x.name);
        assert NoteKeys(ins) == NoteKeys(p);
        if Distinct(FolderKeys(p)) {
          AppliedNames(p);
        }
      } else {
        DistinctSnoc(NoteKeys(p), x.nid);
        assert FolderKeys(ins) == FolderKeys(p);
        assert FolderNamesOf(ins) == FolderNamesOf(p);
      }
    }
  }

  /** An outside failure at one of the statements makes the whole run fail; elsewhere it does nothing. */
  lemma {:induction false} ExecAllFailAt(t: Tables, ins: seq<Insert>, failAt: Option<nat>, first: nat)
    ensures ExecAll(t, ins, failAt, first) ==
      if FailsWithin(failAt, first, |ins|) then None else ExecAll(t, ins, None, first)
    decreases |ins|
  {
    if |ins| > 0 {
      ExecAllFailAt(t, ins[..|ins| - 1], failAt, first);
    }
  }

  /** Once a prefix of the statements has raised, the whole run has. */
  lemma {:induction false} ExecAllPrefixNone(t: Tables, p: seq<Insert>, ins: seq<Insert>, failAt: Option<nat>, first: nat)
    requires p <= ins
    requires ExecAll(t, p, failAt, first).None?
    ensures ExecAll(t, ins, failAt, first).None?
    decreases |ins|
  {
    if |ins| > |p| {
      assert p <= ins[..|ins| - 1];
      ExecAllPrefixNone(t, p, ins[..|ins| - 1], failAt, first);
    } else {
      assert p == ins;
    }
  }

  /** Running one statement more extends the run by `Exec` of that statement. */
  lemma ExecAllSnoc(t: Tables, ins: seq<Insert>, x: Insert, failAt: Option<nat>, first: nat)
    ensures ExecAll(t, ins + [x], failAt, first) ==
      var r := ExecAll(t, ins, failAt, first);
      if r.None? || failAt == Some(first + |ins|) then None else Exec(r.value, x)
  {
    LastOfSnoc(ins, x);
  }
}
