/**
 * The legacy JSON document that `_import_from_json_if_needed` reads once
 * into the database. `json.load` gives both dicts string keys; the import
 * turns them back into integers with `{int(k): v for k, v in ...items()}`
 * before handing the document to `save`.
 */
module LegacyImport {
  import opened Wrappers
  import opened Text
  import opened Dicts
  import Aggregate

  /** The parsed JSON file: folders and notes under their string keys, in file order. */
  datatype LegacyDoc = LegacyDoc(folders: Dict<string, Aggregate.Folder>, notes: Dict<string, Aggregate.Note>)

  /** `[(int(k), v) for k, v in items]`, or `None` at the first key `int` refuses. */
  function CoerceItems<V>(items: seq<(string, V)>): (r: Option<seq<(int, V)>>)
    ensures r.Some? <==> forall i | 0 <= i < |items| :: ParseInt(items[i].0).Some?
    ensures r.Some? ==> |r.value| == |items|
    ensures r.Some? ==> forall i | 0 <= i < |items| :: r.value[i] == (ParseInt(items[i].0).value, items[i].1)
    decreases |items|
  {
    if |items| == 0 then Some([])
    else
      var p := CoerceItems(items[..|items| - 1]);
      var k := ParseInt(items[|items| - 1].0);
      if p.None? || k.None? then None else Some(p.value + [(k.value, items[|items| - 1].1)])
  }

  /** `{int(k): v for k, v in d.items()}`; keys that denote the same integer collapse into one. */
  function CoerceKeys<V>(d: Dict<string, V>): Option<Dict<int, V>>
    requires Valid(d)
  {
    var r := CoerceItems(Items(d));
    if r.None? then None else Some(PutAll(Empty(), r.value))
  }

  /** The items of `d` with their keys written as `str(k)`, as `json.dump` writes them. */
  function StrItems<V>(items: seq<(int, V)>): (r: seq<(string, V)>)
    ensures |r| == |items| && forall i | 0 <= i < |items| :: r[i] == (IntToDec(items[i].0), items[i].1)
  {
    seq(|items|, i requires 0 <= i < |items| => (IntToDec(items[i].0), items[i].1))
  }

  /** The dict `json.load` gives back for an integer-keyed dict that `json.dump` wrote. */
  function Stringify<V>(d: Dict<int, V>): Dict<string, V>
    requires Valid(d)
  {
    PutAll(Empty(), StrItems(Items(d)))
  }

  /** The document coerced, or `None` where `int(k)` raises on some key. */
  function CoerceDoc(doc: LegacyDoc): (r: Option<(Dict<int, Aggregate.Folder>, Dict<int, Aggregate.Note>)>)
    requires Valid(doc.folders) && Valid(doc.notes)
  {
    var f := CoerceKeys(doc.folders);
    var n := CoerceKeys(doc.notes);
    if f.None? || n.None? then None else Some((f.value, n.value))
  }

  // ---------------------------------------------------------------- lemmas

  /** `str` is injective on integers. */
  lemma IntToDecInjective(a: int, b: int)
    ensures a != b ==> IntToDec(a) != IntToDec(b)
  {
    ParseIntOfDec(a);
    ParseIntOfDec(b);
  }

  /** Coercion keeps a dict valid. */
  lemma CoerceKeysValid<V>(d: Dict<string, V>)
    requires Valid(d)
    ensures CoerceKeys(d).Some? ==> Valid(CoerceKeys(d).value)
  {
    var r := CoerceItems(Items(d));
    if r.Some? {
      var e: Dict<int, V> := Empty();
      PutAllValid(e, r.value);
    }
  }

  /** One key that is not an integer makes the whole conversion raise, so nothing is imported. */
  lemma NonIntegerKeyAborts<V>(d: Dict<string, V>, k: string)
    requires Valid(d)
    requires k in d.vals && ParseInt(k).None?
    ensures CoerceKeys(d).None?
  {
    var i :| 0 <= i < |d.keys| && d.keys[i] == k;
    assert Items(d)[i].0 == k;
  }

  /** Coercing the keys of a dict written out by `json.dump` gives the integer-keyed dict back. */
  lemma CoerceRoundTrip<V>(d: Dict<int, V>)
    requires Valid(d)
    ensures Valid(Stringify(d))
    ensures CoerceKeys(Stringify(d)) == Some(d)
  {
    var it := Items(d);
    PutAllItems(d);
    var st := StrItems(it);
    forall i, j | 0 <= i < j < |st|
      ensures PairKeys(st)[i] != PairKeys(st)[j]
    {
      assert it[i].0 == d.keys[i] && it[j].0 == d.keys[j];
      IntToDecInjective(it[i].0, it[j].0);
    }
    ItemsOfPutAll(st);
    assert Items(Stringify(d)) == st;
    var c := CoerceItems(st);
    forall i | 0 <= i < |st|
      ensures ParseInt(st[i].0) == Some(it[i].0)
    {
      ParseIntOfDec(it[i].0);
    }
    assert c.Some?;
    assert c.value == it;
  }
}
