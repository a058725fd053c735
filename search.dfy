/**
 * `search_notes`: the notes whose title or body contains the query, each
 * joined to its folder. `LIKE '%query%'` is a substring test that ignores
 * the case of ASCII letters; a note whose `folder_id` names no folder row
 * drops out of the inner JOIN.
 */
module Search {
  import opened Text
  import opened Dicts
  import opened Schema

  datatype SearchHit = SearchHit(noteId: int, title: string, folderId: int, folderName: string)

  /** `s LIKE '%' || query || '%'`, the query taken literally. */
  predicate Like(s: string, query: string) {
    Contains(Lower(s), Lower(query))
  }

  /** Note `nid` is a row of the JOIN that passes the WHERE clause. */
  predicate Matches(t: Tables, query: string, nid: int) {
    && nid in t.notes
    && t.notes[nid].folderId in t.folders
    && (Like(t.notes[nid].title, query) || Like(t.notes[nid].body, query))
  }

  /** The result row for a matching note. */
  function HitFor(t: Tables, nid: int): SearchHit
    requires nid in t.notes && t.notes[nid].folderId in t.folders
  {
    var row := t.notes[nid];
    SearchHit(nid, row.title, row.folderId, t.folders[row.folderId])
  }

  /** The result rows for the notes in `scan`, the order SQLite visits them in. */
  function Hits(t: Tables, query: string, scan: seq<int>): seq<SearchHit>
    decreases |scan|
  {
    if |scan| == 0 then []
    else
      var nid := scan[|scan| - 1];
      Hits(t, query, scan[..|scan| - 1]) + (if Matches(t, query, nid) then [HitFor(t, nid)] else [])
  }

  function HitIds(hits: seq<SearchHit>): (r: seq<int>)
    ensures |r| == |hits| && forall k | 0 <= k < |hits| :: r[k] == hits[k].noteId
  {
    seq(|hits|, k requires 0 <= k < |hits| => hits[k].noteId)
  }

  // ---------------------------------------------------------------- lemmas

  /**
   * Every result is a matching note reported with its own title and its
   * folder's id and name, and every matching note of the scan is reported.
   */
  lemma {:induction false} HitsSound(t: Tables, query: string, scan: seq<int>)
    ensures forall h | h in Hits(t, query, scan) ::
      Matches(t, query, h.noteId) && h == HitFor(t, h.noteId) && h.noteId in scan
    ensures forall nid | nid in scan && Matches(t, query, nid) :: HitFor(t, nid) in Hits(t, query, scan)
    decreases |scan|
  {
    if |scan| > 0 {
      var p := scan[..|scan| - 1];
      HitsSound(t, query, p);
      assert scan == p + [scan[|scan| - 1]];
    }
  }

  /** A note matches when the query occurs, ignoring ASCII case, in its title or in its body. */
  lemma LikeOfOccurrence(s: string, query: string, i: nat)
    requires i + |query| <= |s| && Lower(s[i..i + |query|]) == Lower(query)
    ensures Like(s, query)
  {
    assert Lower(s)[i..i + |query|] == Lower(s[i..i + |query|]);
    assert OccursAt(Lower(s), Lower(query), i);
  }

  /** The empty query matches every note. */
  lemma EmptyQueryMatchesAll(s: string)
    ensures Like(s, "")
  {
    assert OccursAt(Lower(s), Lower(""), 0);
  }

  /** No note is reported twice when the scan visits each note once. */
  lemma {:induction false} HitsDistinct(t: Tables, query: string, scan: seq<int>)
    requires Distinct(scan)
    ensures Distinct(HitIds(Hits(t, query, scan)))
    decreases |scan|
  {
    if |scan| > 0 {
      var p := scan[..|scan| - 1];
      var nid := scan[|scan| - 1];
      DistinctSnoc(p, nid);
      assert scan == p + [nid];
      HitsDistinct(t, query, p);
      HitsSound(t, query, p);
      var h := Hits(t, query, p);
      if Matches(t, query, nid) {
        assert HitIds(Hits(t, query, scan)) == HitIds(h) + [nid];
        forall k | 0 <= k < |h|
          ensures HitIds(h)[k] != nid
        {
          assert h[k] in h;
          assert h[k].noteId in p;
        }
        DistinctSnoc(HitIds(h), nid);
      } else {
        assert HitIds(Hits(t, query, scan)) == HitIds(h);
      }
    }
  }
}
