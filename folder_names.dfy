/**
 * Save-time normalisation of folder names. The folders table declares
 * `name` UNIQUE, so before writing, `save` walks the folders in dict order
 * keeping every name not used yet and renaming each repeat to
 * `"<name> (Copy k)"` for the first k = 1, 2, ... that is still free.
 */
module FolderNames {
  import opened Text
  import opened Dicts

  /** `f"{original_name} (Copy {count})"`. */
  function CopyName(original: string, k: nat): string {
    original + " (Copy " + NatToDec(k) + ")"
  }

  /** What the rename loop has tried on reaching copy number `k`: the name itself and copies 1 to k. */
  ghost function Tried(original: string, k: nat): set<string>
    decreases k
  {
    if k == 0 then {original} else Tried(original, k - 1) + {CopyName(original, k)}
  }

  function SetOf(s: seq<string>): set<string> {
    set x | x in s
  }

  // ------------------------------------------------- the candidate names

  /** Different copy numbers give different candidates, and no candidate is the name itself. */
  lemma CopyNameInjective(o: string, j: nat, k: nat)
    ensures j != k ==> CopyName(o, j) != CopyName(o, k)
    ensures CopyName(o, k) != o
  {
    assert |CopyName(o, k)| > |o|;
    if CopyName(o, j) == CopyName(o, k) {
      var p := o + " (Copy ";
      assert CopyName(o, j) == p + (NatToDec(j) + [')'] + "");
      assert CopyName(o, k) == p + (NatToDec(k) + [')'] + "");
      assert CopyName(o, j)[|p|..] == NatToDec(j) + [')'] + "";
      assert CopyName(o, k)[|p|..] == NatToDec(k) + [')'] + "";
      DecPrefixInjective(j, k, ')', "", "");
    }
  }

  lemma {:induction false} NotTriedYet(o: string, k: nat, m: nat)
    requires m < k
    ensures CopyName(o, k) !in Tried(o, m)
    decreases m
  {
    CopyNameInjective(o, k, m);
    if m > 0 {
      NotTriedYet(o, k, m - 1);
    }
  }

  /** The loop tries `k + 1` distinct names up to copy number `k`. */
  lemma {:induction false} TriedSize(o: string, k: nat)
    ensures |Tried(o, k)| == k + 1
    decreases k
  {
    if k > 0 {
      TriedSize(o, k - 1);
      NotTriedYet(o, k, k - 1);
    }
  }

  lemma {:induction false} TriedHas(o: string, n: nat)
    ensures o in Tried(o, n)
    ensures forall j | 1 <= j <= n :: CopyName(o, j) in Tried(o, n)
    decreases n
  {
    if n > 0 {
      TriedHas(o, n - 1);
    }
  }

  lemma {:induction false} TriedOnly(o: string, n: nat, x: string)
    requires x in Tried(o, n)
    ensures x == o || exists j | 1 <= j <= n :: x == CopyName(o, j)
    decreases n
  {
    if n > 0 && x != CopyName(o, n) {
      TriedOnly(o, n - 1, x);
    }
  }

  lemma SubsetCard(a: set<string>, b: set<string>)
    requires a <= b
    ensures |a| <= |b|
  {
    assert b == a + (b - a);
  }

  // ------------------------------------------------- one folder's name

  /** The copy number the loop ends at, having found every earlier candidate taken. */
  function FirstFreeCopy(o: string, seen: set<string>, k: nat): (m: nat)
    requires k >= 1 && Tried(o, k - 1) <= seen
    ensures m >= k && CopyName(o, m) !in seen
    ensures forall j | k <= j < m :: CopyName(o, j) in seen
    decreases |seen| - k
  {
    if CopyName(o, k) !in seen then k
    else
      TriedSize(o, k);
      SubsetCard(Tried(o, k), seen);
      FirstFreeCopy(o, seen, k + 1)
  }

  /**
   * The name `save` gives a folder called `original` when `seen` holds the
   * names given so far: unchanged if free, else the first free copy name.
   */
  function UniqueName(original: string, seen: set<string>): (r: string)
    ensures r !in seen
    ensures original !in seen ==> r == original
    ensures original in seen ==>
      exists k | k >= 1 :: r == CopyName(original, k) && forall j | 1 <= j < k :: CopyName(original, j) in seen
  {
    if original !in seen then original else CopyName(original, FirstFreeCopy(original, seen, 1))
  }

  /** The rename loop of `save` (features/storage.py:111-115). */
  method NextFreeName(original: string, seen: set<string>) returns (newName: string)
    ensures newName == UniqueName(original, seen)
  {
    newName := original;
    var count: nat := 1;
    while newName in seen
      invariant count >= 1
      invariant newName == if count == 1 then original else CopyName(original, count - 1)
      invariant Tried(original, count - 1) - {newName} <= seen
      decreases |seen| - count
    {
      RenameStep(original, seen, count, newName);
      newName := CopyName(original, count);
      count := count + 1;
    }
    RenameExit(original, seen, count, newName);
  }

  /** One more turn of the rename loop: every name tried so far is taken, and the next candidate is new. */
  lemma RenameStep(o: string, seen: set<string>, count: nat, name: string)
    requires count >= 1 && (name == if count == 1 then o else CopyName(o, count - 1))
    requires Tried(o, count - 1) - {name} <= seen && name in seen
    ensures count <= |seen|
    ensures Tried(o, count) - {CopyName(o, count)} <= seen
  {
    TriedSize(o, count - 1);
    if count > 1 {
      TriedHas(o, count - 1);
    }
    assert Tried(o, count - 1) <= seen;
    SubsetCard(Tried(o, count - 1), seen);
    NotTriedYet(o, count, count - 1);
    assert Tried(o, count) - {CopyName(o, count)} == Tried(o, count - 1);
  }

  /** When the rename loop stops, the name it holds is the one `UniqueName` picks. */
  lemma RenameExit(o: string, seen: set<string>, count: nat, name: string)
    requires count >= 1 && (name == if count == 1 then o else CopyName(o, count - 1))
    requires Tried(o, count - 1) - {name} <= seen && name !in seen
    ensures name == UniqueName(o, seen)
  {
    TriedHas(o, count - 1);
    if count > 1 {
      TriedHas(o, count - 2);
      NotTriedYet(o, count - 1, count - 2);
      assert Tried(o, count - 2) <= seen;
      assert o in seen;
      assert forall j | 1 <= j < count - 1 :: CopyName(o, j) in seen;
      var m := FirstFreeCopy(o, seen, 1);
      assert m == count - 1;
    }
  }

  // ------------------------------------------------- all folders

  /** The names `save` writes, one per folder, in dict order. */
  function Normalize(names: seq<string>): (r: seq<string>)
    ensures |r| == |names|
    decreases |names|
  {
    if |names| == 0 then []
    else
      var p := Normalize(names[..|names| - 1]);
      p + [UniqueName(names[|names| - 1], SetOf(p))]
  }

  /** Normalising a prefix gives the prefix of the normalised names. */
  lemma {:induction false} NormalizePrefix(names: seq<string>, i: nat)
    requires i <= |names|
    ensures Normalize(names)[..i] == Normalize(names[..i])
    decreases |names|
  {
    if i < |names| {
      NormalizePrefix(names[..|names| - 1], i);
      assert names[..|names| - 1][..i] == names[..i];
    } else {
      assert names[..i] == names;
    }
  }

  /**
   * Folder `i` gets the name `UniqueName` picks against the names given to
   * the folders before it: kept when not yet used, else its first free copy.
   */
  lemma NormalizeAt(names: seq<string>, i: nat)
    requires i < |names|
    ensures Normalize(names)[i] == UniqueName(names[i], SetOf(Normalize(names)[..i]))
  {
    NormalizePrefix(names, i + 1);
    NormalizePrefix(names, i);
    assert names[..i + 1][..i] == names[..i];
    assert Normalize(names[..i + 1]) == Normalize(names[..i]) + [UniqueName(names[i], SetOf(Normalize(names[..i])))];
  }

  /** The persisted folder names are pairwise distinct. */
  lemma {:induction false} NormalizeDistinct(names: seq<string>)
    ensures Distinct(Normalize(names))
    decreases |names|
  {
    if |names| > 0 {
      var p := Normalize(names[..|names| - 1]);
      NormalizeDistinct(names[..|names| - 1]);
      var r := Normalize(names);
      forall i, j | 0 <= i < j < |r|
        ensures r[i] != r[j]
      {
        if j == |r| - 1 {
          assert r[i] == p[i];
          assert r[i] in SetOf(p);
        } else {
          assert r[i] == p[i] && r[j] == p[j];
        }
      }
    }
  }

  /** Names that are already distinct are saved as they are. */
  lemma {:induction false} NormalizeKeepsDistinct(names: seq<string>)
    requires Distinct(names)
    ensures Normalize(names) == names
    decreases |names|
  {
    if |names| > 0 {
      var q := names[..|names| - 1];
      assert forall i, j | 0 <= i < j < |q| :: q[i] == names[i] && q[j] == names[j];
      NormalizeKeepsDistinct(q);
      var last := names[|names| - 1];
      forall x | x in SetOf(q)
        ensures x != last
      {
        var i :| 0 <= i < |q| && q[i] == x;
        assert names[i] == x;
      }
      assert names == q + [last];
    }
  }

  /** `n` folders all called `o`. */
  function Repeat(o: string, n: nat): (r: seq<string>)
    ensures |r| == n && forall i | 0 <= i < n :: r[i] == o
  {
    seq(n, i requires 0 <= i < n => o)
  }

  /** The names `n` folders all called `o` are saved under: `o`, then its copies 1 to n - 1. */
  function CopiesOf(o: string, n: nat): (r: seq<string>)
    ensures |r| == n
  {
    seq(n, i requires 0 <= i < n => if i == 0 then o else CopyName(o, i))
  }

  lemma {:induction false} TriedGrows(o: string, a: nat, b: nat)
    requires a <= b
    ensures Tried(o, a) <= Tried(o, b)
    decreases b
  {
    if a < b {
      TriedGrows(o, a, b - 1);
    }
  }

  /** Against the names tried up to copy `m`, the loop started at copy `k` ends at copy `m + 1`. */
  lemma {:induction false} FirstFreeAfterTried(o: string, m: nat, k: nat)
    requires 1 <= k <= m + 1 && Tried(o, k - 1) <= Tried(o, m)
    ensures FirstFreeCopy(o, Tried(o, m), k) == m + 1
    decreases m + 1 - k
  {
    if k <= m {
      TriedHas(o, m);
      assert CopyName(o, k) in Tried(o, m);
      TriedGrows(o, k, m);
      FirstFreeAfterTried(o, m, k + 1);
    } else {
      NotTriedYet(o, k, m);
    }
  }

  /** A name already given, with copies 1 to `m` given too, becomes copy `m + 1`. */
  lemma UniqueAfterTried(o: string, m: nat)
    ensures UniqueName(o, Tried(o, m)) == CopyName(o, m + 1)
  {
    TriedHas(o, m);
    TriedGrows(o, 0, m);
    FirstFreeAfterTried(o, m, 1);
  }

  lemma {:induction false} CopiesTried(o: string, m: nat)
    ensures SetOf(CopiesOf(o, m + 1)) == Tried(o, m)
    decreases m
  {
    if m > 0 {
      CopiesTried(o, m - 1);
      assert CopiesOf(o, m + 1) == CopiesOf(o, m) + [CopyName(o, m)];
    } else {
      assert CopiesOf(o, 1) == [o];
    }
  }

  lemma CopiesSnoc(o: string, n: nat)
    requires n >= 2
    ensures CopiesOf(o, n) == CopiesOf(o, n - 1) + [CopyName(o, n - 1)]
  {
  }

  lemma NormalizeSnoc(names: seq<string>)
    requires |names| > 0
    ensures Normalize(names) ==
      Normalize(names[..|names| - 1]) + [UniqueName(names[|names| - 1], SetOf(Normalize(names[..|names| - 1])))]
  {
  }

  /** Folders that share one name are saved as that name, then its copies 1, 2, ... in dict order. */
  lemma {:induction false} SameNameCopies(o: string, n: nat)
    ensures Normalize(Repeat(o, n)) == CopiesOf(o, n)
    decreases n
  {
    if n > 0 {
      var names := Repeat(o, n);
      assert names[..n - 1] == Repeat(o, n - 1);
      SameNameCopies(o, n - 1);
      NormalizeSnoc(names);
      var p := CopiesOf(o, n - 1);
      if n == 1 {
        assert SetOf(p) == {};
        assert CopiesOf(o, n) == [o];
      } else {
        CopiesTried(o, n - 2);
        UniqueAfterTried(o, n - 2);
        CopiesSnoc(o, n);
      }
    }
  }
}
