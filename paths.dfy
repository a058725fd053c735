/**
 * The POSIX `os.path` functions the note store uses to name files:
 * `basename`, `dirname`, `join` of two parts and the stem of `splitext`.
 */
module Paths {
  import opened Text

  /** `s.rfind(c)`: the last index holding `c`, or -1. */
  function RFind(s: string, c: char): (r: int)
    ensures -1 <= r < |s|
    ensures r >= 0 ==> s[r] == c
    ensures forall k | r < k < |s| :: s[k] != c
    decreases |s|
  {
    if |s| == 0 then -1 else if s[|s| - 1] == c then |s| - 1 else RFind(s[..|s| - 1], c)
  }

  /** `os.path.basename(p)`: everything after the last `/`. */
  function Basename(p: string): (r: string)
    ensures '/' !in r
    ensures |r| <= |p| && r == p[|p| - |r|..]
  {
    p[RFind(p, '/') + 1..]
  }

  predicate AllSlashes(s: string) {
    forall k | 0 <= k < |s| :: s[k] == '/'
  }

  /** `s.rstrip('/')`. */
  function RStripSlashes(s: string): (r: string)
    ensures r <= s
    ensures |r| > 0 ==> r[|r| - 1] != '/'
    ensures AllSlashes(s[|r|..])
    decreases |s|
  {
    if |s| > 0 && s[|s| - 1] == '/' then RStripSlashes(s[..|s| - 1]) else s
  }

  /** `os.path.dirname(p)`: up to the last `/`, with trailing slashes removed unless it is all slashes. */
  function Dirname(p: string): (r: string)
    ensures r <= p
  {
    var head := p[..RFind(p, '/') + 1];
    if |head| > 0 && !AllSlashes(head) then RStripSlashes(head) else head
  }

  /** `os.path.join(a, b)`: an absolute `b` wins, otherwise a `/` is put between when needed. */
  function JoinPath(a: string, b: string): (r: string)
    ensures |b| > 0 && b[0] == '/' ==> r == b
    ensures |b| <= |r| && r[|r| - |b|..] == b
    ensures !(|b| > 0 && b[0] == '/') ==> a <= r
  {
    if |b| > 0 && b[0] == '/' then b
    else if |a| == 0 || a[|a| - 1] == '/' then a + b
    else a + "/" + b
  }

  /** The part of `a` that `JoinPath` puts before a relative `b`: it does not depend on `b`. */
  function JoinPrefix(a: string): string {
    if |a| == 0 || a[|a| - 1] == '/' then a else a + "/"
  }

  /**
   * `os.path.splitext(p)[0]`: `p` without its extension, the extension
   * being from the last `.` of the last component on, unless the part of
   * that component before it is only dots.
   */
  function StripExt(p: string): (r: string)
    ensures r <= p
  {
    var sep := RFind(p, '/');
    var dot := RFind(p, '.');
    if dot > sep && exists k | sep + 1 <= k < dot :: p[k] != '.' then p[..dot] else p
  }

  // ---------------------------------------------------------------- lemmas

  /** Joining the same directory with a relative name is that fixed prefix followed by the name. */
  lemma JoinRelative(a: string, b: string)
    requires |b| == 0 || b[0] != '/'
    ensures JoinPath(a, b) == JoinPrefix(a) + b
  {
  }

  /** Relative names joined to the same directory give different paths when the names differ. */
  lemma JoinInjective(a: string, b1: string, b2: string)
    requires |b1| == 0 || b1[0] != '/'
    requires |b2| == 0 || b2[0] != '/'
    requires b1 != b2
    ensures JoinPath(a, b1) != JoinPath(a, b2)
  {
    JoinRelative(a, b1);
    JoinRelative(a, b2);
    var pre := JoinPrefix(a);
    assert (pre + b1)[|pre|..] == b1 && (pre + b2)[|pre|..] == b2;
  }

  /** The base name of a path joined as `dir/name` is `name` when `name` has no `/`. */
  lemma BasenameOfJoin(a: string, b: string)
    requires '/' !in b && |b| > 0
    ensures Basename(JoinPath(a, b)) == b
  {
    JoinRelative(a, b);
    var pre := JoinPrefix(a);
    BasenameOfSuffix(pre, b);
  }

  lemma {:induction false} BasenameOfSuffix(pre: string, b: string)
    requires '/' !in b
    requires |pre| == 0 || pre[|pre| - 1] == '/'
    ensures Basename(pre + b) == b
  {
    var p := pre + b;
    var i := RFind(p, '/');
    forall k | |pre| <= k < |p|
      ensures p[k] != '/'
    {
      assert p[k] == b[k - |pre|];
    }
    if |pre| > 0 {
      assert p[|pre| - 1] == '/';
      assert i == |pre| - 1;
    } else {
      assert i == -1;
    }
    assert p[i + 1..] == b;
  }
}
