/**
 * The Python `str` operations the note store relies on, over strings as
 * sequences of characters: `find`, `split`, `join`, `replace(old, new, 1)`,
 * `strip`, `split()` on whitespace, `count`, `in`, ASCII `lower`, decimal
 * formatting of integers (`str(n)`, `f"{n:02d}"`) and `int(s)`.
 */
module Text {
  import opened Wrappers

  /** `str.isspace()` on one character (the whitespace set of `split()` and `strip()`). */
  predicate IsSpace(c: char) {
    c == ' ' || ('\t' <= c <= '\r') || ('\U{1c}' <= c <= '\U{1f}')
    || c == '\U{85}' || c == '\U{a0}' || c == '\U{1680}'
    || ('\U{2000}' <= c <= '\U{200a}') || c == '\U{2028}' || c == '\U{2029}'
    || c == '\U{202f}' || c == '\U{205f}' || c == '\U{3000}'
  }

  predicate IsDigit(c: char) {
    '0' <= c <= '9'
  }

  /** Lower-casing of one character; only the ASCII letters are folded. */
  function LowerChar(c: char): char {
    if 'A' <= c <= 'Z' then (c as int + 32) as char else c
  }

  function Lower(s: string): string {
    seq(|s|, i requires 0 <= i < |s| => LowerChar(s[i]))
  }

  /** `pat` occurs in `s` starting at index `i`. */
  predicate OccursAt(s: string, pat: string, i: int) {
    0 <= i && i + |pat| <= |s| && s[i..i + |pat|] == pat
  }

  /** Python's `q in s` on strings. */
  predicate Contains(s: string, q: string) {
    exists i | 0 <= i <= |s| - |q| :: OccursAt(s, q, i)
  }

  /** `s.find(pat, from)`: the first index at or after `from` where `pat` occurs, `None` standing for -1. */
  function FindFrom(s: string, pat: string, from: nat): (r: Option<nat>)
    ensures r.Some? ==> from <= r.value && OccursAt(s, pat, r.value)
    ensures r.Some? ==> forall j | from <= j < r.value :: !OccursAt(s, pat, j)
    ensures r.None? ==> forall j | from <= j <= |s| - |pat| :: !OccursAt(s, pat, j)
    decreases |s| - from
  {
    if from + |pat| > |s| then None
    else if OccursAt(s, pat, from) then Some(from)
    else FindFrom(s, pat, from + 1)
  }

  /** `s.find(pat)`. */
  function Find(s: string, pat: string): (r: Option<nat>)
    ensures r.Some? ==> OccursAt(s, pat, r.value)
    ensures r.Some? ==> forall j | 0 <= j < r.value :: !OccursAt(s, pat, j)
    ensures r.None? ==> forall j | 0 <= j <= |s| - |pat| :: !OccursAt(s, pat, j)
  {
    FindFrom(s, pat, 0)
  }

  /** `s.split(sep)` for a non-empty separator, scanning left to right. */
  function Split(s: string, sep: string): (parts: seq<string>)
    requires |sep| > 0
    ensures |parts| >= 1
    decreases |s|
  {
    match Find(s, sep)
    case None => [s]
    case Some(i) => [s[..i]] + Split(s[i + |sep|..], sep)
  }

  /** `sep.join(parts)`. */
  function Join(parts: seq<string>, sep: string): string
    decreases |parts|
  {
    if |parts| == 0 then ""
    else if |parts| == 1 then parts[0]
    else parts[0] + sep + Join(parts[1..], sep)
  }

  /** `s.replace(target, repl, 1)` for a non-empty `target`. */
  function ReplaceFirst(s: string, target: string, repl: string): string
    requires |target| > 0
  {
    match Find(s, target)
    case None => s
    case Some(i) => s[..i] + repl + s[i + |target|..]
  }

  function LStrip(s: string): string
    decreases |s|
  {
    if |s| > 0 && IsSpace(s[0]) then LStrip(s[1..]) else s
  }

  function RStrip(s: string): string
    decreases |s|
  {
    if |s| > 0 && IsSpace(s[|s| - 1]) then RStrip(s[..|s| - 1]) else s
  }

  /** `s.strip()`. */
  function Strip(s: string): string {
    RStrip(LStrip(s))
  }

  /** Length of the run of non-whitespace characters that `s` starts with. */
  function WordLength(s: string): (n: nat)
    ensures n <= |s|
    ensures forall k | 0 <= k < n :: !IsSpace(s[k])
    ensures n < |s| ==> IsSpace(s[n])
    decreases |s|
  {
    if |s| == 0 || IsSpace(s[0]) then 0 else 1 + WordLength(s[1..])
  }

  /** `s.split()`: the maximal runs of non-whitespace characters, in order. */
  function Tokens(s: string): seq<string>
    decreases |s|
  {
    if |s| == 0 then []
    else if IsSpace(s[0]) then Tokens(s[1..])
    else
      var n := WordLength(s);
      [s[..n]] + Tokens(s[n..])
  }

  /** The characters of `s` that are not whitespace, in order. */
  function NonSpace(s: string): string
    decreases |s|
  {
    if |s| == 0 then ""
    else if IsSpace(s[0]) then NonSpace(s[1..])
    else [s[0]] + NonSpace(s[1..])
  }

  function Concat(parts: seq<string>): string
    decreases |parts|
  {
    if |parts| == 0 then "" else parts[0] + Concat(parts[1..])
  }

  /** `s.count(c)` for a one-character needle. */
  function CountChar(s: string, c: char): nat
    decreases |s|
  {
    if |s| == 0 then 0 else (if s[0] == c then 1 else 0) + CountChar(s[1..], c)
  }

  function DigitChar(d: nat): char
    requires d < 10
  {
    ('0' as int + d) as char
  }

  /** `str(n)` for a natural number. */
  function NatToDec(n: nat): (r: string)
    ensures |r| >= 1
    ensures forall k | 0 <= k < |r| :: IsDigit(r[k])
    decreases n
  {
    if n < 10 then [DigitChar(n)] else NatToDec(n / 10) + [DigitChar(n % 10)]
  }

  /** `str(i)` for any integer. */
  function IntToDec(i: int): string {
    if i < 0 then "-" + NatToDec(-i) else NatToDec(i)
  }

  /** `f"{n:02d}"`: at least two digits, padded with a leading zero. */
  function ZeroPad2(n: nat): string {
    if n < 10 then "0" + NatToDec(n) else NatToDec(n)
  }

  predicate AllDigits(s: string) {
    |s| > 0 && forall k | 0 <= k < |s| :: IsDigit(s[k])
  }

  function DigitsValue(s: string): nat
    requires forall k | 0 <= k < |s| :: IsDigit(s[k])
    decreases |s|
  {
    if |s| == 0 then 0
    else
      var d := s[|s| - 1];
      assert IsDigit(d);
      DigitsValue(s[..|s| - 1]) * 10 + (d as int - '0' as int)
  }

  /** `int(s)` for an optional sign followed by ASCII digits; `None` where Python raises `ValueError`. */
  function ParseInt(s: string): Option<int> {
    if |s| > 0 && (s[0] == '-' || s[0] == '+') then
      if AllDigits(s[1..]) then
        var v: int := DigitsValue(s[1..]);
        Some(if s[0] == '-' then -v else v)
      else None
    else if AllDigits(s) then Some(DigitsValue(s))
    else None
  }

  // ---------------------------------------------------------------- lemmas

  lemma StringAssoc(x: string, y: string, z: string)
    ensures (x + y) + z == x + (y + z)
  {
  }

  /** `lower` works character by character, so it distributes over concatenation. */
  lemma LowerConcat(a: string, b: string)
    ensures Lower(a + b) == Lower(a) + Lower(b)
  {
  }

  /** A string found in `s` is found in any string ending with `s`. */
  lemma ContainsSuffix(pre: string, s: string, q: string)
    requires Contains(s, q)
    ensures Contains(pre + s, q)
  {
    var k :| 0 <= k <= |s| - |q| && OccursAt(s, q, k);
    assert (pre + s)[|pre| + k..|pre| + k + |q|] == s[k..k + |q|];
    assert OccursAt(pre + s, q, |pre| + k);
  }

  /** `split` followed by `join` with the same separator gives back the string. */
  lemma {:induction false} JoinSplit(s: string, sep: string)
    requires |sep| > 0
    ensures Join(Split(s, sep), sep) == s
    decreases |s|
  {
    match Find(s, sep)
    case None =>
    case Some(i) =>
      var rest := Split(s[i + |sep|..], sep);
      JoinSplit(s[i + |sep|..], sep);
      assert Split(s, sep) == [s[..i]] + rest;
      assert ([s[..i]] + rest)[1..] == rest;
      assert s == s[..i] + s[i..i + |sep|] + s[i + |sep|..];
  }

  /** A one-character needle is found exactly when it occurs; where found, no earlier character is it. */
  lemma FindChar(s: string, c: char)
    ensures Find(s, [c]).Some? <==> c in s
    ensures Find(s, [c]).Some? ==> s[Find(s, [c]).value] == c
    ensures Find(s, [c]).Some? ==> forall k | 0 <= k < Find(s, [c]).value :: s[k] != c
  {
    forall k | 0 <= k < |s|
      ensures OccursAt(s, [c], k) <==> s[k] == c
    {
      assert s[k..k + 1] == [s[k]];
    }
  }

  /** Splitting `p0 + c + tail` on `c`, where `p0` lacks `c`, gives `p0` and then the parts of `tail`. */
  lemma SplitAtFirst(p0: string, c: char, tail: string)
    requires c !in p0
    ensures Split(p0 + [c] + tail, [c]) == [p0] + Split(tail, [c])
  {
    var s := p0 + [c] + tail;
    FindChar(s, c);
    forall k | 0 <= k < |p0|
      ensures s[k] != c
    {
      assert s[k] == p0[k];
    }
    assert s[|p0|] == c;
    assert Find(s, [c]).value == |p0|;
    assert s[..|p0|] == p0;
    assert s[|p0| + 1..] == tail;
  }

  /** Joining parts free of a one-character separator and splitting again gives the parts back. */
  lemma {:induction false} SplitJoinChar(parts: seq<string>, c: char)
    requires |parts| >= 1
    requires forall k | 0 <= k < |parts| :: c !in parts[k]
    ensures Split(Join(parts, [c]), [c]) == parts
    decreases |parts|
  {
    var p0 := parts[0];
    assert c !in p0;
    if |parts| == 1 {
      FindChar(p0, c);
    } else {
      var tail := Join(parts[1..], [c]);
      assert Join(parts, [c]) == p0 + [c] + tail;
      SplitAtFirst(p0, c, tail);
      SplitJoinChar(parts[1..], c);
      assert parts == [p0] + parts[1..];
    }
  }

  /** No part of `s.split(c)` contains `c`. */
  lemma {:induction false} SplitPartsLackChar(s: string, c: char)
    ensures forall k | 0 <= k < |Split(s, [c])| :: c !in Split(s, [c])[k]
    decreases |s|
  {
    FindChar(s, c);
    match Find(s, [c])
    case None =>
    case Some(i) =>
      var rest := Split(s[i + 1..], [c]);
      SplitPartsLackChar(s[i + 1..], c);
      var parts := Split(s, [c]);
      assert parts == [s[..i]] + rest;
      forall k | 0 <= k < |parts|
        ensures c !in parts[k]
      {
        if k == 0 {
          assert forall j | 0 <= j < i :: s[..i][j] == s[j];
        } else {
          assert parts[k] == rest[k - 1];
        }
      }
  }

  lemma {:induction false} CountCharAppend(a: string, b: string, c: char)
    ensures CountChar(a + b, c) == CountChar(a, c) + CountChar(b, c)
    decreases |a|
  {
    if |a| > 0 {
      assert (a + b)[0] == a[0];
      assert (a + b)[1..] == a[1..] + b;
      CountCharAppend(a[1..], b, c);
    } else {
      assert a + b == b;
    }
  }

  lemma {:induction false} CountCharAbsent(s: string, c: char)
    requires c !in s
    ensures CountChar(s, c) == 0
    decreases |s|
  {
    if |s| > 0 {
      CountCharAbsent(s[1..], c);
    }
  }

  /** `s.split(c)` has one more part than `s` has occurrences of `c`. */
  lemma {:induction false} SplitCount(s: string, c: char)
    ensures |Split(s, [c])| == CountChar(s, c) + 1
    decreases |s|
  {
    FindChar(s, c);
    match Find(s, [c])
    case None =>
      CountCharAbsent(s, c);
    case Some(i) =>
      assert s == s[..i] + [c] + s[i + 1..];
      CountCharAbsent(s[..i], c);
      CountCharAppend(s[..i] + [c], s[i + 1..], c);
      CountCharAppend(s[..i], [c], c);
      SplitCount(s[i + 1..], c);
  }

  /** Every token of `s.split()` is a non-empty run of non-whitespace characters. */
  lemma {:induction false} TokensAreWords(s: string)
    ensures forall t | t in Tokens(s) :: |t| > 0 && forall k | 0 <= k < |t| :: !IsSpace(t[k])
    decreases |s|
  {
    if |s| > 0 {
      if IsSpace(s[0]) {
        TokensAreWords(s[1..]);
      } else {
        var n := WordLength(s);
        TokensAreWords(s[n..]);
      }
    }
  }

  /** The tokens, laid end to end, are exactly the non-whitespace characters of `s`. */
  lemma {:induction false} TokensCoverText(s: string)
    ensures Concat(Tokens(s)) == NonSpace(s)
    decreases |s|
  {
    if |s| > 0 {
      if IsSpace(s[0]) {
        TokensCoverText(s[1..]);
      } else {
        var n := WordLength(s);
        TokensCoverText(s[n..]);
        WordNonSpace(s, n);
        assert ([s[..n]] + Tokens(s[n..]))[1..] == Tokens(s[n..]);
      }
    }
  }

  /**
   * The number of positions of `s` that start a word: a non-whitespace
   * character at the start of the text (when `afterSpace`) or right after
   * a whitespace character.
   */
  function StartsFrom(s: string, afterSpace: bool): nat
    decreases |s|
  {
    if |s| == 0 then 0
    else (if afterSpace && !IsSpace(s[0]) then 1 else 0) + StartsFrom(s[1..], IsSpace(s[0]))
  }

  function WordStarts(s: string): nat {
    StartsFrom(s, true)
  }

  /** `s.split()` has one token per word start: the tokens are the maximal non-whitespace runs. */
  lemma {:induction false} TokensCountStarts(s: string)
    ensures |Tokens(s)| == WordStarts(s)
    decreases |s|
  {
    if |s| > 0 {
      if IsSpace(s[0]) {
        TokensCountStarts(s[1..]);
      } else {
        var n := WordLength(s);
        var t := s[1..];
        assert forall k | 0 <= k < n - 1 :: t[k] == s[k + 1];
        RunStarts(t, n - 1);
        assert t[n - 1..] == s[n..];
        TokensCountStarts(s[n..]);
      }
    }
  }

  /** Inside a run of non-whitespace that is not at a word start, no word starts until after the run. */
  lemma {:induction false} RunStarts(t: string, m: nat)
    requires m <= |t|
    requires forall k | 0 <= k < m :: !IsSpace(t[k])
    requires m < |t| ==> IsSpace(t[m])
    ensures StartsFrom(t, false) == StartsFrom(t[m..], true)
    decreases m
  {
    if m > 0 {
      var u := t[1..];
      assert forall k | 0 <= k < m - 1 :: u[k] == t[k + 1];
      RunStarts(u, m - 1);
      assert u[m - 1..] == t[m..];
    }
  }

  /** Dropping whitespace from `s` is dropping it from its first `n` characters, if those have none. */
  lemma {:induction false} WordNonSpace(s: string, n: nat)
    requires n <= |s|
    requires forall k | 0 <= k < n :: !IsSpace(s[k])
    ensures NonSpace(s) == s[..n] + NonSpace(s[n..])
    decreases n
  {
    if n > 0 {
      var t := s[1..];
      assert forall k | 0 <= k < n - 1 :: t[k] == s[k + 1];
      WordNonSpace(t, n - 1);
      assert t[n - 1..] == s[n..];
      assert NonSpace(s) == [s[0]] + NonSpace(t);
      assert [s[0]] + t[..n - 1] == s[..n];
      StringAssoc([s[0]], t[..n - 1], NonSpace(s[n..]));
    }
  }

  lemma {:induction false} DecValue(n: nat)
    ensures DigitsValue(NatToDec(n)) == n
    decreases n
  {
    if n >= 10 {
      DecValue(n / 10);
      var r := NatToDec(n);
      assert r[..|r| - 1] == NatToDec(n / 10);
      assert r[|r| - 1] == DigitChar(n % 10);
    }
  }

  /** `int(str(i)) == i`. */
  lemma ParseIntOfDec(i: int)
    ensures ParseInt(IntToDec(i)) == Some(i)
  {
    if i < 0 {
      var d := NatToDec(-i);
      DecValue(-i);
      var s := "-" + d;
      assert s[0] == '-' && s[1..] == d;
      assert AllDigits(d);
    } else {
      var d := NatToDec(i);
      DecValue(i);
      assert IsDigit(d[0]);
      assert AllDigits(d);
    }
  }

  /** Different numbers have different decimal representations. */
  lemma NatToDecInjective(a: nat, b: nat)
    requires NatToDec(a) == NatToDec(b)
    ensures a == b
  {
    DecValue(a);
    DecValue(b);
  }

  /** A number's digits followed by a non-digit determine the number, and what follows. */
  lemma DecPrefixInjective(a: nat, b: nat, c: char, x: string, y: string)
    requires !IsDigit(c)
    requires NatToDec(a) + [c] + x == NatToDec(b) + [c] + y
    ensures a == b && x == y
  {
    var da, db := NatToDec(a), NatToDec(b);
    var s := da + [c] + x;
    assert s == db + [c] + y;
    assert s[|da|] == c && s[|db|] == c;
    assert forall k | 0 <= k < |da| :: s[k] == da[k];
    assert forall k | 0 <= k < |db| :: s[k] == db[k];
    assert |da| == |db|;
    assert da == s[..|da|] && db == s[..|db|];
    NatToDecInjective(a, b);
    assert x == s[|da| + 1..] && y == s[|db| + 1..];
  }
}
