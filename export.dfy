/**
 * The string side of exporting notes (features/export.py): the file-name
 * sanitiser, the rewriting of Markdown image links, and the content and
 * file names `export_notes_to_file` hands to its writer. The writer itself
 * (Markdown rendering, HTML and PDF output) is not modelled: an export is
 * the list of writes it would make. `os.path.abspath` followed by
 * `pathlib.Path.as_uri` depends on the working directory and is the
 * parameter `toUri`.
 */
module Export {
  import opened Wrappers
  import opened Text
  import opened Paths
  import Aggregate

  // ---------------------------------------------------------------- file names

  /** The characters `[a-zA-Z0-9_-]` that the sanitiser keeps. */
  predicate SafeChar(c: char) {
    ('a' <= c <= 'z') || ('A' <= c <= 'Z') || ('0' <= c <= '9') || c == '_' || c == '-'
  }

  /** `name.split(' - ')[-1]`: the part after the last `" - "`. */
  function LastSegment(name: string): string {
    var parts := Split(name, " - ");
    parts[|parts| - 1]
  }

  /**
   * `_sanitize_filename`: every character of the last segment outside the
   * safe set becomes `_`, then the result is cut to 100 characters.
   */
  function SanitizeFilename(name: string): (r: string)
    ensures forall k | 0 <= k < |r| :: SafeChar(r[k])
    ensures |r| == if |LastSegment(name)| < 100 then |LastSegment(name)| else 100
    ensures forall k | 0 <= k < |r| :: r[k] == (if SafeChar(LastSegment(name)[k]) then LastSegment(name)[k] else '_')
  {
    var last := LastSegment(name);
    var mapped := seq(|last|, i requires 0 <= i < |last| => if SafeChar(last[i]) then last[i] else '_');
    if |mapped| <= 100 then mapped else mapped[..100]
  }

  // ---------------------------------------------------------------- image links

  /** The Markdown image `![alt](path)`. */
  function Image(alt: string, path: string): string {
    "![" + alt + "](" + path + ")"
  }

  predicate StartsWith(s: string, prefix: string) {
    prefix <= s
  }

  /**
   * The first index at or after `from` where `pat` occurs, looking no
   * further than the end of the line: what a lazy `.*?` followed by `pat`
   * settles on, `.` not matching a newline.
   */
  function LineFind(s: string, pat: string, from: nat): (r: Option<nat>)
    requires |pat| > 0 && pat[0] != '\n'
    ensures r.Some? ==> from <= r.value && OccursAt(s, pat, r.value)
    ensures r.Some? ==> forall k | from <= k < r.value :: s[k] != '\n'
    ensures r.Some? ==> forall j | from <= j < r.value :: !OccursAt(s, pat, j)
    ensures r.None? ==> forall j | from <= j && OccursAt(s, pat, j) :: exists k | from <= k < j :: s[k] == '\n'
    decreases |s| - from
  {
    if from + |pat| > |s| then None
    else if OccursAt(s, pat, from) then Some(from)
    else if s[from] == '\n' then None
    else LineFind(s, pat, from + 1)
  }

  /** One match of `!\[(.*?)\]\((.*?)\)`: the two groups and where the match ends. */
  datatype ImageMatch = ImageMatch(alt: string, path: string, end: nat)

  /** The match of the image pattern that starts at `p`, if there is one. */
  function MatchAt(s: string, p: nat): (r: Option<ImageMatch>)
    ensures r.Some? ==> p < r.value.end <= |s| && s[p..r.value.end] == Image(r.value.alt, r.value.path)
    ensures r.Some? ==> '\n' !in r.value.alt && '\n' !in r.value.path && ')' !in r.value.path
    ensures !OccursAt(s, "![", p) ==> r.None?
  {
    if !OccursAt(s, "![", p) then None
    else match LineFind(s, "](", p + 2)
      case None => None
      case Some(e) =>
        match LineFind(s, ")", e + 2)
        case None => None
        case Some(c) =>
          ImageShape(s, p, e, c);
          Some(ImageMatch(s[p + 2..e], s[e + 2..c], c + 1))
  }

  /** The text between the three delimiters the lazy groups stopped at is an image link. */
  lemma ImageShape(s: string, p: nat, e: nat, c: nat)
    requires OccursAt(s, "![", p) && p + 2 <= e && OccursAt(s, "](", e) && e + 2 <= c && OccursAt(s, ")", c)
    requires forall k | p + 2 <= k < e :: s[k] != '\n'
    requires forall k | e + 2 <= k < c :: s[k] != '\n'
    requires forall j | e + 2 <= j < c :: !OccursAt(s, ")", j)
    ensures s[p..c + 1] == Image(s[p + 2..e], s[e + 2..c])
    ensures '\n' !in s[p + 2..e] && '\n' !in s[e + 2..c] && ')' !in s[e + 2..c]
  {
    var alt, path := s[p + 2..e], s[e + 2..c];
    forall k | 0 <= k < |alt|
      ensures alt[k] != '\n'
    {
      assert alt[k] == s[p + 2 + k];
    }
    forall k | 0 <= k < |path|
      ensures path[k] != '\n' && path[k] != ')'
    {
      assert path[k] == s[e + 2 + k];
      assert !OccursAt(s, ")", e + 2 + k);
      assert s[e + 2 + k..e + 2 + k + 1] == [s[e + 2 + k]];
    }
    assert s[p..c + 1] == s[p..p + 2] + s[p + 2..c + 1];
    assert s[p + 2..c + 1] == alt + s[e..c + 1];
    assert s[e..c + 1] == s[e..e + 2] + s[e + 2..c + 1];
    assert s[e + 2..c + 1] == path + s[c..c + 1];
  }

  /**
   * The replacer: web links are kept, a `file:///` link loses its first
   * seven characters (`file://`, so the path keeps its leading `/`), any
   * other path is made an absolute file URI.
   */
  function ReplaceLink(alt: string, path: string, toUri: string -> string): (r: string)
    ensures "![" + alt <= r
    ensures (StartsWith(path, "http://") || StartsWith(path, "https://")) ==> r == Image(alt, path)
    ensures StartsWith(path, "file:///") ==> r == Image(alt, path[7..]) && path[7..] == "/" + path[8..]
    ensures !(StartsWith(path, "http://") || StartsWith(path, "https://") || StartsWith(path, "file:///")) ==>
      r == Image(alt, toUri(path))
  {
    var target :=
      if StartsWith(path, "http://") || StartsWith(path, "https://") then path
      else if StartsWith(path, "file:///") then path[7..]
      else toUri(path);
    var r := Image(alt, target);
    assert r == ("![" + alt) + ("](" + target + ")");
    assert StartsWith(path, "file:///") ==> path[7] == "file:///"[7] && path[0] == 'f';
    r
  }

  /** `image_regex.sub(replacer, s[p:])`: scan left to right, replace each match, resume after it. */
  function SubFrom(s: string, p: nat, toUri: string -> string): string
    requires p <= |s|
    decreases |s| - p
  {
    if p == |s| then ""
    else match MatchAt(s, p)
      case None => [s[p]] + SubFrom(s, p + 1, toUri)
      case Some(m) => ReplaceLink(m.alt, m.path, toUri) + SubFrom(s, m.end, toUri)
  }

  /** `_preprocess_markdown_images`. */
  function PreprocessImages(s: string, toUri: string -> string): string {
    SubFrom(s, 0, toUri)
  }

  // ---------------------------------------------------------------- export content

  /** One file the export writes: its path, its Markdown content and its document title. */
  datatype Write = Write(path: string, content: string, title: string)

  /** The block one note contributes to a single-file export. */
  function Section(n: Aggregate.Note, toUri: string -> string): string {
    "# " + n.title + "\n\n" + PreprocessImages(n.body, toUri) + "\n\n---\n\n"
  }

  /** What one list entry contributes: its section, or nothing for a null entry. */
  function Part(x: Option<Aggregate.Note>, toUri: string -> string): string {
    if x.Some? then Section(x.value, toUri) else ""
  }

  /** The strings `f` gives for the elements of `xs`, one after the other. */
  function ConcatMap<T>(xs: seq<T>, f: T -> string): string
    decreases |xs|
  {
    if |xs| == 0 then "" else ConcatMap(xs[..|xs| - 1], f) + f(xs[|xs| - 1])
  }

  /** The concatenated sections of the non-null notes, in list order, before `strip()`. */
  function Combined(notes: seq<Option<Aggregate.Note>>, toUri: string -> string): string {
    ConcatMap(notes, x => Part(x, toUri))
  }

  /** `f"{base}_{i+1}_{safe_title}.{file_format}"`. */
  function FileName(base: string, i: nat, title: string, format: string): string {
    (base + "_") + (NatToDec(i + 1) + "_" + (SanitizeFilename(title) + "." + format))
  }

  /** The write for note `n` at list index `i` of a one-file-per-note export to `filepath`. */
  function NoteFile(filepath: string, i: nat, n: Aggregate.Note, format: string, toUri: string -> string): Write {
    var base := StripExt(Basename(filepath));
    Write(JoinPath(Dirname(filepath), FileName(base, i, n.title, format)),
          "# " + n.title + "\n\n" + PreprocessImages(n.body, toUri), n.title)
  }

  /** `[f(i, x) for i, x in enumerate(xs) if x]`: the index counts the skipped entries too. */
  function Enumerated<T, W>(xs: seq<Option<T>>, f: (nat, T) -> W): seq<W>
    decreases |xs|
  {
    if |xs| == 0 then []
    else
      var i := |xs| - 1;
      Enumerated(xs[..i], f) + (if xs[i].Some? then [f(i, xs[i].value)] else [])
  }

  /** `NoteFile` with the export's target and format fixed. */
  function NoteFiler(filepath: string, format: string, toUri: string -> string): (nat, Aggregate.Note) -> Write {
    (i: nat, n: Aggregate.Note) => NoteFile(filepath, i, n, format, toUri)
  }

  /** The writes of a one-file-per-note export, for the non-null entries in list order. */
  function MultiPlan(filepath: string, notes: seq<Option<Aggregate.Note>>, format: string, toUri: string -> string): seq<Write> {
    Enumerated(notes, NoteFiler(filepath, format, toUri))
  }

  /** The single-file branch of `export_notes_to_file`. */
  method SingleFileExport(filepath: string, notes: seq<Option<Aggregate.Note>>, toUri: string -> string) returns (w: Write)
    ensures w == Write(filepath, Strip(Combined(notes, toUri)), "CyberNotes Export")
  {
    var combined := "";
    for k := 0 to |notes|
      invariant combined == Combined(notes[..k], toUri)
    {
      assert notes[..k + 1][..k] == notes[..k];
      if notes[k].Some? {
        combined := combined + Section(notes[k].value, toUri);
      }
      assert combined == Combined(notes[..k], toUri) + Part(notes[k], toUri);
    }
    assert notes[..|notes|] == notes;
    w := Write(filepath, Strip(combined), "CyberNotes Export");
  }

  /** The one-file-per-note branch of `export_notes_to_file`. */
  method MultiFileExport(filepath: string, notes: seq<Option<Aggregate.Note>>, format: string, toUri: string -> string)
    returns (writes: seq<Write>)
    ensures writes == MultiPlan(filepath, notes, format, toUri)
  {
    writes := [];
    for i := 0 to |notes|
      invariant writes == MultiPlan(filepath, notes[..i], format, toUri)
    {
      assert notes[..i + 1][..i] == notes[..i];
      if notes[i].Some? {
        writes := writes + [NoteFile(filepath, i, notes[i].value, format, toUri)];
      }
      assert writes == MultiPlan(filepath, notes[..i], format, toUri)
        + (if notes[i].Some? then [NoteFiler(filepath, format, toUri)(i, notes[i].value)] else []);
    }
    assert notes[..|notes|] == notes;
  }

  /** `export_notes_to_file`: the writes it makes, in order. */
  method ExportNotesToFile(filepath: string, notes: seq<Option<Aggregate.Note>>, format: string, singleFile: bool,
                           toUri: string -> string) returns (writes: seq<Write>)
    ensures singleFile ==> writes == [Write(filepath, Strip(Combined(notes, toUri)), "CyberNotes Export")]
    ensures !singleFile ==> writes == MultiPlan(filepath, notes, format, toUri)
  {
    if singleFile {
      var w := SingleFileExport(filepath, notes, toUri);
      writes := [w];
    } else {
      writes := MultiFileExport(filepath, notes, format, toUri);
    }
  }

  // ---------------------------------------------------------------- lemmas

  /** A sanitised name has no `" - "` in it. */
  lemma SanitizedHasNoSeparator(r: string)
    requires forall k | 0 <= k < |r| :: SafeChar(r[k])
    ensures LastSegment(r) == r
  {
    forall j | 0 <= j <= |r| - 3
      ensures !OccursAt(r, " - ", j)
    {
      assert r[j..j + 3][0] == r[j] != ' ';
    }
    assert Find(r, " - ").None?;
  }

  /** Sanitising twice is sanitising once. */
  lemma SanitizeIdempotent(name: string)
    ensures SanitizeFilename(SanitizeFilename(name)) == SanitizeFilename(name)
  {
    var r := SanitizeFilename(name);
    SanitizedHasNoSeparator(r);
  }

  /** The scan copies text with no `![` in it unchanged. */
  lemma {:induction false} SubFromNoImage(s: string, p: nat, toUri: string -> string)
    requires p <= |s|
    requires forall j | p <= j :: !OccursAt(s, "![", j)
    ensures SubFrom(s, p, toUri) == s[p..]
    decreases |s| - p
  {
    if p < |s| {
      SubFromNoImage(s, p + 1, toUri);
      assert s[p..] == [s[p]] + s[p + 1..];
    }
  }

  /** A note body without any `![` is exported as it is. */
  lemma NoImageUnchanged(s: string, toUri: string -> string)
    requires !Contains(s, "![")
    ensures PreprocessImages(s, toUri) == s
  {
    SubFromNoImage(s, 0, toUri);
  }

  /**
   * Scanning from the end of `pre`, over text without a newline and without
   * the first character of `pat`, finds `pat` right after that text.
   */
  lemma LineFindAfter(pre: string, mid: string, pat: string, rest: string)
    requires |pat| > 0 && pat[0] != '\n'
    requires '\n' !in mid && pat[0] !in mid
    ensures LineFind(pre + mid + pat + rest, pat, |pre|) == Some(|pre| + |mid|)
  {
    var s := pre + mid + pat + rest;
    var e := |pre| + |mid|;
    forall k | |pre| <= k < e
      ensures s[k] != '\n' && !OccursAt(s, pat, k)
    {
      assert s[k] == mid[k - |pre|];
      assert k + |pat| <= |s| ==> s[k..k + |pat|][0] == s[k];
    }
    assert s[e..e + |pat|] == pat;
    var r := LineFind(s, pat, |pre|);
    assert OccursAt(s, pat, e);
    assert r.Some?;
    assert r.value == e;
  }

  /**
   * A body that is one image link, with no `]` in the alt text and neither
   * newline nor `)` in the path, comes out as the replacer's rewriting of
   * that link: a web link is kept as it is, a `file:///` link loses
   * `file://`.
   */
  lemma SingleImage(alt: string, path: string, toUri: string -> string)
    requires ']' !in alt && '\n' !in alt
    requires ')' !in path && '\n' !in path
    ensures PreprocessImages(Image(alt, path), toUri) == ReplaceLink(alt, path, toUri)
  {
    var s := Image(alt, path);
    ImageMatches(alt, path);
    assert SubFrom(s, |s|, toUri) == "";
  }

  /** The pattern matches a whole image link with such groups at its start. */
  lemma ImageMatches(alt: string, path: string)
    requires ']' !in alt && '\n' !in alt
    requires ')' !in path && '\n' !in path
    ensures MatchAt(Image(alt, path), 0) == Some(ImageMatch(alt, path, |Image(alt, path)|))
  {
    var s := Image(alt, path);
    ImageAltEnds(alt, path);
    ImagePathEnds(alt, path);
    ImageGroups(alt, path);
    MatchAtOf(s, 2 + |alt|, |s| - 1);
  }

  lemma ImageAltEnds(alt: string, path: string)
    requires ']' !in alt && '\n' !in alt
    ensures OccursAt(Image(alt, path), "![", 0)
    ensures LineFind(Image(alt, path), "](", 2) == Some(2 + |alt|)
  {
    var s := Image(alt, path);
    assert s[..2] == "![";
    LineFindAfter("![", alt, "](", path + ")");
    assert s == "![" + alt + "](" + (path + ")");
  }

  lemma ImagePathEnds(alt: string, path: string)
    requires ')' !in path && '\n' !in path
    ensures LineFind(Image(alt, path), ")", 4 + |alt|) == Some(|Image(alt, path)| - 1)
  {
    var pre := "![" + alt + "](";
    LineFindAfter(pre, path, ")", "");
    assert Image(alt, path) == pre + path + ")" + "";
  }

  lemma ImageGroups(alt: string, path: string)
    ensures var s := Image(alt, path);
      |s| == |alt| + |path| + 5 && s[2..2 + |alt|] == alt && s[4 + |alt|..|s| - 1] == path
  {
  }

  /** Where the three delimiters are found, the match runs from the first to just after the last. */
  lemma MatchAtOf(s: string, e: nat, c: nat)
    requires OccursAt(s, "![", 0)
    requires LineFind(s, "](", 2) == Some(e) && LineFind(s, ")", e + 2) == Some(c)
    ensures MatchAt(s, 0) == Some(ImageMatch(s[2..e], s[e + 2..c], c + 1))
  {
  }

  lemma {:induction false} ConcatMapAppend<T>(a: seq<T>, b: seq<T>, f: T -> string)
    ensures ConcatMap(a + b, f) == ConcatMap(a, f) + ConcatMap(b, f)
    decreases |b|
  {
    if |b| == 0 {
      assert a + b == a;
    } else {
      var b', x := b[..|b| - 1], b[|b| - 1];
      ConcatMapAppend(a, b', f);
      var ab := a + b;
      assert ab[..|ab| - 1] == a + b';
      assert ab[|ab| - 1] == x;
      assert ConcatMap(ab, f) == ConcatMap(a + b', f) + f(x);
      assert ConcatMap(b, f) == ConcatMap(b', f) + f(x);
      StringAssoc(ConcatMap(a, f), ConcatMap(b', f), f(x));
    }
  }

  /** Exporting two lists one after the other gives the two contents one after the other. */
  lemma CombinedAppend(a: seq<Option<Aggregate.Note>>, b: seq<Option<Aggregate.Note>>, toUri: string -> string)
    ensures Combined(a + b, toUri) == Combined(a, toUri) + Combined(b, toUri)
  {
    ConcatMapAppend(a, b, x => Part(x, toUri));
  }

  /** Null entries contribute nothing, and each note contributes its own section. */
  lemma CombinedOne(x: Option<Aggregate.Note>, toUri: string -> string)
    ensures x.None? ==> Combined([x], toUri) == ""
    ensures x.Some? ==> Combined([x], toUri) == Section(x.value, toUri)
  {
    assert [x][..0] == [];
    assert Combined([x], toUri) == ConcatMap([x][..0], y => Part(y, toUri)) + Part(x, toUri);
  }

  /** The file for list index `i` is named after `i + 1`, so different indices give different names. */
  lemma FileNameInjective(base: string, i: nat, j: nat, t1: string, t2: string, format: string)
    requires i != j
    ensures FileName(base, i, t1, format) != FileName(base, j, t2, format)
  {
    var pre := base + "_";
    var x := SanitizeFilename(t1) + "." + format;
    var y := SanitizeFilename(t2) + "." + format;
    var u := NatToDec(i + 1) + "_" + x;
    var v := NatToDec(j + 1) + "_" + y;
    if FileName(base, i, t1, format) == FileName(base, j, t2, format) {
      assert (pre + u)[|pre|..] == u && (pre + v)[|pre|..] == v;
      DecPrefixInjective(i + 1, j + 1, '_', x, y);
    }
  }

  /** Notes at different list indices are written to different paths. */
  lemma NoteFilePathsDiffer(filepath: string, i: nat, j: nat, n1: Aggregate.Note, n2: Aggregate.Note,
                            format: string, toUri: string -> string)
    requires i != j
    ensures NoteFile(filepath, i, n1, format, toUri).path != NoteFile(filepath, j, n2, format, toUri).path
  {
    var base := StripExt(Basename(filepath));
    var f1 := FileName(base, i, n1.title, format);
    var f2 := FileName(base, j, n2.title, format);
    FileNameInjective(base, i, j, n1.title, n2.title, format);
    assert |f1| > 0 && f1[0] != '/' by {
      if |base| > 0 {
        assert f1[0] == base[0];
        assert base[0] in Basename(filepath);
      } else {
        assert f1[0] == '_';
      }
    }
    assert |f2| > 0 && f2[0] != '/' by {
      if |base| > 0 {
        assert f2[0] == base[0];
        assert base[0] in Basename(filepath);
      } else {
        assert f2[0] == '_';
      }
    }
    JoinInjective(Dirname(filepath), f1, f2);
  }

  /** Every element of `Enumerated(xs, f)` is `f` of a non-null entry and its index. */
  lemma {:induction false} EnumeratedFrom<T, W>(xs: seq<Option<T>>, f: (nat, T) -> W, k: nat)
    requires k < |Enumerated(xs, f)|
    ensures exists i: nat | i < |xs| :: xs[i].Some? && Enumerated(xs, f)[k] == f(i, xs[i].value)
    decreases |xs|
  {
    var n := |xs| - 1;
    var pre := xs[..n];
    var p := Enumerated(pre, f);
    if k < |p| {
      EnumeratedFrom(pre, f, k);
      var i: nat :| i < |pre| && pre[i].Some? && p[k] == f(i, pre[i].value);
      assert xs[i] == pre[i];
    } else {
      assert Enumerated(xs, f)[k] == f(n, xs[n].value);
    }
  }

  /** Every non-null entry is in `Enumerated(xs, f)` under its own index. */
  lemma {:induction false} EnumeratedCovers<T, W>(xs: seq<Option<T>>, f: (nat, T) -> W, i: nat)
    requires i < |xs| && xs[i].Some?
    ensures f(i, xs[i].value) in Enumerated(xs, f)
    decreases |xs|
  {
    var n := |xs| - 1;
    if i < n {
      EnumeratedCovers(xs[..n], f, i);
      assert xs[..n][i] == xs[i];
    }
  }

  /** When `f` gives different keys at different indices, the elements of `Enumerated(xs, f)` have distinct keys. */
  lemma {:induction false} EnumeratedDistinct<T, W, K>(xs: seq<Option<T>>, f: (nat, T) -> W, key: W -> K)
    requires forall i: nat, j: nat, x: T, y: T | i != j :: key(f(i, x)) != key(f(j, y))
    ensures forall a, b | 0 <= a < b < |Enumerated(xs, f)| :: key(Enumerated(xs, f)[a]) != key(Enumerated(xs, f)[b])
    decreases |xs|
  {
    if |xs| > 0 {
      var n := |xs| - 1;
      var pre := xs[..n];
      var p := Enumerated(pre, f);
      var w := Enumerated(xs, f);
      EnumeratedDistinct(pre, f, key);
      if xs[n].Some? {
        assert w == p + [f(n, xs[n].value)];
        forall a, b | 0 <= a < b < |w|
          ensures key(w[a]) != key(w[b])
        {
          assert w[a] == p[a];
          if b < |p| {
            assert w[b] == p[b];
          } else {
            EnumeratedFrom(pre, f, a);
          }
        }
      } else {
        assert w == p;
      }
    }
  }

  /** No two writes go to the same path. */
  predicate DistinctPaths(w: seq<Write>) {
    forall a, b | 0 <= a < b < |w| :: w[a].path != w[b].path
  }

  /** No two files of a one-file-per-note export have the same path, so none overwrites another. */
  lemma MultiPlanDistinctPaths(filepath: string, notes: seq<Option<Aggregate.Note>>, format: string,
                               toUri: string -> string)
    ensures DistinctPaths(MultiPlan(filepath, notes, format, toUri))
  {
    var f := NoteFiler(filepath, format, toUri);
    var key := (w: Write) => w.path;
    forall i: nat, j: nat, x: Aggregate.Note, y: Aggregate.Note | i != j
      ensures key(f(i, x)) != key(f(j, y))
    {
      NoteFilePathsDiffer(filepath, i, j, x, y, format, toUri);
    }
    EnumeratedDistinct(notes, f, key);
  }

  /** Every non-null entry at list index `i` gets its file, named after `i + 1`. */
  lemma MultiPlanCovers(filepath: string, notes: seq<Option<Aggregate.Note>>, format: string,
                        toUri: string -> string, i: nat)
    requires i < |notes| && notes[i].Some?
    ensures NoteFile(filepath, i, notes[i].value, format, toUri) in MultiPlan(filepath, notes, format, toUri)
  {
    EnumeratedCovers(notes, NoteFiler(filepath, format, toUri), i);
  }

  /** Every write of a one-file-per-note export is the file of a non-null entry, under that entry's index. */
  lemma MultiPlanFrom(filepath: string, notes: seq<Option<Aggregate.Note>>, format: string,
                      toUri: string -> string, k: nat)
    requires k < |MultiPlan(filepath, notes, format, toUri)|
    ensures exists i: nat | i < |notes| ::
      (notes[i].Some? && MultiPlan(filepath, notes, format, toUri)[k] == NoteFile(filepath, i, notes[i].value, format, toUri))
  {
    var f := NoteFiler(filepath, format, toUri);
    EnumeratedFrom(notes, f, k);
    var i: nat :| i < |notes| && notes[i].Some? && Enumerated(notes, f)[k] == f(i, notes[i].value);
  }
}
