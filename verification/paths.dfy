/**
  Path strings and the string operations pynocle/utils.py uses on them:
  `os.path.join`, `os.path.split` and `os.path.splitext` (posixpath semantics,
  with the separator as a parameter where the source uses `os.sep`),
  `str.replace`, `str.strip`, and the two utilities built from them,
  `splitpath_root_file_ext` and `prettify_path`.
 */
module Paths {
  import opened Wrappers

  /** A path is a plain string. */
  type Path = string

  /** The POSIX separator, `posixpath.sep`. */
  const PosixSep: char := '/'

  /** The extension separator, `os.extsep`. */
  const ExtSep: char := '.'

  predicate IsPrefix(a: string, b: string) {
    |a| <= |b| && b[..|a|] == a
  }

  predicate IsSuffix(a: string, b: string) {
    |a| <= |b| && b[|b| - |a|..] == a
  }

  predicate AllAre(s: string, c: char) {
    forall i :: 0 <= i < |s| ==> s[i] == c
  }

  /** `pat` occurs in `s` at index `i`. */
  predicate OccursAt(pat: string, s: string, i: int) {
    0 <= i && i + |pat| <= |s| && s[i..i + |pat|] == pat
  }

  /** `pat` occurs somewhere in `s`. */
  predicate Occurs(pat: string, s: string) {
    exists i :: 0 <= i <= |s| && OccursAt(pat, s, i)
  }

  /** `str.rfind` for one character: the last index of `c` in `s`, or -1. */
  function RFind(s: string, c: char): (i: int)
    ensures -1 <= i < |s|
    ensures 0 <= i ==> s[i] == c
    ensures forall j :: i < j < |s| ==> s[j] != c
  {
    if |s| == 0 then -1
    else if s[|s| - 1] == c then |s| - 1
    else RFind(s[..|s| - 1], c)
  }

  /** The text after the last `sep`: the base name. */
  function LastComponent(p: Path, sep: char): (c: Path)
    ensures sep !in c
    ensures IsSuffix(c, p)
    ensures |c| < |p| ==> p[|p| - |c| - 1] == sep
  {
    p[RFind(p, sep) + 1..]
  }

  // ---------------------------------------------------------------------------
  // str.strip with a one-character argument

  /** `s.rstrip(c)`. */
  function RStrip(s: string, c: char): (r: string)
    ensures IsPrefix(r, s) && AllAre(s[|r|..], c)
    ensures r == [] || r[|r| - 1] != c
  {
    if |s| > 0 && s[|s| - 1] == c then RStrip(s[..|s| - 1], c) else s
  }

  /** `s.lstrip(c)`. */
  function LStrip(s: string, c: char): (r: string)
    ensures IsSuffix(r, s) && AllAre(s[..|s| - |r|], c)
    ensures r == [] || r[0] != c
  {
    if |s| > 0 && s[0] == c then
      var r := LStrip(s[1..], c);
      assert s[1..][..|s| - 1 - |r|] == s[1..|s| - |r|];
      r
    else s
  }

  /** `r` is a slice of `s` with only copies of `c` before and after it. */
  predicate SliceBetweenRuns(r: string, s: string, c: char) {
    exists i :: 0 <= i <= i + |r| <= |s| && r == s[i..i + |r|]
                && AllAre(s[..i], c) && AllAre(s[i + |r|..], c)
  }

  /** `s.strip(c)`: `s` without the runs of `c` at either end. */
  function Strip(s: string, c: char): (r: string)
    ensures SliceBetweenRuns(r, s, c)
    ensures r == [] || (r[0] != c && r[|r| - 1] != c)
    ensures forall x :: x in r ==> x in s
  {
    var t := RStrip(s, c);
    var r := LStrip(t, c);
    StripParts(s, t, r, c);
    r
  }

  /** Cutting a run of `c` off the end of `s`, and then one off the start of
      what is left, cuts a slice out of `s`. */
  lemma StripParts(s: string, t: string, r: string, c: char)
    requires IsPrefix(t, s) && AllAre(s[|t|..], c) && (t == [] || t[|t| - 1] != c)
    requires IsSuffix(r, t) && AllAre(t[..|t| - |r|], c)
    ensures SliceBetweenRuns(r, s, c)
    ensures r == [] || r[|r| - 1] != c
    ensures forall x :: x in r ==> x in s
  {
    var i := |t| - |r|;
    assert t == s[..|t|];
    assert r == s[i..i + |r|];
    assert s[..i] == t[..i];
    assert s[i + |r|..] == s[|t|..];
    assert r != [] ==> r[|r| - 1] == t[|t| - 1];
    forall x | x in r ensures x in s {
      var k :| 0 <= k < |r| && r[k] == x;
      assert s[i + k] == x;
    }
  }

  // ---------------------------------------------------------------------------
  // str.replace

  /** `s.replace(pat, repl)` for a non-empty `pat`: the occurrences of `pat`
      are found left to right without overlapping, and each is replaced. */
  function ReplaceAll(s: string, pat: string, repl: string): (r: string)
    requires pat != []
    decreases |s|
  {
    if |s| < |pat| then s
    else if s[..|pat|] == pat then repl + ReplaceAll(s[|pat|..], pat, repl)
    else [s[0]] + ReplaceAll(s[1..], pat, repl)
  }

  /** `s.replace(pat, '')`, including Python's rule that an empty `pat`
      leaves `s` as it is when the replacement is empty too. */
  function RemoveAll(s: string, pat: string): string {
    if pat == [] then s else ReplaceAll(s, pat, [])
  }

  /** Replacing one character by another rewrites exactly the positions that
      held it. */
  lemma {:induction false} ReplaceChar(s: string, a: char, b: char)
    ensures |ReplaceAll(s, [a], [b])| == |s|
    ensures forall i :: 0 <= i < |s| ==>
              ReplaceAll(s, [a], [b])[i] == if s[i] == a then b else s[i]
    decreases |s|
  {
    if |s| > 0 {
      ReplaceChar(s[1..], a, b);
      assert s[..1] == [a] <==> s[0] == a;
      var r := ReplaceAll(s, [a], [b]);
      assert r == [if s[0] == a then b else s[0]] + ReplaceAll(s[1..], [a], [b]);
    }
  }

  /** `pat` occurs in `s` after its first character exactly where it occurs
      in `s[1..]`, one place further on. */
  lemma OccursShift(pat: string, s: string, i: int)
    requires s != [] && 0 <= i
    ensures OccursAt(pat, s[1..], i) <==> OccursAt(pat, s, i + 1)
  {
    if i + |pat| <= |s| - 1 {
      assert s[1..][i..i + |pat|] == s[i + 1..i + 1 + |pat|];
    }
  }

  /** When `pat` does not occur, replacing it changes nothing. */
  lemma {:induction false} ReplaceAbsent(s: string, pat: string, repl: string)
    requires pat != [] && !Occurs(pat, s)
    ensures ReplaceAll(s, pat, repl) == s
    decreases |s|
  {
    if |s| >= |pat| {
      assert s[0..0 + |pat|] == s[..|pat|];
      assert !OccursAt(pat, s, 0);
      assert !Occurs(pat, s[1..]) by {
        forall i | 0 <= i <= |s[1..]| && OccursAt(pat, s[1..], i)
          ensures false
        {
          OccursShift(pat, s, i);
        }
      }
      ReplaceAbsent(s[1..], pat, repl);
    }
  }

  /** Removing occurrences only deletes characters: the result is no longer
      than `s` and every character of it comes from `s`. */
  lemma {:induction false} RemoveOnlyDeletes(s: string, pat: string)
    requires pat != []
    ensures |ReplaceAll(s, pat, [])| <= |s|
    ensures forall c :: c in ReplaceAll(s, pat, []) ==> c in s
    decreases |s|
  {
    if |s| >= |pat| {
      if s[..|pat|] == pat {
        RemoveOnlyDeletes(s[|pat|..], pat);
        assert forall c :: c in s[|pat|..] ==> c in s;
      } else {
        RemoveOnlyDeletes(s[1..], pat);
        assert forall c :: c in s[1..] ==> c in s;
      }
    }
  }

  // ---------------------------------------------------------------------------
  // os.path.join, os.path.split, os.path.splitext

  /** `posixpath.join(a, b)`: an absolute `b` replaces `a`; otherwise `a`,
      then a separator unless `a` is empty or already ends in one, then `b`. */
  function Join(a: Path, b: Path): (r: Path)
    ensures |b| > 0 && b[0] == PosixSep ==> r == b
    ensures !(|b| > 0 && b[0] == PosixSep) ==>
              && IsPrefix(a, r) && IsSuffix(b, r)
              && |r| == |a| + |b| + (if a == [] || a[|a| - 1] == PosixSep then 0 else 1)
    ensures !(|b| > 0 && b[0] == PosixSep) && a != [] && a[|a| - 1] != PosixSep ==>
              |a| < |r| && r[|a|] == PosixSep
    ensures !(|b| > 0 && b[0] == PosixSep) && a != [] && |b| > 0 ==>
              |a| < |r| && r[|r| - |b| - 1] == PosixSep
  {
    if |b| > 0 && b[0] == PosixSep then b
    else if a == [] || a[|a| - 1] == PosixSep then a + b
    else a + [PosixSep] + b
  }

  /** Joining a fixed directory with different names gives different paths. */
  lemma JoinInjective(a: Path, b1: Path, b2: Path)
    requires PosixSep !in b1 && PosixSep !in b2
    requires Join(a, b1) == Join(a, b2)
    ensures b1 == b2
  {
    var p := Join(a, b1);
    var pre := if a == [] || a[|a| - 1] == PosixSep then a else a + [PosixSep];
    assert p == pre + b1;
    assert p == pre + b2;
    assert b1 == p[|pre|..] == b2;
  }

  /** `posixpath.split(p)`: the tail is the text after the last '/', the head
      the text before it, trailing slashes removed unless the head is only
      slashes. */
  function Split(p: Path): (r: (Path, Path))
    ensures r.1 == LastComponent(p, PosixSep)
    ensures IsPrefix(r.0, p) && |r.0| + |r.1| <= |p|
    ensures AllAre(p[|r.0|..|p| - |r.1|], PosixSep)
    ensures r.0 == [] || r.0[|r.0| - 1] != PosixSep || AllAre(r.0, PosixSep)
    ensures AllAre(p[..|p| - |r.1|], PosixSep) ==> r.0 == p[..|p| - |r.1|]
  {
    var i := RFind(p, PosixSep) + 1;
    var head, tail := p[..i], p[i..];
    if head != [] && !AllAre(head, PosixSep) then
      var h := RStrip(head, PosixSep);
      assert p[|h|..|p| - |tail|] == head[|h|..];
      (h, tail)
    else
      (head, tail)
  }

  /** Splitting a joined path recovers both parts when the directory does not
      end in a separator and the name is a plain base name. */
  lemma SplitJoin(a: Path, b: Path)
    requires b != [] && PosixSep !in b
    requires a == [] || a[|a| - 1] != PosixSep
    ensures Split(Join(a, b)) == (a, b)
  {
    var p := Join(a, b);
    var c := LastComponent(p, PosixSep);
    if a == [] {
      assert p == b;
      assert RFind(p, PosixSep) == -1;
    } else {
      assert p == a + [PosixSep] + b;
      assert RFind(p, PosixSep) == |a|;
      assert p[..|a| + 1] == a + [PosixSep];
      assert !AllAre(a + [PosixSep], PosixSep);
      assert RStrip(a + [PosixSep], PosixSep) == RStrip(a, PosixSep) == a;
    }
  }

  /** `e` has the shape of an extension: one dot followed by characters that
      are neither a dot nor the separator. */
  predicate IsExtension(e: string, sep: char) {
    |e| > 0 && e[0] == ExtSep && forall j :: 1 <= j < |e| ==> e[j] != ExtSep && e[j] != sep
  }

  /** A base name has an extension when a dot follows some character that is
      not a dot; leading dots alone never start one. */
  predicate HasExtension(name: string) {
    exists k, i :: 0 <= k < i < |name| && name[k] != ExtSep && name[i] == ExtSep
  }

  /** `os.path.splitext(p)` (genericpath._splitext with no alternate
      separator): the extension starts at the last dot of the base name,
      unless every character before that dot in the base name is a dot. */
  function SplitExt(p: Path, sep: char): (r: (Path, Path))
    ensures r.0 + r.1 == p
    ensures r.1 == [] || IsExtension(r.1, sep)
    ensures r.1 != [] <==> HasExtension(LastComponent(p, sep))
  {
    ExtensionIndices(p, sep);
    if DotAfterStem(p, sep) then
      var dotIndex := RFind(p, ExtSep);
      ExtensionAfterLastDot(p, sep);
      SliceSplit(p, dotIndex);
      (p[..dotIndex], p[dotIndex..])
    else
      (p, [])
  }

  /** The test `splitext` performs on indices: the last dot comes after the
      last separator and some character between them is not a dot. */
  predicate DotAfterStem(p: Path, sep: char) {
    var sepIndex, dotIndex := RFind(p, sep), RFind(p, ExtSep);
    dotIndex > sepIndex && exists k :: sepIndex + 1 <= k < dotIndex && p[k] != ExtSep
  }

  /** The text from the last dot on, when that dot follows the last
      separator, has the shape of an extension. */
  lemma ExtensionAfterLastDot(p: Path, sep: char)
    requires DotAfterStem(p, sep)
    ensures 0 <= RFind(p, ExtSep) && IsExtension(p[RFind(p, ExtSep)..], sep)
  {
    var sepIndex, dotIndex := RFind(p, sep), RFind(p, ExtSep);
    assert sepIndex < dotIndex;
    var e := p[dotIndex..];
    assert |e| == |p| - dotIndex && e[0] == p[dotIndex];
    forall j | 1 <= j < |e| ensures e[j] != ExtSep && e[j] != sep {
      assert e[j] == p[dotIndex + j];
      assert dotIndex < dotIndex + j < |p|;
    }
  }

  /** The test `splitext` performs on indices agrees with `HasExtension` on
      the base name. */
  lemma ExtensionIndices(p: Path, sep: char)
    ensures DotAfterStem(p, sep) <==> HasExtension(LastComponent(p, sep))
  {
    if DotAfterStem(p, sep) {
      IndicesGiveExtension(p, sep);
    }
    if HasExtension(LastComponent(p, sep)) {
      ExtensionGivesIndices(p, sep);
    }
  }

  lemma IndicesGiveExtension(p: Path, sep: char)
    requires DotAfterStem(p, sep)
    ensures HasExtension(LastComponent(p, sep))
  {
    var sepIndex, dotIndex := RFind(p, sep), RFind(p, ExtSep);
    var k :| sepIndex + 1 <= k < dotIndex && p[k] != ExtSep;
    assert LastComponent(p, sep) == p[sepIndex + 1..];
    SliceHasExtension(p, sepIndex + 1, k, dotIndex);
  }

  lemma ExtensionGivesIndices(p: Path, sep: char)
    requires HasExtension(LastComponent(p, sep))
    ensures DotAfterStem(p, sep)
  {
    var sepIndex, dotIndex := RFind(p, sep), RFind(p, ExtSep);
    assert LastComponent(p, sep) == p[sepIndex + 1..];
    var k, i := SliceExtensionIndices(p, sepIndex + 1);
    assert dotIndex >= i;
  }

  /** A non-dot at `k` and a dot at `d` after it, both in `p[a..]`, give that
      slice an extension. */
  lemma SliceHasExtension(p: Path, a: int, k: int, d: int)
    requires 0 <= a <= k < d < |p| && p[k] != ExtSep && p[d] == ExtSep
    ensures HasExtension(p[a..])
  {
    var c := p[a..];
    assert c[k - a] == p[k] && c[d - a] == p[d];
  }

  /** Where the characters that give `p[a..]` an extension sit in `p`. */
  lemma SliceExtensionIndices(p: Path, a: int) returns (k: int, i: int)
    requires 0 <= a <= |p| && HasExtension(p[a..])
    ensures a <= k < i < |p| && p[k] != ExtSep && p[i] == ExtSep
  {
    var c := p[a..];
    var k', i' :| 0 <= k' < i' < |c| && c[k'] != ExtSep && c[i'] == ExtSep;
    k, i := a + k', a + i';
    assert p[k] == c[k'] && p[i] == c[i'];
  }

  lemma SliceSplit(p: Path, i: int)
    requires 0 <= i <= |p|
    ensures p[..i] + p[i..] == p
  {
  }

  /** The base name is the only suffix without a separator that is either the
      whole path or follows a separator. */
  lemma LastComponentUnique(p: Path, c: Path, sep: char)
    requires sep !in c && IsSuffix(c, p) && (|c| == |p| || p[|p| - |c| - 1] == sep)
    ensures c == LastComponent(p, sep)
  {
    var d := LastComponent(p, sep);
    if |c| < |d| {
      assert false;
    } else if |d| < |c| {
      assert false;
    }
    assert c == p[|p| - |c|..] == d;
  }

  /** The base name of a base name is itself. */
  lemma BaseOfBase(p: Path, sep: char)
    ensures LastComponent(LastComponent(p, sep), sep) == LastComponent(p, sep)
  {
    var c := LastComponent(p, sep);
    assert c[|c| - |c|..] == c;
    LastComponentUnique(c, c, sep);
  }

  /** The stem `splitext` returns holds only characters of the path. */
  lemma StemKeeps(p: Path, sep: char)
    ensures forall c :: c in SplitExt(p, sep).0 ==> c in p
  {
    var s := SplitExt(p, sep).0;
    assert s == p[..|s|];
  }

  // ---------------------------------------------------------------------------
  // splitpath_root_file_ext

  /** `splitpath_root_file_ext(path)`: the head of the path, the base name
      without its extension, and the extension. */
  function SplitPathRootFileExt(p: Path): (r: (Path, Path, Path))
    ensures r.1 + r.2 == LastComponent(p, PosixSep)
    ensures PosixSep !in r.1 + r.2
    ensures r.2 == [] || IsExtension(r.2, PosixSep)
    ensures r.2 != [] <==> HasExtension(r.1 + r.2)
    ensures r.0 == Split(p).0
  {
    var (head, tail) := Split(p);
    var (filename, ext) := SplitExt(tail, PosixSep);
    BaseOfBase(p, PosixSep);
    (head, filename, ext)
  }

  // ---------------------------------------------------------------------------
  // prettify_path

  /** The error `prettify_path` raises: `str.replace(None, os.sep)` fails with
      a TypeError on hosts without an alternate separator. */
  datatype PrettifyError = NoAltSep

  /** `s.replace(altsep, sep)`: every alternate separator becomes `sep`,
      every other character stays where it was. */
  function NormalizeSeps(s: Path, alt: char, sep: char): (r: Path)
    ensures |r| == |s|
    ensures forall i :: 0 <= i < |s| ==> r[i] == if s[i] == alt then sep else s[i]
    ensures alt != sep ==> alt !in r
  {
    ReplaceChar(s, alt, sep);
    ReplaceAll(s, [alt], [sep])
  }

  /** Lines 168-169: when `s` starts with `lead`, that occurrence is deleted
      and so is every later one, since `str.replace` deletes them all. */
  function RemoveLeading(s: Path, lead: Path): (r: Path)
    ensures !IsPrefix(lead, s) || lead == [] ==> r == s
    ensures IsPrefix(lead, s) && lead != [] ==> r == ReplaceAll(s[|lead|..], lead, [])
    ensures |r| <= |s| && forall c :: c in r ==> c in s
  {
    if !IsPrefix(lead, s) || lead == [] then s
    else
      RemoveOnlyDeletes(s, lead);
      assert s[..|lead|] == lead;
      RemoveAll(s, lead)
  }

  /** Lines 167-170 on a path whose separators are already normalised: the
      extension is dropped, `lead` is removed as `RemoveLeading` does, and
      separators are stripped from both ends. */
  function Prettify(normal: Path, lead: Path, sep: char): (r: Path)
    ensures r == [] || (r[0] != sep && r[|r| - 1] != sep)
    ensures forall c :: c in r ==> c in normal
  {
    StemKeeps(normal, sep);
    Strip(RemoveLeading(SplitExt(normal, sep).0, lead), sep)
  }

  /** `prettify_path(path, leading)` on a host whose separator is `sep` and
      whose alternate separator is `altsep` (`os.altsep`). An empty `leading`
      stands for Python's `None` and falls back to `cwd`, the working
      directory. */
  function PrettifyPath(path: Path, leading: Path, cwd: Path, sep: char, altsep: Option<char>)
    : (r: Result<Path, PrettifyError>)
    ensures r.Failure? <==> altsep.None?
    ensures r.Success? ==> r.value == [] || (r.value[0] != sep && r.value[|r.value| - 1] != sep)
    ensures r.Success? && altsep.value != sep ==> altsep.value !in r.value
  {
    match altsep
    case None => Failure(NoAltSep)
    case Some(alt) =>
      var lead := NormalizeSeps(if leading == [] then cwd else leading, alt, sep);
      Success(Prettify(NormalizeSeps(path, alt, sep), lead, sep))
  }
}

module PathsLemmas {
  import opened Wrappers
  import opened Paths

  /** Normalising a string that holds no alternate separator changes nothing. */
  lemma NormalizeAbsent(s: Path, alt: char, sep: char)
    requires alt !in s
    ensures NormalizeSeps(s, alt, sep) == s
  {
    var r := NormalizeSeps(s, alt, sep);
    assert forall i :: 0 <= i < |s| ==> r[i] == s[i];
  }

  /** Below a separator, the base name of a path is that of the part after it. */
  lemma LastComponentBelow(x: Path, b: Path, sep: char)
    ensures LastComponent(x + [sep] + b, sep) == LastComponent(b, sep)
  {
    var p := x + [sep] + b;
    var c := LastComponent(b, sep);
    assert p[|p| - |c|..] == b[|b| - |c|..];
    if |c| == |b| {
      assert p[|p| - |c| - 1] == sep;
    } else {
      assert p[|p| - |c| - 1] == b[|b| - |c| - 1];
    }
    LastComponentUnique(p, c, sep);
  }

  /** Text without a separator appended to a path extends its base name. */
  lemma LastComponentExtend(a: Path, e: Path, sep: char)
    requires sep !in e
    ensures LastComponent(a + e, sep) == LastComponent(a, sep) + e
  {
    var p := a + e;
    var d := LastComponent(a, sep);
    var c := d + e;
    assert p[|p| - |c|..] == a[|a| - |d|..] + e;
    if |d| < |a| {
      assert p[|p| - |c| - 1] == a[|a| - |d| - 1];
    }
    LastComponentUnique(p, c, sep);
  }

  /** A string has at most one suffix with the shape of an extension. */
  lemma ExtensionSuffixUnique(p: Path, e1: Path, e2: Path, sep: char)
    requires IsExtension(e1, sep) && IsExtension(e2, sep)
    requires IsSuffix(e1, p) && IsSuffix(e2, p)
    ensures e1 == e2
  {
  }

  /** The base name holds a character that is not a dot, so a dot after that
      character starts an extension. */
  predicate HasStem(name: Path) {
    exists k :: 0 <= k < |name| && name[k] != ExtSep
  }

  /** `ext` is what `splitext` finds at the end of `base + ext`: nothing, when
      the base name of `base` has no extension, or an extension following a
      base name that has a character other than a dot. Dots elsewhere in
      `base` play no part. */
  predicate EndsInExt(base: Path, ext: Path, sep: char) {
    if ext == [] then !HasExtension(LastComponent(base, sep))
    else IsExtension(ext, sep) && HasStem(LastComponent(base, sep))
  }

  /** `splitext` splits `base + ext` exactly between the two whenever
      `EndsInExt` holds, whatever dots `base` contains. */
  lemma SplitExtOf(base: Path, ext: Path, sep: char)
    requires sep != ExtSep && EndsInExt(base, ext, sep)
    ensures SplitExt(base + ext, sep) == (base, ext)
  {
    if ext == [] {
      SplitExtNone(base, sep);
    } else {
      SplitExtSome(base, ext, sep);
    }
  }

  lemma SplitExtNone(base: Path, sep: char)
    requires !HasExtension(LastComponent(base, sep))
    ensures SplitExt(base + [], sep) == (base, [])
  {
    assert base + [] == base;
    var r := SplitExt(base, sep);
    assert r.0 == r.0 + r.1;
  }

  lemma SplitExtSome(base: Path, ext: Path, sep: char)
    requires sep != ExtSep && IsExtension(ext, sep) && HasStem(LastComponent(base, sep))
    ensures SplitExt(base + ext, sep) == (base, ext)
  {
    ExtensionHasNoSep(ext, sep);
    LastComponentExtend(base, ext, sep);
    StemThenExtension(LastComponent(base, sep), ext);
    var r := SplitExt(base + ext, sep);
    SuffixOfHalves(r.0, r.1, base, ext);
    ExtensionSuffixUnique(base + ext, r.1, ext, sep);
  }

  lemma ExtensionHasNoSep(ext: Path, sep: char)
    requires IsExtension(ext, sep) && sep != ExtSep
    ensures sep !in ext
  {
    assert forall j :: 0 <= j < |ext| ==> ext[j] != sep;
  }

  /** A name with a stem followed by a dot has an extension. */
  lemma StemThenExtension(d: Path, ext: Path)
    requires HasStem(d) && ext != [] && ext[0] == ExtSep
    ensures HasExtension(d + ext)
  {
    var name := d + ext;
    var k :| 0 <= k < |d| && d[k] != ExtSep;
    assert name[k] != ExtSep && name[|d|] == ExtSep;
  }

  /** Two ways of cutting the same string: the second halves are suffixes, and
      equal second halves give equal first halves. */
  lemma SuffixOfHalves(a: Path, b: Path, c: Path, d: Path)
    requires a + b == c + d
    ensures IsSuffix(b, a + b) && IsSuffix(d, a + b)
    ensures b == d ==> a == c
  {
    var p := a + b;
    assert p[|p| - |b|..] == b;
    assert p[|p| - |d|..] == (c + d)[|c|..] == d;
    if b == d {
      assert a == p[..|a|] == (c + d)[..|c|] == c;
    }
  }

  /** No occurrence of `pat` in `s` starts before index `n`. */
  predicate NoMatchBefore(pat: Path, s: Path, n: int) {
    forall i :: 0 <= i < n ==> !OccursAt(pat, s, i)
  }

  /** `str.replace` copies a stretch in which no occurrence starts. */
  lemma {:induction false} ReplaceAllSkip(x: Path, y: Path, pat: Path, repl: Path)
    requires pat != [] && NoMatchBefore(pat, x + y, |x|)
    ensures ReplaceAll(x + y, pat, repl) == x + ReplaceAll(y, pat, repl)
    decreases |x|
  {
    var s := x + y;
    if x != [] && |s| < |pat| {
      assert ReplaceAll(y, pat, repl) == y;
    } else if x != [] {
      assert !OccursAt(pat, s, 0);
      assert s[0..0 + |pat|] == s[..|pat|];
      assert s[1..] == x[1..] + y;
      assert NoMatchBefore(pat, x[1..] + y, |x| - 1) by {
        forall i | 0 <= i < |x| - 1 ensures !OccursAt(pat, x[1..] + y, i) {
          OccursShift(pat, s, i);
        }
      }
      ReplaceAllSkip(x[1..], y, pat, repl);
      assert ReplaceAll(s, pat, repl) == [s[0]] + ReplaceAll(s[1..], pat, repl);
      assert [x[0]] + (x[1..] + ReplaceAll(y, pat, repl)) == x + ReplaceAll(y, pat, repl);
    } else {
      assert s == y;
    }
  }

  /** Stripping separators from a separator followed by a path that neither
      starts nor ends with one leaves that path. */
  lemma StripOneSep(sep: char, rel: Path)
    requires rel != [] && rel[0] != sep && rel[|rel| - 1] != sep
    ensures Strip([sep] + rel, sep) == rel
  {
    var t := [sep] + rel;
    assert RStrip(t, sep) == t;
    assert t[1..] == rel;
    assert LStrip(rel, sep) == rel;
  }

  /** `str.replace` replaces an occurrence at the start and carries on after it. */
  lemma ReplaceAllMatch(pat: Path, rest: Path, repl: Path)
    requires pat != []
    ensures ReplaceAll(pat + rest, pat, repl) == repl + ReplaceAll(rest, pat, repl)
  {
    var s := pat + rest;
    assert s[..|pat|] == pat;
    assert s[|pat|..] == rest;
  }

  /** When `s` starts with `lead`, at least that leading occurrence is gone. */
  lemma RemoveLeadingShortens(s: Path, lead: Path)
    requires lead != [] && IsPrefix(lead, s)
    ensures |RemoveLeading(s, lead)| <= |s| - |lead|
  {
    RemoveOnlyDeletes(s[|lead|..], lead);
  }

  /** A path with no occurrence of `leading` after its start loses exactly
      `leading`. */
  lemma RemoveLeadingOnce(leading: Path, rest: Path)
    requires leading != [] && !Occurs(leading, rest)
    ensures RemoveLeading(leading + rest, leading) == rest
  {
    var s := leading + rest;
    assert s[..|leading|] == leading;
    assert s[|leading|..] == rest;
    ReplaceAbsent(rest, leading, []);
  }

  /** Below `leading`, `splitext` removes exactly the final extension `ext`:
      dotted directories and a dotted base name before it are kept. */
  lemma SplitExtBelowLeading(leading: Path, rel: Path, ext: Path, sep: char)
    requires sep != ExtSep && EndsInExt(rel, ext, sep)
    ensures SplitExt(leading + [sep] + rel + ext, sep).0 == leading + [sep] + rel
  {
    LastComponentBelow(leading, rel, sep);
    SplitExtOf(leading + [sep] + rel, ext, sep);
  }

  /** `prettify_path` turns a path below `leading` into the part below it,
      without its final extension, when the host has an alternate separator
      and `leading` does not occur again in the rest of the path. */
  lemma PrettifyBelowLeading(leading: Path, rel: Path, ext: Path, cwd: Path, sep: char, alt: char)
    requires alt != sep && sep != ExtSep
    requires leading != [] && alt !in leading && alt !in rel && alt !in ext
    requires rel != [] && rel[0] != sep && rel[|rel| - 1] != sep && EndsInExt(rel, ext, sep)
    requires !Occurs(leading, [sep] + rel)
    ensures PrettifyPath(leading + [sep] + rel + ext, leading, cwd, sep, Some(alt)) == Success(rel)
  {
    var path := leading + [sep] + rel + ext;
    var s := leading + [sep] + rel;
    assert alt !in path;
    PrettifyUnnormalised(path, leading, cwd, sep, alt);
    SplitExtBelowLeading(leading, rel, ext, sep);
    RemoveLeadingBelow(leading, rel, sep);
    PrettifySteps(path, leading, sep, s, [sep] + rel);
    StripOneSep(sep, rel);
  }

  /** A path below `leading` that does not contain it again loses exactly
      `leading`, keeping the separator after it. */
  lemma RemoveLeadingBelow(leading: Path, rel: Path, sep: char)
    requires leading != [] && !Occurs(leading, [sep] + rel)
    ensures RemoveLeading(leading + [sep] + rel, leading) == [sep] + rel
  {
    assert leading + [sep] + rel == leading + ([sep] + rel);
    RemoveLeadingOnce(leading, [sep] + rel);
  }

  /** On a host with an alternate separator, when neither the path nor
      `leading` holds one, `prettify_path` runs its stages on them as given. */
  lemma PrettifyUnnormalised(path: Path, leading: Path, cwd: Path, sep: char, alt: char)
    requires leading != [] && alt !in path && alt !in leading
    ensures PrettifyPath(path, leading, cwd, sep, Some(alt)) == Success(Prettify(path, leading, sep))
  {
    NormalizeAbsent(leading, alt, sep);
    NormalizeAbsent(path, alt, sep);
  }

  /** The stages of `Prettify` one after the other. */
  lemma PrettifySteps(normal: Path, lead: Path, sep: char, s: Path, t: Path)
    requires SplitExt(normal, sep).0 == s && RemoveLeading(s, lead) == t
    ensures Prettify(normal, lead, sep) == Strip(t, sep)
  {
  }

  /** `pat` does not occur at `i` when one of its characters differs from the
      character of `s` it would cover. */
  lemma MismatchAt(pat: Path, s: Path, i: int, j: int)
    requires 0 <= i && 0 <= j < |pat| && i + j < |s| && s[i + j] != pat[j]
    ensures !OccursAt(pat, s, i)
  {
    if i + |pat| <= |s| {
      assert s[i..i + |pat|][j] == s[i + j];
    }
  }

  /** A name with neither separators nor dots is its own base name: it has a
      stem and no extension. */
  lemma PlainName(name: Path, sep: char)
    requires name != [] && forall c :: c in name ==> c != sep && c != ExtSep
    ensures LastComponent(name, sep) == name && HasStem(name) && !HasExtension(name)
  {
    assert name[|name| - |name|..] == name;
    LastComponentUnique(name, name, sep);
    forall i | 0 <= i < |name| ensures name[i] != ExtSep {
      assert name[i] in name;
    }
    assert name[0] != ExtSep;
  }

  /** So a plain name below a directory ends in either no extension or ".py". */
  lemma PlainNameBelow(dir: Path, name: Path, sep: char)
    requires sep != 'p' && sep != 'y'
    requires name != [] && forall c :: c in name ==> c != sep && c != ExtSep
    ensures EndsInExt(dir + [sep] + name, [], sep) && EndsInExt(dir + [sep] + name, ".py", sep)
  {
    LastComponentBelow(dir, name, sep);
    PlainName(name, sep);
  }

  /** The facts about the example's strings that `PrettifyBelowLeading` asks for. */
  lemma ExampleShape()
    ensures "/home/user/proj/src/mod.py" == "/home/user/proj" + ['/'] + "src/mod" + ".py"
    ensures '\\' !in "/home/user/proj" && '\\' !in "src/mod" && '\\' !in ".py"
    ensures "src/mod"[0] != '/' && "src/mod"[|"src/mod"| - 1] != '/'
    ensures !Occurs("/home/user/proj", ['/'] + "src/mod")
  {
  }

  lemma ExampleEnds()
    ensures EndsInExt("src/mod", ".py", '/')
  {
    assert "src" + ['/'] + "mod" == "src/mod";
    PlainNameBelow("src", "mod", '/');
  }

  /** A module below the project root loses the root and its extension, on a
      host with separator '/' and alternate separator '\\'. */
  lemma PrettifyExample(cwd: Path)
    ensures PrettifyPath("/home/user/proj/src/mod.py", "/home/user/proj", cwd, '/', Some('\\'))
            == Success("src/mod")
  {
    ExampleShape();
    ExampleEnds();
    PrettifyBelowLeading("/home/user/proj", "src/mod", ".py", cwd, '/', '\\');
  }

  lemma DottedShape()
    ensures "/proj/my.pkg/mod.py" == "/proj" + ['/'] + "my.pkg/mod" + ".py"
    ensures '\\' !in "/proj" && '\\' !in "my.pkg/mod" && '\\' !in ".py"
    ensures "my.pkg/mod"[0] != '/' && "my.pkg/mod"[|"my.pkg/mod"| - 1] != '/'
    ensures !Occurs("/proj", ['/'] + "my.pkg/mod")
  {
    var s := ['/'] + "my.pkg/mod";
    forall i | 0 <= i <= |s| && OccursAt("/proj", s, i) ensures false {
      if i == 0 {
        MismatchAt("/proj", s, i, 1);
      } else if i < 7 {
        MismatchAt("/proj", s, i, 0);
      }
    }
  }

  lemma DottedEnds()
    ensures EndsInExt("my.pkg/mod", ".py", '/')
  {
    assert "my.pkg" + ['/'] + "mod" == "my.pkg/mod";
    PlainNameBelow("my.pkg", "mod", '/');
  }

  /** A dotted package directory is kept: only the module's extension goes
      (same host as `PrettifyExample`). */
  lemma PrettifyDottedExample(cwd: Path)
    ensures PrettifyPath("/proj/my.pkg/mod.py", "/proj", cwd, '/', Some('\\')) == Success("my.pkg/mod")
  {
    DottedShape();
    DottedEnds();
    PrettifyBelowLeading("/proj", "my.pkg/mod", ".py", cwd, '/', '\\');
  }

  /** The general form of `PrettifyBelowLeading`: alternate separators may
      appear anywhere in `path` and `leading`, since both are normalised
      first; what matters is that the normalised path is the normalised
      `leading`, a separator, `rel` and its extension. */
  lemma PrettifyBelowLeadingAnySeps(path: Path, leading: Path, rel: Path, ext: Path, cwd: Path, sep: char, alt: char)
    requires sep != ExtSep && leading != []
    requires NormalizeSeps(path, alt, sep) == NormalizeSeps(leading, alt, sep) + [sep] + rel + ext
    requires rel != [] && rel[0] != sep && rel[|rel| - 1] != sep && EndsInExt(rel, ext, sep)
    requires !Occurs(NormalizeSeps(leading, alt, sep), [sep] + rel)
    ensures PrettifyPath(path, leading, cwd, sep, Some(alt)) == Success(rel)
  {
    var lead := NormalizeSeps(leading, alt, sep);
    var normal := NormalizeSeps(path, alt, sep);
    assert |lead| == |leading|;
    SplitExtBelowLeading(lead, rel, ext, sep);
    RemoveLeadingBelow(lead, rel, sep);
    PrettifySteps(normal, lead, sep, lead + [sep] + rel, [sep] + rel);
    StripOneSep(sep, rel);
  }

  /** A path whose stem does not start with the normalised `leading` (or the
      working directory, when `leading` is None) loses only its extension
      and the separators at its ends. */
  lemma PrettifyNotBelow(path: Path, leading: Path, cwd: Path, sep: char, alt: char)
    requires !IsPrefix(NormalizeSeps(if leading == [] then cwd else leading, alt, sep),
                       SplitExt(NormalizeSeps(path, alt, sep), sep).0)
    ensures PrettifyPath(path, leading, cwd, sep, Some(alt))
            == Success(Strip(SplitExt(NormalizeSeps(path, alt, sep), sep).0, sep))
  {
  }

  /** `NormalizeSeps` is pinned down by what it does at each position. */
  lemma NormalizeIs(s: Path, alt: char, sep: char, t: Path)
    requires |t| == |s| && forall i :: 0 <= i < |s| ==> t[i] == if s[i] == alt then sep else s[i]
    ensures NormalizeSeps(s, alt, sep) == t
  {
  }

  lemma WindowsNormalRoot()
    ensures NormalizeSeps("C:/proj", '/', '\\') == "C:\\proj"
  {
    NormalizeIs("C:/proj", '/', '\\', "C:\\proj");
  }

  lemma WindowsNormalPath()
    ensures NormalizeSeps("C:/proj/src/mod.py", '/', '\\') == "C:\\proj\\src\\mod.py"
  {
    NormalizeIs("C:/proj/src/mod.py", '/', '\\', "C:\\proj\\src\\mod.py");
  }

  lemma WindowsShape()
    ensures "C:\\proj\\src\\mod.py" == "C:\\proj" + ['\\'] + "src\\mod" + ".py"
    ensures "src\\mod"[0] != '\\' && "src\\mod"[|"src\\mod"| - 1] != '\\'
    ensures !Occurs("C:\\proj", ['\\'] + "src\\mod")
  {
    var s := ['\\'] + "src\\mod";
    forall i | 0 <= i <= |s| && OccursAt("C:\\proj", s, i) ensures false {
      if i < 2 {
        MismatchAt("C:\\proj", s, i, 0);
      }
    }
  }

  lemma WindowsEnds()
    ensures EndsInExt("src\\mod", ".py", '\\')
  {
    assert "src" + ['\\'] + "mod" == "src\\mod";
    PlainNameBelow("src", "mod", '\\');
  }

  /** On a host whose separator is '\\' and whose alternate separator is '/',
      a module path written with forward slashes below a root written the
      same way comes back as the part below the root, with the host's
      separator and without its extension. */
  lemma PrettifyWindowsExample(cwd: Path)
    ensures PrettifyPath("C:/proj/src/mod.py", "C:/proj", cwd, '\\', Some('/')) == Success("src\\mod")
  {
    WindowsNormalRoot();
    WindowsNormalPath();
    WindowsShape();
    WindowsEnds();
    PrettifyBelowLeadingAnySeps("C:/proj/src/mod.py", "C:/proj", "src\\mod", ".py", cwd, '\\', '/');
  }
}

/**
  Two behaviours of `prettify_path` as written that its documentation does not
  intend, and the definition that does what the documentation says.
 */
module PrettifyCorrected {
  import opened Wrappers
  import opened Paths
  import opened PathsLemmas

  /** As written, a host without an alternate separator (every POSIX host,
      where `os.altsep` is None) makes `prettify_path` raise for every input. */
  lemma FailsWithoutAltSep(path: Path, leading: Path, cwd: Path)
    ensures PrettifyPath(path, leading, cwd, PosixSep, None) == Failure(NoAltSep)
  {
  }

  /** `s` with alternate separators replaced by `sep` when the host has an
      alternate separator, and `s` itself otherwise. */
  function NormalizeOpt(s: Path, altsep: Option<char>, sep: char): (r: Path)
    ensures |r| == |s|
    ensures altsep.None? || altsep.value !in s ==> r == s
    ensures altsep.Some? && altsep.value != sep ==> altsep.value !in r
  {
    match altsep
    case None => s
    case Some(alt) =>
      if alt !in s then NormalizeAbsent(s, alt, sep); NormalizeSeps(s, alt, sep)
      else NormalizeSeps(s, alt, sep)
  }

  /** `s` without its leading `lead`, if it starts with it. */
  function StripPrefix(s: Path, lead: Path): (r: Path)
    ensures IsPrefix(lead, s) ==> s == lead + r
    ensures !IsPrefix(lead, s) ==> r == s
    ensures forall c :: c in r ==> c in s
  {
    if IsPrefix(lead, s) then s[|lead|..] else s
  }

  /** `prettify_path` as documented: alternate separators are normalised only
      when the host has them, and only the leading occurrence of `leading` is
      removed. */
  function PrettifyPathIntended(path: Path, leading: Path, cwd: Path, sep: char, altsep: Option<char>)
    : (r: Path)
    ensures r == [] || (r[0] != sep && r[|r| - 1] != sep)
    ensures altsep.Some? && altsep.value != sep ==> altsep.value !in r
  {
    var lead := NormalizeOpt(if leading == [] then cwd else leading, altsep, sep);
    var normal := NormalizeOpt(path, altsep, sep);
    StemKeeps(normal, sep);
    Strip(StripPrefix(SplitExt(normal, sep).0, lead), sep)
  }

  /** As documented, a path below `leading` comes back as the part below it,
      without its final extension, on every host, whether or not `leading`
      occurs again in that part and whatever dotted directories it has. Both
      strings are compared after normalisation, so alternate separators may
      appear anywhere in them. */
  lemma IntendedBelowLeading(path: Path, leading: Path, rel: Path, ext: Path, cwd: Path, sep: char,
                             altsep: Option<char>)
    requires sep != ExtSep && leading != []
    requires NormalizeOpt(path, altsep, sep) == NormalizeOpt(leading, altsep, sep) + [sep] + rel + ext
    requires rel != [] && rel[0] != sep && rel[|rel| - 1] != sep && EndsInExt(rel, ext, sep)
    ensures PrettifyPathIntended(path, leading, cwd, sep, altsep) == rel
  {
    var lead := NormalizeOpt(leading, altsep, sep);
    assert |lead| == |leading|;
    SplitExtBelowLeading(lead, rel, ext, sep);
    StripPrefixBelow(lead, rel, sep);
    StripOneSep(sep, rel);
  }

  lemma StripPrefixBelow(leading: Path, rel: Path, sep: char)
    ensures StripPrefix(leading + [sep] + rel, leading) == [sep] + rel
  {
    assert leading + [sep] + rel == leading + ([sep] + rel);
  }

  lemma InnerShape()
    ensures "/src/app/src/main.py" == "/src" + ['/'] + ("app/src" + ['/'] + "main") + ".py"
    ensures "app/src" + ['/'] + "main" == "app/src/main"
  {
  }

  lemma InnerShapeSplit()
    ensures "/src/app/src/main.py" == "/src" + ['/'] + "app" + "/src" + ['/'] + "main" + ".py"
    ensures "app" + ['/'] + "main" == "app/main"
  {
  }

  /** The path that exposes the inner-occurrence behaviour keeps its inner
      "src" directory under the intended definition, on a POSIX host. */
  lemma IntendedKeepsInnerOccurrence(cwd: Path)
    ensures PrettifyPathIntended("/src/app/src/main.py", "/src", cwd, '/', None) == "app/src/main"
  {
    InnerShape();
    PlainNameBelow("app/src", "main", '/');
    IntendedBelowLeading("/src/app/src/main.py", "/src", "app/src" + ['/'] + "main", ".py", cwd, '/', None);
  }

  /** The removal step when `leading` occurs exactly twice, once at the start
      and once further along. */
  lemma RemovesBothOccurrences(leading: Path, a: Path, b: Path, sep: char)
    requires leading != []
    requires NoMatchBefore(leading, [sep] + a + leading + [sep] + b, 1 + |a|)
    requires !Occurs(leading, [sep] + b)
    ensures RemoveLeading(leading + [sep] + a + leading + [sep] + b, leading) == [sep] + a + [sep] + b
  {
    var x, tail := [sep] + a, [sep] + b;
    var w := x + (leading + tail);
    assert w == [sep] + a + leading + [sep] + b;
    RemovesSecondOccurrence(leading, x, tail);
    assert leading + [sep] + a + leading + [sep] + b == leading + w;
    assert (leading + w)[|leading|..] == w;
    assert x + tail == [sep] + a + [sep] + b;
  }

  /** Deleting `leading` from `x + leading + tail`, where the only occurrence
      is the one after `x`. */
  lemma RemovesSecondOccurrence(leading: Path, x: Path, tail: Path)
    requires leading != []
    requires NoMatchBefore(leading, x + (leading + tail), |x|)
    requires !Occurs(leading, tail)
    ensures ReplaceAll(x + (leading + tail), leading, []) == x + tail
  {
    var y := leading + tail;
    ReplaceAllMatch(leading, tail, []);
    ReplaceAbsent(tail, leading, []);
    assert ReplaceAll(y, leading, []) == tail;
    ReplaceAllSkip(x, y, leading, []);
  }

  /** The extension-stripped form of a path in which `leading` occurs twice. */
  lemma StemOfInnerOccurrence(leading: Path, a: Path, b: Path, ext: Path, sep: char, alt: char)
    requires alt != sep && sep != ExtSep
    requires alt !in leading + a + b + ext
    requires EndsInExt(b, ext, sep)
    ensures SplitExt(NormalizeSeps(leading + [sep] + a + leading + [sep] + b + ext, alt, sep), sep).0
            == leading + [sep] + a + leading + [sep] + b
  {
    var rel := a + leading + [sep] + b;
    InnerAssoc(leading, a, b, ext, sep);
    assert alt !in leading + [sep] + rel + ext;
    NormalizeAbsent(leading + [sep] + rel + ext, alt, sep);
    LastComponentBelow(a + leading, b, sep);
    SplitExtBelowLeading(leading, rel, ext, sep);
  }

  lemma InnerAssoc(leading: Path, a: Path, b: Path, ext: Path, sep: char)
    ensures leading + [sep] + a + leading + [sep] + b + ext == leading + [sep] + (a + leading + [sep] + b) + ext
    ensures leading + [sep] + a + leading + [sep] + b == leading + [sep] + (a + leading + [sep] + b)
    ensures a + leading + [sep] + b == (a + leading) + [sep] + b
  {
  }

  /** As written, when `leading` occurs again further along the path, that
      occurrence is deleted as well: the documentation promises to strip only
      the leading one, which `PrettifyPathIntended` does (`IntendedBelowLeading`
      with `rel` = `a + leading + [sep] + b`). */
  lemma RemovesInnerOccurrence(leading: Path, a: Path, b: Path, ext: Path, cwd: Path, sep: char, alt: char)
    requires alt != sep && sep != ExtSep
    requires leading != [] && alt !in leading + a + b + ext
    requires a != [] && a[0] != sep && b != [] && b[|b| - 1] != sep && EndsInExt(b, ext, sep)
    requires NoMatchBefore(leading, [sep] + a + leading + [sep] + b, 1 + |a|)
    requires !Occurs(leading, [sep] + b)
    ensures PrettifyPath(leading + [sep] + a + leading + [sep] + b + ext, leading, cwd, sep, Some(alt))
            == Success(a + [sep] + b)
  {
    StemOfInnerOccurrence(leading, a, b, ext, sep, alt);
    assert alt !in leading;
    NormalizeAbsent(leading, alt, sep);
    RemovesBothOccurrences(leading, a, b, sep);
    StripAroundSep(a, b, sep);
  }

  lemma StripAroundSep(a: Path, b: Path, sep: char)
    requires a != [] && a[0] != sep && b != [] && b[|b| - 1] != sep
    ensures Strip([sep] + a + [sep] + b, sep) == a + [sep] + b
  {
    assert [sep] + a + [sep] + b == [sep] + (a + [sep] + b);
    StripOneSep(sep, a + [sep] + b);
  }

  /** Where "/src" occurs in the stripped stem of the finding's input. */
  lemma InnerMatches()
    ensures NoMatchBefore("/src", ['/'] + "app" + "/src" + ['/'] + "main", 1 + 3)
    ensures !Occurs("/src", ['/'] + "main")
  {
    var s := ['/'] + "app" + "/src" + ['/'] + "main";
    assert s == "/app/src/main";
    forall i | 0 <= i < 4 ensures !OccursAt("/src", s, i) {
      if i == 0 { assert s[1] != "/src"[1]; } else { assert s[i] != '/'; }
    }
    assert ['/'] + "main" == "/main";
    forall i | 0 <= i <= 5 && OccursAt("/src", "/main", i) ensures false {
      if i == 0 {
        MismatchAt("/src", "/main", i, 1);
      } else if i < 2 {
        MismatchAt("/src", "/main", i, 0);
      }
    }
  }

  lemma InnerNames()
    ensures '\\' !in "/src" + "app" + "main" + ".py"
    ensures EndsInExt("main", ".py", '/')
  {
    NotIn4('\\', "/src", "app", "main", ".py");
    PyExtension();
    PlainName("main", '/');
  }

  lemma PyExtension()
    ensures IsExtension(".py", '/')
  {
  }

  lemma NotIn4(c: char, a: Path, b: Path, d: Path, e: Path)
    requires c !in a && c !in b && c !in d && c !in e
    ensures c !in a + b + d + e
  {
  }

  /** The input of the finding on a host with separator '/' and alternate
      separator '\': the inner "src" directory is deleted along with the
      leading one. */
  lemma InnerOccurrenceExample(cwd: Path)
    ensures PrettifyPath("/src/app/src/main.py", "/src", cwd, '/', Some('\\')) == Success("app/main")
  {
    InnerShapeSplit();
    InnerMatches();
    InnerNames();
    RemovesInnerOccurrence("/src", "app", "main", ".py", cwd, '/', '\\');
  }
}
