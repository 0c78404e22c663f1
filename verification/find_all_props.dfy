/**
  Properties of `find_all` (pynocle/utils.py:99-132), stated against two
  reference definitions: `Batches`, the sequence of file lists the traversal
  hands to `findfiles` in the order it hands them over, and `Dedup`, the
  first-seen-order deduplication the collector is meant to compute.
 */
module FileSearchProps {
  import opened Paths
  import opened FileSearch

  // ---------------------------------------------------------------------------
  // The traversal order

  /** The lists `findfiles` receives, in order: the files of the working list
      first, then, for each directory of the list in order, the lists its
      own traversal produces. */
  function Batches(items: seq<Item>): (bs: seq<seq<Path>>)
    ensures |bs| >= 1 && bs[0] == FilePaths(items)
    decreases ItemsSize(items), 3
  {
    [FilePaths(items)] + DirBatches(items)
  }

  /** The lists produced under the directories of the working list. */
  function DirBatches(items: seq<Item>): seq<seq<Path>>
    decreases ItemsSize(items), 2
  {
    if items == [] then [] else SubBatches(items[0]) + DirBatches(items[1..])
  }

  /** The lists produced under one item: none unless it is a directory. */
  function SubBatches(it: Item): seq<seq<Path>>
    decreases EntrySize(it.entry), 1
  {
    if it.entry.Dir? then Batches(ChildItems(it.path, it.entry.children)) else []
  }

  /** Every file path the traversal visits, in visiting order, duplicates
      included. */
  function Candidates(items: seq<Item>): seq<Path> {
    Concat(Batches(items))
  }

  /** `findfiles` applied to each list in turn. */
  function FoldFiles(st: State, bs: seq<seq<Path>>, matches: Pattern): (r: State)
    ensures Extends(st, r, matches)
    decreases |bs|
  {
    if bs == [] then ExtendsRefl(st, matches); st
    else
      var next := FindFiles(st, bs[0], matches);
      var r := FoldFiles(next, bs[1..], matches);
      ExtendsTransitive(st, next, r, matches);
      r
  }

  lemma {:induction false} FoldAppend(st: State, a: seq<seq<Path>>, b: seq<seq<Path>>, matches: Pattern)
    ensures FoldFiles(st, a + b, matches) == FoldFiles(FoldFiles(st, a, matches), b, matches)
    decreases |a|
  {
    if a == [] {
      assert a + b == b;
    } else {
      assert (a + b)[0] == a[0] && (a + b)[1..] == a[1..] + b;
      FoldAppend(FindFiles(st, a[0], matches), a[1..], b, matches);
    }
  }

  /** The recursive collector is `findfiles` folded over `Batches`: the
      files of each working list are appended before anything found under
      its directories, and directories are descended in list order. */
  lemma {:induction false} FindAllIsFold(st: State, items: seq<Item>, matches: Pattern)
    ensures FindAll(st, items, matches) == FoldFiles(st, Batches(items), matches)
    decreases ItemsSize(items), 1
  {
    WalkDirsIsFold(FindFiles(st, FilePaths(items), matches), items, matches);
    var bs := Batches(items);
    assert bs[1..] == DirBatches(items);
  }

  lemma {:induction false} WalkDirsIsFold(st: State, items: seq<Item>, matches: Pattern)
    ensures WalkDirs(st, items, matches) == FoldFiles(st, DirBatches(items), matches)
    decreases ItemsSize(items), 0
  {
    if items != [] {
      var sub := SubBatches(items[0]);
      var next :=
        if items[0].entry.Dir? then FindAll(st, ChildItems(items[0].path, items[0].entry.children), matches)
        else st;
      if items[0].entry.Dir? {
        FindAllIsFold(st, ChildItems(items[0].path, items[0].entry.children), matches);
      }
      assert next == FoldFiles(st, sub, matches);
      WalkDirsIsFold(next, items[1..], matches);
      FoldAppend(st, sub, DirBatches(items[1..]), matches);
    }
  }

  // ---------------------------------------------------------------------------
  // What the collector returns

  /** With a consistent state, folding `findfiles` over lists keeps exactly
      the paths already collected and the matching paths of the lists. */
  lemma {:induction false} FoldContents(st: State, bs: seq<seq<Path>>, matches: Pattern, p: Path)
    requires Consistent(st)
    ensures p in FoldFiles(st, bs, matches).files <==> p in st.files || (p in Concat(bs) && matches(p))
    decreases |bs|
  {
    if bs != [] {
      var next := FindFiles(st, bs[0], matches);
      ExtendsConsistent(st, next, matches);
      FoldContents(next, bs[1..], matches, p);
      assert next.files == st.files + next.files[|st.files|..];
      assert p in st.seen <==> p in st.files;
    }
  }

  /** `find_all` returns exactly the visited file paths that match the
      pattern. */
  lemma FindAllContents(roots: seq<Item>, matches: Pattern, p: Path)
    ensures p in FindAllPaths(roots, matches) <==> p in Candidates(roots) && matches(p)
  {
    FindAllIsFold(State([], {}), roots, matches);
    FoldContents(State([], {}), Batches(roots), matches, p);
  }

  // ---------------------------------------------------------------------------
  // Deduplication

  /** The first occurrence of each path of `s` that is not in `seen`, in
      order. */
  function Dedup(s: seq<Path>, seen: set<Path>): (r: seq<Path>)
    ensures NoDup(r)
    ensures forall p :: p in r <==> p in s && p !in seen
  {
    if s == [] then []
    else if s[0] in seen then Dedup(s[1..], seen)
    else
      var rest := Dedup(s[1..], seen + {s[0]});
      NoDupCons(s[0], rest);
      [s[0]] + rest
  }

  lemma {:induction false} DedupAppend(a: seq<Path>, b: seq<Path>, seen: set<Path>)
    ensures Dedup(a + b, seen) == Dedup(a, seen) + Dedup(b, seen + Elems(a))
  {
    if a == [] {
      assert a + b == b && seen + Elems(a) == seen;
    } else {
      assert (a + b)[0] == a[0] && (a + b)[1..] == a[1..] + b;
      assert Elems(a) == {a[0]} + Elems(a[1..]);
      if a[0] in seen {
        DedupAppend(a[1..], b, seen);
        assert seen + Elems(a) == seen + Elems(a[1..]);
      } else {
        DedupAppend(a[1..], b, seen + {a[0]});
        assert seen + {a[0]} + Elems(a[1..]) == seen + Elems(a);
      }
    }
  }

  /** Without repeats in the batch, filtering against the old set is the same
      as first-seen deduplication. */
  lemma {:induction false} UnseenIsDedup(s: seq<Path>, seen: set<Path>)
    requires NoDup(s)
    ensures Unseen(s, seen) == Dedup(s, seen)
  {
    if s != [] {
      assert s == [s[0]] + s[1..];
      NoDupCons(s[0], s[1..]);
      if s[0] in seen {
        UnseenIsDedup(s[1..], seen);
      } else {
        UnseenIsDedup(s[1..], seen + {s[0]});
        UnseenIgnores(s[1..], seen, s[0]);
      }
    }
  }

  lemma FindFilesDedup(st: State, b: seq<Path>, matches: Pattern)
    requires NoDup(b)
    ensures FindFiles(st, b, matches).files == st.files + Dedup(Matching(b, matches), st.seen)
    ensures FindFiles(st, b, matches).seen == st.seen + Elems(Matching(b, matches))
  {
    var m := Matching(b, matches);
    if b == [] {
      assert st.files + [] == st.files && st.seen + Elems([]) == st.seen;
    } else {
      MatchingNoDup(b, matches);
      UnseenIsDedup(m, st.seen);
      assert st.seen + Elems(Unseen(m, st.seen)) == st.seen + Elems(m);
    }
  }

  /** One step of the fold, in terms of deduplication. */
  lemma FindFilesThenDedup(st: State, b: seq<Path>, later: seq<Path>, matches: Pattern)
    requires NoDup(b)
    ensures st.files + Dedup(Matching(b + later, matches), st.seen)
         == FindFiles(st, b, matches).files + Dedup(Matching(later, matches), FindFiles(st, b, matches).seen)
  {
    FindFilesDedup(st, b, matches);
    MatchingAppend(b, later, matches);
    var m1, m2 := Matching(b, matches), Matching(later, matches);
    DedupAppend(m1, m2, st.seen);
    AppendAssoc(st.files, Dedup(m1, st.seen), Dedup(m2, st.seen + Elems(m1)));
  }

  /** When no list repeats a path, the fold is first-seen deduplication of the
      matching paths of all the lists together. */
  lemma {:induction false} FoldDedup(st: State, bs: seq<seq<Path>>, matches: Pattern)
    requires forall k :: 0 <= k < |bs| ==> NoDup(bs[k])
    ensures FoldFiles(st, bs, matches).files == st.files + Dedup(Matching(Concat(bs), matches), st.seen)
    decreases |bs|
  {
    if bs == [] {
      assert st.files + [] == st.files;
    } else {
      var next := FindFiles(st, bs[0], matches);
      assert forall k :: 0 <= k < |bs| - 1 ==> bs[1..][k] == bs[k + 1];
      FoldDedup(next, bs[1..], matches);
      assert Concat(bs) == bs[0] + Concat(bs[1..]);
      FindFilesThenDedup(st, bs[0], Concat(bs[1..]), matches);
    }
  }

  // ---------------------------------------------------------------------------
  // Well-formed trees

  /** A name `os.listdir` can return: not empty and without a separator. */
  predicate ValidName(n: string) {
    n != [] && PosixSep !in n
  }

  /** Every directory of the tree lists distinct, valid names. */
  predicate WellFormed(e: Entry) {
    match e
    case Dir(cs) =>
      && (forall i, j :: 0 <= i < j < |cs| ==> cs[i].name != cs[j].name)
      && (forall i :: 0 <= i < |cs| ==> ValidName(cs[i].name) && WellFormed(cs[i].entry))
    case _ => true
  }

  predicate AllWellFormed(items: seq<Item>) {
    forall i :: 0 <= i < |items| ==> WellFormed(items[i].entry)
  }

  predicate DistinctPaths(items: seq<Item>) {
    forall i, j :: 0 <= i < j < |items| ==> items[i].path != items[j].path
  }

  lemma {:induction false} FilePathsNoDup(items: seq<Item>)
    requires DistinctPaths(items)
    ensures NoDup(FilePaths(items))
  {
    if items != [] {
      assert DistinctPaths(items[1..]) by {
        forall i, j | 0 <= i < j < |items| - 1 ensures items[1..][i].path != items[1..][j].path {
          assert items[1..][i] == items[i + 1] && items[1..][j] == items[j + 1];
        }
      }
      FilePathsNoDup(items[1..]);
      if items[0].entry.File? {
        assert items[0].path !in FilePaths(items[1..]) by {
          forall i | 0 <= i < |items| - 1 ensures items[1..][i].path != items[0].path {
            assert items[1..][i] == items[i + 1];
          }
        }
        NoDupCons(items[0].path, FilePaths(items[1..]));
      } else {
        assert FilePaths(items) == FilePaths(items[1..]);
      }
    }
  }

  /** The entries of a well-formed directory have distinct paths. */
  lemma ChildItemsDistinct(dir: Path, cs: seq<Child>)
    requires WellFormed(Dir(cs))
    ensures DistinctPaths(ChildItems(dir, cs)) && AllWellFormed(ChildItems(dir, cs))
  {
    var items := ChildItems(dir, cs);
    forall i, j | 0 <= i < j < |items| ensures items[i].path != items[j].path {
      if items[i].path == items[j].path {
        JoinInjective(dir, cs[i].name, cs[j].name);
      }
    }
  }

  lemma {:induction false} BatchesDistinct(items: seq<Item>)
    requires NoDup(FilePaths(items)) && AllWellFormed(items)
    ensures forall k :: 0 <= k < |Batches(items)| ==> NoDup(Batches(items)[k])
    decreases ItemsSize(items), 3
  {
    DirBatchesDistinct(items);
    assert Batches(items)[1..] == DirBatches(items);
  }

  lemma {:induction false} DirBatchesDistinct(items: seq<Item>)
    requires AllWellFormed(items)
    ensures forall k :: 0 <= k < |DirBatches(items)| ==> NoDup(DirBatches(items)[k])
    decreases ItemsSize(items), 2
  {
    if items != [] {
      SubBatchesDistinct(items[0]);
      DirBatchesDistinct(items[1..]);
      var sub := SubBatches(items[0]);
      assert DirBatches(items) == sub + DirBatches(items[1..]);
    }
  }

  lemma {:induction false} SubBatchesDistinct(it: Item)
    requires WellFormed(it.entry)
    ensures forall k :: 0 <= k < |SubBatches(it)| ==> NoDup(SubBatches(it)[k])
    decreases EntrySize(it.entry), 1
  {
    if it.entry.Dir? {
      var ch := ChildItems(it.path, it.entry.children);
      ChildItemsDistinct(it.path, it.entry.children);
      FilePathsNoDup(ch);
      BatchesDistinct(ch);
    }
  }

  /** The deduplication property: when the file roots are distinct and the tree
      is well formed, `find_all` is the first-seen deduplication of the
      matching visited paths, so it holds no path twice, however the
      directory roots repeat or overlap. */
  lemma FindAllNoDuplicates(roots: seq<Item>, matches: Pattern)
    requires NoDup(FilePaths(roots)) && AllWellFormed(roots)
    ensures FindAllPaths(roots, matches) == Dedup(Matching(Candidates(roots), matches), {})
    ensures NoDup(FindAllPaths(roots, matches))
  {
    FindAllIsFold(State([], {}), roots, matches);
    BatchesDistinct(roots);
    FoldDedup(State([], {}), Batches(roots), matches);
  }

  /** A file root given twice is appended twice: the second copy is checked
      against the set as it was before the batch. */
  lemma DuplicateFileRoot(p: Path, matches: Pattern)
    requires matches(p)
    ensures FindAllPaths([Item(p, File), Item(p, File)], matches) == [p, p]
  {
    var one := [Item(p, File)];
    var roots := [Item(p, File)] + one;
    assert roots[1..] == one && one[1..] == [];
    assert FilePaths(one) == [p];
    assert FilePaths(roots) == [p, p];
    assert [p, p][1..] == [p] && [p][1..] == [];
    assert Matching([p], matches) == [p];
    assert Matching([p, p], matches) == [p, p];
    assert Unseen([p], {}) == [p];
    assert Unseen([p, p], {}) == [p, p];
    var st1 := FindFiles(State([], {}), [p, p], matches);
    assert st1.files == [p, p];
    assert WalkDirs(st1, one, matches) == st1;
    assert WalkDirs(st1, roots, matches) == st1;
    assert roots == [Item(p, File), Item(p, File)];
    assert FindAll(State([], {}), roots, matches) == st1;
  }

  // ---------------------------------------------------------------------------
  // Where the returned paths come from

  /** `p` lies strictly below directory `dir`: it extends `dir`, and the
      extension starts a new path component, so "/a/bc" is not below "/a/b". */
  predicate Below(dir: Path, p: Path) {
    && IsPrefix(dir, p) && |dir| < |p|
    && (dir == [] || dir[|dir| - 1] == PosixSep || p[|dir|] == PosixSep)
  }

  /** `p` is the item itself, when the item is a file, or lies strictly below
      it, when the item is a directory. */
  predicate Origin(it: Item, p: Path) {
    || (it.entry.File? && it.path == p)
    || (it.entry.Dir? && Below(it.path, p))
  }

  lemma PrefixTransitive(a: Path, b: Path, c: Path)
    requires IsPrefix(a, b) && IsPrefix(b, c)
    ensures IsPrefix(a, c)
  {
    assert c[..|a|] == c[..|b|][..|a|];
  }

  /** `os.path.join` of a directory and a listed name lies below the directory. */
  lemma JoinBelow(dir: Path, name: Path)
    requires ValidName(name)
    ensures Below(dir, Join(dir, name))
  {
    assert name[0] in name;
  }

  lemma BelowTransitive(d: Path, c: Path, p: Path)
    requires Below(d, c) && Below(c, p)
    ensures Below(d, p)
  {
    PrefixTransitive(d, c, p);
    assert p[|d|] == p[..|c|][|d|] == c[|d|];
  }

  lemma {:induction false} CandidatesOrigin(items: seq<Item>, p: Path)
    requires AllWellFormed(items) && p in Candidates(items)
    ensures exists i :: 0 <= i < |items| && Origin(items[i], p)
    decreases ItemsSize(items), 3
  {
    var bs := Batches(items);
    assert Concat(bs) == FilePaths(items) + Concat(DirBatches(items));
    if p !in FilePaths(items) {
      DirCandidatesOrigin(items, p);
    }
  }

  lemma {:induction false} DirCandidatesOrigin(items: seq<Item>, p: Path)
    requires AllWellFormed(items) && p in Concat(DirBatches(items))
    ensures exists i :: 0 <= i < |items| && Origin(items[i], p)
    decreases ItemsSize(items), 2
  {
    var sub := SubBatches(items[0]);
    ConcatAppend(sub, DirBatches(items[1..]));
    if p in Concat(sub) {
      SubCandidatesOrigin(items[0], p);
    } else {
      DirCandidatesOrigin(items[1..], p);
      var i :| 0 <= i < |items| - 1 && Origin(items[1..][i], p);
      assert Origin(items[i + 1], p);
    }
  }

  lemma {:induction false} SubCandidatesOrigin(it: Item, p: Path)
    requires WellFormed(it.entry) && p in Concat(SubBatches(it))
    ensures Origin(it, p)
    decreases EntrySize(it.entry), 1
  {
    var cs := it.entry.children;
    var ch := ChildItems(it.path, cs);
    ChildItemsDistinct(it.path, cs);
    CandidatesOrigin(ch, p);
    var j :| 0 <= j < |ch| && Origin(ch[j], p);
    JoinBelow(it.path, cs[j].name);
    if ch[j].entry.Dir? {
      BelowTransitive(it.path, ch[j].path, p);
    }
  }

  /** Every path `find_all` returns matches the pattern and is a root file or
      lies below a root directory. */
  lemma FindAllSound(roots: seq<Item>, matches: Pattern, p: Path)
    requires AllWellFormed(roots) && p in FindAllPaths(roots, matches)
    ensures matches(p) && exists i :: 0 <= i < |roots| && Origin(roots[i], p)
  {
    FindAllContents(roots, matches, p);
    CandidatesOrigin(roots, p);
  }

  // ---------------------------------------------------------------------------
  // Entries that are neither files nor directories

  /** The working list without the entries that are neither file nor directory. */
  function WithoutOther(items: seq<Item>): (r: seq<Item>)
    ensures forall it :: it in r <==> it in items && !it.entry.Other?
  {
    if items == [] then []
    else (if items[0].entry.Other? then [] else [items[0]]) + WithoutOther(items[1..])
  }

  lemma {:induction false} FilePathsWithoutOther(items: seq<Item>)
    ensures FilePaths(WithoutOther(items)) == FilePaths(items)
  {
    if items != [] {
      FilePathsWithoutOther(items[1..]);
      if items[0].entry.Other? {
        assert WithoutOther(items) == WithoutOther(items[1..]);
      } else {
        var r := [items[0]] + WithoutOther(items[1..]);
        assert r[0] == items[0] && r[1..] == WithoutOther(items[1..]);
      }
    }
  }

  lemma {:induction false} WalkDirsWithoutOther(st: State, items: seq<Item>, matches: Pattern)
    ensures WalkDirs(st, WithoutOther(items), matches) == WalkDirs(st, items, matches)
    decreases |items|
  {
    if items != [] {
      if items[0].entry.Other? {
        assert WithoutOther(items) == WithoutOther(items[1..]);
        WalkDirsWithoutOther(st, items[1..], matches);
      } else {
        var r := [items[0]] + WithoutOther(items[1..]);
        assert r[0] == items[0] && r[1..] == WithoutOther(items[1..]);
        var next :=
          if items[0].entry.Dir? then FindAll(st, ChildItems(items[0].path, items[0].entry.children), matches)
          else st;
        WalkDirsWithoutOther(next, items[1..], matches);
      }
    }
  }

  /** Entries that are neither a file nor a directory are skipped: removing
      them from the working list changes nothing. */
  lemma FindAllSkipsOther(st: State, items: seq<Item>, matches: Pattern)
    ensures FindAll(st, WithoutOther(items), matches) == FindAll(st, items, matches)
  {
    FilePathsWithoutOther(items);
    WalkDirsWithoutOther(FindFiles(st, FilePaths(items), matches), items, matches);
  }

  // ---------------------------------------------------------------------------
  // Repeated directory roots

  lemma {:induction false} DirBatchesAppend(items: seq<Item>, x: Item)
    ensures DirBatches(items + [x]) == DirBatches(items) + SubBatches(x)
  {
    if items == [] {
      assert [x][1..] == [];
    } else {
      assert (items + [x])[0] == items[0] && (items + [x])[1..] == items[1..] + [x];
      DirBatchesAppend(items[1..], x);
    }
  }

  lemma {:induction false} FilePathsAppendDir(items: seq<Item>, x: Item)
    requires x.entry.Dir?
    ensures FilePaths(items + [x]) == FilePaths(items)
  {
    if items == [] {
      assert [x][1..] == [];
    } else {
      assert (items + [x])[0] == items[0] && (items + [x])[1..] == items[1..] + [x];
      FilePathsAppendDir(items[1..], x);
    }
  }

  lemma {:induction false} SubBatchesIncluded(items: seq<Item>, i: nat, p: Path)
    requires i < |items| && p in Concat(SubBatches(items[i]))
    ensures p in Concat(DirBatches(items))
  {
    ConcatAppend(SubBatches(items[0]), DirBatches(items[1..]));
    if i > 0 {
      SubBatchesIncluded(items[1..], i - 1, p);
    }
  }

  lemma {:induction false} UnseenCovered(s: seq<Path>, seen: set<Path>)
    requires forall p :: p in s ==> p in seen
    ensures Unseen(s, seen) == []
  {
    if s != [] {
      assert s[0] in s;
      UnseenCovered(s[1..], seen);
    }
  }

  /** Folding over lists whose matching paths are all collected already
      changes nothing. */
  lemma {:induction false} FoldSeen(st: State, bs: seq<seq<Path>>, matches: Pattern)
    requires forall p :: p in Concat(bs) && matches(p) ==> p in st.seen
    ensures FoldFiles(st, bs, matches) == st
    decreases |bs|
  {
    if bs != [] {
      var next := FindFiles(st, bs[0], matches);
      assert Concat(bs) == bs[0] + Concat(bs[1..]);
      if bs[0] != [] {
        UnseenCovered(Matching(bs[0], matches), st.seen);
        assert next == State(st.files + [], st.seen + Elems([]));
      }
      assert next == st;
      FoldSeen(next, bs[1..], matches);
    }
  }

  lemma BatchesAppendDir(roots: seq<Item>, x: Item)
    requires x.entry.Dir?
    ensures Batches(roots + [x]) == Batches(roots) + SubBatches(x)
  {
    FilePathsAppendDir(roots, x);
    DirBatchesAppend(roots, x);
  }

  /** After the roots are walked, every matching path under one of their
      directories is collected. */
  lemma SubtreeCollected(roots: seq<Item>, i: nat, matches: Pattern, p: Path)
    requires i < |roots| && p in Concat(SubBatches(roots[i])) && matches(p)
    ensures p in FoldFiles(State([], {}), Batches(roots), matches).seen
  {
    var st0 := State([], {});
    var st1 := FoldFiles(st0, Batches(roots), matches);
    ExtendsConsistent(st0, st1, matches);
    SubBatchesIncluded(roots, i, p);
    assert Concat(Batches(roots)) == FilePaths(roots) + Concat(DirBatches(roots));
    FoldContents(st0, Batches(roots), matches, p);
  }

  /** Giving again a directory that is already among the roots adds nothing:
      its subtree is walked a second time, but every path found there is
      already collected. */
  lemma RepeatedDirectoryRoot(roots: seq<Item>, i: nat, matches: Pattern)
    requires i < |roots| && roots[i].entry.Dir?
    ensures FindAllPaths(roots + [roots[i]], matches) == FindAllPaths(roots, matches)
  {
    var x := roots[i];
    var st0 := State([], {});
    FindAllIsFold(st0, roots + [x], matches);
    FindAllIsFold(st0, roots, matches);
    BatchesAppendDir(roots, x);
    FoldAppend(st0, Batches(roots), SubBatches(x), matches);
    var st1 := FoldFiles(st0, Batches(roots), matches);
    forall p | p in Concat(SubBatches(x)) && matches(p) ensures p in st1.seen {
      SubtreeCollected(roots, i, matches, p);
    }
    FoldSeen(st1, SubBatches(x), matches);
  }
}
