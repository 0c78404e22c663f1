/**
  Recursive file collection with deduplication: `_FindAll` and `find_all`
  (pynocle/utils.py:99-132).

  The filesystem is a finite tree. Each path in the working list carries what
  `os.path.isfile` / `os.path.isdir` would report for it, and a directory
  carries the names `os.listdir` returns, in that order. The glob pattern is a
  predicate on the whole joined path, as `fnmatch.filter` applies it.

  The traversal follows Python 2, where `filter` returns a list: the files of
  a batch that are not yet in `processed_files_set` are all computed before the
  set is updated, so a path that appears twice in one batch is appended twice.
 */
module FileSearch {
  import opened Paths

  /** What the filesystem holds at a path: a regular file, a directory with
      its entries in listing order, or neither (a missing path, a broken link,
      a special file). */
  datatype Entry = File | Dir(children: seq<Child>) | Other

  /** One directory entry: the name `os.listdir` returns and what it names. */
  datatype Child = Child(name: string, entry: Entry)

  /** A path of the working list together with what is found there. */
  datatype Item = Item(path: Path, entry: Entry)

  /** The helper object's state: `processed_files` and `processed_files_set`. */
  datatype State = State(files: seq<Path>, seen: set<Path>)

  /** The pattern, as a predicate on a full path. */
  type Pattern = Path -> bool

  // ---------------------------------------------------------------------------
  // Sizes, for termination

  function EntrySize(e: Entry): nat {
    match e
    case Dir(cs) => 1 + ChildrenSize(cs)
    case _ => 1
  }

  function ChildrenSize(cs: seq<Child>): nat {
    if cs == [] then 0 else EntrySize(cs[0].entry) + ChildrenSize(cs[1..])
  }

  function ItemsSize(items: seq<Item>): nat {
    if items == [] then 0 else EntrySize(items[0].entry) + ItemsSize(items[1..])
  }

  // ---------------------------------------------------------------------------
  // Sequence helpers

  function Elems(s: seq<Path>): set<Path> {
    set p | p in s
  }

  predicate NoDup(s: seq<Path>) {
    forall i, j :: 0 <= i < j < |s| ==> s[i] != s[j]
  }

  lemma NoDupCons(x: Path, t: seq<Path>)
    ensures NoDup([x] + t) <==> x !in t && NoDup(t)
  {
    var s := [x] + t;
    assert s[1..] == t;
    if x !in t && NoDup(t) {
      forall i, j | 0 <= i < j < |s| ensures s[i] != s[j] {
        if i == 0 { assert s[j] == t[j - 1]; } else { assert s[i] == t[i - 1] && s[j] == t[j - 1]; }
      }
    }
    if NoDup(s) {
      forall j | 0 <= j < |t| ensures t[j] != x {
        assert s[0] == x && s[j + 1] == t[j];
        assert s[0] != s[j + 1];
      }
      forall i, j | 0 <= i < j < |t| ensures t[i] != t[j] {
        assert s[i + 1] == t[i] && s[j + 1] == t[j];
      }
    }
  }

  lemma AppendAssoc(a: seq<Path>, b: seq<Path>, c: seq<Path>)
    ensures a + (b + c) == (a + b) + c
  {
  }

  function Concat(bs: seq<seq<Path>>): (r: seq<Path>)
    ensures forall p :: p in r <==> exists k :: 0 <= k < |bs| && p in bs[k]
  {
    if bs == [] then []
    else
      var r := bs[0] + Concat(bs[1..]);
      assert forall p, k :: 1 <= k < |bs| && p in bs[k] ==> p in bs[1..][k - 1];
      r
  }

  lemma {:induction false} ConcatAppend(a: seq<seq<Path>>, b: seq<seq<Path>>)
    ensures Concat(a + b) == Concat(a) + Concat(b)
  {
    if a != [] {
      assert (a + b)[0] == a[0] && (a + b)[1..] == a[1..] + b;
      ConcatAppend(a[1..], b);
    } else {
      assert a + b == b;
    }
  }

  // ---------------------------------------------------------------------------
  // The filters `findfiles` applies

  /** `fnmatch.filter(filenames, pattern)`: the names the pattern accepts, in order. */
  function Matching(names: seq<Path>, matches: Pattern): (r: seq<Path>)
    ensures |r| <= |names|
    ensures forall p :: p in r <==> p in names && matches(p)
  {
    if names == [] then []
    else (if matches(names[0]) then [names[0]] else []) + Matching(names[1..], matches)
  }

  lemma {:induction false} MatchingAppend(a: seq<Path>, b: seq<Path>, matches: Pattern)
    ensures Matching(a + b, matches) == Matching(a, matches) + Matching(b, matches)
  {
    if a != [] {
      assert (a + b)[0] == a[0] && (a + b)[1..] == a[1..] + b;
      MatchingAppend(a[1..], b, matches);
    } else {
      assert a + b == b;
    }
  }

  lemma MatchingOne(x: Path, matches: Pattern)
    ensures Matching([x], matches) == if matches(x) then [x] else []
  {
    assert [x][1..] == [];
  }

  lemma {:induction false} MatchingNoDup(s: seq<Path>, matches: Pattern)
    requires NoDup(s)
    ensures NoDup(Matching(s, matches))
  {
    if s != [] {
      assert s == [s[0]] + s[1..];
      NoDupCons(s[0], s[1..]);
      MatchingNoDup(s[1..], matches);
      if matches(s[0]) {
        NoDupCons(s[0], Matching(s[1..], matches));
      }
    }
  }

  /** `filter(self.not_yet_processed, files)`, against the set as it was
      before this batch. */
  function Unseen(names: seq<Path>, seen: set<Path>): (r: seq<Path>)
    ensures forall p :: p in r <==> p in names && p !in seen
  {
    if names == [] then []
    else (if names[0] in seen then [] else [names[0]]) + Unseen(names[1..], seen)
  }

  /** The filter looks at each name on its own, against the set as it was
      before the batch: filtering a concatenation filters each part in turn,
      so order is kept and a name given twice passes twice. */
  lemma {:induction false} UnseenAppend(a: seq<Path>, b: seq<Path>, seen: set<Path>)
    ensures Unseen(a + b, seen) == Unseen(a, seen) + Unseen(b, seen)
  {
    if a != [] {
      assert (a + b)[0] == a[0] && (a + b)[1..] == a[1..] + b;
      var h := if a[0] in seen then [] else [a[0]];
      assert Unseen(a + b, seen) == h + Unseen(a[1..] + b, seen);
      UnseenAppend(a[1..], b, seen);
      AppendAssoc(h, Unseen(a[1..], seen), Unseen(b, seen));
    } else {
      assert a + b == b;
    }
  }

  lemma UnseenOne(x: Path, seen: set<Path>)
    ensures Unseen([x], seen) == if x in seen then [] else [x]
  {
    assert [x][1..] == [];
  }

  /** A name not yet processed and given twice in one batch passes twice. */
  lemma UnseenKeepsRepeats(x: Path, seen: set<Path>)
    requires x !in seen
    ensures Unseen([x, x], seen) == [x, x]
  {
    UnseenAppend([x], [x], seen);
    UnseenOne(x, seen);
    assert [x] + [x] == [x, x];
  }

  lemma {:induction false} UnseenIgnores(s: seq<Path>, seen: set<Path>, x: Path)
    requires x !in s
    ensures Unseen(s, seen + {x}) == Unseen(s, seen)
  {
    if s != [] {
      UnseenIgnores(s[1..], seen, x);
    }
  }

  // ---------------------------------------------------------------------------
  // The traversal

  /** The paths of the items that are files, in order: `filter(os.path.isfile, ...)`. */
  function FilePaths(items: seq<Item>): (r: seq<Path>)
    ensures forall p :: p in r <==> exists i :: 0 <= i < |items| && items[i].entry.File? && items[i].path == p
  {
    if items == [] then []
    else
      var r := (if items[0].entry.File? then [items[0].path] else []) + FilePaths(items[1..]);
      assert forall i :: 1 <= i < |items| ==> items[i] == items[1..][i - 1];
      r
  }

  /** The file paths of a concatenation are those of each part in turn: the
      batch keeps the order of the working list, repeats included. */
  lemma {:induction false} FilePathsAppend(a: seq<Item>, b: seq<Item>)
    ensures FilePaths(a + b) == FilePaths(a) + FilePaths(b)
  {
    if a != [] {
      assert (a + b)[0] == a[0] && (a + b)[1..] == a[1..] + b;
      FilePathsAppend(a[1..], b);
    } else {
      assert a + b == b;
    }
  }

  lemma FilePathsOne(it: Item)
    ensures FilePaths([it]) == if it.entry.File? then [it.path] else []
  {
    assert [it][1..] == [];
  }

  /** The children of directory `dir` as items of the next working list:
      `os.path.join(d, x)` for each listed name `x`. */
  function ChildItems(dir: Path, cs: seq<Child>): (items: seq<Item>)
    ensures |items| == |cs|
    ensures forall i :: 0 <= i < |cs| ==> items[i] == Item(Join(dir, cs[i].name), cs[i].entry)
    ensures ItemsSize(items) == ChildrenSize(cs)
  {
    if cs == [] then []
    else
      var rest := ChildItems(dir, cs[1..]);
      var items := [Item(Join(dir, cs[0].name), cs[0].entry)] + rest;
      assert items[1..] == rest;
      assert forall i :: 1 <= i < |cs| ==> items[i] == rest[i - 1] && cs[i] == cs[1..][i - 1];
      items
  }

  /** `findfiles`: an empty batch returns at once; otherwise the batch's
      matching paths that were not in the set before the call are appended,
      then added to the set. */
  function FindFiles(st: State, filenames: seq<Path>, matches: Pattern): (r: State)
    ensures Extends(st, r, matches)
    ensures forall p :: p in r.files[|st.files|..] <==> p in filenames && matches(p) && p !in st.seen
    ensures filenames == [] ==> r == st
    ensures filenames != [] ==> r.files == st.files + Unseen(Matching(filenames, matches), st.seen)
  {
    if filenames == [] then st
    else
      var files := Matching(filenames, matches);
      var unique := Unseen(files, st.seen);
      var r := State(st.files + unique, st.seen + Elems(unique));
      assert r.files[|st.files|..] == unique;
      r
  }

  /** `findall`: the files of the working list first, then each directory of
      it in order, each with the same treatment. */
  function FindAll(st: State, items: seq<Item>, matches: Pattern): (r: State)
    ensures Extends(st, r, matches)
    decreases ItemsSize(items), 1
  {
    var r := WalkDirs(FindFiles(st, FilePaths(items), matches), items, matches);
    ExtendsTransitive(st, FindFiles(st, FilePaths(items), matches), r, matches);
    r
  }

  /** The loop over `filter(os.path.isdir, files_and_folders)`. */
  function WalkDirs(st: State, items: seq<Item>, matches: Pattern): (r: State)
    ensures Extends(st, r, matches)
    decreases ItemsSize(items), 0
  {
    if items == [] then ExtendsRefl(st, matches); st
    else
      var next :=
        if items[0].entry.Dir? then FindAll(st, ChildItems(items[0].path, items[0].entry.children), matches)
        else st;
      ExtendsRefl(st, matches);
      var r := WalkDirs(next, items[1..], matches);
      ExtendsTransitive(st, next, r, matches);
      r
  }

  /** `find_all(files_and_folders, pattern)`, with every root already made
      absolute. */
  function FindAllPaths(roots: seq<Item>, matches: Pattern): (r: seq<Path>)
    ensures forall p :: p in r ==> matches(p)
    ensures roots == [] ==> r == []
  {
    var st := FindAll(State([], {}), roots, matches);
    assert st.files[0..] == st.files;
    st.files
  }

  // ---------------------------------------------------------------------------
  // The state invariant

  /** `r` continues `st`: the old list is kept as a prefix, every appended
      path matches and was not yet in the set, and the set grows by exactly
      the appended paths. */
  predicate Extends(st: State, r: State, matches: Pattern) {
    && |st.files| <= |r.files| && r.files[..|st.files|] == st.files
    && (forall i :: |st.files| <= i < |r.files| ==> r.files[i] !in st.seen && matches(r.files[i]))
    && r.seen == st.seen + Elems(r.files[|st.files|..])
  }

  /** `processed_files_set` is the set of `processed_files`. */
  predicate Consistent(st: State) {
    st.seen == Elems(st.files)
  }

  lemma ExtendsRefl(st: State, matches: Pattern)
    ensures Extends(st, st, matches)
  {
    assert st.files[|st.files|..] == [];
  }

  lemma ExtendsTransitive(a: State, b: State, c: State, matches: Pattern)
    requires Extends(a, b, matches) && Extends(b, c, matches)
    ensures Extends(a, c, matches)
  {
    assert c.files[..|b.files|] == b.files;
    assert c.files[..|a.files|] == a.files;
    assert c.files[|a.files|..] == b.files[|a.files|..] + c.files[|b.files|..];
    forall i | |a.files| <= i < |c.files|
      ensures c.files[i] !in a.seen && matches(c.files[i])
    {
      if i < |b.files| {
        assert c.files[i] == b.files[i];
      }
    }
  }

  /** Extending keeps the set equal to the elements of the list. */
  lemma ExtendsConsistent(st: State, r: State, matches: Pattern)
    requires Consistent(st) && Extends(st, r, matches)
    ensures Consistent(r)
  {
    assert r.files == st.files + r.files[|st.files|..];
  }

  /** `find_all` starts from the empty state, which is consistent, so the state
      it ends in is consistent too. */
  lemma FindAllConsistent(roots: seq<Item>, matches: Pattern)
    ensures Consistent(FindAll(State([], {}), roots, matches))
  {
    ExtendsConsistent(State([], {}), FindAll(State([], {}), roots, matches), matches);
  }
}
