/** The directory summariser of the GitHub pipeline: `create_directory_tree` walks a checked-out
    repository and records it in a treelib `Tree`, `tree_to_dict` turns that tree into nested
    dictionaries for the D3 page, and `create_visualization` names the repository and the
    output file. The filesystem is a value: a directory is the list `os.listdir` returns, each
    entry a file, a directory with its own listing, or something that is neither (such as a
    dangling link, for which both `isfile` and `isdir` are false). */
module DirectoryTree {
  import opened Py
  import opened PyStr
  import Seqs
  import opened TreeLib

  datatype Entry =
    | File(name: string)
    | Folder(name: string, listing: Dir)
    | Other(name: string)

  /** What `os.listdir` returns for a directory, in no particular order. */
  datatype Dir = Dir(entries: seq<Entry>)

  // ---------------------------------------------------------------------------------------
  // Sorting the listing

  /** Python's `a <= b` on strings: code point by code point, a proper prefix first. */
  predicate NameLe(a: string, b: string)
    decreases |a|
  {
    a == [] || (b != [] && (a[0] < b[0] || (a[0] == b[0] && NameLe(a[1..], b[1..]))))
  }

  lemma {:induction false} NameLeTotal(a: string, b: string)
    ensures NameLe(a, b) || NameLe(b, a)
    decreases |a|
  {
    if a != [] && b != [] && a[0] == b[0] {
      NameLeTotal(a[1..], b[1..]);
    }
  }

  lemma {:induction false} NameLeTrans(a: string, b: string, c: string)
    requires NameLe(a, b) && NameLe(b, c)
    ensures NameLe(a, c)
    decreases |a|
  {
    if a != [] && a[0] == b[0] && b[0] == c[0] {
      NameLeTrans(a[1..], b[1..], c[1..]);
    }
  }

  ghost predicate SortedByName(s: seq<Entry>) {
    forall i, j :: 0 <= i < j < |s| ==> NameLe(s[i].name, s[j].name)
  }

  /** Put `e` in front of the first entry whose name is not smaller than its own. */
  function InsertByName(e: Entry, s: seq<Entry>): seq<Entry> {
    if s == [] || NameLe(e.name, s[0].name) then [e] + s else [s[0]] + InsertByName(e, s[1..])
  }

  lemma SortedTail(s: seq<Entry>)
    requires s != [] && SortedByName(s)
    ensures SortedByName(s[1..])
  {
    var t := s[1..];
    forall i, j | 0 <= i < j < |t| ensures NameLe(t[i].name, t[j].name) {
      assert t[i] == s[i + 1] && t[j] == s[j + 1];
    }
  }

  /** A sorted list stays sorted behind an entry that is not larger than any of it. */
  lemma SortedCons(x: Entry, t: seq<Entry>)
    requires SortedByName(t) && forall j :: 0 <= j < |t| ==> NameLe(x.name, t[j].name)
    ensures SortedByName([x] + t)
  {
    var r := [x] + t;
    forall i, j | 0 <= i < j < |r| ensures NameLe(r[i].name, r[j].name) {
      assert r[j] == t[j - 1];
      if i > 0 {
        assert r[i] == t[i - 1];
      }
    }
  }

  /** The first entry of a sorted list is not larger than any entry of its tail. */
  lemma SortedHead(s: seq<Entry>, y: Entry)
    requires s != [] && SortedByName(s) && y in s[1..]
    ensures NameLe(s[0].name, y.name)
  {
    var k :| 0 <= k < |s[1..]| && s[1..][k] == y;
    assert s[k + 1] == y;
  }

  lemma {:induction false} InsertByNameCount(e: Entry, s: seq<Entry>)
    ensures multiset(InsertByName(e, s)) == multiset(s) + multiset{e}
  {
    if s != [] && !NameLe(e.name, s[0].name) {
      InsertByNameCount(e, s[1..]);
      assert s == [s[0]] + s[1..];
    }
  }

  lemma {:induction false} InsertByNameSorted(e: Entry, s: seq<Entry>)
    requires SortedByName(s)
    ensures SortedByName(InsertByName(e, s))
  {
    if s == [] || NameLe(e.name, s[0].name) {
      forall j | 0 <= j < |s| ensures NameLe(e.name, s[j].name) {
        if j > 0 {
          NameLeTrans(e.name, s[0].name, s[j].name);
        }
      }
      SortedCons(e, s);
    } else {
      var t := InsertByName(e, s[1..]);
      SortedTail(s);
      InsertByNameSorted(e, s[1..]);
      InsertByNameCount(e, s[1..]);
      NameLeTotal(e.name, s[0].name);
      forall j | 0 <= j < |t| ensures NameLe(s[0].name, t[j].name) {
        assert t[j] in multiset(s[1..]) + multiset{e};
        if t[j] != e {
          SortedHead(s, t[j]);
        }
      }
      SortedCons(s[0], t);
    }
  }

  /** `sorted(os.listdir(path))`; `SortByNameSpec` says what it computes. */
  function SortByName(es: seq<Entry>): seq<Entry>
  {
    if es == [] then [] else InsertByName(es[0], SortByName(es[1..]))
  }

  /** The sorted listing has the same entries, as often, in non-decreasing name order. */
  lemma {:induction false} SortByNameSpec(es: seq<Entry>)
    ensures multiset(SortByName(es)) == multiset(es)
    ensures SortedByName(SortByName(es))
  {
    if es != [] {
      var rest := SortByName(es[1..]);
      SortByNameSpec(es[1..]);
      InsertByNameCount(es[0], rest);
      InsertByNameSorted(es[0], rest);
      assert es == [es[0]] + es[1..];
    }
  }

  // ---------------------------------------------------------------------------------------
  // The visible files and directories of a listing

  /** `e.startswith('.')` */
  predicate Hidden(name: string) {
    StartsWith(name, ".")
  }

  predicate IsVisibleFile(e: Entry) {
    e.File? && !Hidden(e.name)
  }

  predicate IsVisibleDir(e: Entry) {
    e.Folder? && !Hidden(e.name)
  }

  /** `files`: the visible files, by name. */
  function Files(d: Dir): seq<Entry> {
    Seqs.Filter(SortByName(d.entries), IsVisibleFile)
  }

  /** `dirs`: the visible directories, by name. */
  function Dirs(d: Dir): seq<Entry> {
    Seqs.Filter(SortByName(d.entries), IsVisibleDir)
  }

  /** Every directory the walk descends into is an entry of the listing it came from. */
  lemma DirsInListing(d: Dir)
    ensures forall i :: 0 <= i < |Dirs(d)| ==> Dirs(d)[i].Folder? && Dirs(d)[i] in d.entries
  {
    SortByNameSpec(d.entries);
    Seqs.FilterMultiset(SortByName(d.entries), IsVisibleDir);
    forall i | 0 <= i < |Dirs(d)| ensures Dirs(d)[i] in d.entries {
      var e := Dirs(d)[i];
      assert e in multiset(Dirs(d));
      assert multiset(Dirs(d))[e] == multiset(d.entries)[e];
    }
  }

  /** The walk's two lists: exactly the visible files, and exactly the visible directories, of
      the listing, each as often as the listing has it, in sorted name order. */
  lemma ListingSpec(d: Dir)
    ensures SortedByName(Files(d)) && SortedByName(Dirs(d))
    ensures forall e :: multiset(Files(d))[e] == if IsVisibleFile(e) then multiset(d.entries)[e] else 0
    ensures forall e :: multiset(Dirs(d))[e] == if IsVisibleDir(e) then multiset(d.entries)[e] else 0
    ensures forall e :: e in Files(d) || e in Dirs(d) ==> !Hidden(e.name)
  {
    SortByNameSpec(d.entries);
    SortedFilter(SortByName(d.entries), IsVisibleFile);
    SortedFilter(SortByName(d.entries), IsVisibleDir);
    Seqs.FilterMultiset(SortByName(d.entries), IsVisibleFile);
    Seqs.FilterMultiset(SortByName(d.entries), IsVisibleDir);
    forall e | e in Files(d) ensures !Hidden(e.name) {
      Seqs.FilterMembers(SortByName(d.entries), IsVisibleFile, e);
    }
    forall e | e in Dirs(d) ensures !Hidden(e.name) {
      Seqs.FilterMembers(SortByName(d.entries), IsVisibleDir, e);
    }
  }

  /** Dropping entries from a sorted list leaves it sorted. */
  lemma {:induction false} SortedFilter(s: seq<Entry>, p: Entry -> bool)
    requires SortedByName(s)
    ensures SortedByName(Seqs.Filter(s, p))
  {
    if s != [] {
      SortedTail(s);
      SortedFilter(s[1..], p);
      var rest := Seqs.Filter(s[1..], p);
      if p(s[0]) {
        forall j | 0 <= j < |rest| ensures NameLe(s[0].name, rest[j].name) {
          Seqs.FilterMembers(s[1..], p, rest[j]);
          SortedHead(s, rest[j]);
        }
        SortedCons(s[0], rest);
      }
    }
  }

  // ---------------------------------------------------------------------------------------
  // Paths, identifiers and tags

  /** `os.path.join(a, b)` on POSIX. */
  function PathJoin(a: string, b: string): string {
    if StartsWith(b, "/") then b
    else if a == [] || a[|a| - 1] == '/' then a + b
    else a + "/" + b
  }

  /** Joining a path with an entry name keeps the path in front, and the name is the last
      '/'-separated piece, which `os.path.basename` reads back. */
  lemma PathJoinName(a: string, b: string)
    requires b != [] && '/' !in b
    ensures var p := PathJoin(a, b); var r := Split(p, '/');
      StartsWith(p, a) && r[|r| - 1] == b
  {
    var p := PathJoin(a, b);
    assert !StartsWith(b, "/");
    if a == [] {
      SplitLast(p, '/');
    } else {
      var q := if a[|a| - 1] == '/' then a else a + "/";
      assert p == q + b;
      LastPieceAfter(q, b, '/');
    }
  }

  /** `path.replace('\\', '/').replace(' ', '_')` */
  function NodeId(path: string): string {
    ReplaceChar(ReplaceChar(path, '\\', '/'), ' ', '_')
  }

  /** The identifier is the path with every backslash turned into a slash and every space into
      an underscore; nothing else changes, and neither character is left. */
  lemma NodeIdSpec(path: string)
    ensures var id := NodeId(path);
      && |id| == |path|
      && (forall i :: 0 <= i < |path| ==>
            id[i] == (if path[i] == '\\' then '/' else if path[i] == ' ' then '_' else path[i]))
      && '\\' !in id && ' ' !in id
  {
    var id := NodeId(path);
    var mid := ReplaceChar(path, '\\', '/');
    forall i | 0 <= i < |id| ensures id[i] != '\\' && id[i] != ' ' {
      assert mid[i] != '\\';
    }
  }

  const RootId: string := "root"

  /** `📦` */
  const RootTag: string := "\U{1F4E6}"

  /** `f"📄 {entry}"` */
  function FileTag(name: string): string {
    "\U{1F4C4} " + name
  }

  /** `f"📁 {entry}"` */
  function DirTag(name: string): string {
    "\U{1F4C1} " + name
  }

  /** `f"📄 {len(files)} files"` */
  function SummaryTag(count: nat): string {
    "\U{1F4C4} " + Decimal(count) + " files"
  }

  /** The summarising node's identifier, `f"{parent}_files"`. */
  function SummaryId(parent: string): string {
    parent + "_files"
  }

  /** `max_files` when the caller gives none. */
  const DefaultMaxFiles: int := 10

  /** `max_depth` when the caller gives none; the walk never reads it. */
  const DefaultMaxDepth: int := 4

  // ---------------------------------------------------------------------------------------
  // The calls `create_directory_tree` makes

  function FileNode(e: Entry, path: string, parent: string): Create {
    Create(FileTag(e.name), NodeId(PathJoin(path, e.name)), parent)
  }

  /** One node per file, in order. */
  function EachFile(files: seq<Entry>, path: string, parent: string): (r: seq<Create>)
    ensures |r| == |files|
    ensures forall i :: 0 <= i < |files| ==> r[i] == FileNode(files[i], path, parent)
  {
    if files == [] then [] else [FileNode(files[0], path, parent)] + EachFile(files[1..], path, parent)
  }

  /** The "Handle files" step: one summary node when there are more than `maxFiles` files,
      one node per file otherwise. */
  function FileOps(files: seq<Entry>, path: string, parent: string, maxFiles: int): seq<Create> {
    if |files| > maxFiles then [Create(SummaryTag(|files|), SummaryId(parent), parent)]
    else EachFile(files, path, parent)
  }

  /** Every `create_node` call of `create_directory_tree(path, tree, parent, ...)` for the
      directory `d`, in the order they are made: the file step, then each directory's node
      followed by the calls of the recursive walk into it. */
  function Ops(d: Dir, path: string, parent: string, maxFiles: int): seq<Create>
    decreases d, 1
  {
    DirsInListing(d);
    FileOps(Files(d), path, parent, maxFiles) + DirsOps(d, Dirs(d), path, parent, maxFiles)
  }

  /** The "Handle directories" loop over `dirs`. */
  function DirsOps(d: Dir, dirs: seq<Entry>, path: string, parent: string, maxFiles: int): seq<Create>
    requires forall i :: 0 <= i < |dirs| ==> dirs[i].Folder? && dirs[i] in d.entries
    decreases d, 0, |dirs|
  {
    if dirs == [] then []
    else
      var e := dirs[0];
      var sub := PathJoin(path, e.name);
      var id := NodeId(sub);
      ListingSmaller(d, e);
      [Create(DirTag(e.name), id, parent)] + Ops(e.listing, sub, id, maxFiles)
        + DirsOps(d, dirs[1..], path, parent, maxFiles)
  }

  /** A sub-directory's listing is smaller than the listing that holds it: the walk ends. */
  lemma ListingSmaller(d: Dir, e: Entry)
    requires e.Folder? && e in d.entries
    ensures e.listing < d
  {
    var i :| 0 <= i < |d.entries| && d.entries[i] == e;
  }

  /** The calls for one directory entry: its node, then the walk into it. */
  function Segment(e: Entry, path: string, parent: string, maxFiles: int): seq<Create>
    requires e.Folder?
  {
    var sub := PathJoin(path, e.name);
    [Create(DirTag(e.name), NodeId(sub), parent)] + Ops(e.listing, sub, NodeId(sub), maxFiles)
  }

  lemma DirsOpsCons(d: Dir, dirs: seq<Entry>, path: string, parent: string, maxFiles: int)
    requires dirs != [] && forall i :: 0 <= i < |dirs| ==> dirs[i].Folder? && dirs[i] in d.entries
    ensures DirsOps(d, dirs, path, parent, maxFiles)
         == Segment(dirs[0], path, parent, maxFiles) + DirsOps(d, dirs[1..], path, parent, maxFiles)
  {
  }

  /** The identifiers the entries `es` of the directory `path` get, in order. */
  function EntryIds(es: seq<Entry>, path: string): (r: seq<string>)
    ensures |r| == |es|
    ensures forall i :: 0 <= i < |es| ==> r[i] == NodeId(PathJoin(path, es[i].name))
  {
    if es == [] then [] else [NodeId(PathJoin(path, es[0].name))] + EntryIds(es[1..], path)
  }

  // ---------------------------------------------------------------------------------------
  // When every call succeeds

  /** The walk under an existing node `x` makes only calls treelib accepts when its identifiers
      are new and pairwise different. */
  lemma {:induction false} OpsScoped(d: Dir, path: string, x: string, maxFiles: int, known: set<string>,
                                     calls: seq<Create>)
    requires calls == Ops(d, path, x, maxFiles)
    requires x in known && Fresh(known, calls)
    ensures Scoped(known, calls)
    decreases d, 1
  {
    DirsInListing(d);
    var fileCalls := FileOps(Files(d), path, x, maxFiles);
    var dirCalls := DirsOps(d, Dirs(d), path, x, maxFiles);
    FreshSplit(known, fileCalls, dirCalls);
    SiblingsScoped(known, fileCalls, x);
    DirsOpsScoped(d, Dirs(d), path, x, maxFiles, known + IdSet(fileCalls), dirCalls);
    ScopedAppend(known, fileCalls, dirCalls);
  }

  lemma {:induction false} DirsOpsScoped(d: Dir, dirs: seq<Entry>, path: string, x: string, maxFiles: int,
                                         known: set<string>, calls: seq<Create>)
    requires forall i :: 0 <= i < |dirs| ==> dirs[i].Folder? && dirs[i] in d.entries
    requires calls == DirsOps(d, dirs, path, x, maxFiles)
    requires x in known && Fresh(known, calls)
    ensures Scoped(known, calls)
    decreases d, 0, |dirs|
  {
    if dirs != [] {
      var e := dirs[0];
      var sub := PathJoin(path, e.name);
      var node := Create(DirTag(e.name), NodeId(sub), x);
      var inner := Ops(e.listing, sub, NodeId(sub), maxFiles);
      var rest := DirsOps(d, dirs[1..], path, x, maxFiles);
      DirsOpsCons(d, dirs, path, x, maxFiles);
      FreshSplit(known, [node] + inner, rest);
      FreshCons(known, node, inner);
      OpsScoped(e.listing, sub, NodeId(sub), maxFiles, known + {node.id}, inner);
      ScopedCons(known, node, inner);
      DirsOpsScoped(d, dirs[1..], path, x, maxFiles, known + IdSet([node] + inner), rest);
      ScopedAppend(known, [node] + inner, rest);
    }
  }

  /** With the identifiers new and pairwise different, every call of the walk from the root
      succeeds. */
  lemma WalkApplicable(startpath: string, d: Dir, maxFiles: int)
    requires Seqs.Distinct([RootId] + Ids(Ops(d, startpath, RootId, maxFiles)))
    ensures Applicable(Created(Empty, RootTag, RootId, None), Ops(d, startpath, RootId, maxFiles))
  {
    var ops := Ops(d, startpath, RootId, maxFiles);
    var first := Created(Empty, RootTag, RootId, None);
    Seqs.DistinctAppend([RootId], Ids(ops));
    assert first.nodes.Keys == {RootId};
    OpsScoped(d, startpath, RootId, maxFiles, {RootId}, ops);
    ApplicableScoped(first, ops);
  }

  // ---------------------------------------------------------------------------------------
  // The walk, on a `Tree` object

  /** `create_directory_tree(startpath)`: a fresh tree with the root node, then the walk. Node
      identifiers must all differ for treelib to accept them, so the model asks for that. */
  method CreateDirectoryTree(startpath: string, d: Dir, maxDepth: int, maxFiles: int)
    returns (tree: Tree)
    requires Seqs.Distinct([RootId] + Ids(Ops(d, startpath, RootId, maxFiles)))
    ensures fresh(tree)
    ensures tree.Model() == ApplyAll(Created(Empty, RootTag, RootId, None), Ops(d, startpath, RootId, maxFiles))
  {
    tree := new Tree();
    tree.CreateNode(RootTag, RootId, None);
    WalkApplicable(startpath, d, maxFiles);
    AddDirectory(tree, startpath, d, RootId, maxDepth, maxFiles, 0, Ops(d, startpath, RootId, maxFiles));
  }

  /** `create_directory_tree(startpath, tree, parent, max_depth, max_files, current_depth)`:
      the walk into an existing tree, under the node `parent`. */
  method AddDirectory(tree: Tree, startpath: string, d: Dir, parent: string, maxDepth: int,
                      maxFiles: int, currentDepth: int, ghost calls: seq<Create>)
    requires calls == Ops(d, startpath, parent, maxFiles) && Applicable(tree.Model(), calls)
    modifies tree
    ensures tree.Model() == ApplyAll(old(tree.Model()), calls)
    decreases d, 3
  {
    ghost var start := tree.Model();
    var entries := SortByName(d.entries);
    var files := Seqs.Filter(entries, IsVisibleFile);
    var dirs := Seqs.Filter(entries, IsVisibleDir);
    DirsInListing(d);
    ghost var fileCalls := FileOps(files, startpath, parent, maxFiles);
    ghost var dirCalls := DirsOps(d, dirs, startpath, parent, maxFiles);
    assert calls == fileCalls + dirCalls;
    ApplyAppend(start, fileCalls, dirCalls);
    AddFiles(tree, startpath, files, parent, maxFiles);
    AddDirs(tree, startpath, d, dirs, parent, maxDepth, maxFiles, currentDepth, dirCalls);
  }

  /** The "Handle directories" loop of the walk: for each directory, `AddDir`. */
  method AddDirs(tree: Tree, startpath: string, d: Dir, dirs: seq<Entry>, parent: string,
                 maxDepth: int, maxFiles: int, currentDepth: int, ghost calls: seq<Create>)
    requires forall k :: 0 <= k < |dirs| ==> dirs[k].Folder? && dirs[k] in d.entries
    requires calls == DirsOps(d, dirs, startpath, parent, maxFiles) && Applicable(tree.Model(), calls)
    modifies tree
    ensures tree.Model() == ApplyAll(old(tree.Model()), calls)
    decreases d, 2
  {
    ghost var start := tree.Model();
    ghost var rest := calls;
    assert dirs[0..] == dirs;
    for i := 0 to |dirs|
      invariant rest == DirsOps(d, dirs[i..], startpath, parent, maxFiles)
      invariant Applicable(tree.Model(), rest) && ApplyAll(tree.Model(), rest) == ApplyAll(start, calls)
    {
      rest := AddDirAt(tree, startpath, d, dirs, i, parent, maxDepth, maxFiles, currentDepth, rest);
    }
  }

  /** The loop's turn `i` and what it leaves for the turns after it. */
  method AddDirAt(tree: Tree, startpath: string, d: Dir, dirs: seq<Entry>, i: int, parent: string,
                  maxDepth: int, maxFiles: int, currentDepth: int, ghost rest: seq<Create>)
    returns (ghost later: seq<Create>)
    requires forall k :: 0 <= k < |dirs| ==> dirs[k].Folder? && dirs[k] in d.entries
    requires 0 <= i < |dirs|
    requires rest == DirsOps(d, dirs[i..], startpath, parent, maxFiles) && Applicable(tree.Model(), rest)
    modifies tree
    ensures later == DirsOps(d, dirs[i + 1..], startpath, parent, maxFiles)
    ensures Applicable(tree.Model(), later) && ApplyAll(tree.Model(), later) == ApplyAll(old(tree.Model()), rest)
    decreases d, 1
  {
    var e := dirs[i];
    DirStep(tree.Model(), d, dirs, i, startpath, parent, maxFiles);
    AddDir(tree, startpath, d, e, parent, maxDepth, maxFiles, currentDepth, Segment(e, startpath, parent, maxFiles));
    later := DirsOps(d, dirs[i + 1..], startpath, parent, maxFiles);
  }

  /** One turn of the directory loop: the directory's node under `parent`, then the walk into
      it under that node. */
  method AddDir(tree: Tree, startpath: string, d: Dir, e: Entry, parent: string,
                maxDepth: int, maxFiles: int, currentDepth: int, ghost calls: seq<Create>)
    requires e.Folder? && e in d.entries
    requires calls == Segment(e, startpath, parent, maxFiles) && Applicable(tree.Model(), calls)
    modifies tree
    ensures tree.Model() == ApplyAll(old(tree.Model()), calls)
    decreases d, 0
  {
    var path := PathJoin(startpath, e.name);
    var nodeId := NodeId(path);
    ghost var node := Create(DirTag(e.name), nodeId, parent);
    ghost var inner := Ops(e.listing, path, nodeId, maxFiles);
    ApplyCons(tree.Model(), node, inner);
    tree.CreateNode(DirTag(e.name), nodeId, Some(parent));
    AddDirectory(tree, path, e.listing, nodeId, maxDepth, maxFiles, currentDepth + 1, inner);
  }

  /** The "Handle files" step of the walk: a summary node under `parent` when there are more
      than `maxFiles` files, otherwise one node per file. */
  method AddFiles(tree: Tree, startpath: string, files: seq<Entry>, parent: string, maxFiles: int)
    requires Applicable(tree.Model(), FileOps(files, startpath, parent, maxFiles))
    modifies tree
    ensures tree.Model() == ApplyAll(old(tree.Model()), FileOps(files, startpath, parent, maxFiles))
  {
    ghost var start := tree.Model();
    if |files| > maxFiles {
      ApplyCons(start, Create(SummaryTag(|files|), SummaryId(parent), parent), []);
      tree.CreateNode(SummaryTag(|files|), SummaryId(parent), Some(parent));
    } else {
      assert files[0..] == files;
      for i := 0 to |files|
        invariant Applicable(tree.Model(), EachFile(files[i..], startpath, parent))
        invariant ApplyAll(tree.Model(), EachFile(files[i..], startpath, parent)) == ApplyAll(start, EachFile(files, startpath, parent))
      {
        var path := PathJoin(startpath, files[i].name);
        var nodeId := NodeId(path);
        EachFileAt(files, i, startpath, parent);
        ApplyCons(tree.Model(), FileNode(files[i], startpath, parent), EachFile(files[i + 1..], startpath, parent));
        tree.CreateNode(FileTag(files[i].name), nodeId, Some(parent));
      }
    }
  }

  lemma EachFileAt(files: seq<Entry>, i: int, path: string, parent: string)
    requires 0 <= i < |files|
    ensures EachFile(files[i..], path, parent)
         == [FileNode(files[i], path, parent)] + EachFile(files[i + 1..], path, parent)
  {
    assert files[i..][1..] == files[i + 1..];
  }

  /** What one turn of the directory loop relies on: the calls for its directory succeed, and
      the remaining turns' calls after them. */
  lemma DirStep(t: Snapshot, d: Dir, dirs: seq<Entry>, i: int, path: string, parent: string, maxFiles: int)
    requires forall k :: 0 <= k < |dirs| ==> dirs[k].Folder? && dirs[k] in d.entries
    requires 0 <= i < |dirs| && Applicable(t, DirsOps(d, dirs[i..], path, parent, maxFiles))
    ensures var seg := Segment(dirs[i], path, parent, maxFiles);
      var rest := DirsOps(d, dirs[i + 1..], path, parent, maxFiles);
      && Applicable(t, seg) && Applicable(ApplyAll(t, seg), rest)
      && ApplyAll(ApplyAll(t, seg), rest) == ApplyAll(t, DirsOps(d, dirs[i..], path, parent, maxFiles))
  {
    assert dirs[i..][0] == dirs[i] && dirs[i..][1..] == dirs[i + 1..];
    DirsOpsCons(d, dirs[i..], path, parent, maxFiles);
    ApplyAppend(t, Segment(dirs[i], path, parent, maxFiles), DirsOps(d, dirs[i + 1..], path, parent, maxFiles));
  }

  // ---------------------------------------------------------------------------------------
  // Where the walk attaches nodes

  lemma FileOpsParents(files: seq<Entry>, path: string, parent: string, maxFiles: int)
    ensures forall i :: 0 <= i < |FileOps(files, path, parent, maxFiles)| ==>
      FileOps(files, path, parent, maxFiles)[i].parent == parent
  {
  }

  /** The file step creates the summary identifier, or each file's own, in sorted order. */
  lemma FileOpsIds(files: seq<Entry>, path: string, parent: string, maxFiles: int)
    ensures Ids(FileOps(files, path, parent, maxFiles))
         == if |files| > maxFiles then [SummaryId(parent)] else EntryIds(files, path)
  {
    if |files| <= maxFiles {
      var ids := Ids(EachFile(files, path, parent));
      assert |ids| == |EntryIds(files, path)|;
      forall i | 0 <= i < |ids| ensures ids[i] == EntryIds(files, path)[i] {
      }
    }
  }

  /** The walk under `x` attaches every node under `x` or under a node it creates itself. */
  lemma {:induction false} OpsClosed(d: Dir, path: string, x: string, maxFiles: int)
    ensures Closed(Ops(d, path, x, maxFiles), x)
    decreases d, 1
  {
    DirsInListing(d);
    var fileCalls := FileOps(Files(d), path, x, maxFiles);
    FileOpsParents(Files(d), path, x, maxFiles);
    DirsOpsClosed(d, Dirs(d), path, x, maxFiles);
    ClosedAppend(fileCalls, DirsOps(d, Dirs(d), path, x, maxFiles), x);
  }

  lemma {:induction false} DirsOpsClosed(d: Dir, dirs: seq<Entry>, path: string, x: string, maxFiles: int)
    requires forall i :: 0 <= i < |dirs| ==> dirs[i].Folder? && dirs[i] in d.entries
    ensures Closed(DirsOps(d, dirs, path, x, maxFiles), x)
    decreases d, 0, |dirs|
  {
    if dirs != [] {
      var e := dirs[0];
      var sub := PathJoin(path, e.name);
      var node := Create(DirTag(e.name), NodeId(sub), x);
      var inner := Ops(e.listing, sub, NodeId(sub), maxFiles);
      DirsOpsCons(d, dirs, path, x, maxFiles);
      OpsClosed(e.listing, sub, NodeId(sub), maxFiles);
      ClosedCons(node, inner, x);
      DirsOpsClosed(d, dirs[1..], path, x, maxFiles);
      ClosedAppend([node] + inner, DirsOps(d, dirs[1..], path, x, maxFiles), x);
    }
  }

  lemma {:induction false} DirsLevel(d: Dir, dirs: seq<Entry>, path: string, x: string, maxFiles: int)
    requires forall i :: 0 <= i < |dirs| ==> dirs[i].Folder? && dirs[i] in d.entries
    requires x !in Ids(DirsOps(d, dirs, path, x, maxFiles))
    ensures ChildIds(DirsOps(d, dirs, path, x, maxFiles), x) == EntryIds(dirs, path)
    decreases |dirs|
  {
    if dirs != [] {
      var e := dirs[0];
      var sub := PathJoin(path, e.name);
      var node := Create(DirTag(e.name), NodeId(sub), x);
      var inner := Ops(e.listing, sub, NodeId(sub), maxFiles);
      var rest := DirsOps(d, dirs[1..], path, x, maxFiles);
      DirsOpsCons(d, dirs, path, x, maxFiles);
      IdsAppend([node] + inner, rest);
      IdsAppend([node], inner);
      assert Ids(DirsOps(d, dirs, path, x, maxFiles)) == [NodeId(sub)] + Ids(inner) + Ids(rest);
      assert x != NodeId(sub) && x !in Ids(inner) && x !in Ids(rest);
      OpsClosed(e.listing, sub, NodeId(sub), maxFiles);
      ClosedNone(inner, NodeId(sub), x);
      ChildIdsAppend([node] + inner, rest, x);
      ChildIdsAppend([node], inner, x);
      assert ChildIds([node], x) == [NodeId(sub)];
      DirsLevel(d, dirs[1..], path, x, maxFiles);
      assert EntryIds(dirs, path) == [NodeId(sub)] + EntryIds(dirs[1..], path);
    }
  }

  /** Under `x` the walk attaches the summary node when there are more than `maxFiles` visible
      files and one node per visible file otherwise, then one node per visible directory; files
      and directories each in sorted name order. */
  lemma ChildrenOf(d: Dir, path: string, x: string, maxFiles: int)
    requires x !in Ids(Ops(d, path, x, maxFiles))
    ensures ChildIds(Ops(d, path, x, maxFiles), x)
         == (if |Files(d)| > maxFiles then [SummaryId(x)] else EntryIds(Files(d), path))
            + EntryIds(Dirs(d), path)
  {
    DirsInListing(d);
    var fileCalls := FileOps(Files(d), path, x, maxFiles);
    var dirCalls := DirsOps(d, Dirs(d), path, x, maxFiles);
    LevelChildren(d, Files(d), Dirs(d), path, x, maxFiles, fileCalls, dirCalls);
    FileOpsIds(Files(d), path, x, maxFiles);
  }

  /** The children of `x` among one level's calls: the file step's nodes, then one node per
      directory. */
  lemma LevelChildren(d: Dir, files: seq<Entry>, dirs: seq<Entry>, path: string, x: string, maxFiles: int,
                      fileCalls: seq<Create>, dirCalls: seq<Create>)
    requires forall i :: 0 <= i < |dirs| ==> dirs[i].Folder? && dirs[i] in d.entries
    requires fileCalls == FileOps(files, path, x, maxFiles) && dirCalls == DirsOps(d, dirs, path, x, maxFiles)
    requires x !in Ids(fileCalls + dirCalls)
    ensures ChildIds(fileCalls + dirCalls, x) == Ids(fileCalls) + EntryIds(dirs, path)
  {
    IdsAppend(fileCalls, dirCalls);
    ChildIdsAppend(fileCalls, dirCalls, x);
    FileOpsParents(files, path, x, maxFiles);
    ChildIdsAll(fileCalls, x);
    DirsLevel(d, dirs, path, x, maxFiles);
  }

  // ---------------------------------------------------------------------------------------
  // `tree_to_dict`

  /** `{"name": tag, "id": identifier}`, with `"children"` only when the node has children. */
  datatype NodeDict = NodeDict(name: string, id: string, children: Kids)

  /** The `"children"` entry: absent, or the children's dictionaries in order. */
  datatype Kids = Absent | Present(dicts: seq<NodeDict>)

  /** `"children"` is left out when there are none. */
  function ChildrenEntry(ds: seq<NodeDict>): Kids {
    if ds == [] then Absent else Present(ds)
  }

  /** `_to_dict(node_id)`. The recursion follows child lists, which in a valid tree never lead
      back to a node; `fuel` bounds its depth. `None` means the bound was reached or `id` is
      not a node (a lookup that cannot fail in a tree built by `create_node`). `ToDictShape`
      says what the dictionary holds. */
  function ToDict(t: Snapshot, id: string, fuel: nat): Option<NodeDict>
    decreases fuel, 0
  {
    if fuel == 0 || id !in t.nodes then None
    else
      var kids := ChildList(t, id);
      if kids == [] then Some(NodeDict(t.nodes[id].tag, id, Absent))
      else
        match ToDicts(t, kids, fuel - 1)
        case None => None
        case Some(ds) => Some(NodeDict(t.nodes[id].tag, id, Present(ds)))
  }

  /** `[_to_dict(child.identifier) for child in children]` */
  function ToDicts(t: Snapshot, ids: seq<string>, fuel: nat): Option<seq<NodeDict>>
    decreases fuel, 1, |ids|
  {
    if ids == [] then Some([])
    else
      match ToDict(t, ids[0], fuel)
      case None => None
      case Some(first) =>
        match ToDicts(t, ids[1..], fuel)
        case None => None
        case Some(rest) => Some([first] + rest)
  }

  /** A node's dictionary has the node's tag as `"name"` and its identifier as `"id"`, and a
      `"children"` entry exactly when the node has children, one per child, in order. */
  lemma {:induction false} ToDictShape(t: Snapshot, id: string, fuel: nat)
    ensures var r := ToDict(t, id, fuel);
      r.Some? ==>
        && id in t.nodes
        && r.value.name == t.nodes[id].tag && r.value.id == id
        && (r.value.children.Absent? <==> ChildList(t, id) == [])
        && (r.value.children.Present? ==>
              && |r.value.children.dicts| == |ChildList(t, id)|
              && forall i :: 0 <= i < |ChildList(t, id)| ==> r.value.children.dicts[i].id == ChildList(t, id)[i])
    decreases fuel, 0
  {
    if fuel > 0 && id in t.nodes && ChildList(t, id) != [] {
      ToDictsShape(t, ChildList(t, id), fuel - 1);
    }
  }

  /** The dictionaries of `ids`, one per identifier, in order. */
  lemma {:induction false} ToDictsShape(t: Snapshot, ids: seq<string>, fuel: nat)
    ensures var r := ToDicts(t, ids, fuel);
      r.Some? ==> |r.value| == |ids| && forall i :: 0 <= i < |ids| ==> r.value[i].id == ids[i]
    decreases fuel, 1, |ids|
  {
    if ids != [] {
      ToDictShape(t, ids[0], fuel);
      ToDictsShape(t, ids[1..], fuel);
    }
  }

  /** `tree_to_dict(tree)`: the nested dictionaries from the node `"root"`, with one level of
      recursion per node at most. */
  function TreeToDict(t: Snapshot): Option<NodeDict>
  {
    if RootId in t.nodes then ToDict(t, RootId, |t.nodes|) else None
  }

  // ---------------------------------------------------------------------------------------
  // The dictionaries the walk should produce, read off the directory

  /** The dictionary for a directory `d` at `path`, shown as the node `id` tagged `tag`: its
      files (or their summary), then its subdirectories, each with its own dictionary. */
  function Expected(d: Dir, path: string, id: string, tag: string, maxFiles: int): NodeDict
    decreases d, 2
  {
    NodeDict(tag, id, ChildrenEntry(ExpectedKids(d, path, id, maxFiles)))
  }

  /** The dictionaries of the directory's children: the files' (or their summary's), then the
      subdirectories'. */
  function ExpectedKids(d: Dir, path: string, id: string, maxFiles: int): seq<NodeDict>
    decreases d, 1
  {
    DirsInListing(d);
    FileDicts(Files(d), path, id, maxFiles) + DirDicts(d, Dirs(d), path, maxFiles)
  }

  function FileDicts(files: seq<Entry>, path: string, parent: string, maxFiles: int): seq<NodeDict> {
    if |files| > maxFiles then [NodeDict(SummaryTag(|files|), SummaryId(parent), Absent)]
    else EachFileDict(files, path)
  }

  function EachFileDict(files: seq<Entry>, path: string): (r: seq<NodeDict>)
    ensures |r| == |files|
  {
    if files == [] then []
    else [NodeDict(FileTag(files[0].name), NodeId(PathJoin(path, files[0].name)), Absent)] + EachFileDict(files[1..], path)
  }

  function DirDicts(d: Dir, dirs: seq<Entry>, path: string, maxFiles: int): (r: seq<NodeDict>)
    requires forall i :: 0 <= i < |dirs| ==> dirs[i].Folder? && dirs[i] in d.entries
    ensures |r| == |dirs|
    decreases d, 0, |dirs|
  {
    if dirs == [] then []
    else
      var sub := PathJoin(path, dirs[0].name);
      assert dirs[0] in d.entries;
      [Expected(dirs[0].listing, sub, NodeId(sub), DirTag(dirs[0].name), maxFiles)]
        + DirDicts(d, dirs[1..], path, maxFiles)
  }

  /** The dictionaries of nodes without children. */
  function Leaves(ops: seq<Create>): (r: seq<NodeDict>)
    ensures |r| == |ops|
  {
    if ops == [] then [] else [NodeDict(ops[0].tag, ops[0].id, Absent)] + Leaves(ops[1..])
  }

  lemma {:induction false} EachFileLeaves(files: seq<Entry>, path: string, parent: string)
    ensures EachFileDict(files, path) == Leaves(EachFile(files, path, parent))
  {
    if files != [] {
      EachFileLeaves(files[1..], path, parent);
      assert EachFile(files, path, parent)[1..] == EachFile(files[1..], path, parent);
    }
  }

  lemma {:induction false} LeavesOf(t: Snapshot, ops: seq<Create>, fuel: nat)
    requires fuel >= |ops|
    requires forall i :: 0 <= i < |ops| ==>
      ops[i].id in t.nodes && t.nodes[ops[i].id].tag == ops[i].tag && ChildList(t, ops[i].id) == []
    ensures ToDicts(t, Ids(ops), fuel) == Some(Leaves(ops))
  {
    if ops != [] {
      assert Ids(ops)[1..] == Ids(ops[1..]);
      LeavesOf(t, ops[1..], fuel);
    }
  }

  lemma {:induction false} ToDictsAppend(t: Snapshot, a: seq<string>, b: seq<string>, fuel: nat)
    requires ToDicts(t, a, fuel).Some? && ToDicts(t, b, fuel).Some?
    ensures ToDicts(t, a + b, fuel) == Some(ToDicts(t, a, fuel).value + ToDicts(t, b, fuel).value)
    decreases |a|
  {
    if a == [] {
      assert a + b == b;
      assert ToDicts(t, a, fuel).value + ToDicts(t, b, fuel).value == ToDicts(t, b, fuel).value;
    } else {
      var ab := a + b;
      assert ab[0] == a[0] && ab[1..] == a[1..] + b;
      var first := ToDict(t, a[0], fuel).value;
      var restA := ToDicts(t, a[1..], fuel).value;
      var all := ToDicts(t, b, fuel).value;
      assert ToDicts(t, a, fuel) == Some([first] + restA);
      ToDictsAppend(t, a[1..], b, fuel);
      assert ToDicts(t, ab[1..], fuel) == Some(restA + all);
      assert ToDicts(t, ab, fuel) == Some([first] + (restA + all));
      Seqs.AppendAssoc([first], restA, all);
    }
  }

  /** How the calls for the first directory of `dirs` sit in the tree when all of `dirs`' calls
      are held exactly: its node, the walk into it, and the remaining directories' calls. */
  lemma SplitSegment(t: Snapshot, d: Dir, dirs: seq<Entry>, path: string, x: string, maxFiles: int,
                     calls: seq<Create>)
    requires dirs != [] && forall i :: 0 <= i < |dirs| ==> dirs[i].Folder? && dirs[i] in d.entries
    requires calls == DirsOps(d, dirs, path, x, maxFiles)
    requires Seqs.Distinct(Ids(calls)) && x !in Ids(calls) && Exact(t, calls)
    ensures var sub := PathJoin(path, dirs[0].name);
      var inner := Ops(dirs[0].listing, sub, NodeId(sub), maxFiles);
      var rest := DirsOps(d, dirs[1..], path, x, maxFiles);
      && NodeId(sub) in t.nodes && t.nodes[NodeId(sub)].tag == DirTag(dirs[0].name)
      && ChildList(t, NodeId(sub)) == ChildIds(inner, NodeId(sub))
      && Seqs.Distinct(Ids(inner)) && NodeId(sub) !in Ids(inner) && Exact(t, inner)
      && Seqs.Distinct(Ids(rest)) && x !in Ids(rest) && Exact(t, rest)
      && |calls| == 1 + |inner| + |rest|
  {
    var e := dirs[0];
    var sub := PathJoin(path, e.name);
    var node := Create(DirTag(e.name), NodeId(sub), x);
    var inner := Ops(e.listing, sub, NodeId(sub), maxFiles);
    var rest := DirsOps(d, dirs[1..], path, x, maxFiles);
    DirsOpsCons(d, dirs, path, x, maxFiles);
    OpsClosed(e.listing, sub, NodeId(sub), maxFiles);
    DirsOpsClosed(d, dirs[1..], path, x, maxFiles);
    SegmentIds(node, inner, rest, x);
    SegmentExact(t, node, inner, rest, x);
  }

  lemma {:induction false} DirDictsOf(t: Snapshot, d: Dir, dirs: seq<Entry>, path: string, x: string,
                                      maxFiles: int, fuel: nat, calls: seq<Create>)
    requires forall i :: 0 <= i < |dirs| ==> dirs[i].Folder? && dirs[i] in d.entries
    requires calls == DirsOps(d, dirs, path, x, maxFiles)
    requires Seqs.Distinct(Ids(calls)) && x !in Ids(calls) && Exact(t, calls)
    requires fuel >= |calls|
    ensures ToDicts(t, EntryIds(dirs, path), fuel) == Some(DirDicts(d, dirs, path, maxFiles))
    decreases d, 0, |dirs|
  {
    if dirs != [] {
      var e := dirs[0];
      var sub := PathJoin(path, e.name);
      var rest := DirsOps(d, dirs[1..], path, x, maxFiles);
      FirstDirDict(t, d, dirs, path, x, maxFiles, fuel, calls);
      DirDictsOf(t, d, dirs[1..], path, x, maxFiles, fuel, rest);
      var ids := EntryIds(dirs, path);
      assert ids[0] == NodeId(sub) && ids[1..] == EntryIds(dirs[1..], path);
    }
  }

  /** The first directory's dictionary, and what the rest of the calls still satisfy. */
  lemma {:induction false} FirstDirDict(t: Snapshot, d: Dir, dirs: seq<Entry>, path: string, x: string,
                                        maxFiles: int, fuel: nat, calls: seq<Create>)
    requires dirs != [] && forall i :: 0 <= i < |dirs| ==> dirs[i].Folder? && dirs[i] in d.entries
    requires calls == DirsOps(d, dirs, path, x, maxFiles)
    requires Seqs.Distinct(Ids(calls)) && x !in Ids(calls) && Exact(t, calls)
    requires fuel >= |calls|
    ensures var sub := PathJoin(path, dirs[0].name);
      var rest := DirsOps(d, dirs[1..], path, x, maxFiles);
      && ToDict(t, NodeId(sub), fuel) == Some(Expected(dirs[0].listing, sub, NodeId(sub), DirTag(dirs[0].name), maxFiles))
      && Seqs.Distinct(Ids(rest)) && x !in Ids(rest) && Exact(t, rest) && fuel >= |rest|
    decreases d, 0, 0
  {
    var e := dirs[0];
    var sub := PathJoin(path, e.name);
    var inner := Ops(e.listing, sub, NodeId(sub), maxFiles);
    SplitSegment(t, d, dirs, path, x, maxFiles, calls);
    ListingSmaller(d, e);
    DictOf(t, e.listing, sub, NodeId(sub), DirTag(e.name), maxFiles, fuel, inner);
  }

  /** From a node whose part of the tree the walk built exactly, `_to_dict` returns the
      dictionary read off the directory. */
  lemma {:induction false} DictOf(t: Snapshot, d: Dir, path: string, x: string, tag: string, maxFiles: int,
                                  fuel: nat, calls: seq<Create>)
    requires calls == Ops(d, path, x, maxFiles)
    requires x in t.nodes && t.nodes[x].tag == tag
    requires BuiltUnder(t, x, calls) && fuel >= 1 + |calls|
    ensures ToDict(t, x, fuel) == Some(Expected(d, path, x, tag, maxFiles))
    decreases d, 3
  {
    var ds := ExpectedKids(d, path, x, maxFiles);
    KidsWalk(t, d, path, x, maxFiles, fuel - 1, calls);
    ToDictNode(t, x, fuel, ds);
    assert Expected(d, path, x, tag, maxFiles) == NodeDict(tag, x, ChildrenEntry(ds));
  }

  /** The children's dictionaries of a node whose part of the tree the walk built exactly. */
  lemma {:induction false} KidsWalk(t: Snapshot, d: Dir, path: string, x: string, maxFiles: int,
                                    fuel: nat, calls: seq<Create>)
    requires calls == Ops(d, path, x, maxFiles)
    requires BuiltUnder(t, x, calls) && fuel >= |calls|
    ensures ToDicts(t, ChildList(t, x), fuel) == Some(ExpectedKids(d, path, x, maxFiles))
    decreases d, 2
  {
    DirsInListing(d);
    var files, dirs := Files(d), Dirs(d);
    var fileCalls := FileOps(files, path, x, maxFiles);
    var dirCalls := DirsOps(d, dirs, path, x, maxFiles);
    assert calls == fileCalls + dirCalls;
    KidsOf(t, d, files, dirs, path, x, maxFiles, fuel, fileCalls, dirCalls);
  }

  /** The dictionaries of a node's children: its file calls' leaves, then its directories'. */
  lemma {:induction false} KidsOf(t: Snapshot, d: Dir, files: seq<Entry>, dirs: seq<Entry>, path: string,
                                  x: string, maxFiles: int, fuel: nat,
                                  fileCalls: seq<Create>, dirCalls: seq<Create>)
    requires forall i :: 0 <= i < |dirs| ==> dirs[i].Folder? && dirs[i] in d.entries
    requires fileCalls == FileOps(files, path, x, maxFiles) && dirCalls == DirsOps(d, dirs, path, x, maxFiles)
    requires BuiltUnder(t, x, fileCalls + dirCalls) && fuel >= |fileCalls + dirCalls|
    ensures ToDicts(t, ChildList(t, x), fuel)
         == Some(FileDicts(files, path, x, maxFiles) + DirDicts(d, dirs, path, maxFiles))
    decreases d, 1
  {
    LevelChildren(d, files, dirs, path, x, maxFiles, fileCalls, dirCalls);
    FileOpsParents(files, path, x, maxFiles);
    DirsOpsClosed(d, dirs, path, x, maxFiles);
    LevelExact(t, fileCalls, dirCalls, x);
    LeavesOf(t, fileCalls, fuel);
    DirDictsOf(t, d, dirs, path, x, maxFiles, fuel, dirCalls);
    ToDictsAppend(t, Ids(fileCalls), EntryIds(dirs, path), fuel);
    FileDictsLeaves(files, path, x, maxFiles);
  }

  /** `_to_dict` on a node whose children's dictionaries are `ds`. */
  lemma ToDictNode(t: Snapshot, x: string, fuel: nat, ds: seq<NodeDict>)
    requires x in t.nodes && fuel >= 1
    requires ToDicts(t, ChildList(t, x), fuel - 1) == Some(ds)
    ensures ToDict(t, x, fuel) == Some(NodeDict(t.nodes[x].tag, x, ChildrenEntry(ds)))
  {
  }

  lemma FileDictsLeaves(files: seq<Entry>, path: string, parent: string, maxFiles: int)
    ensures FileDicts(files, path, parent, maxFiles) == Leaves(FileOps(files, path, parent, maxFiles))
  {
    if |files| <= maxFiles {
      EachFileLeaves(files, path, parent);
    }
  }

  /** `tree_to_dict(create_directory_tree(startpath))` is the dictionary read off the
      directory: the root tagged "📦", its files or their summary, then its directories, each
      with its own files and directories, down to the last level. */
  lemma TreeToDictOfWalk(startpath: string, d: Dir, maxFiles: int)
    requires Seqs.Distinct([RootId] + Ids(Ops(d, startpath, RootId, maxFiles)))
    ensures var t := ApplyAll(Created(Empty, RootTag, RootId, None), Ops(d, startpath, RootId, maxFiles));
      Valid(t) && TreeToDict(t) == Some(Expected(d, startpath, RootId, RootTag, maxFiles))
  {
    var calls := Ops(d, startpath, RootId, maxFiles);
    var t := ApplyAll(Created(Empty, RootTag, RootId, None), calls);
    WalkBuilt(startpath, d, maxFiles);
    DictOf(t, d, startpath, RootId, RootTag, maxFiles, |t.nodes|, calls);
  }

  /** The walk from a fresh root builds the whole tree under the root "📦", one node per call. */
  lemma WalkBuilt(startpath: string, d: Dir, maxFiles: int)
    requires Seqs.Distinct([RootId] + Ids(Ops(d, startpath, RootId, maxFiles)))
    ensures var calls := Ops(d, startpath, RootId, maxFiles);
      var t := ApplyAll(Created(Empty, RootTag, RootId, None), calls);
      && Valid(t) && RootId in t.nodes && t.nodes[RootId].tag == RootTag
      && BuiltUnder(t, RootId, calls) && |t.nodes| >= 1 + |calls|
  {
    var calls := Ops(d, startpath, RootId, maxFiles);
    var first := Created(Empty, RootTag, RootId, None);
    WalkApplicable(startpath, d, maxFiles);
    WalkValid(first, calls);
    Seqs.DistinctAppend([RootId], Ids(calls));
    ApplyKeeps(first, calls);
    WalkExact(first, calls);
    assert first.nodes.Keys == {RootId};
    assert |first.nodes| == 1;
  }

  lemma WalkValid(first: Snapshot, calls: seq<Create>)
    requires first == Created(Empty, RootTag, RootId, None) && Applicable(first, calls)
    ensures Valid(ApplyAll(first, calls))
  {
    assert Valid(Empty);
    CreatedValid(Empty, RootTag, RootId, None);
    ApplyValid(first, calls);
  }

  /** After the walk from a fresh root, every node it created holds its tag and exactly the
      children the walk attached under it, and so does the root. */
  lemma WalkExact(first: Snapshot, calls: seq<Create>)
    requires first == Created(Empty, RootTag, RootId, None) && Applicable(first, calls)
    ensures Exact(ApplyAll(first, calls), calls)
    ensures ChildList(ApplyAll(first, calls), RootId) == ChildIds(calls, RootId)
  {
    var t := ApplyAll(first, calls);
    assert first.children == map[RootId := []];
    ApplyNodes(first, calls);
    forall y ensures ChildList(t, y) == ChildIds(calls, y) {
      ApplyChildren(first, calls, y);
      assert ChildList(first, y) == [];
    }
  }

  // ---------------------------------------------------------------------------------------
  // What the tree shows

  /** The call's node is not tagged as a hidden file or directory. */
  ghost predicate Shows(c: Create) {
    forall n :: Hidden(n) ==> c.tag != FileTag(n) && c.tag != DirTag(n)
  }

  ghost predicate AllShow(ops: seq<Create>) {
    forall i :: 0 <= i < |ops| ==> Shows(ops[i])
  }

  lemma AllShowAppend(a: seq<Create>, b: seq<Create>)
    requires AllShow(a) && AllShow(b)
    ensures AllShow(a + b)
  {
    forall i | 0 <= i < |a + b| ensures Shows((a + b)[i]) {
      if i >= |a| {
        assert (a + b)[i] == b[i - |a|];
      }
    }
  }

  /** A file tag and a directory tag differ in their icon, and each names one entry. */
  lemma TagsDiffer(a: string, b: string)
    ensures FileTag(a) != DirTag(b)
    ensures FileTag(a) == FileTag(b) ==> a == b
    ensures DirTag(a) == DirTag(b) ==> a == b
  {
    assert FileTag(a)[0] != DirTag(b)[0];
    if FileTag(a) == FileTag(b) {
      assert a == FileTag(a)[2..] && b == FileTag(b)[2..];
    }
    if DirTag(a) == DirTag(b) {
      assert a == DirTag(a)[2..] && b == DirTag(b)[2..];
    }
  }

  /** The file count's tag starts with a digit where a hidden file's tag has its '.'. */
  lemma SummaryShows(c: Create, count: nat)
    requires c.tag == SummaryTag(count)
    ensures Shows(c)
  {
    forall n | Hidden(n) ensures c.tag != FileTag(n) && c.tag != DirTag(n) {
      assert c.tag[0] != DirTag(n)[0];
      assert c.tag[2] == Decimal(count)[0] && IsDigit(c.tag[2]);
      assert FileTag(n)[2] == n[0] == '.';
    }
  }

  lemma VisibleShows(c: Create, name: string)
    requires !Hidden(name) && (c.tag == FileTag(name) || c.tag == DirTag(name))
    ensures Shows(c)
  {
    forall n | Hidden(n) ensures c.tag != FileTag(n) && c.tag != DirTag(n) {
      TagsDiffer(name, n);
      TagsDiffer(n, name);
    }
  }

  /** `not e.startswith('.')`: no call of the walk makes a node for a hidden file or directory,
      at any depth; the only nodes besides the visible entries' are the file counts. */
  lemma NoHiddenNodes(d: Dir, path: string, x: string, maxFiles: int)
    ensures AllShow(Ops(d, path, x, maxFiles))
  {
    OpsShow(d, path, x, maxFiles, Ops(d, path, x, maxFiles));
  }

  lemma {:induction false} OpsShow(d: Dir, path: string, x: string, maxFiles: int, calls: seq<Create>)
    requires calls == Ops(d, path, x, maxFiles)
    ensures AllShow(calls)
    decreases d, 1
  {
    ListingSpec(d);
    DirsInListing(d);
    var files, dirs := Files(d), Dirs(d);
    var fileCalls := FileOps(files, path, x, maxFiles);
    forall i | 0 <= i < |fileCalls| ensures Shows(fileCalls[i]) {
      if |files| > maxFiles {
        SummaryShows(fileCalls[i], |files|);
      } else {
        assert files[i] in files;
        VisibleShows(fileCalls[i], files[i].name);
      }
    }
    forall i | 0 <= i < |dirs| ensures !Hidden(dirs[i].name) {
      assert dirs[i] in dirs;
    }
    DirsOpsShow(d, dirs, path, x, maxFiles, DirsOps(d, dirs, path, x, maxFiles));
    AllShowAppend(fileCalls, DirsOps(d, dirs, path, x, maxFiles));
  }

  lemma {:induction false} DirsOpsShow(d: Dir, dirs: seq<Entry>, path: string, x: string, maxFiles: int,
                                       calls: seq<Create>)
    requires forall i :: 0 <= i < |dirs| ==> dirs[i].Folder? && dirs[i] in d.entries
    requires forall i :: 0 <= i < |dirs| ==> !Hidden(dirs[i].name)
    requires calls == DirsOps(d, dirs, path, x, maxFiles)
    ensures AllShow(calls)
    decreases d, 0, |dirs|
  {
    if dirs != [] {
      var e := dirs[0];
      var sub := PathJoin(path, e.name);
      var node := Create(DirTag(e.name), NodeId(sub), x);
      var inner := Ops(e.listing, sub, NodeId(sub), maxFiles);
      var rest := DirsOps(d, dirs[1..], path, x, maxFiles);
      DirsOpsCons(d, dirs, path, x, maxFiles);
      VisibleShows(node, e.name);
      OpsShow(e.listing, sub, NodeId(sub), maxFiles, inner);
      DirsOpsShow(d, dirs[1..], path, x, maxFiles, rest);
      AllShowAppend([node], inner);
      AllShowAppend([node] + inner, rest);
    }
  }

  /** The tree `create_directory_tree(startpath)` returns: the root "📦" without a parent, and
      one node per call, holding the call's tag under the call's parent; no other node. */
  lemma WalkShape(startpath: string, d: Dir, maxFiles: int)
    requires Seqs.Distinct([RootId] + Ids(Ops(d, startpath, RootId, maxFiles)))
    ensures var calls := Ops(d, startpath, RootId, maxFiles);
      var t := ApplyAll(Created(Empty, RootTag, RootId, None), calls);
      && t.root == Some(RootId) && RootId in t.nodes && t.nodes[RootId] == Node(RootTag, None)
      && (forall y :: y in t.nodes <==> y == RootId || y in Ids(calls))
      && |t.nodes| == 1 + |calls|
      && (forall i :: 0 <= i < |calls| ==>
            calls[i].id in t.nodes && t.nodes[calls[i].id] == Node(calls[i].tag, Some(calls[i].parent)))
  {
    var calls := Ops(d, startpath, RootId, maxFiles);
    var first := Created(Empty, RootTag, RootId, None);
    WalkApplicable(startpath, d, maxFiles);
    ApplyKeeps(first, calls);
    ApplyNodes(first, calls);
    assert first.nodes == map[RootId := Node(RootTag, None)];
  }

  // ---------------------------------------------------------------------------------------
  // One dictionary per node

  /** The number of dictionaries in a nested dictionary, itself included. */
  function Size(n: NodeDict): nat
    decreases n, 1
  {
    1 + if n.children.Present? then SizeFrom(n, 0) else 0
  }

  /** The sizes of `n`'s children from the `i`-th on, added up. */
  function SizeFrom(n: NodeDict, i: nat): nat
    requires n.children.Present? && i <= |n.children.dicts|
    decreases n, 0, |n.children.dicts| - i
  {
    match n.children
    case Present(ds) =>
      if i == |ds| then 0
      else
        assert ds[i] in ds;
        Size(ds[i]) + SizeFrom(n, i + 1)
  }

  /** The sizes of the dictionaries `ds`, added up. */
  function SizeAll(ds: seq<NodeDict>): nat {
    if ds == [] then 0 else Size(ds[0]) + SizeAll(ds[1..])
  }

  lemma {:induction false} SizeFromAll(n: NodeDict, i: nat)
    requires n.children.Present? && i <= |n.children.dicts|
    ensures SizeFrom(n, i) == SizeAll(n.children.dicts[i..])
    decreases |n.children.dicts| - i
  {
    var ds := n.children.dicts;
    if i < |ds| {
      SizeFromAll(n, i + 1);
      assert ds[i..][0] == ds[i] && ds[i..][1..] == ds[i + 1..];
    }
  }

  /** A dictionary counts itself and its children's dictionaries. */
  lemma SizeNode(n: NodeDict)
    ensures Size(n) == 1 + match n.children case Absent => 0 case Present(ds) => SizeAll(ds)
  {
    if n.children.Present? {
      SizeFromAll(n, 0);
      assert n.children.dicts[0..] == n.children.dicts;
    }
  }

  lemma {:induction false} SizeAllAppend(a: seq<NodeDict>, b: seq<NodeDict>)
    ensures SizeAll(a + b) == SizeAll(a) + SizeAll(b)
  {
    if a != [] {
      assert (a + b)[0] == a[0] && (a + b)[1..] == a[1..] + b;
      SizeAllAppend(a[1..], b);
    } else {
      assert a + b == b;
    }
  }

  lemma {:induction false} SizeLeaves(ops: seq<Create>)
    ensures SizeAll(Leaves(ops)) == |ops|
  {
    if ops != [] {
      SizeLeaves(ops[1..]);
    }
  }

  /** The expected dictionary of a directory holds one dictionary per call of the walk into it,
      and one for the directory's own node. */
  lemma {:induction false} SizeExpected(d: Dir, path: string, x: string, tag: string, maxFiles: int,
                                        calls: seq<Create>)
    requires calls == Ops(d, path, x, maxFiles)
    ensures Size(Expected(d, path, x, tag, maxFiles)) == 1 + |calls|
    decreases d, 2
  {
    DirsInListing(d);
    var files, dirs := Files(d), Dirs(d);
    var fileDicts := FileDicts(files, path, x, maxFiles);
    var dirDicts := DirDicts(d, dirs, path, maxFiles);
    SizeNode(Expected(d, path, x, tag, maxFiles));
    FileDictsLeaves(files, path, x, maxFiles);
    SizeLeaves(FileOps(files, path, x, maxFiles));
    SizeDirDicts(d, dirs, path, x, maxFiles, DirsOps(d, dirs, path, x, maxFiles));
    SizeAllAppend(fileDicts, dirDicts);
    assert calls == FileOps(files, path, x, maxFiles) + DirsOps(d, dirs, path, x, maxFiles);
  }

  lemma {:induction false} SizeDirDicts(d: Dir, dirs: seq<Entry>, path: string, x: string, maxFiles: int,
                                        calls: seq<Create>)
    requires forall i :: 0 <= i < |dirs| ==> dirs[i].Folder? && dirs[i] in d.entries
    requires calls == DirsOps(d, dirs, path, x, maxFiles)
    ensures SizeAll(DirDicts(d, dirs, path, maxFiles)) == |calls|
    decreases d, 0, |dirs|
  {
    if dirs != [] {
      var e := dirs[0];
      var sub := PathJoin(path, e.name);
      var inner := Ops(e.listing, sub, NodeId(sub), maxFiles);
      var rest := DirsOps(d, dirs[1..], path, x, maxFiles);
      var ds := DirDicts(d, dirs, path, maxFiles);
      DirsOpsCons(d, dirs, path, x, maxFiles);
      SizeExpected(e.listing, sub, NodeId(sub), DirTag(e.name), maxFiles, inner);
      SizeDirDicts(d, dirs[1..], path, x, maxFiles, rest);
      assert ds[0] == Expected(e.listing, sub, NodeId(sub), DirTag(e.name), maxFiles);
      assert ds[1..] == DirDicts(d, dirs[1..], path, maxFiles);
    }
  }

  /** `tree_to_dict` of the walk's tree has one dictionary per node of the tree. */
  lemma TreeToDictSize(startpath: string, d: Dir, maxFiles: int)
    requires Seqs.Distinct([RootId] + Ids(Ops(d, startpath, RootId, maxFiles)))
    ensures var t := ApplyAll(Created(Empty, RootTag, RootId, None), Ops(d, startpath, RootId, maxFiles));
      TreeToDict(t).Some? && Size(TreeToDict(t).value) == |t.nodes|
  {
    var calls := Ops(d, startpath, RootId, maxFiles);
    TreeToDictOfWalk(startpath, d, maxFiles);
    WalkShape(startpath, d, maxFiles);
    SizeExpected(d, startpath, RootId, RootTag, maxFiles, calls);
  }

  // ---------------------------------------------------------------------------------------
  // The page's names

  /** `urlparse(github_url).path.split('/')[-1]`, given the URL's path. */
  function RepoName(urlPath: string): string {
    var parts := Split(urlPath, '/');
    parts[|parts| - 1]
  }

  /** `output_file`, or `f"{repo_name}_structure.html"` when none is given. */
  function OutputFile(repoName: string, given: Option<string>): string {
    given.GetOr(repoName + "_structure.html")
  }

  /** The repository name is the URL path's last segment: what follows its last '/', or the
      whole path when it has none; so the default page name has no '/' in it and is written to
      the current directory. */
  lemma RepoNameSpec(urlPath: string, given: Option<string>)
    ensures var name := RepoName(urlPath);
      && |name| <= |urlPath| && name == urlPath[|urlPath| - |name|..] && '/' !in name
      && ('/' in urlPath ==> urlPath[|urlPath| - |name| - 1] == '/')
      && ('/' !in urlPath ==> name == urlPath)
      && (given.None? ==> OutputFile(name, given) == name + "_structure.html"
                          && '/' !in OutputFile(name, given))
      && (given.Some? ==> OutputFile(name, given) == given.value)
  {
    SplitLast(urlPath, '/');
  }
}
