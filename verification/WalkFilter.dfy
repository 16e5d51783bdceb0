// Two ways of deciding which files are indexed: the scan prunes a directory walk,
// the watcher filters the path of each event. Paths are cleaned and absolute.
module WalkFilter {
  import opened Options
  import opened Text

  // ----- Paths -----

  /** The names from the file system root down. */
  type Path = seq<string>

  predicate CleanName(name: string) {
    name != "" && name != "." && name != ".." && '/' !in name
  }

  predicate Clean(p: Path) {
    forall i :: 0 <= i < |p| ==> CleanName(p[i])
  }

  function Render(p: Path): string {
    if p == [] then "/" else "/" + Join(p, '/')
  }

  lemma SplitRendered(p: Path)
    requires Clean(p) && p != []
    ensures Split(Render(p), '/') == [""] + p
  {
    SplitUndoesJoin(p, '/');
    SplitPiece("", Join(p, '/'), '/');
    assert "" + ['/'] + Join(p, '/') == Render(p);
  }

  lemma RenderIsInjective(p: Path, q: Path)
    requires Clean(p) && Clean(q)
    ensures Render(p) == Render(q) <==> p == q
  {
    assert forall r: Path :: r != [] ==> |Join(r, '/')| >= |r[0]|;
    if p != [] {
      SplitRendered(p);
      assert ([""] + p)[1..] == p;
    }
    if q != [] {
      SplitRendered(q);
      assert ([""] + q)[1..] == q;
    }
  }

  /** A proper ancestor below the root, rendered and followed by a slash, is a prefix. */
  lemma AncestorIsPrefix(p: Path, q: Path)
    requires q != [] && q < p
    ensures Render(q) + "/" <= Render(p)
  {
    hide Join;
    var rest := p[|q|..];
    assert p == q + rest;
    JoinAppend(q, rest, '/');
  }

  lemma RestIsBelow(p: Path, q: Path, s: string)
    requires Clean(p) && Clean(q) && p != [] && q != []
    requires Render(p) == Render(q) + ['/'] + s
    ensures q < p
  {
    hide Split, Render;
    SplitRendered(p);
    SplitRendered(q);
    SplitAcross(Render(q), s, '/');
    assert p == ([""] + p)[1..] == ([""] + q + Split(s, '/'))[1..] == q + Split(s, '/');
  }

  /** A string prefix up to a slash is a proper ancestor, when it is not the root. */
  lemma PrefixIsBelow(p: Path, q: Path)
    requires Clean(p) && Clean(q) && q != []
    requires Render(q) + "/" <= Render(p)
    ensures q < p
  {
    if p == [] {
      assert false;
    } else {
      var n := |Render(q)| + 1;
      assert Render(p) == Render(p)[..n] + Render(p)[n..];
      assert Render(p)[..n] == Render(q) + ['/'];
      RestIsBelow(p, q, Render(p)[n..]);
    }
  }

  lemma NothingBelowDoubleSlash(p: Path)
    requires Clean(p)
    ensures !("//" <= Render(p))
  {
    if p != [] {
      assert CleanName(p[0]) && p[0][0] in p[0];
      assert Render(p)[1] == Join(p, '/')[0] == p[0][0];
    }
  }

  /** A string prefix up to a slash is an ancestor, except that nothing is below "//". */
  lemma PrefixIsAncestor(p: Path, q: Path)
    requires Clean(p) && Clean(q)
    ensures Render(q) + "/" <= Render(p) <==> q != [] && q < p
  {
    if q == [] {
      NothingBelowDoubleSlash(p);
    } else {
      hide Render;
      if q < p {
        AncestorIsPrefix(p, q);
      }
      if Render(q) + "/" <= Render(p) {
        PrefixIsBelow(p, q);
      }
    }
  }

  // ----- Hidden names -----

  predicate IsHiddenName(name: string) {
    name != "" && name != "." && name != ".." && name[0] == '.'
  }

  function Common(a: Path, b: Path): (k: nat)
    ensures k <= |a| && k <= |b| && a[..k] == b[..k]
    ensures k < |a| && k < |b| ==> a[k] != b[k]
  {
    if a == [] || b == [] || a[0] != b[0] then 0
    else
      assert a == [a[0]] + a[1..] && b == [b[0]] + b[1..];
      1 + Common(a[1..], b[1..])
  }

  function Ups(n: nat): Path {
    seq(n, _ => "..")
  }

  /** The path seen from the root, both absolute and clean. */
  function Rel(root: Path, path: Path): string {
    var k := Common(root, path);
    var names := Ups(|root| - k) + path[k..];
    if names == [] then "." else Join(names, '/')
  }

  function RelativePathBelowRoot(root: Path, path: Path): Option<string> {
    var rel := Rel(root, path);
    if rel == ".." || "../" <= rel then None else Some(rel)
  }

  predicate HasHiddenComponentBelowRoot(root: Path, path: Path) {
    var rel := RelativePathBelowRoot(root, path);
    if rel.None? || rel.value == "." then false
    else exists name :: name in Split(rel.value, '/') && IsHiddenName(name)
  }

  ghost predicate Shown(root: Path, path: Path) {
    root <= path ==> forall i :: |root| <= i < |path| ==> path[i] == "" || path[i][0] != '.'
  }

  lemma RelIsTheRest(root: Path, path: Path)
    requires Clean(root) && Clean(path) && root < path
    ensures RelativePathBelowRoot(root, path) == Some(Join(path[|root|..], '/'))
    ensures Join(path[|root|..], '/') != "."
  {
    var k := Common(root, path);
    assert k == |root|;
    var rest := path[k..];
    assert Ups(0) + rest == rest;
    RelStaysBelow(rest);
  }

  lemma RelStaysBelow(rest: Path)
    requires Clean(rest) && rest != []
    ensures var rel := Join(rest, '/'); rel != ".." && !("../" <= rel) && rel != "."
  {
    hide Split, Join;
    var rel := Join(rest, '/');
    assert CleanName(rest[0]);
    SplitUndoesJoin(rest, '/');
    SplitPiece("..", "", '/');
    SplitPiece(".", "", '/');
    if "../" <= rel {
      assert rel == ".." + ['/'] + rel[3..];
      SplitPiece("..", rel[3..], '/');
    }
  }

  lemma RelGoesUp(root: Path, path: Path)
    requires !(root <= path)
    ensures RelativePathBelowRoot(root, path).None?
  {
    var k := Common(root, path);
    var names := Ups(|root| - k) + path[k..];
    assert names == [".."] + names[1..];
    if |names| > 1 {
      assert Join(names, '/') == ".." + ['/'] + Join(names[1..], '/');
    }
  }

  lemma DotNamesAreHidden(name: string)
    requires CleanName(name)
    ensures IsHiddenName(name) <==> name[0] == '.'
    ensures !IsHiddenName("") && !IsHiddenName(".") && !IsHiddenName("..")
  {
  }

  /** The test on strings looks at exactly the names below the root, "..name" included. */
  lemma HiddenBelowRoot(root: Path, path: Path)
    requires Clean(root) && Clean(path)
    ensures HasHiddenComponentBelowRoot(root, path) <==> !Shown(root, path)
  {
    hide RelativePathBelowRoot, Split, Join, IsHiddenName;
    if !(root <= path) {
      RelGoesUp(root, path);
    } else if root == path {
      RelOfItself(root);
    } else {
      var rest := path[|root|..];
      RelIsTheRest(root, path);
      SplitUndoesJoin(rest, '/');
      forall i | 0 <= i < |rest| ensures rest[i] == path[|root| + i] && (IsHiddenName(rest[i]) <==> rest[i][0] == '.') {
        DotNamesAreHidden(rest[i]);
      }
      assert forall i :: |root| <= i < |path| ==> path[i] == rest[i - |root|];
    }
  }

  lemma RelOfItself(root: Path)
    ensures RelativePathBelowRoot(root, root) == Some(".")
  {
    assert Common(root, root) == |root|;
  }

  // ----- The watcher's filter -----

  datatype Config = Config(root: Path, watchHidden: bool, excluded: seq<Path>)

  ghost predicate CleanConfig(c: Config) {
    Clean(c.root) && forall e :: e in c.excluded ==> Clean(e)
  }

  predicate PathUnderWatchRoot(path: string, root: string) {
    root == "/" || path == root || root + "/" <= path
  }

  predicate IsExcluded(path: string, excluded: seq<string>) {
    exists i :: 0 <= i < |excluded| && (path == excluded[i] || excluded[i] + "/" <= path)
  }

  function RenderAll(paths: seq<Path>): seq<string> {
    seq(|paths|, i requires 0 <= i < |paths| => Render(paths[i]))
  }

  /** What handleMetaFID asks of the path of an event. */
  predicate Accepts(c: Config, p: Path) {
    && PathUnderWatchRoot(Render(p), Render(c.root))
    && !IsExcluded(Render(p), RenderAll(c.excluded))
    && (c.watchHidden || !HasHiddenComponentBelowRoot(c.root, p))
  }

  /** The path or an ancestor of it is excluded, but "/" excludes nothing below it. */
  ghost predicate Covered(c: Config, p: Path) {
    exists e :: e in c.excluded && e <= p && (e != [] || p == [])
  }

  ghost predicate Visible(c: Config, p: Path) {
    c.watchHidden || Shown(c.root, p)
  }

  lemma FilterMeaning(c: Config, p: Path)
    requires CleanConfig(c) && Clean(p)
    ensures Accepts(c, p) <==> c.root <= p && !Covered(c, p) && Visible(c, p)
  {
    hide Render, HasHiddenComponentBelowRoot, Shown, Clean, IsExcluded, Covered;
    HiddenBelowRoot(c.root, p);
    UnderRoot(c.root, p);
    ExcludedIsCovered(c, p);
  }

  lemma ExcludedIsCovered(c: Config, p: Path)
    requires CleanConfig(c) && Clean(p)
    ensures IsExcluded(Render(p), RenderAll(c.excluded)) <==> Covered(c, p)
  {
    hide Render, Clean;
    var paths, rendered := c.excluded, RenderAll(c.excluded);
    forall i | 0 <= i < |paths|
      ensures Render(p) == rendered[i] || rendered[i] + "/" <= Render(p)
         <==> paths[i] <= p && (paths[i] != [] || p == [])
    {
      assert paths[i] in paths;
      UnderExcluded(p, paths[i]);
    }
    if Covered(c, p) {
      var e :| e in c.excluded && e <= p && (e != [] || p == []);
      var i :| 0 <= i < |paths| && paths[i] == e;
      assert Render(p) == rendered[i] || rendered[i] + "/" <= Render(p);
    }
    if IsExcluded(Render(p), rendered) {
      var i :| 0 <= i < |rendered| && (Render(p) == rendered[i] || rendered[i] + "/" <= Render(p));
      assert paths[i] in paths && paths[i] <= p;
    }
  }

  lemma UnderRoot(root: Path, p: Path)
    requires Clean(root) && Clean(p)
    ensures PathUnderWatchRoot(Render(p), Render(root)) <==> root <= p
  {
    PrefixIsAncestor(p, root);
    RenderIsInjective(p, root);
    RenderIsInjective(root, []);
    assert PathUnderWatchRoot(Render(p), Render(root)) <==> root == [] || p == root || (root != [] && root < p);
  }

  lemma UnderExcluded(p: Path, e: Path)
    requires Clean(p) && Clean(e)
    ensures Render(p) == Render(e) || Render(e) + "/" <= Render(p) <==> e <= p && (e != [] || p == [])
  {
    hide Render, Clean;
    PrefixIsAncestor(p, e);
    RenderIsInjective(p, e);
  }

  // ----- The scan -----

  datatype Node = File | Dir(entries: seq<Entry>)

  datatype Entry = Entry(name: string, node: Node)

  /** All the files below a path, in the order of the walk. */
  function Files(path: Path, node: Node): seq<Path>
    decreases node
  {
    match node
    case File => [path]
    case Dir(entries) => FilesIn(path, entries)
  }

  function FilesIn(path: Path, entries: seq<Entry>): seq<Path>
    decreases entries
  {
    if entries == [] then []
    else
      var last := entries[|entries| - 1];
      FilesIn(path, entries[..|entries| - 1]) + Files(path + [last.name], last.node)
  }

  /** The tree has a file at the end of these names. */
  ghost predicate HasFile(node: Node, names: Path)
    decreases node
  {
    match node
    case File => names == []
    case Dir(entries) =>
      && names != []
      && exists i :: 0 <= i < |entries| && entries[i].name == names[0] && HasFile(entries[i].node, names[1..])
  }

  /** The files of the walk are those of the tree, no more and no fewer. */
  lemma {:induction false} FilesAreTheTrees(path: Path, node: Node, p: Path)
    ensures p in Files(path, node) <==> path <= p && HasFile(node, p[|path|..])
    decreases node, 0
  {
    match node
    case File =>
      assert path <= p && p[|path|..] == [] ==> p == path;
    case Dir(entries) =>
      FilesInAreTheTrees(path, entries, p);
  }

  lemma {:induction false} FilesInAreTheTrees(path: Path, entries: seq<Entry>, p: Path)
    ensures p in FilesIn(path, entries)
       <==> path < p && exists i :: 0 <= i < |entries| && entries[i].name == p[|path|]
                                    && HasFile(entries[i].node, p[|path| + 1..])
    decreases entries
  {
    hide HasFile, Files;
    if entries != [] {
      var n := |entries| - 1;
      var front, child := entries[..n], path + [entries[n].name];
      FilesInAreTheTrees(path, front, p);
      FilesAreTheTrees(child, entries[n].node, p);
      assert child <= p <==> path < p && p[|path|] == entries[n].name by {
        assert child <= p ==> p[..|child|] == child;
        assert path < p ==> p[..|path|] == path;
        assert path < p && p[|path|] == entries[n].name ==> p[..|child|] == child;
      }
      assert forall i :: 0 <= i < n ==> front[i] == entries[i];
    }
  }

  /** A directory at or below the root and strictly above p is excluded. */
  ghost predicate Pruned(c: Config, p: Path) {
    exists k :: |c.root| <= k < |p| && p[..k] in c.excluded
  }

  ghost predicate Reached(c: Config, p: Path) {
    Visible(c, p) && !Pruned(c, p)
  }

  ghost function Kept(c: Config, paths: seq<Path>): seq<Path> {
    if paths == [] then []
    else
      var n := |paths| - 1;
      Kept(c, paths[..n]) + if Reached(c, paths[n]) then [paths[n]] else []
  }

  class Syncer {
    const config: Config
    var synced: seq<Path>

    constructor (config: Config)
      ensures this.config == config && synced == []
    {
      this.config := config;
      synced := [];
    }

    /** One callback of the walk: sync the file, go on, or skip the directory. */
    method WalkEntry(path: Path, isDir: bool) returns (skipDir: bool)
      requires CleanConfig(config) && Clean(path) && config.root <= path
      modifies this`synced
      ensures skipDir <==> isDir && (path in config.excluded || !Visible(config, path))
      ensures synced == old(synced) + if !isDir && Visible(config, path) then [path] else []
    {
      HiddenBelowRoot(config.root, path);
      RenderedAmong(path, config.excluded);
      if isDir && Render(path) in RenderAll(config.excluded) {
        return true;
      }
      if !config.watchHidden && HasHiddenComponentBelowRoot(config.root, path) {
        return isDir;
      }
      if !isDir {
        synced := synced + [path];
      }
      skipDir := false;
    }

    /** The walk syncs exactly the reached files below, in order. */
    method Walk(path: Path, node: Node)
      requires CleanConfig(config) && Clean(path) && CleanNode(node) && config.root <= path
      requires !Pruned(config, path)
      modifies this`synced
      ensures synced == old(synced) + Kept(config, Files(path, node))
      decreases node
    {
      hide Kept, Pruned, Reached, Visible, Clean;
      FilesAreBelow(path, node);
      var skipDir := WalkEntry(path, node.Dir?);
      if node.File? {
        OneFile(config, path);
        return;
      }
      if skipDir {
        NothingReachedBelow(config, path, Files(path, node));
        return;
      }
      var entries := node.entries;
      OneFile(config, path);
      for i := 0 to |entries|
        invariant synced == old(synced) + Kept(config, FilesIn(path, entries[..i]))
      {
        var child := path + [entries[i].name];
        ChildIsOpen(config, path, entries[i].name);
        Walk(child, entries[i].node);
        assert entries[..i + 1][..i] == entries[..i];
        KeptAppend(config, FilesIn(path, entries[..i]), Files(child, entries[i].node));
      }
      assert entries[..|entries|] == entries;
    }
  }

  ghost predicate CleanNode(node: Node) {
    node.Dir? ==>
      forall i :: 0 <= i < |node.entries| ==> CleanName(node.entries[i].name) && CleanNode(node.entries[i].node)
  }

  lemma RenderedAmong(path: Path, paths: seq<Path>)
    requires Clean(path) && forall e :: e in paths ==> Clean(e)
    ensures Render(path) in RenderAll(paths) <==> path in paths
  {
    forall i | 0 <= i < |paths| ensures RenderAll(paths)[i] == Render(path) <==> paths[i] == path {
      assert paths[i] in paths;
      RenderIsInjective(paths[i], path);
    }
  }

  lemma OneFile(c: Config, path: Path)
    requires !Pruned(c, path)
    ensures Kept(c, []) == []
    ensures Kept(c, [path]) == if Visible(c, path) then [path] else []
  {
    assert [path][..0] == [];
  }

  /** Inside a directory that was not skipped, nothing above is excluded. */
  lemma ChildIsOpen(c: Config, path: Path, name: string)
    requires Clean(path) && CleanName(name) && !Pruned(c, path) && path !in c.excluded
    ensures Clean(path + [name]) && !Pruned(c, path + [name])
  {
    var child := path + [name];
    assert forall k :: 0 <= k <= |path| ==> child[..k] == path[..k];
    assert path[..|path|] == path;
  }

  lemma {:induction false} KeptAppend(c: Config, a: seq<Path>, b: seq<Path>)
    ensures Kept(c, a + b) == Kept(c, a) + Kept(c, b)
  {
    if b == [] {
      assert a + b == a;
    } else {
      var n := |b| - 1;
      KeptAppend(c, a, b[..n]);
      assert (a + b)[..|a| + n] == a + b[..n];
    }
  }

  lemma {:induction false} KeptAreReached(c: Config, paths: seq<Path>)
    ensures forall p :: p in Kept(c, paths) <==> p in paths && Reached(c, p)
  {
    if paths != [] {
      var n := |paths| - 1;
      KeptAreReached(c, paths[..n]);
      assert paths == paths[..n] + [paths[n]];
    }
  }

  lemma {:induction false} FilesAreBelow(path: Path, node: Node)
    requires Clean(path) && CleanNode(node)
    ensures forall p :: p in Files(path, node) ==> path <= p && Clean(p) && (node.Dir? ==> path < p)
    decreases node, 0
  {
    if node.Dir? {
      FilesInAreBelow(path, node.entries);
    }
  }

  lemma {:induction false} FilesInAreBelow(path: Path, entries: seq<Entry>)
    requires Clean(path)
    requires forall i :: 0 <= i < |entries| ==> CleanName(entries[i].name) && CleanNode(entries[i].node)
    ensures forall p :: p in FilesIn(path, entries) ==> path < p && Clean(p)
    decreases entries
  {
    if entries != [] {
      var n := |entries| - 1;
      FilesInAreBelow(path, entries[..n]);
      FilesAreBelow(path + [entries[n].name], entries[n].node);
    }
  }

  /** Below a skipped directory nothing is reached. */
  lemma {:induction false} NothingReachedBelow(c: Config, path: Path, paths: seq<Path>)
    requires c.root <= path && (path in c.excluded || !Visible(c, path))
    requires forall p :: p in paths ==> path < p
    ensures Kept(c, paths) == []
  {
    KeptAreReached(c, paths);
    forall p | p in paths ensures !Reached(c, p) {
      assert p[..|path|] == path;
      if !Visible(c, path) {
        var i :| |c.root| <= i < |path| && path[i] != "" && path[i][0] == '.';
        assert p[i] == path[i];
      }
    }
    assert Kept(c, paths) != [] ==> Kept(c, paths)[0] in Kept(c, paths);
  }

  // ----- Agreement -----

  /** Scan and filter decide alike about every file of the tree. */
  ghost predicate Agree(c: Config, tree: Node) {
    forall p :: p in Files(c.root, tree) ==> (p in Kept(c, Files(c.root, tree)) <==> Accepts(c, p))
  }

  /** Some excluded path other than "/" is a proper ancestor of the root. */
  ghost predicate AncestorExcluded(c: Config) {
    exists e :: e in c.excluded && e != [] && e < c.root
  }

  /** "/" is both watched and excluded. */
  ghost predicate SlashExcluded(c: Config) {
    c.root == [] && [] in c.excluded
  }

  /** Scan and filter agree exactly when
      - as long as exclusions lie at or below the root and are not the root "/" itself:
        no file that the scan reaches is listed as an excluded path;
      - when an ancestor of the root is excluded, so that the filter accepts nothing:
        every file is hidden or below an excluded directory of the tree;
      - when the root "/" is excluded, so that the scan reaches nothing: every file is
        hidden or excluded otherwise. */
  lemma AgreementIsExact(c: Config, tree: Node)
    requires CleanConfig(c) && CleanNode(tree)
    ensures !AncestorExcluded(c) && !SlashExcluded(c) ==>
              (Agree(c, tree) <==> forall p :: p in Files(c.root, tree) && p in c.excluded ==> !Reached(c, p))
    ensures AncestorExcluded(c) ==> (Agree(c, tree) <==> forall p :: p in Files(c.root, tree) ==> !Reached(c, p))
    ensures SlashExcluded(c) && tree.Dir? ==>
              (Agree(c, tree) <==> forall p :: p in Files(c.root, tree) ==> Covered(c, p) || !Visible(c, p))
  {
    hide Visible, Clean;
    var files := Files(c.root, tree);
    FilesAreBelow(c.root, tree);
    KeptAreReached(c, files);
    forall p | p in files ensures Accepts(c, p) <==> !Covered(c, p) && Visible(c, p) {
      FilterMeaning(c, p);
    }
    forall p | p in files
      ensures !AncestorExcluded(c) && !SlashExcluded(c) ==> (Covered(c, p) <==> Pruned(c, p) || p in c.excluded)
      ensures AncestorExcluded(c) ==> Covered(c, p)
      ensures SlashExcluded(c) && tree.Dir? ==> Pruned(c, p)
    {
      CoveredOrPruned(c, p);
    }
  }

  lemma CoveredOrPruned(c: Config, p: Path)
    requires c.root <= p
    ensures !AncestorExcluded(c) && !SlashExcluded(c) ==> (Covered(c, p) <==> Pruned(c, p) || p in c.excluded)
    ensures AncestorExcluded(c) ==> Covered(c, p)
    ensures SlashExcluded(c) && p != [] ==> Pruned(c, p)
  {
    if Covered(c, p) {
      var e :| e in c.excluded && e <= p && (e != [] || p == []);
      assert p[..|e|] == e && p[..|c.root|] == c.root;
      assert |e| < |c.root| ==> e < c.root;
      assert |e| == |p| ==> e == p;
    }
    if Pruned(c, p) {
      var k :| |c.root| <= k < |p| && p[..k] in c.excluded;
      assert p[..k] <= p;
    }
    if SlashExcluded(c) && p != [] {
      assert p[..0] == [];
    }
  }

  /** In particular, when every excluded path is a directory at or below the root and
      not "/", the scan syncs the files of the tree that the filter accepts, and no other. */
  lemma ScanIsFilter(c: Config, tree: Node)
    requires CleanConfig(c) && CleanNode(tree)
    requires forall e :: e in c.excluded ==> c.root <= e && e != [] && e !in Files(c.root, tree)
    ensures forall p :: p in Kept(c, Files(c.root, tree)) <==> p in Files(c.root, tree) && Accepts(c, p)
  {
    AgreementIsExact(c, tree);
    KeptAreReached(c, Files(c.root, tree));
    assert Agree(c, tree);
  }

  /** A file that is itself excluded is scanned and not watched, ... */
  lemma ExcludedFileIsScanned(name: string)
    requires CleanName(name) && name[0] != '.'
    ensures !Agree(Config(["w"], false, [["w", name]]), Dir([Entry(name, File)]))
  {
    var c, p := Config(["w"], false, [["w", name]]), ["w", name];
    OneFileTree(c, name);
    assert p == c.root + [name] && p in c.excluded && p[..1] == ["w"];
    assert Covered(c, p) && !Pruned(c, p);
    DisagreeOn(c, Dir([Entry(name, File)]), p);
  }

  /** ... so is every visible file when an ancestor of the root is excluded, ... */
  lemma ExcludedAncestorIsScanned(name: string)
    requires CleanName(name) && name[0] != '.'
    ensures !Agree(Config(["v", "w"], false, [["v"]]), Dir([Entry(name, File)]))
  {
    var c, p := Config(["v", "w"], false, [["v"]]), ["v", "w", name];
    OneFileTree(c, name);
    assert p == c.root + [name] && ["v"] <= p && ["v"] in c.excluded && p[..2] == ["v", "w"];
    assert Covered(c, p) && !Pruned(c, p);
    DisagreeOn(c, Dir([Entry(name, File)]), p);
  }

  /** ... and with "/" watched and excluded every visible file is watched and not scanned. */
  lemma ExcludedSlashIsWatched(name: string)
    requires CleanName(name) && name[0] != '.'
    ensures !Agree(Config([], false, [[]]), Dir([Entry(name, File)]))
  {
    var c, p := Config([], false, [[]]), [name];
    OneFileTree(c, name);
    assert p == c.root + [name] && p[..0] == [] && [] in c.excluded;
    assert !Covered(c, p) && Pruned(c, p);
    DisagreeOn(c, Dir([Entry(name, File)]), p);
  }

  lemma OneFileTree(c: Config, name: string)
    ensures c.root + [name] in Files(c.root, Dir([Entry(name, File)]))
  {
    var entries := [Entry(name, File)];
    assert entries[..0] == [];
    assert FilesIn(c.root, entries) == FilesIn(c.root, []) + Files(c.root + [name], File);
  }

  lemma DisagreeOn(c: Config, tree: Node, p: Path)
    requires CleanConfig(c) && Clean(p) && c.root <= p && p in Files(c.root, tree)
    requires Reached(c, p) <==> Covered(c, p) || !Visible(c, p)
    ensures !Agree(c, tree)
  {
    KeptAreReached(c, Files(c.root, tree));
    FilterMeaning(c, p);
  }
}
