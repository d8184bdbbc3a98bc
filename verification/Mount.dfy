/** initialise_initrd of src/initrd.c: from an archive image back to a tree of directories and files. */
module Mount {
  import opened Memory
  import opened Paths
  import opened FileTree
  import opened Archive

  type Names = seq<string>

  // ---------------------------------------------------------------- what the tree holds

  /** The built-in directory, or a directory above one of the paths. */
  ghost predicate DirectoryName(paths: seq<Names>, names: Names) {
    names == [] || names == ["dev"] || exists j :: 0 <= j < |paths| && names < paths[j]
  }

  /** File j is at paths[j]; every directory is above some path in dirs, or built in; there are no other nodes. */
  ghost predicate Holds(nodes: Nodes, kids: Kids, depth: map<int, nat>, root: int, next: int, paths: seq<Names>,
                        dirs: seq<Names>, files: seq<int>) {
    && TreeOk(nodes, kids, depth, root, next) && |files| == |paths|
    && (forall j :: 0 <= j < |paths| ==> FileAt(nodes, depth, root, files[j], paths[j], j))
    && (forall n :: n in nodes ==> Explained(nodes, depth, root, dirs, files, n))
    && Walk(nodes, kids, root, root, ["dev"]) != 0
  }

  ghost predicate FileAt(nodes: Nodes, depth: map<int, nat>, root: int, n: int, path: Names, inode: nat) {
    && n in nodes && n in depth && !nodes[n].isDirectory && nodes[n].inode == inode
    && NamesTo(nodes, depth, root, n) == path
  }

  ghost predicate Explained(nodes: Nodes, depth: map<int, nat>, root: int, dirs: seq<Names>, files: seq<int>, n: int) {
    && n in nodes && n in depth
    && if nodes[n].isDirectory then DirectoryName(dirs, NamesTo(nodes, depth, root, n)) else n in files
  }

  /** Path p cannot join these: it names the built-in directory, or one of the two is above or equal to the other. */
  ghost predicate Clash(paths: seq<Names>, p: Names) {
    p == ["dev"] || exists j :: 0 <= j < |paths| && (paths[j] <= p || p <= paths[j])
  }

  // ---------------------------------------------------------------- names and nodes

  lemma {:induction false} NamesKept(nodes: Nodes, nodes': Nodes, depth: map<int, nat>, depth': map<int, nat>,
                                     root: int, d: int, c: int, n: int)
    requires Grown(nodes, nodes', d, c) && n in depth && n in nodes && c !in depth && c in depth'
    requires depth' == depth[c := depth'[c]]
    requires forall m :: m in nodes && m != root ==> nodes[m].parent in nodes && nodes[m].parent in depth
    ensures n in depth' && NamesTo(nodes', depth', root, n) == NamesTo(nodes, depth, root, n)
    decreases depth[n]
  {
    if n != root && depth[nodes[n].parent] < depth[n] {
      NamesKept(nodes, nodes', depth, depth', root, d, c, nodes[n].parent);
    }
  }

  lemma Parents(nodes: Nodes, kids: Kids, depth: map<int, nat>, root: int, next: int)
    requires TreeOk(nodes, kids, depth, root, next)
    ensures forall m :: m in nodes && m != root ==> nodes[m].parent in nodes && nodes[m].parent in depth
  {
    forall m | m in nodes && m != root ensures nodes[m].parent in nodes && nodes[m].parent in depth {
      Rooted(nodes, kids, depth, root, next, m);
    }
  }

  lemma NamesBelow(nodes: Nodes, kids: Kids, depth: map<int, nat>, root: int, next: int, n: int)
    requires TreeOk(nodes, kids, depth, root, next) && n in nodes && n != root
    ensures nodes[n].parent in nodes && nodes[n].parent in depth && n in depth
    ensures NamesTo(nodes, depth, root, n) == NamesTo(nodes, depth, root, nodes[n].parent) + [nodes[n].name]
  {
    Rooted(nodes, kids, depth, root, next, n);
  }

  /** An entry of directory d found by name. */
  lemma EntryNames(nodes: Nodes, kids: Kids, depth: map<int, nat>, root: int, next: int, d: int, name: string)
    requires TreeOk(nodes, kids, depth, root, next) && d in nodes && d in kids && d in depth
    requires Named(nodes, kids[d], name) != 0
    ensures var m := Named(nodes, kids[d], name);
            && m in nodes && m in depth && m in kids
            && NamesTo(nodes, depth, root, m) == NamesTo(nodes, depth, root, d) + [name]
  {
    assert FamilyOk(nodes, kids[d], d);
    NamedMeans(nodes, kids[d], name);
    var m := Named(nodes, kids[d], name);
    assert nodes[m].parent == d && NodeOk(nodes, kids, depth, root, m);
    if m != root { NamesBelow(nodes, kids, depth, root, next, m); } else { Rooted(nodes, kids, depth, root, next, d); }
  }

  lemma {:induction false} WalkPrefix(nodes: Nodes, kids: Kids, root: int, n: int, names: Names, more: Names)
    requires Walk(nodes, kids, root, n, names + more) != 0
    ensures Walk(nodes, kids, root, n, names) != 0
    decreases |names|
  {
    if names != [] {
      assert (names + more)[1..] == names[1..] + more;
      hide Step;
      WalkFromZero(nodes, kids, root, (names + more)[1..]);
      WalkPrefix(nodes, kids, root, Step(nodes, kids, root, n, names[0]), names[1..], more);
    } else {
      WalkFromZero(nodes, kids, root, more);
    }
  }

  /** Every node above another is a directory. */
  lemma {:induction false} AboveIsDirectory(nodes: Nodes, kids: Kids, depth: map<int, nat>, root: int, next: int,
                                            n: int, k: nat)
    requires TreeOk(nodes, kids, depth, root, next) && n in nodes && n in depth && k < depth[n]
    requires |NamesTo(nodes, depth, root, n)| == depth[n]
    ensures var a := Walk(nodes, kids, root, root, NamesTo(nodes, depth, root, n)[..k]);
            a in nodes && nodes[a].isDirectory
    decreases depth[n]
  {
    Rooted(nodes, kids, depth, root, next, n);
    NamesBelow(nodes, kids, depth, root, next, n);
    var p := nodes[n].parent;
    WalkArrives(nodes, kids, depth, root, next, p);
    var above := NamesTo(nodes, depth, root, p);
    assert NamesTo(nodes, depth, root, n)[..k] == above[..k];
    if k < |above| {
      AboveIsDirectory(nodes, kids, depth, root, next, p, k);
    } else {
      assert above[..k] == above;
      HasChild(nodes, kids, depth, root, next, n);
    }
  }

  lemma HasChild(nodes: Nodes, kids: Kids, depth: map<int, nat>, root: int, next: int, n: int)
    requires TreeOk(nodes, kids, depth, root, next) && n in nodes && n != root
    ensures nodes[n].parent in nodes && nodes[nodes[n].parent].isDirectory
  {
    assert NodeOk(nodes, kids, depth, root, n);
    assert FamilyOk(nodes, kids[nodes[n].parent], nodes[n].parent);
  }

  /** Where the walk stands while path p is being added: at the directory of its first k names. */
  ghost predicate Standing(nodes: Nodes, depth: map<int, nat>, root: int, d: int, p: Names, k: nat) {
    && k < |p| && d in nodes && d in depth && nodes[d].isDirectory && NamesTo(nodes, depth, root, d) == p[..k]
  }

  /** A file in the way of p is one of its prefixes. */
  lemma FileInTheWay(nodes: Nodes, kids: Kids, depth: map<int, nat>, root: int, next: int, paths: seq<Names>,
                     dirs: seq<Names>, files: seq<int>, d: int, p: Names, k: nat)
    requires Holds(nodes, kids, depth, root, next, paths, dirs, files) && Standing(nodes, depth, root, d, p, k)
    requires d in kids
    requires var m := Named(nodes, kids[d], p[k]); m != 0 && (m in nodes ==> !nodes[m].isDirectory)
    ensures Clash(paths, p)
  {
    hide TreeOk, Named, Walk, NamesTo;
    var m := Named(nodes, kids[d], p[k]);
    EntryNames(nodes, kids, depth, root, next, d, p[k]);
    assert p[..k] + [p[k]] == p[..k + 1];
    assert Explained(nodes, depth, root, dirs, files, m);
    var j :| 0 <= j < |files| && files[j] == m;
    assert FileAt(nodes, depth, root, files[j], paths[j], j);
    assert paths[j] <= p;
  }

  /** A directory in the place of p is above an earlier path, or built in. */
  lemma NodeInPlace(nodes: Nodes, kids: Kids, depth: map<int, nat>, root: int, next: int, paths: seq<Names>,
                    files: seq<int>, d: int, p: Names)
    requires Holds(nodes, kids, depth, root, next, paths, paths + [p], files) && p != []
    requires Standing(nodes, depth, root, d, p, |p| - 1) && d in kids && Named(nodes, kids[d], p[|p| - 1]) != 0
    ensures Clash(paths, p)
  {
    hide TreeOk, Named, Walk, NamesTo, Clash;
    var m := Named(nodes, kids[d], p[|p| - 1]);
    EntryNames(nodes, kids, depth, root, next, d, p[|p| - 1]);
    assert p[..|p| - 1] + [p[|p| - 1]] == p;
    if nodes[m].isDirectory {
      assert Explained(nodes, depth, root, paths + [p], files, m);
      AboveClash(paths, p);
    } else {
      FileInTheWay(nodes, kids, depth, root, next, paths, paths + [p], files, d, p, |p| - 1);
    }
  }

  lemma AboveClash(paths: seq<Names>, p: Names)
    requires DirectoryName(paths + [p], p) && p != []
    ensures Clash(paths, p)
  {
    if p != ["dev"] {
      var j :| 0 <= j < |paths + [p]| && p < (paths + [p])[j];
      assert j < |paths| && p <= paths[j];
    }
  }

  /** When the place of p is free under a directory, p clashes with nothing. */
  lemma FreePlace(nodes: Nodes, kids: Kids, depth: map<int, nat>, root: int, next: int, paths: seq<Names>,
                  dirs: seq<Names>, files: seq<int>, d: int, p: Names)
    requires Holds(nodes, kids, depth, root, next, paths, dirs, files) && p != [] && ValidName(p[|p| - 1])
    requires Standing(nodes, depth, root, d, p, |p| - 1) && d in kids && Named(nodes, kids[d], p[|p| - 1]) == 0
    ensures !Clash(paths, p)
  {
    hide TreeOk, Named, Walk, NamesTo, Step, ValidName, DirectoryName;
    var k := |p| - 1;
    assert p == p[..k] + [p[k]];
    WalkArrives(nodes, kids, depth, root, next, d);
    WalkAppend(nodes, kids, root, root, p[..k], p[k]);
    StepFree(nodes, kids, root, d, p[k]);
    ZeroOut(nodes, kids, depth, root, next);
    forall j | 0 <= j < |paths| ensures !(paths[j] <= p) && !(p <= paths[j]) {
      assert FileAt(nodes, depth, root, files[j], paths[j], j);
      WalkArrives(nodes, kids, depth, root, next, files[j]);
      NotBelowFile(nodes, kids, depth, root, next, d, paths[j], p);
      NotAboveNode(nodes, kids, root, p, paths[j]);
    }
  }

  lemma StepFree(nodes: Nodes, kids: Kids, root: int, d: int, name: string)
    requires d in nodes && d in kids && ValidName(name) && Named(nodes, kids[d], name) == 0
    ensures Step(nodes, kids, root, d, name) == 0
  {
    hide Named;
  }

  lemma NotAboveNode(nodes: Nodes, kids: Kids, root: int, p: Names, path: Names)
    requires Walk(nodes, kids, root, root, p) == 0 && Walk(nodes, kids, root, root, path) != 0
    ensures !(p <= path)
  {
    hide Walk;
    if p <= path {
      assert path == p + path[|p|..];
      WalkPrefix(nodes, kids, root, root, p, path[|p|..]);
    }
  }

  /** A path that leads to a file is no prefix of one whose last directory exists and lacks its last name. */
  lemma NotBelowFile(nodes: Nodes, kids: Kids, depth: map<int, nat>, root: int, next: int, d: int, file: Names,
                     p: Names)
    requires TreeOk(nodes, kids, depth, root, next) && p != [] && Standing(nodes, depth, root, d, p, |p| - 1)
    requires Walk(nodes, kids, root, root, p) == 0
    requires var f := Walk(nodes, kids, root, root, file); f != 0 && f in nodes && !nodes[f].isDirectory
    ensures !(file <= p)
  {
    hide TreeOk, Walk, NamesTo;
    if |file| < |p| { PrefixDirectory(nodes, kids, depth, root, next, d, p, |file|); }
    PrefixIs(file, p);
  }

  lemma PrefixIs(file: Names, p: Names)
    ensures file <= p ==> |file| <= |p| && file == p[..|file|]
    ensures p[..|p|] == p
  {
  }

  lemma PrefixDirectory(nodes: Nodes, kids: Kids, depth: map<int, nat>, root: int, next: int, d: int, p: Names, m: nat)
    requires TreeOk(nodes, kids, depth, root, next) && p != [] && Standing(nodes, depth, root, d, p, |p| - 1) && m < |p|
    ensures var a := Walk(nodes, kids, root, root, p[..m]); a in nodes && nodes[a].isDirectory
  {
    hide TreeOk, Walk, NamesTo;
    WalkArrives(nodes, kids, depth, root, next, d);
    assert p[..|p| - 1][..m] == p[..m];
    if m < |p| - 1 { AboveIsDirectory(nodes, kids, depth, root, next, d, m); }
  }

  // ---------------------------------------------------------------- adding one file

  lemma WiderDirectories(nodes: Nodes, kids: Kids, depth: map<int, nat>, root: int, next: int, paths: seq<Names>,
                         p: Names, files: seq<int>)
    requires Holds(nodes, kids, depth, root, next, paths, paths, files)
    ensures Holds(nodes, kids, depth, root, next, paths, paths + [p], files)
    ensures root in nodes && root in depth && root in kids && nodes[root].isDirectory
    ensures NamesTo(nodes, depth, root, root) == []
  {
    hide TreeOk, Walk, NamesTo;
    TreeKeys(nodes, kids, depth, root, next);
    RootIn(nodes, kids, depth, root, next);
    assert NamesTo(nodes, depth, root, root) == [] by { RootNames(nodes, depth, root); }
    forall n | n in nodes ensures Explained(nodes, depth, root, paths + [p], files, n) {
      assert Explained(nodes, depth, root, paths, files, n);
      if nodes[n].isDirectory { WiderName(paths, p, NamesTo(nodes, depth, root, n)); }
    }
  }

  lemma RootNames(nodes: Nodes, depth: map<int, nat>, root: int)
    requires root in depth
    ensures NamesTo(nodes, depth, root, root) == []
  {
  }

  lemma WiderName(paths: seq<Names>, p: Names, names: Names)
    requires DirectoryName(paths, names)
    ensures DirectoryName(paths + [p], names)
  {
    if j :| 0 <= j < |paths| && names < paths[j] { assert (paths + [p])[j] == paths[j]; }
  }

  /** Every older node keeps its names when one is attached. */
  lemma OldNames(nodes: Nodes, kids: Kids, depth: map<int, nat>, root: int, next: int, d: int, node: FsNode, v: nat)
    requires TreeOk(nodes, kids, depth, root, next) && d in nodes
    ensures forall n ::
              n in nodes ==>
                && n in depth
                && NamesTo(AttachedNodes(nodes, d, next, node), depth[next := v], root, n) ==
                     NamesTo(nodes, depth, root, n)
  {
    hide TreeOk, NamesTo, AttachedNodes, Grown;
    TreeKeys(nodes, kids, depth, root, next);
    Parents(nodes, kids, depth, root, next);
    AttachedGrown(nodes, d, next, node);
    forall n | n in nodes
      ensures n in depth
      ensures NamesTo(AttachedNodes(nodes, d, next, node), depth[next := v], root, n) == NamesTo(nodes, depth, root, n)
    {
      NamesKept(nodes, AttachedNodes(nodes, d, next, node), depth, depth[next := v], root, d, next, n);
    }
  }

  /** The new node adds its own name to those of its directory. */
  lemma NewNames(nodes: Nodes, kids: Kids, depth: map<int, nat>, root: int, next: int, d: int, node: FsNode)
    requires TreeOk(nodes, kids, depth, root, next) && d in nodes && d in depth && nodes[d].isDirectory
    requires ValidName(node.name)
    requires d in kids && Named(nodes, kids[d], node.name) == 0
    ensures next in AttachedNodes(nodes, d, next, node)
    ensures NamesTo(AttachedNodes(nodes, d, next, node), depth[next := depth[d] + 1], root, next) ==
              NamesTo(nodes, depth, root, d) + [node.name]
  {
    hide TreeOk, NamesTo, Named, ValidName, AttachedNodes, Grown, AttachedKids;
    var nodes', depth' := AttachedNodes(nodes, d, next, node), depth[next := depth[d] + 1];
    TreeKeys(nodes, kids, depth, root, next);
    AttachedGrown(nodes, d, next, node);
    GrownKeys(nodes, nodes', d, next);
    OldNames(nodes, kids, depth, root, next, d, node, depth[d] + 1);
    AttachKeeps(nodes, kids, depth, root, next, d, node);
    NamesBelow(nodes', AttachedKids(kids, d, next), depth', root, next + 1, next);
  }

  lemma GrownKeys(nodes: Nodes, nodes': Nodes, d: int, c: int)
    requires Grown(nodes, nodes', d, c)
    ensures nodes'.Keys == nodes.Keys + {c} && c !in nodes
    ensures forall n ::
              n in nodes ==> nodes'[n].isDirectory == nodes[n].isDirectory && nodes'[n].inode == nodes[n].inode
  {
  }

  /** Attaching an intermediate directory of p, or p's file, keeps what the tree holds. */
  lemma HoldsAttached(nodes: Nodes, kids: Kids, depth: map<int, nat>, root: int, next: int, paths: seq<Names>, p: Names,
                      files: seq<int>, d: int, k: nat, node: FsNode)
    requires Holds(nodes, kids, depth, root, next, paths, paths + [p], files) && Standing(nodes, depth, root, d, p, k)
    requires d in kids
    requires ValidName(node.name) && node.name == p[k] && Named(nodes, kids[d], node.name) == 0
    requires node.isDirectory <==> k + 1 < |p|
    requires !node.isDirectory ==> node.inode == |paths|
    ensures var nodes', kids' := AttachedNodes(nodes, d, next, node), AttachedKids(kids, d, next);
            var depth' := depth[next := depth[d] + 1];
            if node.isDirectory then
              && Holds(nodes', kids', depth', root, next + 1, paths, paths + [p], files)
              && Standing(nodes', depth', root, next, p, k + 1)
            else
              Holds(nodes', kids', depth', root, next + 1, paths + [p], paths + [p], files + [next])
  {
    hide TreeOk, NamesTo, Named, ValidName, AttachedNodes, Walk, DirectoryName, Grown;
    var nodes', kids' := AttachedNodes(nodes, d, next, node), AttachedKids(kids, d, next);
    var depth' := depth[next := depth[d] + 1];
    OldNames(nodes, kids, depth, root, next, d, node, depth[d] + 1);
    NewNames(nodes, kids, depth, root, next, d, node);
    AttachKeeps(nodes, kids, depth, root, next, d, node);
    TreeKeys(nodes, kids, depth, root, next);
    RootIn(nodes, kids, depth, root, next);
    AttachedGrown(nodes, d, next, node);
    GrownKeys(nodes, nodes', d, next);
    WalkKept(nodes, kids, depth, root, next, d, node, root, ["dev"]);
    PrefixSplit(p, k);
    var files' := if node.isDirectory then files else files + [next];
    forall n | n in nodes' ensures Explained(nodes', depth', root, paths + [p], files', n) {
      if n == next {
        if node.isDirectory { NewName(paths, p, k); } else { assert files'[|files|] == next; }
      } else {
        assert Explained(nodes, depth, root, paths + [p], files, n);
        if !nodes[n].isDirectory { StillIn(files, files', n); }
      }
    }
    forall j | 0 <= j < |paths| ensures FileAt(nodes', depth', root, files[j], paths[j], j) {
      assert FileAt(nodes, depth, root, files[j], paths[j], j);
    }
    if !node.isDirectory {
      forall j | 0 <= j < |paths + [p]| ensures FileAt(nodes', depth', root, files'[j], (paths + [p])[j], j) {
        if j < |paths| { assert FileAt(nodes', depth', root, files[j], paths[j], j); }
      }
    }
  }

  lemma PrefixSplit(p: Names, k: nat)
    requires k < |p|
    ensures p[..k] + [p[k]] == p[..k + 1] && (k + 1 == |p| ==> p[..k + 1] == p)
  {
  }

  lemma NewName(paths: seq<Names>, p: Names, k: nat)
    requires k + 1 < |p|
    ensures DirectoryName(paths + [p], p[..k + 1])
  {
    assert (paths + [p])[|paths|] == p && p[..k + 1] < p;
  }

  lemma StillIn(files: seq<int>, files': seq<int>, n: int)
    requires n in files && files <= files'
    ensures n in files'
  {
    var j :| 0 <= j < |files| && files[j] == n;
    assert files'[j] == n;
  }

  lemma StandingStep(nodes: Nodes, kids: Kids, depth: map<int, nat>, root: int, next: int, d: int, p: Names, k: nat)
    requires TreeOk(nodes, kids, depth, root, next) && Standing(nodes, depth, root, d, p, k) && k + 1 < |p| && d in kids
    requires var m := Named(nodes, kids[d], p[k]); m != 0 && m in nodes && nodes[m].isDirectory
    ensures var m := Named(nodes, kids[d], p[k]); m in kids && Standing(nodes, depth, root, m, p, k + 1)
  {
    hide TreeOk, Named, NamesTo;
    EntryNames(nodes, kids, depth, root, next, d, p[k]);
    PrefixSplit(p, k);
  }

  lemma EntryIn(nodes: Nodes, kids: Kids, depth: map<int, nat>, root: int, next: int, d: int, name: string)
    requires TreeOk(nodes, kids, depth, root, next) && d in nodes && d in kids && d in depth
    requires Named(nodes, kids[d], name) != 0
    ensures Named(nodes, kids[d], name) in nodes
  {
    EntryNames(nodes, kids, depth, root, next, d, name);
  }

  /** One component of add_archived_file below directory d: an existing directory is entered, a missing one made, a file
      is an assertion failure. */
  method EnterDirectory(tree: Tree, ghost paths: seq<Names>, ghost p: Names, ghost files: seq<int>, d: int,
                        ghost k: nat, name: string)
      returns (ok: bool, m: int)
    requires Holds(tree.nodes, tree.kids, tree.depth, tree.root, tree.next, paths, paths + [p], files)
    requires Standing(tree.nodes, tree.depth, tree.root, d, p, k) && k + 1 < |p| && p[k] == name && ValidName(name)
    modifies tree
    ensures !ok ==> Clash(paths, p)
    ensures ok ==> Holds(tree.nodes, tree.kids, tree.depth, tree.root, tree.next, paths, paths + [p], files)
    ensures ok ==> Standing(tree.nodes, tree.depth, tree.root, m, p, k + 1)
  {
    hide TreeOk, Named, Walk, NamesTo, Clash, ValidName, DirectoryName, AttachedNodes, AttachedKids;
    TreeKeys(tree.nodes, tree.kids, tree.depth, tree.root, tree.next);
    RootIn(tree.nodes, tree.kids, tree.depth, tree.root, tree.next);
    m := tree.FindChild(d, name);
    if m != 0 {
      EntryIn(tree.nodes, tree.kids, tree.depth, tree.root, tree.next, d, name);
      if !tree.nodes[m].isDirectory {
        FileInTheWay(tree.nodes, tree.kids, tree.depth, tree.root, tree.next, paths, paths + [p], files, d, p, k);
        return false, 0;
      }
      StandingStep(tree.nodes, tree.kids, tree.depth, tree.root, tree.next, d, p, k);
      return true, m;
    }
    HoldsAttached(tree.nodes, tree.kids, tree.depth, tree.root, tree.next, paths, p, files, d, k,
                  FsNode(name, true, 0, 0, 0, 0));
    m := tree.Attach(d, name, true, 0);
    ok := true;
  }

  /** The last component: the file itself, whose place must be free. */
  method PlaceFile(tree: Tree, ghost paths: seq<Names>, ghost p: Names, ghost files: seq<int>, d: int, name: string,
                   index: nat)
      returns (ok: bool, ghost file: int)
    requires Holds(tree.nodes, tree.kids, tree.depth, tree.root, tree.next, paths, paths + [p], files)
    requires p != [] && Standing(tree.nodes, tree.depth, tree.root, d, p, |p| - 1) && p[|p| - 1] == name
    requires ValidName(name) && index == |paths|
    modifies tree
    ensures ok <==> !Clash(paths, p)
    ensures ok ==>
              Holds(tree.nodes, tree.kids, tree.depth, tree.root, tree.next, paths + [p], paths + [p], files + [file])
  {
    hide TreeOk, Named, Walk, NamesTo, Clash, ValidName, DirectoryName, AttachedNodes, AttachedKids;
    file := 0;
    TreeKeys(tree.nodes, tree.kids, tree.depth, tree.root, tree.next);
    var m := tree.FindChild(d, name);
    if m != 0 {
      NodeInPlace(tree.nodes, tree.kids, tree.depth, tree.root, tree.next, paths, files, d, p);
      return false, 0;
    }
    FreePlace(tree.nodes, tree.kids, tree.depth, tree.root, tree.next, paths, paths + [p], files, d, p);
    HoldsAttached(tree.nodes, tree.kids, tree.depth, tree.root, tree.next, paths, p, files, d, |p| - 1,
                  FsNode(name, false, index, 0, 0, 0));
    file := tree.next;
    var c := tree.Attach(d, name, false, index);
    ok := true;
  }

  lemma GoodRest(path: string, e: nat)
    requires e < |path| && path[e] == '/' && (e + 1 == |path| || path[e + 1] == '/')
    ensures !Good(path[e + 1..])
  {
    LeadingSlash(path[e + 1..]);
  }

  lemma NameIsValid(name: string)
    requires 0 < |name| < NAME_MAX && !IsDots(name) && forall i :: 0 <= i < |name| ==> name[i] != '/'
    ensures ValidName(name)
  {
  }

  /** add_archived_file on the text of a header name: it passes its assertions exactly when the text is a good path that
      clashes with no earlier one. With 63 characters at most, the component limit of 32 is never what stops it. */
  method AddArchivedFile(tree: Tree, ghost paths: seq<Names>, ghost files: seq<int>, name: string, index: nat)
      returns (ok: bool, ghost file: int)
    requires Holds(tree.nodes, tree.kids, tree.depth, tree.root, tree.next, paths, paths, files) && index == |paths|
    requires |name| < NAME_BYTES
    modifies tree
    ensures ok <==> Good(name) && !Clash(paths, Components(name))
    ensures ok ==> var p := Components(name);
                   Holds(tree.nodes, tree.kids, tree.depth, tree.root, tree.next, paths + [p], paths + [p],
                         files + [file])
  {
    hide TreeOk, Named, Walk, NamesTo, Clash, ValidName, DirectoryName, Good, Components, Holds, Standing, IsDots;
    ok, file := false, 0;
    ghost var p := Components(name);
    if name == "" || name[0] == '/' { LeadingSlash(name); return; }
    WiderDirectories(tree.nodes, tree.kids, tree.depth, tree.root, tree.next, paths, p, files);
    assert name[0..] == name;
    LaterComponents(name, 0);
    AtRoot(tree.nodes, tree.depth, tree.root, p);
    var directory, position, count := tree.root, 0, 0;
    while true
      invariant position < |name| && name[position] != '/' && 2 * count <= position
      invariant (Good(name) <==> Good(name[position..]))
      invariant count < |p| && p[count..] == Components(name[position..])
      invariant Holds(tree.nodes, tree.kids, tree.depth, tree.root, tree.next, paths, paths + [p], files)
      invariant Standing(tree.nodes, tree.depth, tree.root, directory, p, count)
      decreases |name| - position
    {
      var e := tree.NextSlash(name, position);
      NextGood(name, position, e);
      TakeName(name, position, e);
      var component := name[position..e];
      if component == "." || component == ".." { DotsAre(component); return; }
      NotDotsAre(component);
      NameIsValid(component);
      count := count + 1;
      assert count <= MAX_PATH_COMPONENTS;
      Taken(p, count, component, Components(name[e..]));
      if e == |name| {
        assert name[e..] == "";
        EmptyPath();
        ok, file := PlaceFile(tree, paths, p, files, directory, component, index);
        return;
      }
      if e + 1 == |name| || name[e + 1] == '/' { GoodRest(name, e); return; }
      SkipSlash(name, e);
      LaterComponents(name, e + 1);
      var entered, m := EnterDirectory(tree, paths, p, files, directory, count - 1, component);
      if !entered { return; }
      directory, position := m, e + 1;
    }
  }

  lemma Taken(p: Names, count: nat, component: string, later: Names)
    requires 0 < count <= |p| && p[count - 1..] == [component] + later
    ensures p[count - 1] == component && p[count..] == later && |p| == count + |later|
  {
    assert p[count - 1..][0] == component;
    assert p[count..] == p[count - 1..][1..];
  }

  lemma DotsAre(name: string)
    requires name == "." || name == ".."
    ensures IsDots(name)
  {
  }

  lemma NotDotsAre(name: string)
    requires name != "." && name != ".."
    ensures !IsDots(name)
  {
  }

  lemma AtRoot(nodes: Nodes, depth: map<int, nat>, root: int, p: Names)
    requires p != [] && root in nodes && root in depth && nodes[root].isDirectory
    requires NamesTo(nodes, depth, root, root) == []
    ensures Standing(nodes, depth, root, root, p, 0)
  {
    assert p[..0] == [];
  }

  // ---------------------------------------------------------------- mounting an image

  /** The characters before the first NUL. */
  function TextOf(field: string): (text: string)
    ensures |text| <= |field|
  {
    if field == "" || field[0] == '\0' then "" else [field[0]] + TextOf(field[1..])
  }

  ghost predicate Shaped(image: Image) {
    |image.records| == SLOTS && forall i :: 0 <= i < SLOTS ==> |image.records[i].name| == NAME_BYTES
  }

  function SizeOf(image: Image): nat {
    HEADER_BYTES + |image.data|
  }

  /** A header the kernel accepts: the magic byte, bytes inside the image, a terminated name. */
  predicate RecordOk(r: Record, size: nat) {
    r.magic == RECORD_MAGIC && r.offset <= size && r.length <= size - r.offset && |TextOf(r.name)| < NAME_BYTES
  }

  /** The paths of the first n headers. */
  ghost function PathsOf(records: seq<Record>, n: nat): (paths: seq<Names>)
    requires n <= |records|
    ensures |paths| == n && forall i :: 0 <= i < n ==> paths[i] == Components(TextOf(records[i].name))
  {
    if n == 0 then [] else PathsOf(records, n - 1) + [Components(TextOf(records[n - 1].name))]
  }

  ghost predicate FileMounts(image: Image, i: nat)
    requires i < |image.records|
  {
    && RecordOk(image.records[i], SizeOf(image)) && Good(TextOf(image.records[i].name))
    && !Clash(PathsOf(image.records, i), Components(TextOf(image.records[i].name)))
  }

  /** Every assertion of initialise_initrd passes. */
  ghost predicate Mounts(image: Image)
    requires Shaped(image)
  {
    image.count <= SLOTS && forall i :: 0 <= i < image.count ==> FileMounts(image, i)
  }

  lemma {:induction false} TextIs(field: string, n: nat)
    requires n <= |field| && (forall i :: 0 <= i < n ==> field[i] != '\0') && (n < |field| ==> field[n] == '\0')
    ensures TextOf(field) == field[..n]
  {
    if n > 0 { TextIs(field[1..], n - 1); }
  }

  /** What one header must be, in numbers; n is the length of the name in its field. */
  lemma FileMountsMeans(image: Image, i: nat, n: nat)
    requires Shaped(image) && i < 64 && n <= 64 && (forall k :: 0 <= k < n ==> image.records[i].name[k] != '\0')
    requires n < 64 ==> image.records[i].name[n] == '\0'
    ensures FileMounts(image, i) <==>
              var (r, earlier) := (image.records[i], PathsOf(image.records, i));
              && r.magic == 0xBF && r.offset + r.length <= 4868 + |image.data| && n <= 63 && Normal(r.name[..n])
              && var p := Components(r.name[..n]);
                 p != ["dev"] && forall j :: 0 <= j < i ==> !(earlier[j] <= p) && !(p <= earlier[j])
  {
    hide Good, Normal, Components, TextOf;
    TextIs(image.records[i].name, n);
    GoodMeans(image.records[i].name[..n]);
  }

  /** The search for the terminator. */
  method NameText(field: string) returns (text: string)
    ensures text == TextOf(field)
  {
    var length := 0;
    while length < |field| && field[length] != '\0'
      invariant length <= |field| && forall i :: 0 <= i < length ==> field[i] != '\0'
    {
      length := length + 1;
    }
    TextIs(field, length);
    text := field[..length];
  }

  /** initialise_initrd: it passes all its assertions exactly when Mounts holds; then the tree has each header's file at
      its path, the built-in directory, the directories above them, and nothing else. */
  method MountImage(image: Image) returns (ok: bool, tree: Tree, ghost files: seq<int>)
    requires Shaped(image)
    ensures fresh(tree) && (ok <==> Mounts(image))
    ensures ok ==> var paths := PathsOf(image.records, image.count);
                   Holds(tree.nodes, tree.kids, tree.depth, tree.root, tree.next, paths, paths, files)
  {
    hide TreeOk, Named, Walk, NamesTo, Clash, ValidName, DirectoryName, Good, Components, Holds, RecordOk,
         AttachedNodes, AttachedKids, TextOf;
    files := [];
    tree := new Tree("initrd");
    DevValid();
    TreeKeys(tree.nodes, tree.kids, tree.depth, tree.root, tree.next);
    NoNames(tree.nodes, tree.kids[tree.root], "dev");
    StartTree(tree.nodes, tree.kids, tree.depth, tree.root, tree.next);
    var dev := tree.Attach(tree.root, "dev", true, 0);
    if image.count > SLOTS { return false, tree, files; }
    var i := 0;
    while i < image.count
      invariant i <= image.count && forall j :: 0 <= j < i ==> FileMounts(image, j)
      invariant var paths := PathsOf(image.records, i);
                Holds(tree.nodes, tree.kids, tree.depth, tree.root, tree.next, paths, paths, files)
    {
      var text := NameText(image.records[i].name);
      if !RecordOk(image.records[i], SizeOf(image)) { assert !FileMounts(image, i); return false, tree, files; }
      NamesShort(image.records[i], SizeOf(image));
      ghost var file;
      ok, file := AddArchivedFile(tree, PathsOf(image.records, i), files, text, i);
      if !ok { assert !FileMounts(image, i); return; }
      files := files + [file];
      i := i + 1;
    }
    ok := true;
  }

  lemma NamesShort(r: Record, size: nat)
    requires RecordOk(r, size)
    ensures |TextOf(r.name)| < NAME_BYTES
  {
  }

  lemma DevValid()
    ensures ValidName("dev")
  {
  }

  lemma NoNames(nodes: Nodes, kids: seq<int>, name: string)
    requires kids == []
    ensures Named(nodes, kids, name) == 0
  {
  }

  /** The tree before the first file: the root and the built-in directory. */
  lemma StartTree(nodes: Nodes, kids: Kids, depth: map<int, nat>, root: int, next: int)
    requires TreeOk(nodes, kids, depth, root, next) && nodes.Keys == {root} && root in kids && kids[root] == []
    ensures var node := FsNode("dev", true, 0, 0, 0, 0);
            && root in depth && nodes[root].isDirectory
            && Holds(AttachedNodes(nodes, root, next, node), AttachedKids(kids, root, next),
                     depth[next := depth[root] + 1], root, next + 1, [], [], [])
  {
    hide TreeOk, NamesTo, Named, AttachedNodes, Walk, Grown, Step, ValidName;
    var node := FsNode("dev", true, 0, 0, 0, 0);
    DevValid();
    NoNames(nodes, kids[root], "dev");
    TreeKeys(nodes, kids, depth, root, next);
    RootIn(nodes, kids, depth, root, next);
    RootNames(nodes, depth, root);
    AttachKeeps(nodes, kids, depth, root, next, root, node);
    OldNames(nodes, kids, depth, root, next, root, node, depth[root] + 1);
    NewNames(nodes, kids, depth, root, next, root, node);
    AttachedGrown(nodes, root, next, node);
    GrownKeys(nodes, AttachedNodes(nodes, root, next, node), root, next);
    FrontFound(nodes, kids, root, next, root, node);
    WalkOne(AttachedNodes(nodes, root, next, node), AttachedKids(kids, root, next), root, "dev");
    assert [] + ["dev"] == ["dev"];
  }

  lemma WalkOne(nodes: Nodes, kids: Kids, root: int, name: string)
    ensures root != 0 ==> Walk(nodes, kids, root, root, [name]) == Step(nodes, kids, root, root, name)
  {
    hide Step;
    assert ([name])[1..] == [];
  }

  // ---------------------------------------------------------------- what the builder wrote

  /** No two of the files' paths clash, and none with the built-in directory. */
  ghost predicate NoClashes(files: seq<HostFile>) {
    forall i :: 0 <= i < |files| ==> !Clash(HostPaths(files, i), Components(files[i].path))
  }

  ghost function HostPaths(files: seq<HostFile>, n: nat): (paths: seq<Names>)
    requires n <= |files|
    ensures |paths| == n && forall i :: 0 <= i < n ==> paths[i] == Components(files[i].path)
  {
    if n == 0 then [] else HostPaths(files, n - 1) + [Components(files[n - 1].path)]
  }

  ghost predicate BuiltFrom(image: Image, files: seq<HostFile>) {
    && Accepts(files) && (forall i :: 0 <= i < |files| ==> IsText(files[i].path))
    && image.count == |files| && RecordsAre(image.records, files, |files|) && image.data == DataOf(files)
  }

  lemma PaddedText(name: string)
    requires |name| < NAME_BYTES && IsText(name)
    ensures TextOf(Padded(name)) == name
  {
    TextIs(Padded(name), |name|);
  }

  lemma BuiltShape(image: Image, files: seq<HostFile>)
    requires BuiltFrom(image, files)
    ensures Shaped(image)
  {
  }

  lemma BuiltRecord(image: Image, files: seq<HostFile>, i: nat)
    requires BuiltFrom(image, files) && i < |files|
    ensures Shaped(image) && TextOf(image.records[i].name) == files[i].path && RecordOk(image.records[i], SizeOf(image))
    ensures Good(files[i].path)
  {
    hide Good, TextOf;
    BuiltShape(image, files);
    PaddedText(files[i].path);
    DataAt(files, i);
    assert image.records[i] == RecordOf(files, i);
  }

  lemma {:induction false} BuiltPaths(image: Image, files: seq<HostFile>, n: nat)
    requires BuiltFrom(image, files) && n <= |files|
    ensures n <= |image.records| && PathsOf(image.records, n) == HostPaths(files, n)
  {
    hide Accepts, TextOf, RecordOk, Good;
    BuiltShape(image, files);
    if n > 0 {
      BuiltPaths(image, files, n - 1);
      BuiltRecord(image, files, n - 1);
    }
  }

  /** The builder accepts a file named like the kernel's built-in directory, which the kernel will not mount. */
  lemma BuiltInNameTaken()
    ensures var files := [HostFile("dev", true, [])]; Accepts(files) && !NoClashes(files)
  {
    var files := [HostFile("dev", true, [])];
    SingleName("dev");
    assert Clash(HostPaths(files, 0), Components(files[0].path));
  }

  /** It also accepts a file next to another in a directory of the same name. */
  lemma FileAboveFile()
    ensures var files := [HostFile("bin", true, []), HostFile("bin/sh", true, [])]; Accepts(files) && !NoClashes(files)
  {
    hide Good, Components;
    var files := [HostFile("bin", true, []), HostFile("bin/sh", true, [])];
    SingleName("bin");
    SingleName("sh");
    TwoNames("bin", "sh");
    assert "bin" + "/" + "sh" == "bin/sh";
    var paths := HostPaths(files, 1);
    assert paths[0] == ["bin"] && paths[0] <= ["bin", "sh"];
    assert Clash(paths, Components(files[1].path));
    assert OffsetOf(files, 0) == OffsetOf(files, 1) == OffsetOf(files, 2) == HEADER_BYTES;
  }

  lemma SingleName(name: string)
    requires name != "" && !IsDots(name) && forall i :: 0 <= i < |name| ==> name[i] != '/'
    ensures Components(name) == [name] && Good(name)
  {
    OneComponent(name, "");
    NameLengthIs(name, "");
    assert name + "" == name && name[..|name|] == name;
  }

  lemma TwoNames(name: string, last: string)
    requires name != "" && !IsDots(name) && forall i :: 0 <= i < |name| ==> name[i] != '/'
    requires Components(last) == [last] && Good(last)
    ensures Components(name + "/" + last) == [name, last] && Good(name + "/" + last)
  {
    OneComponent(name, "/" + last);
    NameLengthIs(name, "/" + last);
    var path := name + "/" + last;
    assert name + ("/" + last) == path && ("/" + last)[1..] == last;
    assert path[..|name|] == name && path[|name| + 1..] == last;
  }

  /** The kernel's assertions pass on a built image exactly when no two paths clash. */
  lemma BuiltImageMounts(image: Image, files: seq<HostFile>)
    requires BuiltFrom(image, files)
    ensures Shaped(image) && (Mounts(image) <==> NoClashes(files))
  {
    hide Good, TextOf, RecordOk, Clash, Components, BuiltFrom;
    BuiltShape(image, files);
    CountFits(image, files);
    forall i | 0 <= i < |files|
      ensures FileMounts(image, i) <==> !Clash(HostPaths(files, i), Components(files[i].path))
    {
      BuiltRecord(image, files, i);
      BuiltPaths(image, files, i);
    }
  }

  lemma CountFits(image: Image, files: seq<HostFile>)
    requires BuiltFrom(image, files)
    ensures image.count == |files| <= SLOTS && |files| <= |image.records|
  {
  }

  /** initrd_read: the bytes of file inode from offset on, at most size of them. */
  method ReadFile(image: Image, inode: nat, offset: nat, size: nat) returns (data: seq<Byte>)
    requires inode < |image.records| && RecordOk(image.records[inode], SizeOf(image))
    requires image.records[inode].offset >= HEADER_BYTES
    ensures var bytes := FileBytes(image, inode);
            var end := if offset + size <= |bytes| then offset + size else |bytes|;
            data == if offset >= |bytes| then [] else bytes[offset..end]
  {
    hide TextOf;
    var r := image.records[inode];
    if offset >= r.length { return []; }
    var got := if size > r.length - offset then r.length - offset else size;
    var at := r.offset - HEADER_BYTES + offset;
    data := image.data[at..at + got];
    Slices(image.data, r.offset - HEADER_BYTES, r.length, offset, got);
  }

  lemma Slices(data: seq<Byte>, at: nat, length: nat, offset: nat, got: nat)
    requires at + length <= |data| && offset + got <= length
    ensures data[at..at + length][offset..offset + got] == data[at + offset..at + offset + got]
  {
    var piece := data[at..at + length];
    var x, y := piece[offset..offset + got], data[at + offset..at + offset + got];
    forall k | 0 <= k < got ensures x[k] == y[k] {
      assert x[k] == piece[offset + k];
    }
    assert x == y;
  }

  function FileBytes(image: Image, inode: nat): seq<Byte>
    requires inode < |image.records| && RecordOk(image.records[inode], SizeOf(image))
    requires image.records[inode].offset >= HEADER_BYTES
  {
    var at := image.records[inode].offset - HEADER_BYTES;
    image.data[at..at + image.records[inode].length]
  }

  lemma BuiltBytes(image: Image, files: seq<HostFile>, i: nat)
    requires BuiltFrom(image, files) && i < |files|
    ensures i < |image.records| && RecordOk(image.records[i], SizeOf(image)) && image.records[i].offset >= HEADER_BYTES
    ensures FileBytes(image, i) == files[i].bytes
  {
    hide BuiltFrom, Good, TextOf, OffsetOf, DataOf, Padded, Blanks;
    BuiltRecord(image, files, i);
    DataAt(files, i);
    RecordIs(image, files, i);
  }

  lemma RecordIs(image: Image, files: seq<HostFile>, i: nat)
    requires BuiltFrom(image, files) && i < |files|
    ensures i < |image.records| && |files[i].path| < NAME_BYTES && image.records[i] == RecordOf(files, i)
    ensures image.data == DataOf(files)
  {
    hide Good, RecordOf, DataOf;
  }

  /** Builder and kernel agree: in a mounted built image, each path resolves from the root to a file that reads as the
      bytes put in. */
  lemma ArchiveRoundTrip(image: Image, files: seq<HostFile>, nodes: Nodes, kids: Kids, depth: map<int, nat>, root: int,
                         next: int, mounted: seq<int>, i: nat)
    requires BuiltFrom(image, files) && i < |files|
    requires Holds(nodes, kids, depth, root, next, HostPaths(files, |files|), HostPaths(files, |files|), mounted)
    ensures var n := Walk(nodes, kids, root, Start(files[i].path, root, root), Components(files[i].path));
            n in nodes && !nodes[n].isDirectory && nodes[n].inode == i
    ensures i < |image.records| && RecordOk(image.records[i], SizeOf(image)) && image.records[i].offset >= HEADER_BYTES
    ensures FileBytes(image, i) == files[i].bytes
  {
    hide TreeOk, Walk, NamesTo, Components, Explained, BuiltFrom, RecordOk, FileBytes;
    BuiltBytes(image, files, i);
    assert FileAt(nodes, depth, root, mounted[i], HostPaths(files, |files|)[i], i);
    WalkArrives(nodes, kids, depth, root, next, mounted[i]);
  }
}
