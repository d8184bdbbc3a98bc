/** The directory tree of src/initrd.c and the path walks of src/fs.c. A node is named by its address; 0 is the null
    pointer. */
module FileTree {
  import opened Paths

  datatype FsNode = FsNode(name: string, isDirectory: bool, inode: nat, parent: int, firstChild: int, nextSibling: int)

  type Nodes = map<int, FsNode>

  /** The children of each node, in sibling order. */
  type Kids = map<int, seq<int>>

  /** The element after position i of a list, 0 at its end. */
  function After(list: seq<int>, i: int): int {
    if 0 <= i + 1 < |list| then list[i + 1] else 0
  }

  /** The links thread the children of d, which point back at d, have different names, and are none if d is a file. */
  ghost predicate FamilyOk(nodes: Nodes, kids: seq<int>, d: int) {
    && d in nodes && nodes[d].firstChild == After(kids, -1) && (!nodes[d].isDirectory ==> kids == [])
    && (forall i :: 0 <= i < |kids| ==>
          && kids[i] in nodes && kids[i] != 0 && nodes[kids[i]].nextSibling == After(kids, i)
          && nodes[kids[i]].parent == d)
    && (forall i, j :: 0 <= i < j < |kids| ==> nodes[kids[i]].name != nodes[kids[j]].name)
  }

  /** Every node but the root is a child of its parent, one level deeper, under a valid name. */
  ghost predicate NodeOk(nodes: Nodes, kids: Kids, depth: map<int, nat>, root: int, n: int) {
    && n in nodes && n in depth
    && if n == root then depth[n] == 0 && nodes[n].parent == 0 && nodes[n].isDirectory
       else
         && nodes[n].parent in nodes && nodes[n].parent in kids && nodes[n].parent in depth
         && n in kids[nodes[n].parent]
            && depth[n] == depth[nodes[n].parent] + 1 && ValidName(nodes[n].name)
  }

  ghost predicate TreeOk(nodes: Nodes, kids: Kids, depth: map<int, nat>, root: int, next: int) {
    && root in nodes && kids.Keys == nodes.Keys && depth.Keys == nodes.Keys
    && (forall n :: n in nodes ==> 0 < n < next && NodeOk(nodes, kids, depth, root, n) && FamilyOk(nodes, kids[n], n))
  }

  /** The first child in the list with this name, 0 when there is none. */
  ghost function Named(nodes: Nodes, kids: seq<int>, name: string): int {
    if kids == [] then 0
    else if kids[0] in nodes && nodes[kids[0]].name == name then kids[0]
    else Named(nodes, kids[1..], name)
  }

  ghost function ChildOf(nodes: Nodes, kids: Kids, d: int, name: string): int {
    if d in nodes && d in kids && nodes[d].isDirectory then Named(nodes, kids[d], name) else 0
  }

  ghost function Up(nodes: Nodes, root: int, n: int): int {
    if n != root && n in nodes && nodes[n].parent != 0 then nodes[n].parent else n
  }

  /** One component of a path; 0 is failure. */
  ghost function Step(nodes: Nodes, kids: Kids, root: int, n: int, name: string): int {
    if |name| >= NAME_MAX then 0
    else if name == "." then n
    else if name == ".." then Up(nodes, root, n)
    else ChildOf(nodes, kids, n, name)
  }

  /** All the components in turn. */
  ghost function Walk(nodes: Nodes, kids: Kids, root: int, n: int, names: seq<string>): int
    decreases |names|
  {
    if names == [] || n == 0 then n else Walk(nodes, kids, root, Step(nodes, kids, root, n, names[0]), names[1..])
  }

  /** The names from the root down to n. */
  ghost function NamesTo(nodes: Nodes, depth: map<int, nat>, root: int, n: int): seq<string>
    requires n in depth
    decreases depth[n]
  {
    if n == root || n !in nodes || nodes[n].parent !in depth || depth[nodes[n].parent] >= depth[n] then []
    else NamesTo(nodes, depth, root, nodes[n].parent) + [nodes[n].name]
  }

  lemma {:induction false} NamedIs(nodes: Nodes, kids: seq<int>, n: int)
    requires n in kids && (forall i :: 0 <= i < |kids| ==> kids[i] in nodes)
    requires forall i, j :: 0 <= i < j < |kids| ==> nodes[kids[i]].name != nodes[kids[j]].name
    ensures Named(nodes, kids, nodes[n].name) == n
  {
    if kids[0] != n {
      var j :| 0 <= j < |kids| && kids[j] == n;
      assert j > 0 && kids[1..][j - 1] == n;
      assert nodes[kids[0]].name != nodes[kids[j]].name;
      NamedIs(nodes, kids[1..], n);
    }
  }

  lemma {:induction false} NamedMeans(nodes: Nodes, kids: seq<int>, name: string)
    requires forall i :: 0 <= i < |kids| ==> kids[i] in nodes && kids[i] != 0
    ensures Named(nodes, kids, name) == 0 <==> forall i :: 0 <= i < |kids| ==> nodes[kids[i]].name != name
    ensures Named(nodes, kids, name) != 0 ==>
              Named(nodes, kids, name) in kids && nodes[Named(nodes, kids, name)].name == name
  {
    if kids != [] {
      NamedMeans(nodes, kids[1..], name);
      assert forall i :: 0 < i < |kids| ==> kids[i] == kids[1..][i - 1];
    }
  }

  /** A child is found under its own name, from its parent. */
  lemma ChildFound(nodes: Nodes, kids: Kids, depth: map<int, nat>, root: int, next: int, n: int)
    requires TreeOk(nodes, kids, depth, root, next) && n in nodes && n != root
    ensures nodes[n].parent in nodes && Step(nodes, kids, root, nodes[n].parent, nodes[n].name) == n
    ensures ValidName(nodes[n].name) && depth[n] == depth[nodes[n].parent] + 1
  {
    assert NodeOk(nodes, kids, depth, root, n);
    var d := nodes[n].parent;
    assert FamilyOk(nodes, kids[d], d);
    NamedIs(nodes, kids[d], n);
  }

  lemma {:induction false} WalkAppend(nodes: Nodes, kids: Kids, root: int, n: int, names: seq<string>, name: string)
    ensures Walk(nodes, kids, root, n, names + [name])
         == var m := Walk(nodes, kids, root, n, names); if m == 0 then 0 else Step(nodes, kids, root, m, name)
    decreases |names|
  {
    if names == [] {
      assert ([name])[1..] == [];
    } else if n != 0 {
      assert (names + [name])[1..] == names[1..] + [name];
      WalkAppend(nodes, kids, root, Step(nodes, kids, root, n, names[0]), names[1..], name);
    }
  }

  /** Walking the names of a node from the root arrives at it. */
  lemma {:induction false} WalkArrives(nodes: Nodes, kids: Kids, depth: map<int, nat>, root: int, next: int, n: int)
    requires TreeOk(nodes, kids, depth, root, next) && n in nodes
    ensures Walk(nodes, kids, root, root, NamesTo(nodes, depth, root, n)) == n
    ensures ValidNames(NamesTo(nodes, depth, root, n)) && |NamesTo(nodes, depth, root, n)| == depth[n]
    decreases depth[n]
  {
    hide TreeOk, Step, FamilyOk, ValidName;
    Rooted(nodes, kids, depth, root, next, n);
    if n != root {
      var d := nodes[n].parent;
      ChildFound(nodes, kids, depth, root, next, n);
      WalkArrives(nodes, kids, depth, root, next, d);
      WalkAppend(nodes, kids, root, root, NamesTo(nodes, depth, root, d), nodes[n].name);
    }
  }

  lemma Rooted(nodes: Nodes, kids: Kids, depth: map<int, nat>, root: int, next: int, n: int)
    requires TreeOk(nodes, kids, depth, root, next) && n in nodes
    ensures n in depth && root != 0 && 0 !in nodes && (n == root ==> depth[n] == 0)
    ensures n != root ==> nodes[n].parent in nodes && nodes[n].parent in depth && depth[n] == depth[nodes[n].parent] + 1
  {
    assert NodeOk(nodes, kids, depth, root, n);
  }

  // ---------------------------------------------------------------- attaching a child

  ghost function AttachedNodes(nodes: Nodes, d: int, c: int, node: FsNode): Nodes
    requires d in nodes
  {
    nodes[c := node.(parent := d, firstChild := 0, nextSibling := nodes[d].firstChild)][d := nodes[d].(firstChild := c)]
  }

  ghost function AttachedKids(kids: Kids, d: int, c: int): Kids
    requires d in kids
  {
    kids[c := []][d := [c] + kids[d]]
  }

  /** The old nodes keep everything but the first-child link of d. */
  ghost predicate Grown(nodes: Nodes, nodes': Nodes, d: int, c: int) {
    && nodes'.Keys == nodes.Keys + {c} && c !in nodes
    && forall n :: n in nodes ==> nodes'[n] == if n == d then nodes[n].(firstChild := c) else nodes[n]
  }

  lemma AttachedGrown(nodes: Nodes, d: int, c: int, node: FsNode)
    requires d in nodes && c !in nodes
    ensures Grown(nodes, AttachedNodes(nodes, d, c, node), d, c)
    ensures d != c
    ensures AttachedNodes(nodes, d, c, node)[c] ==
              node.(parent := d, firstChild := 0, nextSibling := nodes[d].firstChild)
  {
  }

  lemma FamilyAttached(nodes: Nodes, nodes': Nodes, kids: seq<int>, d: int, c: int)
    requires Grown(nodes, nodes', d, c) && FamilyOk(nodes, kids, d) && nodes[d].isDirectory && c > 0 && d !in kids
    requires nodes'[c].parent == d && nodes'[c].nextSibling == nodes[d].firstChild
    requires forall i :: 0 <= i < |kids| ==> nodes[kids[i]].name != nodes'[c].name
    ensures FamilyOk(nodes', [c] + kids, d)
  {
    var kids' := [c] + kids;
    forall i | 0 <= i < |kids'|
      ensures kids'[i] in nodes' && kids'[i] != 0 && nodes'[kids'[i]].nextSibling == After(kids', i)
      ensures nodes'[kids'[i]].parent == d
    {
      if i > 0 { assert kids'[i] == kids[i - 1] && nodes[kids[i - 1]].nextSibling == After(kids, i - 1); }
    }
    forall i, j | 0 <= i < j < |kids'| ensures nodes'[kids'[i]].name != nodes'[kids'[j]].name {
      assert kids'[j] == kids[j - 1];
      if i > 0 { assert kids'[i] == kids[i - 1]; }
    }
  }

  lemma FamilyKept(nodes: Nodes, nodes': Nodes, kids: seq<int>, n: int, d: int, c: int)
    requires Grown(nodes, nodes', d, c) && FamilyOk(nodes, kids, n) && n != d
    ensures FamilyOk(nodes', kids, n)
  {
    forall i | 0 <= i < |kids| ensures kids[i] in nodes' && nodes'[kids[i]].name == nodes[kids[i]].name {
      assert kids[i] in nodes;
    }
  }

  lemma NodeKept(nodes: Nodes, nodes': Nodes, kids: Kids, kids': Kids, depth: map<int, nat>, depth': map<int, nat>,
                 root: int, d: int, c: int, n: int)
    requires Grown(nodes, nodes', d, c) && NodeOk(nodes, kids, depth, root, n)
    requires d in kids && kids' == kids[c := []][d := [c] + kids[d]] && c !in kids && c !in depth && c in depth'
    requires depth' == depth[c := depth'[c]]
    ensures NodeOk(nodes', kids', depth', root, n)
  {
    if n != root {
      var p := nodes[n].parent;
      var i :| 0 <= i < |kids[p]| && kids[p][i] == n;
      if p == d { assert kids'[d][i + 1] == n; }
    }
  }

  /** A new, differently named child keeps the tree a tree. */
  lemma AttachKeeps(nodes: Nodes, kids: Kids, depth: map<int, nat>, root: int, next: int, d: int, node: FsNode)
    requires TreeOk(nodes, kids, depth, root, next) && d in nodes && nodes[d].isDirectory && ValidName(node.name)
    requires Named(nodes, kids[d], node.name) == 0
    ensures TreeOk(AttachedNodes(nodes, d, next, node), AttachedKids(kids, d, next), depth[next := depth[d] + 1],
                   root, next + 1)
  {
    hide TreeOk, NodeOk, FamilyOk, Named, ValidName, AttachedNodes, Grown;
    TreeParts(nodes, kids, depth, root, next);
    var nodes', kids' := AttachedNodes(nodes, d, next, node), AttachedKids(kids, d, next);
    var depth' := depth[next := depth[d] + 1];
    AttachedGrown(nodes, d, next, node);
    NodeNew(nodes', kids', depth', root, d, next);
    NamesDiffer(nodes, kids, depth, root, next, d, node.name);
    forall n | n in nodes ensures NodeOk(nodes', kids', depth', root, n) && FamilyOk(nodes', kids'[n], n) {
      NodeKept(nodes, nodes', kids, kids', depth, depth', root, d, next, n);
      if n == d {
        FamilyAttached(nodes, nodes', kids[d], d, next);
      } else {
        FamilyKept(nodes, nodes', kids[n], n, d, next);
      }
    }
    TreeWhole(nodes', kids', depth', root, next + 1);
  }

  lemma AttachedIs(nodes: Nodes, attached: Nodes, d: int, c: int, node: FsNode)
    requires d in nodes
    requires attached == nodes[c := node.(parent := d, firstChild := 0, nextSibling := nodes[d].firstChild)]
                              [d := nodes[d].(firstChild := c)]
    ensures attached == AttachedNodes(nodes, d, c, node)
  {
  }

  lemma TreeParts(nodes: Nodes, kids: Kids, depth: map<int, nat>, root: int, next: int)
    requires TreeOk(nodes, kids, depth, root, next)
    ensures root in nodes && kids.Keys == nodes.Keys && depth.Keys == nodes.Keys && next !in nodes && next > 0
    ensures forall n ::
              n in nodes ==> 0 < n < next && NodeOk(nodes, kids, depth, root, n) && FamilyOk(nodes, kids[n], n)
  {
    hide NodeOk, FamilyOk;
  }

  lemma TreeKeys(nodes: Nodes, kids: Kids, depth: map<int, nat>, root: int, next: int)
    requires TreeOk(nodes, kids, depth, root, next)
    ensures root in nodes && kids.Keys == nodes.Keys && depth.Keys == nodes.Keys && next !in nodes && next > 0
  {
    hide NodeOk, FamilyOk;
  }

  lemma TreeWhole(nodes: Nodes, kids: Kids, depth: map<int, nat>, root: int, next: int)
    requires root in nodes && kids.Keys == nodes.Keys && depth.Keys == nodes.Keys
    requires forall n ::
               n in nodes ==> 0 < n < next && NodeOk(nodes, kids, depth, root, n) && FamilyOk(nodes, kids[n], n)
    ensures TreeOk(nodes, kids, depth, root, next)
  {
    hide NodeOk, FamilyOk;
  }

  lemma NamesDiffer(nodes: Nodes, kids: Kids, depth: map<int, nat>, root: int, next: int, d: int, name: string)
    requires TreeOk(nodes, kids, depth, root, next) && d in nodes && Named(nodes, kids[d], name) == 0
    ensures d !in kids[d] && forall i :: 0 <= i < |kids[d]| ==> kids[d][i] in nodes && nodes[kids[d][i]].name != name
  {
    hide Named;
    assert FamilyOk(nodes, kids[d], d) && NodeOk(nodes, kids, depth, root, d);
    NamedMeans(nodes, kids[d], name);
  }

  lemma NodeNew(nodes: Nodes, kids: Kids, depth: map<int, nat>, root: int, d: int, c: int)
    requires c in nodes && d in nodes && c != root && c in depth && d in depth && depth[c] == depth[d] + 1 && c in kids
    requires d in kids
    requires nodes[c].parent == d && nodes[c].firstChild == 0 && ValidName(nodes[c].name) && kids[c] == []
    requires |kids[d]| > 0 && kids[d][0] == c
    ensures NodeOk(nodes, kids, depth, root, c) && FamilyOk(nodes, kids[c], c)
  {
    assert c in kids[d];
  }

  lemma KidsOf(nodes: Nodes, kids: Kids, depth: map<int, nat>, root: int, next: int, d: int)
    requires TreeOk(nodes, kids, depth, root, next) && d in nodes
    ensures d in kids && d in depth
  {
  }

  /** Every earlier lookup has the same answer. */
  lemma StepKept(nodes: Nodes, kids: Kids, depth: map<int, nat>, root: int, next: int, d: int, node: FsNode, n: int,
                 name: string)
    requires TreeOk(nodes, kids, depth, root, next) && d in nodes && Named(nodes, kids[d], node.name) == 0
    requires n in nodes && Step(nodes, kids, root, n, name) != 0
    ensures Step(nodes, kids, root, n, name) in nodes
    ensures Step(AttachedNodes(nodes, d, next, node), AttachedKids(kids, d, next), root, n, name) ==
              Step(nodes, kids, root, n, name)
  {
    hide AttachedNodes, AttachedKids, ChildOf, Named, TreeOk;
    StepIn(nodes, kids, depth, root, next, n, name);
    ZeroOut(nodes, kids, depth, root, next);
    AttachedGrown(nodes, d, next, node);
    if |name| < NAME_MAX && name != "." && name != ".." {
      ChildKept(nodes, kids, depth, root, next, d, node, n, name);
    }
  }

  lemma ChildKept(nodes: Nodes, kids: Kids, depth: map<int, nat>, root: int, next: int, d: int, node: FsNode, n: int,
                  name: string)
    requires TreeOk(nodes, kids, depth, root, next) && d in nodes && Named(nodes, kids[d], node.name) == 0
    requires n in nodes && ChildOf(nodes, kids, n, name) != 0
    ensures ChildOf(AttachedNodes(nodes, d, next, node), AttachedKids(kids, d, next), n, name) ==
              ChildOf(nodes, kids, n, name)
  {
    assert FamilyOk(nodes, kids[n], n);
    assert next !in nodes && next !in kids[n];
    AttachedGrown(nodes, d, next, node);
    NamedKept(nodes, kids[n], name, d, next, node);
    hide AttachedNodes, FamilyOk, TreeOk;
    if n == d {
      assert ([next] + kids[d])[1..] == kids[d] && name != node.name;
    }
  }

  lemma {:induction false} NamedKept(nodes: Nodes, list: seq<int>, name: string, d: int, c: int, node: FsNode)
    requires d in nodes && c !in nodes && c !in list
    ensures Named(AttachedNodes(nodes, d, c, node), list, name) == Named(nodes, list, name)
  {
    if list != [] {
      assert list[0] != c;
      NamedKept(nodes, list[1..], name, d, c, node);
    }
  }

  lemma {:induction false} WalkKept(nodes: Nodes, kids: Kids, depth: map<int, nat>, root: int, next: int, d: int,
                                    node: FsNode, n: int, names: seq<string>)
    requires TreeOk(nodes, kids, depth, root, next) && d in nodes && Named(nodes, kids[d], node.name) == 0
    requires n in nodes && Walk(nodes, kids, root, n, names) != 0
    ensures Walk(nodes, kids, root, n, names) in nodes
    ensures Walk(AttachedNodes(nodes, d, next, node), AttachedKids(kids, d, next), root, n, names) ==
              Walk(nodes, kids, root, n, names)
    decreases |names|
  {
    if names != [] {
      var m := Step(nodes, kids, root, n, names[0]);
      WalkFromZero(nodes, kids, root, names[1..]);
      StepKept(nodes, kids, depth, root, next, d, node, n, names[0]);
      WalkKept(nodes, kids, depth, root, next, d, node, m, names[1..]);
    }
  }

  lemma WalkFromZero(nodes: Nodes, kids: Kids, root: int, names: seq<string>)
    ensures Walk(nodes, kids, root, 0, names) == 0
  {
  }

  lemma StepIn(nodes: Nodes, kids: Kids, depth: map<int, nat>, root: int, next: int, n: int, name: string)
    requires TreeOk(nodes, kids, depth, root, next) && n in nodes && Step(nodes, kids, root, n, name) != 0
    ensures Step(nodes, kids, root, n, name) in nodes
  {
    assert NodeOk(nodes, kids, depth, root, n) && FamilyOk(nodes, kids[n], n);
    NamedMeans(nodes, kids[n], name);
  }

  // ---------------------------------------------------------------- the walk that mkdir makes

  /** One component before the last: a dot name goes wherever it leads, any other name must lead to a directory. */
  ghost function Enter(nodes: Nodes, kids: Kids, root: int, n: int, name: string): int {
    var m := Step(nodes, kids, root, n, name);
    if IsDots(name) || (m in nodes && nodes[m].isDirectory) then m else 0
  }

  /** The node that all names but the last lead to; 0 is failure. */
  ghost function Target(nodes: Nodes, kids: Kids, root: int, n: int, names: seq<string>): int
    decreases |names|
  {
    if |names| <= 1 || n == 0 then n
    else Target(nodes, kids, root, Enter(nodes, kids, root, n, names[0]), names[1..])
  }

  lemma {:induction false} TargetIsWalk(nodes: Nodes, kids: Kids, root: int, n: int, names: seq<string>)
    requires names != [] && Target(nodes, kids, root, n, names) != 0
    ensures Walk(nodes, kids, root, n, names[..|names| - 1]) == Target(nodes, kids, root, n, names)
    decreases |names|
  {
    hide Step;
    if |names| > 1 && n != 0 {
      var m := Enter(nodes, kids, root, n, names[0]);
      TargetIsWalk(nodes, kids, root, m, names[1..]);
      assert names[..|names| - 1][1..] == names[1..][..|names| - 2];
    }
  }

  /** What mkdir asks of a directory and a name. */
  ghost predicate CanMake(nodes: Nodes, kids: Kids, d: int, name: string) {
    && d in nodes && d in kids && nodes[d].isDirectory && |name| < NAME_MAX && name != "." && name != ".."
    && Named(nodes, kids[d], name) == 0
  }

  /** The new directory is found where its path says. */
  lemma MadeFound(nodes: Nodes, kids: Kids, depth: map<int, nat>, root: int, next: int, start: int, names: seq<string>,
                  node: FsNode)
    requires TreeOk(nodes, kids, depth, root, next) && names != [] && start in nodes && node.name == names[|names| - 1]
    requires ValidName(node.name)
    requires var d := Target(nodes, kids, root, start, names); d in nodes && CanMake(nodes, kids, d, node.name)
    ensures var d := Target(nodes, kids, root, start, names);
            Walk(AttachedNodes(nodes, d, next, node), AttachedKids(kids, d, next), root, start, names) == next
  {
    hide TreeOk, AttachedNodes, Walk, Target, Named;
    var d, init := Target(nodes, kids, root, start, names), names[..|names| - 1];
    ZeroOut(nodes, kids, depth, root, next);
    TargetIsWalk(nodes, kids, root, start, names);
    WalkKept(nodes, kids, depth, root, next, d, node, start, init);
    WalkAppend(AttachedNodes(nodes, d, next, node), AttachedKids(kids, d, next), root, start, init, node.name);
    assert names == init + [node.name];
    FrontFound(nodes, kids, root, next, d, node);
  }

  lemma ZeroOut(nodes: Nodes, kids: Kids, depth: map<int, nat>, root: int, next: int)
    requires TreeOk(nodes, kids, depth, root, next)
    ensures 0 !in nodes && next !in nodes && next > 0
  {
    assert root in nodes;
  }

  lemma FrontFound(nodes: Nodes, kids: Kids, root: int, c: int, d: int, node: FsNode)
    requires d in nodes && c !in nodes && ValidName(node.name) && d in kids && nodes[d].isDirectory
    ensures Step(AttachedNodes(nodes, d, c, node), AttachedKids(kids, d, c), root, d, node.name) == c
  {
  }

  function Start(path: string, root: int, cwd: int): int {
    if path != "" && path[0] == '/' then root else cwd
  }

  /** One component: "." stays, ".." goes to the parent and stays at the root, any other name goes to the child of that
      name, and fails when there is none; so does a name too long for an entry. */
  lemma StepMeans(nodes: Nodes, kids: Kids, depth: map<int, nat>, root: int, next: int, n: int, name: string)
    requires TreeOk(nodes, kids, depth, root, next) && n in nodes
    ensures var m := Step(nodes, kids, root, n, name);
            if |name| > 127 then m == 0
            else if name == "." then m == n
            else if name == ".." then m == if n == root then root else nodes[n].parent
            else if m == 0 then forall c :: c in nodes && nodes[c].parent == n ==> nodes[c].name != name
            else m in nodes && nodes[m].parent == n && nodes[m].name == name
  {
    assert NodeOk(nodes, kids, depth, root, n) && FamilyOk(nodes, kids[n], n);
    NamedMeans(nodes, kids[n], name);
    forall c | c in nodes && nodes[c].parent == n ensures c in kids[n] { assert NodeOk(nodes, kids, depth, root, c); }
  }

  /** In a directory, every component but the last must lead to a directory. */
  lemma EnterMeans(nodes: Nodes, kids: Kids, depth: map<int, nat>, root: int, next: int, n: int, name: string)
    requires TreeOk(nodes, kids, depth, root, next) && n in nodes && nodes[n].isDirectory
    ensures var m := Step(nodes, kids, root, n, name);
            Enter(nodes, kids, root, n, name) == if m in nodes && nodes[m].isDirectory then m else 0
    ensures 0 !in nodes
  {
    ZeroOut(nodes, kids, depth, root, next);
    assert NodeOk(nodes, kids, depth, root, n) && nodes[n].parent in nodes ==>
        FamilyOk(nodes, kids[nodes[n].parent], nodes[n].parent);
  }

  /** What mkdir needs of a path from a directory: every name but the last leads to a directory, and the last is a
      proper name that nothing there has. */
  lemma {:induction false} MkdirMeans(nodes: Nodes, kids: Kids, depth: map<int, nat>, root: int, next: int, n: int,
                                      names: seq<string>)
    requires TreeOk(nodes, kids, depth, root, next) && n in nodes && nodes[n].isDirectory && names != []
    ensures var last := names[|names| - 1];
            CanMake(nodes, kids, Target(nodes, kids, root, n, names), last) <==>
              && (forall i :: 0 <= i < |names| ==>
                    var m := Walk(nodes, kids, root, n, names[..i]); m in nodes && nodes[m].isDirectory)
              && |last| < 128 && last != "." && last != ".."
              && var d := Walk(nodes, kids, root, n, names[..|names| - 1]);
                 forall c :: c in nodes && nodes[c].parent == d ==> nodes[c].name != last
    decreases |names|
  {
    hide TreeOk, Step, Enter, Named;
    var k := |names| - 1;
    EnterMeans(nodes, kids, depth, root, next, n, names[0]);
    if k == 0 {
      assert names[..0] == [];
      FreeName(nodes, kids, depth, root, next, n, names[0]);
      return;
    }
    var m, rest := Step(nodes, kids, root, n, names[0]), names[1..];
    forall i | 1 <= i <= k ensures Walk(nodes, kids, root, n, names[..i]) == Walk(nodes, kids, root, m, rest[..i - 1]) {
      assert names[..i] == [names[0]] + rest[..i - 1];
      WalkNext(nodes, kids, root, n, names[0], rest[..i - 1]);
    }
    if m in nodes && nodes[m].isDirectory {
      MkdirMeans(nodes, kids, depth, root, next, m, rest);
      assert names[..0] == [];
      assert forall i :: 0 <= i < k ==>
                           Walk(nodes, kids, root, m, rest[..i]) == Walk(nodes, kids, root, n, names[..i + 1]);
    } else {
      assert rest[..0] == [] && Walk(nodes, kids, root, n, names[..1]) == m;
    }
  }

  lemma FreeName(nodes: Nodes, kids: Kids, depth: map<int, nat>, root: int, next: int, n: int, name: string)
    requires TreeOk(nodes, kids, depth, root, next) && n in nodes
    ensures n in kids
    ensures Named(nodes, kids[n], name) == 0 <==>
              forall c :: c in nodes && nodes[c].parent == n ==> nodes[c].name != name
  {
    assert NodeOk(nodes, kids, depth, root, n) && FamilyOk(nodes, kids[n], n);
    NamedMeans(nodes, kids[n], name);
    forall c | c in nodes && nodes[c].parent == n ensures c in kids[n] { assert NodeOk(nodes, kids, depth, root, c); }
  }

  /** Where a path leads, component by component: a leading slash starts at the root, any other path at the working
      directory. */
  lemma PathUnfolds(nodes: Nodes, kids: Kids, root: int, cwd: int, name: string, rest: string)
    requires name != "" && (forall i :: 0 <= i < |name| ==> name[i] != '/') && cwd != 0
    ensures Start("/" + rest, root, cwd) == root && Components("/" + rest) == Components(rest)
    ensures Start(name, root, cwd) == cwd && Start(name + "/" + rest, root, cwd) == cwd
    ensures Walk(nodes, kids, root, cwd, Components("")) == cwd
    ensures Walk(nodes, kids, root, cwd, Components(name)) == Step(nodes, kids, root, cwd, name)
    ensures Walk(nodes, kids, root, cwd, Components(name + "/" + rest)) ==
            Walk(nodes, kids, root, Step(nodes, kids, root, cwd, name), Components(rest))
  {
    hide Step;
    EmptyPath();
    OneComponent(name, "");
    assert name + "" == name;
    OneComponent(name, "/" + rest);
    assert name + ("/" + rest) == name + "/" + rest && ("/" + rest)[1..] == rest;
    WalkNext(nodes, kids, root, cwd, name, []);
    WalkNext(nodes, kids, root, cwd, name, Components(rest));
  }

  // ---------------------------------------------------------------- slashes

  lemma SkipSlash(path: string, i: nat)
    requires i < |path| && path[i] == '/'
    ensures Components(path[i..]) == Components(path[i + 1..])
  {
    assert path[i..][1..] == path[i + 1..];
  }

  lemma TakeName(path: string, i: nat, e: nat)
    requires i < e <= |path| && (forall k :: i <= k < e ==> path[k] != '/') && (e == |path| || path[e] == '/')
    ensures Components(path[i..]) == [path[i..e]] + Components(path[e..])
  {
    OneComponent(path[i..e], path[e..]);
    assert path[i..] == path[i..e] + path[e..];
  }

  class Tree {
    var nodes: Nodes
    var next: int
    const root: int
    ghost var kids: Kids
    ghost var depth: map<int, nat>

    ghost predicate Valid()
      reads this
    {
      TreeOk(nodes, kids, depth, root, next)
    }

    /** A tree of one directory. */
    constructor (name: string)
      ensures Valid() && nodes.Keys == {root} && kids[root] == []
    {
      root, next := 1, 2;
      nodes := map[1 := FsNode(name, true, 0, 0, 0, 0)];
      kids, depth := map[1 := []], map[1 := 0];
    }

    /** find_child. */
    method FindChild(d: int, name: string) returns (child: int)
      requires Valid() && d in nodes
      ensures child == Named(nodes, kids[d], name)
    {
      assert FamilyOk(nodes, kids[d], d);
      child := nodes[d].firstChild;
      ghost var i := 0;
      assert kids[d][0..] == kids[d];
      while child != 0
        invariant 0 <= i <= |kids[d]| && child == After(kids[d], i - 1)
        invariant Named(nodes, kids[d], name) == Named(nodes, kids[d][i..], name)
        decreases |kids[d]| - i
      {
        if nodes[child].name == name { return; }
        assert kids[d][i..][1..] == kids[d][i + 1..];
        child := nodes[child].nextSibling;
        i := i + 1;
      }
      assert i == |kids[d]|;
    }

    /** new_tree_node and attach_child: the child goes in front of its siblings. */
    method Attach(d: int, name: string, isDirectory: bool, inode: nat) returns (c: int)
      requires Valid() && d in nodes && nodes[d].isDirectory && ValidName(name) && Named(nodes, kids[d], name) == 0
      modifies this
      ensures Valid() && c == old(next) && next == c + 1
      ensures nodes == AttachedNodes(old(nodes), d, c, FsNode(name, isDirectory, inode, 0, 0, 0))
      ensures kids == AttachedKids(old(kids), d, c)
      ensures depth == old(depth)[c := old(depth)[d] + 1]
    {
      var node := FsNode(name, isDirectory, inode, 0, 0, 0);
      hide TreeOk, Named, ValidName, ValidNames, AttachedNodes, AttachedKids;
      KidsOf(nodes, kids, depth, root, next, d);
      AttachKeeps(nodes, kids, depth, root, next, d, node);
      c := next;
      var child := node.(parent := d, firstChild := 0, nextSibling := nodes[d].firstChild);
      var attached := nodes[c := child][d := nodes[d].(firstChild := c)];
      AttachedIs(nodes, attached, d, c, node);
      ghost var attachedKids := AttachedKids(kids, d, c);
      depth := depth[c := depth[d] + 1];
      nodes, kids, next := attached, attachedKids, next + 1;
    }

    /** finddir_fs. */
    method FindDir(n: int, name: string) returns (child: int)
      requires Valid() && n in nodes
      ensures child == ChildOf(nodes, kids, n, name)
    {
      if !nodes[n].isDirectory { return 0; }
      child := FindChild(n, name);
    }

    method NextSlash(path: string, i: nat) returns (e: nat)
      requires i <= |path|
      ensures i <= e <= |path| && (forall k :: i <= k < e ==> path[k] != '/') && (e == |path| || path[e] == '/')
    {
      e := i;
      while e < |path| && path[e] != '/'
        invariant i <= e <= |path| && forall k :: i <= k < e ==> path[k] != '/'
      {
        e := e + 1;
      }
    }

    method SkipSlashes(path: string, i: nat) returns (e: nat)
      requires i <= |path|
      ensures i <= e <= |path| && (e < |path| ==> path[e] != '/') && Components(path[i..]) == Components(path[e..])
    {
      hide Components;
      e := i;
      while e < |path| && path[e] == '/'
        invariant i <= e <= |path| && Components(path[i..]) == Components(path[e..])
      {
        SkipSlash(path, e);
        e := e + 1;
      }
    }

    /** One component of a path walk. */
    method TakeStep(n: int, name: string) returns (m: int)
      requires Valid() && n in nodes
      ensures m == Step(nodes, kids, root, n, name) && (m != 0 ==> m in nodes)
    {
      if Step(nodes, kids, root, n, name) != 0 { StepIn(nodes, kids, depth, root, next, n, name); }
      if |name| >= NAME_MAX { return 0; }
      if name == "." { return n; }
      if name == ".." { return if n != root && nodes[n].parent != 0 then nodes[n].parent else n; }
      m := FindDir(n, name);
    }

    /** resolve_path_fs: the scan over the text takes exactly the steps of its components. */
    method Resolve(cwd: int, path: string) returns (n: int)
      requires Valid() && cwd in nodes
      ensures n == Walk(nodes, kids, root, Start(path, root, cwd), Components(path))
      ensures n != 0 ==> n in nodes
    {
      hide TreeOk, Step, Components;
      RootIn(nodes, kids, depth, root, next);
      n := if path != "" && path[0] == '/' then root else cwd;
      ghost var start := n;
      assert path[0..] == path;
      var i := SkipSlashes(path, 0);
      while i < |path|
        invariant i <= |path| && n in nodes && (i < |path| ==> path[i] != '/')
        invariant Walk(nodes, kids, root, start, Components(path)) == Walk(nodes, kids, root, n, Components(path[i..]))
      {
        var e := NextSlash(path, i);
        TakeName(path, i, e);
        WalkNext(nodes, kids, root, n, path[i..e], Components(path[e..]));
        n := TakeStep(n, path[i..e]);
        if n == 0 { WalkFromZero(nodes, kids, root, Components(path[e..])); return; }
        i := SkipSlashes(path, e);
      }
      EmptyPath();
      assert path[i..] == "";
    }

    /** get_path_fs: it prints the names from the root exactly when there are at most 32 of them and the text and its
        terminator fit the buffer. */
    method GetPath(n: int, capacity: nat) returns (ok: bool, text: string)
      requires Valid() && n in nodes
      ensures n in depth
      ensures (ok <==> capacity >= 2 && depth[n] <= 32 && |PathText(NamesTo(nodes, depth, root, n))| + 1 <= capacity)
      ensures ok ==> text == PathText(NamesTo(nodes, depth, root, n))
    {
      hide TreeOk, PathText, ValidNames;
      Rooted(nodes, kids, depth, root, next, n);
      NamesCounted(nodes, kids, depth, root, next, n);
      if capacity < 2 { return false, ""; }
      ghost var all := NamesTo(nodes, depth, root, n);
      var node, names: seq<string> := n, [];
      while node != root
        invariant |names| <= 32 && node in nodes && node in depth && all == NamesTo(nodes, depth, root, node) + names
        invariant |all| == depth[node] + |names|
        decreases depth[node]
      {
        Rooted(nodes, kids, depth, root, next, node);
        if nodes[node].parent == 0 || |names| >= 32 { return false, ""; }
        names := [nodes[node].name] + names;
        node := nodes[node].parent;
      }
      Rooted(nodes, kids, depth, root, next, root);
      assert all == names;
      ok, text := Print(names, capacity);
    }

    /** mkdir_fs and initrd_mkdir: the last component. */
    method MakeChild(d: int, name: string, ghost start: int, ghost names: seq<string>) returns (ok: bool)
      requires Valid() && d in nodes && name != "" && (forall i :: 0 <= i < |name| ==> name[i] != '/')
      requires start in nodes && names != [] && names[|names| - 1] == name
      requires Target(nodes, kids, root, start, names) == d
      modifies this
      ensures Valid() && (ok <==> old(CanMake(nodes, kids, d, name)))
      ensures !ok ==> nodes == old(nodes) && kids == old(kids)
      ensures ok ==> Walk(nodes, kids, root, start, names) == old(next)
      ensures ok ==> old(next) in nodes && nodes[old(next)].isDirectory && nodes.Keys == old(nodes).Keys + {old(next)}
      ensures ok ==> forall n, names :: n in old(nodes) && old(Walk(nodes, kids, root, n, names)) != 0 ==>
                       Walk(nodes, kids, root, n, names) == old(Walk(nodes, kids, root, n, names))
    {
      hide TreeOk, Step, Walk, AttachedNodes, AttachedKids, Named;
      KidsOf(nodes, kids, depth, root, next, d);
      if |name| >= NAME_MAX || name == "." || name == ".." || !nodes[d].isDirectory { return false; }
      var found := FindChild(d, name);
      if found != 0 { return false; }
      ghost var node := FsNode(name, true, 0, 0, 0, 0);
      MadeFound(nodes, kids, depth, root, next, start, names, node);
      forall n, path | n in nodes && Walk(nodes, kids, root, n, path) != 0
        ensures Walk(AttachedNodes(nodes, d, next, node), AttachedKids(kids, d, next), root, n, path) ==
                  Walk(nodes, kids, root, n, path)
      {
        WalkKept(nodes, kids, depth, root, next, d, node, n, path);
      }
      ZeroOut(nodes, kids, depth, root, next);
      AttachedGrown(nodes, d, next, node);
      var c := Attach(d, name, true, 0);
      ok := true;
    }

    /** mkdir_path_fs: succeeds exactly when every name but the last leads to a directory where the last, a proper name,
        is free. Then the path resolves to the new directory, and every earlier resolution stands. */
    method Mkdir(cwd: int, path: string) returns (ok: bool)
      requires Valid() && cwd in nodes
      modifies this
      ensures Valid()
      ensures var names := Components(path); var d := old(Target(nodes, kids, root, Start(path, root, cwd), names));
              ok <==> names != [] && old(CanMake(nodes, kids, d, names[|names| - 1]))
      ensures !ok ==> nodes == old(nodes) && kids == old(kids)
      ensures ok ==> Walk(nodes, kids, root, Start(path, root, cwd), Components(path)) == old(next)
      ensures ok ==> old(next) in nodes && nodes[old(next)].isDirectory && nodes.Keys == old(nodes).Keys + {old(next)}
      ensures ok ==> forall n, names :: n in old(nodes) && old(Walk(nodes, kids, root, n, names)) != 0 ==>
                       Walk(nodes, kids, root, n, names) == old(Walk(nodes, kids, root, n, names))
    {
      hide TreeOk, Step, Components, Walk, AttachedNodes, AttachedKids, Named;
      RootIn(nodes, kids, depth, root, next);
      var directory := if path != "" && path[0] == '/' then root else cwd;
      ghost var start := directory;
      assert path[0..] == path;
      var i := SkipSlashes(path, 0);
      if i == |path| { EmptyPath(); assert path[i..] == ""; return false; }
      ghost var names := Components(path);
      ghost var rest := Components(path[i..]);
      while true
        invariant unchanged(this) && i < |path| && path[i] != '/' && directory in nodes && rest == Components(path[i..])
        invariant names != [] && rest != [] ==> names[|names| - 1] == rest[|rest| - 1]
        invariant names != [] <==> rest != []
        invariant Target(nodes, kids, root, start, names) == Target(nodes, kids, root, directory, rest)
        decreases |path| - i
      {
        var e := NextSlash(path, i);
        TakeName(path, i, e);
        var component := path[i..e];
        var remainder := SkipSlashes(path, e);
        ghost var later := Components(path[remainder..]);
        assert rest == [component] + later;
        if remainder == |path| {
          EmptyPath();
          assert path[remainder..] == "";
          assert rest == [component];
          ok := MakeChild(directory, component, start, names);
          return;
        }
        LaterComponents(path, remainder);
        TargetNext(nodes, kids, root, directory, component, later);
        var m := TakeStep(directory, component);
        if m == 0 || (component != "." && component != ".." && !nodes[m].isDirectory) {
          TargetFromZero(nodes, kids, root, later);
          return false;
        }
        directory, i, rest := m, remainder, later;
      }
    }
  }

  lemma TargetNext(nodes: Nodes, kids: Kids, root: int, n: int, name: string, rest: seq<string>)
    requires n != 0 && rest != []
    ensures Target(nodes, kids, root, n, [name] + rest) ==
              Target(nodes, kids, root, Enter(nodes, kids, root, n, name), rest)
  {
    hide Step;
    assert ([name] + rest)[1..] == rest;
  }

  lemma TargetFromZero(nodes: Nodes, kids: Kids, root: int, names: seq<string>)
    ensures Target(nodes, kids, root, 0, names) == 0
  {
  }

  lemma NamesCounted(nodes: Nodes, kids: Kids, depth: map<int, nat>, root: int, next: int, n: int)
    requires TreeOk(nodes, kids, depth, root, next) && n in nodes
    ensures n in depth && |NamesTo(nodes, depth, root, n)| == depth[n]
  {
    WalkArrives(nodes, kids, depth, root, next, n);
  }

  /** The printing loop of get_path_fs. */
  method Print(names: seq<string>, capacity: nat) returns (ok: bool, text: string)
    requires capacity >= 2
    ensures ok <==> |PathText(names)| + 1 <= capacity
    ensures ok ==> text == PathText(names)
  {
    text := "/";
    PrintedAll(names);
    var i := 0;
    while i < |names|
      invariant i <= |names| && text == Printed(names, i)
      invariant i > 0 ==> |text| + 1 <= capacity
    {
      PrintedNext(names, i);
      PrintedLength(names, i + 1);
      if |text| + |names[i]| + (if i + 1 < |names| then 1 else 0) + 1 > capacity { return false, ""; }
      text := text + names[i] + (if i + 1 < |names| then "/" else "");
      i := i + 1;
    }
    ok := true;
  }

  lemma RootIn(nodes: Nodes, kids: Kids, depth: map<int, nat>, root: int, next: int)
    requires TreeOk(nodes, kids, depth, root, next)
    ensures root in nodes && root != 0 && nodes[root].isDirectory && 0 !in nodes
  {
    assert NodeOk(nodes, kids, depth, root, root);
  }

  lemma WalkNext(nodes: Nodes, kids: Kids, root: int, n: int, name: string, rest: seq<string>)
    requires n != 0
    ensures Walk(nodes, kids, root, n, [name] + rest) == Walk(nodes, kids, root, Step(nodes, kids, root, n, name), rest)
  {
    assert ([name] + rest)[1..] == rest;
  }

  /** The path that get_path_fs prints for a node resolves, from anywhere, to that node. */
  lemma PrintedPathResolves(nodes: Nodes, kids: Kids, depth: map<int, nat>, root: int, next: int, n: int, cwd: int)
    requires TreeOk(nodes, kids, depth, root, next) && n in nodes
    ensures n in depth && var text := PathText(NamesTo(nodes, depth, root, n));
            Walk(nodes, kids, root, Start(text, root, cwd), Components(text)) == n
  {
    WalkArrives(nodes, kids, depth, root, next, n);
    ComponentsOfPath(NamesTo(nodes, depth, root, n));
  }
}
