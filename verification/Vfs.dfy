/** The linked nodes of kernel/src/vfs.c. Strings stand for the characters before the terminating NUL. */
module Vfs {
  import opened Basics
  import opened VfsPaths

  class VfsNode {
    var name: string
    var isDir: bool
    var parent: VfsNode?
    var children: VfsNode?
    var next: VfsNode?

    constructor (name: string, isDir: bool, parent: VfsNode?, next: VfsNode?)
      ensures this.name == name && this.isDir == isDir && this.parent == parent
      ensures children == null && this.next == next
    {
      this.name, this.isDir, this.parent := name, isDir, parent;
      this.children, this.next := null, next;
    }
  }

  /** The sibling list that starts at `c` is `s`. */
  ghost predicate Chain(c: VfsNode?, s: seq<VfsNode>)
    reads s`next
  {
    if s == [] then c == null else c == s[0] && Chain(s[0].next, s[1..])
  }

  lemma {:induction false} ChainUnique(c: VfsNode?, s: seq<VfsNode>, r: seq<VfsNode>)
    requires Chain(c, s) && Chain(c, r)
    ensures s == r
  {
    if s != [] {
      ChainUnique(s[0].next, s[1..], r[1..]);
    }
  }

  lemma {:induction false} ChainDrop(c: VfsNode?, s: seq<VfsNode>, i: nat)
    requires Chain(c, s) && i < |s|
    ensures Chain(s[i], s[i..])
  {
    if i > 0 {
      ChainDrop(s[0].next, s[1..], i - 1);
      assert s[1..][i - 1..] == s[i..];
    }
  }

  /** A list that ends has no node twice. */
  lemma ChainDistinct(c: VfsNode?, s: seq<VfsNode>, i: nat, j: nat)
    requires Chain(c, s) && i < j < |s|
    ensures s[i] != s[j]
  {
    ChainDrop(c, s, i);
    ChainDrop(c, s, j);
    if s[i] == s[j] {
      ChainUnique(s[i], s[i..], s[j..]);
    }
  }

  lemma ChainHead(c: VfsNode?, s: seq<VfsNode>)
    requires Chain(c, s)
    ensures s == [] <==> c == null
    ensures s != [] ==> c == s[0] && Chain(s[0].next, s[1..])
  {
  }

  /** The node after position `k`. */
  function Next(s: seq<VfsNode>, k: nat): VfsNode?
    requires k < |s|
  {
    if k + 1 < |s| then s[k + 1] else null
  }

  /** A list given node by node. */
  ghost predicate Linked(c: VfsNode?, s: seq<VfsNode>)
    reads s`next
  {
    && c == (if s == [] then null else s[0])
    && forall k | 0 <= k < |s| :: s[k].next == Next(s, k)
  }

  lemma {:induction false} ChainGivesLinks(c: VfsNode?, s: seq<VfsNode>)
    requires Chain(c, s)
    ensures Linked(c, s)
    decreases |s|
  {
    if s != [] {
      var t := s[1..];
      ChainGivesLinks(s[0].next, t);
      forall k | 0 <= k < |s| ensures s[k].next == Next(s, k) {
        if k > 0 {
          assert t[k - 1].next == Next(t, k - 1);
        }
      }
    }
  }

  lemma {:induction false} LinksGiveChain(c: VfsNode?, s: seq<VfsNode>)
    requires Linked(c, s)
    ensures Chain(c, s)
    decreases |s|
  {
    if s != [] {
      var t := s[1..];
      assert s[0].next == Next(s, 0);
      forall k | 0 <= k < |t| ensures t[k].next == Next(t, k) {
        assert s[k + 1].next == Next(s, k + 1);
      }
      LinksGiveChain(s[0].next, t);
    }
  }

  lemma ChainPush(n: VfsNode, s: seq<VfsNode>)
    requires Chain(n.next, s)
    ensures Chain(n, [n] + s)
  {
    assert ([n] + s)[1..] == s;
  }

  lemma ChainNone()
    ensures Chain(null, [])
  {
  }

  type Places = map<VfsNode, Path>
  type Lists = map<VfsNode, seq<VfsNode>>

  /** The nodes and their places determine one another, so sibling names are unique. */
  ghost predicate Located(root: VfsNode, at: map<Path, VfsNode>, where: Places, kids: Lists) {
    && [] in at && at[[]] == root
    && kids.Keys == where.Keys
    && (forall p | p in at :: at[p] in where && where[at[p]] == p)
    && (forall n | n in where :: where[n] in at && at[where[n]] == n)
    && (forall n, c | n in where && c in kids[n] :: c in where)
  }

  /** A node's own fields agree with its place. */
  ghost predicate Placed(where: Places, kids: Lists, n: VfsNode)
    requires n in where && kids.Keys == where.Keys
    reads n`name, n`parent
  {
    if where[n] == [] then n.parent == null
    else
      && n.parent != null && n.parent in where && where[n.parent] == Parent(where[n])
      && n.name == Last(where[n]) && 0 < |n.name| < NAME_MAX
      && n in kids[n.parent]
  }

  /** A node's sibling list holds nodes one name below it, and only a directory has one. */
  ghost predicate Listed(where: Places, kids: Lists, n: VfsNode)
    requires n in where && kids.Keys == where.Keys
    reads n`children, n`isDir, kids[n]`next
  {
    && Chain(n.children, kids[n])
    && KidsOf(where, kids, n)
    && (!n.isDir ==> kids[n] == [])
  }

  ghost predicate KidsOf(where: Places, kids: Lists, n: VfsNode)
    requires n in where && n in kids
  {
    forall c | c in kids[n] :: c in where && where[c] != [] && Parent(where[c]) == where[n]
  }

  lemma HungLocated(root: VfsNode, at: map<Path, VfsNode>, where: Places, kids: Lists, dir: VfsNode, n: VfsNode)
    requires Located(root, at, where, kids) && dir in where && n !in where && where[dir] + [n.name] !in at
    ensures var p := where[dir] + [n.name];
            Located(root, at[p := n], where[n := p], kids[dir := [n] + kids[dir]][n := []])
  {
  }

  lemma HungPlaced(where: Places, kids: Lists, dir: VfsNode, n: VfsNode, m: VfsNode)
    requires kids.Keys == where.Keys && dir in where && n !in where && dir == n.parent && 0 < |n.name| < NAME_MAX
    requires m != n ==> m in where && Placed(where, kids, m)
    ensures Placed(where[n := where[dir] + [n.name]], kids[dir := [n] + kids[dir]][n := []], m)
  {
    assert Parent(where[dir] + [n.name]) == where[dir];
  }

  lemma HungListed(where: Places, kids: Lists, dir: VfsNode, n: VfsNode, m: VfsNode)
    requires kids.Keys == where.Keys && dir in where && n !in where && n.children == null
    requires KidsOf(where, kids, dir) && Chain(dir.children, [n] + kids[dir]) && dir.isDir
    requires m != n && m != dir ==> m in where && Listed(where, kids, m)
    ensures Listed(where[n := where[dir] + [n.name]], kids[dir := [n] + kids[dir]][n := []], m)
  {
    hide Chain;
    assert Parent(where[dir] + [n.name]) == where[dir];
    ChainNone();
  }

  function Cut<T>(s: seq<T>, i: nat): (r: seq<T>)
    requires i < |s|
    ensures forall c | c in r :: c in s
    ensures forall c | c in s && c != s[i] :: c in r
    ensures |r| == |s| - 1
  {
    assert s == s[..i] + [s[i]] + s[i + 1..];
    s[..i] + s[i + 1..]
  }

  lemma CutAt<T>(s: seq<T>, i: nat, k: nat)
    requires i < |s| && k < |s| - 1
    ensures Cut(s, i)[k] == if k < i then s[k] else s[k + 1]
  {
  }

  /** Skipping node `i` in the links gives the list without it. */
  lemma CutLinked(c: VfsNode?, s: seq<VfsNode>, i: nat)
    requires i < |s| && c == if i > 0 then s[0] else Next(s, 0)
    requires forall k | 0 <= k < |s| && k != i - 1 :: s[k].next == Next(s, k)
    requires i > 0 ==> s[i - 1].next == Next(s, i)
    ensures Linked(c, Cut(s, i))
  {
    hide Cut;
    var r := Cut(s, i);
    if r != [] {
      CutAt(s, i, 0);
    }
    forall k | 0 <= k < |r| ensures r[k].next == Next(r, k) {
      CutAt(s, i, k);
      if k + 1 < |r| {
        CutAt(s, i, k + 1);
      }
    }
  }

  /** A new childless node is in front of its directory's list, and no other list has changed. */
  ghost predicate Fronted(before: Lists, after: Lists, dir: VfsNode, n: VfsNode) {
    dir in before && after == before[dir := [n] + before[dir]][n := []]
  }

  /** A list without a node, the rest in order. */
  function Others(s: seq<VfsNode>, x: VfsNode): seq<VfsNode> {
    if s == [] then [] else (if s[0] == x then [] else [s[0]]) + Others(s[1..], x)
  }

  /** Every list has lost the node, and nothing else. */
  ghost predicate Thinned(before: Lists, after: Lists, node: VfsNode) {
    forall m | m in after :: m in before && after[m] == Others(before[m], node)
  }

  lemma {:induction false} NoOthers(s: seq<VfsNode>, x: VfsNode)
    requires x !in s
    ensures Others(s, x) == s
  {
    if s != [] {
      NoOthers(s[1..], x);
    }
  }

  lemma {:induction false} OthersCut(s: seq<VfsNode>, i: nat)
    requires i < |s| && forall k | 0 <= k < |s| && k != i :: s[k] != s[i]
    ensures Others(s, s[i]) == Cut(s, i)
    decreases i
  {
    if i == 0 {
      assert s[..0] + s[1..] == s[1..];
      NoOthers(s[1..], s[0]);
    } else {
      OthersCut(s[1..], i - 1);
      assert s[1..][..i - 1] == s[..i][1..] && s[1..][i..] == s[i + 1..];
      assert s[..i] == [s[0]] + s[..i][1..];
    }
  }

  /** The lists without a node at position `i` of its directory's list. */
  function CutLists(kids: Lists, dir: VfsNode, node: VfsNode, i: nat): (r: Lists)
    requires dir in kids && node in kids && dir != node && i < |kids[dir]|
    ensures r.Keys == kids.Keys - {node}
    ensures forall m | m in r :: r[m] == if m == dir then Cut(kids[dir], i) else kids[m]
  {
    (kids - {node})[dir := Cut(kids[dir], i)]
  }

  /** The node is a childless one, found once in its directory's list. */
  ghost predicate Removable(where: Places, kids: Lists, dir: VfsNode, node: VfsNode, i: nat) {
    && kids.Keys == where.Keys && node in where && dir in where && node != dir
    && kids[node] == [] && i < |kids[dir]| && kids[dir][i] == node
    && (forall k | 0 <= k < |kids[dir]| && k != i :: kids[dir][k] != node)
    && where[node] != [] && Parent(where[node]) == where[dir]
  }

  lemma CutGone(where: Places, kids: Lists, dir: VfsNode, node: VfsNode, i: nat)
    requires Removable(where, kids, dir, node, i)
    ensures node !in Cut(kids[dir], i)
  {
  }

  lemma CutLocated(root: VfsNode, at: map<Path, VfsNode>, where: Places, kids: Lists, dir: VfsNode,
                   node: VfsNode, i: nat)
    requires Located(root, at, where, kids) && Removable(where, kids, dir, node, i)
    requires forall n | n in where :: KidsOf(where, kids, n)
    ensures Located(root, at - {where[node]}, where - {node}, CutLists(kids, dir, node, i))
  {
    hide Cut, Removable;
    RemovablePlace(where, kids, dir, node, i);
    var kids1 := CutLists(kids, dir, node, i);
    CutGone(where, kids, dir, node, i);
    forall n, c | n in where - {node} && c in kids1[n] ensures c in where - {node} {
      assert KidsOf(where, kids, n);
      assert n != dir ==> where[n] != where[dir] by { OnePlace(root, at, where, kids, n, dir); }
    }
  }

  lemma OnePlace(root: VfsNode, at: map<Path, VfsNode>, where: Places, kids: Lists, n: VfsNode, m: VfsNode)
    requires Located(root, at, where, kids) && n in where && m in where
    ensures where[n] == where[m] <==> n == m
  {
  }

  lemma RemovablePlace(where: Places, kids: Lists, dir: VfsNode, node: VfsNode, i: nat)
    requires Removable(where, kids, dir, node, i)
    ensures dir in kids && node in kids && dir != node && i < |kids[dir]|
    ensures node in where && where[node] != [] && dir in where && Parent(where[node]) == where[dir]
    ensures kids.Keys == where.Keys && kids[node] == [] && kids[dir][i] == node
  {
  }

  lemma CutPlaced(where: Places, kids: Lists, dir: VfsNode, node: VfsNode, i: nat, m: VfsNode)
    requires Removable(where, kids, dir, node, i)
    requires m in where && m != node && Placed(where, kids, m)
    ensures Placed(where - {node}, CutLists(kids, dir, node, i), m)
  {
    hide Cut, CutLists, Removable;
    RemovablePlace(where, kids, dir, node, i);
  }

  lemma CutListed(where: Places, kids: Lists, dir: VfsNode, node: VfsNode, i: nat, m: VfsNode)
    requires Removable(where, kids, dir, node, i)
    requires m in where && m != node && KidsOf(where, kids, m)
    requires forall c | c in CutLists(kids, dir, node, i)[m] :: c != node
    requires if m == dir then Chain(dir.children, Cut(kids[dir], i)) && dir.isDir else Listed(where, kids, m)
    ensures Listed(where - {node}, CutLists(kids, dir, node, i), m)
  {
    hide Cut, CutLists, Chain, Removable;
    RemovablePlace(where, kids, dir, node, i);
  }

  /** The store through the link that points at `node`: the directory's own or the one of `prev`. */
  method Relink(dir: VfsNode, prev: VfsNode?, node: VfsNode, ghost list: seq<VfsNode>, ghost i: nat)
    requires Chain(dir.children, list) && i < |list| && list[i] == node
    requires if i == 0 then prev == null else prev == list[i - 1]
    requires forall k | 0 <= k < |list| && k != i - 1 :: list[k] != prev
    modifies dir`children, (if prev == null then {} else {prev})`next
    ensures Chain(dir.children, Cut(list, i))
  {
    hide Chain, Cut;
    ChainGivesLinks(dir.children, list);
    label start:
    if prev == null {
      dir.children := node.next;
    } else {
      prev.next := node.next;
    }
    forall k | 0 <= k < |list| && k != i - 1 ensures list[k].next == Next(list, k) {
      assert list[k] != prev && old@start(list[k].next) == Next(list, k);
    }
    CutLinked(dir.children, list, i);
    LinksGiveChain(dir.children, Cut(list, i));
  }

  class FileSystem {
    const root: VfsNode
    ghost var at: map<Path, VfsNode>
    ghost var where: Places
    ghost var kids: Lists

    ghost predicate Valid()
      reads this, where.Keys
    {
      && Located(root, at, where, kids)
      && root.isDir
      && (forall n | n in where :: Placed(where, kids, n))
      && (forall n | n in where :: Listed(where, kids, n))
    }

    ghost function Dirs(): (t: Tree)
      requires Located(root, at, where, kids)
      reads this, where.Keys`isDir
      ensures t.Keys == at.Keys && forall p | p in at :: t[p] == at[p].isDir
    {
      map p | p in at :: at[p].isDir
    }

    lemma DirsIs(t: Tree)
      requires Located(root, at, where, kids)
      requires t.Keys == at.Keys && forall p | p in at :: t[p] == at[p].isDir
      ensures Dirs() == t
    {
    }

    lemma DirsSound()
      requires Valid()
      ensures Sound(Dirs())
    {
      hide Chain;
      forall p | p in at && p != [] ensures Parent(p) in at && at[Parent(p)].isDir {
        var n := at[p];
        assert Placed(where, kids, n) && Listed(where, kids, n.parent);
      }
    }

    /** vfs_init. */
    constructor ()
      ensures Valid() && fresh(root) && Dirs() == map[[] := true]
    {
      hide Dirs;
      var r := new VfsNode("/", true, null, null);
      root := r;
      at, where, kids := map[[] := r], map[r := []], map[r := []];
      new;
      assert Located(root, at, where, kids);
      assert Placed(where, kids, root);
      assert Listed(where, kids, root);
    }

    lemma IsLocated()
      requires Valid()
      ensures Located(root, at, where, kids) && kids.Keys == where.Keys && root in where
      ensures forall p | p in at :: at[p] in where
      ensures forall n | n in where :: where[n] in at
    {
    }

    lemma NameTaken(dir: VfsNode, name: string)
      requires Valid() && dir in where
      ensures var p := where[dir] + [name]; p in at ==> at[p] in kids[dir] && at[p].name == name
    {
      hide Chain;
      var p := where[dir] + [name];
      if p in at {
        assert Parent(p) == where[dir] && Placed(where, kids, at[p]);
      }
    }

    lemma SiblingPlaced(dir: VfsNode, c: VfsNode)
      requires Valid() && dir in where && c in kids[dir]
      ensures c in where && where[dir] + [c.name] in at && c == at[where[dir] + [c.name]]
    {
      hide Chain, Valid, Located;
      IsLocated();
      ListIs(dir);
      assert where[c] != [] && Parent(where[c]) == where[dir];
      PlacedIs(c);
      assert where[c] == where[dir] + [c.name];
    }

    lemma PlacedIs(c: VfsNode)
      requires Valid() && c in where
      ensures where[c] in at && at[where[c]] == c
      ensures where[c] != [] ==> c.name == Last(where[c])
    {
      hide Chain, Listed;
      assert Placed(where, kids, c);
    }

    /** A node is in its parent's list, once. */
    lemma PositionOf(n: VfsNode) returns (i: nat)
      requires Valid() && n in where && n.parent != null
      ensures n.parent in where && i < |kids[n.parent]| && kids[n.parent][i] == n
      ensures forall k | 0 <= k < |kids[n.parent]| && k != i :: kids[n.parent][k] != n
    {
      hide Chain, Listed;
      assert Placed(where, kids, n);
      var list := kids[n.parent];
      i :| 0 <= i < |list| && list[i] == n;
      ListIs(n.parent);
      forall k | 0 <= k < |list| && k != i ensures list[k] != n {
        ChainDistinct(n.parent.children, list, if k < i then k else i, if k < i then i else k);
      }
    }

    lemma ChildrenMeans(n: VfsNode)
      requires Valid() && n in where
      ensures n.children == null <==> kids[n] == []
      ensures n.children == null <==> !(exists c :: where[n] + [c] in at)
      ensures n.children != null ==> n.isDir
    {
      hide Placed;
      IsLocated();
      ListIs(n);
      assert Listed(where, kids, n);
      if kids[n] == [] {
        forall c ensures where[n] + [c] !in at {
          NameTaken(n, c);
        }
      } else {
        var c := kids[n][0].name;
        SiblingPlaced(n, kids[n][0]);
        assert where[n] + [c] in at;
        assert exists d :: where[n] + [d] in at;
      }
    }

    lemma ListIs(dir: VfsNode)
      requires Valid() && dir in where
      ensures Chain(dir.children, kids[dir]) && KidsOf(where, kids, dir)
    {
      assert Listed(where, kids, dir);
    }

    method DirFind(dir: VfsNode, name: string) returns (c: VfsNode?)
      requires Valid() && dir in where
      ensures c == null <==> where[dir] + [name] !in at
      ensures c != null ==> c == at[where[dir] + [name]]
    {
      hide Valid;
      IsLocated();
      c := dir.children;
      ghost var i, list := 0, kids[dir];
      ListIs(dir);
      NameTaken(dir, name);
      assert list[0..] == list;
      while c != null
        invariant 0 <= i <= |list| && Chain(c, list[i..])
        invariant forall k | 0 <= k < i :: list[k].name != name
        decreases |list| - i
      {
        assert c == list[i];
        SiblingPlaced(dir, c);
        if c.name == name {
          return;
        }
        assert list[i..][1..] == list[i + 1..];
        c, i := c.next, i + 1;
      }
    }

    /** Going up: the root has no parent, any other node the directory its place says. */
    lemma ParentIs(n: VfsNode)
      requires Valid() && n in where
      ensures n.parent == null <==> where[n] == []
      ensures n.parent != null ==> n.parent in where && where[n.parent] == Parent(where[n]) && n.parent.isDir
    {
      hide Chain;
      assert Placed(where, kids, n);
      if n.parent != null {
        assert Listed(where, kids, n.parent);
      }
    }

    /** One component of a path: the source's choice between dot, dot-dot and a name. */
    method StepTo(cur: VfsNode, c: string) returns (nxt: VfsNode?)
      requires Valid() && cur in where
      ensures nxt == null <==> Step(Dirs(), where[cur], c) == None
      ensures nxt != null ==> nxt in where && Step(Dirs(), where[cur], c) == Some(where[nxt])
    {
      hide Chain, Valid;
      IsLocated();
      if c == "." {
        nxt := cur;
      } else if c == ".." {
        ParentIs(cur);
        nxt := if cur.parent != null then cur.parent else cur;
      } else {
        nxt := DirFind(cur, c);
      }
    }

    method StartNode(path: string, cwd: VfsNode?) returns (cur: VfsNode)
      requires Valid() && (cwd != null ==> cwd in where)
      ensures cur in where
      ensures where[cur] == if (path != [] && path[0] == '/') || cwd == null then [] else where[cwd]
    {
      hide Chain, Valid;
      RootIn();
      cur := if (path != [] && path[0] == '/') || cwd == null then root else cwd;
    }

    /** walk: with `stopAtLast`, the directory that would hold the final component and where that
        component starts in the text; otherwise the node itself. */
    method Walk(path: string, cwd: VfsNode?, stopAtLast: bool) returns (node: VfsNode?, leaf: Option<nat>)
      requires Valid() && (cwd != null ==> cwd in where)
      ensures Sound(Dirs()) && (cwd != null ==> where[cwd] in Dirs())
      ensures !stopAtLast ==>
        var r := Lookup(Dirs(), if cwd == null then [] else where[cwd], path);
        if node == null then r == None else node in where && r == Some(where[node])
      ensures stopAtLast ==>
        var start := if (path != [] && path[0] == '/') || cwd == null then [] else where[cwd];
        var r := ResolveParent(Dirs(), start, Split(path));
        if node == null then r == None else node in where && r == Some(where[node])
      ensures stopAtLast && node != null <==> leaf.Some?
      ensures leaf.Some? ==>
        leaf.value < |path| && Split(path) != [] && Split(path[leaf.value..]) == [Last(Split(path))]
    {
      hide Chain, Valid, Split, Resolve, ResolveParent, Step, Sound, Located;
      IsLocated();
      DirsSound();
      var cur := StartNode(path, cwd);
      leaf := None;
      var p := SkipSlashes(path, 0);
      assert path[0..] == path;
      SplitNone(path, p);
      if p == |path| {
        ResolveNone(Dirs(), where[cur]);
        return if stopAtLast then null else cur, None;
      }
      node, leaf := WalkFrom(cur, path, p, stopAtLast);
    }

    /** The loop of walk, from a directory and the start of a component. */
    method WalkFrom(start: VfsNode, path: string, from: nat, stopAtLast: bool)
      returns (node: VfsNode?, leaf: Option<nat>)
      requires Valid() && start in where && from < |path| && path[from] != '/'
      ensures Sound(Dirs()) && where[start] in Dirs()
      ensures var cs := Split(path[from..]);
              var here := where[start];
              var r := if stopAtLast then ResolveParent(Dirs(), here, cs) else Resolve(Dirs(), here, cs);
              if node == null then r == None else node in where && r == Some(where[node])
      ensures stopAtLast && node != null <==> leaf.Some?
      ensures leaf.Some? ==>
        var cs := Split(path[from..]);
        leaf.value < |path| && cs != [] && Split(path[leaf.value..]) == [Last(cs)]
    {
      hide Chain, Valid, Split, Resolve, ResolveParent, Step, Sound, Located, Dirs;
      IsLocated();
      DirsSound();
      ghost var t, all := Dirs(), Split(path[from..]);
      leaf := None;
      var cur, p := start, from;
      SplitNone(path, p);
      while true
        invariant p < |path| && path[p] != '/' && cur in where
        invariant all != [] && Split(path[p..]) != [] && Last(all) == Last(Split(path[p..]))
        invariant Resolve(t, where[cur], Split(path[p..])) == Resolve(t, where[start], all)
        invariant ResolveParent(t, where[cur], Split(path[p..])) == ResolveParent(t, where[start], all)
        decreases |path| - p
      {
        var q := SkipName(path, p);
        var rest := SkipSlashes(path, q);
        var isLast := rest == |path|;
        SplitNone(path, rest);
        ResolveOne(t, where[cur], path[p..q], Split(path[rest..]));
        if isLast && stopAtLast {
          return cur, Some(p);
        }
        var nxt := StepTo(cur, path[p..q]);
        if nxt == null || (!isLast && !nxt.isDir) {
          return null, None;
        }
        if isLast {
          return nxt, None;
        }
        cur, p := nxt, rest;
      }
    }

    lemma RootIn()
      requires Valid()
      ensures root in where && where[root] == [] && root.isDir && [] in at
    {
    }

    /** vfs_create; `granted` says whether the allocator has room for a node. */
    method Create(dir: VfsNode?, name: string, isDir: bool, granted: bool) returns (n: VfsNode?)
      requires Valid() && (dir != null ==> dir in where)
      modifies this, dir
      ensures Valid()
      ensures n == null <==>
        dir == null || !old(dir.isDir) || name == "" || |name| >= NAME_MAX
        || old(where[dir] + [name] in at) || !granted
      ensures n == null ==> at == old(at) && where == old(where) && kids == old(kids) && Dirs() == old(Dirs())
      ensures n != null ==>
        var p := old(where[dir]) + [name];
        fresh(n) && at == old(at)[p := n] && where == old(where)[n := p]
        && Dirs() == old(Dirs())[p := isDir]
        && Fronted(old(kids), kids, dir, n)
    {
      hide Valid, Chain, Located, Dirs, Fronted;
      IsLocated();
      if dir == null || !dir.isDir {
        return null;
      }
      if name == "" || |name| >= NAME_MAX {
        return null;
      }
      var there := DirFind(dir, name);
      if there != null || !granted {
        return null;
      }
      n := Attach(dir, name, isDir);
    }

    method Attach(dir: VfsNode, name: string, isDir: bool) returns (n: VfsNode)
      requires Valid() && dir in where && dir.isDir && 0 < |name| < NAME_MAX && where[dir] + [name] !in at
      modifies this, dir
      ensures Valid() && fresh(n)
      ensures var p := old(where[dir]) + [name];
              at == old(at)[p := n] && where == old(where)[n := p] && Dirs() == old(Dirs())[p := isDir]
      ensures Fronted(old(kids), kids, dir, n)
    {
      hide Valid, Chain, Located, Dirs, Fronted;
      IsLocated();
      ghost var p, before := where[dir] + [name], Dirs();
      n := new VfsNode(name, isDir, dir, dir.children);
      Hang(dir, n);
      IsLocated();
      DirsIs(before[p := isDir]);
    }

    /** Puts a fresh node at the front of a directory's list. */
    method Hang(dir: VfsNode, n: VfsNode)
      requires Valid() && dir in where && dir.isDir && n !in where
      requires n.parent == dir && n.next == dir.children && n.children == null
      requires 0 < |n.name| < NAME_MAX && where[dir] + [n.name] !in at
      modifies this, dir`children
      ensures Valid()
      ensures where == old(where)[n := old(where[dir]) + [n.name]]
      ensures at == old(at)[old(where[dir]) + [n.name] := n]
      ensures Fronted(old(kids), kids, dir, n)
    {
      hide Chain, Placed, Listed, Located;
      IsLocated();
      HungLocated(root, at, where, kids, dir, n);
      ghost var p := where[dir] + [n.name];
      ghost var where1: Places := where[n := p];
      ghost var kids1: Lists := kids[dir := [n] + kids[dir]][n := []];
      ListIs(dir);
      ChainPush(n, kids[dir]);
      ghost var where0, kids0 := where, kids;
      dir.children := n;
      at, where, kids := at[p := n], where1, kids1;
      forall m | m in where ensures Placed(where, kids, m) {
        HungPlaced(where0, kids0, dir, n, m);
      }
      forall m | m in where ensures Listed(where, kids, m) {
        HungListed(where0, kids0, dir, n, m);
      }
    }

    /** One component of vfs_mkdirs; `rest` is what the call still has to make. */
    method MakeNext(cur: VfsNode, name: string, granted: nat, ghost rest: Path, ghost r: (Tree, Option<Path>))
      returns (nxt: VfsNode?, left: nat)
      requires Valid() && Located(root, at, where, kids) && cur in where && name != ""
      requires Making(Dirs(), where[cur], [name] + rest, granted, r)
      modifies this, cur
      ensures Valid() && Located(root, at, where, kids)
      ensures if nxt == null then r == (Dirs(), None)
              else nxt in where && Making(Dirs(), where[nxt], rest, left, r)
      ensures Kept(old(where), where) && forall m | m in where :: m in old(where) || fresh(m)
    {
      hide Chain, Valid, Make, Sound, Located, Dirs;
      IsLocated();
      DirsSound();
      MakeOneComponent(Dirs(), where[cur], name, rest, granted);
      left := granted;
      if name == "." {
        return cur, left;
      }
      if name == ".." {
        ParentIs(cur);
        return if cur.parent != null then cur.parent else cur, left;
      }
      nxt, left := MakeNamed(cur, name, granted);
      if nxt != null && !nxt.isDir {
        return null, left;
      }
    }

    /** The child of that name: the one that is there, or a new directory. */
    method MakeNamed(cur: VfsNode, name: string, granted: nat) returns (nxt: VfsNode?, left: nat)
      requires Valid() && Located(root, at, where, kids) && cur in where && name != ""
      modifies this, cur
      ensures Valid() && Located(root, at, where, kids)
      ensures var below := old(where)[cur] + [name];
              if old(below in at) then
                nxt == old(at)[below] && left == granted && Dirs() == old(Dirs()) && where == old(where)
                && Dirs()[below] == nxt.isDir
              else if |name| >= NAME_MAX || !old(Dirs()[where[cur]]) || granted == 0 then
                nxt == null && Dirs() == old(Dirs()) && where == old(where)
              else
                nxt != null && fresh(nxt) && nxt.isDir && left == granted - 1
                && Dirs() == old(Dirs())[below := true] && where == old(where)[nxt := below]
    {
      hide Chain, Valid, Located, Dirs;
      IsLocated();
      left := granted;
      nxt := DirFind(cur, name);
      if nxt == null {
        if |name| >= NAME_MAX {
          return null, left;
        }
        nxt := Create(cur, name, true, left > 0);
        IsLocated();
        if nxt == null {
          return null, left;
        }
        left := left - 1;
        assert Dirs()[where[nxt]];
      } else {
        assert Dirs()[where[nxt]] == nxt.isDir;
      }
    }

    /** vfs_mkdirs, with memory for `granted` more nodes. */
    method Mkdirs(path: string, cwd: VfsNode?, granted: nat) returns (node: VfsNode?)
      requires Valid() && (cwd != null ==> cwd in where)
      modifies this, where.Keys
      ensures Valid() && old(Sound(Dirs()))
      ensures cwd != null ==> old(where[cwd] in Dirs())
      ensures var start := if (path != [] && path[0] == '/') || cwd == null then [] else old(where[cwd]);
              var r := Make(old(Dirs()), start, Split(path), granted);
              if node == null then r == (Dirs(), None) else node in where && r == (Dirs(), Some(where[node]))
      ensures Kept(old(where), where)
    {
      hide Chain, Valid, Split, Make, Sound, Located;
      IsLocated();
      DirsSound();
      var cur := StartNode(path, cwd);
      var p := SkipSlashes(path, 0);
      assert path[0..] == path;
      ghost var r := Make(Dirs(), where[cur], Split(path), granted);
      node := MakeFrom(cur, path, p, granted, r);
    }

    /** The loop of vfs_mkdirs. */
    method MakeFrom(start: VfsNode, path: string, from: nat, granted: nat, ghost r: (Tree, Option<Path>))
      returns (node: VfsNode?)
      requires Valid() && Located(root, at, where, kids) && start in where
      requires from <= |path| && (from < |path| ==> path[from] != '/')
      requires Making(Dirs(), where[start], Split(path[from..]), granted, r)
      modifies this, where.Keys
      ensures Valid() && Located(root, at, where, kids)
      ensures if node == null then r == (Dirs(), None) else node in where && r == (Dirs(), Some(where[node]))
      ensures Kept(old(where), where)
    {
      hide Chain, Valid, Split, Making, Located, Dirs, Kept;
      var cur, left, p := start, granted, from;
      KeptFirst(where);
      while p < |path|
        invariant p <= |path| && (p < |path| ==> path[p] != '/')
        invariant Valid() && Located(root, at, where, kids) && cur in where
        invariant forall m | m in where :: m in old(where) || fresh(m)
        invariant Kept(old(where), where)
        invariant Making(Dirs(), where[cur], Split(path[p..]), left, r)
      {
        ghost var places := where;
        var name;
        name, p := TakeName(path, p);
        var nxt;
        nxt, left := MakeNext(cur, name, left, Split(path[p..]), r);
        KeptNext(old(where), places, where);
        if nxt == null {
          return null;
        }
        cur := nxt;
      }
      SplitNone(path, p);
      MakingDone(Dirs(), where[cur], left, r);
      node := cur;
    }

    /** Takes a childless node, at position `i` of its parent's list, out of the tree. */
    method Detach(node: VfsNode, dir: VfsNode, prev: VfsNode?, ghost i: nat)
      requires Valid() && node in where && dir in where && node.parent == dir && node != root
      requires kids[node] == [] && i < |kids[dir]| && kids[dir][i] == node
      requires forall k | 0 <= k < |kids[dir]| && k != i :: kids[dir][k] != node
      requires if i == 0 then prev == null else prev == kids[dir][i - 1] && prev in where
      modifies this, where.Keys
      ensures Valid()
      ensures where == old(where) - {node} && at == old(at) - {old(where)[node]}
      ensures forall m | m in where :: m.isDir == old(m.isDir)
      ensures Thinned(old(kids), kids, node)
    {
      hide Chain, Placed, Listed, Located, Cut, CutLists, KidsOf, Removable;
      IsLocated();
      AllKids(dir, node, i, prev);
      ListIs(dir);
      label start:
      Relink(dir, prev, node, kids[dir], i);
      forall m | m in where && m != dir ensures Listed(where, kids, m) {
        assert old@start(Listed(where, kids, m)) && prev !in kids[m];
      }
      ghost var kids0 := kids;
      Forget(node, dir, i);
      forall m | m in kids ensures m in kids0 && kids[m] == Others(kids0[m], node) {
        if m == dir {
          OthersCut(kids0[dir], i);
        } else {
          NoOthers(kids0[m], node);
        }
      }
    }

    /** The relinked node leaves the tree's record. */
    ghost method Forget(node: VfsNode, dir: VfsNode, i: nat)
      requires Located(root, at, where, kids) && Removable(where, kids, dir, node, i)
      requires root.isDir && dir.isDir && kids.Keys == where.Keys && dir in where && node in where
      requires dir in kids && i < |kids[dir]| && Chain(dir.children, Cut(kids[dir], i)) && node !in Cut(kids[dir], i)
      requires node in kids && node != dir
      requires forall m | m in where :: Placed(where, kids, m) && KidsOf(where, kids, m)
      requires forall m | m in where && m != dir :: Listed(where, kids, m) && node !in kids[m]
      modifies this
      ensures Valid()
      ensures where == old(where) - {node} && at == old(at) - {old(where)[node]}
      ensures kids == old(CutLists(kids, dir, node, i))
    {
      hide Chain, Placed, Listed, Located, Cut, KidsOf, Removable;
      RemovablePlace(where, kids, dir, node, i);
      CutLocated(root, at, where, kids, dir, node, i);
      ghost var where0, kids0 := where, kids;
      at, where, kids := at - {where[node]}, where - {node}, CutLists(kids, dir, node, i);
      forall m | m in where ensures Placed(where, kids, m) {
        CutPlaced(where0, kids0, dir, node, i, m);
      }
      forall m | m in where ensures Listed(where, kids, m) {
        CutListed(where0, kids0, dir, node, i, m);
      }
    }

    /** Every list holds children, no list but its directory's holds the node to cut, and no other list
        holds the sibling before it. */
    lemma AllKids(dir: VfsNode, node: VfsNode, i: nat, prev: VfsNode?)
      requires Valid() && node in where && dir in where && node.parent == dir && node != root
      requires kids[node] == [] && i < |kids[dir]| && kids[dir][i] == node
      requires forall k | 0 <= k < |kids[dir]| && k != i :: kids[dir][k] != node
      requires if i == 0 then prev == null else prev == kids[dir][i - 1]
      ensures Removable(where, kids, dir, node, i) && dir.isDir
      ensures forall n | n in where :: KidsOf(where, kids, n)
      ensures forall n | n in where && n != dir :: node !in kids[n] && prev !in kids[n]
      ensures node !in Cut(kids[dir], i)
      ensures forall k | 0 <= k < |kids[dir]| && k != i - 1 :: kids[dir][k] != prev
    {
      hide Chain, Cut, Valid;
      IsLocated();
      ParentIs(node);
      ListIs(dir);
      forall k | 0 <= k < |kids[dir]| && k != i - 1 && i > 0 ensures kids[dir][k] != prev {
        ChainDistinct(dir.children, kids[dir], if k < i - 1 then k else i - 1, if k < i - 1 then i - 1 else k);
      }
      forall n | n in where ensures KidsOf(where, kids, n) {
        ListIs(n);
      }
      forall n | n in where && n != dir ensures node !in kids[n] && prev !in kids[n] {
        assert KidsOf(where, kids, n) && KidsOf(where, kids, dir);
        OnePlace(root, at, where, kids, n, dir);
      }
      CutGone(where, kids, dir, node, i);
    }

    /** vfs_unlink. The node leaves the tree unless it is the root or a directory with children. */
    method Unlink(node: VfsNode?) returns (r: int)
      requires Valid() && (node != null ==> node in where)
      modifies this, where.Keys
      ensures Valid()
      ensures r == 0 || r == -1
      ensures r == 0 <==>
        node != null && node != root && !(old(node.isDir) && exists n :: old(where[node]) + [n] in old(at))
      ensures r == 0 ==>
        where == old(where) - {node} && at == old(at) - {old(where)[node]}
        && Dirs() == old(Dirs()) - {old(where)[node]}
        && Thinned(old(kids), kids, node)
      ensures r != 0 ==> where == old(where) && at == old(at) && kids == old(kids) && Dirs() == old(Dirs())
    {
      hide Chain, Valid, Thinned, Located;
      IsLocated();
      if node == null || node == root {
        return -1;
      }
      ChildrenMeans(node);
      if node.isDir && node.children != null {
        return -1;
      }
      ParentIs(node);
      ghost var i := PositionOf(node);
      var found, prev := LinkTo(node, i);
      if !found {
        return -1;
      }
      Detach(node, node.parent, prev, i);
      IsLocated();
      r := 0;
    }

    /** The loop of vfs_unlink: the sibling whose link points at the node, null when that link is the
        parent's own. The list always has one. */
    method LinkTo(node: VfsNode, ghost i: nat) returns (found: bool, prev: VfsNode?)
      requires Valid() && node in where && node.parent != null && node.parent in where
      requires i < |kids[node.parent]| && kids[node.parent][i] == node
      requires forall k | 0 <= k < |kids[node.parent]| && k != i :: kids[node.parent][k] != node
      ensures found
      ensures if i == 0 then prev == null else prev == kids[node.parent][i - 1] && prev in where
    {
      hide Chain, Valid;
      IsLocated();
      ListIs(node.parent);
      ghost var k, list := 0, kids[node.parent];
      var cur := node.parent.children;
      prev := null;
      assert list[0..] == list;
      while cur != null && cur != node
        invariant 0 <= k <= i && Chain(cur, list[k..])
        invariant if k == 0 then prev == null else prev == list[k - 1] && prev in where
        decreases i - k
      {
        ChainHead(cur, list[k..]);
        SiblingPlaced(node.parent, cur);
        assert list[k..][1..] == list[k + 1..];
        prev, cur, k := cur, cur.next, k + 1;
      }
      ChainHead(cur, list[k..]);
      found := cur != null;
    }

    /** vfs_node_path: `buf` ends up holding the printed text and a terminator. With no room at all the root
        writes nothing; any other node would write in front of the buffer. */
    method NodePath(node: VfsNode, buf: array<char>, size: nat)
      requires Valid() && node in where && size <= buf.Length && (size == 0 ==> where[node] == [])
      modifies buf
      ensures size == 0 ==> buf[..] == old(buf[..])
      ensures size > 0 ==>
        var text := Printed(where[node], size);
        |text| < size && buf[..|text|] == text && buf[|text|] == '\0'
      ensures size > 0 ==>
        var p := where[node];
        var full := PathText(if |p| > 32 then p[|p| - 32..] else p);
        var k := if |full| < size then |full| else size - 1;
        buf[..k] == full[..k] && buf[k] == '\0'
      ensures forall i | size <= i < buf.Length :: buf[i] == old(buf[i])
    {
      hide Chain, Valid, PathText, Text;
      IsLocated();
      ParentIs(node);
      if node.parent == null {
        if size == 0 {
          return;
        }
        RootText(size);
        if size > 1 {
          buf[0] := '/';
        }
        buf[if size > 1 then 1 else 0] := '\0';
        return;
      }
      var stack := Ancestry(node);
      ghost var p := where[node];
      var pos := PutAll(stack, buf, size, p[|p| - |stack|..]);
      ShownText(p, size);
      buf[pos] := '\0';
    }

    /** Printing the path of a node and walking the text from any directory: it leads back to the node exactly when
        at most 32 names and the whole text were printed, or when the one-byte buffer holds nothing and the walk
        starts at the node. */
    method PrintThenWalk(node: VfsNode, cwd: VfsNode, size: nat) returns (found: VfsNode?)
      requires Valid() && node in where && cwd in where && size > 0
      requires forall i | 0 <= i < |where[node]| :: Ordinary(where[node][i]) && '\0' !in where[node][i]
      ensures found == node <==>
        (|where[node]| <= 32 && |PathText(where[node])| < size) || (size == 1 && cwd == node)
    {
      hide Chain, Valid, PathText, Located, Lookup, Sound;
      IsLocated();
      DirsSound();
      var buf := new char[size];
      NodePath(node, buf, size);
      PrintedHasNoNul(where[node], size);
      var path := ReadText(buf, Printed(where[node], size));
      var leaf;
      found, leaf := Walk(path, cwd, false);
      PrintResolve(Dirs(), where[node], size, where[cwd]);
      if found != null { OnePlace(root, at, where, kids, found, node); }
      OnePlace(root, at, where, kids, cwd, node);
    }

    /** The nodes from `node` up, at most 32 of them, without the root. */
    method Ancestry(node: VfsNode) returns (stack: seq<VfsNode>)
      requires Valid() && node in where
      ensures |stack| == Min(|where[node]|, DEPTH_MAX)
      ensures forall k | 0 <= k < |stack| :: stack[k].name == where[node][|where[node]| - 1 - k]
    {
      hide Chain, Valid;
      ghost var p := where[node];
      stack := [];
      var n := node;
      ParentIs(n);
      while n.parent != null && |stack| < DEPTH_MAX
        invariant n in where && |stack| <= Min(|p|, DEPTH_MAX) && where[n] == p[..|p| - |stack|]
        invariant n.parent == null <==> where[n] == []
        invariant forall k | 0 <= k < |stack| :: stack[k].name == p[|p| - 1 - k]
        decreases DEPTH_MAX - |stack|
      {
        ParentIs(n);
        NameIs(n);
        stack := stack + [n];
        n := n.parent;
        ParentIs(n);
      }
    }

    lemma NameIs(n: VfsNode)
      requires Valid() && n in where && n.parent != null
      ensures where[n] != [] && n.name == Last(where[n])
    {
      hide Chain;
      assert Placed(where, kids, n);
    }
  }

  /** The string in a buffer, up to its terminator. */
  method ReadText(buf: array<char>, ghost text: string) returns (r: string)
    requires |text| < buf.Length && buf[..|text|] == text && buf[|text|] == '\0' && '\0' !in text
    ensures r == text
  {
    r := "";
    assert forall i | 0 <= i < |text| :: buf[i] == text[i] && text[i] in text;
    while buf[|r|] != '\0'
      invariant |r| <= |text| && r == text[..|r|]
      decreases |text| - |r|
    {
      r := r + [buf[|r|]];
    }
  }

  function Min(a: int, b: int): int { if a < b then a else b }

  lemma TextNone()
    ensures Text([]) == ""
  {
  }

  lemma RootText(size: nat)
    requires size > 0
    ensures Printed([], size) == if size > 1 then "/" else ""
  {
  }

  lemma ShownText(p: Path, size: nat)
    requires size > 0 && p != []
    ensures var shown := p[|p| - Min(|p|, DEPTH_MAX)..];
            Printed(p, size) == Text(shown)[..Min(|Text(shown)|, size - 1)]
  {
  }

  /** Prints the stack from its deepest entry, the topmost directory, down. */
  method PutAll(stack: seq<VfsNode>, buf: array<char>, size: nat, ghost names: Path) returns (pos: nat)
    requires 0 < size <= buf.Length && |names| == |stack|
    requires forall k | 0 <= k < |stack| :: stack[k].name == names[|stack| - 1 - k]
    modifies buf
    ensures pos == Min(|Text(names)|, size - 1) && buf[..pos] == Text(names)[..pos]
    ensures forall i | size <= i < buf.Length :: buf[i] == old(buf[i])
  {
    hide Text;
    pos := 0;
    var i := |stack|;
    TextNone();
    assert names[..0] == [];
    while i > 0
      invariant 0 <= i <= |stack|
      invariant pos == Min(|Text(names[..|stack| - i])|, size - 1)
      invariant buf[..pos] == Text(names[..|stack| - i])[..pos]
      invariant forall i | size <= i < buf.Length :: buf[i] == old(buf[i])
    {
      i := i - 1;
      ghost var done := names[..|stack| - i - 1];
      assert names[..|stack| - i] == done + [stack[i].name];
      WeightSnoc(done, stack[i].name);
      if pos + 1 < size {
        buf[pos] := '/';
        pos := pos + 1;
      }
      pos := PutName(stack[i].name, buf, size, pos, Text(done) + "/");
    }
    assert names[..|stack|] == names;
  }

  /** Copies a name after what is already printed, as far as the buffer goes. */
  method PutName(name: string, buf: array<char>, size: nat, from: nat, ghost before: string) returns (pos: nat)
    requires 0 < size <= buf.Length && from == Min(|before|, size - 1) && buf[..from] == before[..from]
    modifies buf
    ensures pos == Min(|before + name|, size - 1) && buf[..pos] == (before + name)[..pos]
    ensures forall i | size <= i < buf.Length :: buf[i] == old(buf[i])
  {
    pos := from;
    var k := 0;
    while k < |name| && pos + 1 < size
      invariant 0 <= k <= |name| && pos < size
      invariant k > 0 ==> pos == |before| + k
      invariant k == 0 ==> pos == from
      invariant buf[..pos] == (before + name)[..pos]
      invariant forall i | size <= i < buf.Length :: buf[i] == old(buf[i])
    {
      buf[pos] := name[k];
      pos, k := pos + 1, k + 1;
    }
  }

  /** What is still to be made leads to the same tree and directory. */
  ghost predicate Making(t: Tree, cur: Path, cs: Path, left: nat, r: (Tree, Option<Path>)) {
    Sound(t) && cur in t && Make(t, cur, cs, left) == r
  }

  lemma MakingDone(t: Tree, cur: Path, left: nat, r: (Tree, Option<Path>))
    requires Making(t, cur, [], left, r)
    ensures r == (t, Some(cur))
  {
  }

  /** Every node of `before` is still there, in its place. */
  ghost predicate Kept(before: Places, after: Places) {
    forall m | m in before :: m in after && after[m] == before[m]
  }

  lemma KeptFirst(w: Places)
    ensures Kept(w, w)
  {
  }

  lemma KeptNext(a: Places, b: Places, c: Places)
    requires Kept(a, b) && Kept(b, c)
    ensures Kept(a, c)
  {
  }

  /** Making directories, one component at a time. */
  lemma MakeOneComponent(t: Tree, cur: Path, c: Name, rest: Path, granted: nat)
    requires Sound(t) && cur in t
    ensures var r, below := Make(t, cur, [c] + rest, granted), cur + [c];
            if c == "." then r == Make(t, cur, rest, granted)
            else if c == ".." then
              var up := if cur == [] then cur else Parent(cur);
              up in t && r == Make(t, up, rest, granted)
            else if below in t then r == if t[below] then Make(t, below, rest, granted) else (t, None)
            else if |c| >= NAME_MAX || !t[cur] || granted == 0 then r == (t, None)
            else Sound(t[below := true]) && r == Make(t[below := true], below, rest, granted - 1)
  {
    hide Sound;
    if cur != [] {
      ParentSound(t, cur);
    }
    assert ([c] + rest)[1..] == rest;
    if t[cur] && cur + [c] !in t {
      assert Grown(t, cur, c) == t[cur + [c] := true];
    }
  }

  lemma ResolveNone(t: Tree, cur: Path)
    requires Sound(t) && cur in t
    ensures Resolve(t, cur, []) == Some(cur) && ResolveParent(t, cur, []) == None
  {
  }

  /** Both resolutions, one component at a time. */
  lemma ResolveOne(t: Tree, cur: Path, c: Name, rest: Path)
    requires Sound(t) && cur in t
    ensures var s := Step(t, cur, c);
            Resolve(t, cur, [c] + rest) ==
            if s == None || (rest != [] && s.value in t && !t[s.value]) then None
            else if rest == [] then s
            else if s.value in t then Resolve(t, s.value, rest) else None
    ensures rest == [] ==> ResolveParent(t, cur, [c] + rest) == Some(cur)
    ensures rest != [] ==> var s := Step(t, cur, c);
            ResolveParent(t, cur, [c] + rest) ==
            if s == None || s.value !in t || !t[s.value] then None else ResolveParent(t, s.value, rest)
    ensures rest != [] ==> Last([c] + rest) == Last(rest)
    ensures Last([c]) == c
  {
    hide Sound;
    if cur != [] {
      ParentSound(t, cur);
    }
    assert ([c] + rest)[1..] == rest;
  }

  lemma SplitNone(path: string, q: nat)
    requires q <= |path| && (q < |path| ==> path[q] != '/')
    ensures Split(path[q..]) == [] <==> q == |path|
  {
  }

  lemma SplitSkip(path: string, p: nat)
    requires p < |path| && path[p] == '/'
    ensures Split(path[p..]) == Split(path[p + 1..])
  {
    assert path[p..][1..] == path[p + 1..];
  }

  method SkipSlashes(path: string, from: nat) returns (p: nat)
    requires from <= |path|
    ensures from <= p <= |path| && (p < |path| ==> path[p] != '/')
    ensures Split(path[p..]) == Split(path[from..])
  {
    hide Split;
    p := from;
    while p < |path| && path[p] == '/'
      invariant from <= p <= |path|
      invariant Split(path[p..]) == Split(path[from..])
    {
      SplitSkip(path, p);
      p := p + 1;
    }
  }

  /** From the start of a component to its end: that component is the first of the split. */
  method SkipName(path: string, start: nat) returns (p: nat)
    requires start < |path| && path[start] != '/'
    ensures start < p <= |path| && (p < |path| ==> path[p] == '/')
    ensures Split(path[start..]) == [path[start..p]] + Split(path[p..])
  {
    p := start;
    while p < |path| && path[p] != '/'
      invariant start <= p <= |path|
      invariant forall i | start <= i < p :: path[i] != '/'
    {
      p := p + 1;
    }
    SplitAtName(path, start, p);
  }

  /** A component, and where the next one starts. */
  method TakeName(path: string, start: nat) returns (name: string, p: nat)
    requires start < |path| && path[start] != '/'
    ensures name != "" && start < p <= |path| && (p < |path| ==> path[p] != '/')
    ensures Split(path[start..]) == [name] + Split(path[p..])
  {
    hide Split;
    var q := SkipName(path, start);
    name := path[start..q];
    p := SkipSlashes(path, q);
  }

  lemma SplitAtName(path: string, start: nat, p: nat)
    requires start < p <= |path| && (p < |path| ==> path[p] == '/')
    requires forall i | start <= i < p :: path[i] != '/'
    ensures Split(path[start..]) == [path[start..p]] + Split(path[p..])
  {
    var s := path[start..];
    assert s == path[start..p] + path[p..];
    NameLengthIs(path[start..p], path[p..]);
    assert s[..p - start] == path[start..p] && s[p - start..] == path[p..];
    assert s[0] == path[start];
  }
}
