/** Path texts and the abstract tree of kernel/src/vfs.c. A node is named by the sequence of names
    that leads to it from the root; the tree says which such sequences exist and which are directories. */
module VfsPaths {
  import opened Basics

  type Name = string
  type Path = seq<Name>
  type Tree = map<Path, bool>

  const NAME_MAX: nat := 64
  const DEPTH_MAX: nat := 32

  // ---------- path texts ----------

  /** The length of the component at the front of `s`. */
  function NameLength(s: string): (n: nat)
    ensures n <= |s|
    ensures n < |s| ==> s[n] == '/'
    ensures forall i | 0 <= i < n :: s[i] != '/'
  {
    if s == [] || s[0] == '/' then 0 else 1 + NameLength(s[1..])
  }

  /** The non-empty components of a path text, between slashes. */
  function Split(s: string): (p: Path)
    ensures forall i | 0 <= i < |p| :: p[i] != [] && '/' !in p[i]
    decreases |s|
  {
    if s == [] then []
    else if s[0] == '/' then Split(s[1..])
    else [s[..NameLength(s)]] + Split(s[NameLength(s)..])
  }

  lemma {:induction false} NameLengthIs(name: Name, rest: string)
    requires '/' !in name && (rest == [] || rest[0] == '/')
    ensures NameLength(name + rest) == |name|
  {
    if name == [] {
      assert name + rest == rest;
    } else {
      assert name[0] in name;
      forall c | c in name[1..] ensures c in name { }
      NameLengthIs(name[1..], rest);
      assert (name + rest)[1..] == name[1..] + rest;
    }
  }

  /** A component, then the rest. */
  lemma SplitName(name: Name, rest: string)
    requires name != [] && '/' !in name && (rest == [] || rest[0] == '/')
    ensures Split("/" + name + rest) == [name] + Split(rest)
  {
    var s := name + rest;
    NameLengthIs(name, rest);
    assert name[0] in name;
    assert s[..|name|] == name && s[|name|..] == rest;
    assert ("/" + name + rest)[1..] == s;
  }

  /** The text of a non-root path: a slash before each name. */
  function Text(p: Path): string {
    if p == [] then "" else "/" + p[0] + Text(p[1..])
  }

  /** What vfs_node_path prints for a node when nothing is cut. */
  function PathText(p: Path): string { if p == [] then "/" else Text(p) }

  function Weight(p: Path): nat {
    if p == [] then 0 else 1 + |p[0]| + Weight(p[1..])
  }

  lemma {:induction false} TextLength(p: Path)
    ensures |Text(p)| == Weight(p)
  {
    if p != [] {
      TextLength(p[1..]);
    }
  }

  lemma {:induction false} WeightSnoc(p: Path, n: Name)
    ensures Weight(p + [n]) == Weight(p) + 1 + |n|
    ensures Text(p + [n]) == Text(p) + "/" + n
  {
    if p == [] {
      assert p + [n] == [n] && [n][1..] == [];
      assert Text([n]) == "/" + n + "";
      assert Text(p) + "/" + n == "/" + n;
    } else {
      WeightSnoc(p[1..], n);
      assert (p + [n])[1..] == p[1..] + [n];
      assert "/" + p[0] + (Text(p[1..]) + "/" + n) == ("/" + p[0] + Text(p[1..])) + "/" + n;
    }
  }

  /** Printing then splitting gives the path back, when its names are non-empty and free of slashes. */
  lemma {:induction false} SplitText(p: Path)
    requires forall i | 0 <= i < |p| :: p[i] != [] && '/' !in p[i]
    ensures Split(Text(p)) == p
  {
    hide Split;
    if p == [] {
      SplitEmpty();
    } else {
      SplitText(p[1..]);
      SplitName(p[0], Text(p[1..]));
    }
  }

  lemma SplitEmpty()
    ensures Split("") == []
  {
  }

  /** Every component of a text costs at least its own length and, after the first, a slash. */
  lemma {:induction false} SplitWeight(s: string)
    ensures Weight(Split(s)) <= |s| + 1
    ensures s != [] && s[0] == '/' ==> Weight(Split(s)) <= |s|
    decreases |s|
  {
    if s != [] {
      if s[0] == '/' {
        SplitWeight(s[1..]);
      } else {
        var n := NameLength(s);
        SplitWeight(s[n..]);
        var tail := Split(s[n..]);
        assert Split(s) == [s[..n]] + tail;
        assert Split(s)[1..] == tail;
        if n == |s| {
          assert s[n..] == [];
        }
      }
    }
  }

  /** What Split is, without its recursion: the texts on both sides of a slash are split on their own, and a text
      without a slash is one component, or none if it is empty. */
  lemma {:induction false} SplitJoin(a: string, b: string)
    ensures Split(a + "/" + b) == Split(a) + Split(b)
    decreases |a|
  {
    hide Split, NameLength;
    if a == [] {
      SplitEmpty();
      assert a + "/" + b == "/" + b;
      SplitSlash(b);
    } else if a[0] == '/' {
      assert a == "/" + a[1..] && a + "/" + b == "/" + (a[1..] + "/" + b);
      SplitSlash(a[1..]);
      SplitSlash(a[1..] + "/" + b);
      SplitJoin(a[1..], b);
    } else {
      var n := NameLength(a);
      assert n > 0 by { NameFirst(a); }
      var name, rest := a[..n], a[n..];
      assert a == name + rest && a + "/" + b == name + (rest + "/" + b);
      SplitHead(name, rest);
      SplitHead(name, rest + "/" + b);
      SplitJoin(rest, b);
    }
  }

  lemma NameFirst(a: string)
    requires a != [] && a[0] != '/'
    ensures NameLength(a) > 0
  {
  }

  lemma SplitSlash(b: string)
    ensures Split("/" + b) == Split(b)
  {
    assert ("/" + b)[1..] == b;
  }

  lemma SplitHead(name: string, rest: string)
    requires name != [] && '/' !in name && (rest == [] || rest[0] == '/')
    ensures Split(name + rest) == [name] + Split(rest)
  {
    hide Split;
    SplitName(name, rest);
    SplitSlash(name + rest);
    assert "/" + name + rest == "/" + (name + rest);
  }

  lemma SplitOne(name: string)
    requires '/' !in name
    ensures Split(name) == if name == "" then [] else [name]
  {
    if name != "" {
      NameLengthIs(name, "");
      assert name + "" == name;
      assert name[0] in name;
      assert Split(name) == [name[..|name|]] + Split(name[|name|..]);
    }
  }

  // ---------- the tree ----------

  function Parent(p: Path): Path
    requires p != []
  {
    p[..|p| - 1]
  }

  function Last(p: Path): Name
    requires p != []
  {
    p[|p| - 1]
  }

  /** Every node but the root hangs below a directory. */
  predicate Sound(t: Tree) {
    && [] in t && t[[]]
    && forall p | p in t && p != [] :: Parent(p) in t && t[Parent(p)]
  }

  /** One component: the directory itself, its parent (the root is its own), or the child of that name. */
  function Step(t: Tree, cur: Path, c: Name): Option<Path> {
    if c == "." then Some(cur)
    else if c == ".." then Some(if cur == [] then cur else Parent(cur))
    else if cur + [c] in t then Some(cur + [c])
    else None
  }

  /** Path resolution: every component but the last must lead to a directory. */
  function Resolve(t: Tree, cur: Path, cs: Path): (r: Option<Path>)
    requires Sound(t) && cur in t
    ensures r.Some? ==> r.value in t
    decreases |cs|
  {
    if cs == [] then Some(cur)
    else
      match Step(t, cur, cs[0])
      case None => None
      case Some(n) => if |cs| > 1 && !t[n] then None else Resolve(t, n, cs[1..])
  }

  /** A name that resolution treats as a name. */
  predicate Ordinary(n: Name) { n != [] && '/' !in n && n != "." && n != ".." }

  lemma {:induction false} AncestorsSound(t: Tree, p: Path, k: nat)
    requires Sound(t) && p in t && k < |p|
    ensures p[..k] in t && t[p[..k]]
    decreases |p|
  {
    if k < |p| - 1 {
      AncestorsSound(t, Parent(p), k);
      assert Parent(p)[..k] == p[..k];
    }
  }

  lemma {:induction false} ResolveDown(t: Tree, p: Path, k: nat)
    requires Sound(t) && p in t && k <= |p| && p[..k] in t
    requires forall i | 0 <= i < |p| :: Ordinary(p[i])
    ensures Resolve(t, p[..k], p[k..]) == Some(p)
    decreases |p| - k
  {
    hide Ordinary, Sound;
    if k == |p| {
      assert p[..k] == p && p[k..] == [];
    } else {
      assert p[..k] + [p[k]] == p[..k + 1];
      assert p[k..][0] == p[k] && p[k..][1..] == p[k + 1..];
      if k + 1 < |p| {
        AncestorsSound(t, p, k + 1);
      } else {
        assert p[..k + 1] == p;
      }
      assert Step(t, p[..k], p[k]) == Some(p[..k + 1]) by { OrdinaryStep(t, p[..k], p[k]); }
      ResolveDown(t, p, k + 1);
    }
  }

  lemma OrdinaryStep(t: Tree, cur: Path, n: Name)
    requires Ordinary(n) && cur + [n] in t
    ensures Step(t, cur, n) == Some(cur + [n])
  {
  }

  /** One component: "." stays, ".." goes to the parent and stays at the root, a name goes to the child of that
      name if there is one. */
  lemma ResolveOneIs(t: Tree, cur: Path, name: Name)
    requires Sound(t) && cur in t
    ensures Resolve(t, cur, ["."]) == Some(cur)
    ensures Resolve(t, cur, [".."]) == Some(if cur == [] then [] else cur[..|cur| - 1])
    ensures name != "." && name != ".." ==>
      Resolve(t, cur, [name]) == if cur + [name] in t then Some(cur + [name]) else None
  {
  }

  /** A component and more: the first must lead to a directory, and the rest is resolved from there. */
  lemma ResolveThen(t: Tree, cur: Path, name: Name, rest: Path)
    requires Sound(t) && cur in t && rest != []
    ensures Resolve(t, cur, [name] + rest) ==
      match Resolve(t, cur, [name])
      case None => None
      case Some(n) => if t[n] then Resolve(t, n, rest) else None
  {
    assert ([name] + rest)[1..] == rest;
  }

  /** A text with a slash in front is resolved from the root, any other from the current directory. */
  lemma LookupStarts(t: Tree, cwd: Path, path: string)
    requires Sound(t) && cwd in t
    ensures Lookup(t, cwd, "/" + path) == Resolve(t, [], Split(path))
    ensures path == "" || path[0] != '/' ==> Lookup(t, cwd, path) == Resolve(t, cwd, Split(path))
  {
    assert ("/" + path)[1..] == path;
  }

  /** Resolution never reaches a path heavier than its start and the components spent. */
  lemma {:induction false} ResolveWeight(t: Tree, cur: Path, cs: Path)
    requires Sound(t) && cur in t
    ensures var r := Resolve(t, cur, cs); r.Some? ==> Weight(r.value) <= Weight(cur) + Weight(cs)
    decreases |cs|
  {
    if cs != [] {
      var s := Step(t, cur, cs[0]);
      if s.Some? {
        WeightSnoc(cur, cs[0]);
        if cur != [] {
          WeightSnoc(Parent(cur), Last(cur));
          assert cur == Parent(cur) + [Last(cur)];
        }
        ResolveWeight(t, s.value, cs[1..]);
      }
    }
  }

  // ---------- printing a node ----------

  /** The names that fit the printer's stack of 32, and as much of their text as fits the buffer. */
  function Printed(p: Path, size: nat): string
    requires size > 0
  {
    var full := PathText(if |p| > DEPTH_MAX then p[|p| - DEPTH_MAX..] else p);
    if |full| < size then full else full[..size - 1]
  }

  lemma {:induction false} TextHasNoNul(p: Path)
    requires forall i | 0 <= i < |p| :: '\0' !in p[i]
    ensures '\0' !in Text(p)
  {
    if p != [] {
      TextHasNoNul(p[1..]);
    }
  }

  lemma PrintedHasNoNul(p: Path, size: nat)
    requires size > 0 && forall i | 0 <= i < |p| :: '\0' !in p[i]
    ensures '\0' !in Printed(p, size)
  {
    hide Text;
    TextHasNoNul(if |p| > DEPTH_MAX then p[|p| - DEPTH_MAX..] else p);
  }

  lemma {:induction false} SuffixWeight(p: Path, k: nat)
    requires k <= |p|
    ensures k > 0 ==> Weight(p[k..]) < Weight(p)
    ensures Weight(p[k..]) <= Weight(p)
  {
    if k > 0 {
      SuffixWeight(p[1..], k - 1);
      assert p[1..][k - 1..] == p[k..];
    }
  }

  /** Where a path text leads: an absolute one from the root, any other from `cwd`. */
  function Lookup(t: Tree, cwd: Path, path: string): (r: Option<Path>)
    requires Sound(t) && cwd in t
    ensures r.Some? ==> r.value in t
  {
    Resolve(t, if path != [] && path[0] == '/' then [] else cwd, Split(path))
  }

  /** Printing a node and resolving the text returns the node exactly when its depth is at most 32 and
      its text is shorter than the buffer; a one-byte buffer holds the empty text, which is `cwd`. */
  lemma PrintResolve(t: Tree, p: Path, size: nat, cwd: Path)
    requires Sound(t) && p in t && cwd in t && size > 0
    requires forall i | 0 <= i < |p| :: Ordinary(p[i])
    ensures Lookup(t, cwd, Printed(p, size)) == Some(p) <==>
            (|p| <= DEPTH_MAX && |PathText(p)| < size) || (size == 1 && cwd == p)
  {
    var text := Printed(p, size);
    if |p| <= DEPTH_MAX && |PathText(p)| < size {
      if p == [] {
        assert Split(text) == Split(text[1..]);
      } else {
        SplitText(p);
      }
      ResolveDown(t, p, 0);
      assert p[..0] == [] && p[0..] == p;
    } else if size == 1 {
      assert text == [];
    } else {
      CutMisses(t, p, size, cwd);
    }
  }

  lemma CutMisses(t: Tree, p: Path, size: nat, cwd: Path)
    requires Sound(t) && p in t && cwd in t && size > 1
    requires |p| > DEPTH_MAX || |PathText(p)| >= size
    ensures Lookup(t, cwd, Printed(p, size)) != Some(p)
  {
    hide Split, Resolve, Text, Weight;
    var shown := if |p| > DEPTH_MAX then p[|p| - DEPTH_MAX..] else p;
    var text := Printed(p, size);
    TextLength(shown);
    TextLength(p);
    SuffixWeight(p, |p| - |shown|);
    if shown != [] { TextStarts(shown); }
    WeightNone();
    assert shown != [] && text[0] == '/';
    assert |text| < Weight(p);
    SplitWeight(text);
    ResolveWeight(t, [], Split(text));
  }

  lemma WeightNone()
    ensures Weight([]) == 0
  {
  }

  /** n directories named "a", each in the one before. */
  function Steps(n: nat): (p: Path)
    ensures |p| == n && forall i | 0 <= i < n :: p[i] == "a"
  {
    if n == 0 then [] else Steps(n - 1) + ["a"]
  }

  function Ladder(n: nat): (t: Tree)
    ensures Sound(t) && Steps(n) in t && t[Steps(n)] && forall p | p in t :: |p| <= n
  {
    if n == 0 then map[[] := true]
    else
      assert Parent(Steps(n)) == Steps(n - 1);
      Ladder(n - 1)[Steps(n) := true]
  }

  /** The printed path of the 33rd directory leads to the 32nd. */
  lemma DeepPathMisses()
    ensures Lookup(Ladder(33), [], Printed(Steps(33), 100)) == Some(Steps(32))
  {
    hide Ladder, Resolve, Split, Text, Steps, Sound, Weight;
    var p, q, t := Steps(33), Steps(32), Ladder(33);
    assert p[1..] == q == Parent(p);
    StepsWeight(32);
    TextLength(q);
    TextStarts(q);
    SplitText(q);
    assert Printed(p, 100) == Text(q);
    ParentSound(t, p);
    RootSound(t);
    assert q[..0] == [] && q[0..] == q;
    ResolveDown(t, q, 0);
  }

  /** In a buffer of two bytes the path of the directory "a" is cut to "/", which leads to the root. */
  lemma LongPathMisses()
    ensures Lookup(Ladder(1), [], Printed(Steps(1), 2)) == Some([])
  {
    var p := Steps(1);
    assert Steps(0) == [];
    assert p == ["a"] && p[1..] == [];
    assert Text(p) == "/a";
    assert Printed(p, 2) == "/";
    assert Split("/") == [];
  }

  lemma RootSound(t: Tree)
    requires Sound(t)
    ensures [] in t && t[[]]
  {
  }

  lemma TextStarts(p: Path)
    requires p != []
    ensures Text(p) != [] && Text(p)[0] == '/'
  {
  }

  lemma {:induction false} StepsWeight(n: nat)
    ensures Weight(Steps(n)) == 2 * n
  {
    if n > 0 {
      StepsWeight(n - 1);
      WeightSnoc(Steps(n - 1), "a");
    }
  }

  // ---------- making directories ----------

  /** The tree and the directory that mkdirs leaves, when `granted` node allocations succeed. Directories
      made before a failure stay. */
  function Make(t: Tree, cur: Path, cs: Path, granted: nat): (r: (Tree, Option<Path>))
    requires Sound(t) && cur in t
    ensures Sound(r.0) && (forall p | p in t :: p in r.0 && r.0[p] == t[p])
    ensures r.1.Some? ==> r.1.value in r.0
    decreases |cs|
  {
    if cs == [] then (t, Some(cur))
    else if cs[0] == "." then Make(t, cur, cs[1..], granted)
    else if cs[0] == ".." then Make(t, if cur == [] then cur else Parent(cur), cs[1..], granted)
    else if cur + [cs[0]] in t then
      if t[cur + [cs[0]]] then Make(t, cur + [cs[0]], cs[1..], granted) else (t, None)
    else if |cs[0]| >= NAME_MAX || !t[cur] || granted == 0 then (t, None)
    else Make(Grown(t, cur, cs[0]), cur + [cs[0]], cs[1..], granted - 1)
  }

  function Grown(t: Tree, cur: Path, c: Name): (r: Tree)
    requires Sound(t) && cur in t && t[cur] && cur + [c] !in t
    ensures Sound(r)
  {
    assert Parent(cur + [c]) == cur;
    t[cur + [c] := true]
  }

  /** `later` has more directories than `t`, named by components of `cs`. */
  /** Names that can be made: neither "." nor "..", and shorter than 64. */
  predicate Makeable(cs: Path) { forall i | 0 <= i < |cs| :: Ordinary(cs[i]) && |cs[i]| < 64 }

  /** vfs_mkdirs succeeds for such names from a directory, with memory for each of them, if no prefix of the path is a
      file; and then the last directory is the path as written. */
  lemma {:induction false} MakeSucceeds(t: Tree, cur: Path, cs: Path, granted: nat)
    requires Sound(t) && cur in t && t[cur] && Makeable(cs) && granted >= |cs|
    requires forall k | 0 < k <= |cs| && cur + cs[..k] in t :: t[cur + cs[..k]]
    ensures var r := Make(t, cur, cs, granted); r.1 == Some(cur + cs) && r.0[cur + cs]
    decreases |cs|
  {
    hide Make, Sound, Ordinary;
    MakeNoName(t, cur, granted);
    if cs == [] {
      assert cur + cs == cur;
    } else {
      var c, rest := cs[0], cs[1..];
      var next := cur + [c];
      assert cs[..1] == [c];
      MakeName(t, cur, c, rest, granted);
      assert [c] + rest == cs;
      var t1 := if next in t then t else Grown(t, cur, c);
      forall k | 0 < k <= |rest| && next + rest[..k] in t1
        ensures t1[next + rest[..k]]
      {
        assert next + rest[..k] == cur + cs[..k + 1];
      }
      MakeSucceeds(t1, next, rest, if next in t then granted else granted - 1);
      assert next + rest == cur + cs;
    }
  }

  lemma MakeNoName(t: Tree, cur: Path, granted: nat)
    requires Sound(t) && cur in t
    ensures Make(t, cur, [], granted) == (t, Some(cur))
  {
  }

  lemma MakeName(t: Tree, cur: Path, c: Name, rest: Path, granted: nat)
    requires Sound(t) && cur in t && t[cur] && Ordinary(c) && |c| < 64 && granted > 0
    requires cur + [c] in t ==> t[cur + [c]]
    ensures Make(t, cur, [c] + rest, granted) ==
      if cur + [c] in t then Make(t, cur + [c], rest, granted)
      else Make(Grown(t, cur, c), cur + [c], rest, granted - 1)
  {
    assert ([c] + rest)[1..] == rest;
  }

  /** "." stays and ".." goes up, as in resolution, and nothing is made for them. */
  lemma MakeDots(t: Tree, cur: Path, rest: Path, granted: nat)
    requires Sound(t) && cur in t
    ensures Make(t, cur, ["."] + rest, granted) == Make(t, cur, rest, granted)
    ensures cur == [] ==> Make(t, cur, [".."] + rest, granted) == Make(t, [], rest, granted)
    ensures cur != [] ==>
      cur[..|cur| - 1] in t && Make(t, cur, [".."] + rest, granted) == Make(t, cur[..|cur| - 1], rest, granted)
  {
    assert (["."] + rest)[1..] == rest && ([".."] + rest)[1..] == rest;
  }

  /** It fails at a name of 64 characters or more that is not there, at a file, in a file, and without memory, and then
      makes nothing. */
  lemma MakeFails(t: Tree, cur: Path, name: Name, rest: Path, granted: nat)
    requires Sound(t) && cur in t && name != "." && name != ".."
    requires if cur + [name] in t then !t[cur + [name]] else |name| >= 64 || !t[cur] || granted == 0
    ensures Make(t, cur, [name] + rest, granted) == (t, None)
  {
  }

  ghost predicate OnlyAdds(t: Tree, later: Tree, cs: Path) {
    forall p | p in later && p !in t :: later[p] && p != [] && Last(p) in cs && |Last(p)| < NAME_MAX
  }

  lemma AddsMore(t: Tree, t1: Tree, later: Tree, c: Name, rest: Path)
    requires OnlyAdds(t1, later, rest) && Extends(t1, later)
    requires t1 == t || (exists cur :: t1 == t[cur + [c] := true] && |c| < NAME_MAX)
    ensures OnlyAdds(t, later, [c] + rest)
  {
    forall n | n in rest ensures n in [c] + rest { }
    assert c in [c] + rest;
  }

  /** mkdirs makes directories and changes nothing else. */
  lemma {:induction false} MakeAdds(t: Tree, cur: Path, cs: Path, granted: nat)
    requires Sound(t) && cur in t
    ensures OnlyAdds(t, Make(t, cur, cs, granted).0, cs)
    decreases |cs|
  {
    hide Sound, OnlyAdds, Extends;
    if cs == [] {
      AddsNothing(t, cs);
    } else {
      var c, rest := cs[0], cs[1..];
      assert cs == [c] + rest;
      AddsNothing(t, cs);
      var r := Make(t, cur, cs, granted).0;
      if c == "." {
        MakeAdds(t, cur, rest, granted);
        MakeExtends(t, cur, rest, granted);
        AddsMore(t, t, r, c, rest);
      } else if c == ".." {
        if cur != [] { ParentSound(t, cur); }
        var up := if cur == [] then cur else Parent(cur);
        MakeAdds(t, up, rest, granted);
        MakeExtends(t, up, rest, granted);
        AddsMore(t, t, r, c, rest);
      } else if cur + [c] in t {
        if t[cur + [c]] {
          MakeAdds(t, cur + [c], rest, granted);
          MakeExtends(t, cur + [c], rest, granted);
          AddsMore(t, t, r, c, rest);
        }
      } else if |c| < NAME_MAX && t[cur] && granted > 0 {
        var t1 := Grown(t, cur, c);
        MakeAdds(t1, cur + [c], rest, granted - 1);
        MakeExtends(t1, cur + [c], rest, granted - 1);
        AddsMore(t, t1, r, c, rest);
      }
    }
  }

  lemma AddsNothing(t: Tree, cs: Path)
    ensures OnlyAdds(t, t, cs)
  {
  }

  lemma MakeExtends(t: Tree, cur: Path, cs: Path, granted: nat)
    requires Sound(t) && cur in t
    ensures Extends(t, Make(t, cur, cs, granted).0)
  {
  }

  predicate Extends(t: Tree, later: Tree) { forall p | p in t :: p in later && later[p] == t[p] }

  /** Where one component of a successful call leads, with the tree and the memory left to the rest. */
  ghost function MakeOne(t: Tree, cur: Path, c: Name, granted: nat): (r: (Tree, Path, nat))
    requires Sound(t) && cur in t
    ensures Sound(r.0) && r.1 in r.0 && Extends(t, r.0)
  {
    if c == "." then (t, cur, granted)
    else if c == ".." then (t, if cur == [] then cur else Parent(cur), granted)
    else if cur + [c] in t then (t, cur + [c], granted)
    else if t[cur] && granted > 0 then (Grown(t, cur, c), cur + [c], granted - 1)
    else (t, cur, granted)
  }

  lemma MakeStep(t: Tree, cur: Path, cs: Path, granted: nat)
    requires Sound(t) && cur in t && t[cur] && cs != []
    requires Make(t, cur, cs, granted).1.Some?
    ensures var m := MakeOne(t, cur, cs[0], granted);
            m.0[m.1] && Make(t, cur, cs, granted) == Make(m.0, m.1, cs[1..], m.2)
  {
    hide Sound, Extends;
    if cs[0] == ".." && cur != [] {
      ParentSound(t, cur);
    }
  }

  lemma ParentSound(t: Tree, p: Path)
    requires Sound(t) && p in t && p != []
    ensures Parent(p) in t && t[Parent(p)]
  {
  }

  lemma MakeOneSteps(t: Tree, cur: Path, c: Name, granted: nat, later: Tree)
    requires Sound(t) && cur in t && t[cur]
    requires var m := MakeOne(t, cur, c, granted); m.0[m.1] && Extends(m.0, later)
    requires granted > 0 || c == "." || c == ".." || cur + [c] in t
    ensures var n := MakeOne(t, cur, c, granted).1; Step(later, cur, c) == Some(n) && n in later && later[n]
  {
  }

  /** A component that already leads to a directory makes nothing. */
  lemma MakeKnown(t: Tree, cur: Path, cs: Path, n: Path, more: nat)
    requires Sound(t) && cur in t && cs != [] && Step(t, cur, cs[0]) == Some(n) && n in t && t[n]
    ensures Make(t, cur, cs, more) == Make(t, n, cs[1..], more)
    ensures Resolve(t, cur, cs) == Resolve(t, n, cs[1..])
  {
  }

  /** After a success from a directory, the same components resolve to the directory returned, in the
      tree left by the call and in every tree that extends it; and making them again changes nothing,
      whatever memory is left. */
  lemma {:induction false} MadeResolves(t: Tree, cur: Path, cs: Path, granted: nat, later: Tree, more: nat)
    requires Sound(t) && cur in t && t[cur]
    requires Make(t, cur, cs, granted).1.Some?
    requires Sound(later) && Extends(Make(t, cur, cs, granted).0, later)
    ensures cur in later
    ensures var d := Make(t, cur, cs, granted).1;
            Resolve(later, cur, cs) == d && Make(later, cur, cs, more) == (later, d) && later[d.value]
    decreases |cs|
  {
    hide Sound, Step, MakeOne;
    if cs != [] {
      var m := MakeOne(t, cur, cs[0], granted);
      MakeStep(t, cur, cs, granted);
      MadeResolves(m.0, m.1, cs[1..], m.2, later, more);
      assert Extends(m.0, later);
      MakeOneSteps(t, cur, cs[0], granted, later);
      MakeKnown(later, cur, cs, m.1, more);
    }
  }

  /** The same for any starting node: from a file, the text resolves unless it goes on after a leading
      dot, which mkdirs skips but resolution follows and finds not to be a directory. */
  lemma MadeResolvesFrom(t: Tree, cur: Path, cs: Path, granted: nat)
    requires Sound(t) && cur in t
    requires Make(t, cur, cs, granted).1.Some?
    ensures var r := Make(t, cur, cs, granted);
            Resolve(r.0, cur, cs) == r.1 <==> t[cur] || |cs| <= 1 || cs[0] != "."
  {
    var r := Make(t, cur, cs, granted);
    if t[cur] {
      MadeResolves(t, cur, cs, granted, r.0, 0);
    } else if cs != [] {
      if cs[0] == ".." {
        MadeResolves(t, Parent(cur), cs[1..], granted, r.0, 0);
      } else if cs[0] != "." {
        NothingBelowFile(t, cur, cs[0]);
      }
    }
  }

  /** From a file, "./." makes nothing and succeeds, but does not resolve. */
  lemma DotFromFile()
    ensures var t := map[[] := true, ["f"] := false];
            Sound(t) && Split("./.") == [".", "."]
            && Make(t, ["f"], [".", "."], 0) == (t, Some(["f"]))
            && Resolve(t, ["f"], [".", "."]) == None
  {
    var t: Tree := map[[] := true, ["f"] := false];
    assert Parent(["f"]) == [];
    assert [".", "."][1..] == ["."] && ["."][1..] == [];
    DotSlashDot();
  }

  lemma DotSlashDot()
    ensures Split("./.") == [".", "."]
  {
    hide Split;
    SplitOne(".");
    SplitJoin(".", ".");
    assert "./." == "." + "/" + ".";
    assert ["."] + ["."] == [".", "."];
  }

  lemma NothingBelowFile(t: Tree, cur: Path, c: Name)
    requires Sound(t) && cur in t && !t[cur]
    ensures cur + [c] !in t
  {
    assert Parent(cur + [c]) == cur;
  }

  // ---------- the parent of the last component ----------

  /** Where the final component would be looked up: everything before it must lead to a directory. */
  function ResolveParent(t: Tree, cur: Path, cs: Path): (r: Option<Path>)
    requires Sound(t) && cur in t
    ensures r.Some? ==> r.value in t
    decreases |cs|
  {
    if cs == [] then None
    else if |cs| == 1 then Some(cur)
    else
      match Step(t, cur, cs[0])
      case None => None
      case Some(n) => if !t[n] then None else ResolveParent(t, n, cs[1..])
  }

  /** Resolving a path is looking its last component up in the resolved parent. */
  lemma {:induction false} ParentThenLeaf(t: Tree, cur: Path, cs: Path)
    requires Sound(t) && cur in t && cs != []
    ensures Resolve(t, cur, cs) ==
            match ResolveParent(t, cur, cs)
            case None => None
            case Some(d) => Step(t, d, Last(cs))
    decreases |cs|
  {
    hide Sound;
    var s := Step(t, cur, cs[0]);
    if cur != [] {
      ParentSound(t, cur);
    }
    if |cs| == 1 {
      assert cs[1..] == [];
    } else if s.Some? && s.value in t && t[s.value] {
      ParentThenLeaf(t, s.value, cs[1..]);
      assert Last(cs[1..]) == Last(cs);
    }
  }
}
