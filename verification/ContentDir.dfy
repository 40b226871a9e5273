/** The directory tree of the server's content: a child list in every node. */
module ContentDir {
  import opened CText

  const HTTP_MAX_URL := 1024

  // ----- Splitting a path -----

  /** The stretches between slashes; empty ones do not count. */
  function Segs(s: string): (r: seq<string>)
    ensures forall t <- r :: t != "" && '/' !in t
    decreases |s|
  {
    if s == "" then []
    else if s[0] == '/' then Segs(s[1..])
    else [s[..Find(s, '/')]] + Segs(s[Find(s, '/')..])
  }

  /** What strncpy and the terminator leave of the argument. */
  function Cut(dir: string): (text: string)
    ensures text <= dir && |text| == if |dir| <= 1023 then |dir| else 1023
  {
    if |dir| < HTTP_MAX_URL then dir else dir[..HTTP_MAX_URL - 1]
  }

  function Path(dir: string): (r: seq<string>) { Segs(Cut(dir)) }

  predicate Slashes(s: string) { forall i :: 0 <= i < |s| ==> s[i] == '/' }

  predicate Name(s: string) { s != "" && '/' !in s }

  /** A path: every name behind its slashes, and slashes at the end. */
  function Spelled(parts: seq<(string, string)>, tail: string): (s: string) {
    if parts == [] then tail else parts[0].0 + (parts[0].1 + Spelled(parts[1..], tail))
  }

  /** Only slashes stand between names, and at least one between any two. */
  predicate Separated(parts: seq<(string, string)>, tail: string) {
    && Slashes(tail)
    && (forall i :: 0 <= i < |parts| ==> Slashes(parts[i].0) && Name(parts[i].1))
    && forall i :: 0 < i < |parts| ==> parts[i].0 != ""
  }

  function Names(parts: seq<(string, string)>): (r: seq<string>)
    ensures |r| == |parts| && forall i :: 0 <= i < |r| ==> r[i] == parts[i].1
  {
    if parts == [] then [] else [parts[0].1] + Names(parts[1..])
  }

  lemma {:induction false} SkippedSlashes(slashes: string, s: string)
    requires Slashes(slashes)
    ensures Segs(slashes + s) == Segs(s)
  {
    if slashes == "" {
      assert slashes + s == s;
    } else {
      assert (slashes + s)[1..] == slashes[1..] + s;
      SkippedSlashes(slashes[1..], s);
    }
  }

  /** However many slashes stand before, between and behind the names of a path,
      its segments are exactly the names, in order. */
  lemma {:induction false} SegsAreNames(parts: seq<(string, string)>, tail: string)
    requires Separated(parts, tail)
    ensures Segs(Spelled(parts, tail)) == Names(parts)
    decreases |parts|
  {
    hide Segs;
    if parts == [] {
      SkippedSlashes(tail, "");
      assert tail + "" == tail;
      SegsUnfold("");
    } else {
      var name, rest := parts[0].1, Spelled(parts[1..], tail);
      SkippedSlashes(parts[0].0, name + rest);
      NameFirst(name, rest, parts, tail);
      SegsUnfold(name + rest);
      assert (name + rest)[..|name|] == name && (name + rest)[|name|..] == rest;
      SegsAreNames(parts[1..], tail);
    }
  }

  lemma NameFirst(name: string, rest: string, parts: seq<(string, string)>, tail: string)
    requires Separated(parts, tail) && parts != [] && name == parts[0].1 && rest == Spelled(parts[1..], tail)
    ensures name != "" && (name + rest)[0] != '/' && Find(name + rest, '/') == |name|
  {
    hide Find;
    assert rest == "" || rest[0] == '/' by {
      if |parts| > 1 {
        assert parts[1..][0] == parts[1];
      }
    }
    forall j | 0 <= j < |name|
      ensures (name + rest)[j] != '/'
    {
      assert name[j] in name;
    }
    FindIs(name + rest, '/', |name|);
  }

  /** The text at an address of a buffer. */
  predicate Holds(buffer: array<char>, from: nat, s: CString)
    reads buffer
  {
    from + |s| < buffer.Length && buffer[from..from + |s|] == s && buffer[from + |s|] == '\0'
  }

  datatype Token = NoToken | Token(text: string)

  lemma HeldAt(buffer: array<char>, from: nat, s: CString, k: nat)
    requires Holds(buffer, from, s) && k <= |s|
    ensures buffer[from + k] == if k < |s| then s[k] else '\0'
    ensures buffer[from + k] == '\0' <==> k == |s|
    ensures Holds(buffer, from + k, s[k..])
  {
    if k < |s| {
      assert buffer[from..from + |s|][k] == s[k] && s[k] in s;
    }
    assert buffer[from + k..from + |s|] == buffer[from..from + |s|][k..];
  }

  method SkipSlashes(buffer: array<char>, from: nat, ghost s: CString) returns (next: nat, ghost rest: CString)
    requires Holds(buffer, from, s)
    ensures Holds(buffer, next, rest) && Segs(rest) == Segs(s) && |rest| <= |s|
    ensures rest == "" || rest[0] != '/'
  {
    hide Holds, Segs;
    next, rest := from, s;
    HeldAt(buffer, from, s, 0);
    while buffer[next] == '/'
      invariant next < buffer.Length && Holds(buffer, next, rest) && Segs(rest) == Segs(s) && |rest| <= |s|
      invariant buffer[next] == if rest == "" then '\0' else rest[0]
      decreases |rest|
    {
      SegsUnfold(rest);
      HeldAt(buffer, next, rest, 1);
      next, rest := next + 1, rest[1..];
      HeldAt(buffer, next, rest, 0);
    }
  }

  method TokenEnd(buffer: array<char>, start: nat, ghost s: CString) returns (next: nat)
    requires Holds(buffer, start, s)
    ensures next == start + Find(s, '/')
  {
    hide Holds, Find;
    next := start;
    ghost var k: nat := 0;
    HeldAt(buffer, start, s, 0);
    while buffer[next] != '/' && buffer[next] != '\0'
      invariant k <= Find(s, '/') && next == start + k && next < buffer.Length
      invariant buffer[next] == if k < |s| then s[k] else '\0'
      decreases |s| - k
    {
      HeldAt(buffer, start, s, k);
      next, k := next + 1, k + 1;
      HeldAt(buffer, start, s, k);
    }
    HeldAt(buffer, start, s, k);
  }

  /** strtok(…, "/"): next is where the following call goes on. */
  method StrTok(buffer: array<char>, from: nat, ghost s: CString) returns (tok: Token, next: nat, ghost rest: CString)
    requires Holds(buffer, from, s)
    modifies buffer
    ensures tok == if Segs(s) == [] then NoToken else Token(Segs(s)[0])
    ensures tok.Token? ==> Holds(buffer, next, rest) && Segs(rest) == Segs(s)[1..] && |rest| < |s|
  {
    hide Holds, Segs, Find;
    next, rest := SkipSlashes(buffer, from, s);
    SegsUnfold(rest);
    HeldAt(buffer, next, rest, 0);
    if buffer[next] == '\0' {
      return NoToken, next, rest;
    }
    var start := next;
    ghost var e := Find(rest, '/');
    next := TokenEnd(buffer, start, rest);
    TakeHeld(buffer, start, rest, e);
    tok := Token(buffer[start..next]);
    HeldAt(buffer, start, rest, e);
    FirstToken(rest, e);
    if buffer[next] != '\0' {
      CutHeld(buffer, start, rest, e);
      EndToken(buffer, next, rest[e + 1..]);
      next := next + 1;
      rest := rest[e + 1..];
    } else {
      rest := rest[e..];
    }
  }

  /** *end = 0 */
  method EndToken(buffer: array<char>, end: nat, ghost rest: CString)
    requires Holds(buffer, end + 1, rest)
    modifies buffer
    ensures Holds(buffer, end + 1, rest)
  {
    buffer[end] := '\0';
    assert buffer[end + 1..end + 1 + |rest|] == old(buffer[end + 1..end + 1 + |rest|]);
  }

  lemma CutHeld(buffer: array<char>, from: nat, s: CString, k: nat)
    requires Holds(buffer, from, s) && k < |s|
    ensures Holds(buffer, from + k + 1, s[k + 1..])
  {
    HeldAt(buffer, from, s, k + 1);
  }

  lemma TakeHeld(buffer: array<char>, from: nat, s: CString, k: nat)
    requires Holds(buffer, from, s) && k <= |s|
    ensures from + k <= buffer.Length && buffer[from..from + k] == s[..k]
  {
    assert buffer[from..from + k] == buffer[from..from + |s|][..k];
  }

  lemma SegsUnfold(s: string)
    ensures s == "" ==> Segs(s) == []
    ensures s != "" && s[0] == '/' ==> Segs(s) == Segs(s[1..])
    ensures s != "" && s[0] != '/' ==> var e := Find(s, '/'); e > 0 && Segs(s) == [s[..e]] + Segs(s[e..])
  {
  }

  lemma FirstToken(s: string, e: nat)
    requires s != "" && s[0] != '/' && e == Find(s, '/')
    ensures 0 < e <= |s| && Segs(s) != [] && Segs(s)[0] == s[..e] && Segs(s)[1..] == Segs(s[e..])
    ensures e < |s| ==> s[e] == '/' && Segs(s[e..]) == Segs(s[e + 1..])
  {
    hide Segs;
    SegsUnfold(s);
    SegsUnfold(s[e..]);
    assert e < |s| ==> s[e..][1..] == s[e + 1..];
  }

  /** strncpy into the buffer, and its last octet cleared. */
  method CopyPath(dir: CString) returns (buffer: array<char>)
    ensures fresh(buffer) && Holds(buffer, 0, Cut(dir))
  {
    buffer := new char[HTTP_MAX_URL];
    var i := 0;
    while i < HTTP_MAX_URL
      invariant i <= HTTP_MAX_URL
      invariant forall k :: 0 <= k < i ==> buffer[k] == if k < |dir| then dir[k] else '\0'
    {
      buffer[i] := if i < |dir| then dir[i] else '\0';
      i := i + 1;
    }
    buffer[HTTP_MAX_URL - 1] := '\0';
    var s := Cut(dir);
    assert buffer[0..|s|] == s;
  }

  // ----- The tree -----

  class HttpDir {
    const name: string
    ghost const path: seq<string>     // the segments from the root
    var children: HttpDir?
    var next: HttpDir?
    ghost var kids: seq<HttpDir>      // the child list

    constructor (name: string, ghost path: seq<string>, next: HttpDir?)
      ensures this.name == name && this.path == path && this.next == next && children == null && kids == []
    {
      this.name, this.path, this.next := name, path, next;
      children, kids := null, [];
    }
  }

  ghost function At(kids: seq<HttpDir>, i: nat): (r: HttpDir?) {
    if i < |kids| then kids[i] else null
  }

  ghost predicate Chain(kids: seq<HttpDir>, nodes: set<HttpDir>)
    reads nodes`next
  {
    && (forall i :: 0 <= i < |kids| ==> kids[i] in nodes && kids[i].next == At(kids, i + 1))
    && (forall i, j :: 0 <= i < j < |kids| ==> kids[i] != kids[j])
  }

  /** The child list links exactly the kids, each of them once. */
  ghost predicate Linked(d: HttpDir, nodes: set<HttpDir>)
    reads d`children, d`kids, nodes`next
  {
    d.children == At(d.kids, 0) && Chain(d.kids, nodes)
  }

  /** Each kid is the node of its own name below the path. */
  ghost predicate Under(kids: seq<HttpDir>, path: seq<string>, tree: map<seq<string>, HttpDir>) {
    forall i :: 0 <= i < |kids| ==>
      kids[i].path == path + [kids[i].name] && kids[i].path in tree && tree[kids[i].path] == kids[i]
  }

  ghost predicate Placed(d: HttpDir, tree: map<seq<string>, HttpDir>)
    reads d`kids
  {
    Under(d.kids, d.path, tree)
  }

  function Parent(p: seq<string>): (r: seq<string>)
    requires p != []
  {
    p[..|p| - 1]
  }

  ghost predicate AllOk(ds: set<HttpDir>, nodes: set<HttpDir>, tree: map<seq<string>, HttpDir>)
    reads ds`children, ds`kids, nodes`next
  {
    forall d :: d in ds ==> Linked(d, nodes) && Placed(d, tree)
  }

  /** Every node but the root is a child of the node its path ends in. */
  ghost predicate Parents(tree: map<seq<string>, HttpDir>, nodes: set<HttpDir>)
    requires forall p :: p in tree ==> tree[p] in nodes
    reads nodes`kids
  {
    forall p :: p in tree && p != [] ==> Parent(p) in tree && tree[p] in tree[Parent(p)].kids
  }

  /** The paths of a tree after a lookup, or after a create with all its prefixes. */
  ghost predicate Grown(before: map<seq<string>, HttpDir>, after: map<seq<string>, HttpDir>, create: bool,
                        segs: seq<string>) {
    && (forall p :: p in before ==> p in after && after[p] == before[p])
    && (forall p :: p in after <==> p in before || (create && p <= segs))
  }

  lemma GrownNone(tree: map<seq<string>, HttpDir>, create: bool)
    requires [] in tree
    ensures Grown(tree, tree, create, [])
  {
  }

  lemma PrefixByOne(p: seq<string>, segs: seq<string>, k: nat)
    requires k < |segs|
    ensures p <= segs[..k + 1] <==> p <= segs[..k] || p == segs[..k + 1]
  {
    if p <= segs[..k + 1] && |p| <= k {
      assert segs[..k][..|p|] == segs[..k + 1][..|p|];
    }
  }

  lemma GrownByOne(before: map<seq<string>, HttpDir>, tree: map<seq<string>, HttpDir>, segs: seq<string>, k: nat,
                   n: HttpDir)
    requires k < |segs| && Grown(before, tree, true, segs[..k]) && segs[..k + 1] !in tree
    ensures Grown(before, tree[segs[..k + 1] := n], true, segs[..k + 1])
  {
    var after := tree[segs[..k + 1] := n];
    forall p
      ensures p in after <==> p in before || p <= segs[..k + 1]
    {
      PrefixByOne(p, segs, k);
    }
  }

  lemma GrownSame(before: map<seq<string>, HttpDir>, tree: map<seq<string>, HttpDir>, create: bool,
                  segs: seq<string>, k: nat)
    requires k < |segs| && Grown(before, tree, create, segs[..k]) && segs[..k + 1] in tree
    ensures Grown(before, tree, create, segs[..k + 1])
  {
    forall p
      ensures p in tree <==> p in before || (create && p <= segs[..k + 1])
    {
      PrefixByOne(p, segs, k);
    }
  }

  lemma GrownFalse(before: map<seq<string>, HttpDir>, tree: map<seq<string>, HttpDir>, segs: seq<string>,
                   other: seq<string>)
    requires Grown(before, tree, false, segs)
    ensures Grown(before, tree, false, other)
  {
  }

  // ----- Runs -----

  datatype Op = Op(dir: CString, create: bool)

  /** The trees before, between and after the calls. */
  ghost predicate Run(trees: seq<map<seq<string>, HttpDir>>, ops: seq<Op>) {
    && |trees| == |ops| + 1
    && forall i :: 0 <= i < |ops| ==> Grown(trees[i], trees[i + 1], ops[i].create, Path(ops[i].dir))
  }

  ghost predicate Created(ops: seq<Op>, p: seq<string>) {
    exists i :: 0 <= i < |ops| && ops[i].create && p <= Path(ops[i].dir)
  }

  /** After any run of calls, a path has a node exactly when it is a prefix of
      some created path, and a path keeps the node it got. */
  lemma {:induction false} RunFinds(trees: seq<map<seq<string>, HttpDir>>, ops: seq<Op>, p: seq<string>, k: nat)
    requires Run(trees, ops) && trees[0].Keys == {[]} && k <= |ops|
    ensures p in trees[|ops|] <==> p == [] || Created(ops, p)
    ensures p in trees[k] ==> p in trees[|ops|] && trees[|ops|][p] == trees[k][p]
    decreases |ops|
  {
    hide Path;
    if ops != [] {
      var n := |ops| - 1;
      assert Run(trees[..n + 1], ops[..n]);
      RunFinds(trees[..n + 1], ops[..n], p, if k <= n then k else n);
      assert Grown(trees[n], trees[n + 1], ops[n].create, Path(ops[n].dir));
      if Created(ops[..n], p) {
        var i :| 0 <= i < n && ops[..n][i].create && p <= Path(ops[..n][i].dir);
        assert ops[i] == ops[..n][i];
      } else if Created(ops, p) {
        var i :| 0 <= i < |ops| && ops[i].create && p <= Path(ops[i].dir);
        assert i == n || ops[..n][i] == ops[i];
      }
    }
  }

  class ContentTree {
    var content: HttpDir
    ghost var tree: map<seq<string>, HttpDir>   // the node of every path
    ghost var nodes: set<HttpDir>

    ghost predicate Valid()
      reads this, nodes
    {
      && [] in tree && tree[[]] == content
      && (forall p :: p in tree ==> tree[p] in nodes && tree[p].path == p)
      && AllOk(nodes, nodes, tree) && Parents(tree, nodes)
    }

    constructor ()
      ensures Valid() && tree.Keys == {[]}
    {
      var root := new HttpDir("", [], null);
      content := root;
      tree, nodes := map[[] := root], {root};
    }

    /** No two children of a directory have the same name. */
    lemma SiblingsDistinct(d: HttpDir, i: nat, j: nat)
      requires Valid() && d in nodes && i < j < |d.kids|
      ensures d.kids[i].name != d.kids[j].name
    {
      assert Linked(d, nodes) && Placed(d, tree);
    }

    lemma ParentIn(p: seq<string>)
      requires Valid() && p in tree && p != []
      ensures Parent(p) in tree
    {
      hide AllOk;
    }

    /** Every prefix of a path in the tree is one too. */
    lemma {:induction false} PrefixesIn(p: seq<string>, k: nat)
      requires Valid() && p in tree && k <= |p|
      ensures p[..k] in tree
      decreases |p|
    {
      hide Valid;
      if k < |p| {
        ParentIn(p);
        PrefixesIn(Parent(p), k);
        assert Parent(p)[..k] == p[..k];
      } else {
        assert p[..k] == p;
      }
    }

    lemma KidIsNode(d: HttpDir, i: nat)
      requires Valid() && d in nodes && i < |d.kids|
      ensures d.kids[i] in nodes && d.kids[i].next == At(d.kids, i + 1)
      ensures d.kids[i].path == d.path + [d.kids[i].name] && d.kids[i].path in tree && tree[d.kids[i].path] == d.kids[i]
    {
      assert Linked(d, nodes) && Placed(d, tree);
    }

    lemma FirstKid(d: HttpDir)
      requires Valid() && d in nodes
      ensures d.children == At(d.kids, 0)
    {
      assert Linked(d, nodes);
    }

    /** The inner loop: the child with this name, if there is one. */
    method FindChild(curItem: HttpDir, curDir: string) returns (curChild: HttpDir?)
      requires Valid() && curItem in nodes && curItem.path in tree && tree[curItem.path] == curItem
      ensures var p := curItem.path + [curDir];
              curChild == if p in tree then tree[p] else null
    {
      hide Valid;
      ghost var p := curItem.path + [curDir];
      FirstKid(curItem);
      curChild := curItem.children;
      ghost var i: nat := 0;
      while curChild != null
        invariant i <= |curItem.kids| && curChild == At(curItem.kids, i)
        invariant forall k :: 0 <= k < i ==> curItem.kids[k].name != curDir
        decreases |curItem.kids| - i
      {
        KidIsNode(curItem, i);
        if curChild.name == curDir {
          return;
        }
        curChild, i := curChild.next, i + 1;
      }
      NoSuchKid(curItem, curDir);
    }

    lemma NoSuchKid(d: HttpDir, name: string)
      requires Valid() && d in nodes && d.path in tree && tree[d.path] == d
      requires forall k :: 0 <= k < |d.kids| ==> d.kids[k].name != name
      ensures d.path + [name] !in tree
    {
      if d.path + [name] in tree {
        var i := KidOf(d, name);
      }
    }

    lemma KidOf(d: HttpDir, name: string) returns (i: nat)
      requires Valid() && d in nodes && d.path in tree && tree[d.path] == d && d.path + [name] in tree
      ensures i < |d.kids| && d.kids[i].name == name
    {
      var p := d.path + [name];
      assert Parent(p) == d.path;
      i :| 0 <= i < |d.kids| && d.kids[i] == tree[p];
      KidIsNode(d, i);
      SameLast(d.path, d.kids[i].name, name);
    }

    /** A new first child of curItem. */
    method AddChild(curItem: HttpDir, curDir: string) returns (curChild: HttpDir)
      requires Valid() && curItem in nodes && curItem.path in tree && tree[curItem.path] == curItem
      requires curItem.path + [curDir] !in tree
      modifies this`tree, this`nodes, curItem
      ensures Valid() && fresh(curChild) && curChild.path == curItem.path + [curDir]
      ensures tree == old(tree)[curItem.path + [curDir] := curChild] && nodes == old(nodes) + {curChild}
    {
      hide Linked, Placed, Under, AllOk, Parents, Chain, ParentsBut;
      ghost var p := curItem.path + [curDir];
      ghost var kids := curItem.kids;
      CurrentOk(curItem);
      curChild := new HttpDir(curDir, p, curItem.children);
      OthersOk(nodes, curItem, curChild, tree);
      OtherParents(tree, nodes, curItem);
      curItem.children := curChild;
      curItem.kids := [curChild] + curItem.kids;
      GrownOk(curItem, kids, curChild, nodes, tree);
      NewOk(curChild, nodes + {curChild}, tree[p := curChild]);
      NowAllOk(nodes, curItem, curChild, tree[p := curChild]);
      GrownParents(tree, nodes, curItem, kids, curChild);
      tree, nodes := tree[p := curChild], nodes + {curChild};
    }

    lemma RootIn()
      requires Valid()
      ensures [] in tree && tree[[]] == content && content in nodes && content.path == []
    {
    }

    lemma NodeIn(p: seq<string>)
      requires Valid() && p in tree
      ensures tree[p] in nodes && tree[p].path == p
    {
    }

    /** _httpd_findContentDir: the node of the path's segments; with the create
        flag it exists afterwards, and so do its ancestors, and nothing else changes. */
    method FindContentDir(dir: CString, createFlag: bool) returns (curItem: HttpDir?)
      requires Valid()
      modifies this`tree, this`nodes, nodes
      ensures Valid() && fresh(nodes - old(nodes)) && old(nodes) <= nodes
      ensures Grown(old(tree), tree, createFlag, Path(dir))
      ensures curItem == if Path(dir) in tree then tree[Path(dir)] else null
    {
      hide Holds, Segs, Valid, Grown;
      var buffer := CopyPath(dir);
      ghost var segs, rest: CString := Path(dir), Cut(dir);
      ghost var k: nat := 0;
      RootIn();
      GrownNone(tree, createFlag);
      curItem := content;
      var tok, next;
      tok, next, rest := StrTok(buffer, 0, rest);
      assert segs[..0] == [];
      while tok.Token?
        invariant Valid() && fresh(buffer) && fresh(nodes - old(nodes)) && old(nodes) <= nodes
        invariant k <= |segs| && tok == if k < |segs| then Token(segs[k]) else NoToken
        invariant tok.Token? ==> Holds(buffer, next, rest) && Segs(rest) == segs[k + 1..]
        invariant segs[..k] in tree && curItem == tree[segs[..k]] && Grown(old(tree), tree, createFlag, segs[..k])
        decreases |segs| - k
      {
        NodeIn(segs[..k]);
        assert segs[..k + 1] == segs[..k] + [segs[k]];
        var curChild := FindChild(curItem, tok.text);
        if curChild == null {
          if createFlag {
            ghost var before := tree;
            curChild := AddChild(curItem, tok.text);
            GrownByOne(old(tree), before, segs, k, curChild);
          } else {
            Missing(segs, k + 1);
            GrownFalse(old(tree), tree, segs[..k], segs);
            return null;
          }
        } else {
          GrownSame(old(tree), tree, createFlag, segs, k);
        }
        curItem := curChild;
        k := k + 1;
        tok, next, rest := StrTok(buffer, next, rest);
      }
      assert segs[..k] == segs;
    }

    lemma Missing(p: seq<string>, k: nat)
      requires Valid() && k <= |p| && p[..k] !in tree
      ensures p !in tree
    {
      if p in tree { PrefixesIn(p, k); }
    }

    lemma CurrentOk(d: HttpDir)
      requires Valid() && d in nodes
      ensures d.children == At(d.kids, 0) && Chain(d.kids, nodes) && Under(d.kids, d.path, tree)
    {
      hide Chain, Under, Parents;
    }
  }

  lemma SameLast(p: seq<string>, a: string, b: string)
    requires p + [a] == p + [b]
    ensures a == b
  {
    assert (p + [a])[|p|] == (p + [b])[|p|];
  }

  /** A new node leaves the other nodes as they are. */
  lemma OthersOk(nodes: set<HttpDir>, d: HttpDir, n: HttpDir, tree: map<seq<string>, HttpDir>)
    requires AllOk(nodes, nodes, tree) && n.path !in tree
    ensures AllOk(nodes - {d}, nodes + {n}, tree[n.path := n])
  {
    forall e | e in nodes - {d}
      ensures Linked(e, nodes + {n}) && Placed(e, tree[n.path := n])
    {
      assert Linked(e, nodes) && Placed(e, tree);
    }
  }

  lemma GrownOk(d: HttpDir, kids: seq<HttpDir>, n: HttpDir, nodes: set<HttpDir>, tree: map<seq<string>, HttpDir>)
    requires Chain(kids, nodes) && n !in nodes && n.next == At(kids, 0)
    requires d.children == n && d.kids == [n] + kids
    requires n.path !in tree && n.path == d.path + [n.name]
    requires Under(kids, d.path, tree)
    ensures Linked(d, nodes + {n}) && Placed(d, tree[n.path := n])
  {
    forall i | 0 <= i < |d.kids|
      ensures d.kids[i] in nodes + {n} && d.kids[i].next == At(d.kids, i + 1)
    {
      if i > 0 {
        assert d.kids[i] == kids[i - 1];
      }
    }
  }

  lemma NewOk(n: HttpDir, nodes: set<HttpDir>, tree: map<seq<string>, HttpDir>)
    requires n.children == null && n.kids == []
    ensures Linked(n, nodes) && Placed(n, tree)
  {
  }

  lemma NowAllOk(nodes: set<HttpDir>, d: HttpDir, n: HttpDir, tree: map<seq<string>, HttpDir>)
    requires AllOk(nodes - {d}, nodes + {n}, tree)
    requires Linked(d, nodes + {n}) && Placed(d, tree) && Linked(n, nodes + {n}) && Placed(n, tree)
    ensures AllOk(nodes + {n}, nodes + {n}, tree)
  {
    hide Linked, Placed;
  }

  ghost predicate ParentsBut(tree: map<seq<string>, HttpDir>, d: HttpDir, kids: seq<HttpDir>, others: set<HttpDir>)
    reads others`kids
  {
    forall p :: p in tree && p != [] ==>
      && Parent(p) in tree
      && if tree[Parent(p)] == d then tree[p] in kids
         else tree[Parent(p)] in others && tree[p] in tree[Parent(p)].kids
  }

  lemma OtherParents(tree: map<seq<string>, HttpDir>, nodes: set<HttpDir>, d: HttpDir)
    requires (forall p :: p in tree ==> tree[p] in nodes) && Parents(tree, nodes)
    ensures ParentsBut(tree, d, d.kids, nodes - {d})
  {
  }

  lemma GrownParents(tree: map<seq<string>, HttpDir>, nodes: set<HttpDir>, d: HttpDir, kids: seq<HttpDir>, n: HttpDir)
    requires forall p :: p in tree ==> tree[p] in nodes
    requires ParentsBut(tree, d, kids, nodes - {d}) && d.kids == [n] + kids
    requires d.path in tree && tree[d.path] == d && n.path == d.path + [n.name] && n.path !in tree
    ensures Parents(tree[n.path := n], nodes + {n})
  {
    var after := tree[n.path := n];
    assert Parent(n.path) == d.path;
    assert n == d.kids[0] && forall k <- kids :: k in d.kids;
    forall p | p in after && p != []
      ensures Parent(p) in after && after[p] in after[Parent(p)].kids
    {
      if p != n.path {
        assert p in tree && Parent(p) in tree;
      }
    }
  }
}
