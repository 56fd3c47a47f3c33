/** Paths (pktgen/lib/cli/cli.h, pktgen/lib/cli/cli_search.c, pktgen/lib/cli/cli_string_fns.c): printing
    the path of a node and looking a path up. */
module NodePaths {
  import opened NodeTrees

  const MAX_ARGVS: nat := 64   // CLI_MAX_ARGVS

  // ----- splitting -----

  predicate IsSpace(c: char) {
    c == ' ' || c == '\t' || c == '\n' || c == '\r' || c == '\U{000B}' || c == '\U{000C}'
  }

  /** How many characters come before the first '/'. */
  function Span(s: string): (n: nat)
    ensures n <= |s| && '/' !in s[..n] && (n < |s| ==> s[n] == '/')
  {
    if s == "" || s[0] == '/' then 0 else 1 + Span(s[1..])
  }

  /** The non-empty parts between slashes. */
  function Split(s: string): seq<string> {
    if s == "" then []
    else if s[0] == '/' then Split(s[1..])
    else [s[..Span(s)]] + Split(s[Span(s)..])
  }

  function TrimLeft(s: string): string {
    if s != "" && IsSpace(s[0]) then TrimLeft(s[1..]) else s
  }

  function TrimRight(s: string): string {
    if s != "" && IsSpace(s[|s| - 1]) then TrimRight(s[..|s| - 1]) else s
  }

  function Trim(s: string): string {
    TrimRight(TrimLeft(s))
  }

  function TrimAll(ss: seq<string>): (r: seq<string>)
    ensures |r| == |ss| && forall i :: 0 <= i < |ss| ==> r[i] == Trim(ss[i])
  {
    if ss == [] then [] else [Trim(ss[0])] + TrimAll(ss[1..])
  }

  function Take(ss: seq<string>, n: nat): seq<string> {
    if |ss| <= n then ss else ss[..n]
  }

  /** The parts found so far are the first of all parts, trimmed; the others are in rest. */
  ghost predicate Parted(all: seq<string>, entries: seq<string>, rest: string) {
    |entries| <= |all| && all[|entries|..] == Split(rest) && entries == TrimAll(all)[..|entries|]
  }

  lemma OneMorePart(all: seq<string>, entries: seq<string>, rest: string)
    requires Parted(all, entries, rest) && rest != "" && rest[0] != '/'
    ensures Parted(all, entries + [Trim(rest[..Span(rest)])], rest[Span(rest)..]) && |entries| < |all|
  {
    var n := Span(rest);
    assert Split(rest) == [rest[..n]] + Split(rest[n..]);
    assert all[|entries|] == all[|entries|..][0] == rest[..n];
    assert all[|entries| + 1..] == all[|entries|..][1..] == Split(rest[n..]);
  }

  /** rte_strtok with delimiter '/': at most max trimmed parts. */
  method StrTok(s: string, max: nat) returns (entries: seq<string>)
    requires max > 0
    ensures entries == Take(TrimAll(Split(s)), max)
  {
    entries := [];
    ghost var all := Split(s);
    var str := s;
    while true
      invariant |entries| < max && Parted(all, entries, str)
      decreases |all| - |entries|
    {
      while str != "" && str[0] == '/'
        invariant Parted(all, entries, str)
        decreases |str|
      {
        str := str[1..];
      }
      if str == "" {
        return;
      }
      OneMorePart(all, entries, str);
      var n := Span(str);
      entries := entries + [Trim(str[..n])];
      str := str[n..];
      if |entries| == max {
        return;
      }
    }
  }

  // ----- printing -----

  function Joined(names: seq<string>): string {
    if names == [] then "" else names[0] + "/" + Joined(names[1..])
  }

  lemma {:induction false} JoinedAppend(names: seq<string>, name: string)
    ensures Joined(names + [name]) == Joined(names) + name + "/"
  {
    if names == [] {
      assert names + [name] == [name];
    } else {
      JoinedAppend(names[1..], name);
      assert (names + [name])[1..] == names[1..] + [name];
      assert Joined(names + [name]) == names[0] + "/" + (Joined(names[1..]) + name + "/");
    }
  }

  /** A name that a path can spell: no slash, no surrounding white space, and not one of the two names
      with a meaning of their own. */
  predicate Ordinary(name: string) {
    name != "" && '/' !in name && name != "." && name != ".." && !IsSpace(name[0]) && !IsSpace(name[|name| - 1])
  }

  lemma {:induction false} SpanOf(name: string, rest: string)
    requires '/' !in name
    ensures Span(name + "/" + rest) == |name|
  {
    var s := name + "/" + rest;
    if name != "" {
      SpanOf(name[1..], rest);
      assert s[1..] == name[1..] + "/" + rest;
    }
  }

  lemma {:induction false} SplitJoined(names: seq<string>)
    requires forall i :: 0 <= i < |names| ==> Ordinary(names[i])
    ensures Split(Joined(names)) == names && TrimAll(names) == names
  {
    if names != [] {
      var name, rest := names[0], Joined(names[1..]);
      var s := name + "/" + rest;
      SplitJoined(names[1..]);
      SpanOf(name, rest);
      assert s[..|name|] == name && s[|name|..] == "/" + rest;
      assert ("/" + rest)[1..] == rest;
      assert s[0] == name[0] != '/';
    }
  }

  // ----- looking up -----

  ghost predicate ItemsIn(nodes: seq<Node>, items: seq<nat>) {
    forall i :: 0 <= i < |items| ==> items[i] < |nodes|
  }

  ghost predicate ItemsKnow(nodes: seq<Node>, p: nat)
    requires p < |nodes| && ItemsIn(nodes, nodes[p].items)
  {
    forall i :: 0 <= i < |nodes[p].items| ==>
      nodes[nodes[p].items[i]].parent == p && !nodes[nodes[p].items[i]].kind.Unknown?
  }

  /** All links of the pool lead somewhere, and items know their directory. */
  ghost predicate Closed(nodes: seq<Node>) {
    forall p :: 0 <= p < |nodes| ==> nodes[p].parent <= |nodes| && ItemsIn(nodes, nodes[p].items) && ItemsKnow(nodes, p)
  }

  lemma {:induction false} TopLevel(nodes: seq<Node>, f: Forest, parent: nat)
    requires Linked(nodes, f, parent)
    ensures forall y :: y in Ids(f) ==> y < |nodes| && nodes[y].parent == parent && !nodes[y].kind.Unknown?
  {
    if f.Cons? {
      TopLevel(nodes, f.rest, parent);
    }
  }

  lemma {:induction false} ItemsOf(nodes: seq<Node>, f: Forest, parent: nat, p: nat)
    requires Linked(nodes, f, parent) && p in PostOrder(f)
    ensures p < |nodes|
    ensures forall y :: y in nodes[p].items ==>
      y < |nodes| && nodes[y].parent == p && !nodes[y].kind.Unknown? && y in PostOrder(f)
  {
    if f.id == p {
      TopLevel(nodes, f.kids, p);
      IdsInPostOrder(f.kids);
    } else if p in PostOrder(f.kids) {
      ItemsOf(nodes, f.kids, f.id, p);
    } else {
      ItemsOf(nodes, f.rest, parent, p);
    }
  }

  lemma ConsistentIsClosed(nodes: seq<Node>, free: seq<nat>, tree: Forest)
    requires Consistent(nodes, free, tree)
    ensures Closed(nodes)
  {
    PartitionOnce(PostOrder(tree), free, |nodes|);
    forall p | 0 <= p < |nodes| ensures ItemsIn(nodes, nodes[p].items) && ItemsKnow(nodes, p) {
      if p in PostOrder(tree) {
        ItemsOf(nodes, tree, |nodes|, p);
        assert forall i :: 0 <= i < |nodes[p].items| ==> nodes[p].items[i] in nodes[p].items;
      }
    }
  }

  /** A choice of node kinds; AllTypes is CLI_ALL_TYPE. */
  type Types = Kind -> bool

  predicate AllTypes(kind: Kind) {
    !kind.Unknown?
  }

  /** The first of the items with the name and a kind of the given types, or NULL. */
  function FirstNamed(nodes: seq<Node>, items: seq<nat>, name: string, types: Types): (r: nat)
    requires ItemsIn(nodes, items)
    ensures r <= |nodes| && (r < |nodes| ==> r in items && nodes[r].name == name && types(nodes[r].kind))
  {
    if items == [] then |nodes|
    else if nodes[items[0]].name == name && types(nodes[items[0]].kind) then items[0]
    else FirstNamed(nodes, items[1..], name, types)
  }

  /** What cli_search_dir finds in a given directory. */
  function SearchDir(nodes: seq<Node>, dir: nat, name: string, types: Types): (r: nat)
    requires Closed(nodes) && dir < |nodes|
    ensures r <= |nodes|
  {
    if name == "" then |nodes|
    else if !nodes[dir].kind.Dir? then |nodes|
    else if name == ".." then nodes[dir].parent
    else if name == "." then dir
    else FirstNamed(nodes, nodes[dir].items, name, types)
  }

  /** The loop of cli_find_node: node is what was found so far, dir where to look next. */
  function Follow(nodes: seq<Node>, dir: nat, node: nat, names: seq<string>): (r: nat)
    requires Closed(nodes) && dir < |nodes| && node <= |nodes|
    ensures r <= |nodes|
    decreases |names|
  {
    if names == [] then node
    else
      var next := SearchDir(nodes, dir, names[0], AllTypes);
      if next < |nodes| && nodes[next].kind.Dir? then Follow(nodes, next, next, names[1..])
      else next
  }

  /** cli_find_node, from the root or, for a relative path, from cwd. */
  function Lookup(nodes: seq<Node>, root: nat, cwd: nat, path: string): nat
    requires Closed(nodes) && root < |nodes| && cwd < |nodes|
  {
    if path == "" then |nodes|
    else if path == "/" then root
    else
      var names := Take(TrimAll(Split(if path[0] == '/' then path[1..] else path)), MAX_ARGVS);
      Follow(nodes, if path[0] == '/' then root else cwd, |nodes|, names)
  }

  /** cli_search_dir in a given directory. */
  method FindInDir(cli: Cli, dir: nat, name: string, types: Types) returns (node: nat)
    requires Closed(cli.nodes) && dir < |cli.nodes|
    ensures node == SearchDir(cli.nodes, dir, name, types)
  {
    var nodes := cli.nodes;
    if name == "" || !nodes[dir].kind.Dir? {
      return |nodes|;
    }
    if name == ".." {
      return nodes[dir].parent;
    } else if name == "." {
      return dir;
    }
    var items := nodes[dir].items;
    assert items[0..] == items;
    var i := 0;
    while i < |items|
      invariant i <= |items| && FirstNamed(nodes, items, name, types) == FirstNamed(nodes, items[i..], name, types)
    {
      assert items[i..][0] == items[i] && items[i..][1..] == items[i + 1..];
      if nodes[items[i]].name == name && types(nodes[items[i]].kind) {
        return items[i];
      }
      i := i + 1;
    }
    node := |nodes|;
  }

  method FindNode(cli: Cli, root: nat, cwd: nat, path: string) returns (found: bool, node: nat)
    requires Closed(cli.nodes) && root < |cli.nodes| && cwd < |cli.nodes|
    ensures node == Lookup(cli.nodes, root, cwd, path) && (found <==> node < |cli.nodes|)
  {
    if path == "" {
      return false, |cli.nodes|;
    }
    if path == "/" {
      return true, root;
    }
    var argv := StrTok(if path[0] == '/' then path[1..] else path, MAX_ARGVS);
    var dir: nat := if path[0] == '/' then root else cwd;
    node := |cli.nodes|;
    ghost var start := dir;
    assert argv[0..] == argv;
    var i := 0;
    while i < |argv|
      invariant i <= |argv| && dir < |cli.nodes| && node <= |cli.nodes|
      invariant Follow(cli.nodes, start, |cli.nodes|, argv) == Follow(cli.nodes, dir, node, argv[i..])
    {
      assert argv[i..][0] == argv[i] && argv[i..][1..] == argv[i + 1..];
      node := FindInDir(cli, dir, argv[i], AllTypes);
      if node == |cli.nodes| {
        break;
      }
      if cli.nodes[node].kind.Dir? {
        dir := node;
      } else {
        break;
      }
      i := i + 1;
    }
    found := node < |cli.nodes|;
  }

  // ----- looking up what was printed -----

  /** w leads down from item to item. */
  ghost predicate Chain(nodes: seq<Node>, w: seq<nat>) {
    (forall i :: 0 <= i < |w| ==> w[i] < |nodes|) &&
    forall i :: 0 <= i < |w| - 1 ==> nodes[w[i]].kind.Dir? && w[i + 1] in nodes[w[i]].items
  }

  /** w is the way from the root down to x. */
  ghost predicate IsWay(nodes: seq<Node>, w: seq<nat>, x: nat) {
    w != [] && Chain(nodes, w) && nodes[w[0]].parent == |nodes| && w[|w| - 1] == x
  }

  lemma ItemsParent(nodes: seq<Node>, p: nat, y: nat)
    requires Closed(nodes) && p < |nodes| && y in nodes[p].items
    ensures y < |nodes| && nodes[y].parent == p && !nodes[y].kind.Unknown?
  {
    assert ItemsIn(nodes, nodes[p].items) && ItemsKnow(nodes, p);
  }

  lemma {:induction false} WayDown(nodes: seq<Node>, f: Forest, parent: nat, x: nat) returns (w: seq<nat>)
    requires Linked(nodes, f, parent) && x in PostOrder(f)
    ensures w != [] && Chain(nodes, w) && w[0] in Ids(f) && w[|w| - 1] == x
    decreases f
  {
    if f.id == x {
      w := [x];
    } else if x in PostOrder(f.kids) {
      var v := WayDown(nodes, f.kids, f.id, x);
      w := [f.id] + v;
      forall i | 0 <= i < |w| - 1 ensures nodes[w[i]].kind.Dir? && w[i + 1] in nodes[w[i]].items {
        assert i > 0 ==> w[i] == v[i - 1];
      }
    } else {
      w := WayDown(nodes, f.rest, parent, x);
    }
  }

  /** There is a way to every node of the tree, from its root. */
  lemma WayTo(nodes: seq<Node>, free: seq<nat>, tree: Forest, x: nat) returns (w: seq<nat>)
    requires Consistent(nodes, free, tree) && x in PostOrder(tree)
    ensures IsWay(nodes, w, x) && w[0] == tree.id
  {
    w := WayDown(nodes, tree, |nodes|, x);
    assert Ids(tree) == [tree.id];
  }

  function Names(nodes: seq<Node>, w: seq<nat>): (r: seq<string>)
    requires forall i :: 0 <= i < |w| ==> w[i] < |nodes|
    ensures |r| == |w| && forall i :: 0 <= i < |w| ==> r[i] == nodes[w[i]].name
  {
    seq(|w|, i requires 0 <= i < |w| => nodes[w[i]].name)
  }

  /** The names on the way, each with a slash behind it. */
  function PathOf(nodes: seq<Node>, w: seq<nat>): string
    requires w != [] && forall i :: 0 <= i < |w| ==> w[i] < |nodes|
  {
    "/" + Joined(Names(nodes, w[1..]))
  }

  lemma LastStep(nodes: seq<Node>, w: seq<nat>, x: nat)
    requires Closed(nodes) && IsWay(nodes, w, x)
    ensures nodes[x].parent == |nodes| <==> |w| == 1
    ensures |w| > 1 ==> IsWay(nodes, w[..|w| - 1], nodes[x].parent)
  {
    if |w| > 1 {
      ItemsParent(nodes, w[|w| - 2], x);
    }
  }

  lemma LastName(nodes: seq<Node>, w: seq<nat>)
    requires |w| > 1 && forall i :: 0 <= i < |w| ==> w[i] < |nodes|
    ensures PathOf(nodes, w) == PathOf(nodes, w[..|w| - 1]) + nodes[w[|w| - 1]].name + "/"
  {
    var v, name := w[..|w| - 1], nodes[w[|w| - 1]].name;
    JoinedAppend(Names(nodes, v[1..]), name);
    assert Names(nodes, w[1..]) == Names(nodes, v[1..]) + [name];
  }

  /** cli_path_string: the path down to the node. */
  method PathString(cli: Cli, node: nat, ghost w: seq<nat>) returns (path: string)
    requires Closed(cli.nodes) && IsWay(cli.nodes, w, node)
    ensures path == PathOf(cli.nodes, w)
    decreases |w|
  {
    LastStep(cli.nodes, w, node);
    if cli.nodes[node].parent != |cli.nodes| {
      LastName(cli.nodes, w);
      path := PathString(cli, cli.nodes[node].parent, w[..|w| - 1]);
      path := path + cli.nodes[node].name + "/";
    } else {
      path := "/";
    }
  }

  /** Step i of the way leads to the first item with that name: no earlier sibling hides it. */
  ghost predicate Visible(nodes: seq<Node>, w: seq<nat>, i: nat)
    requires Closed(nodes) && Chain(nodes, w) && i + 1 < |w|
  {
    FirstNamed(nodes, nodes[w[i]].items, nodes[w[i + 1]].name, AllTypes) == w[i + 1]
  }

  /** Following names from a directory walks down one item per name. */
  lemma {:induction false} FollowChain(nodes: seq<Node>, dir: nat, node: nat, names: seq<string>) returns (c: seq<nat>)
    requires Closed(nodes) && dir < |nodes| && (node == dir || (names != [] && node <= |nodes|))
    requires forall i :: 0 <= i < |names| ==> Ordinary(names[i])
    requires Follow(nodes, dir, node, names) < |nodes|
    ensures c != [] && Chain(nodes, c) && c[0] == dir && |c| - 1 <= |names|
    ensures c[|c| - 1] == Follow(nodes, dir, node, names)
    ensures forall i :: 0 <= i < |c| - 1 ==>
      ItemsIn(nodes, nodes[c[i]].items) && FirstNamed(nodes, nodes[c[i]].items, names[i], AllTypes) == c[i + 1]
    decreases |names|
  {
    if names == [] {
      c := [dir];
    } else {
      var next := SearchDir(nodes, dir, names[0], AllTypes);
      var d := [next];
      if nodes[next].kind.Dir? {
        d := FollowChain(nodes, next, next, names[1..]);
      }
      c := [dir] + d;
      forall i | 0 <= i < |c| - 1
        ensures nodes[c[i]].kind.Dir? && c[i + 1] in nodes[c[i]].items && ItemsIn(nodes, nodes[c[i]].items)
        ensures FirstNamed(nodes, nodes[c[i]].items, names[i], AllTypes) == c[i + 1]
      {
        assert i > 0 ==> c[i] == d[i - 1] && names[i] == names[1..][i - 1];
      }
    }
  }

  /** There is only one way to a node. */
  lemma {:induction false} OneWay(nodes: seq<Node>, v: seq<nat>, w: seq<nat>, x: nat)
    requires Closed(nodes) && IsWay(nodes, v, x) && IsWay(nodes, w, x)
    ensures v == w
    decreases |v|
  {
    LastStep(nodes, v, x);
    LastStep(nodes, w, x);
    if |v| > 1 {
      OneWay(nodes, v[..|v| - 1], w[..|w| - 1], nodes[x].parent);
      assert v == v[..|v| - 1] + [x] && w == w[..|w| - 1] + [x];
    } else {
      assert v == [x] == w;
    }
  }

  /** With every step visible, following the names from step i on ends where the way ends. */
  lemma {:induction false} FollowWay(nodes: seq<Node>, w: seq<nat>, i: nat, node: nat)
    requires Closed(nodes) && Chain(nodes, w) && i < |w| && (node == w[i] || (i + 1 < |w| && node <= |nodes|))
    requires forall j :: i <= j < |w| - 1 ==> Visible(nodes, w, j)
    requires forall j :: i < j < |w| ==> Ordinary(nodes[w[j]].name)
    ensures Follow(nodes, w[i], node, Names(nodes, w[i + 1..])) == w[|w| - 1]
    decreases |w| - i
  {
    var names := Names(nodes, w[i + 1..]);
    if i + 1 < |w| {
      assert Visible(nodes, w, i);
      assert names[0] == nodes[w[i + 1]].name;
      assert names[1..] == Names(nodes, w[i + 2..]);
      if nodes[w[i + 1]].kind.Dir? {
        FollowWay(nodes, w, i + 1, w[i + 1]);
      } else {
        assert i + 2 == |w|;
      }
    }
  }

  /** The lookup of a printed path, for ordinary names. */
  lemma OrdinaryLookupIff(nodes: seq<Node>, w: seq<nat>, x: nat, cwd: nat)
    requires Closed(nodes) && IsWay(nodes, w, x) && cwd < |nodes|
    requires forall i :: 1 <= i < |w| ==> Ordinary(nodes[w[i]].name)
    ensures Lookup(nodes, w[0], cwd, PathOf(nodes, w)) == x <==>
      |w| - 1 <= MAX_ARGVS && forall i :: 0 <= i < |w| - 1 ==> Visible(nodes, w, i)
  {
    var path, names := PathOf(nodes, w), Names(nodes, w[1..]);
    if |w| > 1 {
      var toks := Take(names, MAX_ARGVS);
      LookupFollows(nodes, w[0], cwd, names);
      if Follow(nodes, w[0], |nodes|, toks) == x {
        var c := FollowChain(nodes, w[0], |nodes|, toks);
        OneWay(nodes, c, w, x);
        forall i | 0 <= i < |w| - 1 ensures Visible(nodes, w, i) {
          assert toks[i] == nodes[w[1..][i]].name == nodes[w[i + 1]].name;
        }
      } else if |w| - 1 <= MAX_ARGVS && forall i :: 0 <= i < |w| - 1 ==> Visible(nodes, w, i) {
        FollowWay(nodes, w, 0, |nodes|);
      }
    } else {
      assert path == "/";
    }
  }

  // ----- only ordinary names can be looked up -----

  /** What splitting and trimming can yield. */
  predicate Part(t: string) {
    '/' !in t && (t != "" ==> !IsSpace(t[0]) && !IsSpace(t[|t| - 1]))
  }

  lemma {:induction false} SplitHasNoSlash(s: string)
    ensures forall i :: 0 <= i < |Split(s)| ==> '/' !in Split(s)[i]
  {
    if s == "" {
    } else if s[0] == '/' {
      SplitHasNoSlash(s[1..]);
    } else {
      SplitHasNoSlash(s[Span(s)..]);
    }
  }

  lemma {:induction false} TrimLeftPart(s: string)
    ensures var r := TrimLeft(s); ('/' !in s ==> '/' !in r) && (r != "" ==> !IsSpace(r[0]))
  {
    if s != "" && IsSpace(s[0]) {
      TrimLeftPart(s[1..]);
    }
  }

  lemma {:induction false} TrimRightPart(s: string)
    ensures var r := TrimRight(s);
      ('/' !in s ==> '/' !in r) && (r != "" ==> s != "" && r[0] == s[0] && !IsSpace(r[|r| - 1]))
  {
    if s != "" && IsSpace(s[|s| - 1]) {
      TrimRightPart(s[..|s| - 1]);
    }
  }

  lemma PartsOf(s: string)
    ensures forall i :: 0 <= i < |Split(s)| ==> Part(TrimAll(Split(s))[i])
  {
    SplitHasNoSlash(s);
    forall i | 0 <= i < |Split(s)| ensures Part(TrimAll(Split(s))[i]) {
      TrimLeftPart(Split(s)[i]);
      TrimRightPart(TrimLeft(Split(s)[i]));
    }
  }

  ghost predicate OrdinaryWay(nodes: seq<Node>, v: seq<nat>, x: nat) {
    IsWay(nodes, v, x) && forall i :: 1 <= i < |v| ==> Ordinary(nodes[v[i]].name)
  }

  /** One name leads up, nowhere, or down to an ordinary name. */
  lemma SearchReaches(nodes: seq<Node>, dir: nat, name: string, v: seq<nat>) returns (u: seq<nat>)
    requires Closed(nodes) && OrdinaryWay(nodes, v, dir) && Part(name)
    requires SearchDir(nodes, dir, name, AllTypes) < |nodes|
    ensures OrdinaryWay(nodes, u, SearchDir(nodes, dir, name, AllTypes))
  {
    LastStep(nodes, v, dir);
    if name == ".." {
      u := v[..|v| - 1];
    } else if name == "." {
      u := v;
    } else {
      u := v + [SearchDir(nodes, dir, name, AllTypes)];
    }
  }

  lemma {:induction false} FollowReaches(nodes: seq<Node>, dir: nat, node: nat, names: seq<string>, v: seq<nat>)
      returns (u: seq<nat>)
    requires Closed(nodes) && OrdinaryWay(nodes, v, dir) && (node == dir || node == |nodes|)
    requires forall i :: 0 <= i < |names| ==> Part(names[i])
    requires Follow(nodes, dir, node, names) < |nodes|
    ensures OrdinaryWay(nodes, u, Follow(nodes, dir, node, names))
    decreases |names|
  {
    if names == [] {
      u := v;
    } else {
      u := SearchReaches(nodes, dir, names[0], v);
      var next := SearchDir(nodes, dir, names[0], AllTypes);
      if nodes[next].kind.Dir? {
        u := FollowReaches(nodes, next, next, names[1..], u);
      }
    }
  }

  /** Whatever an absolute path leads to has ordinary names all the way. */
  lemma LookupReaches(nodes: seq<Node>, root: nat, cwd: nat, path: string) returns (u: seq<nat>)
    requires Closed(nodes) && root < |nodes| && cwd < |nodes| && nodes[root].parent == |nodes|
    requires path != "" && path[0] == '/' && Lookup(nodes, root, cwd, path) < |nodes|
    ensures OrdinaryWay(nodes, u, Lookup(nodes, root, cwd, path))
  {
    u := [root];
    if path != "/" {
      PartsOf(path[1..]);
      u := FollowReaches(nodes, root, |nodes|, Take(TrimAll(Split(path[1..])), MAX_ARGVS), u);
    }
  }

  /** Looking up the path printed for a node finds that same node, exactly when the node lies at most 64
      levels deep, every name on the way is ordinary, and no step on the way is hidden by an earlier
      sibling of the same name. */
  lemma LookupFindsPrintedIff(nodes: seq<Node>, w: seq<nat>, x: nat, cwd: nat)
    requires Closed(nodes) && IsWay(nodes, w, x) && cwd < |nodes|
    ensures Lookup(nodes, w[0], cwd, PathOf(nodes, w)) == x <==>
      |w| - 1 <= MAX_ARGVS &&
      (forall i :: 1 <= i < |w| ==> Ordinary(nodes[w[i]].name)) &&
      forall i :: 0 <= i < |w| - 1 ==> Visible(nodes, w, i)
  {
    if Lookup(nodes, w[0], cwd, PathOf(nodes, w)) == x {
      var u := LookupReaches(nodes, w[0], cwd, PathOf(nodes, w));
      OneWay(nodes, u, w, x);
    }
    if forall i :: 1 <= i < |w| ==> Ordinary(nodes[w[i]].name) {
      OrdinaryLookupIff(nodes, w, x, cwd);
    }
  }

  /** A concrete input: a command named "a/b" below the root is one level deep and visible, but its printed
      path does not find it. */
  lemma SlashInNameIsLost()
    ensures var nodes := [Node(Dir, 2, "/", [1]), Node(Cmd, 0, "a/b", [])];
      Acceptable(Some("a/b"), true, Cmd, true) && Closed(nodes) && IsWay(nodes, [0, 1], 1) &&
      Visible(nodes, [0, 1], 0) && Lookup(nodes, 0, 0, PathOf(nodes, [0, 1])) != 1
  {
    var nodes := [Node(Dir, 2, "/", [1]), Node(Cmd, 0, "a/b", [])];
    assert nodes[0].items[0] == 1;
    assert Chain(nodes, [0, 1]);
    assert nodes[[0, 1][1]].name[1] == '/';
    LookupFindsPrintedIff(nodes, [0, 1], 1, 0);
  }

  lemma LookupFollows(nodes: seq<Node>, root: nat, cwd: nat, names: seq<string>)
    requires Closed(nodes) && root < |nodes| && cwd < |nodes|
    requires names != [] && forall i :: 0 <= i < |names| ==> Ordinary(names[i])
    ensures Lookup(nodes, root, cwd, "/" + Joined(names)) == Follow(nodes, root, |nodes|, Take(names, MAX_ARGVS))
  {
    PrintedParts(names);
  }

  lemma PrintedParts(names: seq<string>)
    requires names != [] && forall i :: 0 <= i < |names| ==> Ordinary(names[i])
    ensures var path := "/" + Joined(names);
      path != "/" && path != "" && path[0] == '/' && TrimAll(Split(path[1..])) == names
  {
    SplitJoined(names);
    assert ("/" + Joined(names))[1..] == Joined(names);
    assert |Joined(names)| > 0;
  }

  /** A step is visible exactly when no earlier item of the directory has its name. */
  lemma {:induction false} FirstNamedIff(nodes: seq<Node>, items: seq<nat>, k: nat)
    requires ItemsIn(nodes, items) && k < |items| && forall i :: 0 <= i < |items| ==> !nodes[items[i]].kind.Unknown?
    requires forall i :: 0 <= i < k ==> items[i] != items[k]
    ensures FirstNamed(nodes, items, nodes[items[k]].name, AllTypes) == items[k] <==>
      forall i :: 0 <= i < k ==> nodes[items[i]].name != nodes[items[k]].name
  {
    if k > 0 {
      var rest := items[1..];
      FirstNamedIff(nodes, rest, k - 1);
      assert rest[k - 1] == items[k];
      assert (forall i :: 0 <= i < k ==> nodes[items[i]].name != nodes[items[k]].name) <==>
        nodes[items[0]].name != nodes[items[k]].name &&
        forall i :: 0 <= i < k - 1 ==> nodes[rest[i]].name != nodes[items[k]].name by {
        assert forall i :: 0 < i < k ==> items[i] == rest[i - 1];
      }
    }
  }

  ghost predicate DistinctNames(nodes: seq<Node>, items: seq<nat>) {
    ItemsIn(nodes, items) && forall i, j :: 0 <= i < j < |items| ==> nodes[items[i]].name != nodes[items[j]].name
  }

  /** So in a tree whose siblings have distinct, ordinary names, every printed path of at most 64 levels
      leads back to its node. */
  lemma DistinctNamesSuffice(nodes: seq<Node>, free: seq<nat>, tree: Forest, x: nat, cwd: nat) returns (w: seq<nat>)
    requires Consistent(nodes, free, tree) && x in PostOrder(tree) && cwd < |nodes|
    requires forall p :: 0 <= p < |nodes| ==> DistinctNames(nodes, nodes[p].items)
    requires forall y :: y in PostOrder(tree) && y != tree.id && y < |nodes| ==> Ordinary(nodes[y].name)
    ensures Closed(nodes) && IsWay(nodes, w, x) && w[0] == tree.id
    ensures |w| - 1 <= MAX_ARGVS ==> Lookup(nodes, tree.id, cwd, PathOf(nodes, w)) == x
  {
    ConsistentIsClosed(nodes, free, tree);
    w := WayTo(nodes, free, tree, x);
    forall i | 1 <= i < |w| ensures Ordinary(nodes[w[i]].name) {
      WayInTree(nodes, free, tree, w, x, i);
    }
    forall i | 0 <= i < |w| - 1 ensures Visible(nodes, w, i) {
      var items := nodes[w[i]].items;
      assert w[i + 1] in items;
      var k :| 0 <= k < |items| && items[k] == w[i + 1];
      assert DistinctNames(nodes, items) && ItemsKnow(nodes, w[i]);
      FirstNamedIff(nodes, items, k);
    }
    LookupFindsPrintedIff(nodes, w, x, cwd);
  }

  lemma WayInTree(nodes: seq<Node>, free: seq<nat>, tree: Forest, w: seq<nat>, x: nat, i: nat)
    requires Consistent(nodes, free, tree) && Closed(nodes) && IsWay(nodes, w, x) && 0 < i < |w|
    ensures w[i] in PostOrder(tree) && w[i] != tree.id
  {
    PartitionOnce(PostOrder(tree), free, |nodes|);
    ItemsParent(nodes, w[i - 1], w[i]);
    assert w[i - 1 + 1] in nodes[w[i - 1]].items;
    assert w[i - 1] in PostOrder(tree);
    ItemsOf(nodes, tree, |nodes|, w[i - 1]);
    ParentPlace(nodes, tree, |nodes|, w[i]);
    assert Ids(tree) == [tree.id];
  }
}
