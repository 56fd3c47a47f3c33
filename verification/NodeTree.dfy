/** The tree of command line nodes (pktgen/lib/cli/cli.c): a fixed pool of nodes, a free list and a
    directory tree from which whole subtrees are removed. */
module NodeTrees {

  datatype Kind = Unknown | Dir | Cmd | File | Alias

  /** One node of the pool.  Nodes are named by their index; the size of the pool stands for NULL. */
  datatype Node = Node(kind: Kind, parent: nat, name: string, items: seq<nat>)

  datatype Option<T> = None | Some(value: T)

  const NAME_LEN: nat := 64      // CLI_NAME_LEN, with the terminating zero
  const ROOT_NAME: string := "/"

  /** The nodes that hang below some directory, as first-child and next-sibling links. */
  datatype Forest = Nil | Cons(id: nat, kids: Forest, rest: Forest)

  function Ids(f: Forest): seq<nat> {
    if f.Nil? then [] else [f.id] + Ids(f.rest)
  }

  /** All nodes, each behind everything below it: the order in which removal frees them. */
  function PostOrder(f: Forest): seq<nat> {
    if f.Nil? then [] else PostOrder(f.kids) + [f.id] + PostOrder(f.rest)
  }

  /** The pool holds the links of f, whose top-level nodes have the given parent. */
  ghost predicate Linked(nodes: seq<Node>, f: Forest, parent: nat)
    decreases f
  {
    f.Nil? ||
    (f.id < |nodes| && nodes[f.id].parent == parent && nodes[f.id].items == Ids(f.kids) && !nodes[f.id].kind.Unknown? &&
     (f.kids.Cons? ==> nodes[f.id].kind.Dir?) &&
     Linked(nodes, f.kids, f.id) && Linked(nodes, f.rest, parent))
  }

  /** No node twice. */
  ghost predicate Once(s: seq<nat>) {
    forall x :: multiset(s)[x] <= 1
  }

  /** Every node below n is in s, and in s once. */
  ghost predicate Partition(s: seq<nat>, n: nat) {
    forall x: nat :: multiset(s)[x] == if x < n then 1 else 0
  }

  lemma OnceParts(a: seq<nat>, b: seq<nat>)
    requires Once(a + b)
    ensures Once(a) && Once(b) && forall x :: x in a ==> x !in b
  {
    assert multiset(a + b) == multiset(a) + multiset(b);
    forall x ensures multiset(a)[x] <= 1 && multiset(b)[x] <= 1 && (x in a ==> x !in b) {
      assert multiset(a + b)[x] == multiset(a)[x] + multiset(b)[x];
      assert x in a <==> x in multiset(a);
      assert x in b <==> x in multiset(b);
    }
  }

  /** In a forest without repetition the kids, the node and the rest share nothing. */
  lemma OnceForest(f: Forest)
    requires f.Cons? && Once(PostOrder(f))
    ensures Once(PostOrder(f.kids)) && Once(PostOrder(f.kids) + [f.id]) && Once(PostOrder(f.rest))
    ensures f.id !in PostOrder(f.kids) && f.id !in PostOrder(f.rest)
    ensures forall x :: x in PostOrder(f.kids) ==> x !in PostOrder(f.rest)
  {
    var k, r := PostOrder(f.kids), PostOrder(f.rest);
    OnceParts(k + [f.id], r);
    OnceParts(k, [f.id]);
    assert f.id in [f.id] && f.id in k + [f.id];
    forall x | x in k ensures x !in r {
      assert x in k + [f.id];
    }
  }

  lemma {:induction false} IdsInPostOrder(f: Forest)
    ensures forall x :: x in Ids(f) ==> x in PostOrder(f)
    ensures |Ids(f)| <= |PostOrder(f)|
  {
    if f.Cons? {
      IdsInPostOrder(f.rest);
    }
  }

  /** Links depend on nothing but the nodes themselves. */
  lemma {:induction false} LinkedSame(nodes: seq<Node>, nodes': seq<Node>, f: Forest, parent: nat)
    requires Linked(nodes, f, parent) && |nodes'| == |nodes|
    requires forall x :: x in PostOrder(f) && x < |nodes| ==> nodes'[x] == nodes[x]
    ensures Linked(nodes', f, parent)
    decreases f
  {
    if f.Cons? {
      assert f.id in PostOrder(f);
      LinkedSame(nodes, nodes', f.kids, f.id);
      LinkedSame(nodes, nodes', f.rest, parent);
    }
  }

  function RemoveFirst(s: seq<nat>, x: nat): seq<nat> {
    if s == [] then [] else if s[0] == x then s[1..] else [s[0]] + RemoveFirst(s[1..], x)
  }

  // ----- removal, seen locally -----

  /** x hangs in the tree with the forest kids below it. */
  ghost predicate Hangs(nodes: seq<Node>, x: nat, kids: Forest) {
    x < |nodes| && Linked(nodes, Cons(x, kids, Nil), nodes[x].parent) && Once(PostOrder(kids) + [x]) &&
    nodes[x].parent < |nodes| && nodes[x].parent !in PostOrder(kids) + [x]
  }

  /** What removing x, with the nodes of `below` under it, leaves of a node y. */
  function After(nodes: seq<Node>, x: nat, below: seq<nat>, y: nat): Node
    requires x < |nodes| && y < |nodes|
  {
    if y in below || y == x then nodes[y].(items := [])
    else if y == nodes[x].parent then nodes[y].(items := RemoveFirst(nodes[y].items, x))
    else nodes[y]
  }

  ghost predicate Removed(nodes: seq<Node>, nodes': seq<Node>, x: nat, below: seq<nat>) {
    x < |nodes| == |nodes'| && forall y :: 0 <= y < |nodes| ==> nodes'[y] == After(nodes, x, below, y)
  }

  /** The loop of removal at directory x has emptied it down to the forest f. */
  ghost predicate Emptied(nodes: seq<Node>, nodes': seq<Node>, x: nat, kids: Forest, f: Forest) {
    x < |nodes| == |nodes'| && nodes'[x] == nodes[x].(items := Ids(f)) &&
    (forall y :: y in PostOrder(f) ==> y in PostOrder(kids)) &&
    forall y :: 0 <= y < |nodes| && y != x ==>
      nodes'[y] == if y in PostOrder(kids) && y !in PostOrder(f) then nodes[y].(items := []) else nodes[y]
  }

  lemma FirstChildHangs(nodes: seq<Node>, x: nat, f: Forest)
    requires x < |nodes| && f.Cons? && Linked(nodes, f, x) && Once(PostOrder(f)) && x !in PostOrder(f)
    ensures Hangs(nodes, f.id, f.kids) && nodes[f.id].parent == x
    ensures |PostOrder(f.kids)| < |PostOrder(f)|
  {
    OnceForest(f);
    assert f.id in PostOrder(f);
    forall y | y in PostOrder(f.kids) ensures y in PostOrder(f) {
    }
  }

  lemma FirstId(f: Forest)
    ensures if Ids(f) == [] then f == Nil else f.Cons? && Ids(f)[0] == f.id
  {
  }

  lemma NothingBelow(free: seq<nat>)
    ensures free + PostOrder(Nil) == free
  {
  }

  lemma FreedSoFar(free: seq<nat>, f: Forest)
    requires f.Cons?
    ensures free + PostOrder(f.kids) + [f.id] + PostOrder(f.rest) == free + PostOrder(f)
    ensures |PostOrder(f.rest)| < |PostOrder(f)|
  {
    assert PostOrder(f) == PostOrder(f.kids) + [f.id] + PostOrder(f.rest);
    hide PostOrder;
    Regroup(free, PostOrder(f.kids), [f.id], PostOrder(f.rest));
  }

  lemma Regroup(a: seq<nat>, b: seq<nat>, c: seq<nat>, d: seq<nat>)
    ensures a + b + c + d == a + (b + c + d)
  {
  }

  lemma ChildHangs(nodes: seq<Node>, mid: seq<Node>, x: nat, kids: Forest, f: Forest)
    requires Emptied(nodes, mid, x, kids, f) && f.Cons? && Linked(mid, f, x)
    requires Once(PostOrder(f)) && x !in PostOrder(kids)
    ensures f.id < |mid| && Hangs(mid, f.id, f.kids) && mid[f.id].parent == x < |mid|
    ensures |PostOrder(f.kids)| < |PostOrder(f)|
  {
    FirstChildHangs(mid, x, f);
  }

  lemma OneChildLess(nodes: seq<Node>, mid: seq<Node>, nodes': seq<Node>, x: nat, kids: Forest, f: Forest)
    requires Emptied(nodes, mid, x, kids, f) && Linked(mid, f, x)
    requires f.Cons? && Once(PostOrder(f)) && x !in PostOrder(kids) && mid[f.id].parent == x
    requires Removed(mid, nodes', f.id, PostOrder(f.kids))
    ensures |nodes'| == |nodes| && Emptied(nodes, nodes', x, kids, f.rest) && nodes'[x].items == Ids(f.rest)
    ensures Linked(nodes', f.rest, x) && Once(PostOrder(f.rest))
  {
    OnceForest(f);
    assert f.id in PostOrder(f);
    assert x !in PostOrder(f.kids) && x != f.id;
    assert RemoveFirst(Ids(f), f.id) == Ids(f.rest);
    LinkedSame(mid, nodes', f.rest, x);
    forall y | y in PostOrder(f) ensures y in PostOrder(f.kids) || y == f.id || y in PostOrder(f.rest) {
    }
  }

  // ----- insertion and removal, seen from the whole tree -----

  /** A new node x at the head of directory p. */
  function Insert(f: Forest, p: nat, x: nat): Forest {
    if f.Nil? then Nil
    else if f.id == p then Cons(p, Cons(x, Nil, f.kids), f.rest)
    else Cons(f.id, Insert(f.kids, p, x), Insert(f.rest, p, x))
  }

  /** Without node x and all below it. */
  function Delete(f: Forest, x: nat): Forest {
    if f.Nil? then Nil
    else if f.id == x then f.rest
    else Cons(f.id, Delete(f.kids, x), Delete(f.rest, x))
  }

  /** The forest below node x. */
  function Below(f: Forest, x: nat): Forest {
    if f.Nil? then Nil
    else if f.id == x then f.kids
    else if x in PostOrder(f.kids) then Below(f.kids, x)
    else Below(f.rest, x)
  }

  lemma {:induction false} NothingInserted(f: Forest, p: nat, x: nat)
    requires p !in PostOrder(f)
    ensures Insert(f, p, x) == f
  {
    if f.Cons? {
      assert f.id in PostOrder(f);
      NothingInserted(f.kids, p, x);
      NothingInserted(f.rest, p, x);
    }
  }

  lemma {:induction false} NothingDeleted(f: Forest, x: nat)
    requires x !in PostOrder(f)
    ensures Delete(f, x) == f
  {
    if f.Cons? {
      assert f.id in PostOrder(f);
      NothingDeleted(f.kids, x);
      NothingDeleted(f.rest, x);
    }
  }

  /** Removing a node just added gives the tree back. */
  lemma {:induction false} AddThenRemove(f: Forest, p: nat, x: nat)
    requires Once(PostOrder(f)) && x !in PostOrder(f)
    ensures Delete(Insert(f, p, x), x) == f
  {
    if f.Cons? {
      OnceForest(f);
      assert f.id in PostOrder(f);
      if f.id == p {
        NothingDeleted(f.rest, x);
      } else {
        AddThenRemove(f.kids, p, x);
        AddThenRemove(f.rest, p, x);
      }
    }
  }

  /** How often node y occurs in f. */
  function Count(f: Forest, y: nat): nat {
    if f.Nil? then 0 else Count(f.kids, y) + (if f.id == y then 1 else 0) + Count(f.rest, y)
  }

  lemma {:induction false} CountIs(f: Forest, y: nat)
    ensures multiset(PostOrder(f))[y] == Count(f, y)
  {
    if f.Cons? {
      CountIs(f.kids, y);
      CountIs(f.rest, y);
      assert multiset(PostOrder(f.kids) + [f.id] + PostOrder(f.rest)) ==
        multiset(PostOrder(f.kids) + [f.id]) + multiset(PostOrder(f.rest));
    }
  }

  lemma {:induction false} CountInserted(f: Forest, p: nat, x: nat, y: nat)
    requires Once(PostOrder(f)) && p in PostOrder(f)
    ensures Count(Insert(f, p, x), y) == Count(f, y) + if x == y then 1 else 0
  {
    OnceForest(f);
    if f.id == p {
      assert Count(Cons(x, Nil, f.kids), y) == Count(f.kids, y) + if x == y then 1 else 0;
    } else if p in PostOrder(f.kids) {
      CountInserted(f.kids, p, x, y);
      NothingInserted(f.rest, p, x);
    } else {
      NothingInserted(f.kids, p, x);
      CountInserted(f.rest, p, x, y);
    }
  }

  /** Deleting x takes away x and what is below it, and nothing else. */
  lemma {:induction false} CountDeleted(f: Forest, x: nat, y: nat)
    requires Once(PostOrder(f)) && x in PostOrder(f)
    ensures Count(f, y) == Count(Delete(f, x), y) + Count(Below(f, x), y) + if x == y then 1 else 0
  {
    OnceForest(f);
    if f.id != x {
      if x in PostOrder(f.kids) {
        CountDeleted(f.kids, x, y);
        NothingDeleted(f.rest, x);
      } else {
        NothingDeleted(f.kids, x);
        CountDeleted(f.rest, x, y);
      }
    }
  }

  lemma BelowInside(f: Forest, x: nat)
    requires Once(PostOrder(f)) && x in PostOrder(f)
    ensures forall y :: y in PostOrder(Below(f, x)) ==> y in PostOrder(f)
  {
    forall y | y in PostOrder(Below(f, x)) ensures y in PostOrder(f) {
      assert y in multiset(PostOrder(Below(f, x)));
      CountDeleted(f, x, y);
      CountIs(f, y);
      CountIs(Below(f, x), y);
      assert y in multiset(PostOrder(f));
    }
  }

  /** Node x was filled in and put in front of p's items. */
  ghost predicate PutInFront(nodes: seq<Node>, nodes': seq<Node>, p: nat, x: nat) {
    |nodes'| == |nodes| && p < |nodes| && x < |nodes| && p != x &&
    nodes'[x].parent == p && nodes'[x].items == [] && !nodes'[x].kind.Unknown? &&
    nodes'[p] == nodes[p].(items := [x] + nodes[p].items) && nodes[p].kind.Dir? &&
    forall y :: 0 <= y < |nodes| && y != p && y != x ==> nodes'[y] == nodes[y]
  }

  lemma {:induction false} InsertLinked(nodes: seq<Node>, nodes': seq<Node>, f: Forest, parent: nat, p: nat, x: nat)
    requires Linked(nodes, f, parent) && Once(PostOrder(f)) && x !in PostOrder(f) && PutInFront(nodes, nodes', p, x)
    ensures Linked(nodes', Insert(f, p, x), parent) && Ids(Insert(f, p, x)) == Ids(f)
    decreases f
  {
    if f.Cons? {
      OnceForest(f);
      assert f.id in PostOrder(f);
      if f.id == p {
        LinkedSame(nodes, nodes', f.kids, f.id);
        LinkedSame(nodes, nodes', f.rest, parent);
        NothingInserted(f.rest, p, x);
      } else {
        InsertLinked(nodes, nodes', f.kids, f.id, p, x);
        InsertLinked(nodes, nodes', f.rest, parent, p, x);
        KidsOfInsert(nodes, f.kids, f.id, p, x);
      }
    }
  }

  lemma KidsOfInsert(nodes: seq<Node>, f: Forest, parent: nat, p: nat, x: nat)
    requires Linked(nodes, f, parent)
    ensures Insert(f, p, x).Nil? <==> f.Nil?
  {
  }

  /** f hangs under parent and does not contain it. */
  ghost predicate Hung(nodes: seq<Node>, f: Forest, parent: nat) {
    Linked(nodes, f, parent) && Once(PostOrder(f)) && parent !in PostOrder(f)
  }

  lemma HungParts(nodes: seq<Node>, f: Forest, parent: nat)
    requires Hung(nodes, f, parent) && f.Cons?
    ensures Hung(nodes, f.kids, f.id) && Hung(nodes, f.rest, parent) && f.id != parent
  {
    OnceForest(f);
    assert f.id in PostOrder(f);
    assert forall y :: y in PostOrder(f.rest) ==> y in PostOrder(f);
  }

  /** The parent of a node is the given one at the top level, and only there; elsewhere it is in f. */
  lemma {:induction false} ParentPlace(nodes: seq<Node>, f: Forest, parent: nat, x: nat)
    requires Hung(nodes, f, parent) && x in PostOrder(f)
    ensures x < |nodes|
    ensures x in Ids(f) <==> nodes[x].parent == parent
    ensures nodes[x].parent != parent ==> nodes[x].parent in PostOrder(f)
    decreases f
  {
    OnceForest(f);
    HungParts(nodes, f, parent);
    IdsInPostOrder(f.rest);
    assert f.id in PostOrder(f);
    if f.id != x {
      if x in PostOrder(f.kids) {
        ParentPlace(nodes, f.kids, f.id, x);
        assert forall y :: y in PostOrder(f.kids) ==> y in PostOrder(f);
      } else {
        ParentPlace(nodes, f.rest, parent, x);
        assert forall y :: y in PostOrder(f.rest) ==> y in PostOrder(f);
      }
    }
  }

  /** In a tree, a node hangs by itself with what is below it. */
  lemma {:induction false} BelowHangs(nodes: seq<Node>, f: Forest, parent: nat, x: nat)
    requires Hung(nodes, f, parent) && x in PostOrder(f)
    ensures x < |nodes| && Linked(nodes, Cons(x, Below(f, x), Nil), nodes[x].parent)
    ensures Once(PostOrder(Below(f, x)) + [x]) && nodes[x].parent !in PostOrder(Below(f, x)) + [x]
    decreases f
  {
    OnceForest(f);
    HungParts(nodes, f, parent);
    if f.id == x {
      assert Linked(nodes, Nil, parent);
      assert forall y :: y in PostOrder(f.kids) + [x] ==> y in PostOrder(f);
    } else if x in PostOrder(f.kids) {
      BelowHangs(nodes, f.kids, f.id, x);
    } else {
      BelowHangs(nodes, f.rest, parent, x);
    }
  }

  lemma {:induction false} IdsOfDelete(f: Forest, x: nat)
    requires Once(PostOrder(f))
    ensures Ids(Delete(f, x)) == RemoveFirst(Ids(f), x)
  {
    if f.Cons? {
      OnceForest(f);
      assert Ids(f)[1..] == Ids(f.rest);
      IdsOfDelete(f.rest, x);
    }
  }

  lemma {:induction false} NothingRemoved(s: seq<nat>, x: nat)
    requires x !in s
    ensures RemoveFirst(s, x) == s
  {
    if s != [] {
      NothingRemoved(s[1..], x);
    }
  }

  lemma {:induction false} DeleteLinked(nodes: seq<Node>, nodes': seq<Node>, f: Forest, parent: nat, x: nat)
    requires Hung(nodes, f, parent) && x in PostOrder(f) && Removed(nodes, nodes', x, PostOrder(Below(f, x)))
    ensures Linked(nodes', Delete(f, x), parent)
    decreases f
  {
    OnceForest(f);
    HungParts(nodes, f, parent);
    ParentPlace(nodes, f, parent, x);
    if f.id == x {
      LinkedSame(nodes, nodes', f.rest, parent);
    } else if x in PostOrder(f.kids) {
      DeleteInKids(nodes, nodes', f, parent, x);
      DeleteLinked(nodes, nodes', f.kids, f.id, x);
    } else {
      DeleteInRest(nodes, nodes', f, parent, x);
      DeleteLinked(nodes, nodes', f.rest, parent, x);
    }
  }

  lemma DeleteInKids(nodes: seq<Node>, nodes': seq<Node>, f: Forest, parent: nat, x: nat)
    requires Hung(nodes, f, parent) && f.Cons? && x in PostOrder(f.kids) && f.id != x
    requires Removed(nodes, nodes', x, PostOrder(Below(f.kids, x)))
    ensures nodes'[f.id] == nodes[f.id].(items := Ids(Delete(f.kids, x)))
    ensures Linked(nodes', f.rest, parent) && Delete(f.rest, x) == f.rest
  {
    OnceForest(f);
    HungParts(nodes, f, parent);
    ParentPlace(nodes, f.kids, f.id, x);
    BelowInside(f.kids, x);
    IdsOfDelete(f.kids, x);
    if x !in Ids(f.kids) {
      NothingRemoved(Ids(f.kids), x);
    }
    LinkedSame(nodes, nodes', f.rest, parent);
    NothingDeleted(f.rest, x);
  }

  lemma DeleteInRest(nodes: seq<Node>, nodes': seq<Node>, f: Forest, parent: nat, x: nat)
    requires Hung(nodes, f, parent) && f.Cons? && x in PostOrder(f.rest) && f.id != x
    requires Removed(nodes, nodes', x, PostOrder(Below(f.rest, x)))
    ensures nodes'[f.id] == nodes[f.id]
    ensures Linked(nodes', f.kids, f.id) && Delete(f.kids, x) == f.kids
  {
    OnceForest(f);
    HungParts(nodes, f, parent);
    ParentPlace(nodes, f.rest, parent, x);
    BelowInside(f.rest, x);
    assert forall y :: y in PostOrder(f.kids) ==> y in PostOrder(f);
    assert forall y :: y in PostOrder(f.kids) ==> y !in PostOrder(f.rest);
    LinkedSame(nodes, nodes', f.kids, f.id);
    NothingDeleted(f.kids, x);
  }

  // ----- the pool -----

  lemma CountOf(s: seq<nat>, t: seq<nat>, y: nat)
    ensures multiset(s + t)[y] == multiset(s)[y] + multiset(t)[y]
  {
    assert multiset(s + t) == multiset(s) + multiset(t);
  }

  lemma PartitionOnce(s: seq<nat>, t: seq<nat>, n: nat)
    requires Partition(s + t, n)
    ensures Once(s) && Once(t) && forall x :: x in s ==> x < n && x !in t
    ensures forall x :: x in t ==> x < n
    ensures forall x :: 0 <= x < n ==> x in s || x in t
  {
    OnceParts(s, t);
    forall x: nat ensures (x in s || x in t) <==> x < n {
      assert x in s + t <==> x in multiset(s + t);
      assert x in s + t <==> x in s || x in t;
    }
  }

  lemma CountAfterInsert(f: Forest, free: seq<nat>, p: nat, y: nat)
    requires Once(PostOrder(f)) && p in PostOrder(f) && free != []
    ensures multiset(PostOrder(Insert(f, p, free[0])) + free[1..])[y] == multiset(PostOrder(f) + free)[y]
  {
    hide Once, PostOrder, Insert, Count;
    var g := Insert(f, p, free[0]);
    CountOf(PostOrder(f), free, y);
    CountOf(PostOrder(g), free[1..], y);
    CountOf([free[0]], free[1..], y);
    assert free == [free[0]] + free[1..];
    CountInserted(f, p, free[0], y);
    CountIs(f, y);
    CountIs(g, y);
  }

  /** The pool stays partitioned when its first free node joins the tree... */
  lemma PartitionAfterInsert(f: Forest, free: seq<nat>, p: nat, n: nat)
    requires Partition(PostOrder(f) + free, n) && p in PostOrder(f) && free != []
    ensures Partition(PostOrder(Insert(f, p, free[0])) + free[1..], n)
  {
    PartitionOnce(PostOrder(f), free, n);
    forall y: nat ensures multiset(PostOrder(Insert(f, p, free[0])) + free[1..])[y] == if y < n then 1 else 0 {
      CountAfterInsert(f, free, p, y);
    }
  }

  lemma CountAfterDelete(f: Forest, free: seq<nat>, x: nat, y: nat)
    requires Once(PostOrder(f)) && x in PostOrder(f)
    ensures multiset(PostOrder(Delete(f, x)) + (free + PostOrder(Below(f, x)) + [x]))[y] ==
      multiset(PostOrder(f) + free)[y]
  {
    hide Once, PostOrder, Delete, Below, Count;
    var g, b := Delete(f, x), Below(f, x);
    CountOf(PostOrder(f), free, y);
    CountOf(PostOrder(g), free + PostOrder(b) + [x], y);
    CountOf(free + PostOrder(b), [x], y);
    CountOf(free, PostOrder(b), y);
    CountDeleted(f, x, y);
    CountIs(f, y);
    CountIs(g, y);
    CountIs(b, y);
  }

  /** ... and when a subtree goes back to the free list. */
  lemma PartitionAfterDelete(f: Forest, free: seq<nat>, x: nat, n: nat)
    requires Partition(PostOrder(f) + free, n) && x in PostOrder(f)
    ensures Partition(PostOrder(Delete(f, x)) + (free + PostOrder(Below(f, x)) + [x]), n)
  {
    PartitionOnce(PostOrder(f), free, n);
    var all: seq<nat> := PostOrder(Delete(f, x)) + (free + PostOrder(Below(f, x)) + [x]);
    forall y: nat ensures multiset(all)[y] == if y < n then 1 else 0 {
      CountAfterDelete(f, free, x, y);
    }
  }

  function Truncated(name: string): string {
    if |name| < NAME_LEN then name else name[..NAME_LEN - 1]
  }

  /** The checks of __add_node on a node to be added to a directory. */
  predicate Acceptable(name: Option<string>, hasParent: bool, kind: Kind, hasFunc: bool) {
    name.Some? && hasParent &&
    match kind
    case Unknown => false
    case Dir => name.value != ROOT_NAME && !hasFunc
    case Cmd => hasFunc
    case File => hasFunc
    case Alias => !hasFunc
  }

  /** Pool, free list and tree fit together. */
  ghost predicate Consistent(nodes: seq<Node>, free: seq<nat>, tree: Forest) {
    tree.Cons? && tree.rest.Nil? && Hung(nodes, tree, |nodes|) && nodes[tree.id].kind.Dir? &&
    Partition(PostOrder(tree) + free, |nodes|) &&
    (forall x :: x in free && x < |nodes| ==> nodes[x].items == []) &&
    forall x :: 0 <= x < |nodes| ==> nodes[x].parent <= |nodes|
  }

  lemma ConsistentAfterInsert(nodes: seq<Node>, nodes': seq<Node>, free: seq<nat>, tree: Forest, p: nat)
    requires Consistent(nodes, free, tree) && p in PostOrder(tree)
    requires free != [] && PutInFront(nodes, nodes', p, free[0])
    requires nodes'[tree.id].kind.Dir?
    ensures Consistent(nodes', free[1..], Insert(tree, p, free[0]))
  {
    var x := free[0];
    PartitionOnce(PostOrder(tree), free, |nodes|);
    InsertLinked(nodes, nodes', tree, |nodes|, p, x);
    PartitionAfterInsert(tree, free, p, |nodes|);
    PartitionOnce(PostOrder(Insert(tree, p, x)), free[1..], |nodes|);
    assert Insert(tree, p, x).id == tree.id;
    assert Insert(tree, p, x).rest.Nil?;
    forall y | y in free[1..] && y < |nodes| ensures nodes'[y].items == [] {
      assert y in free && y !in PostOrder(tree);
    }
  }

  lemma ConsistentAfterDelete(nodes: seq<Node>, nodes': seq<Node>, free: seq<nat>, tree: Forest, x: nat)
    requires Consistent(nodes, free, tree) && x in PostOrder(tree) && x != tree.id
    requires Removed(nodes, nodes', x, PostOrder(Below(tree, x)))
    ensures Consistent(nodes', free + PostOrder(Below(tree, x)) + [x], Delete(tree, x))
  {
    var back := free + PostOrder(Below(tree, x)) + [x];
    PartitionOnce(PostOrder(tree), free, |nodes|);
    DeleteLinked(nodes, nodes', tree, |nodes|, x);
    PartitionAfterDelete(tree, free, x, |nodes|);
    PartitionOnce(PostOrder(Delete(tree, x)), back, |nodes|);
    ParentPlace(nodes, tree, |nodes|, x);
    forall y | y in back && y < |nodes| ensures nodes'[y].items == [] {
      assert y in free ==> y !in PostOrder(tree);
    }
    assert Delete(tree, x).id == tree.id;
    assert tree.id in PostOrder(tree);
    forall y | 0 <= y < |nodes| ensures nodes'[y].kind == nodes[y].kind && nodes'[y].parent == nodes[y].parent {
      KindKept(nodes, nodes', x, PostOrder(Below(tree, x)), y);
    }
  }

  lemma FirstFree(nodes: seq<Node>, free: seq<nat>, tree: Forest, p: nat)
    requires Consistent(nodes, free, tree) && free != [] && p in PostOrder(tree)
    ensures free[0] < |nodes| && p < |nodes| && free[0] != p && tree.id != free[0]
    ensures nodes[free[0]].items == []
  {
    PartitionOnce(PostOrder(tree), free, |nodes|);
    assert free[0] in free && tree.id in PostOrder(tree);
  }

  /** What the assignments of __add_node amount to. */
  lemma FilledIn(nodes: seq<Node>, x: nat, p: nat, kind: Kind, name: string)
    requires x < |nodes| && p < |nodes| && x != p && nodes[x].items == [] && nodes[p].kind.Dir? && !kind.Unknown?
    ensures var mid := nodes[x := nodes[x].(kind := kind, parent := p, name := name)];
      var nodes' := mid[p := mid[p].(items := [x] + mid[p].items)];
      PutInFront(nodes, nodes', p, x) && nodes'[x] == Node(kind, p, name, []) && nodes'[p].kind.Dir? &&
      forall y :: 0 <= y < |nodes| && y != x ==> nodes'[y].kind == nodes[y].kind
  {
  }

  /** Only the root has no parent; every other node of the tree can be removed. */
  lemma Removable(nodes: seq<Node>, free: seq<nat>, tree: Forest, x: nat)
    requires Consistent(nodes, free, tree) && x in PostOrder(tree)
    ensures x < |nodes| && (x == tree.id <==> nodes[x].parent == |nodes|)
    ensures x != tree.id ==> Hangs(nodes, x, Below(tree, x))
  {
    PartitionOnce(PostOrder(tree), free, |nodes|);
    ParentPlace(nodes, tree, |nodes|, x);
    assert Ids(tree) == [tree.id];
    if x != tree.id {
      BelowHangs(nodes, tree, |nodes|, x);
    }
  }

  lemma NoneEmptied(nodes: seq<Node>, x: nat, kids: Forest)
    requires Hangs(nodes, x, kids)
    ensures x < |nodes| && Emptied(nodes, nodes, x, kids, kids) && nodes[x].items == Ids(kids)
    ensures Linked(nodes, kids, x) && Once(PostOrder(kids)) && x !in PostOrder(kids)
  {
    assert Linked(nodes, Cons(x, kids, Nil), nodes[x].parent);
    OnceParts(PostOrder(kids), [x]);
    assert x in [x];
  }

  lemma KindKept(nodes: seq<Node>, nodes': seq<Node>, x: nat, below: seq<nat>, y: nat)
    requires Removed(nodes, nodes', x, below) && y < |nodes|
    ensures nodes'[y].kind == nodes[y].kind && nodes'[y].parent == nodes[y].parent && nodes'[y].name == nodes[y].name
  {
  }

  lemma {:induction false} CountUpTo(n: nat, y: nat)
    ensures multiset(seq(n, i => i))[y] == if y < n then 1 else 0
  {
    if n > 0 {
      CountUpTo(n - 1, y);
      assert seq(n, i => i) == seq(n - 1, i => i) + [n - 1];
      CountOf(seq(n - 1, i => i), [n - 1], y);
    }
  }

  function FreshNodes(n: nat): (nodes: seq<Node>)
    ensures |nodes| == n
  {
    seq(n, i => if i == 0 then Node(Dir, n, ROOT_NAME, []) else Node(Unknown, 0, "", []))
  }

  lemma FreshPool(n: nat)
    requires n > 0
    ensures Consistent(FreshNodes(n), seq(n - 1, i => i + 1), Cons(0, Nil, Nil))
  {
    var nodes, free, tree := FreshNodes(n), seq(n - 1, i => i + 1), Cons(0, Nil, Nil);
    assert PostOrder(tree) == [0];
    assert Linked(nodes, Nil, 0) && Linked(nodes, Nil, n);
    assert Linked(nodes, tree, n);
    assert [0] + free == seq(n, i => i);
    forall y: nat ensures multiset([0] + free)[y] == if y < n then 1 else 0 {
      CountUpTo(n, y);
    }
  }

  class Cli {
    var nodes: seq<Node>
    var free: seq<nat>
    ghost var tree: Forest

    ghost predicate Valid()
      reads this
    {
      Consistent(nodes, free, tree)
    }

    /** The pool as cli_init leaves it, the root already taken from it. */
    constructor (entries: nat)
      requires entries > 0
      ensures Valid() && |nodes| == entries && tree == Cons(0, Nil, Nil) && |free| == entries - 1
    {
      nodes := FreshNodes(entries);
      free := seq(entries - 1, i => i + 1);
      tree := Cons(0, Nil, Nil);
      new;
      FreshPool(entries);
    }

    /** cli_alloc: the first free node, or NULL. */
    method Alloc() returns (node: nat)
      modifies `free
      ensures if old(free) == [] then node == |nodes| && free == [] else node == old(free)[0] && free == old(free)[1..]
    {
      if free == [] {
        node := |nodes|;
      } else {
        node := free[0];
        free := free[1..];
      }
    }

    /** __add_node. */
    method AddNode(name: Option<string>, parent: nat, kind: Kind, hasFunc: bool) returns (node: nat)
      requires Valid()
      requires parent == |nodes| || (parent < |nodes| && parent in PostOrder(tree) && nodes[parent].kind.Dir?)
      requires parent == |nodes| && kind.Dir? ==> name != Some(ROOT_NAME)  // which would be a second root
      modifies this
      ensures Valid() && |nodes| == old(|nodes|)
      ensures node < |nodes| <==> Acceptable(name, parent < |nodes|, kind, hasFunc) && old(free) != []
      ensures node < |nodes| ==>
        node == old(free)[0] && free == old(free)[1..] && tree == Insert(old(tree), parent, node) &&
        PutInFront(old(nodes), nodes, parent, node) && nodes[node] == Node(kind, parent, Truncated(name.value), [])
      ensures node >= |nodes| ==> node == |nodes| && nodes == old(nodes) && free == old(free) && tree == old(tree)
    {
      var ok := Check(name, parent != |nodes|, kind, hasFunc);
      if !ok {
        return |nodes|;
      }
      ghost var wasFree, was := free, nodes;
      if free != [] {
        FirstFree(nodes, free, tree, parent);
      }
      node := Alloc();
      if node != |nodes| {
        FilledIn(nodes, node, parent, kind, Truncated(name.value));
        nodes := nodes[node := nodes[node].(kind := kind, parent := parent, name := Truncated(name.value))];
        nodes := nodes[parent := nodes[parent].(items := [node] + nodes[parent].items)];
        ConsistentAfterInsert(was, nodes, wasFree, tree, parent);
        tree := Insert(tree, parent, node);
      }
    }

    /** The checks before anything is allocated. */
    method Check(name: Option<string>, hasParent: bool, kind: Kind, hasFunc: bool) returns (ok: bool)
      requires !hasParent && kind.Dir? ==> name != Some(ROOT_NAME)
      ensures ok <==> Acceptable(name, hasParent, kind, hasFunc)
    {
      if name.None? {
        return false;
      }
      match kind {
        case Dir =>
          if hasParent && name.value == ROOT_NAME {
            return false;
          }
          if !hasParent && name.value != ROOT_NAME {
            return false;
          }
          if hasFunc {
            return false;
          }
        case Cmd =>
          if !hasParent || !hasFunc {
            return false;
          }
        case File =>
          if !hasParent || !hasFunc {
            return false;
          }
        case Alias =>
          if !hasParent || hasFunc {
            return false;
          }
        case Unknown =>
          return false;
      }
      ok := true;
    }

    /** cli_remove_node.  kids is the forest below the node. */
    method RemoveNode(node: nat, ghost kids: Forest) returns (r: int)
      requires node <= |nodes| && (node < |nodes| && nodes[node].parent != |nodes| ==> Hangs(nodes, node, kids))
      modifies `nodes, `free
      ensures |nodes| == old(|nodes|)
      ensures node == |nodes| ==> r == 0 && nodes == old(nodes) && free == old(free)
      ensures node < |nodes| && old(nodes)[node].parent == |nodes| ==>
        r == -1 && nodes == old(nodes) && free == old(free)
      ensures node < |nodes| && old(nodes)[node].parent != |nodes| ==>
        r == 0 && free == old(free) + PostOrder(kids) + [node] && Removed(old(nodes), nodes, node, PostOrder(kids))
      decreases |PostOrder(kids)|
    {
      if node == |nodes| {
        return 0;
      }
      var parent := nodes[node].parent;
      if parent == |nodes| {
        return -1;
      }
      if nodes[node].kind.Dir? {
        RemoveItems(node, kids);
      }
      nodes := nodes[parent := nodes[parent].(items := RemoveFirst(nodes[parent].items, node))];
      free := free + [node];
      r := 0;
    }

    /** Its loop over the items of a directory. */
    method RemoveItems(node: nat, ghost kids: Forest)
      requires node < |nodes| && Hangs(nodes, node, kids)
      modifies `nodes, `free
      ensures Emptied(old(nodes), nodes, node, kids, Nil) && free == old(free) + PostOrder(kids)
      decreases |PostOrder(kids)|, 0
    {
      hide Emptied, Linked, PostOrder, Ids, Once, Removed, Hangs;
      ghost var f, was, wasFree := kids, nodes, free;
      NoneEmptied(nodes, node, kids);
      while nodes[node].items != []
        invariant |nodes| == |was| && Emptied(was, nodes, node, kids, f) && Linked(nodes, f, node) && Once(PostOrder(f))
        invariant nodes[node].items == Ids(f)
        invariant free + PostOrder(f) == wasFree + PostOrder(kids) && |PostOrder(f)| <= |PostOrder(kids)|
        decreases |PostOrder(f)|
      {
        FirstId(f);
        var n := nodes[node].items[0];
        ghost var mid, midFree := nodes, free;
        ChildHangs(was, nodes, node, kids, f);
        var r := RemoveNode(n, f.kids);
        OneChildLess(was, mid, nodes, node, kids, f);
        FreedSoFar(midFree, f);
        f := f.rest;
      }
      FirstId(f);
      NothingBelow(free);
    }

    /** cli_remove_node on a node of the tree: the root and NULL are left alone; any other node goes to
        the free list with everything below it, children before their directories, and the rest of the
        tree is as before. */
    method Remove(node: nat) returns (r: int)
      requires Valid() && (node == |nodes| || node in PostOrder(tree))
      modifies this
      ensures Valid() && |nodes| == old(|nodes|)
      ensures node == old(tree).id || node == |nodes| ==>
        r == (if node == |nodes| then 0 else -1) && nodes == old(nodes) && free == old(free) && tree == old(tree)
      ensures node != old(tree).id && node != |nodes| ==>
        r == 0 && tree == Delete(old(tree), node) && free == old(free) + PostOrder(Below(old(tree), node)) + [node] &&
        Removed(old(nodes), nodes, node, PostOrder(Below(old(tree), node)))
    {
      ghost var was, wasFree := nodes, free;
      if node != |nodes| {
        Removable(nodes, free, tree, node);
      }
      r := RemoveNode(node, Below(tree, node));
      if r == 0 && node != |nodes| {
        ConsistentAfterDelete(was, nodes, wasFree, tree, node);
        tree := Delete(tree, node);
      }
    }
  }
}
