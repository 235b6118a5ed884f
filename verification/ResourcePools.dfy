/** `tree` of the resource-pool client: a forest built in place from parent pointers. */
module ResourcePools {
  import opened Basics

  /** One entry of the listing, and what a detail request says of a pool. */
  datatype Summary = Summary(id: string, name: Option<string>)

  datatype Detail = Detail(name: Option<string>, parent: Option<string>)

  class PoolNode {
    const id: string
    const name: Option<string>
    const parent: Option<string>
    var children: seq<PoolNode>

    constructor (id: string, name: Option<string>, parent: Option<string>)
      ensures this.id == id && this.name == name && this.parent == parent && children == []
    {
      this.id, this.name, this.parent := id, name, parent;
      children := [];
    }
  }

  // ----- the forest as a function of the listing -----

  /** The listed ids, each once, in the order a dict keeps them. */
  function Order(pools: seq<Summary>): seq<string> {
    if pools == [] then []
    else
      var before, id := Order(pools[..|pools| - 1]), pools[|pools| - 1].id;
      if id in before then before else before + [id]
  }

  lemma {:induction false} OrderDistinct(pools: seq<Summary>)
    ensures Distinct(Order(pools))
    ensures forall id :: id in Order(pools) <==> exists s :: s in pools && s.id == id
  {
    if pools == [] {
    } else {
      var front, last := pools[..|pools| - 1], pools[|pools| - 1];
      OrderDistinct(front);
      assert pools == front + [last];
      assert last in pools;
    }
  }

  lemma OrderSnoc(pools: seq<Summary>, p: Summary)
    ensures Order([]) == []
    ensures Order(pools + [p]) == Order(pools) + if p.id in Order(pools) then [] else [p.id]
  {
    assert (pools + [p])[..|pools|] == pools;
  }

  function OrElse(a: Option<string>, b: Option<string>): Option<string> {
    if a.Or("") != "" then a else b
  }

  /** A pool listed twice keeps the name of its last entry. */
  function NameOf(pools: seq<Summary>, detail: string -> Detail, id: string): Option<string> {
    if pools == [] then None
    else
      var last := pools[|pools| - 1];
      if last.id == id then OrElse(last.name, detail(id).name) else NameOf(pools[..|pools| - 1], detail, id)
  }

  /** The name of a pool is the one its last entry is listed with, unless that is
      missing or empty: then it is the one in its details. */
  lemma {:induction false} NameIsListed(pools: seq<Summary>, detail: string -> Detail, i: nat)
    requires i < |pools| && forall j :: i < j < |pools| ==> pools[j].id != pools[i].id
    ensures pools[i].name !in {None, Some("")} ==> NameOf(pools, detail, pools[i].id) == pools[i].name
    ensures pools[i].name in {None, Some("")} ==> NameOf(pools, detail, pools[i].id) == detail(pools[i].id).name
  {
    var n := |pools| - 1;
    if i < n {
      NameIsListed(pools[..n], detail, i);
    }
  }

  /** The parent relation between listed pools: a pool whose parent is missing,
      empty or not listed has none. */
  function Up(ids: seq<string>, detail: string -> Detail): map<string, string> {
    map id | id in ids && detail(id).parent.Or("") != "" && detail(id).parent.value in ids :: detail(id).parent.value
  }

  function ChildIds(ids: seq<string>, up: map<string, string>, id: string): seq<string> {
    if ids == [] then []
    else
      var last := ids[|ids| - 1];
      ChildIds(ids[..|ids| - 1], up, id) + if last in up && up[last] == id then [last] else []
  }

  function RootIds(ids: seq<string>, up: map<string, string>): seq<string> {
    if ids == [] then []
    else
      var last := ids[|ids| - 1];
      RootIds(ids[..|ids| - 1], up) + if last in up then [] else [last]
  }

  lemma {:induction false} ChildIdsAre(ids: seq<string>, up: map<string, string>, id: string, c: string)
    ensures c in ChildIds(ids, up, id) <==> c in ids && c in up && up[c] == id
  {
    if ids == [] {
    } else {
      ChildIdsAre(ids[..|ids| - 1], up, id, c);
      assert ids == ids[..|ids| - 1] + [ids[|ids| - 1]];
    }
  }

  lemma {:induction false} RootIdsAre(ids: seq<string>, up: map<string, string>, c: string)
    ensures c in RootIds(ids, up) <==> c in ids && c !in up
  {
    if ids == [] {
    } else {
      RootIdsAre(ids[..|ids| - 1], up, c);
      assert ids == ids[..|ids| - 1] + [ids[|ids| - 1]];
    }
  }

  function Nodes(nodes: map<string, PoolNode>, ids: seq<string>): seq<PoolNode>
    requires forall id :: id in ids ==> id in nodes
  {
    seq(|ids|, i requires 0 <= i < |ids| => nodes[ids[i]])
  }

  lemma {:induction false} ChildIdsListed(ids: seq<string>, up: map<string, string>, id: string)
    ensures forall c :: c in ChildIds(ids, up, id) ==> c in ids
    ensures forall c :: c in RootIds(ids, up) ==> c in ids
  {
    forall c
      ensures c in ChildIds(ids, up, id) ==> c in ids
      ensures c in RootIds(ids, up) ==> c in ids
    {
      ChildIdsAre(ids, up, id, c);
      RootIdsAre(ids, up, c);
    }
  }

  /** One node per listed pool, no two the same. */
  ghost predicate OneNodeEach(pools: seq<Summary>, detail: string -> Detail, nodes: map<string, PoolNode>) {
    && (forall id :: id in nodes <==> id in Order(pools))
    && (forall id :: id in nodes ==>
          nodes[id].id == id && nodes[id].name == NameOf(pools, detail, id) && nodes[id].parent == detail(id).parent)
  }

  lemma NoNodes(detail: string -> Detail)
    ensures OneNodeEach([], detail, map[])
  {
  }

  lemma KeysAre(pools: seq<Summary>, detail: string -> Detail, nodes: map<string, PoolNode>, id: string)
    requires OneNodeEach(pools, detail, nodes)
    ensures id in nodes <==> id in Order(pools)
  {
  }

  lemma NodesGrow(pools: seq<Summary>, detail: string -> Detail, nodes: map<string, PoolNode>, p: Summary,
                  node: PoolNode)
    requires OneNodeEach(pools, detail, nodes) && node.id == p.id
    requires node.name == OrElse(p.name, detail(p.id).name) && node.parent == detail(p.id).parent
    ensures OneNodeEach(pools + [p], detail, nodes[p.id := node])
  {
    OrderSnoc(pools, p);
    assert (pools + [p])[..|pools|] == pools;
    hide Order;
  }

  method BuildNodes(pools: seq<Summary>, detail: string -> Detail)
    returns (nodes: map<string, PoolNode>, ids: seq<string>)
    ensures ids == Order(pools) && OneNodeEach(pools, detail, nodes)
    ensures forall id :: id in nodes ==> fresh(nodes[id]) && nodes[id].children == []
  {
    hide Order, OneNodeEach;
    nodes, ids := map[], [];
    OrderSnoc([], Summary("", None));
    NoNodes(detail);
    for i := 0 to |pools|
      invariant ids == Order(pools[..i]) && OneNodeEach(pools[..i], detail, nodes)
      invariant forall id :: id in nodes ==> fresh(nodes[id]) && nodes[id].children == []
    {
      assert pools[..i + 1] == pools[..i] + [pools[i]];
      var p := pools[i];
      OrderSnoc(pools[..i], p);
      var d := detail(p.id);
      var node := new PoolNode(p.id, OrElse(p.name, d.name), d.parent);
      NodesGrow(pools[..i], detail, nodes, p, node);
      KeysAre(pools[..i], detail, nodes, p.id);
      if p.id !in nodes {
        ids := ids + [p.id];
      }
      nodes := nodes[p.id := node];
    }
    assert pools[..|pools|] == pools;
  }

  /** The nodes of the pools in `ids` that belong under `id`, and of those that are roots. */
  ghost function ChildNodes(nodes: map<string, PoolNode>, ids: seq<string>, up: map<string, string>,
                            id: string): seq<PoolNode>
    requires forall c :: c in ids ==> c in nodes
  {
    ChildIdsListed(ids, up, id);
    Nodes(nodes, ChildIds(ids, up, id))
  }

  ghost function RootNodes(nodes: map<string, PoolNode>, ids: seq<string>, up: map<string, string>): seq<PoolNode>
    requires forall c :: c in ids ==> c in nodes
  {
    ChildIdsListed(ids, up, "");
    Nodes(nodes, RootIds(ids, up))
  }

  lemma NodesSnoc(nodes: map<string, PoolNode>, ids: seq<string>, up: map<string, string>, x: string, id: string)
    requires x in nodes && forall c :: c in ids ==> c in nodes
    ensures ChildNodes(nodes, ids + [x], up, id)
      == ChildNodes(nodes, ids, up, id) + if x in up && up[x] == id then [nodes[x]] else []
    ensures RootNodes(nodes, ids + [x], up) == RootNodes(nodes, ids, up) + if x in up then [] else [nodes[x]]
  {
    assert (ids + [x])[..|ids|] == ids;
    ChildIdsListed(ids, up, id);
    ChildIdsListed(ids + [x], up, id);
  }

  /** The part of the forest that the first pools `ids` account for. */
  ghost predicate Forest(ids: seq<string>, up: map<string, string>, roots: seq<PoolNode>, nodes: map<string, PoolNode>)
    reads nodes.Values
  {
    && (forall id :: id in ids ==> id in nodes)
    && roots == RootNodes(nodes, ids, up)
    && (forall id :: id in nodes ==> nodes[id].children == ChildNodes(nodes, ids, up, id))
  }

  lemma NothingYet(nodes: map<string, PoolNode>, up: map<string, string>, id: string)
    ensures ChildNodes(nodes, [], up, id) == [] && RootNodes(nodes, [], up) == []
  {
  }

  /** The forest: child lists and roots are those of the parent relation, in listing order. */
  method Tree(pools: seq<Summary>, detail: string -> Detail)
    returns (roots: seq<PoolNode>, ghost nodes: map<string, PoolNode>)
    ensures OneNodeEach(pools, detail, nodes)
    ensures Forest(Order(pools), Up(Order(pools), detail), roots, nodes)
    ensures forall id :: id in nodes ==> fresh(nodes[id])
  {
    hide ChildNodes, RootNodes, Order;
    var byId, ids := BuildNodes(pools, detail);
    nodes := byId;
    ghost var up := Up(ids, detail);
    roots := [];
    forall id | id in byId
      ensures ChildNodes(byId, [], up, id) == [] && RootNodes(byId, [], up) == []
    {
      NothingYet(byId, up, id);
    }
    NothingYet(byId, up, "");
    for i := 0 to |ids|
      invariant forall id :: id in byId ==> fresh(byId[id])
      invariant Forest(ids[..i], up, roots, byId)
    {
      assert ids[..i + 1] == ids[..i] + [ids[i]];
      var node := byId[ids[i]];
      var parent := node.parent;
      forall id | id in byId {
        NodesSnoc(byId, ids[..i], up, ids[i], id);
      }
      if parent.Or("") != "" && parent.value in byId {
        assert ids[i] in up && up[ids[i]] == parent.value;
        byId[parent.value].children := byId[parent.value].children + [node];
      } else {
        assert ids[i] !in up;
        roots := roots + [node];
      }
    }
    assert ids[..|ids|] == ids;
  }

  // ----- reaching a pool from a root -----

  /** Each element but the first has the one before it as its parent. */
  ghost predicate IsChain(up: map<string, string>, c: seq<string>) {
    forall i :: 0 < i < |c| ==> c[i] in up && up[c[i]] == c[i - 1]
  }

  /** A way down from a root to the last element. */
  ghost predicate IsPath(ids: seq<string>, up: map<string, string>, p: seq<string>) {
    p != [] && p[0] in ids && p[0] !in up && IsChain(up, p)
  }

  ghost predicate Reached(ids: seq<string>, up: map<string, string>, id: string) {
    exists p :: IsPath(ids, up, p) && p[|p| - 1] == id
  }

  ghost predicate IsCycle(up: map<string, string>, c: seq<string>) {
    |c| > 1 && IsChain(up, c) && c[0] == c[|c| - 1]
  }

  ghost predicate Acyclic(up: map<string, string>) {
    forall c :: !IsCycle(up, c)
  }

  /** No pool is reached in two ways. */
  lemma {:induction false} PathsAreUnique(ids: seq<string>, up: map<string, string>, p: seq<string>, q: seq<string>)
    requires IsPath(ids, up, p) && IsPath(ids, up, q) && p[|p| - 1] == q[|q| - 1]
    ensures p == q
    decreases |p|
  {
    var n, m := |p|, |q|;
    if n == 1 {
      assert m == 1;
    } else {
      assert p[n - 1] in up && m > 1;
      assert p[..n - 1][n - 2] == up[p[n - 1]] && q[..m - 1][m - 2] == up[q[m - 1]];
      PathsAreUnique(ids, up, p[..n - 1], q[..m - 1]);
      assert p == p[..n - 1] + [p[n - 1]] && q == q[..m - 1] + [q[m - 1]];
    }
  }

  lemma {:induction false} DistinctFits(c: seq<string>, s: set<string>)
    requires Distinct(c) && forall x :: x in c ==> x in s
    ensures |c| <= |s|
    decreases |c|
  {
    if c == [] {
    } else {
      var x, rest := c[|c| - 1], c[..|c| - 1];
      assert x !in rest;
      assert forall y :: y in rest ==> y in s - {x};
      DistinctFits(rest, s - {x});
    }
  }

  /** Without cycles, following parents upwards from any pool ends at a root. */
  lemma {:induction false} Climb(ids: seq<string>, up: map<string, string>, c: seq<string>) returns (p: seq<string>)
    requires forall id :: id in up ==> id in ids && up[id] in ids
    requires Acyclic(up) && c != [] && IsChain(up, c) && Distinct(c) && forall x :: x in c ==> x in ids
    ensures IsPath(ids, up, p) && p[|p| - 1] == c[|c| - 1]
    decreases |set id | id in ids| - |c|
  {
    if c[0] !in up {
      return c;
    }
    var above := up[c[0]];
    if above in c {
      var j :| 0 <= j < |c| && c[j] == above;
      assert IsCycle(up, [above] + c[..j + 1]);
      assert false;
    }
    var longer := [above] + c;
    DistinctFits(longer, set id | id in ids);
    p := Climb(ids, up, longer);
  }

  /** Below a cycle there is no way back to a root. */
  lemma {:induction false} CycleIsUnreached(ids: seq<string>, up: map<string, string>, c: seq<string>, p: seq<string>)
    requires IsCycle(up, c) && p != [] && IsChain(up, p) && p[|p| - 1] in c
    ensures p[0] in up
    decreases |p|
  {
    var last := p[|p| - 1];
    var i :| 0 <= i < |c| && c[i] == last;
    var j := if i == 0 then |c| - 1 else i;
    assert c[j] == last && last in up && up[last] == c[j - 1];
    if |p| == 1 {
    } else {
      assert p[..|p| - 1][|p| - 2] == up[last];
      CycleIsUnreached(ids, up, c, p[..|p| - 1]);
    }
  }

  lemma ReachedIffAcyclic(ids: seq<string>, up: map<string, string>)
    requires forall id :: id in up ==> id in ids && up[id] in ids
    ensures Acyclic(up) <==> forall id :: id in ids ==> Reached(ids, up, id)
  {
    if Acyclic(up) {
      forall id | id in ids
        ensures Reached(ids, up, id)
      {
        var p := Climb(ids, up, [id]);
      }
    } else {
      var c :| IsCycle(up, c);
      assert c[1] in up;
      if Reached(ids, up, c[1]) {
        var p :| IsPath(ids, up, p) && p[|p| - 1] == c[1];
        CycleIsUnreached(ids, up, c, p);
      }
    }
  }

  /** The forest is exact: every listed pool is reached from a root, by one path,
      if and only if the parent relation has no cycle. */
  lemma ForestIsExact(pools: seq<Summary>, detail: string -> Detail)
    ensures var ids, up := Order(pools), Up(Order(pools), detail);
      && (Acyclic(up) <==> forall id :: id in ids ==> Reached(ids, up, id))
      && (forall p, q :: IsPath(ids, up, p) && IsPath(ids, up, q) && p[|p| - 1] == q[|q| - 1] ==> p == q)
  {
    hide Order, IsChain;
    var ids, up := Order(pools), Up(Order(pools), detail);
    forall p, q | IsPath(ids, up, p) && IsPath(ids, up, q) && p[|p| - 1] == q[|q| - 1]
      ensures p == q
    {
      PathsAreUnique(ids, up, p, q);
    }
    ReachedIffAcyclic(ids, up);
  }

  /** A path to anywhere on a cycle does not start at a root. */
  lemma OffTheForest(ids: seq<string>, up: map<string, string>, c: seq<string>, id: string)
    requires IsCycle(up, c) && id in c
    ensures !Reached(ids, up, id)
  {
    if p :| IsPath(ids, up, p) && p[|p| - 1] == id {
      CycleIsUnreached(ids, up, c, p);
    }
  }

  lemma {:induction false} NoRoots(ids: seq<string>, up: map<string, string>)
    requires forall c :: c in ids ==> c in up
    ensures RootIds(ids, up) == []
  {
    if ids == [] {
    } else {
      assert ids[|ids| - 1] in ids && forall c :: c in ids[..|ids| - 1] ==> c in ids;
      NoRoots(ids[..|ids| - 1], up);
    }
  }

  lemma CycleOfTwo(ids: seq<string>, up: map<string, string>, a: string, b: string)
    requires a in up && up[a] == b && b in up && up[b] == a
    ensures !Reached(ids, up, a) && !Reached(ids, up, b)
  {
    var cycle := [a, b, a];
    assert cycle[0] == a && cycle[1] == b;
    OffTheForest(ids, up, cycle, a);
    OffTheForest(ids, up, cycle, b);
  }

  lemma TwoIds(a: Summary, b: Summary)
    requires a.id != b.id
    ensures Order([a, b]) == [a.id, b.id]
  {
    hide Order;
    OrderSnoc([], a);
    OrderSnoc([a], b);
    assert [] + [a] == [a] && [a] + [b] == [a, b];
    assert [] + [a.id] == [a.id] && [a.id] + [b.id] == [a.id, b.id];
  }

  /** Two pools that are each other's parents are in no tree. */
  lemma TwoPoolCycle(a: string, b: string) returns (pools: seq<Summary>, detail: string -> Detail)
    requires a != b && a != "" && b != ""
    ensures Order(pools) == [a, b]
    ensures RootIds(Order(pools), Up(Order(pools), detail)) == []
    ensures !Reached(Order(pools), Up(Order(pools), detail), a) && !Reached(Order(pools), Up(Order(pools), detail), b)
  {
    hide Order, RootIds, Reached;
    pools := [Summary(a, None), Summary(b, None)];
    detail := id => Detail(None, Some(if id == a then b else a));
    TwoIds(pools[0], pools[1]);
    CycleOfTwo([a, b], Up([a, b], detail), a, b);
    NoRoots([a, b], Up([a, b], detail));
  }

  ghost function Ids(ns: seq<PoolNode>): seq<string> {
    seq(|ns|, i requires 0 <= i < |ns| => ns[i].id)
  }

  lemma InNodes(nodes: map<string, PoolNode>, ids: seq<string>, n: PoolNode)
    requires forall id :: id in ids ==> id in nodes && nodes[id].id == id
    requires n.id in nodes && nodes[n.id] == n
    ensures n in Nodes(nodes, ids) <==> n.id in ids
  {
    if n.id in ids {
      var i :| 0 <= i < |ids| && ids[i] == n.id;
      assert Nodes(nodes, ids)[i] == n;
    }
  }

  lemma NodeLinks(pools: seq<Summary>, detail: string -> Detail, roots: seq<PoolNode>, nodes: map<string, PoolNode>,
                  a: PoolNode, b: PoolNode)
    requires OneNodeEach(pools, detail, nodes) && Forest(Order(pools), Up(Order(pools), detail), roots, nodes)
    requires a.id in nodes && nodes[a.id] == a && b.id in nodes && nodes[b.id] == b
    ensures var up := Up(Order(pools), detail);
      && (b in a.children <==> b.id in up && up[b.id] == a.id)
      && (b in roots <==> b.id !in up)
      && b.id in Order(pools)
  {
    hide Order, Up;
    var ids, up := Order(pools), Up(Order(pools), detail);
    ChildIdsListed(ids, up, a.id);
    RootIdsAre(ids, up, b.id);
    InNodes(nodes, RootIds(ids, up), b);
    ChildIdsAre(ids, up, a.id, b.id);
    InNodes(nodes, ChildIds(ids, up, a.id), b);
  }

  /** In the built forest, a sequence of nodes leads down from a root through
      child lists exactly when its ids are a path of the parent relation. */
  lemma NodePathsAreIdPaths(pools: seq<Summary>, detail: string -> Detail, roots: seq<PoolNode>,
                            nodes: map<string, PoolNode>, ns: seq<PoolNode>)
    requires OneNodeEach(pools, detail, nodes) && Forest(Order(pools), Up(Order(pools), detail), roots, nodes)
    requires ns != [] && forall n :: n in ns ==> n.id in nodes && nodes[n.id] == n
    ensures ns[0] in roots && (forall i :: 0 < i < |ns| ==> ns[i] in ns[i - 1].children)
      <==> IsPath(Order(pools), Up(Order(pools), detail), Ids(ns))
  {
    hide Order, Up, Forest, OneNodeEach;
    var up := Up(Order(pools), detail);
    assert ns[0] in ns;
    NodeLinks(pools, detail, roots, nodes, ns[0], ns[0]);
    if forall i :: 0 < i < |ns| ==> ns[i] in ns[i - 1].children {
      forall i | 0 < i < |ns|
        ensures Ids(ns)[i] in up && up[Ids(ns)[i]] == Ids(ns)[i - 1]
      {
        assert ns[i] in ns && ns[i - 1] in ns;
        NodeLinks(pools, detail, roots, nodes, ns[i - 1], ns[i]);
      }
    }
    if IsChain(up, Ids(ns)) {
      forall i | 0 < i < |ns|
        ensures ns[i] in ns[i - 1].children
      {
        assert ns[i] in ns && ns[i - 1] in ns;
        assert Ids(ns)[i] in up && up[Ids(ns)[i]] == Ids(ns)[i - 1];
        NodeLinks(pools, detail, roots, nodes, ns[i - 1], ns[i]);
      }
    }
  }

  lemma {:induction false} SetOfDistinct(c: seq<string>)
    requires Distinct(c)
    ensures |set x | x in c| == |c|
  {
    if c == [] {
    } else {
      var x, rest := c[|c| - 1], c[..|c| - 1];
      SetOfDistinct(rest);
      assert (set y | y in c) == (set y | y in rest) + {x};
      assert x !in rest;
    }
  }

  /** There are as many nodes as distinct ids in the listing. */
  lemma NodeCount(pools: seq<Summary>, detail: string -> Detail, nodes: map<string, PoolNode>)
    requires OneNodeEach(pools, detail, nodes)
    ensures |nodes| == |Order(pools)| == |set s | s in pools :: s.id|
  {
    OrderDistinct(pools);
    var ids := set s | s in pools :: s.id;
    assert nodes.Keys == ids;
    SetOfDistinct(Order(pools));
    assert ids == set id | id in Order(pools);
  }
}
