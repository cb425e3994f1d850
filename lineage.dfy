/** What `get_all_lineage_ids` computes over a registry of nodes: the ids on
    the way down from the root to each node matching the target, paired with
    the ids of everything below that node in pre-order. The walk follows
    children names through `detect`, so it is defined for registries whose
    children all name nodes and whose children links have no cycle. */
module Lineage {
  import opened Nodes
  import opened Registry

  /** The node `detect` finds for a name: the first one carrying it. */
  function NodeNamed(nodes: seq<Node>, name: string): (n: Node)
    requires name in Names(nodes)
    ensures n.text == name
  {
    nodes[FindIndex(nodes, name).value]
  }

  /** The walk is defined: every name is ranked, and each child of the node
      `detect` finds for a name names a node (so `detect` never comes back
      empty) ranked strictly below it (so the children links have no cycle). */
  predicate Walkable(nodes: seq<Node>, rank: map<string, nat>)
  {
    (forall name :: name in Names(nodes) ==> name in rank) &&
    forall name {:trigger NodeNamed(nodes, name)} :: name in Names(nodes) ==>
      forall c :: c in NodeNamed(nodes, name).children ==>
        c in Names(nodes) && c in rank && rank[c] < rank[name]
  }

  /** The test `get_all_lineage_ids` applies to each node it visits. */
  predicate Matches(n: Node, target: string)
  {
    target == n.Id() || target == n.text
  }

  /** The ids appended to `descendents` under the node `name`, in pre-order:
      each child's id (its name for a zombie), then that child's subtree. */
  function Subtree(nodes: seq<Node>, rank: map<string, nat>, name: string): seq<string>
    requires Walkable(nodes, rank) && name in Names(nodes)
    decreases rank[name], 1, 0
  {
    ChildrenIds(nodes, rank, name, |NodeNamed(nodes, name).children|)
  }

  /** The part of the subtree of `parent` contributed by its first `n` children. */
  function ChildrenIds(nodes: seq<Node>, rank: map<string, nat>, parent: string, n: nat): seq<string>
    requires Walkable(nodes, rank) && parent in Names(nodes)
    requires n <= |NodeNamed(nodes, parent).children|
    decreases rank[parent], 0, n
  {
    if n == 0 then []
    else
      var c := NodeNamed(nodes, parent).children[n - 1];
      ChildrenIds(nodes, rank, parent, n - 1) + [NodeNamed(nodes, c).Id()] + Subtree(nodes, rank, c)
  }

  /** Appending three pieces one after another is appending their concatenation. */
  lemma AppendThree<T>(a: seq<T>, b: seq<T>, c: seq<T>, d: seq<T>)
    ensures a + b + c + d == a + (b + c + d)
  {
  }

  /** The results list of the walk from node `name` with the ids `path` of
      the nodes above it: a matching node contributes the pair [path, its
      subtree] and stops the search there; otherwise its id joins the path
      and each child is searched in turn. */
  function LineageFrom(nodes: seq<Node>, rank: map<string, nat>, target: string, name: string, path: seq<string>): seq<seq<string>>
    requires Walkable(nodes, rank) && name in Names(nodes)
    decreases rank[name], 1, 0
  {
    var n := NodeNamed(nodes, name);
    if Matches(n, target) then [path, Subtree(nodes, rank, name)]
    else LineageAmong(nodes, rank, target, name, |n.children|, path + [n.Id()])
  }

  /** The concatenated results of searching the first `n` children of `parent`. */
  function LineageAmong(nodes: seq<Node>, rank: map<string, nat>, target: string, parent: string, n: nat, path: seq<string>): seq<seq<string>>
    requires Walkable(nodes, rank) && parent in Names(nodes)
    requires n <= |NodeNamed(nodes, parent).children|
    decreases rank[parent], 0, n
  {
    if n == 0 then []
    else
      var c := NodeNamed(nodes, parent).children[n - 1];
      LineageAmong(nodes, rank, target, parent, n - 1, path) + LineageFrom(nodes, rank, target, c, path)
  }

  /** `get_all_lineage_ids(target)` with its default start at the root node;
      `None` when no node carries the root's name (the source then fails). */
  function AllLineageIds(nodes: seq<Node>, root: string, target: string, rank: map<string, nat>): (r: Option<seq<seq<string>>>)
    requires Walkable(nodes, rank)
    ensures r.None? <==> root !in Names(nodes)
  {
    if root in Names(nodes) then Some(LineageFrom(nodes, rank, target, root, [])) else None
  }

  /** Some node of the registry has this id. */
  predicate IsId(nodes: seq<Node>, id: string)
  {
    exists i :: 0 <= i < |nodes| && nodes[i].Id() == id
  }

  /** Everything reported below a node is the id of a registered node. */
  lemma {:induction false} SubtreeIds(nodes: seq<Node>, rank: map<string, nat>, name: string)
    requires Walkable(nodes, rank) && name in Names(nodes)
    ensures forall id :: id in Subtree(nodes, rank, name) ==> IsId(nodes, id)
    decreases rank[name], 1, 0
  {
    ChildrenIdsAreIds(nodes, rank, name, |NodeNamed(nodes, name).children|);
  }

  lemma {:induction false} ChildrenIdsAreIds(nodes: seq<Node>, rank: map<string, nat>, parent: string, n: nat)
    requires Walkable(nodes, rank) && parent in Names(nodes)
    requires n <= |NodeNamed(nodes, parent).children|
    ensures forall id :: id in ChildrenIds(nodes, rank, parent, n) ==> IsId(nodes, id)
    decreases rank[parent], 0, n
  {
    if n > 0 {
      var c := NodeNamed(nodes, parent).children[n - 1];
      ChildrenIdsAreIds(nodes, rank, parent, n - 1);
      SubtreeIds(nodes, rank, c);
      var i := FindIndex(nodes, c).value;
      assert nodes[i].Id() == NodeNamed(nodes, c).Id();
    }
  }

  /** The results come in pairs, and every reported ancestor list starts
      with the ids above the node the search began at. */
  lemma {:induction false} LineagePairsFrom(nodes: seq<Node>, rank: map<string, nat>, target: string, name: string, path: seq<string>)
    requires Walkable(nodes, rank) && name in Names(nodes)
    ensures |LineageFrom(nodes, rank, target, name, path)| % 2 == 0
    ensures forall j :: 0 <= j < |LineageFrom(nodes, rank, target, name, path)| && j % 2 == 0 ==>
      path <= LineageFrom(nodes, rank, target, name, path)[j]
    decreases rank[name], 1, 0
  {
    var n := NodeNamed(nodes, name);
    if !Matches(n, target) {
      LineagePairsAmong(nodes, rank, target, name, |n.children|, path + [n.Id()]);
    }
  }

  /** Two results lists in pairs whose ancestor lists start with `path`
      concatenate into one. */
  lemma PairsConcat(a: seq<seq<string>>, b: seq<seq<string>>, path: seq<string>)
    requires |a| % 2 == 0 && forall j :: 0 <= j < |a| && j % 2 == 0 ==> path <= a[j]
    requires |b| % 2 == 0 && forall j :: 0 <= j < |b| && j % 2 == 0 ==> path <= b[j]
    ensures |a + b| % 2 == 0 && forall j :: 0 <= j < |a + b| && j % 2 == 0 ==> path <= (a + b)[j]
  {
    forall j | 0 <= j < |a + b| && j % 2 == 0 ensures path <= (a + b)[j] {
      if j >= |a| {
        assert (a + b)[j] == b[j - |a|];
      }
    }
  }

  lemma {:induction false} LineagePairsAmong(nodes: seq<Node>, rank: map<string, nat>, target: string, parent: string, n: nat, path: seq<string>)
    requires Walkable(nodes, rank) && parent in Names(nodes)
    requires n <= |NodeNamed(nodes, parent).children|
    ensures |LineageAmong(nodes, rank, target, parent, n, path)| % 2 == 0
    ensures forall j :: 0 <= j < |LineageAmong(nodes, rank, target, parent, n, path)| && j % 2 == 0 ==>
      path <= LineageAmong(nodes, rank, target, parent, n, path)[j]
    decreases rank[parent], 0, n
  {
    if n > 0 {
      var c := NodeNamed(nodes, parent).children[n - 1];
      var a := LineageAmong(nodes, rank, target, parent, n - 1, path);
      var b := LineageFrom(nodes, rank, target, c, path);
      assert LineageAmong(nodes, rank, target, parent, n, path) == a + b;
      LineagePairsAmong(nodes, rank, target, parent, n - 1, path);
      LineagePairsFrom(nodes, rank, target, c, path);
      PairsConcat(a, b, path);
    }
  }

  /** The ids of the nodes carrying the given names, in order. */
  function IdsOf(nodes: seq<Node>, names: seq<string>): (ids: seq<string>)
    requires forall x :: x in names ==> x in Names(nodes)
    ensures |ids| == |names|
    ensures forall i :: 0 <= i < |names| ==> ids[i] == NodeNamed(nodes, names[i]).Id()
  {
    if names == [] then []
    else IdsOf(nodes, names[..|names| - 1]) + [NodeNamed(nodes, names[|names| - 1]).Id()]
  }

  /** The names form a path down the children links: each names a node, and
      each after the first is a child of the one before it. */
  ghost predicate Descends(nodes: seq<Node>, chain: seq<string>)
  {
    (forall x :: x in chain ==> x in Names(nodes)) &&
    forall i :: 0 <= i < |chain| - 1 ==> chain[i + 1] in NodeNamed(nodes, chain[i]).children
  }

  /** The stored ancestors agree with the children links: a registered child
      of a node records that node's ancestors followed by the node itself. */
  ghost predicate AncestorsAgree(nodes: seq<Node>)
  {
    forall name {:trigger NodeNamed(nodes, name)} :: name in Names(nodes) ==>
      forall c :: c in NodeNamed(nodes, name).children && c in Names(nodes) ==>
        NodeNamed(nodes, c).ancestors == NodeNamed(nodes, name).ancestors + [name]
  }

  /** A prefix followed by the next element is the longer prefix. */
  lemma SliceStep<T>(s: seq<T>, i: nat)
    requires i < |s|
    ensures s[..i] + [s[i]] == s[..i + 1]
  {
  }

  /** Along a path down from a node with no ancestors, each node's stored
      ancestors are exactly the path above it. */
  lemma {:induction false} ChainAncestors(nodes: seq<Node>, chain: seq<string>)
    requires AncestorsAgree(nodes) && Descends(nodes, chain) && chain != []
    requires NodeNamed(nodes, chain[0]).ancestors == []
    ensures forall i :: 0 <= i < |chain| ==> NodeNamed(nodes, chain[i]).ancestors == chain[..i]
  {
    if |chain| > 1 {
      var k := |chain| - 2;
      var init := chain[..k + 1];
      assert forall i :: 0 <= i < |init| ==> init[i] == chain[i];
      ChainAncestors(nodes, init);
      assert NodeNamed(nodes, chain[k]).ancestors == chain[..k] by {
        assert init[k] == chain[k] && init[..k] == chain[..k];
      }
      assert chain[k + 1] in NodeNamed(nodes, chain[k]).children;
      assert chain[..k] + [chain[k]] == chain[..k + 1];
      forall i | 0 <= i < k + 1 ensures NodeNamed(nodes, chain[i]).ancestors == chain[..i] {
        assert init[i] == chain[i] && init[..i] == chain[..i];
      }
    }
  }

  /** Searching the first `n` children of `parent`, where children are
      distinct and every child other than `next` yields nothing, yields what
      `next` yields if it is among them, and nothing otherwise. */
  lemma {:induction false} AmongOneHit(nodes: seq<Node>, rank: map<string, nat>, target: string, parent: string, n: nat,
                                       path: seq<string>, next: string)
    requires Walkable(nodes, rank) && parent in Names(nodes) && next in Names(nodes)
    requires n <= |NodeNamed(nodes, parent).children|
    requires Distinct(NodeNamed(nodes, parent).children)
    requires forall k :: 0 <= k < n && NodeNamed(nodes, parent).children[k] != next ==>
      LineageFrom(nodes, rank, target, NodeNamed(nodes, parent).children[k], path) == []
    ensures LineageAmong(nodes, rank, target, parent, n, path) ==
      if next in NodeNamed(nodes, parent).children[..n] then LineageFrom(nodes, rank, target, next, path) else []
  {
    if n > 0 {
      AmongOneHit(nodes, rank, target, parent, n - 1, path, next);
      AmongStep(nodes, rank, target, parent, n, path, next);
    }
  }

  /** One child further in `AmongOneHit`. */
  lemma AmongStep(nodes: seq<Node>, rank: map<string, nat>, target: string, parent: string, n: nat,
                  path: seq<string>, next: string)
    requires Walkable(nodes, rank) && parent in Names(nodes) && next in Names(nodes)
    requires 0 < n <= |NodeNamed(nodes, parent).children|
    requires Distinct(NodeNamed(nodes, parent).children)
    requires NodeNamed(nodes, parent).children[n - 1] != next ==>
      LineageFrom(nodes, rank, target, NodeNamed(nodes, parent).children[n - 1], path) == []
    requires LineageAmong(nodes, rank, target, parent, n - 1, path) ==
      if next in NodeNamed(nodes, parent).children[..n - 1] then LineageFrom(nodes, rank, target, next, path) else []
    ensures LineageAmong(nodes, rank, target, parent, n, path) ==
      if next in NodeNamed(nodes, parent).children[..n] then LineageFrom(nodes, rank, target, next, path) else []
  {
    var children := NodeNamed(nodes, parent).children;
    var c := children[n - 1];
    var here := LineageFrom(nodes, rank, target, c, path);
    var hit := LineageFrom(nodes, rank, target, next, path);
    var before := LineageAmong(nodes, rank, target, parent, n - 1, path);
    assert LineageAmong(nodes, rank, target, parent, n, path) == before + here;
    OneHitStep(before, here, children, n, next, hit);
  }

  /** The sequence reasoning behind one step of `AmongOneHit`. */
  lemma OneHitStep<T>(before: seq<T>, here: seq<T>, children: seq<string>, n: nat, next: string, hit: seq<T>)
    requires 0 < n <= |children| && Distinct(children)
    requires before == if next in children[..n - 1] then hit else []
    requires children[n - 1] != next ==> here == []
    requires children[n - 1] == next ==> here == hit
    ensures before + here == if next in children[..n] then hit else []
  {
    SliceStep(children, n - 1);
    if children[n - 1] == next {
      assert forall j :: 0 <= j < n - 1 ==> children[j] != next;
      assert next !in children[..n - 1];
    }
  }

  /** A sequence that is not a prefix of `chain` has no extension that is. */
  lemma ExtendNotPrefix(p: seq<string>, c: string, chain: seq<string>)
    requires !(p <= chain)
    ensures !(p + [c] <= chain)
  {
    if |p| + 1 <= |chain| {
      assert (p + [c])[..|p|] == p;
      assert chain[..|p| + 1][..|p|] == chain[..|p|];
    }
  }

  /** A node whose ancestors and own name are not a prefix of the path from
      the root down to the only match `m` has no match below it: searching
      from it yields nothing. */
  lemma {:induction false} OffPathFrom(nodes: seq<Node>, rank: map<string, nat>, target: string, m: string,
                                       x: string, path: seq<string>)
    requires Walkable(nodes, rank) && AncestorsAgree(nodes) && m in Names(nodes) && x in Names(nodes)
    requires forall n :: n in nodes && Matches(n, target) ==> n.text == m
    requires !(NodeNamed(nodes, x).ancestors + [x] <= NodeNamed(nodes, m).ancestors + [m])
    ensures LineageFrom(nodes, rank, target, x, path) == []
    decreases rank[x]
  {
    var n := NodeNamed(nodes, x);
    assert n == nodes[FindIndex(nodes, x).value];
    assert !Matches(n, target);
    var below := path + [n.Id()];
    forall k | 0 <= k < |n.children|
      ensures LineageFrom(nodes, rank, target, n.children[k], below) == []
    {
      OffPathChild(nodes, rank, target, m, x, k);
      OffPathFrom(nodes, rank, target, m, n.children[k], below);
    }
    AmongAllEmpty(nodes, rank, target, x, |n.children|, below);
  }

  /** Searching the first `k` children of `parent` yields nothing when each
      of them yields nothing. */
  lemma {:induction false} AmongAllEmpty(nodes: seq<Node>, rank: map<string, nat>, target: string, parent: string,
                                         k: nat, path: seq<string>)
    requires Walkable(nodes, rank) && parent in Names(nodes)
    requires k <= |NodeNamed(nodes, parent).children|
    requires forall j :: 0 <= j < k ==>
      LineageFrom(nodes, rank, target, NodeNamed(nodes, parent).children[j], path) == []
    ensures LineageAmong(nodes, rank, target, parent, k, path) == []
  {
    if k > 0 {
      AmongAllEmpty(nodes, rank, target, parent, k - 1, path);
    }
  }

  /** Each child of a node off the path to `m` is off that path too. */
  lemma OffPathChild(nodes: seq<Node>, rank: map<string, nat>, target: string, m: string, x: string, k: nat)
    requires Walkable(nodes, rank) && AncestorsAgree(nodes) && m in Names(nodes) && x in Names(nodes)
    requires !(NodeNamed(nodes, x).ancestors + [x] <= NodeNamed(nodes, m).ancestors + [m])
    requires k < |NodeNamed(nodes, x).children|
    ensures NodeNamed(nodes, x).children[k] in Names(nodes)
    ensures var c := NodeNamed(nodes, x).children[k];
      !(NodeNamed(nodes, c).ancestors + [c] <= NodeNamed(nodes, m).ancestors + [m])
  {
    var xn := NodeNamed(nodes, x);
    var c := xn.children[k];
    assert c in xn.children;
    assert NodeNamed(nodes, c).ancestors == xn.ancestors + [x];
    ExtendNotPrefix(xn.ancestors + [x], c, NodeNamed(nodes, m).ancestors + [m]);
  }

  /** The children of the i-th ancestor of the only match `m`, other than
      the next name on the path to `m`, yield nothing. */
  lemma SiblingsOffPath(nodes: seq<Node>, rank: map<string, nat>, target: string, m: string, i: nat, path: seq<string>)
    requires Walkable(nodes, rank) && AncestorsAgree(nodes) && m in Names(nodes)
    requires forall n :: n in nodes && Matches(n, target) ==> n.text == m
    requires Descends(nodes, NodeNamed(nodes, m).ancestors + [m])
    requires i < |NodeNamed(nodes, m).ancestors|
    requires NodeNamed(nodes, NodeNamed(nodes, m).ancestors[i]).ancestors == NodeNamed(nodes, m).ancestors[..i]
    ensures var a := NodeNamed(nodes, m).ancestors;
      var children := NodeNamed(nodes, a[i]).children;
      forall k :: 0 <= k < |children| && children[k] != (a + [m])[i + 1] ==>
        LineageFrom(nodes, rank, target, children[k], path) == []
  {
    var a := NodeNamed(nodes, m).ancestors;
    var x := a[i];
    var n := NodeNamed(nodes, x);
    var next := (a + [m])[i + 1];
    forall k | 0 <= k < |n.children| && n.children[k] != next
      ensures LineageFrom(nodes, rank, target, n.children[k], path) == []
    {
      var c := n.children[k];
      assert c in n.children;
      assert c in Names(nodes);
      SliceStep(a, i);
      assert NodeNamed(nodes, c).ancestors + [c] == a[..i + 1] + [c];
      assert (a[..i + 1] + [c])[i + 1] == c;
      assert !(a[..i + 1] + [c] <= a + [m]);
      OffPathFrom(nodes, rank, target, m, c, path);
    }
  }

  /** One step down the path to the only match `m`: searching from the i-th
      ancestor of `m` yields what searching from the next name on the path
      yields, the ancestor's id joining the ids above. */
  lemma OnPathStep(nodes: seq<Node>, rank: map<string, nat>, target: string, m: string, i: nat)
    requires Walkable(nodes, rank) && ChildrenDistinct(nodes) && AncestorsAgree(nodes) && m in Names(nodes)
    requires forall n :: n in nodes && Matches(n, target) ==> n.text == m
    requires Descends(nodes, NodeNamed(nodes, m).ancestors + [m])
    requires forall j :: 0 <= j < |NodeNamed(nodes, m).ancestors| ==>
      NodeNamed(nodes, m).ancestors[j] in Names(nodes) &&
      NodeNamed(nodes, NodeNamed(nodes, m).ancestors[j]).ancestors == NodeNamed(nodes, m).ancestors[..j]
    requires i < |NodeNamed(nodes, m).ancestors|
    ensures var a := NodeNamed(nodes, m).ancestors;
      LineageFrom(nodes, rank, target, a[i], IdsOf(nodes, a[..i])) ==
        LineageFrom(nodes, rank, target, (a + [m])[i + 1], IdsOf(nodes, a[..i + 1]))
  {
    var a := NodeNamed(nodes, m).ancestors;
    var x := a[i];
    var n := NodeNamed(nodes, x);
    assert n == nodes[FindIndex(nodes, x).value];
    assert x != m by {
      assert |n.ancestors| == i;
    }
    assert !Matches(n, target);
    var next := (a + [m])[i + 1];
    assert next in n.children by {
      assert (a + [m])[i] == x;
    }
    var path := IdsOf(nodes, a[..i + 1]);
    assert IdsOf(nodes, a[..i]) + [n.Id()] == path by {
      assert a[..i + 1][..i] == a[..i];
    }
    assert LineageFrom(nodes, rank, target, x, IdsOf(nodes, a[..i])) ==
      LineageAmong(nodes, rank, target, x, |n.children|, path);
    SiblingsOffPath(nodes, rank, target, m, i, path);
    AmongOneHit(nodes, rank, target, x, |n.children|, path, next);
    assert n.children[..|n.children|] == n.children;
  }

  /** Searching from the i-th name of the path from the root down to the only
      match `m`, with the ids of the names above it, yields one pair: the ids
      of `m`'s ancestors and `m`'s subtree. */
  lemma {:induction false} OnPathFrom(nodes: seq<Node>, rank: map<string, nat>, target: string, m: string, i: nat)
    requires Walkable(nodes, rank) && ChildrenDistinct(nodes) && AncestorsAgree(nodes) && m in Names(nodes)
    requires forall n :: n in nodes && Matches(n, target) ==> n.text == m
    requires Descends(nodes, NodeNamed(nodes, m).ancestors + [m])
    requires forall j :: 0 <= j < |NodeNamed(nodes, m).ancestors| ==>
      NodeNamed(nodes, m).ancestors[j] in Names(nodes) &&
      NodeNamed(nodes, NodeNamed(nodes, m).ancestors[j]).ancestors == NodeNamed(nodes, m).ancestors[..j]
    requires Matches(NodeNamed(nodes, m), target)
    requires i <= |NodeNamed(nodes, m).ancestors|
    ensures var a := NodeNamed(nodes, m).ancestors;
      LineageFrom(nodes, rank, target, (a + [m])[i], IdsOf(nodes, a[..i])) ==
        [IdsOf(nodes, a), Subtree(nodes, rank, m)]
    decreases |NodeNamed(nodes, m).ancestors| - i
  {
    var a := NodeNamed(nodes, m).ancestors;
    if i == |a| {
      assert (a + [m])[i] == m && a[..i] == a;
      assert LineageFrom(nodes, rank, target, m, IdsOf(nodes, a)) == [IdsOf(nodes, a), Subtree(nodes, rank, m)];
    } else {
      assert (a + [m])[i] == a[i];
      OnPathStep(nodes, rank, target, m, i);
      OnPathFrom(nodes, rank, target, m, i + 1);
    }
  }

  /** The lineage promise on a tree-shaped registry: when exactly one node
      matches the target and its stored ancestors are a path down from the
      root, `get_all_lineage_ids` returns one pair, the ids of those
      ancestors from the root down and the ids of everything below the
      node in pre-order. */
  lemma UniqueMatchLineage(nodes: seq<Node>, root: string, target: string, rank: map<string, nat>, m: string)
    requires Walkable(nodes, rank) && ChildrenDistinct(nodes) && AncestorsAgree(nodes)
    requires m in Names(nodes) && Matches(NodeNamed(nodes, m), target)
    requires forall n :: n in nodes && Matches(n, target) ==> n.text == m
    requires Descends(nodes, NodeNamed(nodes, m).ancestors + [m])
    requires (NodeNamed(nodes, m).ancestors + [m])[0] == root
    requires NodeNamed(nodes, root).ancestors == []
    ensures AllLineageIds(nodes, root, target, rank) ==
      Some([IdsOf(nodes, NodeNamed(nodes, m).ancestors), Subtree(nodes, rank, m)])
  {
    var a := NodeNamed(nodes, m).ancestors;
    ChainAncestors(nodes, a + [m]);
    forall j | 0 <= j < |a|
      ensures a[j] in Names(nodes) && NodeNamed(nodes, a[j]).ancestors == a[..j]
    {
      assert (a + [m])[j] == a[j] && (a + [m])[..j] == a[..j];
    }
    OnPathFrom(nodes, rank, target, m, 0);
    assert a[..0] == [];
  }

  /** A target that no node matches yields an empty results list. */
  lemma {:induction false} AbsentTargetFrom(nodes: seq<Node>, rank: map<string, nat>, target: string, name: string, path: seq<string>)
    requires Walkable(nodes, rank) && name in Names(nodes)
    requires forall n :: n in nodes ==> !Matches(n, target)
    ensures LineageFrom(nodes, rank, target, name, path) == []
    decreases rank[name], 1, 0
  {
    var n := NodeNamed(nodes, name);
    AbsentTargetAmong(nodes, rank, target, name, |n.children|, path + [n.Id()]);
  }

  lemma {:induction false} AbsentTargetAmong(nodes: seq<Node>, rank: map<string, nat>, target: string, parent: string, n: nat, path: seq<string>)
    requires Walkable(nodes, rank) && parent in Names(nodes)
    requires n <= |NodeNamed(nodes, parent).children|
    requires forall n :: n in nodes ==> !Matches(n, target)
    ensures LineageAmong(nodes, rank, target, parent, n, path) == []
    decreases rank[parent], 0, n
  {
    if n > 0 {
      var c := NodeNamed(nodes, parent).children[n - 1];
      AbsentTargetAmong(nodes, rank, target, parent, n - 1, path);
      AbsentTargetFrom(nodes, rank, target, c, path);
    }
  }

  /** An absent target: `get_all_lineage_ids` returns an empty list. */
  lemma AbsentTarget(nodes: seq<Node>, root: string, target: string, rank: map<string, nat>)
    requires Walkable(nodes, rank) && root in Names(nodes)
    requires forall n :: n in nodes ==> !Matches(n, target)
    ensures AllLineageIds(nodes, root, target, rank) == Some([])
  {
    AbsentTargetFrom(nodes, rank, target, root, []);
  }

  /** When the target is the root itself, the result is one pair: no
      ancestors, and every id of the tree below the root. */
  lemma RootTarget(nodes: seq<Node>, root: string, rank: map<string, nat>)
    requires Walkable(nodes, rank) && root in Names(nodes)
    ensures AllLineageIds(nodes, root, root, rank) == Some([[], Subtree(nodes, rank, root)])
  {
  }
}
