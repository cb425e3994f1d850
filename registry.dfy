/** Pure functions over the tree's node list: name lookup (the `find` and
    `detect` scans), the children linking that `add_branch` performs, and
    the small list utilities the builder relies on (`uniq`, key deletion). */
module Registry {
  import opened Nodes

  predicate Distinct<T(==)>(s: seq<T>)
  {
    forall i, j :: 0 <= i < j < |s| ==> s[i] != s[j]
  }

  /** `@nodes.map(&:text)`. */
  function Names(nodes: seq<Node>): (names: seq<string>)
    ensures |names| == |nodes|
    ensures forall i :: 0 <= i < |nodes| ==> names[i] == nodes[i].text
  {
    seq(|nodes|, i requires 0 <= i < |nodes| => nodes[i].text)
  }

  /** `@nodes.find { |n| n.text == name }`, as the index of the first match. */
  function FindIndex(nodes: seq<Node>, name: string): (r: Option<nat>)
    ensures r.Some? ==> r.value < |nodes| && nodes[r.value].text == name
    ensures r.Some? ==> forall j :: 0 <= j < r.value ==> nodes[j].text != name
    ensures r.None? <==> name !in Names(nodes)
  {
    FindFrom(nodes, name, 0)
  }

  /** The scan of `find` from position `k` on. */
  function FindFrom(nodes: seq<Node>, name: string, k: nat): (r: Option<nat>)
    requires k <= |nodes|
    ensures r.Some? ==> k <= r.value < |nodes| && nodes[r.value].text == name
    ensures r.Some? ==> forall j :: k <= j < r.value ==> nodes[j].text != name
    ensures r.None? <==> forall j :: k <= j < |nodes| ==> nodes[j].text != name
    decreases |nodes| - k
  {
    if k == |nodes| then None
    else if nodes[k].text == name then Some(k)
    else FindFrom(nodes, name, k + 1)
  }

  /** One step of `add_branch`: the first node named `parent`, if any, gets
      `child` appended to its children unless it already has it. */
  function Link(nodes: seq<Node>, parent: string, child: string): (r: seq<Node>)
    ensures |r| == |nodes|
  {
    match FindIndex(nodes, parent)
    case None => nodes
    case Some(j) =>
      if child in nodes[j].children then nodes
      else nodes[j := nodes[j].(children := nodes[j].children + [child])]
  }

  /** `add_branch`'s loop after its first `n` iterations: the consecutive
      pairs (chain[k], chain[k+1]) for k < n linked in order, where the chain
      is the ancestry titles followed by the new node's name. */
  function Linked(nodes: seq<Node>, chain: seq<string>, n: nat): (r: seq<Node>)
    requires n < |chain|
    ensures |r| == |nodes|
  {
    if n == 0 then nodes else Link(Linked(nodes, chain, n - 1), chain[n - 1], chain[n])
  }

  /** `b` grows out of `a`: the nodes of `a` keep their place, name,
      ancestors and document, and their children lists only grow at the end;
      new nodes may follow. */
  predicate Extends(a: seq<Node>, b: seq<Node>)
  {
    |a| <= |b| &&
    forall i :: 0 <= i < |a| ==>
      b[i].text == a[i].text && b[i].ancestors == a[i].ancestors &&
      b[i].doc == a[i].doc && a[i].children <= b[i].children
  }

  /** Every node's children are pairwise distinct. */
  predicate ChildrenDistinct(nodes: seq<Node>)
  {
    forall i :: 0 <= i < |nodes| ==> Distinct(nodes[i].children)
  }

  lemma ExtendsTransitive(a: seq<Node>, b: seq<Node>, c: seq<Node>)
    requires Extends(a, b) && Extends(b, c)
    ensures Extends(a, c)
  {
    forall i | 0 <= i < |a|
      ensures c[i].text == a[i].text && c[i].ancestors == a[i].ancestors
      ensures c[i].doc == a[i].doc && a[i].children <= c[i].children
    {
    }
  }

  lemma ExtendsNames(a: seq<Node>, b: seq<Node>)
    requires Extends(a, b)
    ensures forall x :: x in Names(a) ==> x in Names(b)
    ensures Names(b)[..|a|] == Names(a)
  {
    forall x | x in Names(a) ensures x in Names(b) {
      var i :| 0 <= i < |a| && Names(a)[i] == x;
      assert Names(b)[i] == x;
    }
  }

  lemma {:induction false} LinkShape(nodes: seq<Node>, parent: string, child: string)
    ensures Extends(nodes, Link(nodes, parent, child))
    ensures |Link(nodes, parent, child)| == |nodes|
    ensures ChildrenDistinct(nodes) ==> ChildrenDistinct(Link(nodes, parent, child))
  {
    match FindIndex(nodes, parent)
    case None =>
    case Some(j) =>
      if child !in nodes[j].children {
        var r := Link(nodes, parent, child);
        if ChildrenDistinct(nodes) {
          forall i | 0 <= i < |r| ensures Distinct(r[i].children) {
            if i == j {
              var cs := nodes[j].children + [child];
              assert r[i].children == cs;
              forall a, b | 0 <= a < b < |cs| ensures cs[a] != cs[b] {
                if b == |cs| - 1 {
                  assert cs[a] in nodes[j].children;
                }
              }
            }
          }
        }
      }
  }

  /** `add_branch`'s linking changes no name, ancestry or document, keeps the
      existing order of every children list, and never creates a repeat. */
  lemma {:induction false} LinkedShape(nodes: seq<Node>, chain: seq<string>, n: nat)
    requires n < |chain|
    ensures Extends(nodes, Linked(nodes, chain, n))
    ensures |Linked(nodes, chain, n)| == |nodes|
    ensures ChildrenDistinct(nodes) ==> ChildrenDistinct(Linked(nodes, chain, n))
  {
    if n > 0 {
      var prev := Linked(nodes, chain, n - 1);
      LinkedShape(nodes, chain, n - 1);
      LinkShape(prev, chain[n - 1], chain[n]);
      ExtendsTransitive(nodes, prev, Linked(nodes, chain, n));
    }
  }

  /** `find` depends only on the names of the nodes. */
  lemma FindIndexSameTexts(a: seq<Node>, b: seq<Node>, name: string)
    requires |a| == |b| && forall i :: 0 <= i < |a| ==> a[i].text == b[i].text
    ensures FindIndex(a, name) == FindIndex(b, name)
  {
    assert Names(a) == Names(b);
  }

  /** After `Link(parent, child)`, the first node named `parent` lists `child`. */
  lemma LinkLinks(nodes: seq<Node>, parent: string, child: string)
    requires parent in Names(nodes)
    ensures child in Link(nodes, parent, child)[FindIndex(nodes, parent).value].children
  {
  }

  /** After `add_branch`'s linking, for each consecutive pair of the chain
      whose parent name exists, the child name is among that node's children. */
  lemma {:induction false} LinkedLinksEveryPair(nodes: seq<Node>, chain: seq<string>, n: nat, k: nat)
    requires n < |chain| && k < n
    requires chain[k] in Names(nodes)
    ensures chain[k + 1] in Linked(nodes, chain, n)[FindIndex(nodes, chain[k]).value].children
  {
    var j := FindIndex(nodes, chain[k]).value;
    var prev := Linked(nodes, chain, n - 1);
    var next := Linked(nodes, chain, n);
    assert next == Link(prev, chain[n - 1], chain[n]);
    LinkedShape(nodes, chain, n - 1);
    LinkShape(prev, chain[n - 1], chain[n]);
    assert prev[j].children <= next[j].children;
    if k == n - 1 {
      FindIndexSameTexts(nodes, prev, chain[k]);
      LinkLinks(prev, chain[k], chain[k + 1]);
    } else {
      LinkedLinksEveryPair(nodes, chain, n - 1, k);
      InPrefix(prev[j].children, next[j].children, chain[k + 1]);
    }
  }

  /** What a list holds, any list it is a prefix of holds too. */
  lemma InPrefix(a: seq<string>, b: seq<string>, x: string)
    requires a <= b && x in a
    ensures x in b
  {
    var i :| 0 <= i < |a| && a[i] == x;
    assert b[i] == x;
  }

  /** `add_branch`'s linking adds to a node only names that follow that
      node's name somewhere in the chain. */
  lemma {:induction false} LinkedAddsOnlyChainNames(nodes: seq<Node>, chain: seq<string>, n: nat, i: nat, c: string)
    requires n < |chain| && i < |nodes|
    requires c in Linked(nodes, chain, n)[i].children
    requires c !in nodes[i].children
    ensures exists k :: 0 <= k < n && chain[k] == nodes[i].text && chain[k + 1] == c
  {
    if n > 0 {
      var prev := Linked(nodes, chain, n - 1);
      LinkedShape(nodes, chain, n - 1);
      if c in prev[i].children {
        LinkedAddsOnlyChainNames(nodes, chain, n - 1, i, c);
      } else {
        LinkAddsOnly(prev, chain[n - 1], chain[n], i, c);
        assert chain[n - 1] == nodes[i].text && chain[n] == c;
      }
    }
  }

  /** A single link adds only `child`, and only to a node named `parent`. */
  lemma LinkAddsOnly(nodes: seq<Node>, parent: string, child: string, i: nat, c: string)
    requires i < |nodes|
    requires c in Link(nodes, parent, child)[i].children && c !in nodes[i].children
    ensures nodes[i].text == parent && c == child
  {
  }

  lemma NamesAppend(nodes: seq<Node>, n: Node)
    ensures Names(nodes + [n]) == Names(nodes) + [n.text]
  {
    assert (nodes + [n])[..|nodes|] == nodes;
  }

  lemma DistinctAppend(s: seq<string>, x: string)
    requires Distinct(s) && x !in s
    ensures Distinct(s + [x])
  {
    var t := s + [x];
    forall i, j | 0 <= i < j < |t| ensures t[i] != t[j] {
      if j == |s| {
        assert t[i] == s[i];
      }
    }
  }

  /** The node list after `add_branch(text, titles)`: the links along the
      chain `titles + [text]`, then the new node with `titles` as ancestors. */
  function Branch(nodes: seq<Node>, text: string, titles: seq<string>): (r: seq<Node>)
    ensures |r| == |nodes| + 1 && r[|nodes|] == NewNode(text, titles)
    ensures titles == [] ==> r == nodes + [NewNode(text, [])]
  {
    Linked(nodes, titles + [text], |titles|) + [NewNode(text, titles)]
  }

  /** `add_branch`'s loop: along the ancestry titles, each title's node gets
      the next title (the new node's name after the last title) as a child. */
  method LinkAncestry(nodes: seq<Node>, text: string, ancestryTitles: seq<string>) returns (linked: seq<Node>)
    ensures linked == Linked(nodes, ancestryTitles + [text], |ancestryTitles|)
  {
    var chain := ancestryTitles + [text];
    linked := nodes;
    var i := 0;
    while i < |ancestryTitles|
      invariant 0 <= i <= |ancestryTitles|
      invariant linked == Linked(nodes, chain, i)
    {
      var child := if i < |ancestryTitles| - 1 then ancestryTitles[i + 1] else text;
      assert child == chain[i + 1] && ancestryTitles[i] == chain[i];
      linked := Link(linked, ancestryTitles[i], child);
      assert linked == Linked(nodes, chain, i + 1);
      i := i + 1;
    }
  }

  /** `add_branch` keeps every existing node (name, ancestors, document and
      children order), adds exactly one name, and creates no repeated child. */
  lemma BranchShape(nodes: seq<Node>, text: string, titles: seq<string>)
    ensures Extends(nodes, Branch(nodes, text, titles))
    ensures Names(Branch(nodes, text, titles)) == Names(nodes) + [text]
    ensures ChildrenDistinct(nodes) ==> ChildrenDistinct(Branch(nodes, text, titles))
  {
    var linked := Linked(nodes, titles + [text], |titles|);
    LinkedShape(nodes, titles + [text], |titles|);
    ExtendsNames(nodes, linked);
    NamesAppend(linked, NewNode(text, titles));
    assert Names(linked) == Names(linked)[..|nodes|];
  }

  /** After `add_branch`, every consecutive pair of `titles + [text]` whose
      parent name exists is linked: the first node with the parent's name
      lists the child. */
  lemma BranchLinksChain(nodes: seq<Node>, text: string, titles: seq<string>, k: nat)
    requires k < |titles| && titles[k] in Names(nodes)
    ensures (titles + [text])[k + 1] in Branch(nodes, text, titles)[FindIndex(nodes, titles[k]).value].children
  {
    var chain := titles + [text];
    LinkedLinksEveryPair(nodes, chain, |titles|, k);
  }

  /** Each node's chain (its ancestors, then its own name) is linked
      through the nodes registered before it: a node earlier in the list
      that carries a chain entry's name lists the entry that follows. */
  ghost predicate ChainsLinked(nodes: seq<Node>)
  {
    forall i, j, k :: 0 <= i < j < |nodes| && 0 <= k < |nodes[j].ancestors| && nodes[i].text == nodes[j].ancestors[k] ==>
      (nodes[j].ancestors + [nodes[j].text])[k + 1] in nodes[i].children
  }

  /** While names stay unique, `add_branch` keeps every chain linked, the
      new node's chain included. */
  lemma BranchKeepsChainsLinked(nodes: seq<Node>, text: string, titles: seq<string>)
    requires Distinct(Names(nodes)) ==> ChainsLinked(nodes)
    ensures Distinct(Names(Branch(nodes, text, titles))) ==> ChainsLinked(Branch(nodes, text, titles))
  {
    var b := Branch(nodes, text, titles);
    BranchShape(nodes, text, titles);
    if !Distinct(Names(b)) {
      return;
    }
    forall i, j | 0 <= i < j < |nodes| ensures Names(nodes)[i] != Names(nodes)[j] {
      assert Names(b)[i] != Names(b)[j];
    }
    forall i, j, k | 0 <= i < j < |b| && 0 <= k < |b[j].ancestors| && b[i].text == b[j].ancestors[k]
      ensures (b[j].ancestors + [b[j].text])[k + 1] in b[i].children
    {
      if j == |nodes| {
        assert b[j].ancestors == titles && b[j].text == text;
        assert Names(nodes)[i] == titles[k];
        var f := FindIndex(nodes, titles[k]).value;
        assert f == i by {
          assert Names(nodes)[f] == titles[k];
        }
        BranchLinksChain(nodes, text, titles, k);
      } else {
        assert nodes[i].children <= b[i].children;
      }
    }
  }

  /** Ruby's `Array#uniq`: the first occurrence of each element, in order. */
  function Uniq(s: seq<string>): (r: seq<string>)
    ensures Distinct(r)
    ensures forall x :: x in r <==> x in s
    ensures |r| <= |s|
  {
    if s == [] then []
    else
      var u := Uniq(s[..|s| - 1]);
      if s[|s| - 1] in u then u else u + [s[|s| - 1]]
  }

  /** A repeated name yields one entry. */
  lemma UniqExample()
    ensures Uniq(["a", "b", "a", "a"]) == ["a", "b"]
  {
    assert ["a", "b", "a", "a"][..3] == ["a", "b", "a"];
    assert ["a", "b", "a"][..2] == ["a", "b"];
    assert ["a", "b"][..1] == ["a"];
  }

  /** `Hash#delete` on the key order: every occurrence of `x` is dropped. */
  function Without(s: seq<string>, x: string): (r: seq<string>)
    ensures forall y :: y in r <==> y in s && y != x
    ensures Distinct(s) ==> Distinct(r)
    ensures |r| <= |s|
  {
    if s == [] then []
    else if s[0] == x then Without(s[1..], x)
    else
      var t := Without(s[1..], x);
      assert Distinct(s) ==> s[0] !in s[1..] by {
        if Distinct(s) {
          forall k | 0 <= k < |s| - 1 ensures s[1..][k] != s[0] {
            assert s[k + 1] != s[0];
          }
        }
      }
      [s[0]] + t
  }

  /** The other keys keep their order: an absent key changes nothing, and
      deleting the key at position i leaves the keys before and after it. */
  lemma WithoutKeepsOrder(s: seq<string>, x: string)
    ensures x !in s ==> Without(s, x) == s
    ensures forall i :: 0 <= i < |s| && s[i] == x && Distinct(s) ==> Without(s, x) == s[..i] + s[i + 1..]
  {
    WithoutAbsent(s, x);
    forall i | 0 <= i < |s| && s[i] == x && Distinct(s) ensures Without(s, x) == s[..i] + s[i + 1..] {
      WithoutAt(s, x, i);
    }
  }

  /** Deleting an absent key changes nothing. */
  lemma {:induction false} WithoutAbsent(s: seq<string>, x: string)
    ensures x !in s ==> Without(s, x) == s
  {
    if s != [] && x !in s {
      assert x !in s[1..];
      WithoutAbsent(s[1..], x);
      assert s == [s[0]] + s[1..];
    }
  }

  /** Deleting the key at position i of distinct keys leaves the keys
      before and after it. */
  lemma {:induction false} WithoutAt(s: seq<string>, x: string, i: nat)
    requires i < |s| && s[i] == x && Distinct(s)
    ensures Without(s, x) == s[..i] + s[i + 1..]
  {
    var t := s[1..];
    assert Distinct(t) by {
      forall a, b | 0 <= a < b < |t| ensures t[a] != t[b] {
        assert s[a + 1] != s[b + 1];
      }
    }
    if i == 0 {
      assert x !in t by {
        forall k | 0 <= k < |t| ensures t[k] != x {
          assert s[k + 1] != s[0];
        }
      }
      WithoutAbsent(t, x);
    } else {
      assert s[0] != x;
      assert t[i - 1] == x;
      WithoutAt(t, x, i - 1);
      assert s[..i] == [s[0]] + t[..i - 1];
      assert s[i + 1..] == t[i..];
    }
  }

  /** The order `uniq` keeps: of two names it reports, the earlier one
      occurs in the input before any occurrence of the later one. */
  lemma {:induction false} UniqKeepsOrder(s: seq<string>)
    ensures forall i, j, k :: 0 <= i < j < |Uniq(s)| && 0 <= k < |s| && s[k] == Uniq(s)[j] ==> Uniq(s)[i] in s[..k]
  {
    if s != [] {
      var p := s[..|s| - 1];
      var e := s[|s| - 1];
      var u := Uniq(p);
      var r := Uniq(s);
      UniqKeepsOrder(p);
      forall i, j, k | 0 <= i < j < |r| && 0 <= k < |s| && s[k] == r[j]
        ensures r[i] in s[..k]
      {
        assert p[..k] <= s[..k] by {
          if k < |p| { assert s[..k] == p[..k]; }
        }
        if j < |u| {
          assert r[i] == u[i] && r[j] == u[j];
          if k < |p| {
            assert p[k] == u[j];
            assert u[i] in p[..k];
            assert s[..k] == p[..k];
          } else {
            assert u[j] in p;
            var k' :| 0 <= k' < |p| && p[k'] == u[j];
            assert u[i] in p[..k'];
            assert p[..k'] == s[..k'] && s[..k] == p;
          }
        } else {
          assert r == u + [e] && r[j] == e && e !in p;
          assert k == |p|;
          assert r[i] == u[i] && u[i] in p && s[..k] == p;
        }
      }
    }
  }
}
