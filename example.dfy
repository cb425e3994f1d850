/** A worked example: the fragment `i.bonsai` of a non-virtual trunk,

      - [[an-entry]]
        - [[post]]
        - [[missing]]
      - [[i.another-branch]]

    where `i.another-branch` is another fragment, followed step by step
    through the functions the builder's contracts are stated with. The
    result is the registry the host site derives the level-0, level-1 and
    level-2 metadata of its default feature test from. */
module BonsaiExample {
  import opened Text
  import opened Indent
  import opened Nodes
  import opened Registry
  import opened Stack

  const Trunk := Entry("i.bonsai", 0)
  const AnEntry := Entry("an-entry", 2)

  /** With a chunk of 2, in a fragment entered at total level 1, an
      unindented entry is at level 2 and an entry indented by two spaces at
      level 3. */
  lemma Levels()
    ensures LineLevelOf(0) == 2 && LineLevelOf(2) == 3
  {
  }

  function LineLevelOf(size: nat): int
  {
    Level(size, 2) + 1
  }

  /** The stack as the entries are read: the entry line at level 2 keeps
      the fragment's own entry (the pop range is empty) and `post` at level
      3 is the entry's child. */
  lemma StacksDown()
    ensures Ancestry(2, [Trunk]) == Some([Trunk])
    ensures Ancestry(3, [Trunk, AnEntry]) == Some([Trunk, AnEntry])
  {
    assert PopCount(2, 0) == 0;
    assert [Trunk][..1] == [Trunk];
    ChildAndSibling([Trunk], AnEntry);
  }

  /** `missing` is the post's sibling, and the stitched fragment's line at
      level 2 pops back to the trunk. */
  lemma StacksUp()
    ensures Ancestry(3, [Trunk, AnEntry, Entry("post", 3)]) == Some([Trunk, AnEntry])
    ensures Ancestry(2, [Trunk, AnEntry, Entry("missing", 3)]) == Some([Trunk])
  {
    ChildAndSibling([Trunk, AnEntry], Entry("post", 3));
    assert [Trunk, AnEntry] + [Entry("post", 3)] == [Trunk, AnEntry, Entry("post", 3)];
    assert PopCount(2, 3) == 2;
    assert [Trunk, AnEntry, Entry("missing", 3)][..1] == [Trunk];
  }

  /** One `add_branch` link step where the parent is the node at `j`. */
  lemma LinkAt(nodes: seq<Node>, j: nat, child: string)
    requires j < |nodes|
    requires forall i :: 0 <= i < j ==> nodes[i].text != nodes[j].text
    ensures Link(nodes, nodes[j].text, child) ==
      if child in nodes[j].children then nodes
      else nodes[j := nodes[j].(children := nodes[j].children + [child])]
  {
    assert FindIndex(nodes, nodes[j].text) == Some(j);
  }

  const Root0 := NewNode("i.bonsai", [])
  const Entry0 := NewNode("an-entry", ["i.bonsai"])
  const Post := NewNode("post", ["i.bonsai", "an-entry"])
  const Missing := NewNode("missing", ["i.bonsai", "an-entry"])
  const Other := NewNode("i.another-branch", ["i.bonsai"])

  /** The registry after each registration, written out. */
  const N1 := [Root0.(children := ["an-entry"]), Entry0]
  const N2 := [Root0.(children := ["an-entry"]), Entry0.(children := ["post"]), Post]
  const N3 := [Root0.(children := ["an-entry"]), Entry0.(children := ["post", "missing"]), Post, Missing]
  const N4 := [Root0.(children := ["an-entry", "i.another-branch"]), Entry0.(children := ["post", "missing"]), Post, Missing, Other]

  /** The entry line links the trunk to the entry. */
  lemma RegisterEntry()
    ensures Branch([Root0], "an-entry", ["i.bonsai"]) == N1
  {
    var c := ["i.bonsai", "an-entry"];
    assert ["i.bonsai"] + ["an-entry"] == c;
    LinkAt([Root0], 0, "an-entry");
    assert [] + ["an-entry"] == ["an-entry"];
    assert Linked([Root0], c, 1) == [N1[0]];
  }

  /** The post line finds the trunk already linked and links the entry to the post. */
  lemma RegisterPost()
    ensures Branch(N1, "post", ["i.bonsai", "an-entry"]) == N2
  {
    var c := ["i.bonsai", "an-entry", "post"];
    assert ["i.bonsai", "an-entry"] + ["post"] == c;
    LinkAt(N1, 0, "an-entry");
    assert Linked(N1, c, 1) == N1;
    LinkAt(N1, 1, "post");
    assert [] + ["post"] == ["post"];
    assert Linked(N1, c, 2) == N2[..2];
  }

  /** The `missing` line appends to the entry's children. */
  lemma RegisterMissing()
    ensures Branch(N2, "missing", ["i.bonsai", "an-entry"]) == N3
  {
    var c := ["i.bonsai", "an-entry", "missing"];
    assert ["i.bonsai", "an-entry"] + ["missing"] == c;
    LinkAt(N2, 0, "an-entry");
    assert Linked(N2, c, 1) == N2;
    LinkAt(N2, 1, "missing");
    assert ["post"] + ["missing"] == ["post", "missing"];
    assert Linked(N2, c, 2) == N3[..3];
  }

  /** The stitched fragment registers itself under the trunk. */
  lemma RegisterOther()
    ensures Branch(N3, "i.another-branch", ["i.bonsai"]) == N4
  {
    var c := ["i.bonsai", "i.another-branch"];
    assert ["i.bonsai"] + ["i.another-branch"] == c;
    LinkAt(N3, 0, "i.another-branch");
    assert ["an-entry"] + ["i.another-branch"] == ["an-entry", "i.another-branch"];
    assert Linked(N3, c, 1) == N4[..4];
  }

  /** The registry after the trunk, the three entry lines and the stitched
      fragment are registered, in that order. */
  function Bonsai(): (nodes: seq<Node>)
    ensures |nodes| == 5
  {
    var n1 := Branch([Root0], "an-entry", ["i.bonsai"]);
    var n2 := Branch(n1, "post", ["i.bonsai", "an-entry"]);
    var n3 := Branch(n2, "missing", ["i.bonsai", "an-entry"]);
    Branch(n3, "i.another-branch", ["i.bonsai"])
  }

  /** The root has no ancestors and two children in outline order; the
      entry sits under the root with `post` and `missing` below it; the post
      has the root and the entry as ancestors and no children, and so has
      the line that names a missing document. */
  lemma BonsaiShape()
    ensures Names(Bonsai()) == ["i.bonsai", "an-entry", "post", "missing", "i.another-branch"]
    ensures Bonsai()[0].ancestors == [] && Bonsai()[0].children == ["an-entry", "i.another-branch"]
    ensures Bonsai()[1].ancestors == ["i.bonsai"] && Bonsai()[1].children == ["post", "missing"]
    ensures Bonsai()[2].ancestors == ["i.bonsai", "an-entry"] && Bonsai()[2].children == []
    ensures Bonsai()[3].ancestors == ["i.bonsai", "an-entry"] && Bonsai()[3].children == []
    ensures Bonsai()[4].ancestors == ["i.bonsai"] && Bonsai()[4].children == []
  {
    RegisterEntry();
    RegisterPost();
    RegisterMissing();
    RegisterOther();
    assert Bonsai() == N4;
  }
}
