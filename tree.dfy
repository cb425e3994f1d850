/** The semantic tree (`Jekyll::Tree`): it reads an indented outline, given
    as one text or as several named fragments that refer to each other by
    name, and registers one uniquely named node per outline entry, linking
    each node to its children. */
module SemTree {
  import opened Text
  import opened Indent
  import opened Nodes
  import opened Registry
  import opened Stack
  import opened Lineage

  /** The `content` hash the builder drains: fragment names in insertion
      order, and each fragment's lines. */
  datatype Fragments = Fragments(order: seq<string>, lines: map<string, seq<string>>)
  {
    ghost predicate Wf()
    {
      Distinct(order) && forall k :: k in lines <==> k in order
    }

    /** `Hash#delete`. */
    function Delete(key: string): (f: Fragments)
      requires Wf()
      ensures f.Wf() && key !in f.lines
      ensures forall k :: k in f.lines <==> k in lines && k != key
      ensures forall k :: k in f.lines ==> f.lines[k] == lines[k]
      ensures key !in order ==> f.order == order
      ensures forall i :: 0 <= i < |order| && order[i] == key ==> f.order == order[..i] + order[i + 1..]
    {
      WithoutKeepsOrder(order, key);
      Fragments(Without(order, key), lines - {key})
    }
  }

  /** What the source may raise: a fragment hash without the root fragment,
      a line whose ancestor stack is empty (the source reads the level of a
      missing parent), a fragment recursion deeper than the stack allows, and
      an in-place edit of the frozen literal a single outline is filed under. */
  datatype Failure = MissingRoot | NoParent | TooDeep | Frozen

  /** The value `build_tree` returns: a copy of the node list, the names of
      fragments left unprocessed, the distinct duplicate names (the tree
      was cleared), nothing, or a raised failure. */
  datatype Outcome =
    | Built(copy: seq<Node>)
    | NotProcessed(keys: seq<string>)
    | DuplicateNodes(names: seq<string>)
    | Nothing
    | Raised(failure: Failure)

  /** The name of the fragment a single outline is filed under. */
  const RootKey: string := "root"

  /** Fragments that have not been consumed and that no node is named after:
      the only keys the builder can still recurse into. */
  function Pending(content: Fragments, nodes: seq<Node>): set<string>
  {
    set k | k in content.lines && k !in Names(nodes)
  }

  /** Every fragment of `before` whose name is in `names` is still in `after`. */
  predicate KeepsNamedKeys(before: Fragments, names: seq<string>, after: Fragments)
  {
    forall k :: k in before.lines && k in names ==> k in after.lines
  }

  /** A non-blank line whose name no node has yet. */
  predicate NewName(line: string, names: seq<string>)
  {
    !Blank(line) && LineName(line) !in names
  }

  /** The depth level of a line read inside a fragment entered at `totalLevel`. */
  function LineLevel(line: string, chunk: int, totalLevel: int): int
    requires ChunkOk(chunk)
  {
    Level(WhitespaceSize(LeadingWhitespace(line)), chunk) + totalLevel
  }

  /** A line that names another fragment still waiting in `content`. */
  predicate Stitches(line: string, curKey: string, content: Fragments)
  {
    LineName(line) != curKey && LineName(line) in content.lines
  }

  lemma {:induction false} SubsetCard(a: set<string>, b: set<string>)
    requires a <= b
    ensures |a| <= |b|
    decreases |b|
  {
    if a != {} {
      var x :| x in a;
      SubsetCard(a - {x}, b - {x});
    }
  }

  /** Consuming fragments and registering nodes can only shrink the pending set. */
  lemma PendingShrinks(c1: Fragments, n1: seq<Node>, c2: Fragments, n2: seq<Node>)
    requires Drained(c1, c2) && Extends(n1, n2)
    ensures Pending(c2, n2) <= Pending(c1, n1)
  {
    ExtendsNames(n1, n2);
  }

  /** `rest` is what is left of `content`: some fragments are gone, the
      others are unchanged. */
  ghost predicate Drained(content: Fragments, rest: Fragments)
  {
    forall k :: k in rest.lines ==> k in content.lines && rest.lines[k] == content.lines[k]
  }

  /** The name of every non-blank line of `lines` is among `names`. */
  ghost predicate LinesNamed(lines: seq<string>, names: seq<string>)
  {
    forall j :: 0 <= j < |lines| && !Blank(lines[j]) ==> LineName(lines[j]) in names
  }

  /** Every fragment drained from `content` to leave `rest` is registered:
      its own name and the name of each of its non-blank lines are among
      `names`. */
  ghost predicate DrainedNamed(content: Fragments, rest: Fragments, names: seq<string>)
  {
    forall k :: k in content.lines && k !in rest.lines ==> k in names && LinesNamed(content.lines[k], names)
  }

  /** Draining in two steps, with the registry only growing in between,
      registers everything drained in total. */
  lemma DrainedNamedSteps(a: Fragments, b: Fragments, c: Fragments, n1: seq<string>, n2: seq<string>)
    requires Drained(a, b) && DrainedNamed(a, b, n1) && DrainedNamed(b, c, n2)
    requires forall x :: x in n1 ==> x in n2
    ensures DrainedNamed(a, c, n2)
  {
    forall k | k in a.lines && k !in c.lines
      ensures k in n2 && LinesNamed(a.lines[k], n2)
    {
      if k in b.lines {
        assert b.lines[k] == a.lines[k];
      } else {
        assert LinesNamed(a.lines[k], n1);
      }
    }
  }

  /** The names the non-blank lines of `lines` stand for. */
  ghost function LineNames(lines: seq<string>): set<string>
  {
    set j | 0 <= j < |lines| && !Blank(lines[j]) :: LineName(lines[j])
  }

  /** The names the fragments drained from `content` to leave `rest` can
      give nodes: each such fragment's own name and its lines' names. */
  ghost function DrainedNames(content: Fragments, rest: Fragments): set<string>
  {
    (set k | k in content.lines && k !in rest.lines) +
    (set k, x | k in content.lines && k !in rest.lines && x in LineNames(content.lines[k]) :: x)
  }

  /** No name other than `extra` and those of `before` is in `after`. */
  ghost predicate NamesFrom(before: seq<Node>, after: seq<Node>, extra: set<string>)
  {
    forall x :: x in Names(after) ==> x in Names(before) || x in extra
  }

  /** Names drawn from `e1`, then from `e2`, are drawn from any set holding both. */
  lemma NamesFromSteps(a: seq<Node>, b: seq<Node>, c: seq<Node>, e1: set<string>, e2: set<string>, e: set<string>)
    requires NamesFrom(a, b, e1) && NamesFrom(b, c, e2) && e1 <= e && e2 <= e
    ensures NamesFrom(a, c, e)
  {
  }

  /** Draining in two steps drains, in total, the names of both steps. */
  lemma DrainedNamesSteps(a: Fragments, b: Fragments, c: Fragments)
    requires Drained(a, b) && Drained(b, c)
    ensures DrainedNames(a, b) <= DrainedNames(a, c)
    ensures DrainedNames(b, c) <= DrainedNames(a, c)
  {
    forall x | x in DrainedNames(b, c) ensures x in DrainedNames(a, c) {
      if k :| k in b.lines && k !in c.lines && x in LineNames(b.lines[k]) {
        assert a.lines[k] == b.lines[k];
      }
    }
  }

  /** Deleting a fragment drains its own name and its lines' names. */
  lemma DrainedNamesDelete(content: Fragments, rest: Fragments, key: string)
    requires rest.Wf() && Drained(content, rest) && key in rest.lines
    ensures DrainedNames(content, rest) <= DrainedNames(content, rest.Delete(key))
    ensures key in DrainedNames(content, rest.Delete(key))
    ensures LineNames(rest.lines[key]) <= DrainedNames(content, rest.Delete(key))
  {
    var after := rest.Delete(key);
    forall x | x in LineNames(rest.lines[key]) ensures x in DrainedNames(content, after) {
      assert content.lines[key] == rest.lines[key];
    }
  }

  /** The registry holds exactly the drained names when every drained name
      is registered and every registered name was drained. */
  lemma DrainedNamesAreRegistered(content: Fragments, rest: Fragments, nodes: seq<Node>)
    requires DrainedNamed(content, rest, Names(nodes))
    ensures forall x :: x in DrainedNames(content, rest) ==> x in Names(nodes)
  {
    forall x | x in DrainedNames(content, rest) ensures x in Names(nodes) {
      if k :| k in content.lines && k !in rest.lines && x in LineNames(content.lines[k]) {
        assert LinesNamed(content.lines[k], Names(nodes));
      }
    }
  }

  /** The lines named so far stay named as the registry grows and the next
      line's name joins it. */
  lemma LinesNamedStep(lines: seq<string>, i: nat, n1: seq<string>, n2: seq<string>)
    requires i < |lines|
    requires forall j :: 0 <= j < i && !Blank(lines[j]) ==> LineName(lines[j]) in n1
    requires forall x :: x in n1 ==> x in n2
    requires !Blank(lines[i]) ==> LineName(lines[i]) in n2
    ensures forall j :: 0 <= j < i + 1 && !Blank(lines[j]) ==> LineName(lines[j]) in n2
  {
  }

  /** One line read: the names drawn so far, with the line's own and those it
      drained, are still drawn from the outline's lines and what is drained. */
  lemma ReadStepNames(lines: seq<string>, i: nat, content: Fragments, mid: Fragments, rest: Fragments,
                      a: seq<Node>, b: seq<Node>, c: seq<Node>)
    requires i < |lines| && Drained(content, mid) && Drained(mid, rest)
    requires NamesFrom(a, b, LineNames(lines) + DrainedNames(content, mid))
    requires NamesFrom(b, c, LineNames([lines[i]]) + DrainedNames(mid, rest))
    ensures NamesFrom(a, c, LineNames(lines) + DrainedNames(content, rest))
  {
    DrainedNamesSteps(content, mid, rest);
    forall x | x in LineNames([lines[i]]) ensures x in LineNames(lines) {
      assert [lines[i]][0] == lines[i];
    }
    NamesFromSteps(a, b, c, LineNames(lines) + DrainedNames(content, mid), LineNames([lines[i]]) + DrainedNames(mid, rest),
                   LineNames(lines) + DrainedNames(content, rest));
  }

  /** The names an outline of fragments can give nodes: every fragment's own
      name and the names of all its non-blank lines. */
  ghost function OutlineNames(content: Fragments): set<string>
  {
    DrainedNames(content, Fragments([], map[]))
  }

  /** Once every fragment is drained, the drained names are the outline's. */
  lemma AllDrained(content: Fragments, rest: Fragments)
    requires rest.lines == map[]
    ensures DrainedNames(content, rest) == OutlineNames(content)
  {
  }

  /** A single outline filed as "root" names the trunk and its lines. */
  lemma SingleOutlineNames(lines: seq<string>)
    ensures OutlineNames(Fragments([RootKey], map[RootKey := lines])) == {RootKey} + LineNames(lines)
  {
    var content := Fragments([RootKey], map[RootKey := lines]);
    assert content.lines[RootKey] == lines;
  }

  /** Some line of a single outline is non-blank and names something other
      than "root": the builder, as written, reaches the ancestor mapping of
      that line with the frozen literal on the stack. */
  function ReachesFrozenRoot(lines: seq<string>): (b: bool)
    ensures b <==> exists k :: 0 <= k < |lines| && NewName(lines[k], [RootKey])
  {
    if lines == [] then false
    else
      assert forall k :: 1 <= k < |lines| ==> lines[k] == lines[1..][k - 1];
      NewName(lines[0], [RootKey]) || ReachesFrozenRoot(lines[1..])
  }

  /** An outline that does not reach the frozen literal names nothing but
      "root" in its non-blank lines. */
  lemma FrozenRootFree(lines: seq<string>)
    requires !ReachesFrozenRoot(lines)
    ensures LineNames(lines) <= {RootKey}
  {
  }

  /** One line naming anything but "root" is enough to raise. */
  lemma FrozenRootRaises()
    ensures ReachesFrozenRoot(["a"])
  {
    var line := "a";
    assert LeadingWhitespace(line) == [];
    assert Unindented(line) == line;
    assert FirstTwo(line) == line;
    PlainNameIsRaw(line);
    assert NewName(["a"][0], [RootKey]);
  }

  /** A non-blank line stands for its own name only. */
  lemma LineNamesOne(line: string)
    ensures !Blank(line) ==> LineNames([line]) == {LineName(line)}
  {
    assert [line][0] == line;
  }

  /** A fragment read to its end and then deleted: its own name, registered
      before, and its lines' names are drained, and so is everything its
      lines drained. */
  lemma ReadNames(key: string, content: Fragments, rest: Fragments, a: seq<Node>, b: seq<Node>)
    requires rest.Wf() && Drained(content, rest) && key in rest.lines
    requires key in Names(b) && LinesNamed(content.lines[key], Names(b)) && DrainedNamed(content, rest, Names(b))
    requires NamesFrom(a, b, LineNames(content.lines[key]) + DrainedNames(content, rest))
    ensures NamesFrom(a, b, DrainedNames(content, rest.Delete(key)))
    ensures DrainedNamed(content, rest.Delete(key), Names(b))
  {
    DrainedNamesDelete(content, rest, key);
  }

  /** A fragment whose own name was registered just before it was read and
      drained: every name it brought in is drained. */
  lemma BuildNames(key: string, content: Fragments, rest: Fragments, a: seq<Node>, b: seq<Node>, c: seq<Node>)
    requires key in DrainedNames(content, rest)
    requires Names(b) == Names(a) + [key]
    requires NamesFrom(b, c, DrainedNames(content, rest))
    ensures NamesFrom(a, c, DrainedNames(content, rest))
  {
    assert NamesFrom(a, b, {key});
    NamesFromSteps(a, b, c, {key}, DrainedNames(content, rest), DrainedNames(content, rest));
  }

  /** No children list has a repeat, and the petiole map has exactly one key
      per registered node. */
  ghost predicate Registered(nodes: seq<Node>, petioleMap: map<string, string>)
  {
    ChildrenDistinct(nodes) && forall x :: x in petioleMap <==> x in Names(nodes)
  }

  /** `add_branch` (and `add_root`, which is `add_branch` with no titles as
      far as the node list goes) keeps the registry well formed, and keeps
      names unique when the new name is fresh. */
  lemma BranchKeepsRegistered(nodes: seq<Node>, petioleMap: map<string, string>, text: string, titles: seq<string>, fname: string)
    requires Registered(nodes, petioleMap)
    ensures Registered(Branch(nodes, text, titles), petioleMap[text := fname])
    ensures Distinct(Names(nodes)) && text !in Names(nodes) ==> Distinct(Names(Branch(nodes, text, titles)))
  {
    BranchShape(nodes, text, titles);
    if Distinct(Names(nodes)) && text !in Names(nodes) {
      DistinctAppend(Names(nodes), text);
    }
  }

  class Tree {
    var chunkSize: int
    var levelMax: int
    var duplicates: seq<string>
    var nodes: seq<Node>
    var petioleMap: map<string, string>
    var root: string
    var trunk: seq<string>
    const virtualTrunk: bool

    /** The chunk is usable as a divisor, no children list has a repeat, the
        petiole map has exactly one key per registered node, and, while names
        are unique, every node's ancestor chain is linked. */
    ghost predicate Valid()
      reads this
    {
      ChunkOk(chunkSize) && Registered(nodes, petioleMap) && (UniqueNames() ==> ChainsLinked(nodes))
    }

    /** Node names are pairwise distinct. */
    predicate UniqueNames()
      reads this
    {
      Distinct(Names(nodes))
    }

    /** The defaults `initialize` sets before it reads any content. */
    constructor (virtualTrunk: bool)
      ensures this.virtualTrunk == virtualTrunk
      ensures chunkSize == Uncalibrated && levelMax == -1
      ensures duplicates == [] && nodes == [] && petioleMap == map[] && root == "" && trunk == []
      ensures Valid() && UniqueNames()
    {
      chunkSize := Uncalibrated;
      levelMax := -1;
      duplicates := [];
      this.virtualTrunk := virtualTrunk;
      nodes := [];
      petioleMap := map[];
      root := "";
      trunk := [];
    }

    /** `in_tree?`: some node carries the name. */
    function InTree(fname: string): (b: bool)
      reads this
      ensures b <==> exists i :: 0 <= i < |nodes| && nodes[i].text == fname
    {
      fname in Names(nodes)
    }

    /** The lookup of `find_doc_ancestors_and_children_metadata`: the
        ancestors and children of the first node with the name; `None` where
        the source fails on a missing node. */
    function FindDocAncestorsAndChildren(fname: string): (r: Option<(seq<string>, seq<string>)>)
      reads this
      ensures r.None? <==> !InTree(fname)
      ensures r.Some? ==>
        exists i :: 0 <= i < |nodes| && nodes[i].text == fname &&
          r.value == (nodes[i].ancestors, nodes[i].children) &&
          forall j :: 0 <= j < i ==> nodes[j].text != fname
    {
      match FindIndex(nodes, fname)
      case None => None
      case Some(i) => Some((nodes[i].ancestors, nodes[i].children))
    }

    /** `add_root`: the name becomes the root and gets a node with no
        ancestors and no children, filed under itself. */
    method AddRoot(text: string)
      requires Valid()
      modifies this`root, this`nodes, this`petioleMap
      ensures root == text
      ensures nodes == old(nodes) + [NewNode(text, [])]
      ensures petioleMap == old(petioleMap)[text := text]
      ensures Valid()
      ensures old(UniqueNames()) && text !in Names(old(nodes)) ==> UniqueNames()
    {
      root := text;
      nodes := nodes + [NewNode(text, [])];
      petioleMap := petioleMap[text := text];
      BranchKeepsRegistered(old(nodes), old(petioleMap), text, [], text);
      BranchKeepsChainsLinked(old(nodes), text, []);
    }

    /** `add_branch`: each title in the chain `ancestryTitles + [text]` gets
        the next name as a child unless it already has it, then the new node
        is appended and filed under `trnkFname` (the node's own name when
        omitted). */
    method AddBranch(text: string, ancestryTitles: seq<string>, trnkFname: Option<string>)
      requires Valid()
      modifies this`nodes, this`petioleMap
      ensures nodes == Branch(old(nodes), text, ancestryTitles)
      ensures petioleMap == old(petioleMap)[text := if trnkFname.Some? then trnkFname.value else text]
      ensures Valid()
      ensures old(UniqueNames()) && text !in Names(old(nodes)) ==> UniqueNames()
    {
      var fname := if trnkFname.Some? then trnkFname.value else text;
      var linked := LinkAncestry(nodes, text, ancestryTitles);
      BranchKeepsRegistered(nodes, petioleMap, text, ancestryTitles, fname);
      BranchKeepsChainsLinked(nodes, text, ancestryTitles);
      nodes := linked + [NewNode(text, ancestryTitles)];
      petioleMap := petioleMap[text := fname];
    }

    /** `clear`: no root, no nodes, no petioles, no duplicates; the chunk and
        the deepest level stay. */
    method Clear()
      requires Valid()
      modifies this`root, this`nodes, this`petioleMap, this`duplicates
      ensures root == "" && nodes == [] && petioleMap == map[] && duplicates == []
      ensures Valid() && UniqueNames()
    {
      root := "";
      nodes := [];
      petioleMap := map[];
      duplicates := [];
    }

    /** `set_units`: scans the lines once, calibrating the chunk from the
        first indentation while it is negative and tracking the deepest level. */
    method SetUnits(lines: seq<string>)
      requires ChunkOk(chunkSize)
      modifies this`chunkSize, this`levelMax
      ensures chunkSize == ChunkAfter(old(chunkSize), lines)
      ensures levelMax == LevelMaxAfter(old(chunkSize), old(levelMax), lines)
    {
      var k := 0;
      while k < |lines|
        invariant 0 <= k <= |lines|
        invariant chunkSize == ChunkAfter(old(chunkSize), lines[..k])
        invariant levelMax == LevelMaxAfter(old(chunkSize), old(levelMax), lines[..k])
      {
        var ws := LeadingWhitespace(lines[k]);
        if chunkSize < 0 {
          chunkSize := DefineLevelSize(ws);
        }
        var level := Level(|ws|, chunkSize);
        levelMax := if level > levelMax then level else levelMax;
        assert lines[..k + 1][..k] == lines[..k];
        k := k + 1;
      }
      assert lines[..|lines|] == lines;
    }

    /** The end of `build_tree`: the fragment is consumed; an outermost
        virtual call with fragments left reports them; once every fragment is
        consumed, duplicates clear the tree and are reported, otherwise a copy
        of the nodes is returned. */
    method Finish(curKey: string, content: Fragments, totalLevel: int) returns (r: Outcome, rest: Fragments)
      requires Valid() && UniqueNames() && content.Wf()
      modifies this`root, this`nodes, this`petioleMap, this`duplicates
      ensures rest == content.Delete(curKey)
      ensures Valid() && UniqueNames()
      ensures rest.lines != map[] ==>
        r == (if totalLevel == 0 then NotProcessed(rest.order) else Nothing) &&
        nodes == old(nodes) && root == old(root) && petioleMap == old(petioleMap) && duplicates == old(duplicates)
      ensures rest.lines != map[] ==> rest.order != []
      ensures rest.lines == map[] && old(duplicates) != [] ==>
        r == DuplicateNodes(Uniq(old(duplicates))) && r.names != [] &&
        root == "" && nodes == [] && petioleMap == map[] && duplicates == []
      ensures rest.lines == map[] && old(duplicates) == [] ==>
        r == Built(nodes) && nodes == old(nodes) && root == old(root) && petioleMap == old(petioleMap) && duplicates == []
    {
      rest := content.Delete(curKey);
      if rest.lines != map[] {
        var k :| k in rest.lines;
        assert k in rest.order;
        if totalLevel == 0 {
          return NotProcessed(rest.order), rest;
        }
        return Nothing, rest;
      }
      if duplicates != [] {
        var names := Uniq(duplicates);
        assert duplicates[0] in names;
        Clear();
        return DuplicateNodes(names), rest;
      }
      return Built(nodes), rest;
    }

    /** A line that names a waiting fragment: the stack is recomputed for the
        line's level and the fragment is built on a copy of it, entered at
        `nestedLevel`. The fragment's own result is dropped; a raised failure
        propagates. */
    method StitchLine(curKey: string, name: string, content: Fragments, ancestors: seq<Entry>, level: int, nestedLevel: int, fuel: nat)
      returns (failure: Option<Failure>, rest: Fragments, stack: seq<Entry>)
      requires Valid() && UniqueNames() && chunkSize >= 1
      requires content.Wf() && name in content.lines && name !in Names(nodes)
      requires nestedLevel >= 1
      requires !virtualTrunk ==> curKey in content.lines && curKey in Names(nodes)
      modifies this`chunkSize, this`duplicates, this`nodes, this`petioleMap, this`root, this`trunk
      decreases fuel, 0, 0
      ensures Valid() && UniqueNames() && chunkSize == old(chunkSize)
      ensures rest.Wf() && Drained(content, rest)
      ensures ancestors == [] ==>
        failure == Some(NoParent) && rest == content && stack == ancestors &&
        nodes == old(nodes) && duplicates == old(duplicates) && root == old(root) &&
        petioleMap == old(petioleMap) && trunk == old(trunk)
      ensures ancestors != [] ==> stack == Ancestry(level, ancestors).value
      ensures failure.None? ==> name !in rest.lines
      ensures !virtualTrunk ==> Extends(old(nodes), nodes) && root == old(root)
      ensures !virtualTrunk ==> KeepsNamedKeys(content, Names(old(nodes)), rest)
      ensures !virtualTrunk ==> Pending(rest, nodes) <= Pending(content, old(nodes))
      ensures !virtualTrunk && ancestors != [] && failure.None? ==>
        |old(nodes)| < |nodes| && nodes[|old(nodes)|].text == name &&
        nodes[|old(nodes)|].ancestors == AncestorNames(stack)
      ensures !virtualTrunk && |Pending(content, old(nodes))| < fuel ==> failure != Some(TooDeep)
      ensures failure.Some? ==> failure.value == NoParent || failure.value == TooDeep
      ensures !virtualTrunk ==> DrainedNamed(content, rest, Names(nodes))
      ensures !virtualTrunk && failure.None? ==> NamesFrom(old(nodes), nodes, DrainedNames(content, rest))
    {
      var parents := CalcAncestry(level, ancestors);
      if parents.None? {
        return Some(NoParent), content, ancestors;
      }
      stack := parents.value;
      if fuel == 0 {
        return Some(TooDeep), content, stack;
      }
      var r;
      r, rest := BuildTree(name, content, stack, nestedLevel, fuel - 1);
      failure := if r.Raised? then Some(r.failure) else None;
      if !virtualTrunk {
        assert curKey in rest.lines;
      }
    }

    /** An ordinary entry line: the stack is recomputed for the line's level,
        the node is registered under the stack's names and filed under the
        current fragment, and it is pushed. */
    method BranchLine(curKey: string, name: string, ancestors: seq<Entry>, level: int)
      returns (failure: Option<Failure>, stack: seq<Entry>)
      requires Valid()
      modifies this`nodes, this`petioleMap
      ensures Valid()
      ensures old(UniqueNames()) && name !in Names(old(nodes)) ==> UniqueNames()
      ensures ancestors == [] ==> failure == Some(NoParent) && stack == ancestors && nodes == old(nodes) && petioleMap == old(petioleMap)
      ensures ancestors != [] ==>
        var parents := Ancestry(level, ancestors).value;
        failure.None? && stack == parents + [Entry(name, level)] &&
        nodes == Branch(old(nodes), name, AncestorNames(parents)) &&
        petioleMap == old(petioleMap)[name := curKey]
    {
      var parents := CalcAncestry(level, ancestors);
      if parents.None? {
        return Some(NoParent), ancestors;
      }
      var titles := AncestorNames(parents.value);
      stack := parents.value + [Entry(name, level)];
      AddBranch(name, titles, Some(curKey));
      failure := None;
    }

    /** The rest of an iteration for a line with a new name `name` (from
        the text `text`) at depth `level`: the first line of an outermost
        virtual fragment becomes the root; a name of a waiting fragment is
        stitched in; any other line becomes an ordinary node. */
    method PlaceLine(curKey: string, content: Fragments, ancestors: seq<Entry>, totalLevel: int, i: nat,
                     text: string, name: string, level: int, nestedLevel: int, fuel: nat)
      returns (failure: Option<Failure>, rest: Fragments, stack: seq<Entry>)
      requires Valid() && UniqueNames() && content.Wf() && chunkSize >= 1 && nestedLevel >= 1
      requires name !in Names(nodes)
      requires !virtualTrunk ==> totalLevel >= 1 && curKey in content.lines && curKey in Names(nodes)
      modifies this`chunkSize, this`duplicates, this`nodes, this`petioleMap, this`root, this`trunk
      decreases fuel, 1, 0
      ensures Valid() && UniqueNames() && chunkSize == old(chunkSize)
      ensures rest.Wf() && Drained(content, rest)
      ensures !virtualTrunk ==> Extends(old(nodes), nodes) && root == old(root)
      ensures !virtualTrunk ==> KeepsNamedKeys(content, Names(old(nodes)), rest)
      ensures !virtualTrunk ==> Pending(rest, nodes) <= Pending(content, old(nodes))
      ensures !virtualTrunk && |Pending(content, old(nodes))| < fuel ==> failure != Some(TooDeep)
      ensures failure.Some? ==> failure.value == NoParent || failure.value == TooDeep
      ensures !virtualTrunk ==> DrainedNamed(content, rest, Names(nodes))
      ensures !virtualTrunk && failure.None? ==> name in Names(nodes)
      ensures !virtualTrunk && failure.None? ==> NamesFrom(old(nodes), nodes, {name} + DrainedNames(content, rest))
      ensures (forall k :: k in content.lines ==> k == curKey) ==> trunk == old(trunk)
      ensures totalLevel == 0 && i == 0 ==>
        failure.None? && rest == content && stack == ancestors + [Entry(text, level)] &&
        root == name && nodes == old(nodes) + [NewNode(name, [])] &&
        petioleMap == old(petioleMap)[name := name] && duplicates == old(duplicates) && trunk == old(trunk)
      ensures !(totalLevel == 0 && i == 0) && ancestors == [] ==>
        failure == Some(NoParent) && rest == content && stack == ancestors &&
        nodes == old(nodes) && duplicates == old(duplicates) && root == old(root) && petioleMap == old(petioleMap)
      ensures !(totalLevel == 0 && i == 0) && ancestors != [] && name != curKey && name in content.lines ==>
        stack == Ancestry(level, ancestors).value &&
        (failure.None? ==> name !in rest.lines) &&
        (!virtualTrunk && failure.None? ==>
          |old(nodes)| < |nodes| && nodes[|old(nodes)|].text == name &&
          nodes[|old(nodes)|].ancestors == AncestorNames(stack))
      ensures !(totalLevel == 0 && i == 0) && ancestors != [] && !(name != curKey && name in content.lines) ==>
        var parents := Ancestry(level, ancestors).value;
        failure.None? && rest == content && stack == parents + [Entry(name, level)] &&
        nodes == Branch(old(nodes), name, AncestorNames(parents)) &&
        petioleMap == old(petioleMap)[name := curKey] &&
        root == old(root) && duplicates == old(duplicates) && trunk == old(trunk)
    {
      if totalLevel == 0 && i == 0 {
        AddRoot(name);
        return None, content, ancestors + [Entry(text, level)];
      }
      if curKey != name && name in content.lines {
        failure, rest, stack := StitchLine(curKey, name, content, ancestors, level, nestedLevel, fuel);
        return;
      }
      failure, stack := BranchLine(curKey, name, ancestors, level);
      rest := content;
      if ancestors != [] {
        BranchShape(old(nodes), name, AncestorNames(Ancestry(level, ancestors).value));
        PendingShrinks(content, old(nodes), rest, nodes);
      }
    }

    /** One iteration of `build_tree`'s loop over the lines of `curKey`: a
        blank line is skipped; a name already registered is recorded as a
        duplicate; otherwise the line's level is computed, the chunk is
        calibrated to 2 if it still is not, and the line is placed. */
    method ProcessLine(curKey: string, content: Fragments, ancestors: seq<Entry>, totalLevel: int, i: nat, line: string, fuel: nat)
      returns (failure: Option<Failure>, rest: Fragments, stack: seq<Entry>)
      requires Valid() && UniqueNames() && content.Wf() && totalLevel >= 0
      requires !virtualTrunk ==> totalLevel >= 1 && curKey in content.lines && curKey in Names(nodes)
      modifies this`chunkSize, this`duplicates, this`nodes, this`petioleMap, this`root, this`trunk
      decreases fuel, 2, 0
      ensures Valid() && UniqueNames()
      ensures rest.Wf() && Drained(content, rest)
      ensures chunkSize == old(chunkSize) || (old(chunkSize) < 0 && chunkSize == 2)
      ensures !virtualTrunk ==> Extends(old(nodes), nodes) && root == old(root)
      ensures !virtualTrunk ==> KeepsNamedKeys(content, Names(old(nodes)), rest)
      ensures !virtualTrunk ==> Pending(rest, nodes) <= Pending(content, old(nodes))
      ensures !virtualTrunk && |Pending(content, old(nodes))| < fuel ==> failure != Some(TooDeep)
      ensures failure.Some? ==> failure.value == NoParent || failure.value == TooDeep
      ensures !virtualTrunk ==> DrainedNamed(content, rest, Names(nodes))
      ensures !virtualTrunk && failure.None? && !Blank(line) ==> LineName(line) in Names(nodes)
      ensures !virtualTrunk && failure.None? ==>
        NamesFrom(old(nodes), nodes, LineNames([line]) + DrainedNames(content, rest))
      ensures (forall k :: k in content.lines ==> k == curKey) ==> trunk == old(trunk)
      // a blank line changes nothing
      ensures Blank(line) ==>
        failure.None? && rest == content && stack == ancestors &&
        nodes == old(nodes) && duplicates == old(duplicates) && chunkSize == old(chunkSize) &&
        root == old(root) && petioleMap == old(petioleMap) && trunk == old(trunk)
      // a registered name is only recorded as a duplicate
      ensures !Blank(line) && LineName(line) in Names(old(nodes)) ==>
        failure.None? && rest == content && stack == ancestors &&
        nodes == old(nodes) && duplicates == old(duplicates) + [LineName(line)] && chunkSize == old(chunkSize) &&
        root == old(root) && petioleMap == old(petioleMap) && trunk == old(trunk)
      ensures NewName(line, Names(old(nodes))) ==>
        chunkSize == if old(chunkSize) < 0 then 2 else old(chunkSize)
      // the root line
      ensures NewName(line, Names(old(nodes))) && totalLevel == 0 && i == 0 ==>
        failure.None? && rest == content &&
        stack == ancestors + [Entry(Unindented(line), LineLevel(line, old(chunkSize), totalLevel))] &&
        root == LineName(line) && nodes == old(nodes) + [NewNode(LineName(line), [])] &&
        petioleMap == old(petioleMap)[LineName(line) := LineName(line)] &&
        duplicates == old(duplicates) && trunk == old(trunk)
      // any other line needs a parent on the stack
      ensures NewName(line, Names(old(nodes))) && !(totalLevel == 0 && i == 0) && ancestors == [] ==>
        failure == Some(NoParent) && rest == content && stack == ancestors &&
        nodes == old(nodes) && duplicates == old(duplicates) && root == old(root) && petioleMap == old(petioleMap)
      // a link to a waiting fragment: the fragment is consumed on the recomputed stack
      ensures (NewName(line, Names(old(nodes))) && !(totalLevel == 0 && i == 0) && ancestors != [] &&
               Stitches(line, curKey, content)) ==>
        stack == Ancestry(LineLevel(line, old(chunkSize), totalLevel), ancestors).value &&
        (failure.None? ==> LineName(line) !in rest.lines) &&
        (!virtualTrunk && failure.None? ==>
          |old(nodes)| < |nodes| && nodes[|old(nodes)|].text == LineName(line) &&
          nodes[|old(nodes)|].ancestors == AncestorNames(stack))
      // an ordinary node: registered under the recomputed stack, then pushed
      ensures (NewName(line, Names(old(nodes))) && !(totalLevel == 0 && i == 0) && ancestors != [] &&
               !Stitches(line, curKey, content)) ==>
        var level := LineLevel(line, old(chunkSize), totalLevel);
        var parents := Ancestry(level, ancestors).value;
        failure.None? && rest == content && stack == parents + [Entry(LineName(line), level)] &&
        nodes == Branch(old(nodes), LineName(line), AncestorNames(parents)) &&
        petioleMap == old(petioleMap)[LineName(line) := curKey] &&
        root == old(root) && duplicates == old(duplicates) && trunk == old(trunk)
    {
      var text := Unindented(line);
      if text == [] {
        return None, content, ancestors;
      }
      var name := RawText(text);
      if name in Names(nodes) {
        duplicates := duplicates + [name];
        return None, content, ancestors;
      }
      var size := WhitespaceSize(LeadingWhitespace(line));
      var level := Level(size, chunkSize) + totalLevel;
      assert level == LineLevel(line, old(chunkSize), totalLevel);
      assert name == LineName(line) && NewName(line, Names(old(nodes)));
      assert Stitches(line, curKey, content) <==> name != curKey && name in content.lines;
      if chunkSize < 0 {
        chunkSize := 2;
      }
      LineNamesOne(line);
      failure, rest, stack := PlaceLine(curKey, content, ancestors, totalLevel, i, text, name, level, Level(size, chunkSize), fuel);
    }

    /** One iteration of `build_tree`'s loop as the loop itself relies on it:
        whichever case the line falls in, what it keeps, what it drains and
        what it registers. */
    method NextLine(curKey: string, content: Fragments, ancestors: seq<Entry>, level: int, i: nat, line: string, fuel: nat)
      returns (failure: Option<Failure>, rest: Fragments, stack: seq<Entry>)
      requires Valid() && UniqueNames() && content.Wf() && level >= 0
      requires !virtualTrunk ==> level >= 1 && curKey in content.lines && curKey in Names(nodes)
      modifies this`chunkSize, this`duplicates, this`nodes, this`petioleMap, this`root, this`trunk
      decreases fuel, 2, 1
      ensures Valid() && UniqueNames()
      ensures rest.Wf() && Drained(content, rest)
      ensures chunkSize == old(chunkSize) || (old(chunkSize) < 0 && chunkSize == 2)
      ensures (forall k :: k in content.lines ==> k == curKey) ==> trunk == old(trunk)
      ensures !virtualTrunk ==>
        Extends(old(nodes), nodes) && root == old(root) &&
        KeepsNamedKeys(content, Names(old(nodes)), rest) && Pending(rest, nodes) <= Pending(content, old(nodes))
      ensures !virtualTrunk && |Pending(content, old(nodes))| < fuel ==> failure != Some(TooDeep)
      ensures failure.Some? ==> failure.value == NoParent || failure.value == TooDeep
      ensures !virtualTrunk ==> DrainedNamed(content, rest, Names(nodes))
      ensures !virtualTrunk && failure.None? && !Blank(line) ==> LineName(line) in Names(nodes)
      ensures !virtualTrunk && failure.None? ==>
        NamesFrom(old(nodes), nodes, LineNames([line]) + DrainedNames(content, rest))
    {
      failure, rest, stack := ProcessLine(curKey, content, ancestors, level, i, line, fuel);
    }

    /** The head of `build_tree` when the trunk is not virtual: the
        fragment's own name becomes the root (at level 0) or a branch under
        the names of the stack, and is pushed at `totalLevel`. */
    method Register(curKey: string, ancestors: seq<Entry>, totalLevel: int) returns (stack: seq<Entry>)
      requires Valid() && UniqueNames() && curKey !in Names(nodes)
      modifies this`nodes, this`petioleMap, this`root
      ensures Valid() && UniqueNames()
      ensures totalLevel == 0 ==>
        nodes == old(nodes) + [NewNode(curKey, [])] && root == curKey && petioleMap == old(petioleMap)[curKey := curKey]
      ensures totalLevel != 0 ==>
        nodes == Branch(old(nodes), curKey, AncestorNames(ancestors)) && root == old(root) &&
        petioleMap == old(petioleMap)[curKey := curKey]
      ensures stack == ancestors + [Entry(curKey, totalLevel)]
      ensures Extends(old(nodes), nodes) && Names(nodes) == Names(old(nodes)) + [curKey]
    {
      var titles := AncestorNames(ancestors);
      if totalLevel == 0 {
        AddRoot(curKey);
        BranchShape(old(nodes), curKey, []);
      } else {
        AddBranch(curKey, titles, None);
        BranchShape(old(nodes), curKey, titles);
      }
      stack := ancestors + [Entry(curKey, totalLevel)];
    }

    /** The loop of `build_tree` over the lines of `curKey`, stopping at the
        first failure a line raises. */
    method ReadLines(curKey: string, content: Fragments, lines: seq<string>, ancestors: seq<Entry>, level: int, fuel: nat)
      returns (failure: Option<Failure>, rest: Fragments)
      requires Valid() && UniqueNames() && content.Wf() && level >= 0
      requires !virtualTrunk ==> level >= 1 && curKey in content.lines && curKey in Names(nodes)
      modifies this`chunkSize, this`duplicates, this`nodes, this`petioleMap, this`root, this`trunk
      decreases fuel, 2, |lines| + 1
      ensures Valid() && UniqueNames()
      ensures rest.Wf() && Drained(content, rest)
      ensures chunkSize == old(chunkSize) || (old(chunkSize) < 0 && chunkSize == 2)
      ensures (forall k :: k in content.lines ==> k == curKey) ==> trunk == old(trunk)
      ensures !virtualTrunk ==>
        Extends(old(nodes), nodes) && root == old(root) &&
        KeepsNamedKeys(content, Names(old(nodes)), rest) && Pending(rest, nodes) <= Pending(content, old(nodes))
      ensures !virtualTrunk && |Pending(content, old(nodes))| < fuel ==> failure != Some(TooDeep)
      ensures failure.Some? ==> failure.value == NoParent || failure.value == TooDeep
      ensures !virtualTrunk ==> DrainedNamed(content, rest, Names(nodes))
      ensures !virtualTrunk && failure.None? ==> LinesNamed(lines, Names(nodes))
      ensures !virtualTrunk && failure.None? ==> NamesFrom(old(nodes), nodes, LineNames(lines) + DrainedNames(content, rest))
    {
      var stack := ancestors;
      rest := content;
      var i := 0;
      while i < |lines|
        invariant 0 <= i <= |lines|
        invariant Valid() && UniqueNames()
        invariant rest.Wf() && Drained(content, rest)
        invariant chunkSize == old(chunkSize) || (old(chunkSize) < 0 && chunkSize == 2)
        invariant (forall k :: k in content.lines ==> k == curKey) ==> trunk == old(trunk)
        invariant !virtualTrunk ==>
          Extends(old(nodes), nodes) && root == old(root) &&
          KeepsNamedKeys(content, Names(old(nodes)), rest) && Pending(rest, nodes) <= Pending(content, old(nodes))
        invariant !virtualTrunk ==>
          DrainedNamed(content, rest, Names(nodes)) &&
          forall j :: 0 <= j < i && !Blank(lines[j]) ==> LineName(lines[j]) in Names(nodes)
        invariant !virtualTrunk ==> NamesFrom(old(nodes), nodes, LineNames(lines) + DrainedNames(content, rest))
      {
        if !virtualTrunk {
          ExtendsNames(old(nodes), nodes);
          if |Pending(content, old(nodes))| < fuel {
            SubsetCard(Pending(rest, nodes), Pending(content, old(nodes)));
          }
        }
        ghost var before := nodes;
        ghost var restBefore := rest;
        failure, rest, stack := NextLine(curKey, rest, stack, level, i, lines[i], fuel);
        if !virtualTrunk {
          ExtendsTransitive(old(nodes), before, nodes);
          ExtendsNames(before, nodes);
          forall k | k in content.lines && k in Names(old(nodes)) ensures k in rest.lines {
            assert k in restBefore.lines && k in Names(before);
          }
          DrainedNamedSteps(content, restBefore, rest, Names(before), Names(nodes));
          if failure.None? {
            LinesNamedStep(lines, i, Names(before), Names(nodes));
            ReadStepNames(lines, i, content, restBefore, rest, old(nodes), before, nodes);
          }
        }
        if failure.Some? {
          return;
        }
        i := i + 1;
      }
      failure := None;
    }

    /** `build_tree`: unless the trunk is virtual, the fragment's own name is
        registered and pushed; then its lines are read in order and the
        fragment is consumed. `fuel` bounds the fragment recursion; running
        out stands for the source's stack overflow, which only fragments that
        refer to each other in a virtual trunk can reach. */
    method BuildTree(curKey: string, content: Fragments, ancestors: seq<Entry>, totalLevel: int, fuel: nat)
      returns (r: Outcome, rest: Fragments)
      requires Valid() && UniqueNames()
      requires content.Wf() && curKey in content.lines && totalLevel >= 0
      requires !virtualTrunk ==> curKey !in Names(nodes)
      modifies this`chunkSize, this`duplicates, this`nodes, this`petioleMap, this`root, this`trunk
      decreases fuel, 3, 0
      ensures Valid() && UniqueNames()
      ensures rest.Wf() && Drained(content, rest)
      ensures !r.Raised? ==> curKey !in rest.lines
      ensures chunkSize == old(chunkSize) || (old(chunkSize) < 0 && chunkSize == 2)
      ensures (forall k :: k in content.lines ==> k == curKey) ==> trunk == content.order
      ensures !virtualTrunk ==> KeepsNamedKeys(content, Names(old(nodes)), rest)
      ensures !virtualTrunk ==> Pending(rest, nodes) <= Pending(content, old(nodes))
      ensures !virtualTrunk && |Pending(content, old(nodes))| <= fuel ==> r != Raised(TooDeep)
      ensures r.Raised? ==> r.failure == NoParent || r.failure == TooDeep
      ensures !virtualTrunk && !r.DuplicateNodes? ==> DrainedNamed(content, rest, Names(nodes))
      ensures !virtualTrunk && !r.Raised? ==> NamesFrom(old(nodes), nodes, DrainedNames(content, rest))
      ensures !virtualTrunk && !r.DuplicateNodes? ==>
        Extends(old(nodes), nodes) && |old(nodes)| < |nodes| && nodes[|old(nodes)|].text == curKey &&
        nodes[|old(nodes)|].ancestors == (if totalLevel == 0 then [] else AncestorNames(ancestors)) &&
        root == if totalLevel == 0 then curKey else old(root)
      ensures r.Built? ==> rest.lines == map[] && duplicates == [] && r.copy == nodes
      ensures r.DuplicateNodes? ==>
        rest.lines == map[] && nodes == [] && root == "" && petioleMap == map[] && duplicates == [] &&
        r.names != [] && Distinct(r.names)
      ensures r.NotProcessed? ==> virtualTrunk && totalLevel == 0 && r.keys == rest.order && r.keys != []
      ensures r.Nothing? ==> rest.lines != map[] && (virtualTrunk ==> totalLevel != 0)
    {
      trunk := content.order;
      var stack := ancestors;
      var level := totalLevel;
      if !virtualTrunk {
        stack := Register(curKey, ancestors, totalLevel);
        level := totalLevel + 1;
        PendingShrinks(content, old(nodes), content, nodes);
        assert curKey in Pending(content, old(nodes));
        assert Pending(content, nodes) <= Pending(content, old(nodes)) - {curKey};
        SubsetCard(Pending(content, nodes), Pending(content, old(nodes)) - {curKey});
        assert |Pending(content, nodes)| < |Pending(content, old(nodes))|;
      }
      ghost var registered := nodes;
      r, rest := ReadFragment(curKey, content, stack, level, fuel);
      if !virtualTrunk {
        PendingShrinks(content, old(nodes), content, registered);
        forall k | k in content.lines && k in Names(old(nodes)) ensures k in rest.lines {
          assert k in Names(registered) && k != curKey;
        }
        if !r.DuplicateNodes? {
          ExtendsTransitive(old(nodes), registered, nodes);
          assert nodes[|old(nodes)|].text == registered[|old(nodes)|].text;
          assert nodes[|old(nodes)|].ancestors == registered[|old(nodes)|].ancestors;
        }
        if !r.Raised? {
          BuildNames(curKey, content, rest, old(nodes), registered, nodes);
        }
      }
    }

    /** The body of `build_tree` after its head: the lines of `curKey` are
        read on the stack `ancestors` at depth `level`, stopping at a raised
        failure; then the fragment is consumed and the outcome decided. */
    method ReadFragment(curKey: string, content: Fragments, ancestors: seq<Entry>, level: int, fuel: nat)
      returns (r: Outcome, rest: Fragments)
      requires Valid() && UniqueNames()
      requires content.Wf() && curKey in content.lines && level >= 0
      requires !virtualTrunk ==> level >= 1 && curKey in Names(nodes)
      modifies this`chunkSize, this`duplicates, this`nodes, this`petioleMap, this`root, this`trunk
      decreases fuel, 2, |content.lines[curKey]| + 2
      ensures Valid() && UniqueNames()
      ensures rest.Wf() && Drained(content, rest)
      ensures !r.Raised? ==> curKey !in rest.lines
      ensures chunkSize == old(chunkSize) || (old(chunkSize) < 0 && chunkSize == 2)
      ensures (forall k :: k in content.lines ==> k == curKey) ==> trunk == old(trunk)
      ensures !virtualTrunk ==>
        forall k :: k in content.lines && k in Names(old(nodes)) && k != curKey ==> k in rest.lines
      ensures !virtualTrunk ==> Pending(rest, nodes) <= Pending(content, old(nodes))
      ensures !virtualTrunk && |Pending(content, old(nodes))| < fuel ==> r != Raised(TooDeep)
      ensures r.Raised? ==> r.failure == NoParent || r.failure == TooDeep
      ensures !virtualTrunk && !r.DuplicateNodes? ==> DrainedNamed(content, rest, Names(nodes))
      ensures !virtualTrunk && !r.Raised? ==> NamesFrom(old(nodes), nodes, DrainedNames(content, rest))
      ensures !virtualTrunk && !r.DuplicateNodes? ==> Extends(old(nodes), nodes) && root == old(root)
      ensures r.Built? ==> rest.lines == map[] && duplicates == [] && r.copy == nodes
      ensures r.DuplicateNodes? ==>
        rest.lines == map[] && nodes == [] && root == "" && petioleMap == map[] && duplicates == [] &&
        r.names != [] && Distinct(r.names)
      ensures r.NotProcessed? ==> level == 0 && r.keys == rest.order && r.keys != []
      ensures r.Nothing? ==> rest.lines != map[] && level != 0
    {
      var failure;
      failure, rest := ReadLines(curKey, content, content.lines[curKey], ancestors, level, fuel);
      if failure.Some? {
        return Raised(failure.value), rest;
      }
      ghost var read := nodes;
      ghost var restBefore := rest;
      if !virtualTrunk {
        assert curKey in rest.lines;
      }
      r, rest := Finish(curKey, rest, level);
      if !virtualTrunk {
        forall k | k in content.lines && k in Names(old(nodes)) && k != curKey ensures k in rest.lines {
          assert k in restBefore.lines;
        }
        if !r.DuplicateNodes? {
          PendingShrinks(restBefore, nodes, rest, nodes);
          ExtendsNames(old(nodes), nodes);
          ReadNames(curKey, content, restBefore, old(nodes), nodes);
        }
      }
    }

    /** The String branch of `initialize`, after its defaults: the outline
        is calibrated and built as the fragment "root". As written, with a
        non-virtual trunk that fragment's name is the frozen literal "root",
        and the first line that reaches the ancestor mapping edits it in
        place and raises; the registry then never holds more than the trunk. */
    method LoadOutline(lines: seq<string>) returns (r: Outcome)
      requires Valid() && UniqueNames()
      requires nodes == [] && duplicates == [] && chunkSize == Uncalibrated
      modifies this`chunkSize, this`levelMax, this`duplicates, this`nodes, this`petioleMap, this`root, this`trunk
      ensures Valid() && UniqueNames()
      ensures levelMax == LevelMaxAfter(Uncalibrated, old(levelMax), lines)
      ensures trunk == [RootKey]
      ensures r == Raised(Frozen) <==> !virtualTrunk && ReachesFrozenRoot(lines)
      ensures !virtualTrunk ==> r.Built? || r.DuplicateNodes? || r == Raised(Frozen) || r == Raised(NoParent)
      ensures !virtualTrunk && r.Built? ==>
        nodes != [] && root == RootKey && nodes[0].text == RootKey && nodes[0].ancestors == []
      ensures !virtualTrunk && r.Built? ==> forall x :: x in Names(nodes) <==> x == RootKey
    {
      var frozen := !virtualTrunk && ReachesFrozenRoot(lines);
      SetUnits(lines);
      if frozen {
        trunk := [RootKey];
        assert |Names(nodes)| == 0;
        AddRoot(RootKey);
        r := Raised(Frozen);
      } else {
        r := BuildOutline(lines);
        if !virtualTrunk && r.Built? {
          FrozenRootFree(lines);
        }
      }
    }

    /** The Hash branch of `initialize`, after its defaults: fragments are
        refused when the root fragment is missing; otherwise the tree is
        calibrated on the root fragment's lines, cleared, and the root
        fragment is built. Unless the trunk is virtual, a tree that builds
        holds exactly the names of the fragments and of their lines. */
    method LoadFragments(fragments: Fragments, rootName: string, fuel: nat) returns (r: Outcome)
      requires Valid() && UniqueNames()
      requires nodes == [] && duplicates == [] && chunkSize == Uncalibrated
      requires fragments.Wf()
      modifies this`chunkSize, this`levelMax, this`duplicates, this`nodes, this`petioleMap, this`root, this`trunk
      ensures Valid() && UniqueNames()
      ensures rootName !in fragments.lines ==>
        r == Raised(MissingRoot) && nodes == old(nodes) && chunkSize == old(chunkSize) && levelMax == old(levelMax)
      ensures rootName in fragments.lines ==>
        levelMax == LevelMaxAfter(Uncalibrated, old(levelMax), fragments.lines[rootName])
      ensures r.Raised? ==> r.failure != Frozen
      ensures !virtualTrunk && |fragments.lines| <= fuel ==> r != Raised(TooDeep)
      ensures !virtualTrunk && (r.Built? || r.Nothing?) ==>
        nodes != [] && nodes[0].text == root && nodes[0].ancestors == [] && root == rootName
      ensures !virtualTrunk && r.Built? ==> forall x :: x in Names(nodes) <==> x in OutlineNames(fragments)
    {
      if rootName !in fragments.lines {
        return Raised(MissingRoot);
      }
      SetUnits(fragments.lines[rootName]);
      Clear();
      var rest;
      r, rest := BuildTree(rootName, fragments, [], 0, fuel);
      SubsetCard(Pending(fragments, []), fragments.lines.Keys);
      if !virtualTrunk && r.Built? {
        AllDrained(fragments, rest);
        DrainedNamesAreRegistered(fragments, rest, nodes);
      }
    }

    /** A single outline built as the code evidently intends: filed as the
        fragment "root" under a name the builder may normalise like any
        other, so that every line is read. Unless the trunk is virtual the
        registry then holds the trunk and exactly the names of the lines. */
    method BuildOutline(lines: seq<string>) returns (r: Outcome)
      requires Valid() && UniqueNames() && nodes == [] && duplicates == []
      modifies this`chunkSize, this`duplicates, this`nodes, this`petioleMap, this`root, this`trunk
      ensures Valid() && UniqueNames()
      ensures trunk == [RootKey]
      ensures chunkSize == old(chunkSize) || (old(chunkSize) < 0 && chunkSize == 2)
      ensures r.Raised? ==> r.failure == NoParent || r.failure == TooDeep
      ensures !virtualTrunk ==> r.Built? || r.DuplicateNodes? || r == Raised(NoParent)
      ensures !virtualTrunk && r.Built? ==>
        nodes != [] && root == RootKey && nodes[0].text == RootKey && nodes[0].ancestors == []
      ensures !virtualTrunk && r.Built? ==> forall x :: x in Names(nodes) <==> x == RootKey || x in LineNames(lines)
    {
      var content := Fragments([RootKey], map[RootKey := lines]);
      var rest;
      r, rest := BuildTree(RootKey, content, [], 0, 1);
      assert Pending(content, []) <= {RootKey};
      SubsetCard(Pending(content, []), {RootKey});
      if !virtualTrunk && r.Built? {
        AllDrained(content, rest);
        SingleOutlineNames(lines);
        DrainedNamesAreRegistered(content, rest, nodes);
      }
    }

    /** The found branch of `get_all_lineage_ids`: appends to `descendents`
        the id of each child of `name` followed by that child's own
        descendants. */
    method Descend(name: string, descendents: seq<string>, ghost rank: map<string, nat>) returns (out: seq<string>)
      requires Walkable(nodes, rank) && name in Names(nodes)
      ensures out == descendents + Subtree(nodes, rank, name)
      decreases rank[name]
    {
      var children := NodeNamed(nodes, name).children;
      out := descendents;
      for k := 0 to |children|
        invariant out == descendents + ChildrenIds(nodes, rank, name, k)
      {
        var child := children[k];
        var id := NodeNamed(nodes, child).Id();
        ghost var prev := ChildrenIds(nodes, rank, name, k);
        out := Descend(child, out + [id], rank);
        AppendThree(descendents, prev, [id], Subtree(nodes, rank, child));
      }
    }

    /** The search branch of `get_all_lineage_ids` from node `name`, whose
        ancestors' ids are `ancestors`. */
    method LineageSearch(target: string, name: string, ancestors: seq<string>, ghost rank: map<string, nat>)
      returns (results: seq<seq<string>>)
      requires Walkable(nodes, rank) && name in Names(nodes)
      ensures results == LineageFrom(nodes, rank, target, name, ancestors)
      decreases rank[name]
    {
      var node := NodeNamed(nodes, name);
      if target == node.Id() || target == node.text {
        assert Matches(node, target);
        var descendents := Descend(name, [], rank);
        assert descendents == Subtree(nodes, rank, name);
        return [ancestors, descendents];
      }
      var path := ancestors + [node.Id()];
      results := [];
      for k := 0 to |node.children|
        invariant results == LineageAmong(nodes, rank, target, name, k, path)
      {
        var sub := LineageSearch(target, node.children[k], path, rank);
        results := results + sub;
      }
    }

    /** `get_all_lineage_ids(target)` from the root node; `None` when no node
        carries the root's name. */
    method GetAllLineageIds(target: string, ghost rank: map<string, nat>) returns (r: Option<seq<seq<string>>>)
      requires Walkable(nodes, rank)
      ensures r == AllLineageIds(nodes, root, target, rank)
    {
      if FindIndex(nodes, root).None? {
        return None;
      }
      var results := LineageSearch(target, root, [], rank);
      return Some(results);
    }
  }
}
