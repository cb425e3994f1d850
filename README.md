# jekyll-semtree: the semantic tree, modelled in Dafny

This project models `Jekyll::Tree` and `TreeNode` of the jekyll-semtree
plugin. The tree reads an indented outline, such as

    - [[an-entry]]
      - [[post]]
      - [[missing]]
    - [[i.another-branch]]

It takes either one text or several named fragments ("index files") that
refer to each other by name. It registers one node per entry name, records
a repeated name as a duplicate, and each node records the names of its
ancestors and its children.
It then answers lineage queries: the ids above a node and all the ids
below it.

The model has these modules:

- `Text` (text.dfy): line parsing and the name normaliser `raw_text`. It
  strips a list marker, removes `[[`/`]]` and removes line breaks.
- `Indent` (indent.dfy): indentation widths, the per-level width ("chunk
  size") calibration of `set_units`, and `get_level`.
- `Nodes` (node.dfy): the node record. A missing document ("zombie") is
  `None`.
- `Registry` (registry.dfy): name lookup and the children linking of
  `add_branch`, as pure functions over the node list.
- `Stack` (stack.dfy): the ancestor stack and `calc_ancestry`.
- `Lineage` (lineage.dfy): the value `get_all_lineage_ids` computes.
- `Renormalised` (renormalise.dfy): the names the builder registers as
  written, where a line's text is normalised more than once.
- `SemTree` (tree.dfy): the `Tree` class. Its fields are the ones the
  source mutates. Its methods are the builder (`build_tree`, split at its
  natural seams), the registry updates and the queries.
- `BonsaiExample` (example.dfy): the outline above followed step by step.
  It yields the parents and children the plugin's default feature test
  expects.

Names and behaviour follow the code of `lib/jekyll-semtree/tree.rb`,
including the places where it behaves differently from what an outline
parser would be expected to do. The two places where the code evidently
does not do what it intends are listed under "Findings": the model records
the behaviour as written and builds on the intended behaviour. The other
differences are modelled as they are:

- `raw_text` is not idempotent: `"- - a"` becomes `"- a"`
  (`Text.RawTextNotIdempotent`).
- `set_units` measures a tab as one column while the builder measures it as
  four (`Indent.TabWidthsDiffer`).
- An uncalibrated chunk is not guarded: the builder sets it to 2 once the
  first non-blank, non-duplicate line has had its level computed.
- `calc_ancestry` pops `top - level + 1` entries whenever the top entry is
  neither the parent level nor the same level. When the line is deeper
  than a child of the top entry, that range is empty and nothing is popped.
- The "Some files were not processed" report only fires for the outermost
  call of a virtual trunk. Otherwise `total_level` has already been
  incremented.
- Duplicates are recorded once per occurrence. Only the report is
  de-duplicated. The tree is cleared only once every fragment has been
  consumed.
- A missing root fragment is refused before anything changes
  (`MissingRoot`).
- The lineage result is the flat concatenation of `[ancestors,
  descendants]` pairs, one pair per node reached that matches the target.
  Descendants are listed in pre-order.

## Model

| member | source | states |
|---|---|---|
| Text.FirstTwo | lib/jekyll-semtree/tree.rb:238 | Ruby's `s[0..1]` is a prefix of length min(2, \|s\|) |
| Text.Erase | lib/jekyll-semtree/tree.rb:243-244 | deleting a two-character literal never lengthens the text and introduces no character |
| Text.StripLineBreaks | lib/jekyll-semtree/tree.rb:245 | the result has no CR or LF and is not longer than the input |
| Text.RawText | lib/jekyll-semtree/tree.rb:236-247 | a canonical name has no CR or LF and is never longer than the text it came from |
| Text.LeadingWhitespace | lib/jekyll-semtree/tree.rb:16 | the LEVEL match is the longest prefix of spaces and tabs |
| Text.Unindented | lib/jekyll-semtree/tree.rb:116 | indentation plus the remaining text is the line, and the remaining text does not start with a space or a tab |
| Text.EraseLeavesNoPair | lib/jekyll-semtree/tree.rb:243-244 | after deleting `[[` (or `]]`) no doubled bracket is left |
| Text.EraseAbsent | lib/jekyll-semtree/tree.rb:243-244 | a text without the bracket is unchanged by the deletion |
| Text.StripLineBreaksIsFilter | lib/jekyll-semtree/tree.rb:245 | deleting CR LF, LF and CR equals deleting every CR and LF character |
| Text.PlainNameIsRaw | lib/jekyll-semtree/tree.rb:236-247 | a name without marker, brackets or line breaks is its own canonical name |
| Text.BulletDropped | lib/jekyll-semtree/tree.rb:23-29 | a leading `* `, `- ` or `+ ` is dropped, and nothing else |
| Text.WikiLinkUnwrapped | lib/jekyll-semtree/tree.rb:243-244 | `[[name]]` yields `name` |
| Text.BulletedWikiLink | lib/jekyll-semtree/tree.rb:236-247 | a list item `- [[name]]` yields `name` |
| Text.RawTextNotIdempotent | lib/jekyll-semtree/tree.rb:238-240 | only one marker is stripped, so normalising twice can differ from normalising once |
| Indent.DefineLevelSize | lib/jekyll-semtree/tree.rb:249-259 | space-led whitespace gives its length, tab-led gives 4, and anything else gives -1; -1 exactly when there is no indentation |
| Indent.WhitespaceSize | lib/jekyll-semtree/tree.rb:261-271 | the width is the character count or 4 times it, so it lies between the two |
| Indent.Level | lib/jekyll-semtree/tree.rb:273-275 | with a positive chunk, the level is the 1-based band of width `chunk` the size falls in; with -1 it is 1 - size |
| Indent.ChunkMultipleLevel | lib/jekyll-semtree/tree.rb:273-275 | k chunks of indentation are at level k + 1 |
| Indent.SpaceIndentLevel | lib/jekyll-semtree/tree.rb:249-251 | calibrated by `width` spaces, a line indented by k * width spaces is at level k + 1 |
| Indent.TabIndentLevel | lib/jekyll-semtree/tree.rb:252-254 | calibrated by tabs, the chunk is 4 and k tabs are at level k + 1 in the builder |
| Indent.CalibrationExamples | lib/jekyll-semtree/tree.rb:249-259 | two spaces calibrate 2; one or three tabs calibrate 4; no indentation leaves -1 |
| Indent.TabWidthsDiffer | lib/jekyll-semtree/tree.rb:264-266 | one tab is level 1 for `set_units` (line 297) and level 2 for `build_tree` (line 127) |
| Indent.ChunkAfter | lib/jekyll-semtree/tree.rb:294-296 | the chunk after a calibration scan is still -1 or positive |
| Indent.LevelMaxAfter | lib/jekyll-semtree/tree.rb:297-301 | the deepest level only grows |
| Indent.CalibratedChunkStays | lib/jekyll-semtree/tree.rb:294 | a calibrated chunk is never measured again |
| Indent.FlatStaysUncalibrated | lib/jekyll-semtree/tree.rb:294-296 | an outline with no indentation leaves the chunk at -1 |
| Indent.UncalibratedMeansFlat | lib/jekyll-semtree/tree.rb:294-296 | a chunk still -1 after the scan means no line was indented |
| Indent.CalibratedByFirstIndent | lib/jekyll-semtree/tree.rb:294-296 | the chunk is fixed by the first indented line |
| Indent.LevelMaxIsLargest | lib/jekyll-semtree/tree.rb:297-301 | `level_max` is at least every line's level and equals one of them or its old value |
| Nodes.Node.Url | lib/jekyll-semtree/tree.rb:461-463 | the document's url, or the name for a zombie |
| Nodes.Node.Id | lib/jekyll-semtree/tree.rb:457-459 | the id equals the url; a zombie is identified by its name |
| Nodes.Node.Title | lib/jekyll-semtree/tree.rb:465-467 | the document's title, or the name for a zombie |
| Nodes.Node.Type | lib/jekyll-semtree/tree.rb:469-471 | the document's type, or `zombie` |
| Nodes.NewNode | lib/jekyll-semtree/tree.rb:435-444 | a new node has the given name and ancestors, no children and no document |
| Registry.Names | lib/jekyll-semtree/tree.rb:360 | `map(&:text)` lists every node's name, position by position |
| Registry.FindIndex | lib/jekyll-semtree/tree.rb:191 | `find` returns the first node with the name, and none exactly when no node has it |
| Registry.Link | lib/jekyll-semtree/tree.rb:191-193 | one linking step keeps the number of nodes |
| Registry.Linked | lib/jekyll-semtree/tree.rb:189-201 | the linking loop keeps the number of nodes |
| Registry.LinkShape | lib/jekyll-semtree/tree.rb:192-193 | a link keeps every name, ancestry and document, only appends to a children list and creates no repeat |
| Registry.LinkedShape | lib/jekyll-semtree/tree.rb:189-201 | the same for the whole linking loop |
| Registry.FindIndexSameTexts | lib/jekyll-semtree/tree.rb:191 | `find` depends only on the names |
| Registry.LinkLinks | lib/jekyll-semtree/tree.rb:192-193 | after a link, the parent's first node lists the child |
| Registry.LinkedLinksEveryPair | lib/jekyll-semtree/tree.rb:189-201 | after the loop, every consecutive pair of the chain whose parent exists is linked |
| Registry.LinkedAddsOnlyChainNames | lib/jekyll-semtree/tree.rb:189-201 | the loop adds to a node only a name that follows that node's name in the chain |
| Registry.LinkAddsOnly | lib/jekyll-semtree/tree.rb:192-198 | one link adds only the child, and only to a node with the parent's name |
| Registry.Branch | lib/jekyll-semtree/tree.rb:187-204 | `add_branch` appends exactly one node, with the titles as ancestors and no children; with no titles, nothing else changes |
| Registry.LinkAncestry | lib/jekyll-semtree/tree.rb:189-201 | the loop over the titles computes the linking of the chain titles + [text] |
| Registry.BranchShape | lib/jekyll-semtree/tree.rb:189-202 | existing nodes keep their place and fields, children only grow, the names gain exactly `text`, and no children list gains a repeat |
| Registry.BranchLinksChain | lib/jekyll-semtree/tree.rb:189-201 | each consecutive pair of titles + [text] whose parent exists is linked |
| Registry.Uniq | lib/jekyll-semtree/tree.rb:169 | `uniq` has no repeats and the same elements |
| Registry.UniqKeepsOrder | lib/jekyll-semtree/tree.rb:169 | `uniq` keeps first-occurrence order: of two names reported, the earlier occurs in the input before any occurrence of the later |
| Registry.UniqExample | lib/jekyll-semtree/tree.rb:169 | a name seen three times is reported once, in first-occurrence order |
| Registry.Without | lib/jekyll-semtree/tree.rb:163 | deleting a key drops exactly that key and keeps the others distinct |
| Registry.WithoutAbsent | lib/jekyll-semtree/tree.rb:163 | deleting an absent key changes nothing |
| Registry.WithoutAt | lib/jekyll-semtree/tree.rb:163 | deleting the key at position i of distinct keys leaves exactly the keys before it and after it, in order |
| Registry.WithoutKeepsOrder | lib/jekyll-semtree/tree.rb:163 | the other keys keep their order: an absent key changes nothing, and deleting the key at position i of distinct keys leaves the keys before and after it |
| Stack.AncestorNames | lib/jekyll-semtree/tree.rb:158 | the ancestors' names are `raw_text` of each stack entry, in order |
| Stack.Pop | lib/jekyll-semtree/tree.rb:221 | `pop` removes the last entry, and an empty stack stays empty |
| Stack.Popped | lib/jekyll-semtree/tree.rb:227-229 | n pops leave a prefix, empty once n reaches the size |
| Stack.Ancestry | lib/jekyll-semtree/tree.rb:206-232 | the result is a prefix of the stack: unchanged below a shallower top, one shorter for a sibling, and top - level + 1 shorter (clamped at empty) when climbing back; none for an empty stack |
| Stack.CalcAncestry | lib/jekyll-semtree/tree.rb:206-232 | the popping loop computes that prefix |
| Stack.AncestryKeepsIncreasing | lib/jekyll-semtree/tree.rb:206-232 | with increasing stack levels, every ancestor left is shallower than the new line, so pushing it keeps levels increasing |
| Stack.ChildAndSibling | lib/jekyll-semtree/tree.rb:208-221 | a child keeps the whole stack; a sibling replaces the top entry |
| Lineage.NodeNamed | lib/jekyll-semtree/tree.rb:311 | `detect` returns a node with the name |
| Lineage.AllLineageIds | lib/jekyll-semtree/tree.rb:307 | the query fails exactly when the root has no node |
| Lineage.SubtreeIds | lib/jekyll-semtree/tree.rb:310-319 | every descendant reported is the id of a registered node |
| Lineage.ChildrenIdsAreIds | lib/jekyll-semtree/tree.rb:310-319 | the same for the descendants of the first n children |
| Lineage.LineagePairsFrom | lib/jekyll-semtree/tree.rb:322-334 | results come in [ancestors, descendants] pairs, and every ancestor list starts with the ids above the starting node |
| Lineage.LineagePairsAmong | lib/jekyll-semtree/tree.rb:329-334 | the same for the results gathered over the first n children |
| Lineage.AbsentTargetFrom | lib/jekyll-semtree/tree.rb:322-334 | a target no node matches gives no results below a node |
| Lineage.AbsentTargetAmong | lib/jekyll-semtree/tree.rb:329-334 | the same over the first n children |
| Lineage.AbsentTarget | lib/jekyll-semtree/tree.rb:307-336 | an absent target yields an empty list |
| Lineage.RootTarget | lib/jekyll-semtree/tree.rb:307-320 | the root as target yields one pair: no ancestors and every id below the root |
| Lineage.IdsOf | lib/jekyll-semtree/tree.rb:324-328 | the ids of the named nodes, position by position |
| Lineage.ChainAncestors | lib/jekyll-semtree/tree.rb:202 | along a path of children links down from a node with no ancestors, each node's stored ancestors are the path above it |
| Lineage.AmongOneHit | lib/jekyll-semtree/tree.rb:329-334 | among distinct children of which only one can yield results, the search yields that child's results or nothing |
| Lineage.AmongAllEmpty | lib/jekyll-semtree/tree.rb:329-334 | children that all yield nothing yield nothing together |
| Lineage.OffPathChild | lib/jekyll-semtree/tree.rb:330-332 | a child of a node off the path to the only match is off that path too |
| Lineage.OffPathFrom | lib/jekyll-semtree/tree.rb:322-334 | a search from a node off the path to the only match yields nothing |
| Lineage.SiblingsOffPath | lib/jekyll-semtree/tree.rb:329-334 | the children of a node on the path, other than the next one on it, yield nothing |
| Lineage.OnPathStep | lib/jekyll-semtree/tree.rb:322-334 | a search from a node on the path yields what the search from the next node yields, its id joining the ids above |
| Lineage.OnPathFrom | lib/jekyll-semtree/tree.rb:307-334 | a search from any node on the path yields one pair: the ids of the match's ancestors and its subtree |
| Lineage.UniqueMatchLineage | lib/jekyll-semtree/tree.rb:307-336 | when exactly one node matches and its stored ancestors are a path down from the root, the query returns the ids of those ancestors from the root down, and the ids below the match in pre-order |
| SemTree.Fragments.Delete | lib/jekyll-semtree/tree.rb:163 | `content.delete` drops exactly that key and keeps the other fragments, with the remaining keys in their insertion order |
| SemTree.ReachesFrozenRoot | lib/jekyll-semtree/tree.rb:118-158 | true exactly when some line is non-blank and names neither "root" nor a name already seen, so that the builder maps the stack's names at line 158 |
| SemTree.FrozenRootRaises | lib/jekyll-semtree/tree.rb:72 | the one-line outline `a` reaches the frozen literal |
| SemTree.FrozenRootFree | lib/jekyll-semtree/tree.rb:115-161 | an outline that does not reach it names nothing but "root" |
| SemTree.DrainedNamedSteps | lib/jekyll-semtree/tree.rb:144-148 | fragments drained in two steps, with the registry only growing, are registered in total |
| SemTree.DrainedNamesSteps | lib/jekyll-semtree/tree.rb:144-148 | names drained in either step are drained in total |
| SemTree.DrainedNamesDelete | lib/jekyll-semtree/tree.rb:163 | deleting a fragment drains its own name and its lines' names |
| SemTree.DrainedNamesAreRegistered | lib/jekyll-semtree/tree.rb:96-176 | every drained name is in the registry when every drained fragment is registered |
| SemTree.AllDrained | lib/jekyll-semtree/tree.rb:167 | once no fragment is left, the drained names are the outline's |
| SemTree.SingleOutlineNames | lib/jekyll-semtree/tree.rb:72 | the outline filed as "root" names "root" and its lines |
| SemTree.LineNamesOne | lib/jekyll-semtree/tree.rb:116-118 | a non-blank line stands for its own name only |
| SemTree.LinesNamedStep | lib/jekyll-semtree/tree.rb:115 | the lines named so far stay named as the registry grows |
| SemTree.ReadStepNames | lib/jekyll-semtree/tree.rb:115-161 | the names added line by line are drawn from the lines and the drained fragments |
| SemTree.ReadNames | lib/jekyll-semtree/tree.rb:163 | a fragment read to its end and deleted has all its names registered and drained |
| SemTree.BuildNames | lib/jekyll-semtree/tree.rb:99-112 | the trunk's own name is among the names its build drains |
| SemTree.PendingShrinks | lib/jekyll-semtree/tree.rb:118 | consuming fragments and registering nodes only shrinks the set of fragments the builder can still enter |
| Registry.BranchKeepsChainsLinked | lib/jekyll-semtree/tree.rb:187-204 | with unique names, each node recorded as an ancestor of a later node lists the next name of that node's chain (its ancestors, then its name) among its children; `add_branch` keeps this |
| SemTree.BranchKeepsRegistered | lib/jekyll-semtree/tree.rb:187-204 | `add_branch` keeps children repeat-free and the petiole map keyed by the node names, and keeps names unique when the name is fresh |
| SemTree.Tree.constructor | lib/jekyll-semtree/tree.rb:43-52 | the defaults: chunk and deepest level -1, no nodes, no duplicates, empty petiole map, root and trunk |
| SemTree.Tree.InTree | lib/jekyll-semtree/tree.rb:359-361 | true exactly when some node has the name |
| SemTree.Tree.FindDocAncestorsAndChildren | lib/jekyll-semtree/tree.rb:355-356 | the ancestors and children of the first node with the name, none exactly when there is no such node |
| SemTree.Tree.AddRoot | lib/jekyll-semtree/tree.rb:181-185 | sets the root, appends a node with no ancestors or children, files it under itself, and keeps names unique for a fresh name |
| SemTree.Tree.AddBranch | lib/jekyll-semtree/tree.rb:187-204 | the node list becomes `Branch` of the old one, and the petiole map files the name under `trnk_fname`, defaulting to the name |
| SemTree.Tree.Clear | lib/jekyll-semtree/tree.rb:277-282 | empties root, nodes, petiole map and duplicates; chunk and deepest level stay |
| SemTree.Tree.SetUnits | lib/jekyll-semtree/tree.rb:288-303 | the new chunk and deepest level are those of the calibration scan over the lines |
| SemTree.Tree.Finish | lib/jekyll-semtree/tree.rb:163-176 | the fragment is deleted. With fragments left, an outermost call reports them and any other returns nothing. Once drained, duplicates clear the tree and are reported de-duplicated; otherwise the nodes are returned |
| SemTree.Tree.StitchLine | lib/jekyll-semtree/tree.rb:144-149 | the stack is recomputed for the line, and the fragment is consumed and registered under the new stack (non-virtual) |
| SemTree.Tree.BranchLine | lib/jekyll-semtree/tree.rb:150-160 | the node is added under the recomputed stack's names, filed under the current fragment, and pushed |
| SemTree.Tree.PlaceLine | lib/jekyll-semtree/tree.rb:130-161 | the root line, a stitching line and an ordinary line each have their effect; an empty stack is a failure |
| SemTree.Tree.ProcessLine | lib/jekyll-semtree/tree.rb:115-161 | a blank line changes nothing; a known name is only recorded as a duplicate; otherwise the chunk is calibrated to 2 if needed and the line is placed at its level. Names stay unique, and on success a non-virtual build has registered the line's name |
| SemTree.Tree.Register | lib/jekyll-semtree/tree.rb:97-112 | a non-virtual fragment registers itself as root (level 0) or as a branch under the stack, then is pushed |
| SemTree.Tree.ReadLines | lib/jekyll-semtree/tree.rb:114-162 | reading the lines keeps names unique; with a non-virtual trunk it keeps the node list extending, never re-enters a registered fragment and cannot run out of fuel, and on success every non-blank line's name is registered and no name is added beyond the lines' names and those of the fragments they drain |
| SemTree.Tree.BuildTree | lib/jekyll-semtree/tree.rb:96-177 | names stay unique; the fragment is consumed; a non-virtual fragment is registered at its position with its ancestors; and each outcome's conditions hold. A non-virtual build with fuel of at least the pending fragment count never overflows, registers every fragment it drains with all its lines' names, and adds no other name |
| SemTree.Tree.ReadFragment | lib/jekyll-semtree/tree.rb:114-176 | the lines are read, the fragment is consumed and each outcome's conditions hold; with a non-virtual trunk every fragment drained is registered with all its lines' names and no other name is added |
| SemTree.Tree.NextLine | lib/jekyll-semtree/tree.rb:115-161 | one line read, keeping names unique; with a non-virtual trunk its name is registered on success, and the only names added are its own and those of the fragments it drained |
| SemTree.Tree.LoadOutline | lib/jekyll-semtree/tree.rb:69-72 | as written: the build raises `Frozen` exactly when the trunk is not virtual and some line names something new; otherwise it is the intended build, and a non-virtual tree that builds holds only "root" |
| SemTree.Tree.BuildOutline | lib/jekyll-semtree/tree.rb:69-72 | as intended: a non-virtual build never overflows; when it builds, the root is "root" with no ancestors and the names are exactly "root" and the names of the non-blank lines |
| SemTree.Tree.LoadFragments | lib/jekyll-semtree/tree.rb:74-89 | a missing root fragment is refused with nothing changed; the deepest level comes from the root fragment; a non-virtual build ends rooted at the root fragment with no ancestors, and when it builds the names are exactly those of the fragments and of their non-blank lines |
| SemTree.Tree.Descend | lib/jekyll-semtree/tree.rb:309-320 | the found branch appends the pre-order ids below the node |
| SemTree.Tree.LineageSearch | lib/jekyll-semtree/tree.rb:307-336 | the recursive search computes `LineageFrom` |
| SemTree.Tree.GetAllLineageIds | lib/jekyll-semtree/tree.rb:307 | the query from the root computes `AllLineageIds` |
| Renormalised.AsWrittenNames | lib/jekyll-semtree/tree.rb:115-160 | as written: the names registered only grow, by at most one per line |
| Renormalised.AsWrittenRenames | lib/jekyll-semtree/tree.rb:118-156 | the line `[[- a]]` is checked for a duplicate as `- a` but registered as `a` |
| Renormalised.AsWrittenRegistersTwice | lib/jekyll-semtree/tree.rb:115-160 | two `[[- a]]` lines register `a` twice |
| Renormalised.AsWrittenNotDistinct | lib/jekyll-semtree/tree.rb:118-119 | so the registry built as written can name two nodes alike |
| BonsaiExample.Levels | lib/jekyll-semtree/tree.rb:128 | with chunk 2 in a fragment entered at level 1, an unindented line is at level 2 and a two-space line at level 3 |
| BonsaiExample.StacksDown | lib/jekyll-semtree/tree.rb:206-232 | the entry keeps the trunk as its parent, and the post is the entry's child |
| BonsaiExample.StacksUp | lib/jekyll-semtree/tree.rb:206-232 | `missing` replaces the post, and the stitched fragment climbs back to the trunk |
| BonsaiExample.LinkAt | lib/jekyll-semtree/tree.rb:191-193 | a link where the parent is the first node with its name |
| BonsaiExample.RegisterEntry | lib/jekyll-semtree/tree.rb:187-204 | registering the entry links the trunk to it |
| BonsaiExample.RegisterPost | lib/jekyll-semtree/tree.rb:187-204 | registering the post leaves the trunk's link and links the entry to the post |
| BonsaiExample.RegisterMissing | lib/jekyll-semtree/tree.rb:187-204 | `missing` follows the post among the entry's children |
| BonsaiExample.RegisterOther | lib/jekyll-semtree/tree.rb:187-204 | the stitched fragment follows the entry among the trunk's children |
| BonsaiExample.BonsaiShape | spec/jekyll-semtree/feature_default_spec.rb:84-103 | the root has no ancestors and two children in order; the entry has the root above it and `post`, `missing` below it; the post and `missing` have root and entry above them and no children; the other branch has the root above it |

## Left out

- The Jekyll generator (`lib/jekyll-semtree.rb`) and the site patch are host plumbing over objects outside this model.
- `initialize`'s file-name handling (`File.basename`), its `unless root_fname` branch (the name always exists) and the `raise` for content that is neither a String nor a Hash are not modelled. The two valid forms are two methods, `LoadOutline` and `LoadFragments`.
- `split("\n")` is not modelled: content arrives as a sequence of lines. A line is assumed to hold no line feed, as `split` guarantees; `Text.Unindented` removes indentation only at the start of the line, while `gsub(/^[ \t]*/, '')` would also strip it after each line feed inside a line.
- Marshal `deepcopy` is not modelled: stacks and fragment maps are values.
- Text.RawText: returns the normalised copy. Its in-place edit of the argument is modelled only where it changes a result: the frozen-literal raise (`SemTree.ReachesFrozenRoot`) and the repeated normalisation of a line (`Renormalised.Kept`). Other aliasing of the caller's string is not modelled.
- SemTree.Tree.ProcessLine: registers a line under its name normalised once, as the duplicate check sees it. As written the code registers the text normalised again, which can differ and can repeat a name; that behaviour is `Renormalised.AsWrittenNames` (see Findings), which covers ordinary lines of a fragment that names no other fragment. The other re-normalisations are not modelled as written: the duplicate recorded at tree.rb:119 is the already-edited text normalised again; the virtual root line at tree.rb:138 registers its re-normalised text; and the stitch test and recursion at tree.rb:144 and 147 use re-normalised keys, so with a fragment `b` pending the line `[[- b]]` stitches into `b` where the model registers `- b`.
- SemTree.Tree.LoadOutline: on the `Frozen` raise, the duplicates recorded and the chunk calibrated before the raising line are not modelled: the raise leaves `initialize`, so no caller sees the object.
- The unused patterns `TEXT_WITH_LOC`, `TEXT_WITH_ID` and `WIKITEXT_WITH_ID`, and the `@mkdn_list` switch (always true), are not modelled.
- `get_sibling_ids` is not modelled: with its default start node it returns `[]` at once, and its other branches call methods the child names do not have.
- `build_tree_str`, `to_s` and `print_nodes` are not modelled: they are console rendering and debugging only.
- Stored nodes carry no `level` or `line` (the source leaves both at -1). Only stack entries carry a level.
- Error and report messages are not modelled as text. Outcomes carry their data: the missing keys, the de-duplicated names.
- SemTree.Tree.BuildTree: a stack overflow is modelled by a `fuel` bound. Running out is `Raised(TooDeep)`, which is proved unreachable in a non-virtual trunk given fuel of at least the number of fragments; the non-terminating virtual case is only bounded.
- Stack.CalcAncestry: on an empty stack the source fails reading a missing parent; the model returns `None`, and the builder turns it into `Raised(NoParent)`.
- SemTree.Tree.GetAllLineageIds: requires that every child name names a node and that the children links have no cycle (`Walkable`, with a ghost ranking). On other registries the source fails or does not terminate; that is not modelled.
- SemTree.Tree.ReadLines: states the set of names registered (every non-blank line's name, and nothing outside the lines and the fragments they drain), not the order of the node list or each node's children. The names registered are not stated for a virtual trunk, where no fragment registers its own name.
- SemTree.Tree.BuildTree: states the same for the whole build; the ancestors of a node are stated through the chains it links (`Registry.ChainsLinked`), not as the ancestor path `Lineage.UniqueMatchLineage` assumes.
- Lineage.LineagePairsFrom: states the shape of the results for any registry. What one match yields is `Lineage.UniqueMatchLineage`, which assumes a tree-shaped registry (distinct children, ancestors agreeing with the children links, the match's ancestors a path from the root); the builder is not proved to produce such a registry.
- SemTree.Tree.FindDocAncestorsAndChildren: returns `None` where the source fails on a missing node.
- The value `initialize` returns from `build_tree` is discarded by Ruby; `LoadOutline` and `LoadFragments` still return it so the contracts can speak of it.

## Findings

| source | as written | input that shows it | evidently intended | confidence | as-written member | corrected member |
|---|---|---|---|---|---|---|
| lib/jekyll-semtree/tree.rb:72, 158 | with `# frozen_string_literal: true`, the single-outline branch files the outline under the frozen literal `'root'`; the first new line maps the stack's names through `raw_text`, whose `gsub!` raises FrozenError on it | the outline `a` with the default non-virtual trunk | the outline is built under the trunk "root", as the Hash branch builds its fragments | not executed | SemTree.Tree.LoadOutline, SemTree.FrozenRootRaises | SemTree.Tree.BuildOutline |
| lib/jekyll-semtree/tree.rb:118-160 | `raw_text` edits the line's text in place unless it strips a list marker, and the text is normalised again for the stitch test and the node name; the name checked for a duplicate and the name registered differ | two lines `[[- a]]` in one fragment: both are checked as `- a` and both register `a` | a line is registered under the name the duplicate check saw, so a repeated line is a duplicate | not executed | Renormalised.AsWrittenNames, Renormalised.AsWrittenRegistersTwice | SemTree.Tree.ProcessLine |
