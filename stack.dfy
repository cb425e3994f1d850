/** The builder's ancestor stack: the entries pushed as lines are read, and
    `calc_ancestry`, which pops it back to the parent of a line at a given
    depth level. */
module Stack {
  import opened Nodes
  import opened Text

  /** A stack entry: the text a node was created with and its depth level.
      Only stack entries carry levels; registered nodes do not. */
  datatype Entry = Entry(text: string, level: int)

  /** The names of the ancestors a stack stands for (`raw_text` of each entry). */
  function AncestorNames(stack: seq<Entry>): (names: seq<string>)
    ensures |names| == |stack|
    ensures forall i :: 0 <= i < |stack| ==> names[i] == RawText(stack[i].text)
  {
    if stack == [] then [] else AncestorNames(stack[..|stack| - 1]) + [RawText(stack[|stack| - 1].text)]
  }

  /** `Array#pop` as a value: the last element goes, an empty array stays empty. */
  function Pop(s: seq<Entry>): (r: seq<Entry>)
    ensures r <= s
    ensures |r| == if s == [] then 0 else |s| - 1
  {
    if s == [] then [] else s[..|s| - 1]
  }

  /** `s` after `n` pops. */
  function Popped(s: seq<Entry>, n: nat): (r: seq<Entry>)
    ensures r <= s
    ensures |r| == if n >= |s| then 0 else |s| - n
  {
    if n >= |s| then [] else s[..|s| - n]
  }

  /** How many entries `calc_ancestry` pops for a line at `level` when the
      top entry is at `top`: none for a child, one for a sibling, and
      `top - level + 1` when the line climbs back up (Ruby's range
      `1..(top - level + 1)`, which is empty when the line is deeper still). */
  function PopCount(level: int, top: int): nat
  {
    if top == level - 1 then 0
    else if top == level then 1
    else if top - level + 1 >= 1 then top - level + 1
    else 0
  }

  /** `calc_ancestry` in closed form. `None` stands for the source's failure
      on an empty stack (it reads the level of a missing parent). */
  function Ancestry(level: int, stack: seq<Entry>): (r: Option<seq<Entry>>)
    ensures r.None? <==> stack == []
    ensures r.Some? ==> r.value <= stack
    ensures r.Some? && stack[|stack| - 1].level < level ==> r.value == stack
    ensures r.Some? && stack[|stack| - 1].level == level ==> |r.value| == |stack| - 1
    ensures r.Some? && stack[|stack| - 1].level > level ==>
      |r.value| == if stack[|stack| - 1].level - level + 1 >= |stack| then 0
                   else |stack| - (stack[|stack| - 1].level - level + 1)
  {
    if stack == [] then None
    else Some(Popped(stack, PopCount(level, stack[|stack| - 1].level)))
  }

  /** `calc_ancestry`: pops the stack one entry at a time. */
  method CalcAncestry(level: int, ancestors: seq<Entry>) returns (r: Option<seq<Entry>>)
    ensures r == Ancestry(level, ancestors)
  {
    if ancestors == [] {
      return None;
    }
    var parent := ancestors[|ancestors| - 1];
    var isChild := parent.level == level - 1;
    var isSibling := parent.level == level;
    var stack := ancestors;
    if isChild {
      assert stack == Popped(ancestors, 0);
    } else if isSibling {
      stack := Pop(stack);
    } else {
      var levelDiff := parent.level - level;
      var k := 1;
      while k <= levelDiff + 1
        invariant 1 <= k && (levelDiff + 1 >= 1 ==> k <= levelDiff + 2) && (levelDiff + 1 < 1 ==> k == 1)
        invariant stack == Popped(ancestors, k - 1)
      {
        stack := Pop(stack);
        k := k + 1;
      }
      assert k - 1 == PopCount(level, parent.level);
    }
    return Some(stack);
  }

  /** Entry levels strictly increase from the bottom of the stack to its top. */
  predicate Increasing(stack: seq<Entry>)
  {
    forall i, j :: 0 <= i < j < |stack| ==> stack[i].level < stack[j].level
  }

  /** In a stack whose levels strictly increase, `calc_ancestry` leaves only
      entries shallower than the new line, so pushing the line keeps the
      levels increasing: every ancestor of a line is above it. */
  lemma AncestryKeepsIncreasing(level: int, stack: seq<Entry>, text: string)
    requires stack != [] && Increasing(stack)
    ensures Increasing(Ancestry(level, stack).value + [Entry(text, level)])
  {
    var top := |stack| - 1;
    var rest := Ancestry(level, stack).value;
    var n := |rest|;
    if n > 0 {
      LevelsGap(stack, n - 1, top);
      assert rest[n - 1] == stack[n - 1];
      assert rest[n - 1].level < level;
    }
    var t := rest + [Entry(text, level)];
    forall i, j | 0 <= i < j < |t| ensures t[i].level < t[j].level {
      if j < n {
        assert t[i] == stack[i] && t[j] == stack[j];
      } else if i < n - 1 {
        assert t[i] == stack[i] && stack[i].level < stack[n - 1].level;
      }
    }
  }

  /** Strictly increasing integer levels are at least one apart per position. */
  lemma {:induction false} LevelsGap(stack: seq<Entry>, i: nat, j: nat)
    requires Increasing(stack) && i <= j < |stack|
    ensures stack[i].level + (j - i) <= stack[j].level
    decreases j - i
  {
    if i < j {
      LevelsGap(stack, i + 1, j);
    }
  }

  /** A line one level below the top entry keeps the whole stack as its
      ancestry; a line at the top entry's level replaces that entry. */
  lemma ChildAndSibling(stack: seq<Entry>, e: Entry)
    ensures Ancestry(e.level + 1, stack + [e]) == Some(stack + [e])
    ensures Ancestry(e.level, stack + [e]) == Some(stack)
  {
  }
}
