/** The names the builder registers as written. `raw_text` edits its
    argument in place unless it strips a list marker, and the loop of
    `build_tree` normalises a line's text again at each use: the name it
    checks for a duplicate and the name it registers can differ. The rest
    of the model normalises a line once (`LineName`). */
module Renormalised {
  import opened Text
  import opened Registry

  /** The text `raw_text` leaves in its argument: untouched when a list
      marker was stripped (stripping makes a copy), otherwise its own
      normalised form (the other edits are in place). */
  function Kept(text: string): (t: string)
    ensures |t| <= |text|
  {
    if IsMarkdownBullet(FirstTwo(text)) then text else RawText(text)
  }

  /** The name an ordinary line with text `text` registers in the fragment
      `curKey` when it names no other fragment: the duplicate check has
      normalised the text once, the stitch test normalises it once more
      and, unless the result is `curKey`, a third time, and the node's name
      is the normalised form of what is then left. */
  function AsWrittenName(text: string, curKey: string): string
  {
    var checked := Kept(text);
    var tested := Kept(checked);
    if RawText(checked) == curKey then RawText(tested) else RawText(Kept(tested))
  }

  /** The names registered, as written, after the registry `names` reads
      the lines of a fragment `curKey` that links no other fragment: a
      blank line is skipped, a line whose once-normalised name is already
      registered is a duplicate, any other line registers its as-written
      name. */
  function AsWrittenNames(names: seq<string>, lines: seq<string>, curKey: string): (r: seq<string>)
    ensures names <= r && |r| <= |names| + |lines|
    decreases |lines|
  {
    if lines == [] then names
    else
      var line := lines[0];
      var next := if Blank(line) || LineName(line) in names then names else names + [AsWrittenName(Unindented(line), curKey)];
      AsWrittenNames(next, lines[1..], curKey)
  }

  /** How the text `[[- a]]` normalises: once to `- a`, which is kept in
      place, and again to `a`. */
  lemma BulletLinkSteps()
    ensures !Blank("[[- a]]") && Unindented("[[- a]]") == "[[- a]]"
    ensures RawText("[[- a]]") == "- a" && Kept("[[- a]]") == "- a"
    ensures RawText("- a") == "a" && Kept("- a") == "- a"
  {
    var line := "[[- a]]";
    assert line == "[[" + "- a" + "]]";
    assert LeadingWhitespace(line) == [];
    assert Unindented(line) == line;
    WikiLinkUnwrapped("- a");
    assert FirstTwo(line) == "[[";
    BulletDropped("- ", "a");
    assert FirstTwo("- a") == "- ";
  }

  /** A line written as a bulleted wiki link inside the brackets is checked
      under one name and registered under another. */
  lemma AsWrittenRenames()
    ensures LineName("[[- a]]") == "- a"
    ensures AsWrittenName("[[- a]]", "index") == "a"
  {
    BulletLinkSteps();
  }

  /** One step of the fold over a line that registers a new name. */
  lemma AsWrittenStep(names: seq<string>, line: string, rest: seq<string>, curKey: string)
    requires !Blank(line) && LineName(line) !in names
    ensures AsWrittenNames(names, [line] + rest, curKey)
         == AsWrittenNames(names + [AsWrittenName(Unindented(line), curKey)], rest, curKey)
  {
    assert ([line] + rest)[0] == line && ([line] + rest)[1..] == rest;
  }

  /** So the same line twice registers the same name twice. */
  lemma AsWrittenRegistersTwice()
    ensures AsWrittenNames(["index"], ["[[- a]]", "[[- a]]"], "index") == ["index", "a", "a"]
  {
    var line := "[[- a]]";
    AsWrittenRenames();
    BulletLinkSteps();
    assert "- a" != "index" && "- a" != "a";
    assert [line, line] == [line] + [line];
    AsWrittenStep(["index"], line, [line], "index");
    assert ["index"] + ["a"] == ["index", "a"];
    AsWrittenStep(["index", "a"], line, [], "index");
    assert [line] + [] == [line];
  }

  /** The registry the fold leaves then names a node twice. */
  lemma AsWrittenNotDistinct()
    ensures !Distinct(AsWrittenNames(["index"], ["[[- a]]", "[[- a]]"], "index"))
  {
    AsWrittenRegistersTwice();
    var r := AsWrittenNames(["index"], ["[[- a]]", "[[- a]]"], "index");
    assert r[1] == r[2];
  }
}
