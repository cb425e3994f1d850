/** Indentation arithmetic of the outline builder: the width of a line's
    leading whitespace, the calibration of the per-level width ("chunk
    size") and the conversion of a width into a depth level
    (`define_level_size`, `get_whitespace_size`, `get_level`). */
module Indent {
  import opened Text

  /** Columns a tab counts for, wherever a tab is widened. */
  const TabSize: nat := 4

  /** The value of `@chunk_size` before calibration. */
  const Uncalibrated: int := -1

  /** A chunk size the tree can hold: uncalibrated, or a positive width. */
  predicate ChunkOk(chunk: int)
  {
    chunk == Uncalibrated || chunk >= 1
  }

  /** `define_level_size`: the per-level width that a first indentation fixes.
      A space-led indentation fixes its own length (tabs in it count 1), a
      tab-led one fixes TabSize whatever its length; anything else, in
      particular no indentation, leaves the tree uncalibrated. */
  function DefineLevelSize(ws: string): (n: int)
    ensures ChunkOk(n)
    ensures n == Uncalibrated <==> ws == [] || !IsIndentChar(ws[0])
    ensures ws != [] && ws[0] == ' ' ==> n == |ws|
    ensures ws != [] && ws[0] == '\t' ==> n == TabSize
  {
    if ws != [] && ws[0] == ' ' then |ws|
    else if ws != [] && ws[0] == '\t' then TabSize
    else Uncalibrated
  }

  /** `get_whitespace_size`: the width the builder gives an indentation.
      One space anywhere makes every character count 1; tab-only
      indentation counts TabSize per tab. */
  function WhitespaceSize(ws: string): (n: nat)
    ensures |ws| <= n <= TabSize * |ws|
    ensures ' ' in ws ==> n == |ws|
    ensures ' ' !in ws && '\t' in ws ==> n == TabSize * |ws|
    ensures '\t' !in ws ==> n == |ws|
  {
    if ' ' in ws then |ws|
    else if '\t' in ws then |ws| * TabSize
    else |ws|
  }

  /** `get_level`: the depth level of a width. With a calibrated chunk the
      level is the band of width `chunk` the size falls in, counted from 1;
      uncalibrated (-1), Ruby's `size / -1 + 1` is `1 - size`, which is 1 for
      the only size it is ever applied to (0). Dafny's `/` agrees with
      Ruby's floor division here: the divisor is positive or exactly -1. */
  function Level(size: nat, chunk: int): (level: int)
    requires ChunkOk(chunk)
    ensures chunk >= 1 ==> level >= 1 && (level - 1) * chunk <= size < level * chunk
    ensures chunk == Uncalibrated ==> level + size == 1
  {
    size / chunk + 1
  }

  /** An indentation of `k` times the chunk width is at level k + 1. */
  lemma {:induction false} ChunkMultipleLevel(k: nat, chunk: int)
    requires chunk >= 1
    ensures Level(k * chunk, chunk) == k + 1
  {
    var l := Level(k * chunk, chunk);
    MulCancel(l - 1, k, chunk);
    MulCancel(k + 1, l, chunk);
  }

  lemma MulCancel(a: int, b: int, c: int)
    requires c >= 1 && a * c <= b * c
    ensures a <= b
  {
    if a > b {
      MulMono(b + 1, a, c);
    }
  }

  lemma MulMono(a: int, b: int, c: int)
    requires a <= b && c >= 0
    ensures a * c <= b * c
  {
  }

  /** A string of `n` copies of one character. */
  function Repeat(c: char, n: nat): (s: string)
    ensures |s| == n
    ensures forall i :: 0 <= i < n ==> s[i] == c
  {
    if n == 0 then [] else [c] + Repeat(c, n - 1)
  }

  /** An outline calibrated by a first indentation of `width` spaces puts a
      line indented by `k * width` spaces at level k + 1. */
  lemma SpaceIndentLevel(width: nat, k: nat)
    requires width >= 1
    ensures DefineLevelSize(Repeat(' ', width)) == width
    ensures Level(WhitespaceSize(Repeat(' ', k * width)), width) == k + 1
  {
    if k * width > 0 {
      assert Repeat(' ', k * width)[0] == ' ';
    }
    ChunkMultipleLevel(k, width);
  }

  /** An outline calibrated by a tab (of any count) has chunk 4, and the
      builder puts a line indented by `k` tabs at level k + 1. */
  lemma TabIndentLevel(tabs: nat, k: nat)
    requires tabs >= 1
    ensures DefineLevelSize(Repeat('\t', tabs)) == TabSize
    ensures Level(WhitespaceSize(Repeat('\t', k)), TabSize) == k + 1
  {
    var ws := Repeat('\t', k);
    assert ' ' !in ws;
    if k > 0 {
      assert ws[0] == '\t';
    }
    ChunkMultipleLevel(k, TabSize);
  }

  /** A two-space first indentation calibrates a chunk of 2; a tab calibrates 4. */
  lemma CalibrationExamples()
    ensures DefineLevelSize("  ") == 2
    ensures DefineLevelSize("\t") == 4
    ensures DefineLevelSize("\t\t\t") == 4
    ensures DefineLevelSize("") == Uncalibrated
  {
  }

  /** The calibration pass measures a tab as one column while the builder
      measures it as TabSize: a one-tab line under a tab calibration is at
      level 1 for `set_units` and level 2 for `build_tree`. */
  lemma TabWidthsDiffer()
    ensures Level(|"\t"|, DefineLevelSize("\t")) == 1
    ensures Level(WhitespaceSize("\t"), DefineLevelSize("\t")) == 2
  {
  }

  /** `@chunk_size` after `set_units` has scanned `lines` from `chunk`: the
      first line's indentation is measured while the chunk is negative. */
  function ChunkAfter(chunk: int, lines: seq<string>): (c: int)
    requires ChunkOk(chunk)
    ensures ChunkOk(c)
  {
    if lines == [] then chunk
    else
      var before := ChunkAfter(chunk, lines[..|lines| - 1]);
      if before < 0 then DefineLevelSize(LeadingWhitespace(lines[|lines| - 1])) else before
  }

  /** `@level_max` after `set_units` has scanned `lines`: each line's level
      is taken from its raw indentation length, with the chunk as it stands
      once that line has had its chance to calibrate it. */
  function LevelMaxAfter(chunk: int, levelMax: int, lines: seq<string>): (m: int)
    requires ChunkOk(chunk)
    ensures m >= levelMax
  {
    if lines == [] then levelMax
    else
      var before := LevelMaxAfter(chunk, levelMax, lines[..|lines| - 1]);
      var level := Level(|LeadingWhitespace(lines[|lines| - 1])|, ChunkAfter(chunk, lines));
      if level > before then level else before
  }

  /** Once calibrated, the chunk is never measured again. */
  lemma {:induction false} CalibratedChunkStays(chunk: int, lines: seq<string>)
    requires chunk >= 1
    ensures ChunkAfter(chunk, lines) == chunk
    decreases |lines|
  {
    if lines != [] {
      CalibratedChunkStays(chunk, lines[..|lines| - 1]);
    }
  }

  /** An outline without indentation leaves the tree uncalibrated. */
  lemma {:induction false} FlatStaysUncalibrated(lines: seq<string>)
    requires forall i :: 0 <= i < |lines| ==> LeadingWhitespace(lines[i]) == []
    ensures ChunkAfter(Uncalibrated, lines) == Uncalibrated
    decreases |lines|
  {
    if lines != [] {
      FlatStaysUncalibrated(lines[..|lines| - 1]);
    }
  }

  /** Conversely, a chunk still uncalibrated after the scan means no line
      was indented. */
  lemma {:induction false} UncalibratedMeansFlat(chunk: int, lines: seq<string>)
    requires ChunkOk(chunk) && ChunkAfter(chunk, lines) == Uncalibrated
    ensures forall i :: 0 <= i < |lines| ==> LeadingWhitespace(lines[i]) == []
    decreases |lines|
  {
    if lines != [] {
      var prefix := lines[..|lines| - 1];
      var before := ChunkAfter(chunk, prefix);
      assert before == Uncalibrated;
      UncalibratedMeansFlat(chunk, prefix);
      var ws := LeadingWhitespace(lines[|lines| - 1]);
      assert ws == [] by {
        assert DefineLevelSize(ws) == Uncalibrated;
      }
      forall i | 0 <= i < |lines| ensures LeadingWhitespace(lines[i]) == [] {
        if i < |prefix| {
          assert lines[i] == prefix[i];
        }
      }
    }
  }

  /** The chunk is fixed by the first indented line: its length when it
      starts with a space, TabSize when it starts with a tab. */
  lemma {:induction false} CalibratedByFirstIndent(lines: seq<string>, i: nat)
    requires i < |lines| && LeadingWhitespace(lines[i]) != []
    requires forall j :: 0 <= j < i ==> LeadingWhitespace(lines[j]) == []
    ensures ChunkAfter(Uncalibrated, lines) == DefineLevelSize(LeadingWhitespace(lines[i]))
    decreases |lines|
  {
    var prefix := lines[..|lines| - 1];
    if i == |lines| - 1 {
      forall j | 0 <= j < |prefix| ensures LeadingWhitespace(prefix[j]) == [] {
        assert prefix[j] == lines[j];
      }
      FlatStaysUncalibrated(prefix);
    } else {
      forall j | 0 <= j < i ensures LeadingWhitespace(prefix[j]) == [] {
        assert prefix[j] == lines[j];
      }
      assert prefix[i] == lines[i];
      CalibratedByFirstIndent(prefix, i);
    }
  }

  /** `set_units` leaves `@level_max` at the largest level of any line (or
      where it was, if that was larger), every level measured with the final
      chunk: lines scanned before calibration are unindented, so their level
      is 1 under any chunk. */
  lemma {:induction false} LevelMaxIsLargest(chunk: int, levelMax: int, lines: seq<string>)
    requires ChunkOk(chunk)
    ensures forall i :: 0 <= i < |lines| ==>
      Level(|LeadingWhitespace(lines[i])|, ChunkAfter(chunk, lines)) <= LevelMaxAfter(chunk, levelMax, lines)
    ensures LevelMaxAfter(chunk, levelMax, lines) == levelMax ||
      exists i :: 0 <= i < |lines| &&
        LevelMaxAfter(chunk, levelMax, lines) == Level(|LeadingWhitespace(lines[i])|, ChunkAfter(chunk, lines))
    decreases |lines|
  {
    if lines != [] {
      var n := |lines| - 1;
      var prefix := lines[..n];
      var before := ChunkAfter(chunk, prefix);
      var after := ChunkAfter(chunk, lines);
      var m := LevelMaxAfter(chunk, levelMax, lines);
      LevelMaxIsLargest(chunk, levelMax, prefix);
      if before == Uncalibrated {
        UncalibratedMeansFlat(chunk, prefix);
      }
      forall i | 0 <= i < n
        ensures Level(|LeadingWhitespace(lines[i])|, after) == Level(|LeadingWhitespace(prefix[i])|, before)
      {
        assert lines[i] == prefix[i];
      }
      if m != levelMax && m != Level(|LeadingWhitespace(lines[n])|, after) {
        var j :| 0 <= j < n && LevelMaxAfter(chunk, levelMax, prefix) == Level(|LeadingWhitespace(prefix[j])|, before);
        assert m == Level(|LeadingWhitespace(lines[j])|, after);
      }
    }
  }
}
