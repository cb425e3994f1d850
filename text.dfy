/** The text normaliser of the outline builder: how a raw outline line is
    split into its indentation and its text, and how a text is reduced to
    the canonical node name (`raw_text` and `is_markdown_bullet`). */
module Text {

  const OpenBrackets: string := "[["
  const CloseBrackets: string := "]]"

  const BulletAsterisk: string := "* "
  const BulletDash: string := "- "
  const BulletPlus: string := "+ "

  /** One of the three two-character markdown list markers. */
  predicate IsMarkdownBullet(text: string)
  {
    text == BulletAsterisk || text == BulletDash || text == BulletPlus
  }

  /** Ruby's `s[0..1]`: the first two characters, or the whole string when shorter. */
  function FirstTwo(s: string): (r: string)
    ensures |r| == if |s| < 2 then |s| else 2
    ensures r <= s
  {
    if |s| < 2 then s else s[..2]
  }

  /** Ruby's `gsub(pat, '')` for a two-character literal pattern: occurrences
      are found left to right and never overlap. */
  function Erase(s: string, pat: string): (r: string)
    requires |pat| == 2
    ensures |r| <= |s|
    ensures forall c :: c in r ==> c in s
  {
    if |s| < 2 then s
    else if s[..2] == pat then Erase(s[2..], pat)
    else [s[0]] + Erase(s[1..], pat)
  }

  /** Ruby's `gsub(/\r?\n|\r/, '')`: a CR LF pair, a lone LF or a lone CR is deleted. */
  function StripLineBreaks(s: string): (r: string)
    ensures |r| <= |s|
    ensures '\n' !in r && '\r' !in r
  {
    if s == [] then []
    else if |s| >= 2 && s[0] == '\r' && s[1] == '\n' then StripLineBreaks(s[2..])
    else if s[0] == '\n' || s[0] == '\r' then StripLineBreaks(s[1..])
    else [s[0]] + StripLineBreaks(s[1..])
  }

  /** Reference definition: keep every character that is not a CR or an LF. */
  function KeepNonBreaks(s: string): string
  {
    if s == [] then []
    else (if s[0] == '\n' || s[0] == '\r' then [] else [s[0]]) + KeepNonBreaks(s[1..])
  }

  /** The canonical node name of a line's text (`raw_text`, with the list
      marker stripping that `@mkdn_list`, always true, switches on). */
  function RawText(fullText: string): (r: string)
    ensures |r| <= |fullText|
    ensures '\n' !in r && '\r' !in r
  {
    var s := if IsMarkdownBullet(FirstTwo(fullText)) then fullText[2..] else fullText;
    StripLineBreaks(Erase(Erase(s, OpenBrackets), CloseBrackets))
  }

  predicate IsIndentChar(c: char)
  {
    c == ' ' || c == '\t'
  }

  /** The match of the LEVEL pattern (start of line, then spaces and tabs): a line's indentation. */
  function LeadingWhitespace(line: string): (ws: string)
    ensures ws <= line
    ensures forall i :: 0 <= i < |ws| ==> IsIndentChar(ws[i])
    ensures |ws| < |line| ==> !IsIndentChar(line[|ws|])
  {
    if line != [] && IsIndentChar(line[0]) then [line[0]] + LeadingWhitespace(line[1..]) else []
  }

  /** The line with its indentation removed (the builder's `text`). */
  function Unindented(line: string): (t: string)
    ensures LeadingWhitespace(line) + t == line
    ensures t != [] ==> !IsIndentChar(t[0])
  {
    line[|LeadingWhitespace(line)|..]
  }

  /** A line whose text, once its indentation is removed, is empty. */
  predicate Blank(line: string)
  {
    Unindented(line) == []
  }

  /** The node name a line stands for. */
  function LineName(line: string): string
  {
    RawText(Unindented(line))
  }

  predicate HasPair(s: string, c: char)
  {
    exists i :: 0 <= i < |s| - 1 && s[i] == c && s[i + 1] == c
  }

  lemma {:induction false} EraseKeepsHead(s: string, c: char)
    requires s != [] && s[0] != c
    ensures Erase(s, [c, c]) != [] && Erase(s, [c, c])[0] == s[0]
  {
  }

  /** Erasing a doubled character leaves no doubled occurrence of it behind
      (so `[[[` becomes `[`, never `[[`). */
  lemma {:induction false} EraseLeavesNoPair(s: string, c: char)
    ensures !HasPair(Erase(s, [c, c]), c)
    decreases |s|
  {
    var pat := [c, c];
    if |s| < 2 {
    } else if s[..2] == pat {
      EraseLeavesNoPair(s[2..], c);
    } else {
      EraseLeavesNoPair(s[1..], c);
      var tail := Erase(s[1..], pat);
      var r := Erase(s, pat);
      assert r == [s[0]] + tail;
      if s[0] == c {
        assert s[1] != c;
        EraseKeepsHead(s[1..], c);
      }
      forall i | 0 <= i < |r| - 1 ensures !(r[i] == c && r[i + 1] == c) {
        if i > 0 {
          assert r[i] == tail[i - 1] && r[i + 1] == tail[i];
        }
      }
    }
  }

  /** A string without the pattern is left as it is by Erase. */
  lemma {:induction false} EraseAbsent(s: string, pat: string)
    requires |pat| == 2
    requires pat[0] !in s
    ensures Erase(s, pat) == s
    decreases |s|
  {
    if |s| >= 2 {
      assert s[..2] != pat by { assert s[0] in s; }
      EraseAbsent(s[1..], pat);
    }
  }

  /** Deleting the three line-break forms is the same as deleting every CR and LF. */
  lemma {:induction false} StripLineBreaksIsFilter(s: string)
    ensures StripLineBreaks(s) == KeepNonBreaks(s)
    decreases |s|
  {
    if s == [] {
    } else if |s| >= 2 && s[0] == '\r' && s[1] == '\n' {
      StripLineBreaksIsFilter(s[2..]);
      assert s[1..][1..] == s[2..];
    } else {
      StripLineBreaksIsFilter(s[1..]);
    }
  }

  lemma {:induction false} KeepNonBreaksPlain(s: string)
    requires '\n' !in s && '\r' !in s
    ensures KeepNonBreaks(s) == s
    decreases |s|
  {
    if s != [] {
      KeepNonBreaksPlain(s[1..]);
    }
  }

  /** A name that carries no list marker, no brackets and no line break is
      its own canonical name. */
  lemma PlainNameIsRaw(s: string)
    requires !IsMarkdownBullet(FirstTwo(s))
    requires '[' !in s && ']' !in s && '\n' !in s && '\r' !in s
    ensures RawText(s) == s
  {
    EraseAbsent(s, OpenBrackets);
    EraseAbsent(s, CloseBrackets);
    StripLineBreaksIsFilter(s);
    KeepNonBreaksPlain(s);
  }

  /** A leading list marker is dropped, and only the marker. */
  lemma BulletDropped(bullet: string, s: string)
    requires IsMarkdownBullet(bullet)
    requires '[' !in s && ']' !in s && '\n' !in s && '\r' !in s
    ensures RawText(bullet + s) == s
  {
    assert FirstTwo(bullet + s) == bullet;
    assert (bullet + s)[2..] == s;
    EraseAbsent(s, OpenBrackets);
    EraseAbsent(s, CloseBrackets);
    StripLineBreaksIsFilter(s);
    KeepNonBreaksPlain(s);
  }

  /** The wiki-link brackets around a plain name are removed. */
  lemma WikiLinkUnwrapped(s: string)
    requires |s| >= 1 && s[0] != '[' && s[0] != ']'
    requires '[' !in s && ']' !in s && '\n' !in s && '\r' !in s
    ensures RawText("[[" + s + "]]") == s
  {
    var w := "[[" + s + "]]";
    assert FirstTwo(w) == "[[";
    assert w[..2] == OpenBrackets;
    assert w[2..] == s + "]]";
    assert '[' !in s + "]]";
    EraseAbsent(s + "]]", OpenBrackets);
    assert Erase(w, OpenBrackets) == s + "]]";
    ErasePlainThenPattern(s, CloseBrackets);
    StripLineBreaksIsFilter(s);
    KeepNonBreaksPlain(s);
  }

  /** An outline entry written as a list item around a wiki link names the
      linked page. */
  lemma BulletedWikiLink(bullet: string, s: string)
    requires IsMarkdownBullet(bullet)
    requires |s| >= 1 && s[0] != '[' && s[0] != ']'
    requires '[' !in s && ']' !in s && '\n' !in s && '\r' !in s
    ensures RawText(bullet + "[[" + s + "]]") == s
  {
    var w := "[[" + s + "]]";
    assert bullet + "[[" + s + "]]" == bullet + w;
    assert FirstTwo(bullet + w) == bullet;
    assert (bullet + w)[2..] == w;
    assert !IsMarkdownBullet(FirstTwo(w)) by { assert FirstTwo(w) == "[["; }
    WikiLinkUnwrapped(s);
  }

  lemma {:induction false} ErasePlainThenPattern(s: string, pat: string)
    requires |pat| == 2 && pat[0] !in s
    ensures Erase(s + pat, pat) == s
    decreases |s|
  {
    if s == [] {
      assert (s + pat)[..2] == pat;
      assert (s + pat)[2..] == [];
    } else {
      assert (s + pat)[..2] != pat by { assert (s + pat)[0] == s[0]; }
      assert (s + pat)[1..] == s[1..] + pat;
      ErasePlainThenPattern(s[1..], pat);
    }
  }

  /** The normaliser is not idempotent: a second list marker survives the
      first pass and is stripped by a second one. */
  lemma RawTextNotIdempotent()
    ensures RawText("- - a") == "- a"
    ensures RawText(RawText("- - a")) == "a"
  {
    BulletDropped("- ", "- a");
    BulletDropped("- ", "a");
  }
}
