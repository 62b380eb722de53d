/**
  The text clean-up of `scrape_webpage` (web_scraper_app.py, lines 50-52):
  split the extracted page text into lines, strip each line, split each
  stripped line at every double space, strip each phrase, drop the empty
  phrases and join the rest with "\n".
 */
module Cleanup {
  import opened Text

  /** The separator of line 51: exactly two U+0020 spaces. */
  const PhraseSeparator: string := "  "

  /** The separator of line 52. */
  const LineSeparator: string := "\n"

  ghost predicate NoDoubleSpace(s: string) {
    forall i :: 0 <= i ==> !OccursAt(s, PhraseSeparator, i)
  }

  /** What every emitted chunk looks like: non-empty, no outer whitespace,
      no line boundary inside and no double space inside. */
  ghost predicate Clean(c: string) {
    && c != []
    && !IsSpace(c[0])
    && !IsSpace(c[|c| - 1])
    && NoBreak(c)
    && NoDoubleSpace(c)
  }

  /** Stripping keeps the two properties a chunk inherits from its line. */
  lemma StripKeepsInner(s: string)
    ensures NoBreak(s) ==> NoBreak(Strip(s))
    ensures NoDoubleSpace(s) ==> NoDoubleSpace(Strip(s))
  {
    if NoBreak(s) {
      StripWithin(s);
      NoBreakWithin(Strip(s), s);
    }
    if NoDoubleSpace(s) {
      var a := StripStart(s);
      NoOccurrenceSlice(s, PhraseSeparator, a, SkipSpaceBack(s, a, |s|));
    }
  }

  /** The phrases of a line without boundaries have none either, nor a double space. */
  lemma PhrasesInner(stripped: string)
    requires NoBreak(stripped)
    ensures forall j :: 0 <= j < |Split(stripped, PhraseSeparator)| ==>
      NoBreak(Split(stripped, PhraseSeparator)[j]) && NoDoubleSpace(Split(stripped, PhraseSeparator)[j])
  {
    var phrases := Split(stripped, PhraseSeparator);
    forall j | 0 <= j < |phrases|
      ensures NoBreak(phrases[j])
    {
      NoBreakWithin(phrases[j], stripped);
    }
  }

  /** `phrase.strip() ... if chunk` over the phrases of one line, in order. */
  function KeepStripped(phrases: seq<string>): (r: seq<string>)
    ensures |r| <= |phrases|
    ensures forall j :: 0 <= j < |r| ==> r[j] != [] && !IsSpace(r[j][0]) && !IsSpace(r[j][|r[j]| - 1])
  {
    if phrases == [] then []
    else
      var c := Strip(phrases[0]);
      var rest := KeepStripped(phrases[1..]);
      if c == [] then rest else [c] + rest
  }

  /** One phrase contributes its strip, unless that is empty. */
  lemma KeepStrippedSingle(p: string)
    ensures KeepStripped([p]) == if Strip(p) == [] then [] else [Strip(p)]
  {
    assert [p][1..] == [];
  }

  /** Phrases are kept or dropped one by one, in order. */
  lemma {:induction false} KeepStrippedAppend(a: seq<string>, b: seq<string>)
    ensures KeepStripped(a + b) == KeepStripped(a) + KeepStripped(b)
    decreases |a|
  {
    if a == [] {
      assert a + b == b;
    } else {
      assert (a + b)[0] == a[0];
      assert (a + b)[1..] == a[1..] + b;
      KeepStrippedAppend(a[1..], b);
    }
  }

  /** Stripping the phrases and dropping the blank ones loses no visible character. */
  lemma {:induction false} KeepStrippedVisible(phrases: seq<string>)
    ensures ConcatDelSpace(KeepStripped(phrases)) == ConcatDelSpace(phrases)
    decreases |phrases|
  {
    if phrases != [] {
      var c := Strip(phrases[0]);
      var rest := KeepStripped(phrases[1..]);
      KeepStrippedVisible(phrases[1..]);
      StripVisible(phrases[0]);
      if c != [] {
        ConcatDelSpaceCons(c, rest);
      }
    }
  }

  /** Stripped phrases keep what their phrases had: no boundary, no double space. */
  lemma {:induction false} KeepStrippedInner(phrases: seq<string>)
    requires forall j :: 0 <= j < |phrases| ==> NoBreak(phrases[j]) && NoDoubleSpace(phrases[j])
    ensures forall j :: 0 <= j < |KeepStripped(phrases)| ==> Clean(KeepStripped(phrases)[j])
    decreases |phrases|
  {
    if phrases != [] {
      KeepStrippedInner(phrases[1..]);
      StripKeepsInner(phrases[0]);
    }
  }

  /** The chunks one line of `text.splitlines()` contributes (lines 50-51). */
  function LineChunks(line: string): (r: seq<string>)
    ensures ConcatDelSpace(r) == DelSpace(line)
  {
    LineChunksVisible(line);
    KeepStripped(Split(Strip(line), PhraseSeparator))
  }

  lemma LineChunksVisible(line: string)
    ensures ConcatDelSpace(KeepStripped(Split(Strip(line), PhraseSeparator))) == DelSpace(line)
  {
    KeepStrippedVisible(Split(Strip(line), PhraseSeparator));
    PhrasesVisible(Strip(line));
    StripVisible(line);
  }

  /** Splitting at double spaces drops only the (blank) separators. */
  lemma PhrasesVisible(s: string)
    ensures ConcatDelSpace(Split(s, PhraseSeparator)) == DelSpace(s)
  {
    assert AllSpace(PhraseSeparator);
    DelSpaceJoin(Split(s, PhraseSeparator), PhraseSeparator);
    JoinSplit(s, PhraseSeparator);
  }

  /** A line without boundaries yields clean chunks only. */
  lemma LineChunksClean(line: string)
    requires NoBreak(line)
    ensures forall j :: 0 <= j < |LineChunks(line)| ==> Clean(LineChunks(line)[j])
  {
    var stripped := Strip(line);
    StripKeepsInner(line);
    PhrasesInner(stripped);
    KeepStrippedInner(Split(stripped, PhraseSeparator));
  }

  /** The chunks of a sequence of lines, line after line. */
  function ChunksOfLines(lines: seq<string>): (r: seq<string>)
    ensures ConcatDelSpace(r) == ConcatDelSpace(lines)
  {
    if lines == [] then []
    else
      var first := LineChunks(lines[0]);
      var rest := ChunksOfLines(lines[1..]);
      ConcatDelSpaceAppend(first, rest);
      first + rest
  }

  lemma {:induction false} ChunksOfLinesClean(lines: seq<string>)
    requires forall j :: 0 <= j < |lines| ==> NoBreak(lines[j])
    ensures forall j :: 0 <= j < |ChunksOfLines(lines)| ==> Clean(ChunksOfLines(lines)[j])
    decreases |lines|
  {
    if lines != [] {
      LineChunksClean(lines[0]);
      ChunksOfLinesClean(lines[1..]);
    }
  }

  /** The non-empty chunks of the page text, in document order (lines 50-52,
      before the join). */
  function Chunks(text: string): (r: seq<string>)
    ensures forall j :: 0 <= j < |r| ==> Clean(r[j])
    ensures ConcatDelSpace(r) == DelSpace(text)
  {
    DelSpaceSplitLines(text);
    ChunksOfLinesClean(SplitLines(text));
    ChunksOfLines(SplitLines(text))
  }

  /** Chunks joined by "\n": no empty line, no outer whitespace. */
  lemma {:induction false} JoinCleanShape(cs: seq<string>)
    requires forall j :: 0 <= j < |cs| ==> Clean(cs[j])
    ensures var r := Join(cs, LineSeparator);
      && (r == [] <==> cs == [])
      && (r != [] ==> !IsSpace(r[0]) && !IsSpace(r[|r| - 1]))
      && forall i :: 0 <= i < |r| - 1 ==> !(r[i] == '\n' && r[i + 1] == '\n')
    decreases |cs|
  {
    if |cs| > 1 {
      var x := cs[0];
      var rest := Join(cs[1..], LineSeparator);
      JoinCleanShape(cs[1..]);
      var r := Join(cs, LineSeparator);
      assert r == x + "\n" + rest;
      forall i | 0 <= i < |r| - 1
        ensures !(r[i] == '\n' && r[i + 1] == '\n')
      {
        if i < |x| - 1 {
          assert r[i] == x[i];
          assert !IsLineBreak(x[i]);
        } else if i == |x| - 1 {
          assert r[i] == x[|x| - 1];
        } else if i == |x| {
          assert r[i + 1] == rest[0];
        } else {
          assert r[i] == rest[i - |x| - 1];
          assert r[i + 1] == rest[i - |x|];
        }
      }
      assert r[|r| - 1] == rest[|rest| - 1];
    }
  }

  /** Lines 50-52: the cleaned-up text of a page. */
  function Normalize(text: string): (r: string)
    ensures r != [] ==> !IsSpace(r[0]) && !IsSpace(r[|r| - 1])
    ensures forall i :: 0 <= i < |r| - 1 ==> !(r[i] == '\n' && r[i + 1] == '\n')
    ensures DelSpace(r) == DelSpace(text)
  {
    var cs := Chunks(text);
    JoinCleanShape(cs);
    assert AllSpace(LineSeparator);
    DelSpaceJoin(cs, LineSeparator);
    Join(cs, LineSeparator)
  }

  /** The lines of the normalised text are exactly the chunks, and every one
      of them is clean: non-empty, trimmed, no double space. */
  lemma NormalizedLines(text: string)
    ensures SplitLines(Normalize(text)) == Chunks(text)
    ensures forall j :: 0 <= j < |SplitLines(Normalize(text))| ==> Clean(SplitLines(Normalize(text))[j])
  {
    var cs := Chunks(text);
    assert Normalize(text) == Join(cs, LineSeparator);
    assert forall j :: 0 <= j < |cs| ==> cs[j] != [] && NoBreak(cs[j]) by {
      forall j | 0 <= j < |cs|
        ensures cs[j] != [] && NoBreak(cs[j])
      {
        assert Clean(cs[j]);
      }
    }
    SplitLinesJoin(cs);
  }

  /** A clean line is its own single chunk. */
  lemma {:induction false} ChunksOfCleanLines(lines: seq<string>)
    requires forall j :: 0 <= j < |lines| ==> Clean(lines[j])
    ensures ChunksOfLines(lines) == lines
    decreases |lines|
  {
    if lines != [] {
      var rest := lines[1..];
      assert Clean(lines[0]);
      forall j | 0 <= j < |rest|
        ensures Clean(rest[j])
      {
        assert rest[j] == lines[j + 1];
      }
      CleanLineChunks(lines[0]);
      ChunksOfCleanLines(rest);
      assert ChunksOfLines(lines) == LineChunks(lines[0]) + ChunksOfLines(rest);
      HeadTail(lines);
    }
  }

  /** A clean line is already stripped and holds no double space, so it is its own only chunk. */
  lemma CleanLineChunks(c: string)
    requires Clean(c)
    ensures LineChunks(c) == [c]
  {
    StripStripped(c);
    SplitNoOccurrence(c, PhraseSeparator);
    assert KeepStripped([c]) == [c] by {
      assert [c][1..] == [];
    }
  }

  /** Cleaning cleaned text changes nothing. */
  lemma NormalizeIdempotent(text: string)
    ensures Normalize(Normalize(text)) == Normalize(text)
  {
    NormalizedLines(text);
    ChunksOfCleanLines(Chunks(text));
  }

  /* ---------------------------------------------------------------------- */
  /* Where the text is cut                                                  */
  /* ---------------------------------------------------------------------- */

  /** A clean chunk ends at the first double space that follows it. */
  lemma CleanCutAtFirst(c: string)
    requires Clean(c)
    ensures CutAtFirst(c, PhraseSeparator)
  {
    forall i | 0 <= i < |c|
      ensures !OccursAt(c + PhraseSeparator, PhraseSeparator, i)
    {
      var s := c + PhraseSeparator;
      if i + 2 <= |c| {
        assert !OccursAt(c, PhraseSeparator, i);
        assert s[i..i + 2] == c[i..i + 2];
      } else {
        assert s[i] == c[|c| - 1];
        assert s[i..i + 2][0] == s[i];
      }
    }
  }

  /** Clean chunks joined by a double space split back into those chunks. */
  lemma {:induction false} SplitJoinClean(cs: seq<string>)
    requires cs != []
    requires forall j :: 0 <= j < |cs| ==> Clean(cs[j])
    ensures Split(Join(cs, PhraseSeparator), PhraseSeparator) == cs
    decreases |cs|
  {
    assert Clean(cs[0]);
    if |cs| == 1 {
      SplitNoOccurrence(cs[0], PhraseSeparator);
    } else {
      var rest := cs[1..];
      assert forall j :: 0 <= j < |rest| ==> Clean(rest[j]) by {
        forall j | 0 <= j < |rest| ensures Clean(rest[j]) { assert rest[j] == cs[j + 1]; }
      }
      SplitJoinClean(rest);
      CleanCutAtFirst(cs[0]);
      SplitCons(cs[0], PhraseSeparator, Join(rest, PhraseSeparator));
      HeadTail(cs);
    }
  }

  /** Clean chunks are kept as they are. */
  lemma {:induction false} KeepStrippedClean(cs: seq<string>)
    requires forall j :: 0 <= j < |cs| ==> Clean(cs[j])
    ensures KeepStripped(cs) == cs
    decreases |cs|
  {
    if cs != [] {
      assert Clean(cs[0]);
      StripStripped(cs[0]);
      var rest := cs[1..];
      assert forall j :: 0 <= j < |rest| ==> Clean(rest[j]) by {
        forall j | 0 <= j < |rest| ensures Clean(rest[j]) { assert rest[j] == cs[j + 1]; }
      }
      KeepStrippedClean(rest);
      HeadTail(cs);
    }
  }

  /** Pieces without boundaries, joined by a separator without boundaries,
      hold none. */
  lemma {:induction false} JoinNoBreak(xs: seq<string>, sep: string)
    requires NoBreak(sep)
    requires forall j :: 0 <= j < |xs| ==> NoBreak(xs[j])
    ensures NoBreak(Join(xs, sep))
    decreases |xs|
  {
    if |xs| > 1 {
      var rest := xs[1..];
      assert forall j :: 0 <= j < |rest| ==> NoBreak(rest[j]) by {
        forall j | 0 <= j < |rest| ensures NoBreak(rest[j]) { assert rest[j] == xs[j + 1]; }
      }
      JoinNoBreak(rest, sep);
      var r := Join(rest, sep);
      var s := xs[0] + sep + r;
      forall i | 0 <= i < |s|
        ensures !IsLineBreak(s[i])
      {
        if i < |xs[0]| {
          assert s[i] == xs[0][i];
        } else if i < |xs[0]| + |sep| {
          assert s[i] == sep[i - |xs[0]|];
        } else {
          assert s[i] == r[i - |xs[0]| - |sep|];
        }
      }
    }
  }

  /** A text without boundaries is one line of `splitlines()`. */
  lemma ChunksOfUnbroken(s: string)
    requires s != [] && NoBreak(s)
    ensures Chunks(s) == LineChunks(s)
  {
    SplitLinesNoBreak(s);
    assert ChunksOfLines([s]) == LineChunks(s) + ChunksOfLines([]) by {
      assert [s][1..] == [];
    }
  }

  /** Line 50 cuts the page text at every line boundary: the chunks of the
      text are those of the first line followed by those of the rest. */
  lemma ChunksAtBreak(x: string, b: string, y: string)
    requires NoBreak(x)
    requires b == "\r\n" || (|b| == 1 && IsLineBreak(b[0]) && !(b[0] == '\r' && y != [] && y[0] == '\n'))
    ensures Chunks(x + b + y) == Chunks(x) + Chunks(y)
  {
    SplitLinesCons(x, b, y);
    var lines := [x] + SplitLines(y);
    assert lines[1..] == SplitLines(y);
    assert ChunksOfLines(lines) == LineChunks(x) + Chunks(y);
    if x == [] {
      SplitLinesNoBreak(x);
      assert Split(Strip(x), PhraseSeparator) == [[]];
      assert KeepStripped([[]]) == [];
    } else {
      ChunksOfUnbroken(x);
    }
  }

  /** A clean line padded with boundary-free whitespace has no boundary. */
  lemma PaddedNoBreak(pre: string, c: string, post: string)
    requires Clean(c) && NoBreak(pre) && NoBreak(post)
    ensures pre + c + post != [] && NoBreak(pre + c + post)
  {
    var s := pre + c + post;
    forall i | 0 <= i < |s|
      ensures !IsLineBreak(s[i])
    {
      if i < |pre| {
        assert s[i] == pre[i];
      } else if i < |pre| + |c| {
        assert s[i] == c[i - |pre|];
      } else {
        assert s[i] == post[i - |pre| - |c|];
      }
    }
  }

  /** A clean line padded with whitespace (but no boundary) is still its own
      single chunk: line 50 strips the indentation. */
  lemma PaddedLineChunks(pre: string, c: string, post: string)
    requires Clean(c) && AllSpace(pre) && AllSpace(post) && NoBreak(pre) && NoBreak(post)
    ensures Chunks(pre + c + post) == [c]
  {
    PaddedNoBreak(pre, c, post);
    StripPadded(pre, c, post);
    StripStripped(c);
    CleanLineChunks(c);
    ChunksOfUnbroken(pre + c + post);
  }

  /** Two indented clean lines, separated by any one line boundary ("\r\n"
      included), are cleaned to those two lines joined by "\n". */
  lemma NormalizePaddedLines(pre1: string, c1: string, post1: string, b: string,
                             pre2: string, c2: string, post2: string)
    requires Clean(c1) && Clean(c2)
    requires AllSpace(pre1) && NoBreak(pre1) && AllSpace(post1) && NoBreak(post1)
    requires AllSpace(pre2) && NoBreak(pre2) && AllSpace(post2) && NoBreak(post2)
    requires b == "\r\n" || (|b| == 1 && IsLineBreak(b[0]))
    ensures Normalize((pre1 + c1 + post1) + b + (pre2 + c2 + post2)) == c1 + LineSeparator + c2
  {
    var x := pre1 + c1 + post1;
    var y := pre2 + c2 + post2;
    PaddedLineChunks(pre1, c1, post1);
    PaddedLineChunks(pre2, c2, post2);
    assert NoBreak(x) by {
      PaddedNoBreak(pre1, c1, post1);
    }
    assert y != [] && !IsLineBreak(y[0]) by {
      PaddedNoBreak(pre2, c2, post2);
    }
    calc {
      Normalize(x + b + y);
      Join(Chunks(x + b + y), LineSeparator);
      { ChunksAtBreak(x, b, y); }
      Join([c1] + [c2], LineSeparator);
      { JoinCons(c1, [c2], LineSeparator); }
      c1 + LineSeparator + c2;
    }
  }

  /** Clean chunks joined by anything start and end with a visible character. */
  lemma JoinCleanEnds(cs: seq<string>, sep: string)
    requires cs != [] && Clean(cs[0]) && Clean(cs[|cs| - 1])
    ensures var s := Join(cs, sep); s != [] && !IsSpace(s[0]) && !IsSpace(s[|s| - 1])
  {
    var s := Join(cs, sep);
    var first, last := cs[0], cs[|cs| - 1];
    JoinEnds(cs, sep);
    assert s[..|first|] == first;
    assert s[0] == s[..|first|][0];
    assert s[|s| - |last|..] == last;
    assert s[|s| - 1] == s[|s| - |last|..][|last| - 1];
  }

  /** Line 51 cuts at every double space: clean chunks joined by double
      spaces come out as exactly those chunks. */
  lemma ChunksJoinDoubleSpace(cs: seq<string>)
    requires forall j :: 0 <= j < |cs| ==> Clean(cs[j])
    ensures Chunks(Join(cs, PhraseSeparator)) == cs
  {
    var s := Join(cs, PhraseSeparator);
    if cs == [] {
      SplitLinesNoBreak(s);
    } else {
      CleanJoinLine(cs);
      SplitJoinClean(cs);
      KeepStrippedClean(cs);
      OneLineChunks(s, cs);
    }
  }

  /** Clean chunks joined by a double space form one trimmed line without
      boundaries. */
  lemma CleanJoinLine(cs: seq<string>)
    requires cs != []
    requires forall j :: 0 <= j < |cs| ==> Clean(cs[j])
    ensures var s := Join(cs, PhraseSeparator);
      s != [] && !IsSpace(s[0]) && !IsSpace(s[|s| - 1]) && NoBreak(s)
  {
    var s := Join(cs, PhraseSeparator);
    assert s != [] && !IsSpace(s[0]) && !IsSpace(s[|s| - 1]) by {
      JoinCleanEnds(cs, PhraseSeparator);
    }
    assert NoBreak(s) by {
      CleanJoinNoBreak(cs);
    }
  }

  lemma CleanJoinNoBreak(cs: seq<string>)
    requires forall j :: 0 <= j < |cs| ==> Clean(cs[j])
    ensures NoBreak(Join(cs, PhraseSeparator))
  {
    assert NoBreak(PhraseSeparator);
    forall j | 0 <= j < |cs|
      ensures NoBreak(cs[j])
    {
      assert Clean(cs[j]);
    }
    JoinNoBreak(cs, PhraseSeparator);
  }

  /** A trimmed line without boundaries whose phrases are all kept as they
      are yields exactly those phrases. */
  lemma OneLineChunks(s: string, cs: seq<string>)
    requires s != [] && !IsSpace(s[0]) && !IsSpace(s[|s| - 1]) && NoBreak(s)
    requires Split(s, PhraseSeparator) == cs && KeepStripped(cs) == cs
    ensures Chunks(s) == cs
  {
    calc {
      Chunks(s);
      { ChunksOfUnbroken(s); }
      LineChunks(s);
      KeepStripped(Split(Strip(s), PhraseSeparator));
      { StripStripped(s); }
      KeepStripped(Split(s, PhraseSeparator));
    }
  }

  /** Lines 50-52 turn every double space between clean chunks into a line break. */
  lemma NormalizeDoubleSpace(cs: seq<string>)
    requires forall j :: 0 <= j < |cs| ==> Clean(cs[j])
    ensures Normalize(Join(cs, PhraseSeparator)) == Join(cs, LineSeparator)
  {
    ChunksJoinDoubleSpace(cs);
  }

  /** A non-empty word without whitespace or double space is clean. */
  lemma WordClean(w: string)
    requires w != [] && forall i :: 0 <= i < |w| ==> !IsSpace(w[i])
    ensures Clean(w)
  {
    forall i | 0 <= i < |w|
      ensures !IsLineBreak(w[i])
    {
      LineBreakIsSpace(w[i]);
    }
    forall i | 0 <= i
      ensures !OccursAt(w, PhraseSeparator, i)
    {
      if i + 2 <= |w| {
        assert w[i..i + 2][0] == w[i];
      }
    }
  }

  /** "Hello  World" is cleaned to two lines. */
  lemma NormalizeHelloWorld()
    ensures Normalize("Hello  World") == "Hello\nWorld"
  {
    WordClean("Hello");
    WordClean("World");
    var cs := ["Hello", "World"];
    assert cs[1..] == ["World"];
    assert Join(cs, PhraseSeparator) == "Hello  World";
    assert Join(cs, LineSeparator) == "Hello\nWorld";
    NormalizeDoubleSpace(cs);
  }

  /** The result is empty exactly when the page text holds no visible character. */
  lemma NormalizeEmptyIffBlank(text: string)
    ensures Normalize(text) == [] <==> AllSpace(text)
  {
    var r := Normalize(text);
    DelSpaceEmpty(text);
    DelSpaceEmpty(r);
    if r != [] {
      assert !IsSpace(r[0]);
    }
  }

  /** The `text.strip()` of line 54 sees the normalised text unchanged. */
  lemma NormalizeIsStripped(text: string)
    ensures Strip(Normalize(text)) == Normalize(text)
  {
    StripStripped(Normalize(text));
  }
}
