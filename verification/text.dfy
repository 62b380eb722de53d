/**
  Python string primitives the scraper relies on, over `string` (= `seq<char>`,
  one `char` per Unicode scalar value, as a Python `str` holds code points):
  `str.isspace`, `str.strip`, `str.split(sep)`, `sep.join`, `str.splitlines`,
  `in` on strings, `str.startswith` and `str.lower`.
 */
module Text {

  datatype Option<+T> = None | Some(value: T)

  /* ---------------------------------------------------------------------- */
  /* Character classes                                                      */
  /* ---------------------------------------------------------------------- */

  /** Python's `str.isspace()` on one character: bidirectional class WS, B or S,
      or general category Zs. */
  predicate IsSpace(c: char) {
    || ('\U{0009}' <= c <= '\U{000D}')
    || ('\U{001C}' <= c <= '\U{0020}')
    || c == '\U{0085}'
    || c == '\U{00A0}'
    || c == '\U{1680}'
    || ('\U{2000}' <= c <= '\U{200A}')
    || c == '\U{2028}'
    || c == '\U{2029}'
    || c == '\U{202F}'
    || c == '\U{205F}'
    || c == '\U{3000}'
  }

  /** The line boundaries of Python's `str.splitlines()`: \n, \v, \f, \r,
      the file/group/record separators, NEL, LINE SEPARATOR and PARAGRAPH
      SEPARATOR ("\r\n" is handled by `SplitLines`). */
  predicate IsLineBreak(c: char) {
    || ('\U{000A}' <= c <= '\U{000D}')
    || ('\U{001C}' <= c <= '\U{001E}')
    || c == '\U{0085}'
    || c == '\U{2028}'
    || c == '\U{2029}'
  }

  /** Every line boundary is whitespace, so `strip` removes stray boundaries. */
  lemma LineBreakIsSpace(c: char)
    ensures IsLineBreak(c) ==> IsSpace(c)
  {
  }

  ghost predicate AllSpace(s: string) {
    forall i :: 0 <= i < |s| ==> IsSpace(s[i])
  }

  ghost predicate NoBreak(s: string) {
    forall i :: 0 <= i < |s| ==> !IsLineBreak(s[i])
  }

  /** Every character of `p` occurs in `s` (true of any slice of `s`). */
  ghost predicate Within(p: string, s: string) {
    forall c :: c in p ==> c in s
  }

  lemma SliceWithin(s: string, a: nat, b: nat)
    requires a <= b <= |s|
    ensures Within(s[a..b], s)
  {
    forall c | c in s[a..b]
      ensures c in s
    {
      var k :| 0 <= k < b - a && s[a..b][k] == c;
      assert s[a + k] == c;
    }
  }

  lemma NoBreakWithin(p: string, s: string)
    requires Within(p, s)
    ensures NoBreak(s) ==> NoBreak(p)
  {
    if NoBreak(s) {
      forall i | 0 <= i < |p|
        ensures !IsLineBreak(p[i])
      {
        assert p[i] in p;
        var k :| 0 <= k < |s| && s[k] == p[i];
      }
    }
  }

  /* ---------------------------------------------------------------------- */
  /* Deleting whitespace: the yardstick for "only whitespace changed"       */
  /* ---------------------------------------------------------------------- */

  /** The non-whitespace characters of `s`, in order. */
  function DelSpace(s: string): string {
    if s == [] then []
    else (if IsSpace(s[0]) then [] else [s[0]]) + DelSpace(s[1..])
  }

  lemma {:induction false} DelSpaceAppend(a: string, b: string)
    ensures DelSpace(a + b) == DelSpace(a) + DelSpace(b)
    decreases |a|
  {
    if a == [] {
      assert a + b == b;
    } else {
      var h := if IsSpace(a[0]) then [] else [a[0]];
      calc {
        DelSpace(a + b);
        { assert (a + b)[0] == a[0]; assert (a + b)[1..] == a[1..] + b; }
        h + DelSpace(a[1..] + b);
        { DelSpaceAppend(a[1..], b); }
        h + (DelSpace(a[1..]) + DelSpace(b));
        (h + DelSpace(a[1..])) + DelSpace(b);
        DelSpace(a) + DelSpace(b);
      }
    }
  }

  /** A string loses everything under `DelSpace` exactly when it is all whitespace. */
  lemma {:induction false} DelSpaceEmpty(s: string)
    ensures DelSpace(s) == [] <==> AllSpace(s)
    decreases |s|
  {
    if s != [] {
      DelSpaceEmpty(s[1..]);
      if AllSpace(s[1..]) {
        if IsSpace(s[0]) {
          forall i | 0 <= i < |s| ensures IsSpace(s[i]) {
            if i > 0 { assert s[i] == s[1..][i - 1]; }
          }
        }
      } else {
        var i :| 0 <= i < |s[1..]| && !IsSpace(s[1..][i]);
        assert s[i + 1] == s[1..][i];
      }
    }
  }

  /* ---------------------------------------------------------------------- */
  /* str.strip()                                                            */
  /* ---------------------------------------------------------------------- */

  /** The left scan of `str.strip()`: the first index at or after `i` whose
      character is not whitespace, or `|s|` when there is none. */
  function SkipSpace(s: string, i: nat): (k: nat)
    requires i <= |s|
    ensures i <= k <= |s|
    ensures k == |s| || !IsSpace(s[k])
    decreases |s| - i
  {
    if i < |s| && IsSpace(s[i]) then SkipSpace(s, i + 1) else i
  }

  /** The right scan of `str.strip()`, which stops at the left scan's index
      `lo`: one past the last non-whitespace character before `j`, or `lo`. */
  function SkipSpaceBack(s: string, lo: nat, j: nat): (k: nat)
    requires lo <= j <= |s|
    ensures lo <= k <= j
    ensures k == lo || !IsSpace(s[k - 1])
    decreases j
  {
    if lo < j && IsSpace(s[j - 1]) then SkipSpaceBack(s, lo, j - 1) else j
  }

  /** Everything the left scan passes over is whitespace. */
  lemma {:induction false} SkipSpaceSkipsSpace(s: string, i: nat)
    requires i <= |s|
    ensures forall j :: i <= j < SkipSpace(s, i) ==> IsSpace(s[j])
    decreases |s| - i
  {
    if i < |s| && IsSpace(s[i]) {
      SkipSpaceSkipsSpace(s, i + 1);
    }
  }

  /** Everything the right scan passes over is whitespace. */
  lemma {:induction false} SkipSpaceBackSkipsSpace(s: string, lo: nat, j: nat)
    requires lo <= j <= |s|
    ensures forall m :: SkipSpaceBack(s, lo, j) <= m < j ==> IsSpace(s[m])
    decreases j
  {
    if lo < j && IsSpace(s[j - 1]) {
      SkipSpaceBackSkipsSpace(s, lo, j - 1);
    }
  }

  /** Where `strip` starts cutting its result out of `s`. */
  function StripStart(s: string): (k: nat)
    ensures k <= |s|
  {
    SkipSpace(s, 0)
  }

  /** `str.strip()` with no argument: the slice between the two scans. */
  function Strip(s: string): (r: string)
    ensures |r| <= |s|
    ensures r == [] || (!IsSpace(r[0]) && !IsSpace(r[|r| - 1]))
  {
    var a := StripStart(s);
    s[a..SkipSpaceBack(s, a, |s|)]
  }

  /** `strip` cuts only at the ends: the result is the slice of `s` that
      starts at `StripStart(s)`, and what it cuts off on either side of that
      slice is whitespace. */
  lemma StripCutsSpace(s: string)
    ensures var k := StripStart(s);
      SliceAt(Strip(s), s, k) && AllSpace(s[..k]) && AllSpace(s[k + |Strip(s)|..])
  {
    var a := StripStart(s);
    var b := SkipSpaceBack(s, a, |s|);
    SkipSpaceSkipsSpace(s, 0);
    SkipSpaceBackSkipsSpace(s, a, |s|);
    assert AllSpace(s[..a]) by {
      forall i | 0 <= i < a ensures IsSpace(s[..a][i]) { assert s[..a][i] == s[i]; }
    }
    assert AllSpace(s[b..]) by {
      forall i | 0 <= i < |s| - b ensures IsSpace(s[b..][i]) { assert s[b..][i] == s[b + i]; }
    }
  }

  /** `r` is the slice of `s` that starts at offset `k`. */
  ghost predicate SliceAt(r: string, s: string, k: int) {
    0 <= k && k + |r| <= |s| && r == s[k..k + |r|]
  }

  /** Hence `strip` holds only characters of its input. */
  lemma StripWithin(s: string)
    ensures Within(Strip(s), s)
  {
    var a := StripStart(s);
    SliceWithin(s, a, SkipSpaceBack(s, a, |s|));
  }

  /** Dropping a whitespace prefix loses no visible character. */
  lemma DelSpaceDropFront(s: string, k: nat)
    requires k <= |s| && AllSpace(s[..k])
    ensures DelSpace(s) == DelSpace(s[k..])
  {
    calc {
      DelSpace(s);
      { assert s == s[..k] + s[k..]; }
      DelSpace(s[..k] + s[k..]);
      { DelSpaceAppend(s[..k], s[k..]); }
      DelSpace(s[..k]) + DelSpace(s[k..]);
      { DelSpaceEmpty(s[..k]); }
      DelSpace(s[k..]);
    }
  }

  /** Dropping a whitespace suffix loses no visible character. */
  lemma DelSpaceDropBack(s: string, k: nat)
    requires k <= |s| && AllSpace(s[k..])
    ensures DelSpace(s) == DelSpace(s[..k])
  {
    calc {
      DelSpace(s);
      { assert s == s[..k] + s[k..]; }
      DelSpace(s[..k] + s[k..]);
      { DelSpaceAppend(s[..k], s[k..]); }
      DelSpace(s[..k]) + DelSpace(s[k..]);
      { DelSpaceEmpty(s[k..]); }
      DelSpace(s[..k]);
    }
  }

  /** `strip` drops only whitespace. */
  lemma StripVisible(s: string)
    ensures DelSpace(Strip(s)) == DelSpace(s)
  {
    var a := StripStart(s);
    var r := Strip(s);
    StripCutsSpace(s);
    var front := s[..a + |r|];
    calc {
      DelSpace(s);
      { assert s[..a + |r|] == front; DelSpaceDropBack(s, a + |r|); }
      DelSpace(front);
      { assert front[..a] == s[..a]; DelSpaceDropFront(front, a); }
      DelSpace(front[a..]);
      { assert front[a..] == r; }
      DelSpace(r);
    }
  }

  /** Whitespace around a trimmed string is exactly what `strip` removes. */
  lemma StripPadded(pre: string, c: string, post: string)
    requires AllSpace(pre) && AllSpace(post)
    requires c != [] && !IsSpace(c[0]) && !IsSpace(c[|c| - 1])
    ensures Strip(pre + c + post) == c
  {
    var s := pre + c + post;
    var lo := |pre|;
    var hi := |pre| + |c|;
    assert s[lo] == c[0];
    assert s[hi - 1] == c[|c| - 1];
    SkipSpaceSkipsSpace(s, 0);
    var a := SkipSpace(s, 0);
    assert a == lo;
    SkipSpaceBackSkipsSpace(s, a, |s|);
    var b := SkipSpaceBack(s, a, |s|);
    assert b == hi;
    assert s[lo..hi] == c;
  }

  /** A string that already has no outer whitespace is its own strip. */
  lemma StripStripped(s: string)
    requires s == [] || (!IsSpace(s[0]) && !IsSpace(s[|s| - 1]))
    ensures Strip(s) == s
  {
  }

  /* ---------------------------------------------------------------------- */
  /* Substring search: `in`, str.find, str.startswith                       */
  /* ---------------------------------------------------------------------- */

  ghost predicate OccursAt(s: string, pat: string, i: int) {
    0 <= i && i + |pat| <= |s| && s[i..i + |pat|] == pat
  }

  /** The leftmost occurrence of `pat` in `s` at or after `k`. */
  function FindFrom(s: string, pat: string, k: nat): (r: Option<nat>)
    requires k <= |s|
    ensures r.Some? ==> k <= r.value && OccursAt(s, pat, r.value)
    ensures r.Some? ==> forall i :: k <= i < r.value ==> !OccursAt(s, pat, i)
    ensures r.None? ==> forall i :: k <= i ==> !OccursAt(s, pat, i)
    decreases |s| - k
  {
    if k + |pat| > |s| then None
    else if s[k..k + |pat|] == pat then Some(k)
    else FindFrom(s, pat, k + 1)
  }

  /** Python's `pat in s`. */
  function Contains(s: string, pat: string): (b: bool)
    ensures b <==> exists i :: OccursAt(s, pat, i)
  {
    FindFrom(s, pat, 0).Some?
  }

  /** Python's `s.startswith(p)`. */
  predicate StartsWith(s: string, p: string) {
    |p| <= |s| && s[..|p|] == p
  }

  /** Python's `s.endswith(p)`. */
  predicate EndsWith(s: string, p: string) {
    |p| <= |s| && s[|s| - |p|..] == p
  }

  /** Occurrences inside a slice are occurrences in the whole string. */
  lemma NoOccurrenceSlice(s: string, pat: string, a: nat, b: nat)
    requires a <= b <= |s|
    requires forall i :: 0 <= i ==> !OccursAt(s, pat, i)
    ensures forall i :: 0 <= i ==> !OccursAt(s[a..b], pat, i)
  {
    forall i | 0 <= i
      ensures !OccursAt(s[a..b], pat, i)
    {
      assert !OccursAt(s, pat, a + i);
      if i + |pat| <= b - a {
        var u, v := s[a..b][i..i + |pat|], s[a + i..a + i + |pat|];
        assert forall j :: 0 <= j < |u| ==> u[j] == v[j];
        assert u == v;
      }
    }
  }

  /* ---------------------------------------------------------------------- */
  /* str.split(sep) and sep.join(xs)                                        */
  /* ---------------------------------------------------------------------- */

  /** `sep.join(xs)`. */
  function Join(xs: seq<string>, sep: string): (r: string)
    ensures xs == [] ==> r == []
    ensures xs != [] ==> |xs[0]| <= |r| && |xs[|xs| - 1]| <= |r|
  {
    if |xs| == 0 then []
    else if |xs| == 1 then xs[0]
    else xs[0] + sep + Join(xs[1..], sep)
  }

  /** The join starts with the first piece and ends with the last. */
  lemma {:induction false} JoinEnds(xs: seq<string>, sep: string)
    requires xs != []
    ensures StartsWith(Join(xs, sep), xs[0]) && EndsWith(Join(xs, sep), xs[|xs| - 1])
    decreases |xs|
  {
    if |xs| > 1 {
      var rest := Join(xs[1..], sep);
      var r := xs[0] + sep + rest;
      JoinEnds(xs[1..], sep);
      assert r[..|xs[0]|] == xs[0];
      assert r[|r| - |rest|..] == rest;
      assert rest[|rest| - |xs[|xs| - 1]|..] == xs[|xs| - 1];
      assert r[|r| - |xs[|xs| - 1]|..] == rest[|rest| - |xs[|xs| - 1]|..];
    }
  }

  /** `s.split(sep)` for a non-empty separator (Python raises on an empty one):
      cut at the leftmost occurrence, continue after it, keep empty pieces. */
  function Split(s: string, sep: string): (r: seq<string>)
    requires sep != []
    ensures |r| >= 1
    ensures forall j :: 0 <= j < |r| ==> Within(r[j], s)
    ensures forall j, i :: 0 <= j < |r| && 0 <= i ==> !OccursAt(r[j], sep, i)
    decreases |s|
  {
    match FindFrom(s, sep, 0)
    case None => [s]
    case Some(k) =>
      var rest := Split(s[k + |sep|..], sep);
      assert forall i :: 0 <= i ==> !OccursAt(s[..k], sep, i) by {
        forall i | 0 <= i
          ensures !OccursAt(s[..k], sep, i)
        {
          if i + |sep| <= k {
            assert s[..k][i..i + |sep|] == s[i..i + |sep|];
            assert !OccursAt(s, sep, i);
          }
        }
      }
      [s[..k]] + rest
  }

  lemma JoinCons(x: string, ys: seq<string>, sep: string)
    requires |ys| >= 1
    ensures Join([x] + ys, sep) == x + sep + Join(ys, sep)
  {
    assert ([x] + ys)[0] == x;
    assert ([x] + ys)[1..] == ys;
  }

  /** Joining the pieces of a split with the same separator restores the string. */
  lemma {:induction false} JoinSplit(s: string, sep: string)
    requires sep != []
    ensures Join(Split(s, sep), sep) == s
    decreases |s|
  {
    match FindFrom(s, sep, 0)
    case None =>
    case Some(k) =>
      var pre, rest := s[..k], s[k + |sep|..];
      calc {
        Join(Split(s, sep), sep);
        Join([pre] + Split(rest, sep), sep);
        { JoinCons(pre, Split(rest, sep), sep); }
        pre + sep + Join(Split(rest, sep), sep);
        { JoinSplit(rest, sep); }
        pre + sep + rest;
        { assert s[k..k + |sep|] == sep; }
        s;
      }
  }

  /** `piece` ends where the leftmost occurrence of `sep` in `piece + sep`
      begins: `sep` does not occur earlier. */
  ghost predicate CutAtFirst(piece: string, sep: string) {
    forall i :: 0 <= i < |piece| ==> !OccursAt(piece + sep, sep, i)
  }

  /** Every piece but the last is cut at the leftmost occurrence of the
      separator that follows it, as Python's left-to-right scan does. */
  lemma {:induction false} SplitLeftmost(s: string, sep: string)
    requires sep != []
    ensures forall j :: 0 <= j < |Split(s, sep)| - 1 ==> CutAtFirst(Split(s, sep)[j], sep)
    decreases |s|
  {
    match FindFrom(s, sep, 0)
    case None =>
    case Some(k) =>
      var rest := s[k + |sep|..];
      var tail := Split(rest, sep);
      SplitLeftmost(rest, sep);
      FirstPieceCut(s, sep, k);
      var r := Split(s, sep);
      assert r == [s[..k]] + tail;
      forall j | 0 <= j < |r| - 1
        ensures CutAtFirst(r[j], sep)
      {
        if j > 0 {
          assert r[j] == tail[j - 1];
        }
      }
  }

  /** The text before the leftmost occurrence is cut at it. */
  lemma FirstPieceCut(s: string, sep: string, k: nat)
    requires FindFrom(s, sep, 0) == Some(k)
    ensures CutAtFirst(s[..k], sep)
  {
    assert s[..k] + sep == s[..k + |sep|];
    forall i | 0 <= i < k
      ensures !OccursAt(s[..k] + sep, sep, i)
    {
      assert !OccursAt(s, sep, i);
      assert s[..k + |sep|][i..i + |sep|] == s[i..i + |sep|];
    }
  }

  /** The search finds the leftmost occurrence. */
  lemma FindFromFirst(s: string, pat: string, k: nat)
    requires OccursAt(s, pat, k)
    requires forall i :: 0 <= i < k ==> !OccursAt(s, pat, i)
    ensures FindFrom(s, pat, 0) == Some(k)
  {
  }

  /** Splitting cuts the first piece off at the leftmost separator. */
  lemma SplitCons(x: string, sep: string, y: string)
    requires sep != [] && CutAtFirst(x, sep)
    ensures Split(x + sep + y, sep) == [x] + Split(y, sep)
  {
    var s := x + sep + y;
    assert s[..|x|] == x;
    assert s[|x|..|x| + |sep|] == sep;
    assert s[|x| + |sep|..] == y;
    forall i | 0 <= i < |x|
      ensures !OccursAt(s, sep, i)
    {
      assert !OccursAt(x + sep, sep, i);
      if i + |sep| <= |s| {
        assert s[i..i + |sep|] == (x + sep)[i..i + |sep|];
      }
    }
    FindFromFirst(s, sep, |x|);
  }

  /** A string that does not contain the separator splits into itself alone. */
  lemma SplitNoOccurrence(s: string, sep: string)
    requires sep != []
    requires forall i :: 0 <= i ==> !OccursAt(s, sep, i)
    ensures Split(s, sep) == [s]
  {
  }

  /* ---------------------------------------------------------------------- */
  /* str.splitlines()                                                       */
  /* ---------------------------------------------------------------------- */

  /** The first line boundary of `s`. */
  function FindBreak(s: string): (r: Option<nat>)
    ensures r.Some? ==> r.value < |s| && IsLineBreak(s[r.value]) && NoBreak(s[..r.value])
    ensures r.None? ==> NoBreak(s)
  {
    if s == [] then None
    else if IsLineBreak(s[0]) then Some(0)
    else match FindBreak(s[1..])
      case None => None
      case Some(i) =>
        assert s[..i + 1] == [s[0]] + s[1..][..i];
        Some(i + 1)
  }

  /** A boundary preceded by none is the first one. */
  lemma {:induction false} FindBreakAt(s: string, k: nat)
    requires k < |s| && NoBreak(s[..k]) && IsLineBreak(s[k])
    ensures FindBreak(s) == Some(k)
    decreases k
  {
    if k > 0 {
      assert s[..k][0] == s[0];
      assert s[1..][..k - 1] == s[..k][1..];
      assert s[1..][k - 1] == s[k];
      FindBreakAt(s[1..], k - 1);
    }
  }

  /** Length of the boundary starting at `i`: "\r\n" is one boundary of two characters. */
  function BreakLength(s: string, i: nat): (n: nat)
    requires i < |s|
    ensures 1 <= n <= 2 && i + n <= |s|
    ensures n == 2 <==> (s[i] == '\r' && i + 1 < |s| && s[i + 1] == '\n')
  {
    if s[i] == '\r' && i + 1 < |s| && s[i + 1] == '\n' then 2 else 1
  }

  /** `s.splitlines()`: the lines without their boundaries; a final boundary does
      not open an empty last line, and the empty string has no lines. */
  function SplitLines(s: string): (r: seq<string>)
    ensures forall j :: 0 <= j < |r| ==> NoBreak(r[j])
    ensures forall j :: 0 <= j < |r| ==> Within(r[j], s)
    ensures |r| <= |s|
    decreases |s|
  {
    match FindBreak(s)
    case None => if s == [] then [] else [s]
    case Some(i) => [s[..i]] + SplitLines(s[i + BreakLength(s, i)..])
  }

  /** A text without boundaries is one line, or none when it is empty. */
  lemma SplitLinesNoBreak(x: string)
    requires NoBreak(x)
    ensures SplitLines(x) == if x == [] then [] else [x]
  {
    assert FindBreak(x).None?;
  }

  /** Lines are cut at every boundary: "\r\n", or any one boundary character
      (a "\r" only when no "\n" follows it). */
  lemma SplitLinesCons(x: string, b: string, y: string)
    requires NoBreak(x)
    requires b == "\r\n" || (|b| == 1 && IsLineBreak(b[0]) && !(b[0] == '\r' && y != [] && y[0] == '\n'))
    ensures SplitLines(x + b + y) == [x] + SplitLines(y)
  {
    var s := x + b + y;
    assert s[..|x|] == x;
    assert s[|x|] == b[0];
    FindBreakAt(s, |x|);
    assert BreakLength(s, |x|) == |b| by {
      if b == "\r\n" {
        assert s[|x| + 1] == '\n';
      } else if y != [] {
        assert s[|x| + 1] == y[0];
      }
    }
    assert s[|x| + |b|..] == y;
  }

  /** Every line boundary of `s` is "\n". */
  ghost predicate OnlyNewlines(s: string) {
    forall i :: 0 <= i < |s| ==> IsLineBreak(s[i]) ==> s[i] == '\n'
  }

  lemma OnlyNewlinesSuffix(s: string, m: nat)
    requires m <= |s| && OnlyNewlines(s)
    ensures OnlyNewlines(s[m..])
  {
    forall j | 0 <= j < |s| - m
      ensures IsLineBreak(s[m..][j]) ==> s[m..][j] == '\n'
    {
      assert s[m..][j] == s[m + j];
    }
  }

  /** Lines are cut only at boundaries: when every boundary of a text is "\n"
      and the text does not end in one, joining its lines with "\n" restores it. */
  lemma {:induction false} JoinSplitLines(s: string)
    requires OnlyNewlines(s)
    requires s == [] || s[|s| - 1] != '\n'
    ensures Join(SplitLines(s), "\n") == s
    decreases |s|
  {
    match FindBreak(s)
    case None =>
      if s != [] {
        assert SplitLines(s) == [s];
      }
    case Some(i) =>
      var rest := s[i + 1..];
      assert s[i] == '\n' && BreakLength(s, i) == 1;
      assert rest != [] && rest[|rest| - 1] == s[|s| - 1];
      OnlyNewlinesSuffix(s, i + 1);
      JoinSplitLines(rest);
      JoinSplitLinesStep(s, i);
  }

  lemma JoinSplitLinesStep(s: string, i: nat)
    requires FindBreak(s) == Some(i) && s[i] == '\n' && i + 1 < |s|
    requires Join(SplitLines(s[i + 1..]), "\n") == s[i + 1..]
    ensures Join(SplitLines(s), "\n") == s
  {
    var x, rest := s[..i], s[i + 1..];
    var ls := SplitLines(rest);
    assert BreakLength(s, i) == 1;
    assert SplitLines(s) == [x] + ls;
    assert |ls| >= 1;
    calc {
      Join(SplitLines(s), "\n");
      Join([x] + ls, "\n");
      { JoinCons(x, ls, "\n"); }
      x + "\n" + Join(ls, "\n");
      x + "\n" + rest;
      { SliceThree(s, i, i + 1); assert s[i..i + 1] == "\n"; }
      s;
    }
  }

  /** The whitespace-free content of a text is that of its lines. */
  lemma {:induction false} DelSpaceSplitLines(s: string)
    ensures DelSpace(s) == ConcatDelSpace(SplitLines(s))
    decreases |s|
  {
    match FindBreak(s)
    case None =>
      if s != [] {
        assert SplitLines(s) == [s];
        assert [s][1..] == [];
      }
    case Some(i) =>
      var n := BreakLength(s, i);
      var rest := s[i + n..];
      DelSpaceSplitLines(rest);
      ConcatDelSpaceCons(s[..i], SplitLines(rest));
      DelSpaceOverBreak(s, i, n);
  }

  /** Cutting a line boundary out of a text loses no visible character. */
  lemma DelSpaceOverBreak(s: string, i: nat, n: nat)
    requires i < |s| && n == BreakLength(s, i) && IsLineBreak(s[i])
    ensures DelSpace(s) == DelSpace(s[..i]) + DelSpace(s[i + n..])
  {
    BreakIsSpace(s, i, n);
    SliceThree(s, i, i + n);
    DelSpaceSkip(s[..i], s[i..i + n], s[i + n..]);
  }

  /** A line boundary, one or two characters long, is whitespace. */
  lemma BreakIsSpace(s: string, i: nat, n: nat)
    requires i < |s| && n == BreakLength(s, i) && IsLineBreak(s[i])
    ensures AllSpace(s[i..i + n])
  {
    LineBreakIsSpace(s[i]);
    if n == 1 {
      assert s[i..i + n] == [s[i]];
    } else {
      assert s[i..i + n] == "\r\n";
    }
  }

  lemma HeadTail<T>(xs: seq<T>)
    requires xs != []
    ensures xs == [xs[0]] + xs[1..]
  {
  }

  lemma SliceThree(s: string, a: nat, b: nat)
    requires a <= b <= |s|
    ensures s == s[..a] + s[a..b] + s[b..]
  {
  }

  /** Whitespace in the middle of a text is invisible to `DelSpace`. */
  lemma DelSpaceSkip(pre: string, mid: string, post: string)
    requires AllSpace(mid)
    ensures DelSpace(pre + mid + post) == DelSpace(pre) + DelSpace(post)
  {
    assert pre + mid + post == pre + (mid + post);
    DelSpaceAppend(pre, mid + post);
    DelSpaceAppend(mid, post);
    DelSpaceEmpty(mid);
  }

  lemma ConcatDelSpaceCons(x: string, ys: seq<string>)
    ensures ConcatDelSpace([x] + ys) == DelSpace(x) + ConcatDelSpace(ys)
  {
    assert ([x] + ys)[0] == x;
    assert ([x] + ys)[1..] == ys;
  }

  /** The non-whitespace characters of a sequence of strings, concatenated. */
  function ConcatDelSpace(xs: seq<string>): string {
    if xs == [] then [] else DelSpace(xs[0]) + ConcatDelSpace(xs[1..])
  }

  lemma {:induction false} ConcatDelSpaceAppend(a: seq<string>, b: seq<string>)
    ensures ConcatDelSpace(a + b) == ConcatDelSpace(a) + ConcatDelSpace(b)
    decreases |a|
  {
    if a == [] {
      assert a + b == b;
    } else {
      assert (a + b)[0] == a[0];
      assert (a + b)[1..] == a[1..] + b;
      ConcatDelSpaceAppend(a[1..], b);
    }
  }

  /** Joining with a whitespace separator adds no visible character. */
  lemma {:induction false} DelSpaceJoin(xs: seq<string>, sep: string)
    requires AllSpace(sep)
    ensures DelSpace(Join(xs, sep)) == ConcatDelSpace(xs)
    decreases |xs|
  {
    if |xs| == 1 {
      assert xs[1..] == [];
    } else if |xs| > 1 {
      DelSpaceJoin(xs[1..], sep);
      DelSpaceAppend(xs[0] + sep, Join(xs[1..], sep));
      DelSpaceAppend(xs[0], sep);
      DelSpaceEmpty(sep);
    }
  }

  /** Lines that are non-empty and free of boundaries survive a join with
      "\n" followed by `splitlines()` unchanged. */
  lemma {:induction false} SplitLinesJoin(xs: seq<string>)
    requires forall j :: 0 <= j < |xs| ==> xs[j] != [] && NoBreak(xs[j])
    ensures SplitLines(Join(xs, "\n")) == xs
    decreases |xs|
  {
    if |xs| == 1 {
      SplitLinesNoBreak(xs[0]);
    } else if |xs| > 1 {
      var x, tail := xs[0], xs[1..];
      var rest := Join(tail, "\n");
      assert Join(xs, "\n") == x + "\n" + rest;
      SplitLinesCons(x, "\n", rest);
      SplitLinesJoin(tail);
      HeadTail(xs);
    }
  }

  /* ---------------------------------------------------------------------- */
  /* str.lower()                                                            */
  /* ---------------------------------------------------------------------- */

  /** The capitals Python's `str.lower()` changes within Latin-1 (the range HTTP
      header values are decoded into): A-Z and U+00C0-U+00DE except U+00D7. */
  predicate IsUpper(c: char) {
    || ('A' <= c <= 'Z')
    || ('\U{00C0}' <= c <= '\U{00DE}' && c != '\U{00D7}')
  }

  /** `l` is the small letter of the capital `u`: 0x20 further on. */
  predicate CasePair(u: char, l: char) {
    IsUpper(u) && l as int == u as int + 0x20
  }

  /** Two strings that differ at most in the case of letters. */
  ghost predicate SameUpToCase(a: string, b: string) {
    && |a| == |b|
    && forall i :: 0 <= i < |a| ==> a[i] == b[i] || CasePair(a[i], b[i]) || CasePair(b[i], a[i])
  }

  /** `c.lower()` on Latin-1: a capital becomes its small letter, anything else stays. */
  function LowerChar(c: char): (d: char)
    ensures IsUpper(c) ==> CasePair(c, d)
    ensures !IsUpper(c) ==> d == c
    ensures !IsUpper(d)
  {
    if IsUpper(c) then (c as int + 0x20) as char else c
  }

  /** `s.lower()`, character by character. */
  function Lower(s: string): (r: string)
    ensures |r| == |s|
    ensures forall i :: 0 <= i < |s| ==> r[i] == LowerChar(s[i])
  {
    seq(|s|, i requires 0 <= i < |s| => LowerChar(s[i]))
  }

  /** `lower()` changes only the case of letters and leaves no capital behind. */
  lemma LowerOnlyCase(s: string)
    ensures SameUpToCase(s, Lower(s))
    ensures forall i :: 0 <= i < |s| ==> !IsUpper(Lower(s)[i])
  {
  }

  /** Two strings lower-case alike exactly when they differ only in case. */
  lemma LowerEqualIffSameUpToCase(a: string, b: string)
    ensures Lower(a) == Lower(b) <==> SameUpToCase(a, b)
  {
    if SameUpToCase(a, b) {
      forall i | 0 <= i < |a|
        ensures Lower(a)[i] == Lower(b)[i]
      {
        LowerCharPair(a[i], b[i]);
      }
    }
    if Lower(a) == Lower(b) {
      forall i | 0 <= i < |a|
        ensures a[i] == b[i] || CasePair(a[i], b[i]) || CasePair(b[i], a[i])
      {
        assert LowerChar(a[i]) == Lower(a)[i] == Lower(b)[i] == LowerChar(b[i]);
      }
    }
  }

  lemma LowerCharPair(x: char, y: char)
    requires x == y || CasePair(x, y) || CasePair(y, x)
    ensures LowerChar(x) == LowerChar(y)
  {
  }

  /** Lower-casing a slice is slicing the lower-cased string. */
  lemma LowerSlice(s: string, a: nat, b: nat)
    requires a <= b <= |s|
    ensures Lower(s)[a..b] == Lower(s[a..b])
  {
  }

  /** A string without capitals is its own lower-case form. */
  lemma LowerNoUpper(s: string)
    requires forall i :: 0 <= i < |s| ==> !IsUpper(s[i])
    ensures Lower(s) == s
  {
  }

  /** Lower-casing twice is lower-casing once. */
  lemma LowerIdempotent(s: string)
    ensures Lower(Lower(s)) == Lower(s)
  {
    LowerOnlyCase(s);
    LowerNoUpper(Lower(s));
  }
}
