/**
 * The compound placeholder grammar of the chat's prompt middleware: Python's
 * `re.findall(r"{{(.*?)\.(.*?)}}", prompt)`. `{{` and `}}` are literal, `.`
 * in a group matches any character except a newline, and both groups are lazy.
 */
module Placeholders {
  import opened Basics
  import opened PyStr

  /** One match: the reference text before the first dot, and the keyword after it. */
  datatype Ref = Ref(param: string, keyword: string)

  /** The text a match occupies: `"{{" + param + "." + keyword + "}}"`. */
  function Placeholder(r: Ref): string {
    "{{" + r.param + "." + r.keyword + "}}"
  }

  /**
   * The regex matches at `p` with these group values: the placeholder text
   * starts at `p` and neither group crosses a line end.
   */
  predicate IsMatch(s: string, p: nat, g1: string, g2: string) {
    OccursAt(s, Placeholder(Ref(g1, g2)), p) && NoNewline(g1) && NoNewline(g2)
  }

  /** The first line end (or the end of `s`) at or after `i`. */
  function LineEnd(s: string, i: nat): (j: nat)
    requires i <= |s|
    ensures i <= j <= |s| && (j == |s| || s[j] == '\n')
    ensures forall k :: i <= k < j ==> s[k] != '\n'
    decreases |s| - i
  {
    if i == |s| || s[i] == '\n' then i else LineEnd(s, i + 1)
  }

  /**
   * The regex engine's attempt at `p`: the first group ends at the first dot
   * on the line, the second at the first `}}` after that dot on the same line;
   * the result is the match and the index just past it. (Extending the first
   * group to a later dot on the same line cannot help: a `}}` found after that
   * dot would have been found after the first one.)
   */
  function MatchAt(s: string, p: nat): Option<(Ref, nat)>
    requires p <= |s|
  {
    if !OccursAt(s, "{{", p) then None
    else AfterOpening(s, p, FindFrom(s, ".", p + 2))
  }

  /** The attempt once the opening `{{` at `p` is seen and the first dot after it is at `d` (or -1). */
  function AfterOpening(s: string, p: nat, d: int): Option<(Ref, nat)>
    requires p + 2 <= |s| && (d == -1 || p + 2 <= d < |s|)
  {
    if d == -1 || d >= LineEnd(s, p + 2) then None
    else AfterDot(s, p, d, FindFrom(s, "}}", d + 1))
  }

  /** The attempt once the dot is at `d` and the first `}}` after it is at `e` (or -1). */
  function AfterDot(s: string, p: nat, d: nat, e: int): Option<(Ref, nat)>
    requires p + 2 <= d < |s| && (e == -1 || d + 1 <= e <= |s| - 2)
  {
    if e == -1 || e >= LineEnd(s, d + 1) then None
    else Some((Ref(s[p + 2..d], s[d + 1..e]), e + 2))
  }

  /** Where the text of a match with groups `g1`, `g2` at `p` puts its characters. */
  lemma MatchLayout(s: string, p: nat, g1: string, g2: string)
    requires IsMatch(s, p, g1, g2)
    ensures var d := p + 2 + |g1|; var e := d + 1 + |g2|;
      && OccursAt(s, "{{", p) && s[d] == '.' && OccursAt(s, "}}", e)
      && s[p + 2..d] == g1 && s[d + 1..e] == g2
      && (forall k :: p + 2 <= k < e ==> s[k] != '\n')
  {
    var r := Ref(g1, g2);
    var t := Placeholder(r);
    var d := p + 2 + |g1|;
    var e := d + 1 + |g2|;
    PlaceholderPieces(r);
    assert s[p..e + 2] == t;
    SliceOfSlice(s, p, e + 2, 0, 2);
    SliceOfSlice(s, p, e + 2, 2, d - p);
    SliceOfSlice(s, p, e + 2, d + 1 - p, e - p);
    SliceOfSlice(s, p, e + 2, e - p, e + 2 - p);
    assert s[d] == t[d - p];
    forall k | p + 2 <= k < e
      ensures s[k] != '\n'
    {
      if k < d {
        assert s[k] == s[p + 2..d][k - p - 2];
      } else if k > d {
        assert s[k] == s[d + 1..e][k - d - 1];
      }
    }
  }

  /** Where a placeholder's text holds its pieces. */
  lemma PlaceholderPieces(r: Ref)
    ensures var t := Placeholder(r); var d := 2 + |r.param|; var e := d + 1 + |r.keyword|;
      && |t| == e + 2 && t[..2] == "{{" && t[2..d] == r.param && t[d] == '.'
      && t[d + 1..e] == r.keyword && t[e..] == "}}"
  {
    var t := Placeholder(r);
    var d := 2 + |r.param|;
    var e := d + 1 + |r.keyword|;
    assert t == "{{" + r.param + "." + r.keyword + "}}";
    assert t[..2] == "{{";
    assert t[2..d] == r.param;
    assert t[d + 1..e] == r.keyword;
    assert t[e..] == "}}";
  }

  /** A slice of a slice is a slice of the whole. */
  lemma SliceOfSlice(s: string, i: nat, j: nat, a: nat, b: nat)
    requires i <= j <= |s| && a <= b <= j - i
    ensures s[i..j][a..b] == s[i + a..i + b]
  {
    forall k | 0 <= k < b - a
      ensures s[i..j][a..b][k] == s[i + a..i + b][k]
    {
      assert s[i..j][a..b][k] == s[i..j][a + k] == s[i + a + k];
    }
  }

  lemma SliceSplit(s: string, a: nat, b: nat, c: nat, d: nat, e: nat, f: nat)
    requires a <= b <= c <= d <= e <= f <= |s|
    ensures s[a..f] == s[a..b] + s[b..c] + s[c..d] + s[d..e] + s[e..f]
  {
    assert s[a..f] == s[a..e] + s[e..f];
    assert s[a..e] == s[a..d] + s[d..e];
    assert s[a..d] == s[a..c] + s[c..d];
    assert s[a..c] == s[a..b] + s[b..c];
  }

  lemma PlaceholderLength(r: Ref)
    ensures |Placeholder(r)| == |r.param| + |r.keyword| + 5
  {
  }

  /** Text cut at an opening `{{`, a dot and a closing `}}` is the placeholder of the two pieces between them. */
  lemma PlaceholderText(s: string, p: nat, r: Ref)
    requires p + 2 + |r.param| + 1 + |r.keyword| + 2 <= |s|
    requires var d := p + 2 + |r.param|; var e := d + 1 + |r.keyword|;
      && OccursAt(s, "{{", p) && OccursAt(s, ".", d) && OccursAt(s, "}}", e)
      && r.param == s[p + 2..d] && r.keyword == s[d + 1..e]
    ensures OccursAt(s, Placeholder(r), p) && |Placeholder(r)| == |r.param| + |r.keyword| + 5
  {
    var d := p + 2 + |r.param|;
    var e := d + 1 + |r.keyword|;
    SliceSplit(s, p, p + 2, d, d + 1, e, e + 2);
    PlaceholderLength(r);
    assert s[p..e + 2] == Placeholder(r);
  }

  /** A slice lying before the first occurrence of a one-character string holds no occurrence of it. */
  lemma SliceBeforeFirst(s: string, i: nat, j: nat, c: string)
    requires i <= j <= |s| && |c| == 1
    requires forall k :: i <= k < j ==> !OccursAt(s, c, k)
    ensures !Contains(s[i..j], c)
  {
    forall k | 0 <= k <= j - i
      ensures !OccursAt(s[i..j], c, k)
    {
      if OccursAt(s[i..j], c, k) {
        assert s[i..j][k] == c[0];
        assert s[i + k..i + k + 1] == c;
        assert OccursAt(s, c, i + k);
      }
    }
  }

  /** Where the pieces of a match found by `MatchAt` lie: the dot and the closing `}}` on the opening's line. */
  lemma MatchAtParts(s: string, p: nat)
    requires p <= |s| && MatchAt(s, p).Some?
    ensures var d := FindFrom(s, ".", p + 2); var e := FindFrom(s, "}}", d + 1);
      && p + 2 <= d < e && e + 2 <= |s| && e < LineEnd(s, d + 1)
      && OccursAt(s, "{{", p) && OccursAt(s, ".", d) && OccursAt(s, "}}", e)
      && MatchAt(s, p).value == (Ref(s[p + 2..d], s[d + 1..e]), e + 2)
  {
  }

  /** The groups of a match found by `MatchAt` hold no line end, and the first holds no dot. */
  lemma MatchAtGroups(s: string, p: nat)
    requires p <= |s| && MatchAt(s, p).Some?
    ensures var r := MatchAt(s, p).value.0;
      NoNewline(r.param) && NoNewline(r.keyword) && !Contains(r.param, ".")
  {
    MatchAtParts(s, p);
    var d := FindFrom(s, ".", p + 2);
    var e := FindFrom(s, "}}", d + 1);
    var g1 := s[p + 2..d];
    var g2 := s[d + 1..e];
    assert NoNewline(g1) && NoNewline(g2) by {
      assert forall k :: p + 2 <= k < e ==> s[k] != '\n';
      forall k | 0 <= k < |g1| ensures g1[k] != '\n' { assert g1[k] == s[p + 2 + k]; }
      forall k | 0 <= k < |g2| ensures g2[k] != '\n' { assert g2[k] == s[d + 1 + k]; }
    }
    assert !Contains(g1, ".") by {
      SliceBeforeFirst(s, p + 2, d, ".");
    }
  }

  /** A match found by `MatchAt` is a regex match whose first group holds no dot. */
  lemma MatchFoundIsMatch(s: string, p: nat)
    requires p <= |s| && MatchAt(s, p).Some?
    ensures var r := MatchAt(s, p).value.0;
      && IsMatch(s, p, r.param, r.keyword)
      && MatchAt(s, p).value.1 == p + |Placeholder(r)|
      && !Contains(r.param, ".")
  {
    MatchAtText(s, p);
    MatchAtGroups(s, p);
  }

  /** The text of a match found by `MatchAt` is the placeholder of its groups, and the scan resumes just past it. */
  lemma MatchAtText(s: string, p: nat)
    requires p <= |s| && MatchAt(s, p).Some?
    ensures var r := MatchAt(s, p).value.0;
      OccursAt(s, Placeholder(r), p) && MatchAt(s, p).value.1 == p + |Placeholder(r)|
  {
    MatchAtParts(s, p);
    var d := FindFrom(s, ".", p + 2);
    var e := FindFrom(s, "}}", d + 1);
    var m := MatchAt(s, p).value;
    PartsText(s, p, d, e, m.0, m.1);
  }

  /** Pieces at `p`, `d` and `e` with the groups between them are the placeholder's text, ending where the match ends. */
  lemma PartsText(s: string, p: nat, d: nat, e: nat, r: Ref, end: int)
    requires p + 2 <= d < e && e + 2 <= |s|
    requires OccursAt(s, "{{", p) && OccursAt(s, ".", d) && OccursAt(s, "}}", e)
    requires (r, end) == (Ref(s[p + 2..d], s[d + 1..e]), e + 2)
    ensures OccursAt(s, Placeholder(r), p) && end == p + |Placeholder(r)|
  {
    assert d == p + 2 + |r.param| && e == d + 1 + |r.keyword|;
    PlaceholderText(s, p, r);
  }

  /** Every regex match at `p` is found, and the one found has groups no longer than it (lazy order). */
  lemma EveryMatchIsFound(s: string, p: nat, h1: string, h2: string)
    requires p <= |s| && IsMatch(s, p, h1, h2)
    ensures MatchAt(s, p).Some?
    ensures var r := MatchAt(s, p).value.0;
      |r.param| < |h1| || (|r.param| == |h1| && |r.keyword| <= |h2|)
  {
    DotFound(s, p, h1, h2);
    var d := FindFrom(s, ".", p + 2);
    CloseFound(s, p, h1, h2);
    var e := FindFrom(s, "}}", d + 1);
    MatchAtFromFinds(s, p, d, e);
  }

  /** A match lies on one line: the line of its first group runs past its closing `}}`. */
  lemma MatchOnOneLine(s: string, p: nat, h1: string, h2: string)
    requires p <= |s| && IsMatch(s, p, h1, h2)
    ensures var e' := p + 2 + |h1| + 1 + |h2|;
      e' + 2 <= |s| && LineEnd(s, p + 2) > e'
  {
    MatchLayout(s, p, h1, h2);
    var e' := p + 2 + |h1| + 1 + |h2|;
    assert s[e'] == '}' by { assert s[e'..e' + 2][0] == s[e']; }
    forall k | p + 2 <= k <= e'
      ensures s[k] != '\n'
    {
      if k < e' { assert p + 2 <= k < e'; }
    }
    LineEndBeyond(s, p + 2, e');
  }

  /** For a match at `p`, the search for the dot stops on the opening's line, at the match's dot or earlier. */
  lemma DotFound(s: string, p: nat, h1: string, h2: string)
    requires p <= |s| && IsMatch(s, p, h1, h2)
    ensures p + 2 + |h1| + 1 + |h2| + 2 <= |s| && OccursAt(s, "{{", p)
    ensures var d := FindFrom(s, ".", p + 2);
      p + 2 <= d <= p + 2 + |h1| && p + 2 + |h1| + 1 + |h2| < LineEnd(s, p + 2)
  {
    MatchOnOneLine(s, p, h1, h2);
    MatchLayout(s, p, h1, h2);
    var d' := p + 2 + |h1|;
    assert OccursAt(s, ".", d') by { assert s[d'..d' + 1] == [s[d']]; }
    FindBefore(s, ".", p + 2, d');
  }

  /** For a match at `p`, the search for `}}` after the dot found stops on that line, no later than the match's `}}`. */
  lemma CloseFound(s: string, p: nat, h1: string, h2: string)
    requires p <= |s| && IsMatch(s, p, h1, h2)
    ensures p + 2 + |h1| + 1 + |h2| + 2 <= |s|
    ensures var d := FindFrom(s, ".", p + 2); var e := FindFrom(s, "}}", d + 1);
      p + 2 <= d && d + 1 <= e <= p + 2 + |h1| + 1 + |h2| && e < LineEnd(s, d + 1)
  {
    DotFound(s, p, h1, h2);
    var d := FindFrom(s, ".", p + 2);
    var e' := p + 2 + |h1| + 1 + |h2|;
    assert OccursAt(s, "}}", e') by { MatchLayout(s, p, h1, h2); }
    FindBefore(s, "}}", d + 1, e');
    LineEndSame(s, p + 2, d + 1);
  }

  /** Every position up to a line's end shares that line end. */
  lemma {:induction false} LineEndSame(s: string, i: nat, j: nat)
    requires i <= |s| && i <= j <= LineEnd(s, i)
    ensures LineEnd(s, j) == LineEnd(s, i)
    decreases j - i
  {
    if i < j {
      assert s[i] != '\n';
      LineEndSame(s, i + 1, j);
    }
  }

  /** A search from `i` stops at an occurrence at `j` or earlier. */
  lemma FindBefore(s: string, sub: string, i: nat, j: nat)
    requires i <= j && OccursAt(s, sub, j)
    ensures i <= |s| && FindFrom(s, sub, i) != -1 && i <= FindFrom(s, sub, i) <= j
  {
  }

  /** The line that starts at `i` runs past `j` when no line end lies between them. */
  lemma LineEndBeyond(s: string, i: nat, j: nat)
    requires i <= j < |s| && forall k :: i <= k <= j ==> s[k] != '\n'
    ensures LineEnd(s, i) > j
  {
  }

  /** `MatchAt` finds a match when its two searches succeed on the opening's line. */
  lemma MatchAtFromFinds(s: string, p: nat, d: int, e: int)
    requires p + 2 <= |s| && OccursAt(s, "{{", p)
    requires d == FindFrom(s, ".", p + 2) && d != -1 && d < LineEnd(s, p + 2)
    requires d + 1 <= |s| && e == FindFrom(s, "}}", d + 1) && e != -1 && e < LineEnd(s, d + 1)
    ensures MatchAt(s, p) == Some((Ref(s[p + 2..d], s[d + 1..e]), e + 2))
  {
    OpeningThenDot(s, p, d);
    DotThenClose(s, p, d, e);
  }

  lemma OpeningThenDot(s: string, p: nat, d: int)
    requires p + 2 <= |s| && OccursAt(s, "{{", p)
    requires d == FindFrom(s, ".", p + 2) && d != -1 && d < LineEnd(s, p + 2)
    ensures d + 1 <= |s| && MatchAt(s, p) == AfterDot(s, p, d, FindFrom(s, "}}", d + 1))
  {
  }

  lemma DotThenClose(s: string, p: nat, d: nat, e: int)
    requires p + 2 <= d < |s| && e == FindFrom(s, "}}", d + 1) && e != -1 && e < LineEnd(s, d + 1)
    ensures AfterDot(s, p, d, e) == Some((Ref(s[p + 2..d], s[d + 1..e]), e + 2))
  {
  }

  /**
   * `MatchAt` is the regex's match at `p`: when it finds one, the groups form
   * a match and every other match at `p` has a longer first group, or the same
   * first group and a second group at least as long (lazy quantifiers);
   * when it finds none, the regex has no match at `p`.
   */
  lemma MatchAtIsLeftmostLazy(s: string, p: nat)
    requires p <= |s|
    ensures MatchAt(s, p).Some? ==>
      var r := MatchAt(s, p).value.0;
      && IsMatch(s, p, r.param, r.keyword)
      && MatchAt(s, p).value.1 == p + |Placeholder(r)|
      && !Contains(r.param, ".")
      && forall h1, h2 :: IsMatch(s, p, h1, h2) ==>
           |r.param| < |h1| || (|r.param| == |h1| && |r.keyword| <= |h2|)
    ensures MatchAt(s, p).None? ==> forall h1, h2 :: !IsMatch(s, p, h1, h2)
  {
    forall h1, h2 | IsMatch(s, p, h1, h2)
      ensures MatchAt(s, p).Some?
      ensures var r := MatchAt(s, p).value.0;
        |r.param| < |h1| || (|r.param| == |h1| && |r.keyword| <= |h2|)
    {
      EveryMatchIsFound(s, p, h1, h2);
    }
    if MatchAt(s, p).Some? {
      MatchFoundIsMatch(s, p);
    }
  }

  /** `re.findall` from index `p`: after a match the scan resumes just past it, otherwise one character on. */
  function FindAllFrom(s: string, p: nat): seq<Ref>
    requires p <= |s|
    decreases |s| - p
  {
    if p == |s| then []
    else
      match MatchAt(s, p)
      case Some((r, next)) =>
        if p < next <= |s| then [r] + FindAllFrom(s, next)
        else [] // unreachable: a match occupies at least five characters
      case None => FindAllFrom(s, p + 1)
  }

  function FindAll(s: string): seq<Ref> {
    FindAllFrom(s, 0)
  }

  /** Every reference found is a newline-free match whose placeholder text occurs in the prompt. */
  lemma {:induction false} FoundRefsOccur(s: string, p: nat)
    requires p <= |s|
    ensures forall r :: r in FindAllFrom(s, p) ==>
      Contains(s, Placeholder(r)) && NoNewline(r.param) && NoNewline(r.keyword) && !Contains(r.param, ".")
    decreases |s| - p
  {
    if p < |s| {
      MatchAtIsLeftmostLazy(s, p);
      match MatchAt(s, p)
      case Some((r, next)) =>
        if p < next <= |s| {
          FoundRefsOccur(s, next);
          assert OccursAt(s, Placeholder(r), p);
        }
      case None =>
        FoundRefsOccur(s, p + 1);
    }
  }

  /** A prompt where an unrecognised `{{x}}` precedes a reference on the same line. */
  const SwallowExample := "{{x}} {{1.toc}}"

  lemma SwallowExampleLayout()
    ensures SwallowExample == Placeholder(Ref("x}} {{1", "toc"))
    ensures SwallowExample[2..9] == "x}} {{1" && SwallowExample[10..13] == "toc"
    ensures LineEnd(SwallowExample, 2) == 15 && LineEnd(SwallowExample, 10) == 15
  {
    var s := SwallowExample;
    assert forall k | 0 <= k < 7 :: s[2..9][k] == s[k + 2];
    assert forall k | 0 <= k < 3 :: s[10..13][k] == s[k + 10];
    assert NoNewline(s);
  }

  lemma SwallowExampleSearches()
    ensures FindFrom(SwallowExample, ".", 2) == 9
    ensures FindFrom(SwallowExample, "}}", 10) == 13
  {
    var s := SwallowExample;
    assert OccursAt(s, ".", 9);
    forall k | 2 <= k < 9 ensures !OccursAt(s, ".", k) { assert s[k..k + 1][0] == s[k] != '.'; }
    assert OccursAt(s, "}}", 13);
    forall k | 10 <= k < 13 ensures !OccursAt(s, "}}", k) { assert s[k..k + 2][0] == s[k] != '}'; }
  }

  /**
   * An unrecognised `{{x}}` earlier on a line is swallowed: the first group
   * runs from the first `{{` to the first dot, across the `}}` and `{{` between.
   */
  lemma SwallowedPlaceholder()
    ensures FindAll(SwallowExample) == [Ref("x}} {{1", "toc")]
  {
    SwallowExampleLayout();
    SwallowExampleSearches();
    assert OccursAt(SwallowExample, "{{", 0);
    assert MatchAt(SwallowExample, 0) == Some((Ref("x}} {{1", "toc"), 15));
  }
}
