/**
 * Pieces shared by the two pipeline scripts (`mentor/mentor.py` and
 * `Mentor.py`): cutting the ideal curriculum out of the L&D stage's raw
 * response, the retrieval query built for each module, and the candidate pool
 * accumulated over the modules.
 */
module Stages {
  import opened Basics
  import opened PyStr
  import opened CurriculumXml

  // ---------------------------------------------------------------------------
  // lnd_curriculum: the text between the tags
  // ---------------------------------------------------------------------------

  const OpenTag := "<curriculum_description>"
  const CloseTag := "</curriculum_description>"

  /**
   * `response[start:end]` with `start = response.find(OpenTag) + len(OpenTag)`
   * and `end = response.find(CloseTag)`; a missing tag gives -1 and the slice
   * rules of Python apply, so this never fails.
   */
  function ExtractDescription(response: string): string {
    var start := Find(response, OpenTag) + |OpenTag|;
    var end := Find(response, CloseTag);
    Slice(response, start, end)
  }

  /** The only `<` of the opening tag is its first character. */
  lemma OpenTagShape()
    ensures |OpenTag| == 24 && |CloseTag| == 25 && CloseTag[0] == '<'
    ensures forall k | 1 <= k < |OpenTag| :: OpenTag[k] != '<'
  {
  }

  /**
   * With the opening tag before the first closing tag, the result is exactly
   * the text from the end of the first opening tag to the first closing tag,
   * and it holds no closing tag.
   */
  lemma WellOrderedTags(response: string)
    requires Find(response, OpenTag) != -1 && Find(response, OpenTag) < Find(response, CloseTag)
    ensures var i, j := Find(response, OpenTag), Find(response, CloseTag);
      && i + |OpenTag| <= j
      && ExtractDescription(response) == response[i + |OpenTag|..j]
      && !Contains(ExtractDescription(response), CloseTag)
  {
    var i, j := Find(response, OpenTag), Find(response, CloseTag);
    TagsApart(response);
    SliceInRange(response, i + |OpenTag|, j);
    SliceBeforeFind(response, CloseTag, i + |OpenTag|);
  }

  /** An opening tag found before the first closing tag ends before that closing tag starts. */
  lemma TagsApart(response: string)
    requires Find(response, OpenTag) != -1 && Find(response, OpenTag) < Find(response, CloseTag)
    ensures Find(response, OpenTag) + |OpenTag| <= Find(response, CloseTag)
  {
    var i, j := Find(response, OpenTag), Find(response, CloseTag);
    OpenTagShape();
    assert response[j] == '<' by {
      assert response[j..j + |CloseTag|][0] == response[j];
    }
  }

  /** Text that ends where the first occurrence of `sub` starts holds no `sub`. */
  lemma SliceBeforeFind(s: string, sub: string, start: nat)
    requires |sub| > 0 && start <= Find(s, sub)
    ensures !Contains(s[start..Find(s, sub)], sub)
  {
    var j := Find(s, sub);
    var r := s[start..j];
    forall k | 0 <= k <= |r| ensures !OccursAt(r, sub, k) {
      if OccursAt(r, sub, k) {
        assert r[k..k + |sub|] == s[start + k..start + k + |sub|];
        assert OccursAt(s, sub, start + k);
      }
    }
  }

  /** Without an opening tag the slice starts at 23 (-1 plus the tag length). */
  lemma MissingOpenTag(response: string)
    requires !Contains(response, OpenTag)
    ensures ExtractDescription(response) == Slice(response, 23, Find(response, CloseTag))
  {
    OpenTagShape();
  }

  /**
   * Without a closing tag the slice ends at -1, that is before the last
   * character: the result is the text from the start offset up to but not
   * including the last character, or empty.
   */
  lemma MissingCloseTag(response: string)
    requires !Contains(response, CloseTag)
    ensures var start := Find(response, OpenTag) + |OpenTag|;
      && start >= 23
      && ExtractDescription(response) == (if start < |response| - 1 then response[start..|response| - 1] else "")
  {
    OpenTagShape();
  }

  // ---------------------------------------------------------------------------
  // The retrieval query of a module
  // ---------------------------------------------------------------------------

  /** `title + ": " + description + "\nLearning Objectives:\n" + "\n\t".join(objectives)`. */
  function ModuleQuery(m: Module): string {
    m.title + ": " + m.description + "\nLearning Objectives:\n" + Join("\n\t", m.learningObjectives)
  }

  /** The lines of the objectives part: every objective after the first is indented by a tab. */
  function ObjectiveQueryLines(os: seq<string>): seq<string> {
    if os == [] then [""] else [os[0]] + seq(|os| - 1, i requires 0 <= i < |os| - 1 => "\t" + os[i + 1])
  }

  lemma {:induction false} TabJoin(os: seq<string>)
    ensures Join("\n\t", os) == Join("\n", ObjectiveQueryLines(os))
    decreases |os|
  {
    if |os| == 1 {
      assert ObjectiveQueryLines(os) == [os[0]];
    } else if |os| > 1 {
      var rest := ObjectiveQueryLines(os[1..]);
      var lines := ObjectiveQueryLines(os);
      ObjectiveLinesCons(os);
      TabJoin(os[1..]);
      IndentJoin(rest);
      JoinHead("\n", lines);
      NewlineTab(os[0], Join("\n", rest));
    }
  }

  /** The objective lines of two or more objectives: the first, then the rest's lines with the first of those indented. */
  lemma ObjectiveLinesCons(os: seq<string>)
    requires |os| > 1
    ensures var rest := ObjectiveQueryLines(os[1..]);
      ObjectiveQueryLines(os) == [os[0]] + (["\t" + rest[0]] + rest[1..])
  {
    var rest := ObjectiveQueryLines(os[1..]);
    assert rest[0] == os[1];
    forall k | 1 <= k < |rest| ensures rest[k] == "\t" + os[k + 1] {
      assert os[1..][k] == os[k + 1];
    }
  }

  lemma JoinHead(sep: string, parts: seq<string>)
    requires |parts| > 1
    ensures Join(sep, parts) == parts[0] + sep + Join(sep, parts[1..])
  {
  }

  lemma NewlineTab(a: string, x: string)
    ensures a + "\n" + ("\t" + x) == a + "\n\t" + x
  {
  }

  lemma IndentJoin(rest: seq<string>)
    requires |rest| > 0
    ensures Join("\n", ["\t" + rest[0]] + rest[1..]) == "\t" + Join("\n", rest)
  {
    PrefixJoin("\t", "\n", rest);
  }

  /** Prefixing the first part prefixes the join. */
  lemma PrefixJoin(p: string, sep: string, rest: seq<string>)
    requires |rest| > 0
    ensures Join(sep, [p + rest[0]] + rest[1..]) == p + Join(sep, rest)
  {
    var l := [p + rest[0]] + rest[1..];
    if |rest| == 1 {
      assert l == [p + rest[0]];
    } else {
      assert l[1..] == rest[1..];
      assert Join(sep, rest) == rest[0] + sep + Join(sep, rest[1..]);
    }
  }

  lemma NoNewlineConcat(a: string, b: string)
    requires NoNewline(a) && NoNewline(b)
    ensures NoNewline(a + b)
  {
    var s := a + b;
    forall k | 0 <= k < |s| ensures s[k] != '\n' {
      if k < |a| { assert s[k] == a[k]; } else { assert s[k] == b[k - |a|]; }
    }
  }

  lemma ObjectiveQueryLinesOneLine(os: seq<string>)
    requires forall o | o in os :: NoNewline(o)
    ensures forall l | l in ObjectiveQueryLines(os) :: NoNewline(l)
  {
    var lines := ObjectiveQueryLines(os);
    forall k | 0 <= k < |lines| ensures NoNewline(lines[k]) {
      if os != [] {
        if k == 0 {
          assert os[0] in os;
        } else {
          assert os[k] in os;
          NoNewlineConcat("\t", os[k]);
        }
      }
    }
  }

  /**
   * With one-line fields the query has exactly these lines: the title and
   * description, `Learning Objectives:`, then the objectives in order (all
   * but the first indented by a tab, one empty line when there are none).
   */
  lemma QueryLines(m: Module)
    requires NoNewline(m.title) && NoNewline(m.description) && forall o | o in m.learningObjectives :: NoNewline(o)
    ensures Split(ModuleQuery(m), "\n") == [m.title + ": " + m.description, "Learning Objectives:"] + ObjectiveQueryLines(m.learningObjectives)
  {
    var lines := [m.title + ": " + m.description, "Learning Objectives:"] + ObjectiveQueryLines(m.learningObjectives);
    QueryJoin(m);
    QueryLinesFree(m);
    SplitJoin(lines, "\n");
  }

  /** The query is its lines joined by newlines. */
  lemma QueryJoin(m: Module)
    ensures ModuleQuery(m) == Join("\n", [m.title + ": " + m.description, "Learning Objectives:"] + ObjectiveQueryLines(m.learningObjectives))
  {
    var os := m.learningObjectives;
    var first := m.title + ": " + m.description;
    var objLines := ObjectiveQueryLines(os);
    var lines := [first, "Learning Objectives:"] + objLines;
    TabJoin(os);
    assert |objLines| > 0;
    JoinHead("\n", lines);
    assert lines[1..] == ["Learning Objectives:"] + objLines;
    JoinHead("\n", lines[1..]);
    assert lines[1..][1..] == objLines;
    HeaderLine(first, Join("\n", objLines));
  }

  lemma HeaderLine(first: string, x: string)
    ensures first + "\nLearning Objectives:\n" + x == first + "\n" + ("Learning Objectives:" + "\n" + x)
  {
  }

  /** No line of the query holds a newline. */
  lemma QueryLinesFree(m: Module)
    requires NoNewline(m.title) && NoNewline(m.description) && forall o | o in m.learningObjectives :: NoNewline(o)
    ensures forall l | l in [m.title + ": " + m.description, "Learning Objectives:"] + ObjectiveQueryLines(m.learningObjectives) :: !Contains(l, "\n")
  {
    var first := m.title + ": " + m.description;
    var objLines := ObjectiveQueryLines(m.learningObjectives);
    NoNewlineConcat(m.title, ": ");
    NoNewlineConcat(m.title + ": ", m.description);
    ObjectiveQueryLinesOneLine(m.learningObjectives);
    forall l | l in [first, "Learning Objectives:"] + objLines ensures !Contains(l, "\n") {
      assert l == first || l == "Learning Objectives:" || l in objLines;
      NoNewlineFree(l);
    }
  }

  // ---------------------------------------------------------------------------
  // The candidate pool
  // ---------------------------------------------------------------------------

  /** One retrieval hit: a course title and its relevance score, as text. */
  datatype Hit = Hit(title: string, score: string)

  /** `recommended_courses` after the loop: the hits of every module's query, module after module. */
  function Pool(ms: seq<Module>, curate: string -> seq<Hit>): seq<Hit>
    decreases |ms|
  {
    if ms == [] then [] else Pool(ms[..|ms| - 1], curate) + curate(ModuleQuery(ms[|ms| - 1]))
  }

  /**
   * The pool of a split module list is the two pools concatenated: one
   * retrieval per module, in module order, nothing removed or merged.
   */
  lemma {:induction false} PoolAppend(a: seq<Module>, b: seq<Module>, curate: string -> seq<Hit>)
    ensures Pool(a + b, curate) == Pool(a, curate) + Pool(b, curate)
    decreases |b|
  {
    if b == [] {
      assert a + b == a;
    } else {
      var b0 := b[..|b| - 1];
      assert (a + b)[..|a + b| - 1] == a + b0;
      PoolAppend(a, b0, curate);
    }
  }

  /** Every hit of the pool comes from some module's retrieval, and every module's hits are all in the pool. */
  lemma {:induction false} PoolOrigins(ms: seq<Module>, curate: string -> seq<Hit>)
    ensures forall h :: h in Pool(ms, curate) <==> exists k :: 0 <= k < |ms| && h in curate(ModuleQuery(ms[k]))
    decreases |ms|
  {
    if ms != [] {
      var init := ms[..|ms| - 1];
      PoolOrigins(init, curate);
      forall h ensures h in Pool(ms, curate) <==> exists k :: 0 <= k < |ms| && h in curate(ModuleQuery(ms[k])) {
        if h in Pool(init, curate) {
          var k :| 0 <= k < |init| && h in curate(ModuleQuery(init[k]));
          assert ms[k] == init[k];
        }
        if exists k :: 0 <= k < |ms| && h in curate(ModuleQuery(ms[k])) {
          var k :| 0 <= k < |ms| && h in curate(ModuleQuery(ms[k]));
          if k < |init| {
            assert init[k] == ms[k];
          }
        }
      }
    }
  }

  /** The retrieval loop: `Curate` once per module, the hits appended in order. */
  method CollectCandidates(ms: seq<Module>, curate: string -> seq<Hit>) returns (pool: seq<Hit>)
    ensures pool == Pool(ms, curate)
  {
    pool := [];
    var i := 0;
    while i < |ms|
      invariant 0 <= i <= |ms|
      invariant pool == Pool(ms[..i], curate)
    {
      assert ms[..i + 1][..i] == ms[..i];
      pool := pool + curate(ModuleQuery(ms[i]));
      i := i + 1;
    }
    assert ms[..i] == ms;
  }
}
