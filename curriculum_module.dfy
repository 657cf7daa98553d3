/**
 * The curriculum data model and its XML rendering (`Curriculum.__str__`):
 * fields are inserted verbatim, one `<module>` block per module and one
 * `<objective>` line per learning objective, joined by newlines.
 */
module CurriculumXml {
  import opened PyStr

  datatype Module = Module(title: string, description: string, learningObjectives: seq<string>)

  datatype Curriculum = Curriculum(topic: string, description: string, audience: string, modules: seq<Module>)

  function ObjectiveLine(o: string): string {
    "\t\t\t\t<objective>" + o + "</objective>"
  }

  function ObjectiveLines(os: seq<string>): seq<string> {
    seq(|os|, i requires 0 <= i < |os| => ObjectiveLine(os[i]))
  }

  function TitleLine(m: Module): string { "\t\t\t<title>" + m.title + "</title>" }

  function ModuleDescriptionLine(m: Module): string { "\t\t\t<description>" + m.description + "</description>" }

  /**
   * One module's block, from `\t\t<module>` to `\t\t</module>`, without a
   * trailing newline: the fixed lines around the objective lines joined by
   * newlines.
   */
  function ModuleBlock(m: Module): string {
    "\t\t<module>" + "\n" + TitleLine(m) + "\n" + ModuleDescriptionLine(m) + "\n" + "\t\t\t<learning_objectives>" + "\n"
    + Join("\n", ObjectiveLines(m.learningObjectives))
    + "\n" + "\t\t</learning_objectives>" + "\n" + "\t\t</module>"
  }

  function ModuleBlocks(ms: seq<Module>): seq<string> {
    seq(|ms|, i requires 0 <= i < |ms| => ModuleBlock(ms[i]))
  }

  function TopicLine(c: Curriculum): string { "\t<topic>" + c.topic + "</topic>" }

  function DescriptionLine(c: Curriculum): string { "\t<description>" + c.description + "</description>" }

  function AudienceLine(c: Curriculum): string { "\t<audience>" + c.audience + "</audience>" }

  /** Everything up to and including the newline after `\t<modules>`. */
  function Header(c: Curriculum): string {
    "<curriculum>" + "\n" + TopicLine(c) + "\n" + DescriptionLine(c) + "\n" + AudienceLine(c) + "\n" + "\t<modules>" + "\n"
  }

  const Footer := "\n" + "\t</modules>" + "\n" + "</curriculum>"

  /** `str(curriculum)`: the header, the module blocks joined by newlines, the footer. */
  function ToXml(c: Curriculum): (r: string)
    ensures |r| >= |Header(c)| + |Footer|
    ensures r[..|Header(c)|] == Header(c) && r[|r| - |Footer|..] == Footer
  {
    Header(c) + Join("\n", ModuleBlocks(c.modules)) + Footer
  }

  // ---------------------------------------------------------------------------
  // The line-by-line view of the rendering
  // ---------------------------------------------------------------------------

  /** The lines of one module block; no objectives leave one empty line. */
  function ModuleLines(m: Module): seq<string> {
    ["\t\t<module>", TitleLine(m), ModuleDescriptionLine(m), "\t\t\t<learning_objectives>"]
    + (if m.learningObjectives == [] then [""] else ObjectiveLines(m.learningObjectives))
    + ["\t\t</learning_objectives>", "\t\t</module>"]
  }

  function AllModuleLines(ms: seq<Module>): seq<string> {
    if ms == [] then [] else ModuleLines(ms[0]) + AllModuleLines(ms[1..])
  }

  /** The lines of the whole document; no modules leave one empty line. */
  function XmlLines(c: Curriculum): seq<string> {
    ["<curriculum>", TopicLine(c), DescriptionLine(c), AudienceLine(c), "\t<modules>"]
    + (if c.modules == [] then [""] else AllModuleLines(c.modules))
    + ["\t</modules>", "</curriculum>"]
  }

  lemma JoinCons(sep: string, x: string, rest: seq<string>)
    requires |rest| > 0
    ensures Join(sep, [x] + rest) == x + sep + Join(sep, rest)
  {
    assert ([x] + rest)[1..] == rest;
  }

  lemma JoinPair(sep: string, x: string, y: string)
    ensures Join(sep, [x, y]) == x + sep + y
  {
    assert [x, y][1..] == [y];
  }

  lemma JoinFour(sep: string, a: string, b: string, c: string, d: string)
    ensures Join(sep, [a, b, c, d]) == a + sep + b + sep + c + sep + d
  {
    JoinCons(sep, a, [b, c, d]);
    JoinCons(sep, b, [c, d]);
    JoinPair(sep, c, d);
    assert [a, b, c, d] == [a] + [b, c, d] && [b, c, d] == [b] + [c, d];
  }

  lemma JoinFive(sep: string, a: string, b: string, c: string, d: string, e: string)
    ensures Join(sep, [a, b, c, d, e]) == a + sep + b + sep + c + sep + d + sep + e
  {
    JoinCons(sep, a, [b, c, d, e]);
    JoinFour(sep, b, c, d, e);
    assert [a, b, c, d, e] == [a] + [b, c, d, e];
  }

  /** Joining three non-empty groups joins the groups' joins. */
  lemma JoinThree(sep: string, a: seq<string>, b: seq<string>, c: seq<string>)
    requires |a| > 0 && |b| > 0 && |c| > 0
    ensures Join(sep, a + b + c) == Join(sep, a) + sep + Join(sep, b) + sep + Join(sep, c)
  {
    JoinAppend(sep, a + b, c);
    JoinAppend(sep, a, b);
  }

  /** A module block is its lines joined by newlines. */
  lemma ModuleBlockLines(m: Module)
    ensures ModuleBlock(m) == Join("\n", ModuleLines(m))
  {
    var head := ["\t\t<module>", TitleLine(m), ModuleDescriptionLine(m), "\t\t\t<learning_objectives>"];
    var body := if m.learningObjectives == [] then [""] else ObjectiveLines(m.learningObjectives);
    var tail := ["\t\t</learning_objectives>", "\t\t</module>"];
    JoinThree("\n", head, body, tail);
    JoinFour("\n", head[0], head[1], head[2], head[3]);
    JoinPair("\n", tail[0], tail[1]);
    assert Join("\n", body) == Join("\n", ObjectiveLines(m.learningObjectives));
  }

  /** The module blocks joined by newlines are all the modules' lines joined by newlines. */
  lemma {:induction false} BlocksLines(ms: seq<Module>)
    requires ms != []
    ensures Join("\n", ModuleBlocks(ms)) == Join("\n", AllModuleLines(ms))
    decreases |ms|
  {
    ModuleBlockLines(ms[0]);
    if |ms| == 1 {
      assert AllModuleLines(ms) == ModuleLines(ms[0]) by {
        assert AllModuleLines(ms[1..]) == [];
      }
    } else {
      BlocksLines(ms[1..]);
      assert ModuleBlocks(ms) == [ModuleBlock(ms[0])] + ModuleBlocks(ms[1..]);
      JoinCons("\n", ModuleBlock(ms[0]), ModuleBlocks(ms[1..]));
      JoinAppend("\n", ModuleLines(ms[0]), AllModuleLines(ms[1..]));
    }
  }

  lemma AllModuleLinesNonEmpty(ms: seq<Module>)
    requires ms != []
    ensures |AllModuleLines(ms)| > 0
  {
  }

  /**
   * The rendering is exactly the line view joined by newlines: the fixed
   * header lines, every module's lines in order (one empty line when there
   * are none), and the two closing lines.
   */
  lemma ToXmlLines(c: Curriculum)
    ensures ToXml(c) == Join("\n", XmlLines(c))
  {
    var head := ["<curriculum>", TopicLine(c), DescriptionLine(c), AudienceLine(c), "\t<modules>"];
    var body := if c.modules == [] then [""] else AllModuleLines(c.modules);
    var tail := ["\t</modules>", "</curriculum>"];
    BodyLines(c.modules);
    HeaderFooterLines(c);
    ToXmlJoin(c, Join("\n", head), Join("\n", body), Join("\n", tail));
    JoinThree("\n", head, body, tail);
    assert XmlLines(c) == head + body + tail;
  }

  /** The modules' part of the document, as lines: one empty line when there are no modules. */
  lemma BodyLines(ms: seq<Module>)
    ensures var body := if ms == [] then [""] else AllModuleLines(ms);
      |body| > 0 && Join("\n", body) == Join("\n", ModuleBlocks(ms))
  {
    if ms != [] {
      AllModuleLinesNonEmpty(ms);
      BlocksLines(ms);
    }
  }

  lemma ToXmlJoin(c: Curriculum, h: string, b: string, t: string)
    requires Header(c) == h + "\n" && Footer == "\n" + t && Join("\n", ModuleBlocks(c.modules)) == b
    ensures ToXml(c) == h + "\n" + b + "\n" + t
  {
  }

  lemma HeaderFooterLines(c: Curriculum)
    ensures Header(c) == Join("\n", ["<curriculum>", TopicLine(c), DescriptionLine(c), AudienceLine(c), "\t<modules>"]) + "\n"
    ensures Footer == "\n" + Join("\n", ["\t</modules>", "</curriculum>"])
  {
    JoinFive("\n", "<curriculum>", TopicLine(c), DescriptionLine(c), AudienceLine(c), "\t<modules>");
    JoinPair("\n", "\t</modules>", "</curriculum>");
  }

  // ---------------------------------------------------------------------------
  // Splitting the rendering back into lines
  // ---------------------------------------------------------------------------

  /** Every field of the curriculum lies on one line. */
  predicate OneLineFields(c: Curriculum) {
    && NoNewline(c.topic) && NoNewline(c.description) && NoNewline(c.audience)
    && forall m | m in c.modules ::
         NoNewline(m.title) && NoNewline(m.description) && forall o | o in m.learningObjectives :: NoNewline(o)
  }

  lemma NoNewlineWrap(a: string, t: string, b: string)
    requires NoNewline(a) && NoNewline(t) && NoNewline(b)
    ensures NoNewline(a + t + b)
  {
    var s := a + t + b;
    forall k | 0 <= k < |s| ensures s[k] != '\n' {
      if k < |a| { assert s[k] == a[k]; }
      else if k < |a| + |t| { assert s[k] == t[k - |a|]; }
      else { assert s[k] == b[k - |a| - |t|]; }
    }
  }

  lemma ModuleLinesOneLine(m: Module)
    requires NoNewline(m.title) && NoNewline(m.description) && forall o | o in m.learningObjectives :: NoNewline(o)
    ensures forall l | l in ModuleLines(m) :: NoNewline(l)
  {
    NoNewlineWrap("\t\t\t<title>", m.title, "</title>");
    NoNewlineWrap("\t\t\t<description>", m.description, "</description>");
    var head := ["\t\t<module>", TitleLine(m), ModuleDescriptionLine(m), "\t\t\t<learning_objectives>"];
    var body := if m.learningObjectives == [] then [""] else ObjectiveLines(m.learningObjectives);
    var tail := ["\t\t</learning_objectives>", "\t\t</module>"];
    ObjectiveLinesOneLine(m.learningObjectives);
    assert forall l | l in tail :: NoNewline(l);
    NoNewlineThree(head, body, tail);
    assert ModuleLines(m) == head + body + tail;
  }

  lemma ObjectiveLinesOneLine(os: seq<string>)
    requires forall o | o in os :: NoNewline(o)
    ensures forall l | l in ObjectiveLines(os) :: NoNewline(l)
  {
    forall i | 0 <= i < |os| ensures NoNewline(ObjectiveLine(os[i])) {
      assert os[i] in os;
      NoNewlineWrap("\t\t\t\t<objective>", os[i], "</objective>");
    }
  }

  /** Lines that are each on one line stay so when the groups are put together. */
  lemma NoNewlineThree(a: seq<string>, b: seq<string>, c: seq<string>)
    requires forall l | l in a :: NoNewline(l)
    requires forall l | l in b :: NoNewline(l)
    requires forall l | l in c :: NoNewline(l)
    ensures forall l | l in a + b + c :: NoNewline(l)
  {
  }

  /** With one-line fields, every line of the document is one line. */
  lemma XmlLinesOneLine(c: Curriculum)
    requires OneLineFields(c)
    ensures forall l | l in XmlLines(c) :: NoNewline(l)
  {
    NoNewlineWrap("\t<topic>", c.topic, "</topic>");
    NoNewlineWrap("\t<description>", c.description, "</description>");
    NoNewlineWrap("\t<audience>", c.audience, "</audience>");
    var head := ["<curriculum>", TopicLine(c), DescriptionLine(c), AudienceLine(c), "\t<modules>"];
    var body := if c.modules == [] then [""] else AllModuleLines(c.modules);
    var tail := ["\t</modules>", "</curriculum>"];
    AllModuleLinesOneLine(c.modules);
    assert forall l | l in tail :: NoNewline(l);
    NoNewlineThree(head, body, tail);
    assert XmlLines(c) == head + body + tail;
  }

  lemma {:induction false} AllModuleLinesOneLine(ms: seq<Module>)
    requires forall m | m in ms ::
      NoNewline(m.title) && NoNewline(m.description) && forall o | o in m.learningObjectives :: NoNewline(o)
    ensures forall l | l in AllModuleLines(ms) :: NoNewline(l)
    decreases |ms|
  {
    if ms != [] {
      assert ms[0] in ms;
      ModuleLinesOneLine(ms[0]);
      AllModuleLinesOneLine(ms[1..]);
    }
  }

  /**
   * When no field holds a newline, splitting the rendering at newlines gives
   * back exactly the line view: the document has one line per header field,
   * per module tag, per objective and per closing tag, in order.
   */
  lemma SplitToXml(c: Curriculum)
    requires OneLineFields(c)
    ensures Split(ToXml(c), "\n") == XmlLines(c)
  {
    ToXmlLines(c);
    XmlLinesOneLine(c);
    forall l | l in XmlLines(c) ensures !Contains(l, "\n") {
      NoNewlineFree(l);
    }
    SplitJoin(XmlLines(c), "\n");
  }

  // ---------------------------------------------------------------------------
  // Fields appear verbatim
  // ---------------------------------------------------------------------------

  lemma ContainsTrans(a: string, b: string, x: string)
    requires Contains(a, b) && Contains(b, x)
    ensures Contains(a, x)
  {
    var i :| 0 <= i <= |a| && OccursAt(a, b, i);
    var j :| 0 <= j <= |b| && OccursAt(b, x, j);
    assert i + |b| <= |a| && j + |x| <= |b|;
    forall k | 0 <= k < |x| ensures a[i + j + k] == x[k] {
      assert x[k] == b[j..j + |x|][k] == b[j + k];
      assert b[j + k] == a[i..i + |b|][j + k] == a[i + j + k];
    }
    assert a[i + j..i + j + |x|] == x;
    assert OccursAt(a, x, i + j);
  }

  lemma ContainsMiddle(p: string, x: string, q: string)
    ensures Contains(p + x + q, x)
  {
    assert (p + x + q)[|p|..|p| + |x|] == x;
    assert OccursAt(p + x + q, x, |p|);
  }

  /** Every part of a join occurs in it. */
  lemma {:induction false} JoinContains(sep: string, parts: seq<string>, k: nat)
    requires k < |parts|
    ensures Contains(Join(sep, parts), parts[k])
    decreases |parts|
  {
    if |parts| == 1 {
      ContainsMiddle([], parts[0], []);
      assert [] + parts[0] + [] == parts[0];
    } else if k == 0 {
      ContainsMiddle([], parts[0], sep + Join(sep, parts[1..]));
      assert Join(sep, parts) == [] + parts[0] + (sep + Join(sep, parts[1..]));
    } else {
      JoinContains(sep, parts[1..], k - 1);
      ContainsMiddle(parts[0] + sep, Join(sep, parts[1..]), []);
      assert Join(sep, parts) == parts[0] + sep + Join(sep, parts[1..]) + [];
      ContainsTrans(Join(sep, parts), Join(sep, parts[1..]), parts[k]);
    }
  }

  lemma JoinContainsIn(sep: string, parts: seq<string>, l: string)
    requires l in parts
    ensures Contains(Join(sep, parts), l)
  {
    var k :| 0 <= k < |parts| && parts[k] == l;
    JoinContains(sep, parts, k);
  }

  lemma {:induction false} ModuleLinesIn(ms: seq<Module>, i: nat, l: string)
    requires i < |ms| && l in ModuleLines(ms[i])
    ensures l in AllModuleLines(ms)
    decreases i
  {
    if i > 0 {
      ModuleLinesIn(ms[1..], i - 1, l);
    }
  }

  /** A field wrapped in its line occurs in the document once the line does. */
  lemma FieldInLine(c: Curriculum, p: string, x: string, q: string)
    requires p + x + q in XmlLines(c)
    ensures Contains(ToXml(c), x)
  {
    ToXmlLines(c);
    JoinContainsIn("\n", XmlLines(c), p + x + q);
    ContainsMiddle(p, x, q);
    ContainsTrans(ToXml(c), p + x + q, x);
  }

  /**
   * Fields are inserted verbatim, without escaping: the topic, description,
   * audience, every module title and description and every learning
   * objective occur in the document.
   */
  lemma FieldsAppear(c: Curriculum)
    ensures Contains(ToXml(c), c.topic) && Contains(ToXml(c), c.description) && Contains(ToXml(c), c.audience)
    ensures forall i | 0 <= i < |c.modules| ::
      && Contains(ToXml(c), c.modules[i].title) && Contains(ToXml(c), c.modules[i].description)
      && forall j | 0 <= j < |c.modules[i].learningObjectives| :: Contains(ToXml(c), c.modules[i].learningObjectives[j])
  {
    var lines := XmlLines(c);
    assert lines[1] == TopicLine(c) && lines[2] == DescriptionLine(c) && lines[3] == AudienceLine(c);
    FieldInLine(c, "\t<topic>", c.topic, "</topic>");
    FieldInLine(c, "\t<description>", c.description, "</description>");
    FieldInLine(c, "\t<audience>", c.audience, "</audience>");
    forall i | 0 <= i < |c.modules|
      ensures Contains(ToXml(c), c.modules[i].title) && Contains(ToXml(c), c.modules[i].description)
      ensures forall j | 0 <= j < |c.modules[i].learningObjectives| :: Contains(ToXml(c), c.modules[i].learningObjectives[j])
    {
      ModuleFieldsAppear(c, i);
    }
  }

  lemma ModuleFieldsAppear(c: Curriculum, i: nat)
    requires i < |c.modules|
    ensures Contains(ToXml(c), c.modules[i].title) && Contains(ToXml(c), c.modules[i].description)
    ensures forall j | 0 <= j < |c.modules[i].learningObjectives| :: Contains(ToXml(c), c.modules[i].learningObjectives[j])
  {
    var m := c.modules[i];
    assert ModuleLines(m)[1] == TitleLine(m) && ModuleLines(m)[2] == ModuleDescriptionLine(m);
    ModuleFieldAppears(c, i, "\t\t\t<title>", m.title, "</title>");
    ModuleFieldAppears(c, i, "\t\t\t<description>", m.description, "</description>");
    forall j | 0 <= j < |m.learningObjectives| ensures Contains(ToXml(c), m.learningObjectives[j]) {
      ObjectiveAppears(c, i, j);
    }
  }

  lemma ObjectiveAppears(c: Curriculum, i: nat, j: nat)
    requires i < |c.modules| && j < |c.modules[i].learningObjectives|
    ensures Contains(ToXml(c), c.modules[i].learningObjectives[j])
  {
    var m := c.modules[i];
    var o := m.learningObjectives[j];
    assert ModuleLines(m)[4 + j] == ObjectiveLine(o);
    ModuleFieldAppears(c, i, "\t\t\t\t<objective>", o, "</objective>");
  }

  /** A field wrapped in one of a module's lines occurs in the document. */
  lemma ModuleFieldAppears(c: Curriculum, i: nat, p: string, x: string, q: string)
    requires i < |c.modules| && p + x + q in ModuleLines(c.modules[i])
    ensures Contains(ToXml(c), x)
  {
    ModuleLinesIn(c.modules, i, p + x + q);
    assert p + x + q in XmlLines(c);
    FieldInLine(c, p, x, q);
  }

  /** No modules: the modules element holds one empty line. */
  lemma NoModules(c: Curriculum)
    requires c.modules == []
    ensures Contains(ToXml(c), "\t<modules>" + "\n" + "\n" + "\t</modules>" + "\n")
  {
    var pre := "<curriculum>" + "\n" + TopicLine(c) + "\n" + DescriptionLine(c) + "\n" + AudienceLine(c) + "\n";
    var mid := "\t<modules>" + "\n" + "\n" + "\t</modules>" + "\n";
    assert ToXml(c) == pre + mid + "</curriculum>";
    ContainsMiddle(pre, mid, "</curriculum>");
  }

  /** No learning objectives: the objectives element holds one empty line. */
  lemma NoObjectives(m: Module)
    requires m.learningObjectives == []
    ensures Contains(ModuleBlock(m), "\t\t\t<learning_objectives>" + "\n" + "\n" + "\t\t</learning_objectives>")
  {
    var pre := "\t\t<module>" + "\n" + TitleLine(m) + "\n" + ModuleDescriptionLine(m) + "\n";
    var mid := "\t\t\t<learning_objectives>" + "\n" + "\n" + "\t\t</learning_objectives>";
    assert Join("\n", ObjectiveLines(m.learningObjectives)) == "";
    assert ModuleBlock(m) == pre + mid + ("\n" + "\t\t</module>");
    ContainsMiddle(pre, mid, "\n" + "\t\t</module>");
  }
}
