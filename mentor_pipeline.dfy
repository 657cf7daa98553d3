/**
 * The Mentor pipeline of `mentor/mentor.py`: ideation (the L&D stage's raw
 * answer, cut between its tags), structuring into a `Curriculum`, and
 * selection (retrieval per module, a course context for the librarian, and
 * the librarian's titles mapped back to courses). The generative stages, the
 * retrieval `Curate` and the item store `Get` are uninterpreted functions.
 */
module MentorPipeline {
  import opened Basics
  import opened PyStr
  import opened Kramer
  import opened CurriculumXml
  import opened Stages

  /** The librarian's answer: a title and the selected course titles. */
  datatype Selection = Selection(title: string, courseTitles: seq<string>)

  /** The pipeline's result: a title and one store lookup per selected title. */
  datatype CourseCuration = CourseCuration(title: string, courses: seq<Option<Course>>)

  /**
   * The collaborators: `ideate(topic)` is the L&D stage's raw answer,
   * `structure(ideal, topic)` the structuring stage's parsed curriculum,
   * `librarian(topic, curriculum, context)` the selection stage's parsed answer.
   */
  datatype Services = Services(
    curate: string -> seq<Hit>,
    store: Store,
    ideate: string -> string,
    structure: (string, string) -> Curriculum,
    librarian: (string, Curriculum, string) -> Selection)

  /** What `Mentor` returns: the curation alone, or the curriculum with it. */
  datatype MentorResult = Plain(curation: CourseCuration) | WithCurriculum(curriculum: Curriculum, curation: CourseCuration)

  /** `lnd_curriculum(topic)`. */
  function LndCurriculum(topic: string, sv: Services): string {
    ExtractDescription(sv.ideate(topic))
  }

  function GetTitle(store: Store, title: string): Option<Course> {
    store.get(Text(title))
  }

  /** `[Get(match[0]) for match in pool]`. */
  function Recommend(pool: seq<Hit>, store: Store): seq<Option<Course>> {
    seq(|pool|, i requires 0 <= i < |pool| => GetTitle(store, pool[i].title))
  }

  /**
   * What one candidate adds to `course_context`: nothing when the lookup gave
   * None (the attribute access raises before anything is appended); only the
   * title line when the description is missing (the title was appended before
   * the key lookup raised); otherwise both lines.
   */
  function ContextEntry(c: Option<Course>): string {
    match c
    case None => ""
    case Some(course) =>
      "<course_title>" + course.title + "</course_title>\n"
      + (match course.description
         case None => ""
         case Some(d) => "<course_description>" + d + "</course_description>\n")
  }

  /** `course_context` after the loop over `cs`. */
  function Context(cs: seq<Option<Course>>): string {
    ConcatMap(ContextEntry, cs)
  }

  /** The found courses of a list, in order. */
  function Found(cs: seq<Option<Course>>): seq<Course>
    decreases |cs|
  {
    if cs == [] then []
    else match cs[|cs| - 1]
      case None => Found(cs[..|cs| - 1])
      case Some(c) => Found(cs[..|cs| - 1]) + [c]
  }

  function FoundEntry(c: Course): string {
    ContextEntry(Some(c))
  }

  /** The context of a list with the found courses only. */
  function FoundContext(cs: seq<Course>): string {
    ConcatMap(FoundEntry, cs)
  }

  /** `identify_courses(curriculum)` as a value. */
  function Identify(curriculum: Curriculum, sv: Services): CourseCuration {
    var pool := Pool(curriculum.modules, sv.curate);
    var sel := sv.librarian(curriculum.topic, curriculum, Context(Recommend(pool, sv.store)));
    CourseCuration(sel.title, seq(|sel.courseTitles|, i requires 0 <= i < |sel.courseTitles| => GetTitle(sv.store, sel.courseTitles[i])))
  }

  /**
   * `identify_courses(curriculum)`: one retrieval per module, the hits looked
   * up in the store, the course context built with failed entries skipped,
   * the librarian asked with the curriculum's topic, and each returned title
   * looked up in order, with no dedupe and no count check.
   */
  method IdentifyCourses(curriculum: Curriculum, sv: Services) returns (r: CourseCuration)
    ensures r == Identify(curriculum, sv)
    ensures var sel := sv.librarian(curriculum.topic, curriculum, Context(Recommend(Pool(curriculum.modules, sv.curate), sv.store)));
      && r.title == sel.title && |r.courses| == |sel.courseTitles|
      && forall k :: 0 <= k < |r.courses| ==> r.courses[k] == sv.store.get(Text(sel.courseTitles[k]))
  {
    var pool := CollectCandidates(curriculum.modules, sv.curate);
    var recommended := Recommend(pool, sv.store);
    var context := BuildContext(recommended);
    var sel := sv.librarian(curriculum.topic, curriculum, context);
    var courses: seq<Option<Course>> := [];
    var i := 0;
    while i < |sel.courseTitles|
      invariant 0 <= i <= |sel.courseTitles| && |courses| == i
      invariant forall k :: 0 <= k < i ==> courses[k] == GetTitle(sv.store, sel.courseTitles[k])
    {
      courses := courses + [GetTitle(sv.store, sel.courseTitles[i])];
      i := i + 1;
    }
    r := CourseCuration(sel.title, courses);
  }

  /** The `course_context` loop: a candidate whose lookup or description access raises is skipped from that point on. */
  method BuildContext(recommended: seq<Option<Course>>) returns (context: string)
    ensures context == Context(recommended)
  {
    context := "";
    var i := 0;
    while i < |recommended|
      invariant 0 <= i <= |recommended|
      invariant context == Context(recommended[..i])
    {
      ConcatMapStep(ContextEntry, recommended, i);
      match recommended[i] {
        case None =>
        case Some(course) =>
          var titleLine := "<course_title>" + course.title + "</course_title>\n";
          match course.description {
            case None =>
              context := context + titleLine;
            case Some(d) =>
              var descriptionLine := "<course_description>" + d + "</course_description>\n";
              ConcatAssoc(context, titleLine, descriptionLine);
              context := context + titleLine;
              context := context + descriptionLine;
          }
      }
      i := i + 1;
    }
    assert recommended[..i] == recommended;
  }

  /** `Mentor(topic, return_curriculum)`: the three stages in sequence, each fed the previous output. */
  method Mentor(topic: string, returnCurriculum: bool, sv: Services) returns (r: MentorResult)
    ensures r.WithCurriculum? <==> returnCurriculum
    ensures var ideal := LndCurriculum(topic, sv);
      var curriculum := sv.structure(ideal, topic);
      && r.curation == Identify(curriculum, sv)
      && (r.WithCurriculum? ==> r.curriculum == curriculum)
  {
    var ideal := LndCurriculum(topic, sv);
    var curriculum := sv.structure(ideal, topic);
    var curation := IdentifyCourses(curriculum, sv);
    if returnCurriculum {
      r := WithCurriculum(curriculum, curation);
    } else {
      r := Plain(curation);
    }
  }

  // ---------------------------------------------------------------------------
  // Properties of the course context
  // ---------------------------------------------------------------------------

  /** The context of a split list is the two contexts concatenated: candidates are rendered in pool order. */
  lemma ContextAppend(a: seq<Option<Course>>, b: seq<Option<Course>>)
    ensures Context(a + b) == Context(a) + Context(b)
  {
    ConcatMapAppend(ContextEntry, a, b);
  }

  /** A candidate the store does not know contributes nothing: the context is that of the found courses alone. */
  lemma {:induction false} ContextSkipsMissing(cs: seq<Option<Course>>)
    ensures Context(cs) == FoundContext(Found(cs))
    decreases |cs|
  {
    if cs != [] {
      var init := cs[..|cs| - 1];
      ContextSkipsMissing(init);
      assert Context(cs) == Context(init) + ContextEntry(cs[|cs| - 1]);
      match cs[|cs| - 1] {
        case None =>
        case Some(c) =>
          var f := Found(init) + [c];
          assert f[..|f| - 1] == Found(init);
          assert FoundContext(f) == FoundContext(Found(init)) + FoundEntry(c);
      }
    }
  }

  /**
   * Every found course's title line is in the context, and its description
   * line follows directly when it has a description.
   */
  lemma {:induction false} FoundCourseInContext(cs: seq<Option<Course>>, k: nat)
    requires k < |cs| && cs[k].Some?
    ensures Contains(Context(cs), ContextEntry(cs[k]))
    ensures Contains(Context(cs), "<course_title>" + cs[k].value.title + "</course_title>\n")
  {
    var before, after := cs[..k], cs[k + 1..];
    assert cs == before + [cs[k]] + after;
    ContextAppend(before + [cs[k]], after);
    ContextAppend(before, [cs[k]]);
    assert Context([cs[k]]) == ContextEntry(cs[k]) by {
      assert [cs[k]][..0] == [];
      assert Context([cs[k]]) == Context([]) + ContextEntry(cs[k]);
    }
    var e := ContextEntry(cs[k]);
    var x := Context(cs);
    assert x == Context(before) + e + Context(after);
    assert x[|Context(before)|..|Context(before)| + |e|] == e;
    assert OccursAt(x, e, |Context(before)|);
    var t := "<course_title>" + cs[k].value.title + "</course_title>\n";
    assert e[..|t|] == t;
    assert x[|Context(before)|..|Context(before)| + |t|] == t;
    assert OccursAt(x, t, |Context(before)|);
  }

  /** The pool of a curriculum is recommended entry by entry: one lookup per hit, in pool order, duplicates kept. */
  lemma RecommendAppend(a: seq<Hit>, b: seq<Hit>, store: Store)
    ensures Recommend(a + b, store) == Recommend(a, store) + Recommend(b, store)
  {
  }
}
