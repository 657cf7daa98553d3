/**
 * The earlier pipeline script `Mentor.py`: the same ideation and structuring
 * stages, a selection stage that gives the librarian a `title: score` context
 * and returns its parsed `Curation` unchanged, and `Curation.curation_TOCs`.
 */
module MentorScript {
  import opened Basics
  import opened PyStr
  import opened Kramer
  import opened CurriculumXml
  import opened Stages

  /** `Curation` of this script: a topic and course titles. */
  datatype TitleCuration = TitleCuration(topic: string, courseTitles: seq<string>)

  /**
   * The collaborators: `ideate(topic)` is the L&D stage's raw answer,
   * `structure(ideal, topic)` the parsed curriculum, `librarian(topic,
   * curriculum, context)` the parsed curation.
   */
  datatype Services = Services(
    curate: string -> seq<Hit>,
    ideate: string -> string,
    structure: (string, string) -> Curriculum,
    librarian: (string, Curriculum, string) -> TitleCuration)

  /** `f"{course[0]}: {course[1]}"` for one hit. */
  function ScoreLine(h: Hit): string {
    h.title + ": " + h.score
  }

  function ScoreLines(pool: seq<Hit>): seq<string> {
    seq(|pool|, i requires 0 <= i < |pool| => ScoreLine(pool[i]))
  }

  /** `course_context`: the hits as `title: score` lines joined by newlines. */
  function ScoreContext(pool: seq<Hit>): string {
    Join("\n", ScoreLines(pool))
  }

  /**
   * `identify_courses(curriculum)` as a value: the librarian's topic is the
   * title of the last module (the loop variable outlives the loop), and with
   * no modules that variable is unbound and the call raises UnboundLocalError,
   * a subclass of NameError, reported here as `NameError`.
   */
  function Identify(curriculum: Curriculum, sv: Services): Result<TitleCuration> {
    var ms := curriculum.modules;
    if ms == [] then Fail(NameError)
    else Ok(sv.librarian(ms[|ms| - 1].title, curriculum, ScoreContext(Pool(ms, sv.curate))))
  }

  /** `identify_courses(curriculum)`: the retrieval loop, the context, one librarian call; its answer is returned as is. */
  method IdentifyCourses(curriculum: Curriculum, sv: Services) returns (r: Result<TitleCuration>)
    ensures r == Identify(curriculum, sv)
    ensures r.Fail? <==> curriculum.modules == []
    ensures r.Fail? ==> r.error == NameError
    ensures r.Ok? ==> r.value == sv.librarian(curriculum.modules[|curriculum.modules| - 1].title, curriculum,
                                              ScoreContext(Pool(curriculum.modules, sv.curate)))
  {
    var ms := curriculum.modules;
    var pool: seq<Hit> := [];
    var lastModule: Option<Module> := None;
    var i := 0;
    while i < |ms|
      invariant 0 <= i <= |ms|
      invariant pool == Pool(ms[..i], sv.curate)
      invariant lastModule == if i == 0 then None else Some(ms[i - 1])
    {
      assert ms[..i + 1][..i] == ms[..i];
      lastModule := Some(ms[i]);
      pool := pool + sv.curate(ModuleQuery(ms[i]));
      i := i + 1;
    }
    assert ms[..i] == ms;
    var context := ScoreContext(pool);
    if lastModule.None? {
      return Fail(NameError);
    }
    r := Ok(sv.librarian(lastModule.value.title, curriculum, context));
  }

  /** `Mentor(topic)`: the three stages in sequence, each fed the previous output. */
  method Mentor(topic: string, sv: Services) returns (r: Result<TitleCuration>)
    ensures r == Identify(sv.structure(ExtractDescription(sv.ideate(topic)), topic), sv)
  {
    var ideal := ExtractDescription(sv.ideate(topic));
    var curriculum := sv.structure(ideal, topic);
    r := IdentifyCourses(curriculum, sv);
  }

  /**
   * With one-line titles and scores the context has exactly one line per
   * hit, in pool order, duplicates kept; an empty pool gives an empty context.
   */
  lemma ScoreContextLines(pool: seq<Hit>)
    requires forall h | h in pool :: NoNewline(h.title) && NoNewline(h.score)
    ensures pool == [] ==> ScoreContext(pool) == ""
    ensures pool != [] ==> Split(ScoreContext(pool), "\n") == ScoreLines(pool)
  {
    if pool != [] {
      var lines := ScoreLines(pool);
      forall l | l in lines ensures !Contains(l, "\n") {
        var k :| 0 <= k < |lines| && lines[k] == l;
        assert pool[k] in pool;
        NoNewlineConcat(pool[k].title, ": ");
        NoNewlineConcat(pool[k].title + ": ", pool[k].score);
        NoNewlineFree(l);
      }
      SplitJoin(lines, "\n");
    }
  }

  // ---------------------------------------------------------------------------
  // curation_TOCs
  // ---------------------------------------------------------------------------

  /** The verbose table of contents `Get` gives for a title, "" when the title is unknown. */
  function TocText(store: Store, title: string): string {
    match store.get(Text(title))
    case None => ""
    case Some(c) => c.tocVerbose
  }

  /**
   * `curation_TOCs()`: every title's verbose table of contents appended in
   * order, no separator; a title `Get` does not know raises AttributeError.
   */
  function Tocs(titles: seq<string>, store: Store): Result<string>
    decreases |titles|
  {
    if titles == [] then Ok("")
    else
      match Tocs(titles[..|titles| - 1], store)
      case Fail(e) => Fail(e)
      case Ok(text) =>
        match store.get(Text(titles[|titles| - 1]))
        case None => Fail(AttributeError)
        case Some(c) => Ok(text + c.tocVerbose)
  }

  method CurationTocs(c: TitleCuration, store: Store) returns (r: Result<string>)
    ensures r == Tocs(c.courseTitles, store)
  {
    var text := "";
    var i := 0;
    while i < |c.courseTitles|
      invariant 0 <= i <= |c.courseTitles|
      invariant Tocs(c.courseTitles[..i], store) == Ok(text)
    {
      assert c.courseTitles[..i + 1][..i] == c.courseTitles[..i];
      var course := store.get(Text(c.courseTitles[i]));
      if course.None? {
        TocsFailureSticks(c.courseTitles, i + 1, store);
        return Fail(AttributeError);
      }
      text := text + course.value.tocVerbose;
      i := i + 1;
    }
    assert c.courseTitles[..i] == c.courseTitles;
    r := Ok(text);
  }

  /** Once a prefix fails, so does every longer prefix, with the same error. */
  lemma {:induction false} TocsFailureSticks(titles: seq<string>, i: nat, store: Store)
    requires i <= |titles| && Tocs(titles[..i], store).Fail?
    ensures Tocs(titles, store) == Fail(AttributeError)
    decreases |titles| - i
  {
    TocsErrorIsAttribute(titles[..i], store);
    if i < |titles| {
      assert titles[..i + 1][..i] == titles[..i];
      TocsFailureSticks(titles, i + 1, store);
    } else {
      assert titles[..i] == titles;
    }
  }

  lemma {:induction false} TocsErrorIsAttribute(titles: seq<string>, store: Store)
    ensures Tocs(titles, store).Fail? ==> Tocs(titles, store).error == AttributeError
    decreases |titles|
  {
    if titles != [] {
      TocsErrorIsAttribute(titles[..|titles| - 1], store);
    }
  }

  /**
   * The tables of contents are collected exactly when every title is known,
   * and then they are the verbose tables of contents of the titles,
   * concatenated in title order with no separator.
   */
  lemma {:induction false} TocsSpec(titles: seq<string>, store: Store)
    ensures Tocs(titles, store).Ok? <==> forall k :: 0 <= k < |titles| ==> store.get(Text(titles[k])).Some?
    ensures Tocs(titles, store).Ok? ==> Tocs(titles, store).value == ConcatMap(t => TocText(store, t), titles)
    decreases |titles|
  {
    if titles != [] {
      var init := titles[..|titles| - 1];
      TocsSpec(init, store);
      assert forall k :: 0 <= k < |init| ==> init[k] == titles[k];
    }
  }
}
