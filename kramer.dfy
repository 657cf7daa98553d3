/**
 * The course library the session works on. The library and its item store
 * live outside this system; here they are only the data the session reads and
 * an uninterpreted store, passed around as function values.
 */
module Kramer {
  import opened Basics

  /**
   * A course record as the session reads it. `description` is the
   * "Course Description" metadata entry, absent when the key is missing. An
   * empty `toc` or `transcript` stands for an empty or missing text, which
   * the placeholder expansion treats alike; `tocVerbose` is taken to be
   * present.
   * Two courses are equal when all their fields are.
   */
  datatype Course = Course(
    title: string,
    description: Option<string>,
    toc: string,
    tocVerbose: string,
    transcript: string)

  /** What a number in the course cache stands for: normally a title, but a course object after an interrupted reorder. */
  datatype Key = Text(text: string) | Object(course: Course)

  /** What the store returns for a lookup that may fall back to fuzzy suggestions. */
  datatype Lookup = Missing | Found(course: Course) | Suggestions(candidates: seq<Course>)

  /**
   * The item store `Get`, uninterpreted: `get` is `Get(key)` (a course or
   * nothing), `lookup` is `Get(text, return_recommendations=True)`.
   */
  datatype Store = Store(get: Key -> Option<Course>, lookup: string -> Lookup)

  /** The titles of a list of courses, in order. */
  function Titles(cs: seq<Course>): seq<string> {
    seq(|cs|, i requires 0 <= i < |cs| => cs[i].title)
  }

  /** No two courses of the list share a title. */
  predicate DistinctTitles(cs: seq<Course>) {
    forall i, j :: 0 <= i < j < |cs| ==> cs[i].title != cs[j].title
  }
}
