/**
 * `MentorChat`: the interactive curation chat. Its state is the curation's
 * course list and the workspace (both `UniqueList` objects) and the course
 * cache; each command changes them in place and is proved to end in the state
 * the corresponding `ChatState` function describes.
 */
module Chat {
  import opened Basics
  import opened PyStr
  import opened Kramer
  import opened UniqueLists
  import opened Catalog
  import opened Placeholders
  import opened ChatState

  class MentorChat {
    /** `curation.courses`. */
    var courses: UniqueList<Course>
    var workspace: UniqueList<Course>
    /** `course_cache`: number -> key, as last printed. */
    var courseCache: map<int, Key>
    /** The item store `Get`. */
    const store: Store

    /** The two lists are distinct objects and the workspace never holds a title twice. */
    predicate Valid()
      reads this, courses, workspace
    {
      courses != workspace && WorkspaceInvariant(State())
    }

    function State(): Session
      reads this, courses, workspace
    {
      Session(courses.items, workspace.items, courseCache)
    }

    /** A fresh session over a loaded curation: empty workspace and empty cache. */
    constructor (store: Store, saved: seq<Course>)
      ensures Valid() && fresh(courses) && fresh(workspace)
      ensures State() == Session(saved, [], map[]) && this.store == store
    {
      this.store := store;
      courses := new UniqueList<Course>();
      workspace := new UniqueList<Course>();
      courseCache := map[];
      new;
      courses.items := saved;
    }

    /** `[int(x) for x in tokens]`: stops at the first token `int` refuses. */
    static method ParseTokens(tokens: seq<string>) returns (numbers: Option<seq<int>>)
      ensures numbers == ParseNumbers(tokens)
    {
      var ns: seq<int> := [];
      var i := 0;
      while i < |tokens|
        invariant 0 <= i <= |tokens| && |ns| == i
        invariant forall k :: 0 <= k < i ==> ParseInt(tokens[k]) == Some(ns[k])
      {
        var n := ParseInt(tokens[i]);
        if n.None? {
          ParseNumbersPointwise(tokens);
          return None;
        }
        ns := ns + [n.value];
        i := i + 1;
      }
      ParseNumbersPointwise(tokens);
      assert forall k :: 0 <= k < |tokens| ==> ParseInt(tokens[k]).Some?;
      var parsed := ParseNumbers(tokens);
      assert parsed.Some? && |parsed.value| == |ns|;
      assert forall k :: 0 <= k < |ns| ==> ParseInt(tokens[k]) == Some(parsed.value[k]);
      assert parsed.value == ns;
      return Some(ns);
    }

    /** `[self.curation.course_cache[n] for n in numbers]` read through the store: a missing number ends the call. */
    method LookupCached(numbers: seq<int>) returns (r: Resolution)
      ensures r == LookupNumbers(courseCache, numbers, store)
    {
      var courseList: seq<Option<Course>> := [];
      var i := 0;
      while i < |numbers|
        invariant 0 <= i <= |numbers| && |courseList| == i
        invariant forall k :: 0 <= k < i ==> numbers[k] in courseCache && courseList[k] == store.get(courseCache[numbers[k]])
      {
        if numbers[i] !in courseCache {
          LookupAllOrNothing(courseCache, numbers, store);
          return NoMatch;
        }
        courseList := courseList + [store.get(courseCache[numbers[i]])];
        i := i + 1;
      }
      LookupAllOrNothing(courseCache, numbers, store);
      return Bulk(courseList);
    }

    /** `parse_course_request`: reads the cache and the store, changes nothing. */
    method ParseCourseRequest(request: string) returns (r: Resolution)
      ensures r == Resolve(courseCache, request, store)
    {
      if Contains(request, " ") && IsDigit(ReplaceAll(request, " ", "")) {
        var parsed := ParseTokens(Split(request, " "));
        if parsed.None? {
          return BadNumber;
        }
        r := LookupCached(parsed.value);
        return;
      }
      if IsDigit(request) {
        var parsed := ParseInt(request);
        if parsed.None? {
          return BadNumber;
        }
        var n := parsed.value;
        if n < 100 {
          if n in courseCache {
            return FromOption(store.get(courseCache[n]));
          }
          return NoMatch;
        }
        return FromOption(store.get(Text(request)));
      }
      return FromLookup(store.lookup(request));
    }

    /** `update_course_cache`: the old cache is discarded and the list numbered from 1. */
    method UpdateCourseCache(list: seq<Course>)
      modifies this
      ensures courses == old(courses) && workspace == old(workspace)
      ensures State() == Printed(old(State()), list)
    {
      courseCache := map[];
      var i := 0;
      while i < |list|
        invariant 0 <= i <= |list| && courses == old(courses) && workspace == old(workspace)
        invariant courseCache == NumberedTitles(list[..i])
      {
        NumberedTitlesExtend(list, i);
        courseCache := courseCache[i + 1 := Text(list[i].title)];
        i := i + 1;
      }
      assert list[..i] == list;
    }

    /** `print_course_list`: shows the list (not modelled) and then renumbers the cache from it. */
    method PrintCourseList(list: seq<Course>)
      modifies this
      ensures courses == old(courses) && workspace == old(workspace)
      ensures State() == Printed(old(State()), list)
    {
      UpdateCourseCache(list);
    }

    /** One item of `add_to_workspace`, against the workspace's titles as they are at the call. */
    method AddEntryToWorkspace(e: Entry) returns (status: Status)
      requires Valid()
      modifies workspace
      ensures Valid()
      ensures var a := AddEntry(old(workspace.items), e, store); workspace.items == a.workspace && status == a.status
    {
      var courseTitles := Titles(workspace.items);
      match e {
        case CourseEntry(c) =>
          AddByTitleSpec(workspace.items, c);
          if c.title !in courseTitles {
            workspace.Append(c);
          }
          status := Completed;
        case TextEntry(t) =>
          var course := store.get(Text(t));
          if course.None? {
            return Raised(ValueError);
          }
          AddByTitleSpec(workspace.items, course.value);
          if course.value.title !in courseTitles {
            workspace.Append(course.value);
          }
          status := Completed;
        case NoEntry =>
          status := Completed;
      }
    }

    /** `add_to_workspace(payload)`: a list payload is added item by item; a failure ends the call. */
    method AddToWorkspace(payload: Payload) returns (status: Status)
      requires Valid()
      modifies workspace
      ensures Valid()
      ensures var a := ChatState.AddToWorkspace(old(workspace.items), payload, store); workspace.items == a.workspace && status == a.status
    {
      match payload {
        case Single(e) =>
          status := AddEntryToWorkspace(e);
        case Several(es) =>
          var i := 0;
          while i < |es|
            invariant 0 <= i <= |es| && Valid()
            invariant AddEntries(old(workspace.items), es, store) == AddEntries(workspace.items, es[i..], store)
          {
            assert es[i..][0] == es[i] && es[i..][1..] == es[i + 1..];
            status := AddEntryToWorkspace(es[i]);
            if status.Raised? {
              return;
            }
            i := i + 1;
          }
          status := Completed;
      }
    }

    /** `move_course(course, direction)`. */
    method MoveCourse(course: Course, direction: Direction)
      requires Valid()
      modifies this, courses
      ensures Valid() && courses == old(courses) && workspace == old(workspace)
      ensures State() == Move(old(State()), course, direction)
    {
      if course in courses.items {
        var index := courses.Index(course);
        var cur := courses.items;
        match direction {
          case Up =>
            if index > 0 {
              courses.items := cur[index := cur[index - 1]][index - 1 := cur[index]];
              PrintCourseList(courses.items);
              UpdateCourseCache(courses.items);
            }
          case Down =>
            if index < |cur| - 1 {
              courses.items := cur[index := cur[index + 1]][index + 1 := cur[index]];
              PrintCourseList(courses.items);
              UpdateCourseCache(courses.items);
            }
          case Top =>
            if index > 0 {
              var item := cur[index];
              courses.items := cur[..index] + cur[index + 1..];
              courses.items := [item] + courses.items;
              PrintCourseList(courses.items);
              UpdateCourseCache(courses.items);
            }
          case Bottom =>
            if index < |cur| - 1 {
              PrintCourseList(courses.items);
              UpdateCourseCache(courses.items);
              var item := cur[index];
              courses.items := cur[..index] + cur[index + 1..];
              courses.Append(item);
            }
        }
      }
    }

    /** `command_add_course(param)`. */
    method AddCourse(param: string) returns (status: Status)
      requires Valid()
      modifies this, courses, workspace
      ensures Valid() && courses == old(courses) && workspace == old(workspace)
      ensures Outcome(State(), status) == ChatState.AddCourse(old(State()), param, store)
    {
      var course := ParseCourseRequest(param);
      ListKinds(courseCache, param, store);
      status := Completed;
      match course {
        case Bulk(items) =>
          if IsDigit(ReplaceAll(param, " ", "")) {
            var i := 0;
            while i < |items|
              invariant 0 <= i <= |items| && Valid()
              invariant courses == old(courses) && workspace == old(workspace)
              invariant AddMany(old(State()), items) == AddMany(State(), items[i..])
            {
              assert items[i..][0] == items[i] && items[i..][1..] == items[i + 1..];
              if items[i].Some? {
                courses.Append(items[i].value);
                var _ := AddEntryToWorkspace(CourseEntry(items[i].value));
              }
              i := i + 1;
            }
          } else {
            assert false;
          }
        case Suggested(cs) =>
          PrintCourseList(cs);
        case One(c) =>
          courses.Append(c);
          var _ := AddEntryToWorkspace(CourseEntry(c));
        case NoMatch =>
        case BadNumber =>
          status := Raised(ValueError);
      }
    }

    /** `command_remove_course(param)`. */
    method RemoveCourse(param: string) returns (status: Status)
      requires Valid()
      modifies this, courses, workspace
      ensures Valid() && courses == old(courses) && workspace == old(workspace)
      ensures Outcome(State(), status) == ChatState.RemoveCourse(old(State()), param, store)
    {
      var course := ParseCourseRequest(param);
      ListKinds(courseCache, param, store);
      status := Completed;
      match course {
        case Bulk(items) =>
          if IsDigit(ReplaceAll(param, " ", "")) {
            var i := 0;
            while i < |items|
              invariant 0 <= i <= |items| && Valid()
              invariant courses == old(courses) && workspace == old(workspace)
              invariant status == Completed
              invariant RemoveMany(old(State()), items) == RemoveMany(State(), items[i..])
            {
              assert items[i..][0] == items[i] && items[i..][1..] == items[i + 1..];
              status := RemoveStep(items[i]);
              if status.Raised? {
                return;
              }
              i := i + 1;
            }
          } else {
            assert false;
          }
        case Suggested(cs) =>
          PrintCourseList(cs);
        case One(c) =>
          status := RemoveStep(Some(c));
        case NoMatch =>
        case BadNumber =>
          status := Raised(ValueError);
      }
    }

    /** One `curation.courses.remove(item)` followed by `add_to_workspace(item)`. */
    method RemoveStep(item: Option<Course>) returns (status: Status)
      requires Valid()
      modifies courses, workspace
      ensures Valid()
      ensures item.None? ==> status == Raised(ValueError) && State() == old(State())
      ensures item.Some? ==> Outcome(State(), status) == RemoveOne(old(State()), item.value)
    {
      if item.None? {
        return Raised(ValueError);
      }
      var c := item.value;
      RemoveOneSpec(State(), c);
      var found := courses.Remove(c);
      if !found {
        return Raised(ValueError);
      }
      var _ := AddEntryToWorkspace(CourseEntry(c));
      status := Completed;
    }

    /** `command_reorder_curation`, with the user's answer `input` as a parameter; every exception is caught. */
    method ReorderCuration(input: string)
      requires Valid()
      modifies this, courses
      ensures Valid() && courses == old(courses) && workspace == old(workspace)
      ensures State() == Reorder(old(State()), input)
    {
      ghost var s0 := State();
      if courses.items == [] {
        return;
      }
      var cur := courses.items;
      PrintCourseList(cur);
      CacheCourseObjects(cur);
      var numbers := ReadSwap(input);
      assert Reorder(s0, input) == ReorderWith(s0, numbers);
      if numbers.None? {
        return;
      }
      SwapCached(cur, numbers.value.0, numbers.value.1);
    }

    /** The user's answer split at spaces: exactly two tokens, each read by `int`, or None where the command reports invalid input. */
    static method ReadSwap(input: string) returns (numbers: Option<(int, int)>)
      ensures numbers == SwapNumbers(input)
    {
      var swap := Split(input, " ");
      if |swap| != 2 {
        return None;
      }
      var a, b := ParseInt(swap[0]), ParseInt(swap[1]);
      if a.None? || b.None? {
        return None;
      }
      return Some((a.value, b.value));
    }

    /** The loop of the reorder command that overwrites every number with the course object it stands for. */
    method CacheCourseObjects(cur: seq<Course>)
      requires courseCache == NumberedTitles(cur)
      modifies this
      ensures courses == old(courses) && workspace == old(workspace)
      ensures State() == old(State()).(cache := NumberedObjects(cur))
    {
      var i := 0;
      PartlyObjectsAll(cur);
      while i < |cur|
        invariant 0 <= i <= |cur| && courses == old(courses) && workspace == old(workspace)
        invariant courseCache == PartlyObjects(cur, i)
      {
        PartlyObjectsExtend(cur, i);
        courseCache := courseCache[i + 1 := Object(cur[i])];
        i := i + 1;
      }
    }

    /** The exchange of courses `a` and `b` of the reorder command, once the cache holds course objects. */
    method SwapCached(cur: seq<Course>, a: int, b: int)
      requires Valid() && cur != [] && courses.items == cur && courseCache == NumberedObjects(cur)
      modifies this, courses
      ensures Valid() && courses == old(courses) && workspace == old(workspace)
      ensures !(1 <= a <= |cur| && 1 <= b <= |cur|) ==> State() == old(State())
      ensures 1 <= a <= |cur| && 1 <= b <= |cur| ==>
        var c1, c2 := cur[a - 1], cur[b - 1];
        State() == Reprinted(old(State()), cur[IndexOf(cur, c1) := c2][IndexOf(cur, c2) := c1])
    {
      if a !in courseCache || b !in courseCache {
        return;
      }
      var course1, course2 := courseCache[a], courseCache[b];
      assert course1 == Object(cur[a - 1]) && course2 == Object(cur[b - 1]);
      var index1 := courses.Index(course1.course);
      var index2 := courses.Index(course2.course);
      var swapped := cur[index1 := course2.course][index2 := course1.course];
      courses.items := swapped;
      courseCache := courseCache[a := course2][b := course1];
      PrintCourseList(swapped);
      UpdateCourseCache(swapped);
    }

    /** `command_add_workspace(param)`. */
    method AddWorkspace(param: string) returns (status: Status)
      requires Valid()
      modifies workspace
      ensures Valid()
      ensures Outcome(State(), status) == AddWorkspaceCommand(old(State()), param, store)
    {
      var course := ParseCourseRequest(param);
      status := Completed;
      match course {
        case One(c) =>
          status := AddToWorkspace(Single(CourseEntry(c)));
        case Bulk(items) =>
          if items != [] {
            var _ := AddToWorkspace(Several(ItemEntries(items)));
            status := Raised(AttributeError);
          }
        case Suggested(cs) =>
          if cs != [] {
            var _ := AddToWorkspace(Several(CourseEntries(cs)));
            status := Raised(AttributeError);
          }
        case NoMatch =>
        case BadNumber =>
          status := Raised(ValueError);
      }
    }

    /** `command_remove_workspace(param)`. */
    method RemoveWorkspace(param: string) returns (status: Status)
      requires Valid()
      modifies workspace
      ensures Valid()
      ensures Outcome(State(), status) == RemoveWorkspaceCommand(old(State()), param, store)
    {
      RemoveWorkspaceSpec(State(), param, store);
      var course := ParseCourseRequest(param);
      match course {
        case BadNumber =>
          status := Raised(ValueError);
        case One(c) =>
          if c in workspace.items {
            var _ := workspace.Remove(c);
          }
          status := Completed;
        case _ =>
          status := Raised(AttributeError);
      }
    }

    /** `command_clear_workspace`: a new empty workspace. */
    method ClearWorkspace()
      requires Valid()
      modifies this
      ensures Valid() && courses == old(courses) && fresh(workspace)
      ensures State() == old(State()).(workspace := [])
    {
      workspace := new UniqueList<Course>();
    }

    /** `command_move_up`, `command_move_down`, `command_move_top`, `command_move_bottom`. */
    method MoveCommand(param: string, direction: Direction) returns (status: Status)
      requires Valid()
      modifies this, courses
      ensures Valid() && courses == old(courses) && workspace == old(workspace)
      ensures Outcome(State(), status) == ChatState.MoveCommand(old(State()), param, direction, store)
    {
      var course := ParseCourseRequest(param);
      status := Completed;
      match course {
        case One(c) =>
          MoveCourse(c, direction);
        case BadNumber =>
          status := Raised(ValueError);
        case _ =>
      }
    }

    /**
     * One found reference of `query_model`: either the prompt with its
     * placeholder rewritten (or left alone) and the loop goes on, or the reply
     * that ends the call.
     */
    method ExpandRef(prompt: string, refs: seq<Ref>) returns (next: string, stop: Option<Reply>)
      requires Valid() && refs != []
      modifies this
      ensures Valid() && courses == old(courses) && workspace == old(workspace)
      ensures stop.None? ==> State() == old(State())
      ensures stop.None? ==> ExpandRefs(old(State()), prompt, refs, store) == ExpandRefs(State(), next, refs[1..], store)
      ensures stop.Some? ==> (State(), stop.value) == ExpandRefs(old(State()), prompt, refs, store)
    {
      var m := refs[0];
      next, stop := prompt, None;
      if m.keyword in ValidKeywords {
        var course := ParseCourseRequest(m.param);
        match course {
          case NoMatch =>
            stop := Some(Failed(TypeError));
          case BadNumber =>
            stop := Some(Failed(ValueError));
          case Suggested(cs) =>
            PrintCourseList(cs);
            stop := Some(Halted);
          case Bulk(items) =>
            if forall k :: 0 <= k < |items| ==> items[k].Some? {
              PrintCourseList(Present(items));
              stop := Some(Halted);
            } else {
              stop := Some(Failed(AttributeError));
            }
          case One(c) =>
            var content := FieldContent(c, m.keyword);
            if content.None? {
              stop := Some(Failed(KeyError));
            } else if content.value != "" {
              next := ReplaceAll(prompt, "{{" + m.param + "." + m.keyword + "}}", CourseBlock(c, m.keyword, content.value));
            }
        }
      }
    }

    /**
     * `query_model` on the last message's text, with the curation's snapshot
     * and tables of contents as parameters. `Sent(p)` stands for handing `p`
     * to the backend.
     */
    method QueryModel(prompt: string, snapshot: string, tocs: string) returns (reply: Reply)
      requires Valid()
      modifies this
      ensures Valid() && courses == old(courses) && workspace == old(workspace)
      ensures (State(), reply) == ChatState.QueryModel(old(State()), prompt, snapshot, tocs, store)
    {
      var newPrompt := prompt;
      if Contains(newPrompt, "{{snapshot}}") {
        newPrompt := ReplaceAll(newPrompt, "{{snapshot}}", "<course_descriptions>\n" + snapshot + "\n</course_descriptions>");
      }
      if Contains(newPrompt, "{{tocs}}") {
        newPrompt := ReplaceAll(newPrompt, "{{tocs}}", "<course_tocs>\n" + tocs + "\n</course_tocs>");
      }
      var matches := FindAll(newPrompt);
      ghost var start := newPrompt;
      var i := 0;
      while i < |matches|
        invariant 0 <= i <= |matches| && courses == old(courses) && workspace == old(workspace)
        invariant State() == old(State()) && Valid()
        invariant ExpandRefs(old(State()), start, matches, store) == ExpandRefs(State(), newPrompt, matches[i..], store)
      {
        var stop;
        newPrompt, stop := ExpandRef(newPrompt, matches[i..]);
        if stop.Some? {
          return stop.value;
        }
        i := i + 1;
      }
      return Sent(newPrompt);
    }
  }

  lemma NumberedTitlesExtend(list: seq<Course>, i: nat)
    requires i < |list|
    ensures NumberedTitles(list[..i + 1]) == NumberedTitles(list[..i])[i + 1 := Text(list[i].title)]
  {
    var m1 := NumberedTitles(list[..i + 1]);
    var m2 := NumberedTitles(list[..i])[i + 1 := Text(list[i].title)];
    assert forall k :: k in m1 <==> k in m2;
    forall k | k in m1 ensures m1[k] == m2[k] {
      if k <= i { assert list[..i + 1][k - 1] == list[..i][k - 1]; }
    }
  }

  /** The cache while the reorder command overwrites the first `i` numbers with course objects. */
  function PartlyObjects(cur: seq<Course>, i: nat): map<int, Key> {
    map k | 1 <= k <= |cur| :: if k <= i then ObjectKey(cur, k) else TitleKey(cur, k)
  }

  lemma PartlyObjectsExtend(cur: seq<Course>, i: nat)
    requires i < |cur|
    ensures PartlyObjects(cur, i + 1) == PartlyObjects(cur, i)[i + 1 := Object(cur[i])]
  {
    var m1 := PartlyObjects(cur, i + 1);
    var m2 := PartlyObjects(cur, i)[i + 1 := Object(cur[i])];
    assert forall k :: k in m1 <==> k in m2;
  }

  lemma PartlyObjectsAll(cur: seq<Course>)
    ensures PartlyObjects(cur, 0) == NumberedTitles(cur)
    ensures PartlyObjects(cur, |cur|) == NumberedObjects(cur)
  {
  }
}
