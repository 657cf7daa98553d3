/**
 * The state of an interactive curation chat and what each command does to
 * it, as functions on a value. The `MentorChat` class runs these step by step
 * on its fields and is proved to end where these functions say.
 */
module ChatState {
  import opened Basics
  import opened PyStr
  import opened Kramer
  import opened UniqueLists
  import opened Catalog
  import opened Placeholders

  /** The session's mutable state: the curation's course list, the workspace, and the course cache. */
  datatype Session = Session(curation: seq<Course>, workspace: seq<Course>, cache: map<int, Key>)

  /** A command's effect: the new state, and whether an exception escaped. */
  datatype Outcome = Outcome(session: Session, status: Status)

  /** The invariant every command keeps: no title twice in the workspace. */
  predicate WorkspaceInvariant(s: Session) {
    DistinctTitles(s.workspace)
  }

  /** `print_course_list(list)` for a list of courses: the cache now numbers `list`. */
  function Printed(s: Session, list: seq<Course>): Session {
    s.(cache := NumberedTitles(list))
  }

  /** The curation replaced by `cur`, printed and cached again. */
  function Reprinted(s: Session, cur: seq<Course>): Session {
    s.(curation := cur, cache := NumberedTitles(cur))
  }

  // ---------------------------------------------------------------------------
  // add_to_workspace
  // ---------------------------------------------------------------------------

  /** One item handed to `add_to_workspace`: a course, a title or id to look up, or `None` (ignored). */
  datatype Entry = CourseEntry(course: Course) | TextEntry(text: string) | NoEntry

  /** The payload of `add_to_workspace`: one item or a list of items. */
  datatype Payload = Single(entry: Entry) | Several(entries: seq<Entry>)

  /** The workspace after one call, and whether it raised. */
  datatype Added = Added(workspace: seq<Course>, status: Status)

  /** A course joins the workspace unless a course with its title is already there. */
  function AddByTitle(ws: seq<Course>, c: Course): seq<Course> {
    if c.title in Titles(ws) then ws else UniqueAppend(ws, c)
  }

  function AddEntry(ws: seq<Course>, e: Entry, store: Store): Added {
    match e
    case CourseEntry(c) => Added(AddByTitle(ws, c), Completed)
    case TextEntry(t) =>
      (match store.get(Text(t))
       case None => Added(ws, Raised(ValueError))
       case Some(c) => Added(AddByTitle(ws, c), Completed))
    case NoEntry => Added(ws, Completed)
  }

  /** A list payload is added item by item, in order; the first failure ends the call and keeps earlier additions. */
  function AddEntries(ws: seq<Course>, es: seq<Entry>, store: Store): Added
    decreases |es|
  {
    if es == [] then Added(ws, Completed)
    else
      var a := AddEntry(ws, es[0], store);
      if a.status.Raised? then a else AddEntries(a.workspace, es[1..], store)
  }

  function AddToWorkspace(ws: seq<Course>, payload: Payload, store: Store): Added {
    match payload
    case Single(e) => AddEntry(ws, e, store)
    case Several(es) => AddEntries(ws, es, store)
  }

  lemma TitlesIn(ws: seq<Course>, t: string)
    ensures t in Titles(ws) <==> exists i :: 0 <= i < |ws| && ws[i].title == t
  {
    if t in Titles(ws) {
      var i :| 0 <= i < |Titles(ws)| && Titles(ws)[i] == t;
      assert ws[i].title == t;
    }
    if exists i :: 0 <= i < |ws| && ws[i].title == t {
      var i :| 0 <= i < |ws| && ws[i].title == t;
      assert Titles(ws)[i] == t;
    }
  }

  /**
   * Title dedupe: a course whose title is already present leaves the
   * workspace as it was; any other course is appended, and titles stay distinct.
   */
  lemma AddByTitleSpec(ws: seq<Course>, c: Course)
    requires DistinctTitles(ws)
    ensures c.title in Titles(ws) ==> AddByTitle(ws, c) == ws
    ensures c.title !in Titles(ws) ==> AddByTitle(ws, c) == ws + [c]
    ensures DistinctTitles(AddByTitle(ws, c))
    ensures Titles(AddByTitle(ws, c)) == if c.title in Titles(ws) then Titles(ws) else Titles(ws) + [c.title]
  {
    TitlesIn(ws, c.title);
    if c.title !in Titles(ws) {
      assert c !in ws by {
        forall i | 0 <= i < |ws| ensures ws[i] != c { assert ws[i].title != c.title; }
      }
    }
  }

  /**
   * Adding a list of items keeps the workspace's titles distinct and its old
   * contents as a prefix; it raises ValueError exactly when some item is a
   * text the store cannot resolve; and when it completes, every course item's
   * title is in the workspace.
   */
  lemma AddEntriesSpec(ws: seq<Course>, es: seq<Entry>, store: Store)
    requires DistinctTitles(ws)
    ensures var a := AddEntries(ws, es, store);
      && DistinctTitles(a.workspace)
      && |ws| <= |a.workspace| && a.workspace[..|ws|] == ws
      && (a.status.Raised? <==> exists k :: 0 <= k < |es| && es[k].TextEntry? && store.get(Text(es[k].text)).None?)
      && (a.status.Raised? ==> a.status.error == ValueError)
      && (a.status == Completed ==> forall k :: 0 <= k < |es| && es[k].CourseEntry? ==> es[k].course.title in Titles(a.workspace))
  {
    AddEntriesDistinct(ws, es, store);
    AddEntriesPrefix(ws, es, store);
    AddEntriesRaises(ws, es, store);
    AddEntriesCovers(ws, es, store);
  }

  lemma {:induction false} AddEntriesDistinct(ws: seq<Course>, es: seq<Entry>, store: Store)
    requires DistinctTitles(ws)
    ensures DistinctTitles(AddEntries(ws, es, store).workspace)
    decreases |es|
  {
    if es != [] {
      match es[0] {
        case CourseEntry(c) => AddByTitleSpec(ws, c);
        case TextEntry(t) =>
          if store.get(Text(t)).Some? { AddByTitleSpec(ws, store.get(Text(t)).value); }
        case NoEntry =>
      }
      var a0 := AddEntry(ws, es[0], store);
      if a0.status == Completed {
        AddEntriesDistinct(a0.workspace, es[1..], store);
      }
    }
  }

  /** Adding by title only ever appends. */
  lemma AddByTitlePrefix(ws: seq<Course>, c: Course)
    ensures |ws| <= |AddByTitle(ws, c)| && AddByTitle(ws, c)[..|ws|] == ws
  {
  }

  /** After adding by title, the title is present. */
  lemma AddByTitleHas(ws: seq<Course>, c: Course)
    ensures c.title in Titles(AddByTitle(ws, c))
  {
    if c.title !in Titles(ws) {
      TitlesIn(ws, c.title);
      assert c !in ws by {
        forall i | 0 <= i < |ws| ensures ws[i] != c { assert ws[i].title != c.title; }
      }
      assert AddByTitle(ws, c) == ws + [c];
      assert Titles(ws + [c])[|ws|] == c.title;
    }
  }

  lemma {:induction false} AddEntriesPrefix(ws: seq<Course>, es: seq<Entry>, store: Store)
    ensures |ws| <= |AddEntries(ws, es, store).workspace| && AddEntries(ws, es, store).workspace[..|ws|] == ws
    decreases |es|
  {
    if es != [] {
      match es[0] {
        case CourseEntry(c) => AddByTitlePrefix(ws, c);
        case TextEntry(t) =>
          if store.get(Text(t)).Some? { AddByTitlePrefix(ws, store.get(Text(t)).value); }
        case NoEntry =>
      }
      var a0 := AddEntry(ws, es[0], store);
      if a0.status == Completed {
        AddEntriesPrefix(a0.workspace, es[1..], store);
        var w := AddEntries(a0.workspace, es[1..], store).workspace;
        assert w[..|ws|] == w[..|a0.workspace|][..|ws|];
      }
    }
  }

  lemma {:induction false} AddEntriesRaises(ws: seq<Course>, es: seq<Entry>, store: Store)
    ensures var a := AddEntries(ws, es, store);
      && (a.status.Raised? <==> exists k :: 0 <= k < |es| && es[k].TextEntry? && store.get(Text(es[k].text)).None?)
      && (a.status.Raised? ==> a.status.error == ValueError)
    decreases |es|
  {
    if es != [] {
      var a0 := AddEntry(ws, es[0], store);
      if a0.status == Completed {
        AddEntriesRaises(a0.workspace, es[1..], store);
        if exists k :: 0 <= k < |es| && es[k].TextEntry? && store.get(Text(es[k].text)).None? {
          var k :| 0 <= k < |es| && es[k].TextEntry? && store.get(Text(es[k].text)).None?;
          assert k > 0 && es[1..][k - 1] == es[k];
        }
        if exists k :: 0 <= k < |es[1..]| && es[1..][k].TextEntry? && store.get(Text(es[1..][k].text)).None? {
          var k :| 0 <= k < |es[1..]| && es[1..][k].TextEntry? && store.get(Text(es[1..][k].text)).None?;
          assert es[k + 1] == es[1..][k];
        }
      }
    }
  }

  /** A title present in a prefix is present in the whole list. */
  lemma TitleInPrefix(ws: seq<Course>, w: seq<Course>, t: string)
    requires |ws| <= |w| && w[..|ws|] == ws && t in Titles(ws)
    ensures t in Titles(w)
  {
    TitlesIn(ws, t);
    var i :| 0 <= i < |ws| && ws[i].title == t;
    assert w[i] == ws[i];
    TitlesIn(w, t);
  }

  lemma {:induction false} AddEntriesCovers(ws: seq<Course>, es: seq<Entry>, store: Store)
    ensures var a := AddEntries(ws, es, store);
      a.status == Completed ==> forall k :: 0 <= k < |es| && es[k].CourseEntry? ==> es[k].course.title in Titles(a.workspace)
    decreases |es|
  {
    if es != [] {
      var a0 := AddEntry(ws, es[0], store);
      if a0.status == Completed {
        AddEntriesCovers(a0.workspace, es[1..], store);
        var a := AddEntries(a0.workspace, es[1..], store);
        if a.status == Completed {
          forall k | 0 <= k < |es| && es[k].CourseEntry? ensures es[k].course.title in Titles(a.workspace) {
            if k == 0 {
              AddByTitleHas(ws, es[0].course);
              AddEntriesPrefix(a0.workspace, es[1..], store);
              TitleInPrefix(a0.workspace, a.workspace, es[0].course.title);
            } else {
              assert es[k] == es[1..][k - 1];
            }
          }
        }
      }
    }
  }

  /** Items are processed in order: adding `a + b` is adding `a`, then (unless that raised) adding `b`. */
  lemma {:induction false} AddEntriesConcat(ws: seq<Course>, a: seq<Entry>, b: seq<Entry>, store: Store)
    ensures AddEntries(ws, a + b, store) ==
      var first := AddEntries(ws, a, store);
      if first.status.Raised? then first else AddEntries(first.workspace, b, store)
    decreases |a|
  {
    if a != [] {
      assert (a + b)[0] == a[0] && (a + b)[1..] == a[1..] + b;
      var a0 := AddEntry(ws, a[0], store);
      if a0.status == Completed {
        AddEntriesConcat(a0.workspace, a[1..], b, store);
      }
    } else {
      assert a + b == b;
    }
  }

  // ---------------------------------------------------------------------------
  // move_course
  // ---------------------------------------------------------------------------

  datatype Direction = Up | Down | Top | Bottom

  /** The list with the items at `i` and `j` exchanged. */
  function Swap<T>(s: seq<T>, i: nat, j: nat): seq<T>
    requires i < |s| && j < |s|
  {
    s[i := s[j]][j := s[i]]
  }

  /**
   * `move_course(c, dir)`. A course not in the curation, or already at the
   * edge it is moved towards, changes nothing. BOTTOM numbers the cache from
   * the list as it was before the move.
   */
  function Move(s: Session, c: Course, dir: Direction): Session {
    if c !in s.curation then s
    else
      var cur := s.curation;
      var i := IndexOf(cur, c);
      match dir
      case Up => if i > 0 then Reprinted(s, Swap(cur, i, i - 1)) else s
      case Down => if i < |cur| - 1 then Reprinted(s, Swap(cur, i, i + 1)) else s
      case Top => if i > 0 then Reprinted(s, [c] + RemoveAt(cur, i)) else s
      case Bottom =>
        if i < |cur| - 1 then s.(curation := UniqueAppend(RemoveAt(cur, i), c), cache := NumberedTitles(cur)) else s
  }

  lemma SwapPermutes<T>(s: seq<T>, i: nat, j: nat)
    requires i < |s| && j < |s|
    ensures multiset(Swap(s, i, j)) == multiset(s)
  {
  }

  lemma RemoveAtCount<T>(s: seq<T>, i: nat)
    requires i < |s|
    ensures multiset(RemoveAt(s, i)) + multiset{s[i]} == multiset(s)
  {
    assert s == s[..i] + [s[i]] + s[i + 1..];
  }

  lemma RemoveAtDrops<T>(s: seq<T>, i: nat)
    requires NoDup(s) && i < |s|
    ensures s[i] !in RemoveAt(s, i)
  {
    forall k | 0 <= k < |RemoveAt(s, i)| ensures RemoveAt(s, i)[k] != s[i] {
      assert RemoveAt(s, i)[k] == s[if k < i then k else k + 1];
    }
  }

  /** Exchanging neighbours in a duplicate-free list: a duplicate-free permutation, the item at `i` now at `j`, the others in order. */
  lemma SwapSpec<T>(s: seq<T>, i: nat, j: nat)
    requires NoDup(s) && i < |s| && j < |s| && (j == i + 1 || i == j + 1)
    ensures multiset(Swap(s, i, j)) == multiset(s) && NoDup(Swap(s, i, j))
    ensures IndexOf(Swap(s, i, j), s[i]) == j
    ensures Without(Swap(s, i, j), s[i]) == Without(s, s[i])
  {
    SwapPermutes(s, i, j);
    NoDupPermutation(s, Swap(s, i, j));
    SwapIndex(s, i, j);
    WithoutSwap(s, i, j, s[i]);
  }

  /** After the exchange the item from `i` is first found at `j`. */
  lemma SwapIndex<T>(s: seq<T>, i: nat, j: nat)
    requires NoDup(s) && i < |s| && j < |s| && (j == i + 1 || i == j + 1)
    ensures IndexOf(Swap(s, i, j), s[i]) == j
  {
    var r := Swap(s, i, j);
    forall k | 0 <= k < j ensures r[k] != s[i] {
      assert r[k] == (if k == i then s[j] else s[k]);
    }
    assert r[j] == s[i];
  }

  /** Popping position `i` and inserting it in front. */
  lemma ToFrontSpec<T>(s: seq<T>, i: nat)
    requires NoDup(s) && i < |s|
    ensures var r := [s[i]] + RemoveAt(s, i);
      multiset(r) == multiset(s) && NoDup(r) && IndexOf(r, s[i]) == 0 && Without(r, s[i]) == Without(s, s[i])
  {
    var rest := RemoveAt(s, i);
    RemoveAtCount(s, i);
    RemoveAtDrops(s, i);
    RemoveAtIsWithout(s, i);
    NoDupPermutation(s, [s[i]] + rest);
    WithoutAbsent(rest, s[i]);
    assert ([s[i]] + rest)[1..] == rest;
  }

  /** Popping position `i` and appending it. */
  lemma ToBackSpec<T>(s: seq<T>, i: nat)
    requires NoDup(s) && i < |s|
    ensures var r := UniqueAppend(RemoveAt(s, i), s[i]);
      r == RemoveAt(s, i) + [s[i]]
      && multiset(r) == multiset(s) && NoDup(r) && IndexOf(r, s[i]) == |s| - 1 && Without(r, s[i]) == Without(s, s[i])
  {
    var rest := RemoveAt(s, i);
    var r := rest + [s[i]];
    RemoveAtDrops(s, i);
    assert UniqueAppend(rest, s[i]) == r;
    RemoveAtCount(s, i);
    NoDupPermutation(s, r);
    forall k | 0 <= k < |s| - 1 ensures r[k] != s[i] { assert r[k] == rest[k]; }
    ToBackOrder(s, i);
  }

  lemma ToBackOrder<T>(s: seq<T>, i: nat)
    requires NoDup(s) && i < |s|
    ensures Without(RemoveAt(s, i) + [s[i]], s[i]) == Without(s, s[i])
  {
    var rest := RemoveAt(s, i);
    RemoveAtDrops(s, i);
    RemoveAtIsWithout(s, i);
    WithoutAbsent(rest, s[i]);
    WithoutConcat(rest, [s[i]], s[i]);
    assert [s[i]][1..] == [];
  }

  /** Every move outcome is a permutation of the old curation, duplicate-free when the old one was; the workspace is untouched. */
  lemma MovePermutes(s: Session, c: Course, dir: Direction)
    requires NoDup(s.curation)
    ensures multiset(Move(s, c, dir).curation) == multiset(s.curation)
    ensures NoDup(Move(s, c, dir).curation)
    ensures Move(s, c, dir).workspace == s.workspace
  {
    if c in s.curation {
      MovePosition(s, c, dir);
    }
  }

  /**
   * Where the course ends up: UP/DOWN one step towards the neighbour that
   * exists, TOP first, BOTTOM last; TOP and BOTTOM keep the other courses in
   * their relative order.
   */
  lemma MovePosition(s: Session, c: Course, dir: Direction)
    requires NoDup(s.curation) && c in s.curation
    ensures var i := IndexOf(s.curation, c); var n := |s.curation|; var r := Move(s, c, dir).curation;
      && multiset(r) == multiset(s.curation) && NoDup(r)
      && IndexOf(r, c) == (match dir
                           case Up => if i > 0 then i - 1 else i
                           case Down => if i < n - 1 then i + 1 else i
                           case Top => 0
                           case Bottom => if i < n - 1 then n - 1 else i)
      && Without(r, c) == Without(s.curation, c)
  {
    match dir {
      case Up => MoveUpPlaced(s, c);
      case Down => MoveDownPlaced(s, c);
      case Top => MoveTopPlaced(s, c);
      case Bottom => MoveBottomPlaced(s, c);
    }
  }

  /** `after` is a duplicate-free permutation of `before` with `c` at position `j` and the others in their old order. */
  predicate Placed(before: seq<Course>, after: seq<Course>, c: Course, j: int) {
    multiset(after) == multiset(before) && NoDup(after) && IndexOf(after, c) == j && Without(after, c) == Without(before, c)
  }

  lemma MoveUpPlaced(s: Session, c: Course)
    requires NoDup(s.curation) && c in s.curation
    ensures var i := IndexOf(s.curation, c); Placed(s.curation, Move(s, c, Up).curation, c, if i > 0 then i - 1 else i)
  {
    var i := IndexOf(s.curation, c);
    if i > 0 {
      SwapSpec(s.curation, i, i - 1);
    }
  }

  lemma MoveDownPlaced(s: Session, c: Course)
    requires NoDup(s.curation) && c in s.curation
    ensures var i := IndexOf(s.curation, c); Placed(s.curation, Move(s, c, Down).curation, c, if i < |s.curation| - 1 then i + 1 else i)
  {
    var i := IndexOf(s.curation, c);
    if i < |s.curation| - 1 {
      SwapSpec(s.curation, i, i + 1);
    }
  }

  lemma MoveTopPlaced(s: Session, c: Course)
    requires NoDup(s.curation) && c in s.curation
    ensures Placed(s.curation, Move(s, c, Top).curation, c, 0)
  {
    var i := IndexOf(s.curation, c);
    if i > 0 {
      ToFrontSpec(s.curation, i);
    }
  }

  lemma MoveBottomPlaced(s: Session, c: Course)
    requires NoDup(s.curation) && c in s.curation
    ensures var i := IndexOf(s.curation, c); Placed(s.curation, Move(s, c, Bottom).curation, c, if i < |s.curation| - 1 then |s.curation| - 1 else i)
  {
    var i := IndexOf(s.curation, c);
    if i < |s.curation| - 1 {
      ToBackSpec(s.curation, i);
    }
  }

  lemma {:induction false} WithoutConcat<T>(a: seq<T>, b: seq<T>, x: T)
    ensures Without(a + b, x) == Without(a, x) + Without(b, x)
  {
    if a != [] {
      assert (a + b)[1..] == a[1..] + b;
      WithoutConcat(a[1..], b, x);
    } else {
      assert a + b == b;
    }
  }

  lemma WithoutPair<T>(u: T, v: T, x: T)
    requires u != v && (u == x || v == x)
    ensures Without([u, v], x) == Without([v, u], x)
  {
    assert [u, v][1..] == [v] && [v, u][1..] == [u];
    assert [u][1..] == [] && [v][1..] == [];
  }

  lemma WithoutMiddle<T>(pre: seq<T>, m1: seq<T>, m2: seq<T>, post: seq<T>, x: T)
    requires Without(m1, x) == Without(m2, x)
    ensures Without(pre + m1 + post, x) == Without(pre + m2 + post, x)
  {
    WithoutConcat(pre + m1, post, x);
    WithoutConcat(pre, m1, x);
    WithoutConcat(pre + m2, post, x);
    WithoutConcat(pre, m2, x);
  }

  lemma WithoutSwapNext<T>(s: seq<T>, lo: nat, x: T)
    requires lo + 1 < |s| && s[lo] != s[lo + 1] && (s[lo] == x || s[lo + 1] == x)
    ensures Without(s[lo := s[lo + 1]][lo + 1 := s[lo]], x) == Without(s, x)
  {
    var u, v := s[lo], s[lo + 1];
    assert s == s[..lo] + [u, v] + s[lo + 2..];
    assert s[lo := v][lo + 1 := u] == s[..lo] + [v, u] + s[lo + 2..];
    WithoutPair(u, v, x);
    WithoutMiddle(s[..lo], [v, u], [u, v], s[lo + 2..], x);
  }

  /** Exchanging two neighbours one of which is `x`, in a duplicate-free list, does not change the others' order. */
  lemma WithoutSwap<T>(s: seq<T>, i: nat, j: nat, x: T)
    requires NoDup(s) && i < |s| && j < |s| && s[i] == x && (j == i + 1 || i == j + 1)
    ensures Without(Swap(s, i, j), x) == Without(s, x)
  {
    if i < j {
      assert s[i] != s[i + 1];
      WithoutSwapNext(s, i, x);
    } else {
      assert s[j] != s[j + 1];
      assert Swap(s, i, j) == s[j := s[j + 1]][j + 1 := s[j]];
      WithoutSwapNext(s, j, x);
    }
  }

  /** Moving a course up and then down again restores the curation. */
  lemma UpThenDown(s: Session, c: Course)
    requires c in s.curation && IndexOf(s.curation, c) > 0
    ensures Move(Move(s, c, Up), c, Down).curation == s.curation
  {
    var cur := s.curation;
    var i := IndexOf(cur, c);
    var up := Swap(cur, i, i - 1);
    UpFindsAbove(cur, i, c);
    assert Move(s, c, Up).curation == up;
    assert Move(Move(s, c, Up), c, Down).curation == Swap(up, i - 1, i);
    assert Swap(up, i - 1, i) == cur;
  }

  /** After the swap with its upper neighbour, the course is first found one place higher. */
  lemma UpFindsAbove(cur: seq<Course>, i: nat, c: Course)
    requires 0 < i < |cur| && IndexOf(cur, c) == i
    ensures IndexOf(Swap(cur, i, i - 1), c) == i - 1
  {
    var up := Swap(cur, i, i - 1);
    assert up[i - 1] == c;
    assert forall k :: 0 <= k < i - 1 ==> up[k] == cur[k];
  }

  /**
   * BOTTOM refreshes the cache before moving: afterwards the last number
   * still resolves to the course that used to be last, not to the moved one.
   */
  lemma BottomCacheIsStale(s: Session, c: Course, store: Store)
    requires NoDup(s.curation) && c in s.curation
    requires IndexOf(s.curation, c) < |s.curation| - 1 && |s.curation| < 100
    ensures var n := |s.curation|; var r := Move(s, c, Bottom);
      && r.curation[n - 1] == c != s.curation[n - 1]
      && Resolve(r.cache, NatToString(n), store) == FromOption(store.get(Text(s.curation[n - 1].title)))
  {
    var n := |s.curation|;
    MovePosition(s, c, Bottom);
    assert Move(s, c, Bottom).cache == NumberedTitles(s.curation);
    PrintedNumberResolves(s.curation, n, store);
  }

  // ---------------------------------------------------------------------------
  // command_add_course / command_remove_course
  // ---------------------------------------------------------------------------

  /** One course added: appended to the curation (unless present) and to the workspace (unless its title is). */
  function AddOne(s: Session, c: Course): Session {
    s.(curation := UniqueAppend(s.curation, c), workspace := AddByTitle(s.workspace, c))
  }

  /** The bulk branch of the add command, item by item; an item the store did not find is skipped. */
  function AddMany(s: Session, items: seq<Option<Course>>): Session
    decreases |items|
  {
    if items == [] then s
    else AddMany(if items[0].Some? then AddOne(s, items[0].value) else s, items[1..])
  }

  /** `command_add_course(param)`. */
  function AddCourse(s: Session, param: string, store: Store): Outcome {
    match Resolve(s.cache, param, store)
    case NoMatch => Outcome(s, Completed)
    case BadNumber => Outcome(s, Raised(ValueError))
    case Suggested(cs) => Outcome(Printed(s, cs), Completed)
    case One(c) => Outcome(AddOne(s, c), Completed)
    case Bulk(items) => Outcome(AddMany(s, items), Completed)
  }

  /**
   * The add command keeps the curation duplicate-free and the workspace's
   * titles distinct, keeps the old curation as a prefix, and leaves every
   * course it added in the curation with its title in the workspace.
   */
  lemma AddManySpec(s: Session, items: seq<Option<Course>>)
    requires NoDup(s.curation) && WorkspaceInvariant(s)
    ensures var r := AddMany(s, items);
      && NoDup(r.curation) && WorkspaceInvariant(r) && r.cache == s.cache
      && |s.curation| <= |r.curation| && r.curation[..|s.curation|] == s.curation
      && forall k :: 0 <= k < |items| && items[k].Some? ==>
           items[k].value in r.curation && items[k].value.title in Titles(r.workspace)
  {
    AddManyKeeps(s, items);
    AddManyCurationPrefix(s, items);
    AddManyCovers(s, items);
  }

  lemma {:induction false} AddManyKeeps(s: Session, items: seq<Option<Course>>)
    requires NoDup(s.curation) && WorkspaceInvariant(s)
    ensures var r := AddMany(s, items); NoDup(r.curation) && WorkspaceInvariant(r) && r.cache == s.cache
    decreases |items|
  {
    if items != [] {
      var s1 := if items[0].Some? then AddOne(s, items[0].value) else s;
      if items[0].Some? {
        UniqueAppendSpec(s.curation, items[0].value);
        AddByTitleSpec(s.workspace, items[0].value);
      }
      AddManyKeeps(s1, items[1..]);
    }
  }

  lemma {:induction false} AddManyCurationPrefix(s: Session, items: seq<Option<Course>>)
    ensures |s.curation| <= |AddMany(s, items).curation|
    ensures AddMany(s, items).curation[..|s.curation|] == s.curation
    decreases |items|
  {
    if items != [] {
      var s1 := if items[0].Some? then AddOne(s, items[0].value) else s;
      AddManyCurationPrefix(s1, items[1..]);
      var cur := AddMany(s, items).curation;
      assert cur[..|s.curation|] == cur[..|s1.curation|][..|s.curation|];
    }
  }

  lemma {:induction false} AddManyCovers(s: Session, items: seq<Option<Course>>)
    ensures var r := AddMany(s, items);
      forall k :: 0 <= k < |items| && items[k].Some? ==>
        items[k].value in r.curation && items[k].value.title in Titles(r.workspace)
    decreases |items|
  {
    if items != [] {
      var s1 := if items[0].Some? then AddOne(s, items[0].value) else s;
      AddManyCovers(s1, items[1..]);
      var r := AddMany(s, items);
      forall k | 0 <= k < |items| && items[k].Some?
        ensures items[k].value in r.curation && items[k].value.title in Titles(r.workspace)
      {
        if k == 0 {
          var c := items[0].value;
          assert c in s1.curation;
          AddManyCurationPrefix(s1, items[1..]);
          var i :| 0 <= i < |s1.curation| && s1.curation[i] == c;
          assert r.curation[i] == c;
          AddByTitleHas(s.workspace, c);
          AddManyWorkspacePrefix(s1, items[1..]);
          TitleInPrefix(s1.workspace, r.workspace, c.title);
        } else {
          assert items[k] == items[1..][k - 1];
        }
      }
    }
  }

  lemma {:induction false} AddManyWorkspacePrefix(s: Session, items: seq<Option<Course>>)
    ensures |s.workspace| <= |AddMany(s, items).workspace|
    ensures AddMany(s, items).workspace[..|s.workspace|] == s.workspace
    decreases |items|
  {
    if items != [] {
      var s1 := if items[0].Some? then AddOne(s, items[0].value) else s;
      AddManyWorkspacePrefix(s1, items[1..]);
      var w := AddMany(s, items).workspace;
      assert w[..|s.workspace|] == w[..|s1.workspace|][..|s.workspace|];
    }
  }

  /** One course removed from the curation (Python raises ValueError when it is absent) and added to the workspace. */
  function RemoveOne(s: Session, c: Course): Outcome {
    if c in s.curation then Outcome(s.(curation := RemoveFirst(s.curation, c), workspace := AddByTitle(s.workspace, c)), Completed)
    else Outcome(s, Raised(ValueError))
  }

  /** The bulk branch of the remove command: item by item, stopping at the first failure with earlier removals kept. */
  function RemoveMany(s: Session, items: seq<Option<Course>>): Outcome
    decreases |items|
  {
    if items == [] then Outcome(s, Completed)
    else if items[0].None? then Outcome(s, Raised(ValueError))
    else
      var o := RemoveOne(s, items[0].value);
      if o.status.Raised? then o else RemoveMany(o.session, items[1..])
  }

  /** `command_remove_course(param)`. */
  function RemoveCourse(s: Session, param: string, store: Store): Outcome {
    match Resolve(s.cache, param, store)
    case NoMatch => Outcome(s, Completed)
    case BadNumber => Outcome(s, Raised(ValueError))
    case Suggested(cs) => Outcome(Printed(s, cs), Completed)
    case One(c) => RemoveOne(s, c)
    case Bulk(items) => RemoveMany(s, items)
  }

  /** The courses the store found, in order. */
  function Present(items: seq<Option<Course>>): seq<Course> {
    if items == [] then []
    else (if items[0].Some? then [items[0].value] else []) + Present(items[1..])
  }

  /** Removing one course: it was present and exactly one copy leaves the curation, or ValueError and no change. */
  lemma RemoveOneSpec(s: Session, c: Course)
    requires WorkspaceInvariant(s)
    ensures var o := RemoveOne(s, c);
      && WorkspaceInvariant(o.session)
      && (o.status.Raised? ==> o.status.error == ValueError && o.session == s && c !in s.curation)
      && (o.status == Completed ==> c in s.curation && multiset(s.curation) == multiset(o.session.curation) + multiset{c})
  {
    if c in s.curation {
      RemoveFirstSpec(s.curation, c);
      AddByTitleSpec(s.workspace, c);
    }
  }

  /**
   * A completed bulk removal found every item: the old curation is exactly the
   * new one plus the removed courses (as multisets); the workspace titles stay distinct.
   */
  lemma RemoveManySpec(s: Session, items: seq<Option<Course>>)
    requires WorkspaceInvariant(s)
    ensures WorkspaceInvariant(RemoveMany(s, items).session)
    ensures RemoveMany(s, items).status.Raised? ==> RemoveMany(s, items).status.error == ValueError
    ensures RemoveMany(s, items).status == Completed ==>
      (forall k :: 0 <= k < |items| ==> items[k].Some?)
      && multiset(s.curation) == multiset(RemoveMany(s, items).session.curation) + multiset(Present(items))
  {
    RemoveManyKeeps(s, items);
    RemoveManyRemoves(s, items);
  }

  lemma {:induction false} RemoveManyKeeps(s: Session, items: seq<Option<Course>>)
    requires WorkspaceInvariant(s)
    ensures WorkspaceInvariant(RemoveMany(s, items).session)
    ensures RemoveMany(s, items).status.Raised? ==> RemoveMany(s, items).status.error == ValueError
    decreases |items|
  {
    if items != [] && items[0].Some? {
      RemoveOneSpec(s, items[0].value);
      var o := RemoveOne(s, items[0].value);
      if o.status == Completed {
        RemoveManyKeeps(o.session, items[1..]);
      }
    }
  }

  lemma {:induction false} RemoveManyRemoves(s: Session, items: seq<Option<Course>>)
    ensures RemoveMany(s, items).status == Completed ==>
      (forall k :: 0 <= k < |items| ==> items[k].Some?)
      && multiset(s.curation) == multiset(RemoveMany(s, items).session.curation) + multiset(Present(items))
    decreases |items|
  {
    if items == [] || items[0].None? {
      return;
    }
    var c := items[0].value;
    var o := RemoveOne(s, c);
    if o.status.Raised? {
      return;
    }
    var rest := items[1..];
    RemoveManyRemoves(o.session, rest);
    var final := RemoveMany(o.session, rest);
    assert RemoveMany(s, items) == final;
    if final.status == Completed {
      AllFoundCons(items);
      RemovedCount(s.curation, c, o.session.curation, final.session.curation, Present(rest));
      assert Present(items) == [c] + Present(rest);
    }
  }

  lemma AllFoundCons(items: seq<Option<Course>>)
    requires items != [] && items[0].Some? && forall k :: 0 <= k < |items[1..]| ==> items[1..][k].Some?
    ensures forall k :: 0 <= k < |items| ==> items[k].Some?
  {
    forall k | 0 <= k < |items| ensures items[k].Some? {
      if k > 0 {
        assert items[k] == items[1..][k - 1];
      }
    }
  }

  lemma RemovedCount(cur: seq<Course>, c: Course, mid: seq<Course>, last: seq<Course>, removed: seq<Course>)
    requires c in cur && mid == RemoveFirst(cur, c)
    requires multiset(mid) == multiset(last) + multiset(removed)
    ensures multiset(cur) == multiset(last) + multiset([c] + removed)
  {
    RemoveFirstSpec(cur, c);
    assert multiset(cur) == multiset(mid) + multiset{c};
    assert multiset([c] + removed) == multiset{c} + multiset(removed);
  }

  // ---------------------------------------------------------------------------
  // command_reorder_curation
  // ---------------------------------------------------------------------------

  /** The two numbers the user typed, or None where the command reports invalid input. */
  function SwapNumbers(input: string): Option<(int, int)> {
    var toks := Split(input, " ");
    if |toks| != 2 then None
    else
      match (ParseInt(toks[0]), ParseInt(toks[1]))
      case (Some(a), Some(b)) => Some((a, b))
      case _ => None
  }

  /**
   * `command_reorder_curation` with the user's answer `input`. An empty
   * curation changes nothing. Otherwise the curation is printed and each
   * number is then overwritten with the course object itself; a valid pair
   * of numbers swaps the two courses and renumbers the cache by title, and
   * any invalid input leaves the course objects in the cache.
   */
  function Reorder(s: Session, input: string): Session {
    ReorderWith(s, SwapNumbers(input))
  }

  /** The reorder once the answer has been read as a pair of numbers, or as invalid (None). */
  function ReorderWith(s: Session, numbers: Option<(int, int)>): Session {
    var cur := s.curation;
    if cur == [] then s
    else
      var shown := s.(cache := NumberedObjects(cur));
      match numbers
      case None => shown
      case Some((a, b)) =>
        if !(1 <= a <= |cur| && 1 <= b <= |cur|) then shown
        else
          var c1, c2 := cur[a - 1], cur[b - 1];
          var i1, i2 := IndexOf(cur, c1), IndexOf(cur, c2);
          Reprinted(s, cur[i1 := c2][i2 := c1])
  }

  /**
   * An empty curation changes nothing. In a non-empty duplicate-free curation
   * a valid reorder exchanges exactly the two numbered courses, keeping the
   * curation a duplicate-free permutation; an invalid one keeps the curation
   * and leaves course objects in the cache.
   */
  lemma ReorderSpec(s: Session, input: string)
    requires NoDup(s.curation)
    ensures s.curation == [] ==> Reorder(s, input) == s
    ensures var r := Reorder(s, input); var n := |s.curation|;
      && multiset(r.curation) == multiset(s.curation) && NoDup(r.curation) && r.workspace == s.workspace
      && (s.curation != [] ==>
          match SwapNumbers(input)
          case Some((a, b)) =>
            if 1 <= a <= n && 1 <= b <= n then r.curation == Swap(s.curation, a - 1, b - 1) && r.cache == NumberedTitles(r.curation)
            else r.curation == s.curation && r.cache == NumberedObjects(s.curation)
          case None => r.curation == s.curation && r.cache == NumberedObjects(s.curation))
  {
    if s.curation != [] {
      ReorderWithSpec(s, SwapNumbers(input));
    }
  }

  lemma ReorderWithSpec(s: Session, numbers: Option<(int, int)>)
    requires NoDup(s.curation) && s.curation != []
    ensures var r := ReorderWith(s, numbers); var n := |s.curation|;
      && multiset(r.curation) == multiset(s.curation) && NoDup(r.curation) && r.workspace == s.workspace
      && (match numbers
          case Some((a, b)) =>
            if 1 <= a <= n && 1 <= b <= n then r.curation == Swap(s.curation, a - 1, b - 1) && r.cache == NumberedTitles(r.curation)
            else r.curation == s.curation && r.cache == NumberedObjects(s.curation)
          case None => r.curation == s.curation && r.cache == NumberedObjects(s.curation))
  {
    match numbers
    case Some((a, b)) =>
      if 1 <= a <= |s.curation| && 1 <= b <= |s.curation| {
        ValidSwap(s, a, b);
      }
    case None =>
  }

  /** A valid pair of numbers exchanges exactly the two courses and renumbers the cache by title. */
  lemma ValidSwap(s: Session, a: int, b: int)
    requires NoDup(s.curation) && 1 <= a <= |s.curation| && 1 <= b <= |s.curation|
    ensures var r := ReorderWith(s, Some((a, b)));
      && r.curation == Swap(s.curation, a - 1, b - 1) && r.cache == NumberedTitles(r.curation) && r.workspace == s.workspace
      && multiset(r.curation) == multiset(s.curation) && NoDup(r.curation)
  {
    SwapByIndex(s.curation, a - 1, b - 1);
  }

  /** Swapping by the positions `.index` finds, in a duplicate-free list, is swapping the positions themselves. */
  lemma SwapByIndex<T>(cur: seq<T>, i: nat, j: nat)
    requires NoDup(cur) && i < |cur| && j < |cur|
    ensures cur[IndexOf(cur, cur[i]) := cur[j]][IndexOf(cur, cur[j]) := cur[i]] == Swap(cur, i, j)
    ensures multiset(Swap(cur, i, j)) == multiset(cur) && NoDup(Swap(cur, i, j))
  {
    assert IndexOf(cur, cur[i]) == i;
    assert IndexOf(cur, cur[j]) == j;
    SwapPermutes(cur, i, j);
    NoDupPermutation(cur, Swap(cur, i, j));
  }

  /**
   * After a reorder that was not completed, a number resolves by handing the
   * store a course object instead of a title.
   */
  lemma FailedReorderCachesObjects(s: Session, input: string, k: nat, store: Store)
    requires s.curation != [] && 1 <= k <= |s.curation| && k < 100
    requires SwapNumbers(input).None?
    ensures Resolve(Reorder(s, input).cache, NatToString(k), store) == FromOption(store.get(Object(s.curation[k - 1])))
  {
    DecimalValueOfNatToString(k);
    DigitsAreNotBulk(NatToString(k));
    NatToStringLength(k, 2);
    ParseDigits(NatToString(k));
  }

  // ---------------------------------------------------------------------------
  // Workspace commands and move commands
  // ---------------------------------------------------------------------------

  function EntryOf(o: Option<Course>): Entry {
    match o
    case None => NoEntry
    case Some(c) => CourseEntry(c)
  }

  /** A bulk resolution handed to `add_to_workspace`: a missing item is `None`. */
  function ItemEntries(items: seq<Option<Course>>): (es: seq<Entry>)
    ensures |es| == |items| && forall k :: 0 <= k < |items| ==> !es[k].TextEntry?
    ensures forall k :: 0 <= k < |items| ==> (es[k].CourseEntry? <==> items[k].Some?)
    ensures forall k :: 0 <= k < |items| && items[k].Some? ==> es[k].course == items[k].value
  {
    seq(|items|, k requires 0 <= k < |items| => EntryOf(items[k]))
  }

  /** Suggested courses handed to `add_to_workspace`. */
  function CourseEntries(cs: seq<Course>): (es: seq<Entry>)
    ensures |es| == |cs| && forall k :: 0 <= k < |cs| ==> es[k] == CourseEntry(cs[k])
  {
    seq(|cs|, k requires 0 <= k < |cs| => CourseEntry(cs[k]))
  }

  /** Entries that are all courses or `None` never raise: they are added by title, and every course's title ends up present. */
  lemma AddCourseEntries(ws: seq<Course>, es: seq<Entry>, store: Store)
    requires DistinctTitles(ws) && forall k :: 0 <= k < |es| ==> !es[k].TextEntry?
    ensures var a := AddEntries(ws, es, store);
      && DistinctTitles(a.workspace) && a.status == Completed
      && |ws| <= |a.workspace| && a.workspace[..|ws|] == ws
      && forall k :: 0 <= k < |es| && es[k].CourseEntry? ==> es[k].course.title in Titles(a.workspace)
  {
    AddEntriesSpec(ws, es, store);
  }

  /**
   * `command_add_workspace(param)`: a found course is added by title; a
   * non-empty list is added item by item and then reading `.course_title`
   * of the list raises AttributeError.
   */
  function AddWorkspaceCommand(s: Session, param: string, store: Store): Outcome {
    match Resolve(s.cache, param, store)
    case NoMatch => Outcome(s, Completed)
    case BadNumber => Outcome(s, Raised(ValueError))
    case One(c) => Outcome(s.(workspace := AddByTitle(s.workspace, c)), Completed)
    case Bulk(items) =>
      if items == [] then Outcome(s, Completed)
      else Outcome(s.(workspace := AddEntries(s.workspace, ItemEntries(items), store).workspace), Raised(AttributeError))
    case Suggested(cs) =>
      if cs == [] then Outcome(s, Completed)
      else Outcome(s.(workspace := AddEntries(s.workspace, CourseEntries(cs), store).workspace), Raised(AttributeError))
  }

  /**
   * `command_remove_workspace(param)`: anything but a single course fails on
   * `.course_title`; a course is removed when present and otherwise only reported.
   */
  function RemoveWorkspaceCommand(s: Session, param: string, store: Store): Outcome {
    match Resolve(s.cache, param, store)
    case BadNumber => Outcome(s, Raised(ValueError))
    case One(c) =>
      if c in s.workspace then Outcome(s.(workspace := RemoveFirst(s.workspace, c)), Completed)
      else Outcome(s, Completed)
    case _ => Outcome(s, Raised(AttributeError))
  }

  /** `command_move_*(param)`: only a single found course is moved. */
  function MoveCommand(s: Session, param: string, dir: Direction, store: Store): Outcome {
    match Resolve(s.cache, param, store)
    case BadNumber => Outcome(s, Raised(ValueError))
    case One(c) => Outcome(Move(s, c, dir), Completed)
    case _ => Outcome(s, Completed)
  }

  /** Removing a course from a list with distinct titles keeps the titles distinct and filters out just that course. */
  lemma RemoveFirstTitles(ws: seq<Course>, c: Course)
    requires DistinctTitles(ws) && c in ws
    ensures DistinctTitles(RemoveFirst(ws, c)) && c !in RemoveFirst(ws, c)
    ensures RemoveFirst(ws, c) == Without(ws, c)
  {
    TitlesNoDup(ws);
    RemoveFirstSpec(ws, c);
    RemoveAtIsWithout(ws, IndexOf(ws, c));
    RemoveKeepsTitles(ws, IndexOf(ws, c));
  }

  /** Distinct titles make distinct courses. */
  lemma TitlesNoDup(ws: seq<Course>)
    requires DistinctTitles(ws)
    ensures NoDup(ws)
  {
    forall a, b | 0 <= a < b < |ws| ensures ws[a] != ws[b] {
      assert ws[a].title != ws[b].title;
    }
  }

  lemma RemoveKeepsTitles(ws: seq<Course>, i: nat)
    requires DistinctTitles(ws) && i < |ws|
    ensures DistinctTitles(RemoveAt(ws, i))
  {
    var r := RemoveAt(ws, i);
    forall a, b | 0 <= a < b < |r| ensures r[a].title != r[b].title {
      assert r[a] == ws[if a < i then a else a + 1];
      assert r[b] == ws[if b < i then b else b + 1];
    }
  }

  /**
   * A found course is filtered out of the workspace, the other courses keeping
   * their order (an absent course changes nothing); anything else raises and
   * changes nothing. Titles stay distinct.
   */
  lemma RemoveWorkspaceSpec(s: Session, param: string, store: Store)
    requires WorkspaceInvariant(s)
    ensures var o := RemoveWorkspaceCommand(s, param, store); var res := Resolve(s.cache, param, store);
      && WorkspaceInvariant(o.session)
      && o.session.curation == s.curation && o.session.cache == s.cache
      && (o.status == Completed <==> res.One?)
      && (res.One? ==> o.session.workspace == Without(s.workspace, res.course) && res.course !in o.session.workspace)
      && (!res.One? ==> o.session == s)
  {
    match Resolve(s.cache, param, store)
    case One(c) =>
      if c in s.workspace {
        RemoveFirstTitles(s.workspace, c);
      } else {
        WithoutAbsent(s.workspace, c);
      }
    case _ =>
  }

  /** The workspace commands keep titles in the workspace distinct. */
  lemma AddWorkspaceSpec(s: Session, param: string, store: Store)
    requires WorkspaceInvariant(s)
    ensures var o := AddWorkspaceCommand(s, param, store); var res := Resolve(s.cache, param, store);
      && WorkspaceInvariant(o.session) && o.session.curation == s.curation && o.session.cache == s.cache
      && |s.workspace| <= |o.session.workspace| && o.session.workspace[..|s.workspace|] == s.workspace
      && (res.One? ==> o.status == Completed && res.course.title in Titles(o.session.workspace))
      && (res.Bulk? && res.items != [] ==>
            && o.status == Raised(AttributeError)
            && forall k :: 0 <= k < |res.items| && res.items[k].Some? ==> res.items[k].value.title in Titles(o.session.workspace))
      && (res.Suggested? && res.candidates != [] ==>
            && o.status == Raised(AttributeError)
            && forall k :: 0 <= k < |res.candidates| ==> res.candidates[k].title in Titles(o.session.workspace))
      && (res.BadNumber? ==> o == Outcome(s, Raised(ValueError)))
      && (res.NoMatch? || res == Bulk([]) || res == Suggested([]) ==> o == Outcome(s, Completed))
  {
    match Resolve(s.cache, param, store)
    case One(c) =>
      AddByTitleSpec(s.workspace, c);
      TitlesIn(s.workspace, c.title);
    case Bulk(items) =>
      AddCourseEntries(s.workspace, ItemEntries(items), store);
    case Suggested(cs) =>
      AddCourseEntries(s.workspace, CourseEntries(cs), store);
    case _ =>
  }

  /** Which kind of list a command receives is told apart exactly by the digits-only test the commands apply. */
  lemma ListKinds(cache: map<int, Key>, param: string, store: Store)
    ensures Resolve(cache, param, store).Bulk? ==> IsDigit(ReplaceAll(param, " ", ""))
    ensures Resolve(cache, param, store).Suggested? ==> !IsDigit(ReplaceAll(param, " ", ""))
  {
    var r := Resolve(cache, param, store);
    if IsBulkRequest(param) {
      if ParseNumbers(Split(param, " ")).Some? {
        LookupAllOrNothing(cache, ParseNumbers(Split(param, " ")).value, store);
      }
      assert !r.Suggested?;
    } else if !IsDigit(param) {
      if !Contains(param, " ") {
        ReplaceAbsent(param, " ", "");
      }
      assert !IsDigit(ReplaceAll(param, " ", ""));
    }
  }

  // ---------------------------------------------------------------------------
  // query_model
  // ---------------------------------------------------------------------------

  /** What `query_model` does: send the rewritten prompt, stop with None after listing courses, or raise. */
  datatype Reply = Sent(prompt: string) | Halted | Failed(error: PyError)

  const ValidKeywords: seq<string> := ["transcript", "description", "toc"]

  /** The field a keyword names; None where reading it raises KeyError (no "Course Description" entry). */
  function FieldContent(c: Course, kw: string): Option<string> {
    if kw == "transcript" then Some(c.transcript)
    else if kw == "description" then c.description
    else Some(c.toc)
  }

  /** The block a `{{ref.kw}}` placeholder is replaced by. */
  function CourseBlock(c: Course, kw: string, content: string): string {
    "<course>\n<course_title>\n" + c.title + "\n</course_title>\n<course_" + kw + ">\n"
      + content + "\n</course_" + kw + ">\n</course>"
  }

  /** The snapshot and table-of-contents substitutions, made first. */
  function ExpandFixed(prompt: string, snapshot: string, tocs: string): string {
    var p1 := if Contains(prompt, "{{snapshot}}")
      then ReplaceAll(prompt, "{{snapshot}}", "<course_descriptions>\n" + snapshot + "\n</course_descriptions>")
      else prompt;
    if Contains(p1, "{{tocs}}")
    then ReplaceAll(p1, "{{tocs}}", "<course_tocs>\n" + tocs + "\n</course_tocs>")
    else p1
  }

  /** A reference is acted on when its keyword is valid and, once resolved, its field is non-empty. */
  function ExpandRefs(s: Session, prompt: string, refs: seq<Ref>, store: Store): (Session, Reply)
    decreases |refs|
  {
    if refs == [] then (s, Sent(prompt))
    else
      var r := refs[0];
      if r.keyword !in ValidKeywords then ExpandRefs(s, prompt, refs[1..], store)
      else
        match Resolve(s.cache, r.param, store)
        case One(c) =>
          (match FieldContent(c, r.keyword)
           case None => (s, Failed(KeyError))
           case Some(content) =>
             var next := if content != "" then ReplaceAll(prompt, Placeholder(r), CourseBlock(c, r.keyword, content)) else prompt;
             ExpandRefs(s, next, refs[1..], store))
        case NoMatch => (s, Failed(TypeError))  // print_course_list(None)
        case BadNumber => (s, Failed(ValueError))
        case Suggested(cs) => (Printed(s, cs), Halted)
        case Bulk(items) =>
          if forall k :: 0 <= k < |items| ==> items[k].Some? then (Printed(s, Present(items)), Halted)
          else (s, Failed(AttributeError))  // printing reaches a None item
  }

  /** `query_model` on the last message's text: the references are found once, after the fixed substitutions. */
  function QueryModel(s: Session, prompt: string, snapshot: string, tocs: string, store: Store): (Session, Reply) {
    var p := ExpandFixed(prompt, snapshot, tocs);
    ExpandRefs(s, p, FindAll(p), store)
  }

  /** A reference that stops the query: it has a valid keyword and is not one course with a readable field. */
  predicate Stops(cache: map<int, Key>, r: Ref, store: Store) {
    r.keyword in ValidKeywords
    && (var res := Resolve(cache, r.param, store);
        !res.One? || FieldContent(res.course, r.keyword).None?)
  }

  /**
   * The prompt reaches the backend exactly when no reference stops the query,
   * and then the session is unchanged; otherwise the call halts or raises
   * before any backend call. A failure keeps the session and a halt keeps the
   * curation and the workspace (the new cache is given by `QueryStopsAtFirst`).
   */
  lemma {:induction false} QuerySentIff(s: Session, prompt: string, refs: seq<Ref>, store: Store)
    ensures var (s', reply) := ExpandRefs(s, prompt, refs, store);
      && (reply.Sent? <==> forall k :: 0 <= k < |refs| ==> !Stops(s.cache, refs[k], store))
      && (reply.Sent? || reply.Failed? ==> s' == s)
      && (reply.Halted? ==> s'.curation == s.curation && s'.workspace == s.workspace)
    decreases |refs|
  {
    if refs != [] {
      if Stops(s.cache, refs[0], store) {
        ExpandRefsStops(s, prompt, refs, store);
      } else {
        ExpandRefsGoesOn(s, prompt, refs, store);
        QuerySentIff(s, NextPrompt(s.cache, prompt, refs[0], store), refs[1..], store);
        assert forall k :: 1 <= k < |refs| ==> refs[k] == refs[1..][k - 1];
      }
    }
  }

  /** The prompt after a reference that does not stop the query: its placeholder rewritten when the field is non-empty. */
  function NextPrompt(cache: map<int, Key>, prompt: string, r: Ref, store: Store): string
    requires !Stops(cache, r, store)
  {
    if r.keyword !in ValidKeywords then prompt
    else
      var c := Resolve(cache, r.param, store).course;
      var content := FieldContent(c, r.keyword).value;
      if content != "" then ReplaceAll(prompt, Placeholder(r), CourseBlock(c, r.keyword, content)) else prompt
  }

  /** A reference that does not stop the query leaves the session alone and goes on with the next prompt. */
  lemma ExpandRefsGoesOn(s: Session, prompt: string, refs: seq<Ref>, store: Store)
    requires refs != [] && !Stops(s.cache, refs[0], store)
    ensures ExpandRefs(s, prompt, refs, store) == ExpandRefs(s, NextPrompt(s.cache, prompt, refs[0], store), refs[1..], store)
  {
  }

  /** A reference that stops the query never sends; a failure keeps the session and a halt only renumbers the cache. */
  lemma ExpandRefsStops(s: Session, prompt: string, refs: seq<Ref>, store: Store)
    requires refs != [] && Stops(s.cache, refs[0], store)
    ensures var (s', reply) := ExpandRefs(s, prompt, refs, store);
      && !reply.Sent?
      && (reply.Failed? ==> s' == s)
      && (reply.Halted? ==> s' == Printed(s, HaltedList(Resolve(s.cache, refs[0].param, store))))
  {
  }

  /** The list printed when a reference halts the query: the suggestions, or the bulk items. */
  function HaltedList(res: Resolution): seq<Course> {
    match res
    case Suggested(cs) => cs
    case Bulk(items) => Present(items)
    case _ => []
  }

  /** The position of the first reference that stops the query, or the number of references when none does. */
  function FirstStop(cache: map<int, Key>, refs: seq<Ref>, store: Store): (k: nat)
    ensures k <= |refs|
    ensures forall j :: 0 <= j < k ==> !Stops(cache, refs[j], store)
    ensures k < |refs| ==> Stops(cache, refs[k], store)
    decreases |refs|
  {
    if refs == [] || Stops(cache, refs[0], store) then 0 else 1 + FirstStop(cache, refs[1..], store)
  }

  /**
   * The query is decided by the first reference that stops it: with none the
   * prompt is sent, and a halt at that reference prints its list, so the cache
   * numbers exactly that list and nothing else changes.
   */
  lemma {:induction false} QueryStopsAtFirst(s: Session, prompt: string, refs: seq<Ref>, store: Store)
    ensures var (s', reply) := ExpandRefs(s, prompt, refs, store); var k := FirstStop(s.cache, refs, store);
      && (reply.Sent? <==> k == |refs|)
      && (reply.Halted? ==> k < |refs| && s' == Printed(s, HaltedList(Resolve(s.cache, refs[k].param, store))))
    decreases |refs|
  {
    if refs != [] {
      if Stops(s.cache, refs[0], store) {
        ExpandRefsStops(s, prompt, refs, store);
      } else {
        ExpandRefsGoesOn(s, prompt, refs, store);
        QueryStopsAtFirst(s, NextPrompt(s.cache, prompt, refs[0], store), refs[1..], store);
        var k := FirstStop(s.cache, refs[1..], store);
        assert FirstStop(s.cache, refs, store) == k + 1;
        if k < |refs[1..]| {
          assert refs[k + 1] == refs[1..][k];
        }
      }
    }
  }

  /** Each fixed placeholder is replaced at every occurrence: the result is the pieces around them joined by the block. */
  lemma FixedPlaceholdersReplaced(prompt: string, snapshot: string, tocs: string)
    ensures var block := "<course_descriptions>\n" + snapshot + "\n</course_descriptions>";
      var p1 := Join(block, Split(prompt, "{{snapshot}}"));
      ExpandFixed(prompt, snapshot, tocs) == Join("<course_tocs>\n" + tocs + "\n</course_tocs>", Split(p1, "{{tocs}}"))
  {
    var block := "<course_descriptions>\n" + snapshot + "\n</course_descriptions>";
    ReplaceIsJoinOfSplit(prompt, "{{snapshot}}", block);
    if !Contains(prompt, "{{snapshot}}") { ReplaceAbsent(prompt, "{{snapshot}}", block); }
    var p1 := Join(block, Split(prompt, "{{snapshot}}"));
    var tblock := "<course_tocs>\n" + tocs + "\n</course_tocs>";
    ReplaceIsJoinOfSplit(p1, "{{tocs}}", tblock);
    if !Contains(p1, "{{tocs}}") { ReplaceAbsent(p1, "{{tocs}}", tblock); }
  }

  /** References with an unknown keyword or an empty field leave the prompt as it is. */
  lemma IgnoredRefKeepsPrompt(s: Session, prompt: string, r: Ref, rest: seq<Ref>, store: Store)
    requires r.keyword !in ValidKeywords
      || (Resolve(s.cache, r.param, store).One?
          && FieldContent(Resolve(s.cache, r.param, store).course, r.keyword) == Some(""))
    ensures ExpandRefs(s, prompt, [r] + rest, store) == ExpandRefs(s, prompt, rest, store)
  {
    assert ([r] + rest)[1..] == rest;
  }
}
