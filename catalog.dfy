/**
 * Numbering and reference resolution of the chat session: the course cache
 * that every printed list leaves behind, the `number_courses` catalog, and how
 * `parse_course_request` turns a user's reference into courses.
 */
module Catalog {
  import opened Basics
  import opened PyStr
  import opened Kramer

  // ---------------------------------------------------------------------------
  // The course cache
  // ---------------------------------------------------------------------------

  /** The cache after printing `list`: number k (from 1) holds the title of the k-th course, and no other number is present. */
  function NumberedTitles(list: seq<Course>): map<int, Key> {
    map k | 1 <= k <= |list| :: TitleKey(list, k)
  }

  /** The key printed as number k of `list`. */
  function TitleKey(list: seq<Course>, k: int): Key
    requires 1 <= k <= |list|
  {
    Text(list[k - 1].title)
  }

  /** The cache after the reorder command has written each course object over its number. */
  function NumberedObjects(list: seq<Course>): map<int, Key> {
    map k | 1 <= k <= |list| :: ObjectKey(list, k)
  }

  /** The key the reorder command stores under number k of `list`. */
  function ObjectKey(list: seq<Course>, k: int): Key
    requires 1 <= k <= |list|
  {
    Object(list[k - 1])
  }

  // ---------------------------------------------------------------------------
  // number_courses
  // ---------------------------------------------------------------------------

  /** The three results of `number_courses`: numbered curation, numbered workspace, and the catalog. */
  datatype Numbering = Numbering(curation: seq<(int, Course)>, workspace: seq<(int, Course)>, catalog: map<int, Course>)

  /** `[(i + offset + 1, c) for i, c in enumerate(s)]`. */
  function Enumerate(s: seq<Course>, offset: int): seq<(int, Course)> {
    seq(|s|, i requires 0 <= i < |s| => (offset + i + 1, s[i]))
  }

  /** A dict comprehension over pairs: later pairs overwrite earlier ones with the same key. */
  function DictOf(pairs: seq<(int, Course)>): map<int, Course> {
    if pairs == [] then map[]
    else DictOf(pairs[..|pairs| - 1])[pairs[|pairs| - 1].0 := pairs[|pairs| - 1].1]
  }

  /**
   * `number_courses`: the curation numbered from 1, the workspace numbered on
   * from the curation's last number, and the catalog of both. (Whether the
   * curation object is truthy does not matter: a falsy one is replaced by an
   * empty list, which numbers exactly like its own empty course list.)
   */
  function NumberCourses(curation: seq<Course>, workspace: seq<Course>): Numbering {
    var numberedCuration := Enumerate(curation, 0);
    var lastNumber := if numberedCuration != [] then numberedCuration[|numberedCuration| - 1].0 else 0;
    var numberedWorkspace := Enumerate(workspace, lastNumber);
    Numbering(numberedCuration, numberedWorkspace, DictOf(numberedCuration + numberedWorkspace))
  }

  lemma {:induction false} DictOfEnumerate(s: seq<Course>)
    ensures forall k :: k in DictOf(Enumerate(s, 0)) <==> 1 <= k <= |s|
    ensures forall k :: 1 <= k <= |s| ==> DictOf(Enumerate(s, 0))[k] == s[k - 1]
    decreases |s|
  {
    if s != [] {
      var e := Enumerate(s, 0);
      var s' := s[..|s| - 1];
      assert e[..|e| - 1] == Enumerate(s', 0);
      DictOfEnumerate(s');
    }
  }

  /**
   * The numbering invariant: curation items carry 1..n in stored order,
   * workspace items n+1..n+m in stored order, and the catalog has exactly the
   * keys 1..n+m, key k addressing the k-th item of curation then workspace.
   */
  lemma NumberingInvariant(curation: seq<Course>, workspace: seq<Course>)
    ensures var nb := NumberCourses(curation, workspace);
      && |nb.curation| == |curation| && |nb.workspace| == |workspace|
      && (forall i :: 0 <= i < |curation| ==> nb.curation[i] == (i + 1, curation[i]))
      && (forall j :: 0 <= j < |workspace| ==> nb.workspace[j] == (|curation| + j + 1, workspace[j]))
      && (forall k :: k in nb.catalog <==> 1 <= k <= |curation| + |workspace|)
      && (forall k :: 1 <= k <= |curation| + |workspace| ==> nb.catalog[k] == (curation + workspace)[k - 1])
  {
    var nb := NumberCourses(curation, workspace);
    assert nb.curation + nb.workspace == Enumerate(curation + workspace, 0);
    DictOfEnumerate(curation + workspace);
  }

  // ---------------------------------------------------------------------------
  // parse_course_request
  // ---------------------------------------------------------------------------

  /**
   * What `parse_course_request` returns: None (`NoMatch`), one course, the
   * list built for several numbers (each entry whatever the store returned),
   * a list of fuzzy suggestions, or the ValueError raised by `int(...)` on an
   * empty token or on more than `MaxStrDigits` digits.
   */
  datatype Resolution = NoMatch | One(course: Course) | Bulk(items: seq<Option<Course>>) | Suggested(candidates: seq<Course>) | BadNumber

  function FromOption(o: Option<Course>): Resolution {
    match o
    case None => NoMatch
    case Some(c) => One(c)
  }

  function FromLookup(l: Lookup): Resolution {
    match l
    case Missing => NoMatch
    case Found(c) => One(c)
    case Suggestions(cs) => Suggested(cs)
  }

  /** The several-numbers branch: a space in the request, and nothing but digits once the spaces are removed. */
  predicate IsBulkRequest(request: string) {
    Contains(request, " ") && IsDigit(ReplaceAll(request, " ", ""))
  }

  /** `[int(x) for x in tokens]`: None when some `int(x)` raises. */
  function ParseNumbers(tokens: seq<string>): Option<seq<int>> {
    if tokens == [] then Some([])
    else
      match (ParseInt(tokens[0]), ParseNumbers(tokens[1..]))
      case (Some(n), Some(ns)) => Some([n] + ns)
      case _ => None
  }

  /** The lookup loop of the several-numbers branch: None at the first number missing from the cache, the list otherwise. */
  function LookupNumbers(cache: map<int, Key>, numbers: seq<int>, store: Store): Resolution {
    if numbers == [] then Bulk([])
    else if numbers[0] !in cache then NoMatch
    else
      match LookupNumbers(cache, numbers[1..], store)
      case Bulk(items) => Bulk([store.get(cache[numbers[0]])] + items)
      case other => other
  }

  /**
   * `parse_course_request`. Several space-separated numbers all resolve
   * through the cache or the call gives None; one number below 100 is a cache
   * ordinal; a larger number is an external id; anything else is a title
   * lookup that may come back with suggestions.
   */
  function Resolve(cache: map<int, Key>, request: string, store: Store): Resolution {
    if IsBulkRequest(request) then
      match ParseNumbers(Split(request, " "))
      case None => BadNumber
      case Some(numbers) => LookupNumbers(cache, numbers, store)
    else if IsDigit(request) then
      // int(request): the decimal value, unless over the digit limit (lemma ParseDigits)
      match ParseInt(request)
      case None => BadNumber
      case Some(n) =>
        if n < 100 then (if n in cache then FromOption(store.get(cache[n])) else NoMatch)
        else FromOption(store.get(Text(request)))
    else FromLookup(store.lookup(request))
  }

  /** A request of digits alone holds no space, so it never takes the several-numbers branch. */
  lemma DigitsAreNotBulk(request: string)
    requires IsDigit(request)
    ensures !IsBulkRequest(request)
  {
    DigitsFreeOf(request, ' ');
  }

  /**
   * A number below 100 (within the digit limit) reads only its own cache
   * entry: a missing entry (0 included) gives None, whatever else the cache
   * holds.
   */
  lemma SmallNumberReadsCache(c1: map<int, Key>, c2: map<int, Key>, request: string, store: Store)
    requires IsDigit(request) && DecimalValue(request) < 100
    requires var n := DecimalValue(request); (n in c1 <==> n in c2) && (n in c1 ==> c1[n] == c2[n])
    ensures Resolve(c1, request, store) == Resolve(c2, request, store)
    ensures |request| <= MaxStrDigits && DecimalValue(request) !in c1 ==> Resolve(c1, request, store) == NoMatch
    ensures |request| <= MaxStrDigits && DecimalValue(request) in c1 ==>
      Resolve(c1, request, store) == FromOption(store.get(c1[DecimalValue(request)]))
  {
    DigitsAreNotBulk(request);
    ParseDigits(request);
  }

  /** A number of 100 or more (within the digit limit) bypasses the cache: every cache gives the same store lookup of the number's text. */
  lemma LargeNumberBypassesCache(c1: map<int, Key>, c2: map<int, Key>, request: string, store: Store)
    requires IsDigit(request) && DecimalValue(request) >= 100
    ensures Resolve(c1, request, store) == Resolve(c2, request, store)
    ensures |request| <= MaxStrDigits ==> Resolve(c1, request, store) == FromOption(store.get(Text(request)))
  {
    DigitsAreNotBulk(request);
    ParseDigits(request);
  }

  /** A single number of more than `MaxStrDigits` digits (leading zeros count) makes `int(request)` raise ValueError, whatever its value. */
  lemma OverlongNumberRaises(cache: map<int, Key>, request: string, store: Store)
    requires IsDigit(request) && |request| > MaxStrDigits
    ensures Resolve(cache, request, store) == BadNumber
  {
    DigitsAreNotBulk(request);
    ParseDigits(request);
  }

  /** Text that is neither a number nor a list of numbers goes to the store with suggestions enabled. */
  lemma TextGoesToLookup(cache: map<int, Key>, request: string, store: Store)
    requires !IsDigit(request) && !IsBulkRequest(request)
    ensures Resolve(cache, request, store) == FromLookup(store.lookup(request))
  {
  }

  lemma {:induction false} AllDigitsOfJoin(parts: seq<string>)
    requires AllDigits(Join("", parts))
    ensures forall p :: p in parts ==> AllDigits(p)
    decreases |parts|
  {
    if |parts| > 1 {
      var j := Join("", parts);
      assert j == parts[0] + Join("", parts[1..]);
      assert forall i :: 0 <= i < |parts[0]| ==> j[i] == parts[0][i];
      assert forall i :: 0 <= i < |Join("", parts[1..])| ==> j[|parts[0]| + i] == Join("", parts[1..])[i];
      AllDigitsOfJoin(parts[1..]);
      forall p | p in parts
        ensures AllDigits(p)
      {
        if p != parts[0] {
          assert p in parts[1..];
        }
      }
    }
  }

  /** In a several-numbers request every token is digits only (possibly empty), and there are at least two tokens. */
  lemma BulkTokensAreDigits(request: string)
    requires IsBulkRequest(request)
    ensures |Split(request, " ")| >= 2
    ensures forall t :: t in Split(request, " ") ==> AllDigits(t)
  {
    ReplaceIsJoinOfSplit(request, " ", "");
    AllDigitsOfJoin(Split(request, " "));
  }

  /** A digit token that `int()` refuses: empty, or longer than the digit limit. */
  predicate Unparsable(t: string) {
    t == "" || |t| > MaxStrDigits
  }

  /** `int(x)` over digit tokens fails exactly when a token is empty or over the digit limit, and otherwise yields each token's value in order. */
  lemma {:induction false} ParseNumbersSpec(tokens: seq<string>)
    requires forall t :: t in tokens ==> AllDigits(t)
    ensures ParseNumbers(tokens).None? <==> exists t :: t in tokens && Unparsable(t)
    ensures ParseNumbers(tokens).Some? ==>
      |ParseNumbers(tokens).value| == |tokens|
      && forall k :: 0 <= k < |tokens| ==> ParseNumbers(tokens).value[k] == DecimalValue(tokens[k])
    decreases |tokens|
  {
    if tokens != [] {
      assert tokens[0] in tokens;
      if tokens[0] == "" {
        ParseEmpty();
      } else {
        ParseDigits(tokens[0]);
      }
      forall t | t in tokens[1..]
        ensures AllDigits(t)
      {
        assert t in tokens;
      }
      ParseNumbersSpec(tokens[1..]);
      assert (exists t :: t in tokens && Unparsable(t)) <==> Unparsable(tokens[0]) || exists t :: t in tokens[1..] && Unparsable(t) by {
        assert tokens == [tokens[0]] + tokens[1..];
      }
    }
  }

  /** `[int(x) for x in tokens]` raises exactly when one of the tokens does not parse, and otherwise holds their values in order. */
  lemma {:induction false} ParseNumbersPointwise(tokens: seq<string>)
    ensures ParseNumbers(tokens).Some? <==> forall k :: 0 <= k < |tokens| ==> ParseInt(tokens[k]).Some?
    ensures ParseNumbers(tokens).Some? ==>
      |ParseNumbers(tokens).value| == |tokens|
      && forall k :: 0 <= k < |tokens| ==> ParseInt(tokens[k]) == Some(ParseNumbers(tokens).value[k])
    decreases |tokens|
  {
    if tokens != [] {
      ParseNumbersPointwise(tokens[1..]);
      assert forall k :: 1 <= k < |tokens| ==> tokens[k] == tokens[1..][k - 1];
    }
  }

  /** The lookup loop is all-or-nothing: None exactly when some number is not cached, otherwise one store result per number, in order. */
  lemma {:induction false} LookupAllOrNothing(cache: map<int, Key>, numbers: seq<int>, store: Store)
    ensures LookupNumbers(cache, numbers, store) == NoMatch <==> exists k :: 0 <= k < |numbers| && numbers[k] !in cache
    ensures LookupNumbers(cache, numbers, store) != NoMatch ==>
      && LookupNumbers(cache, numbers, store).Bulk?
      && |LookupNumbers(cache, numbers, store).items| == |numbers|
      && forall k :: 0 <= k < |numbers| ==> numbers[k] in cache && LookupNumbers(cache, numbers, store).items[k] == store.get(cache[numbers[k]])
    decreases |numbers|
  {
    if numbers != [] {
      LookupAllOrNothing(cache, numbers[1..], store);
      if numbers[0] in cache {
        if exists k :: 0 <= k < |numbers[1..]| && numbers[1..][k] !in cache {
          var k :| 0 <= k < |numbers[1..]| && numbers[1..][k] !in cache;
          assert numbers[k + 1] !in cache;
        }
        if exists k :: 0 <= k < |numbers| && numbers[k] !in cache {
          var k :| 0 <= k < |numbers| && numbers[k] !in cache;
          assert k > 0 && numbers[1..][k - 1] !in cache;
        }
      }
    }
  }

  /**
   * Multi-number atomicity for a whole request: an empty token (extra space)
   * or one over the digit limit raises ValueError; otherwise the call gives
   * None exactly when one of the numbers is absent from the cache, and never
   * a partial list.
   */
  lemma BulkRequestAllOrNothing(cache: map<int, Key>, request: string, store: Store)
    requires IsBulkRequest(request)
    ensures forall t :: t in Split(request, " ") ==> AllDigits(t)
    ensures (exists t :: t in Split(request, " ") && Unparsable(t)) ==> Resolve(cache, request, store) == BadNumber
    ensures (forall t :: t in Split(request, " ") ==> !Unparsable(t)) ==>
      (Resolve(cache, request, store) == NoMatch <==>
        exists k :: 0 <= k < |Split(request, " ")| && DecimalValue(Split(request, " ")[k]) !in cache)
    ensures Resolve(cache, request, store).Bulk? ==>
      var toks := Split(request, " ");
      && |Resolve(cache, request, store).items| == |toks|
      && forall k :: 0 <= k < |toks| ==>
        DecimalValue(toks[k]) in cache && Resolve(cache, request, store).items[k] == store.get(cache[DecimalValue(toks[k])])
  {
    var toks := Split(request, " ");
    BulkTokensAreDigits(request);
    ParseNumbersSpec(toks);
    if forall t :: t in toks ==> !Unparsable(t) {
      var numbers := ParseNumbers(toks).value;
      LookupAllOrNothing(cache, numbers, store);
      assert forall k :: 0 <= k < |toks| ==> numbers[k] == DecimalValue(toks[k]);
    }
  }

  /** The number printed next to the k-th course of a list (below 100) resolves to a store lookup of that course's title. */
  lemma PrintedNumberResolves(list: seq<Course>, k: nat, store: Store)
    requires 1 <= k <= |list| && k < 100
    ensures Resolve(NumberedTitles(list), NatToString(k), store) == FromOption(store.get(Text(list[k - 1].title)))
  {
    DecimalValueOfNatToString(k);
    DigitsAreNotBulk(NatToString(k));
    NatToStringLength(k, 2);
    ParseDigits(NatToString(k));
  }

  /** Number 0 never resolves after a list is printed. */
  lemma ZeroNeverResolves(list: seq<Course>, store: Store)
    ensures Resolve(NumberedTitles(list), "0", store) == NoMatch
  {
    DigitsAreNotBulk("0");
    ParseDigits("0");
  }

  /**
   * Resolution reads the last printed list, not the `number_courses` catalog:
   * after the workspace is printed, "1" resolves to the workspace's first
   * course while the catalog numbers the curation's first course 1.
   */
  lemma CacheIsNotCatalog(curation: seq<Course>, workspace: seq<Course>, store: Store)
    requires |curation| > 0 && |workspace| > 0
    ensures 1 in NumberCourses(curation, workspace).catalog && NumberCourses(curation, workspace).catalog[1] == curation[0]
    ensures Resolve(NumberedTitles(workspace), "1", store) == FromOption(store.get(Text(workspace[0].title)))
  {
    NumberingInvariant(curation, workspace);
    PrintedNumberResolves(workspace, 1, store);
  }
}
