# Mentor: the curation chat session and the course-selection pipelines, in Dafny

Mentor helps a learning designer build a *curation*: an ordered list of video
courses on a topic. This project models three parts of it.

- **The interactive curation chat** (`agentic/mentor_chat.py`). The session
  keeps the curation's course list, a `UniqueList` workspace of courses seen
  during the chat, and a course cache. The cache maps the numbers on the
  last printed list to course titles. The model covers:
  - number resolution (`parse_course_request`);
  - the add/remove/reorder/move/workspace commands;
  - duplicate-free and title-deduplicated appends;
  - placeholder expansion in the user's prompt before the generative call (`query_model`);
  - the small duration and URL conversions.
- **The three-stage Mentor pipeline**, in its two versions (`mentor/mentor.py` and the
  earlier `Mentor.py`). First an L&D stage writes a free-text ideal curriculum,
  cut out from between XML tags. Then a structuring stage turns it into a
  `Curriculum`. Finally a selection stage does two things:
  - it retrieves candidate courses for each module;
  - it builds a context string and lets a librarian pick the courses.
- **The curriculum XML serialiser** (`Curriculum.__str__` in
  `src/mentor/mentor/CurriculumModule.py`).

The item store `Get`, the retrieval index `Curate` and every generative call
are uninterpreted function values passed in as parameters (`Kramer.Store`,
`Stages.Hit` lists, the `Services` records). The rest follows the code,
including Python's string semantics on ASCII text:
- `str.find`, slicing with negative bounds, `split`, `join`, `replace`, `isdigit`, `int()`;
- `str(timedelta)`.

The exceptions to this are listed under "Left out".

These live in the module `PyStr`.

Module layout:
- `Basics`: `Option`, `Result`, Python exceptions as values.
- `PyStr`: the Python string operations and their lemmas.
- `Kramer`: courses and the store.
- `UniqueLists`: the `UniqueList` class and the list operations it is specified by.
- `Catalog`: cache numbering, `number_courses`, request resolution.
- `Placeholders`: the `{{(.*?)\.(.*?)}}` matcher.
- `ChatState`: each command as a function on a session value.
- `Chat`: the `MentorChat` class, whose methods change its fields step by step and are proved to reach the state `ChatState` prescribes.
- `Conversions`: `convert_duration`, `convert_urls`.
- `CurriculumXml`: the data model and `__str__`.
- `Stages`: tag extraction, retrieval queries, the candidate pool, shared by both pipelines.
- `MentorPipeline`: `mentor/mentor.py`.
- `MentorScript`: `Mentor.py`.

Where the code and its own comments disagree, the model follows the code. Three cases:
- **Numbering.** The docstring of `parse_course_request` says numbers count through the curation and then the workspace. The code reads the cache of the last printed list (`Catalog.CacheIsNotCatalog`).
- **Zero modules in `Mentor.py`.** The `Mentor.py` librarian call is given the last module's title, not `curriculum.topic`. With zero modules the loop variable is unbound and the call raises UnboundLocalError, a subclass of NameError; the model reports it as `NameError`.
- **Return value of `Mentor.py`'s `identify_courses`.** It returns the librarian's `Curation` without resolving any title.

## Model

| member | source | states |
|---|---|---|
| UniqueLists.UniqueAppendSpec | agentic/mentor_chat.py:63-65 | appending an element already present leaves the list unchanged, otherwise it becomes old list + [item]; a duplicate-free list stays duplicate-free and its multiset grows by the item exactly when it was absent |
| UniqueLists.AppendAllSpec | agentic/mentor_chat.py:57-65 | a list built by successive appends from a duplicate-free list has no duplicates, keeps the old list as a prefix and holds exactly the old items and the appended ones |
| UniqueLists.UniqueList.Append | agentic/mentor_chat.py:63-65 | the stored items become the unique-append of the old items and the argument |
| UniqueLists.UniqueList.constructor | agentic/mentor_chat.py:86 | a new UniqueList is empty |
| UniqueLists.IndexOf | agentic/mentor_chat.py:301 | `list.index`: -1 exactly when absent, otherwise the first position holding the item |
| UniqueLists.UniqueList.Index | agentic/mentor_chat.py:301 | returns the first position of the item, and -1 exactly when it is absent |
| UniqueLists.RemoveFirstSpec | agentic/mentor_chat.py:752 | `list.remove` of a present item shortens the list by one and removes exactly one copy from its multiset; in a duplicate-free list the item is then gone |
| UniqueLists.UniqueList.Remove | agentic/mentor_chat.py:1146-1147 | reports whether the item was present, removes its first occurrence when it was, and changes nothing otherwise |
| UniqueLists.RemoveAtIsWithout | agentic/mentor_chat.py:331 | in a duplicate-free list, popping position i equals filtering out the item at i |
| Catalog.NumberCourses | agentic/mentor_chat.py:268-294 | `number_courses`: its properties are stated by `Catalog.NumberingInvariant` and `Catalog.DictOfEnumerate` |
| Catalog.NumberingInvariant | agentic/mentor_chat.py:268-294 | curation items get 1..n and workspace items n+1..n+m in stored order; the catalog has exactly the keys 1..n+m and key k holds the k-th item of curation followed by workspace |
| Catalog.DictOfEnumerate | agentic/mentor_chat.py:280-289 | the dict built from an enumeration from 1 has exactly the keys 1..len and key k holds item k-1 |
| Catalog.Resolve | agentic/mentor_chat.py:156-191 | `parse_course_request`: its properties are stated by the `Catalog` lemmas below (`SmallNumberReadsCache`, `LargeNumberBypassesCache`, `OverlongNumberRaises`, `TextGoesToLookup`, `BulkRequestAllOrNothing`); `Chat.MentorChat.ParseCourseRequest` computes it |
| Catalog.DigitsAreNotBulk | agentic/mentor_chat.py:165-179 | an all-digit request contains no space and never takes the multi-number branch |
| Catalog.SmallNumberReadsCache | agentic/mentor_chat.py:179-187 | a single number below 100 resolves only through the course cache: two caches agreeing on that key resolve alike; within the 4300-digit limit of `int()`, a missing key (0 included) gives None and a present key gives `Get` of the cached entry |
| Catalog.LargeNumberBypassesCache | agentic/mentor_chat.py:181-189 | a single number of 100 or more resolves alike whatever either cache holds, and within the 4300-digit limit of `int()` resolves to `Get(request)` |
| Catalog.OverlongNumberRaises | agentic/mentor_chat.py:179-180 | a single number of more than 4300 digits (leading zeros count) makes `int(request)` raise ValueError, whatever its value |
| Catalog.TextGoesToLookup | agentic/mentor_chat.py:190-191 | a non-digit, non-bulk request goes to the store's lookup with recommendations |
| Catalog.BulkTokensAreDigits | agentic/mentor_chat.py:165-168 | a multi-number request splits on spaces into at least two tokens, each all digits (possibly empty) |
| Catalog.ParseNumbersSpec | agentic/mentor_chat.py:168 | parsing all-digit tokens fails (ValueError) exactly when a token is empty or longer than 4300 digits, and otherwise gives each token's decimal value, one per token in order |
| Catalog.ParseNumbersPointwise | agentic/mentor_chat.py:168 | the list comprehension of `int` succeeds exactly when every token parses, and then holds each token's value in order |
| Catalog.LookupAllOrNothing | agentic/mentor_chat.py:169-178 | the number loop gives None exactly when some number is missing from the cache; otherwise a list with one `Get` result per number, in order |
| Catalog.BulkRequestAllOrNothing | agentic/mentor_chat.py:165-178 | for a whole multi-number request: an empty token or one of more than 4300 digits raises ValueError; otherwise None exactly when some number is absent from the cache, and never a partial list; a list has one entry per token, in token order |
| Catalog.PrintedNumberResolves | agentic/mentor_chat.py:244-251 | after printing a list, number k (1 ≤ k < 100) resolves to `Get` of the title of the k-th listed course |
| Catalog.ZeroNeverResolves | agentic/mentor_chat.py:181-187 | "0" never resolves through a printed list |
| Catalog.CacheIsNotCatalog | agentic/mentor_chat.py:172-184 | number 1 is the first curation course in the `number_courses` catalog, yet after the workspace was printed "1" resolves to the first workspace course |
| ChatState.AddToWorkspace | agentic/mentor_chat.py:193-214 | `add_to_workspace`: its properties are stated by `ChatState.AddByTitleSpec`, `AddEntriesSpec` and `AddEntriesConcat`; `Chat.MentorChat.AddToWorkspace` computes it |
| ChatState.AddByTitleSpec | agentic/mentor_chat.py:199-202 | adding a course to a title-distinct workspace skips it when its title is present and appends it otherwise; titles stay distinct |
| ChatState.AddEntriesSpec | agentic/mentor_chat.py:193-214 | processing a payload list keeps titles distinct and the old workspace as a prefix; it raises (ValueError) exactly when some string entry is unknown to the store; when it completes, every listed course's title is in the workspace |
| ChatState.AddEntriesConcat | agentic/mentor_chat.py:203-205 | a list payload is processed element by element in order: adding a + b is adding a, then b unless a raised |
| ChatState.Move | agentic/mentor_chat.py:296-350 | `move_course`: its properties are stated by `ChatState.MovePermutes`, `MovePosition`, `UpThenDown` and `BottomCacheIsStale`; `Chat.MentorChat.MoveCourse` computes it |
| ChatState.MovePermutes | agentic/mentor_chat.py:296-350 | every move leaves the curation a duplicate-free permutation of the old one and the workspace unchanged |
| ChatState.MovePosition | agentic/mentor_chat.py:300-348 | for a course in the curation: UP/DOWN move it one place only when the neighbour exists, TOP to first, BOTTOM to last; at a boundary it stays; the other courses keep their relative order |
| ChatState.UpThenDown | agentic/mentor_chat.py:302-327 | moving a course that is not first up and then down restores the curation |
| ChatState.BottomCacheIsStale | agentic/mentor_chat.py:338-346 | after a BOTTOM move the course is last, but the cache was refreshed before the move, so the last number still resolves to the course that used to be last |
| ChatState.SwapSpec | agentic/mentor_chat.py:302-321 | swapping with a neighbour permutes a duplicate-free list, puts the course at the neighbour's index and keeps the others' order |
| ChatState.ToFrontSpec | agentic/mentor_chat.py:330-331 | `insert(0, pop(i))` permutes, puts the course first and keeps the others' order |
| ChatState.ToBackSpec | agentic/mentor_chat.py:346 | `append(pop(i))` is the list without the course followed by it; it permutes, puts the course last and keeps the others' order |
| ChatState.AddCourse | agentic/mentor_chat.py:720-739 | `command_add_course`: its properties are stated by `ChatState.AddManySpec`, `AddManyWorkspacePrefix` and `ListKinds`; `Chat.MentorChat.AddCourse` computes it |
| ChatState.AddManySpec | agentic/mentor_chat.py:720-739 | adding courses keeps the curation duplicate-free, workspace titles distinct, the cache and the old curation as a prefix; every added course ends in the curation with its title in the workspace |
| ChatState.AddManyWorkspacePrefix | agentic/mentor_chat.py:730-732 | the add command only ever appends to the workspace |
| ChatState.RemoveCourse | agentic/mentor_chat.py:741-760 | `command_remove_course`: its properties are stated by `ChatState.RemoveOneSpec` and `RemoveManySpec`; `Chat.MentorChat.RemoveCourse` computes it |
| ChatState.RemoveOneSpec | agentic/mentor_chat.py:757-759 | removing an absent course raises ValueError and changes nothing; removing a present one drops one copy from the curation; workspace titles stay distinct |
| ChatState.RemoveManySpec | agentic/mentor_chat.py:747-754 | a bulk remove that completes had every number found, and the old curation is the new one plus exactly the removed courses; an error is a ValueError; workspace titles stay distinct |
| ChatState.Reorder | agentic/mentor_chat.py:772-812 | `command_reorder_curation` for a given answer: its properties are stated by `ChatState.ReorderSpec`, `SwapByIndex` and `FailedReorderCachesObjects`; `Chat.MentorChat.ReorderCuration` computes it |
| ChatState.ReorderSpec | agentic/mentor_chat.py:772-812 | an empty curation changes nothing; otherwise a valid pair of numbers exchanges exactly those two courses and renumbers the cache by title, invalid input keeps the curation and leaves course objects in the cache, and the curation stays a duplicate-free permutation |
| ChatState.SwapByIndex | agentic/mentor_chat.py:795-798 | writing each course at the other's `index` position is the swap of the two positions |
| ChatState.FailedReorderCachesObjects | agentic/mentor_chat.py:780-789 | after an unparsable answer, number k resolves by `Get` of the k-th course object, not its title |
| ChatState.AddWorkspaceCommand | agentic/mentor_chat.py:1131-1138 | `command_add_workspace`: its properties are stated by `ChatState.AddWorkspaceSpec`; `Chat.MentorChat.AddWorkspace` computes it |
| ChatState.AddWorkspaceSpec | agentic/mentor_chat.py:1131-1138 | the workspace command only appends, keeps titles distinct and leaves the curation and the cache alone. A single found course completes with its title in the workspace. A non-empty list has every course's title added, then raises AttributeError. A bad number raises ValueError, and nothing found or an empty list completes; in these cases nothing changes |
| ChatState.RemoveWorkspaceCommand | agentic/mentor_chat.py:1140-1150 | `command_remove_workspace`: its properties are stated by `ChatState.RemoveWorkspaceSpec`; `Chat.MentorChat.RemoveWorkspace` computes it |
| ChatState.RemoveWorkspaceSpec | agentic/mentor_chat.py:1140-1150 | completes exactly when the request resolves to one course. The workspace then becomes the old one with that course filtered out and the others in order, which is the old workspace when the course was absent. Anything else raises and changes nothing. Titles stay distinct |
| ChatState.MoveCommand | agentic/mentor_chat.py:814-844 | the four move commands: a single resolved course is moved by `ChatState.Move` (properties in `MovePermutes` and `MovePosition`), ValueError escapes when `int()` refuses the request, and anything else changes nothing; `Chat.MentorChat.MoveCommand` computes it |
| ChatState.ListKinds | agentic/mentor_chat.py:726-735 | a list result is a bulk list exactly when the space-free request is all digits, and suggestions otherwise |
| ChatState.QueryModel | agentic/mentor_chat.py:99-154 | `query_model` on the prompt text: its properties are stated by `ChatState.FixedPlaceholdersReplaced`, `QuerySentIff` and `QueryStopsAtFirst`; `Chat.MentorChat.QueryModel` computes it |
| ChatState.ExpandRefs | agentic/mentor_chat.py:128-154 | the reference loop of `query_model`: its properties are stated by `ChatState.QuerySentIff`, `QueryStopsAtFirst` and `IgnoredRefKeepsPrompt`; `Chat.MentorChat.ExpandRef` computes one step |
| ChatState.QuerySentIff | agentic/mentor_chat.py:128-154 | the prompt reaches the backend exactly when no valid-keyword reference fails to resolve to a course with that field. A failure leaves the session unchanged, and a halt keeps the curation and the workspace |
| ChatState.QueryStopsAtFirst | agentic/mentor_chat.py:128-141 | the first reference that stops the query decides it: with none the prompt is sent, and a halt there prints that reference's list, so the cache numbers exactly that list |
| ChatState.FixedPlaceholdersReplaced | agentic/mentor_chat.py:114-123 | every `{{snapshot}}` and then every `{{tocs}}` is replaced by its wrapped block |
| ChatState.IgnoredRefKeepsPrompt | agentic/mentor_chat.py:131-151 | a reference with a keyword outside transcript/description/toc, or whose field is empty, leaves the prompt as it is |
| Placeholders.MatchAtIsLeftmostLazy | agentic/mentor_chat.py:126-127 | a match found at a position is a regex match there with the shortest first group, then the shortest second group, and its first group has no '.'; no match is found exactly when the regex cannot match there |
| Placeholders.MatchLayout | agentic/mentor_chat.py:126 | a match consists of `{{`, the first group, '.', the second group, `}}`, with no line end inside |
| Placeholders.FoundRefsOccur | agentic/mentor_chat.py:126-139 | every reference `findall` returns occurs in the prompt as `{{param.keyword}}`, with one-line groups and a dot-free parameter |
| Placeholders.SwallowedPlaceholder | agentic/mentor_chat.py:126-127 | in `{{x}} {{1.toc}}` the only match is the reference with parameter `x}} {{1` and keyword `toc` |
| Chat.MentorChat.constructor | agentic/mentor_chat.py:76-97 | the session starts with the saved curation, an empty workspace and an empty cache |
| Chat.MentorChat.ParseCourseRequest | agentic/mentor_chat.py:156-191 | returns exactly the resolution of the request against the current cache |
| Chat.MentorChat.ParseTokens | agentic/mentor_chat.py:168 | the token loop gives None exactly when some token does not parse, and otherwise the numbers in token order |
| Chat.MentorChat.LookupCached | agentic/mentor_chat.py:169-178 | the lookup loop gives None at the first number missing from the cache, otherwise one store result per number, in order |
| Chat.MentorChat.UpdateCourseCache | agentic/mentor_chat.py:244-251 | the old cache is discarded; afterwards key i holds the title of list item i-1 for exactly the keys 1..len |
| Chat.MentorChat.PrintCourseList | agentic/mentor_chat.py:253-266 | printing a list renumbers the cache from it and changes nothing else |
| Chat.MentorChat.AddEntryToWorkspace | agentic/mentor_chat.py:199-214 | one payload entry is added by title, unknown strings raise ValueError, and the workspace invariant is kept |
| Chat.MentorChat.AddToWorkspace | agentic/mentor_chat.py:193-214 | the workspace and status are those of processing the payload entry by entry |
| Chat.MentorChat.MoveCourse | agentic/mentor_chat.py:296-350 | the session becomes the prescribed move, including the stale cache of BOTTOM |
| Chat.MentorChat.AddCourse | agentic/mentor_chat.py:720-739 | the session and status become those of the add command |
| Chat.MentorChat.RemoveCourse | agentic/mentor_chat.py:741-760 | the session and status become those of the remove command, stopping at the first failure |
| Chat.MentorChat.RemoveStep | agentic/mentor_chat.py:752-753 | removing a missing (None) item raises ValueError and changes nothing; a course is removed and added to the workspace by title |
| Chat.MentorChat.ReorderCuration | agentic/mentor_chat.py:772-812 | the session becomes the prescribed reorder for the user's answer |
| Chat.MentorChat.CacheCourseObjects | agentic/mentor_chat.py:780-781 | every number of the printed curation is rewritten to the course object |
| Chat.MentorChat.SwapCached | agentic/mentor_chat.py:790-806 | out-of-range numbers change nothing; valid ones swap the two courses by `index` and renumber the cache |
| Chat.MentorChat.AddWorkspace | agentic/mentor_chat.py:1131-1138 | the session and status become those of the add-workspace command |
| Chat.MentorChat.RemoveWorkspace | agentic/mentor_chat.py:1140-1150 | the session and status become those of the remove-workspace command |
| Chat.MentorChat.ClearWorkspace | agentic/mentor_chat.py:1152-1157 | the workspace becomes a new empty list and nothing else changes |
| Chat.MentorChat.MoveCommand | agentic/mentor_chat.py:814-844 | the move commands move only a single resolved course, raise ValueError when `int()` refuses the request and otherwise change nothing |
| Chat.MentorChat.QueryModel | agentic/mentor_chat.py:99-154 | the reply and the session are those of expanding the placeholders reference by reference |
| Chat.MentorChat.ExpandRef | agentic/mentor_chat.py:129-150 | one found reference either rewrites the prompt and leaves the session alone, or ends the query with the reply and session the expansion prescribes |
| Chat.NumberedTitlesExtend | agentic/mentor_chat.py:250-251 | one loop step of the cache rebuild adds exactly key i+1 with the i-th title |
| Chat.PartlyObjectsAll | agentic/mentor_chat.py:779-781 | the reorder loop starts from the title cache and ends with every number holding a course object |
| Conversions.TimedeltaString | agentic/mentor_chat.py:222 | `str(timedelta(seconds=n))` fails, with OverflowError, exactly when the day count is beyond ±999999999 |
| Conversions.ConvertDuration | agentic/mentor_chat.py:216-223 | an unparsable string, including one of more than 4300 digits, raises ValueError; the only other failure is OverflowError |
| Conversions.DurationRoundTrip | agentic/mentor_chat.py:216-223 | reading back the `[D day[s], ]H:MM:SS` text gives the original number of seconds, negative ones included |
| Conversions.UnderADay | agentic/mentor_chat.py:216-223 | under a day the text is the clock form `H:MM:SS` with two-digit minutes and seconds |
| Conversions.ClockRoundTrip | agentic/mentor_chat.py:222 | the clock form of a second count below a day parses back to it |
| Conversions.ConvertUrls | agentic/mentor_chat.py:241-242 | `convert_urls`: its property is stated by `Conversions.ConvertUrlsSpec` |
| Conversions.ConvertUrlsSpec | agentic/mentor_chat.py:241-242 | the result is the longest comma-free prefix of the input: the whole input exactly when it has no comma, otherwise followed by a comma |
| CurriculumXml.ToXml | src/mentor/mentor/CurriculumModule.py:28-53 | the text starts with the curriculum/topic/description/audience/modules header and ends with the closing modules and curriculum tags |
| CurriculumXml.ToXmlLines | src/mentor/mentor/CurriculumModule.py:32-53 | the text is the header lines, one block of lines per module in list order, and the footer lines, joined by newlines |
| CurriculumXml.ModuleBlockLines | src/mentor/mentor/CurriculumModule.py:39-48 | a module block is its opening, title, description and objectives-opening lines, one objective line per objective in order, and the two closing lines |
| CurriculumXml.SplitToXml | src/mentor/mentor/CurriculumModule.py:32-53 | with one-line fields, splitting the output at newlines gives exactly those lines back |
| CurriculumXml.FieldsAppear | src/mentor/mentor/CurriculumModule.py:34-45 | fields are inserted verbatim: topic, description, audience and every module title, description and objective occur in the output |
| CurriculumXml.ModuleFieldsAppear | src/mentor/mentor/CurriculumModule.py:38-46 | each module's title, description and objectives occur in the output |
| CurriculumXml.NoModules | src/mentor/mentor/CurriculumModule.py:37-51 | no modules gives an empty line between the modules tags |
| CurriculumXml.NoObjectives | src/mentor/mentor/CurriculumModule.py:42-47 | no objectives gives an empty line between the learning-objectives tags |
| PyStr.Find | mentor/mentor.py:196-199 | `str.find`: -1 exactly when absent, otherwise the lowest index of an occurrence |
| PyStr.ParseDigits | agentic/mentor_chat.py:179-180 | `int(t)` of an all-digit string is its decimal value when it has at most 4300 digits, and raises ValueError otherwise |
| PyStr.ParseIntToString | agentic/mentor_chat.py:221 | `int(str(n)) == n` for every integer of at most 4300 digits; a longer rendering is refused by `int` |
| Stages.ExtractDescription | mentor/mentor.py:196-200 | the tag slicing of `lnd_curriculum`: its properties are stated by `Stages.WellOrderedTags`, `MissingOpenTag` and `MissingCloseTag` |
| Stages.WellOrderedTags | mentor/mentor.py:195-200 | when the opening tag occurs before the first closing tag, the result is exactly the text between the end of the first opening tag and the first closing tag, and holds no closing tag |
| Stages.MissingOpenTag | mentor/mentor.py:196-200 | without an opening tag the slice starts at 23 |
| Stages.MissingCloseTag | mentor/mentor.py:196-200 | without a closing tag the slice ends at -1: it drops the last character, or is empty |
| Stages.ModuleQuery | mentor/mentor.py:239-245 | the retrieval query built per module: its layout is stated by `Stages.QueryLines` |
| Stages.QueryLines | mentor/mentor.py:239-245 | the retrieval query is the line `title: description`, the line `Learning Objectives:`, then the objectives one per line, all but the first indented by a tab |
| Stages.Pool | mentor/mentor.py:236-247 | the retrieval loop as a value: its properties are stated by `Stages.PoolAppend` and `PoolOrigins`; `Stages.CollectCandidates` computes it |
| Stages.PoolAppend | mentor/mentor.py:236-247 | the pool of a + b is the pool of a followed by the pool of b: one retrieval per module, in order, duplicates kept |
| Stages.PoolOrigins | mentor/mentor.py:236-247 | a hit is in the pool exactly when some module's retrieval returned it |
| Stages.CollectCandidates | Mentor.py:264-275 | the loop's pool is the concatenation of the modules' retrieval results in module order |
| MentorPipeline.LndCurriculum | mentor/mentor.py:180-200 | `lnd_curriculum`: the generated text, given as a parameter, is cut by `Stages.ExtractDescription`, whose lemmas state the result |
| MentorPipeline.Identify | mentor/mentor.py:231-288 | `identify_courses` as a value: its properties are stated by `MentorPipeline.IdentifyCourses`, which computes it |
| MentorPipeline.IdentifyCourses | mentor/mentor.py:231-288 | the curation keeps the librarian's title and has one `Get` result per returned title, in order, with no dedupe or count check; the librarian sees the curriculum topic and the context of the recommended courses |
| MentorPipeline.BuildContext | mentor/mentor.py:249-256 | the loop's context is the per-course entries concatenated in pool order |
| MentorPipeline.Context | mentor/mentor.py:249-256 | the course context as a value: its properties are stated by `MentorPipeline.ContextSkipsMissing`, `FoundCourseInContext` and `ContextAppend`; `MentorPipeline.BuildContext` computes it |
| MentorPipeline.ContextSkipsMissing | mentor/mentor.py:249-256 | candidates whose lookup failed contribute nothing: the context is that of the found courses only |
| MentorPipeline.FoundCourseInContext | mentor/mentor.py:250-253 | every found candidate's entry, and so its title line, occurs in the context |
| MentorPipeline.ContextAppend | mentor/mentor.py:250-256 | the context of a + b is the context of a followed by that of b |
| MentorPipeline.Mentor | mentor/mentor.py:291-304 | the stages run ideation → structuring → selection, each fed the previous output; the curriculum is returned beside the curation exactly when asked |
| MentorScript.Identify | Mentor.py:259-293 | `identify_courses` of the script as a value: its properties are stated by `MentorScript.IdentifyCourses`, which computes it |
| MentorScript.IdentifyCourses | Mentor.py:259-293 | raises UnboundLocalError (a NameError) exactly when there are no modules; otherwise returns the librarian's curation unchanged, the librarian being given the last module's title and the `title: score` context of the pool |
| MentorScript.Mentor | Mentor.py:296-303 | the three stages run in sequence, each fed the previous output |
| MentorScript.ScoreContext | Mentor.py:276-278 | the scored context: its layout is stated by `MentorScript.ScoreContextLines` |
| MentorScript.ScoreContextLines | Mentor.py:276-278 | with one-line hits the context has one `title: score` line per hit, in pool order with duplicates kept; an empty pool gives "" |
| MentorScript.Tocs | Mentor.py:70-79 | `curation_TOCs` as a value: its properties are stated by `MentorScript.TocsSpec` and `TocsFailureSticks`; `MentorScript.CurationTocs` computes it |
| MentorScript.CurationTocs | Mentor.py:70-79 | the loop gives the prescribed table-of-contents text or error |
| MentorScript.TocsSpec | Mentor.py:70-79 | the text is produced exactly when every title is known, and is then the verbose tables of contents in title order with no separator |
| MentorScript.TocsFailureSticks | Mentor.py:76-78 | once a title is unknown the call raises AttributeError, whatever follows |

## Left out

- Generative calls (`Conduit`, `Chain.run`, `Model`, `Prompt`, `Parser`, message stores and system messages) are foreign and nondeterministic. Each stage's raw output is a function parameter (`Services`).
- `Get`, `Curate` and the fuzzy lookup are external libraries. They are uninterpreted functions in `Kramer.Store`, and a retrieval hit is a title and a score.
- Console output, `rich` rendering and `readline` are left out. So is the release-date column of `print_course_list`. Printing is modelled only by its effect on the cache.
- `save_curation` and `load_curation` are file I/O. The constructor takes the loaded curation's course list as a parameter (empty when nothing was saved).
- The interactive input of `command_reorder_curation` is left out; the user's answer is a parameter.
- Commands other than add/remove/reorder/move/workspace (views, `get_*`, consult and query commands, certificates, curate, lens, laser) are left out. They are prompting and display around the same state.
- Chat.MentorChat.QueryModel: only the text of the last message is modelled; the message list and the backend reply are not. `Sent(prompt)` stands for the call with the rewritten prompt.
- Chat.MentorChat.AddCourse: a bulk request skips a number whose cached entry the store cannot find. Python appends that `None` to the curation list, which `add_to_workspace` then ignores. The modelled curation holds only courses.
- Placeholders.MatchAtIsLeftmostLazy: the regex is modelled on the `{{(.*?)\.(.*?)}}` pattern only, not as a general regex engine.
- Conversions.ConvertDuration: an integer argument is already an `int`. Python's `int()` on a float or other type is left out.
- MentorScript.ScoreContextLines: the similarity score is kept as the text Python would print. Float formatting is not modelled.
- `Mentor.py` defines `Module` and `Curriculum` classes identical in fields to those of `CurriculumModule.py`. The model uses the one `CurriculumXml` definition for both.
- PyStr.IsDigit, PyStr.ParseInt: only ASCII digits and ASCII whitespace are modelled. Python's `isdigit` and `int()` also accept other Unicode digits, such as full-width digits, and `isdigit` accepts superscripts that `int()` then rejects. A request written with such digits takes the title-lookup branch in the model. In Python it takes a number branch or raises ValueError.
- MentorScript.Tocs: a missing verbose table of contents (`None`) is modelled as the empty text, so the model appends nothing and goes on. In Python, `curriculum_text += course.course_TOC_verbose` raises TypeError on `None`. The model covers courses whose verbose table of contents is present.
- MentorPipeline.IdentifyCourses: the library's `Curation` constructor is taken to accept the looked-up list as it is, None entries included (a returned title that `Get` does not know). Its validation is not modelled, because the library's type is not part of this model. If that validation rejects None, Python raises where the model returns a curation holding None.
- Chat.MentorChat.courses: the curation's course list is taken to behave as a `UniqueList`, whose `append` skips an item already present. This holds for a new session. `load_curation` restores whatever list type the library's `Curation` declares, and that type is not part of this model. `AddOne` and the BOTTOM move rely on this assumption through `UniqueAppend`.
- Integers are unbounded in Python and in Dafny. The one width limit that arises is Python's default 4300-digit limit on decimal `int`/`str` conversions (Python 3.11 on). It is modelled for `int()` as `PyStr.MaxStrDigits`. A limit changed through `sys.set_int_max_str_digits` or the environment is not modelled; the modelled code does not change it.
- PyStr.IntToString: Python's `str(n)` also raises ValueError past 4300 digits; the model renders every integer. The model renders only day counts (at most 999999999) and clock hours (below 24), far below the limit.
