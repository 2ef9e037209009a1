# Streaming service lists, modelled in Dafny

This project models the in-memory engine of a small movie-streaming
service written in C. All of its state is singly and doubly linked lists
reached from three globals:

- the **user list**, closed by a guard node whose uid is -1;
- the **category table**, six singly-linked lists of movies, one per
  category (HORROR = 0 ... COMEDY = 5), each ascending by movie id;
- the **new-movies list** (the intake), ascending by id. New movies wait
  here until they are distributed into the table.

Each user has:

- a **suggestion list**, a doubly-linked list with a head and a tail;
- a **watch history**, a stack whose top is the head.

The canonical file is `streaming_service.c`. The other C files are earlier
drafts that copy subsets of its functions. Each function is modelled once,
and the drafts' copies map onto the same member. The drafts differ from
`streaming_service.c` in only two ways:

- they return 1 instead of 0 on success (`Status.Code(draft)`);
- `NewMoviesSLL.c` does not refuse a repeated id
  (`Intake.InsertUnchecked`, `Service.StreamingService.NewMoviesInsertUnchecked`).

## How the model is organised

- `types.dfy`: the records of `streaming_service.h` as datatypes.
  - `mid` and `year` are `uint32` (C `unsigned`).
  - A list is the `seq` of its nodes' infos in list order.
  - An empty search result `{-1, -1}` is `None`.
- `sorted_scan.dfy`: the scan `while (tmp && tmp->info.mid < mid)` that the
  intake insertion, the category search and the table removal share. It also
  holds what splicing a node where the scan stops does to the order.
- `intake.dfy`: sorted insertion into the new-movies list.
- `catalog.dfy`:
  - `insert_end` with its cached tail;
  - what `split_list` puts in each category;
  - the category and table searches;
  - the table removal.
- `watch_stack.dfy`: Top, Push and Pop. The stack is passed by address, so
  each operation returns the new stack.
- `suggestion_list.dfy`: the suggestion list.
  - A node pointer (a cursor) is a position, and NULL is `None`.
  - `InsertRight` and `InsertLeft` work through a cursor.
  - The alternating merge of `suggest` is a step function `Step` folded over
    the popped infos (`Fold`). `FoldShape` proves it equal to a closed form
    (`Shape`).
  - `RemoveFromSuggList` is also here.
- `filtered_search.dfy`: the two-list merge of `filtered_movie_search` and
  `InsertDLLTail`.
- `users.dfy`: the user list as a value (guard left implicit). It defines
  registration, unregistration, what a suggestion pops (`Contributions`,
  `Pass`) and what a take-off does.
- `service.dfy`: the class `StreamingService`, holding:
  - `users`, the user list with the guard left out;
  - `guard`, the guard's uid;
  - `buckets`, an array of six category lists;
  - `intake`.

  Each C function that rewires those globals is a method with the C
  function's loops. Each method is proved to reach the state the
  value-level definitions above describe. The event wrappers map onto
  these methods, without their printing:

  | wrapper | method |
  |---|---|
  | `register_user` | `UserListInsert` |
  | `unregister_user` | `DeleteUser` |
  | `add_new_movie` | `NewMoviesInsertSorted` |
  | `distribute_new_movies` | `SplitList` |
  | `watch_movie` | `WatchMovie` |
  | `suggest_movies` | `SuggestMovies` |
  | `filtered_movie_search` | `FilteredMovieSearch` |
  | `take_off_movie` | `TakeOffMovie` |
- `scenarios.dfy`: the repository's drivers (`test_main.c`,
  `Stuff/Distribute.c`, `UserSLL.c`, `NewMoviesSLL.c`) stated as lemmas
  about the model: the lists the drivers print.

### The order the service keeps

`StreamingService.Sorted()` is the class invariant the event handlers keep:

- no two users share an id;
- the intake is strictly ascending by id;
- every category list is strictly ascending by id.

The constructor establishes it. Every event method requires it and ensures it
again, so it holds in every state the program reaches through them:
registration, unregistration, addition, distribution, watching, suggestion,
filtered search and take-off. The draft insertion without the duplicate check
(`NewMoviesInsertUnchecked`) is the one operation that does not keep it. It
keeps only `Valid()` and a non-decreasing intake.

Because the invariant holds, the searches give their meaning inside the class:

- `CategoryArraySearch` finds an id other than UINT_MAX exactly when some list
  holds it;
- `watch_movie` fails exactly when the user is missing, the movie is in no
  list, or the id is UINT_MAX;
- the run `filtered_movie_search` appends is ordered by id.

### Behaviour kept as the code has it

- **Filtered search, year filter.** It keeps entries with `year >= Y` while
  both lists last, but only `year > Y` in the copy of the rest
  (`FilteredSearch.MergeYearBoundary`).
- **Filtered search, equal ids.** It takes the second list's entry on equal
  ids. Asking for the same category twice puts every entry of year Y or later
  in twice, with one exception: the last such entry. If its year is exactly
  Y, its second copy is left for the copy of the rest, which drops it, so it
  appears once (`FilteredSearch.MergeSameCategory`,
  `FilteredSearch.MergeSameCategoryAtYear`).
- **Take-off.** It removes only the first node with the id from each
  suggestion list. A second copy survives
  (`SuggestionList.RemoveFirstKeepsDuplicate`).
- **`InsertLeft` with a NULL cursor.** It links the node after the head.
  That is right only for a one-node list (`SuggestionList.InsertLeftNullCursor`).
- **`suggest` versus `suggest_movies`.**
  - The draft `suggest` stops at the first user whose uid is -1.
  - `suggest_movies` stops at the guard.
  - Both are `SuggestMovies`, with a `draft` flag.
- **Return codes.** `UserListSearch` returns 1 when the uid is found. The
  comment on its return statement says the opposite.
- **The `{-1, -1}` result.** It reads as UINT_MAX in the unsigned fields.
  So a movie whose id is UINT_MAX looks absent in three places:
  - `CategoryArraySearch` runs on to the last list
    (`Catalog.CatalogLookup`, `Catalog.CatalogLookupMaxId`);
  - `watch_movie` refuses it;
  - `suggest` does not link it (`Users.Offered`).

### Preconditions that stand for NULL dereferences in the code

- **`split_list`.** It resets the cached tails to NULL. `insert_end` then
  dereferences a NULL tail if a receiving category list is not empty. So
  `SplitList` requires the receiving lists to be empty.
- **`filtered_movie_search`.** It dereferences `new_head->prev` when the
  merged run is empty and the user's suggestion list is not. So
  `FilteredMovieSearch` requires that case away.

## Model

| member | source | states |
|---|---|---|
| Types.Category.Index | streaming_service.h:19-26 | the enum value of each category, HORROR = 0 to COMEDY = 5, always a valid index into the six-list table |
| Types.CategoryOf | streaming_service.h:19-26 | every index 0..5 is the enum value of a category: the inverse of Index |
| SortedScan.FirstAtLeast | streaming_service.c:153-196 | the ordered scan stops at the first node whose id is not smaller than `mid`, or at the end: every node before it is smaller |
| SortedScan.AscendingScanFinds | streaming_service.c:267-287 | on an ascending list the scan stops on a node with `mid` exactly when `mid` is in the list |
| SortedScan.InsertKeepsAscending | Stuff/Distribute.c:11-54 | splicing a new id where the scan stops keeps an ascending list ascending, unless the scan stopped on that same id |
| SortedScan.InsertKeepsNonDecreasing | NewMoviesSLL.c:24-42 | without the duplicate check, splicing where the scan stops keeps a list non-decreasing |
| SortedScan.InsertAddsExactly | Distribute.c:11-54 | a splice adds exactly the new node: length one more, multiset plus the node, and unlinking it gives back the old list |
| Intake.InsertSortedMeaning | streaming_service.c:153-196 | on an ascending list, insertion is refused exactly when the id is present; an accepted one keeps the list ascending, grows it by one and adds exactly the new entry |
| Intake.InsertUncheckedMeaning | NewMoviesSLL.c:9-45 | the variant without the duplicate check keeps the list non-decreasing and adds exactly the new entry |
| Intake.InsertUncheckedPlace | NewMoviesSLL.c:24-33 | a repeated id is placed in front of the existing equal nodes: all before it smaller, all after it not smaller |
| Intake.InsertUncheckedHead | NewMoviesSLL.c:35-38 | the new node becomes the head exactly when the list is empty or the new id is not larger than the head's |
| Intake.InsertUncheckedKeepsOrder | NewMoviesSLL.c:13-44 | the list grows by one and the existing nodes keep their relative order |
| Catalog.InsertEnd | streaming_service.c:209-230 | insert_end: the new node is the last node and the new tail; with the tail cached correctly the list becomes the old list plus the node (NULL tail: the node alone) |
| Catalog.CategoryEntriesMembers | streaming_service.c:236-259 | a category list receives an info exactly when some intake entry of that category carries it |
| Catalog.CategoryEntriesAscending | Distribute.c:88-109 | the entries of one category keep the intake's ascending order |
| Catalog.SplitKeepsAscending | streaming_service.c:246-256 | a category list that receives entries starts empty and gets the ascending run of its category; one that receives none is unchanged; so the list stays ascending |
| Catalog.CategoryEntriesTotal | Distribute.c:98-106 | every intake node is distributed exactly once: the six lists together receive as many nodes as the intake held |
| Catalog.LookupAscending | Stuff/Distribute.c:121-141 | on an ascending list the category search succeeds exactly when the id is there, and returns a node carrying it |
| Catalog.CategoryListSearch | streaming_service.c:267-287 | the early-exit loop returns the node where the scan stops if it carries `mid`, otherwise nothing; on an ascending list, found exactly when present |
| Catalog.FirstHitFrom | Stuff/Distribute.c:151-160 | the first list, in table order, whose search finds `mid`; none of the lists before it finds it |
| Catalog.CatalogLookupMeaning | streaming_service.c:297-306 | with ascending lists, the table search for an id other than UINT_MAX succeeds exactly when some list holds it, and returns a node of the lowest-numbered such list |
| Catalog.CatalogLookupMaxId | streaming_service.c:297-306 | for the id UINT_MAX only the last list counts, because a hit looks like the `{-1, -1}` miss |
| Catalog.TableAfterRemovalMeaning | streaming_service.c:697-725 | the table removal takes exactly one node out of the first list that holds the id, changes no other list, and keeps ascending lists ascending |
| Catalog.RemoveKeepsAscending | streaming_service.c:711-717 | unlinking a node keeps a category list ascending |
| Catalog.RemoveUniqueGone | streaming_service.c:697-725 | in an ascending list the id occurs once, so after the removal that list no longer holds it |
| WatchStack.Top | streaming_service.c:320-328 | nothing exactly on an empty stack, otherwise the top node's info |
| WatchStack.Push | streaming_service.c:334-347 | the pushed info is the new top and the whole old stack lies below it |
| WatchStack.Pop | streaming_service.c:353-368 | returns what Top returns; an empty stack is left unchanged, otherwise only the top node is removed |
| WatchStack.PushPop | Stuff/Suggest.c:272-306 | Push then Pop returns the pushed info and restores the stack |
| WatchStack.PushAllPopTimes | Stuff/Suggest.c:252-306 | last in, first out: after pushing xs, popping that many times yields xs reversed and restores the stack |
| WatchStack.PopEmpty | Stuff/Suggest.c:291-306 | Pop and Top on an empty stack return the `{-1, -1}` info and leave it empty |
| SuggestionList.InsertRight | streaming_service.c:487-522 | NULL cursor: the list becomes the one new node; otherwise the node is linked right after the cursor's node, everything else in place, and the cursor moves onto it |
| SuggestionList.InsertLeft | streaming_service.c:529-567 | NULL cursor: the node follows the head; otherwise it is linked right before the cursor's node, everything else in place, and the cursor moves onto it |
| SuggestionList.InsertThroughCursor | Stuff/Suggest.c:422-502 | through a non-NULL cursor both inserts add exactly the new node, and unlinking it gives back the old list |
| SuggestionList.InsertLeftNullCursor | streaming_service.c:543-549 | InsertLeft with a NULL cursor appends to a one-node list but drops the rest of a longer one |
| SuggestionList.Shift | streaming_service.c:943-961 | the other cursor is kept NULL or non-NULL as it was |
| SuggestionList.ShiftFollowsNode | streaming_service.c:487-567 | after a node is linked in, the shifted second cursor still points at the node it pointed at |
| SuggestionList.Start | streaming_service.c:926-927 | before the scan to_right is the head and to_left the tail, both NULL exactly for an empty list |
| SuggestionList.Step | streaming_service.c:940-961 | one insertion of the merge keeps both cursors on the list, grows it by one, and leaves to_right set |
| SuggestionList.Fold | streaming_service.c:573-640 | after k insertions the list has grown by k; to_left is NULL only if the list started empty and at most one info was linked |
| SuggestionList.FoldSnoc | streaming_service.c:940-961 | one more popped info is one more step, and the state reached meets that step's precondition |
| SuggestionList.FoldShape | streaming_service.c:573-640 | the stepwise inserts give the closed form: c1, c3, ..., c4, c2 into an empty list; ..., c4, c2, h, c1, c3, ... around one node; h, c1, c3, ..., old interior, ..., c4, c2, t otherwise; the cursors end where RightAfter and LeftAfter say |
| SuggestionList.ShapeMultiset | streaming_service.c:906-978 | the merge adds exactly the popped infos: the target's list afterwards holds its old nodes plus the contributions |
| SuggestionList.OddsEvensMultiset | streaming_service.c:943-961 | the infos linked right and those linked left are together all the popped infos |
| SuggestionList.FirstMatch | streaming_service.c:731-758 | the position of the first node carrying `mid`, or the end when none does |
| SuggestionList.RemoveFirstMeaning | streaming_service.c:731-758 | the removal unlinks exactly the first node with `mid` and keeps the rest in order; a list without it is left as it was |
| SuggestionList.RemoveFirstCount | streaming_service.c:731-758 | the removal takes away exactly one occurrence of `mid` when there is one |
| SuggestionList.RemoveFirstOnce | streaming_service.c:1101-1118 | a list that held `mid` at most once no longer holds it, and a second removal changes nothing |
| SuggestionList.RemoveFirstKeepsDuplicate | streaming_service.c:731-758 | only the first node is unlinked: a second node with the same id survives |
| SuggestionList.RemoveFromSuggList | streaming_service.c:731-758 | status -1 exactly when no node carries `mid`; the list afterwards is the one without its first such node, whether it was the only node, the head, the tail or an interior node |
| SuggestionList.OccurrencesContains | streaming_service.c:731-758 | a list holds `mid` exactly when `mid` occurs in it at least once |
| FilteredSearch.InsertDLLTail | streaming_service.c:666-688 | the new node becomes the tail behind the whole old list |
| FilteredSearch.AboveMembers | streaming_service.c:1050-1069 | the copied rest holds only entries of that list strictly newer than the year |
| FilteredSearch.MergeMembers | streaming_service.c:994-1092 | every entry of the run comes from one of the two lists and is not older than the year |
| FilteredSearch.MergeBounds | streaming_service.c:1016-1069 | the run contains each entry at most as often as the two lists hold it with year >= Y, and at least as often as they hold it with year > Y |
| FilteredSearch.MergeNonDecreasing | streaming_service.c:1016-1069 | two non-decreasing lists give a non-decreasing run, duplicates included |
| FilteredSearch.MergeAscending | streaming_service.c:1016-1069 | two ascending lists with no id in common give an ascending run |
| FilteredSearch.AboveSubsequence | streaming_service.c:1050-1069 | the copied rest of an ordered list is ordered the same way |
| FilteredSearch.MergeYearBoundary | streaming_service.c:1016-1069 | an entry of exactly the requested year is kept while both lists last, but dropped from the copied rest |
| FilteredSearch.AtLeastIsAbove | streaming_service.c:1018-1025 | keeping the entries of year Y or later is keeping those strictly newer than Y - 1 |
| FilteredSearch.AboveAtLeast | streaming_service.c:1050-1069 | dropping the entries older than Y first does not change what the copy of the rest keeps |
| FilteredSearch.MergeDropsOlder | streaming_service.c:1016-1069 | skipping the older entries while both lists last gives the same run as dropping them from both lists first and then merging without skipping |
| FilteredSearch.MergeNewerSame | streaming_service.c:1029-1069 | an ascending list merged with itself, without skipping, doubles every entry except the last, which is doubled only when strictly newer than Y |
| FilteredSearch.MergeSameCategory | streaming_service.c:1016-1069 | for any ascending category list asked for twice, the run is its entries of year Y or later, each twice, except the last of them, which lands once when its year is exactly Y |
| FilteredSearch.MergeSameCategoryAtYear | streaming_service.c:1029-1069 | a single entry of exactly year Y, asked for through the same category twice, lands in the run once |
| FilteredSearch.MergedRun | streaming_service.c:1016-1069 | the merge loop and the remainder loops build exactly the run Merge describes |
| FilteredSearch.CopyNewer | streaming_service.c:1050-1069 | a remainder loop appends, in order, the rest of its list strictly newer than the year |
| Users.IndexOf | streaming_service.c:26-39 | the guard scan stops at the first user with the uid, or at the guard exactly when no user has it |
| Users.SentinelStop | streaming_service.c:596-597 | a scan for uid -1 that reads the guard past the last user stops at the first -1, not before |
| Users.Find | streaming_service.c:42-55 | FindUserList returns a user with the uid, or NULL exactly when there is none |
| Users.RegisteredMeaning | streaming_service.c:60-82 | registration is refused exactly for a taken uid; otherwise the new user, with no suggestions and no history, is first, every other user stays, and uids stay distinct |
| Users.UnregisteredMeaning | streaming_service.c:113-144 | with distinct uids, deletion of an absent uid changes nothing; otherwise exactly that user is gone and the others stay in order with their lists |
| Users.UnregisteredKeepsRecord | streaming_service.c:113-144 | every other user is found after the deletion with its record unchanged |
| Users.Pass | streaming_service.c:929-970 | while the loop stands at position i, the users before it have been popped (the target excepted) and the rest are untouched |
| Users.PassStep | streaming_service.c:931-932 | passing one position pops exactly that user |
| Users.ContributionsStep | streaming_service.c:931-941 | the popped infos grow by one user's offer per position |
| Users.ContributionsSource | streaming_service.c:906-978 | every linked info was the top of the history of a user other than the target |
| Users.ContributionsBound | streaming_service.c:906-978 | at most one info per user, and none from the target |
| Users.ContributionsCount | streaming_service.c:906-978 | nothing is lost or made up: the movies popped from the histories are exactly the infos linked into the target's list |
| Users.PopOthersSnoc | streaming_service.c:930-964 | the popped users grow one user at a time |
| Users.TakeOffMeaning | streaming_service.c:1101-1118 | take-off changes only suggestion lists: each loses one node with `mid` if it had one; ids, histories and lists without it are unchanged |
| Service.CleanSuggestedMovies | streaming_service.c:84-96 | the suggestion list ends empty |
| Service.CleanStack | streaming_service.c:99-110 | the watch stack ends empty |
| Service.LinkSuggestion | streaming_service.c:940-961 | one insertion of the loop is the step Step describes |
| Service.SuggestVisit | streaming_service.c:930-969 | one pass of the scan pops the visited user (unless the target) and links its info, matching Pass and Fold one position on |
| Service.UnlinkFromCategory | streaming_service.c:702-719 | one category scan with a trailing prev: found exactly when the list's search succeeds, and then that node is unlinked; otherwise the list is unchanged |
| Service.StreamingService.constructor | makefile_2/main.c:47-72 | init_structures: six empty category lists, an empty intake, a user list holding only the guard (uid -1); the order invariant `Sorted()` holds from the start |
| Service.StreamingService.UserListSearch | streaming_service.c:26-39 | found exactly when a user has the uid; the guard holds -1 again afterwards |
| Service.StreamingService.FindUserList | streaming_service.c:42-55 | returns the position of the first user with the uid or NULL; the guard holds -1 again |
| Service.StreamingService.UserListInsert | streaming_service.c:60-82 | -1 and an unchanged list for a taken uid; otherwise success with the list Registered gives; the uids stay distinct and the order invariant is kept |
| Service.StreamingService.DeleteUser | streaming_service.c:113-144 | the user list becomes the one Unregistered gives: no user has the uid afterwards, every other uid is registered exactly as before, and the order invariant is kept |
| Service.StreamingService.NewMoviesInsertSorted | streaming_service.c:153-196 | -1 and an unchanged intake for a repeated id, otherwise success with the new entry spliced in; the intake stays strictly ascending, so the order invariant is kept |
| Service.StreamingService.IntakeScan | streaming_service.c:154-161 | the scan with a trailing prev that both intake insertions start with stops at Slot, the first entry whose id is not below `mid`, and prev is the node before it |
| Service.StreamingService.NewMoviesInsertUnchecked | NewMoviesSLL.c:9-45 | always succeeds, splices the entry where the scan stops, and keeps a non-decreasing intake non-decreasing |
| Service.StreamingService.SplitList | streaming_service.c:236-259 | the intake ends empty, each category list gains that category's intake entries in intake order, and every category list stays ascending |
| Service.StreamingService.DrainIntake | streaming_service.c:243-258 | the loop of split_list: the intake ends empty and each category list gains that category's intake entries, in intake order, through insert_end and the cached tails |
| Service.StreamingService.CategoryArraySearch | streaming_service.c:297-306 | returns what CatalogLookup describes for the table, a node carrying `mid` when it finds one; with ascending lists, an id other than UINT_MAX is found exactly when some list holds it |
| Service.StreamingService.WatchMovie | streaming_service.c:859-887 | -1 and no change when the user or the movie is missing; otherwise the found info is pushed on that user's history and nothing else changes; under the order invariant, -1 exactly when the uid is unregistered, no list holds the id, or the id is UINT_MAX |
| Service.StreamingService.SuggestMovies | streaming_service.c:906-978 | -1 and no change for an unknown uid; otherwise every user up to the stopping point is popped (the target excepted) and the target's list becomes the closed form of the popped infos; the order invariant is kept |
| Service.StreamingService.SuggestScan | streaming_service.c:926-970 | the scan loop leaves the users as Pass says and returns the target's list as Fold says |
| Service.StreamingService.FilteredMovieSearch | streaming_service.c:994-1092 | -1 and no change for an unknown uid; otherwise the user's old suggestions stay a prefix, followed by the merged run, and nothing else changes; the merged run is non-decreasing by id and the order invariant is kept |
| Service.StreamingService.RemoveFromTable | streaming_service.c:697-725 | the table becomes the one TableAfterRemoval gives, and the category lists stay ascending |
| Service.StreamingService.TakeOffMovie | streaming_service.c:1101-1118 | every user's suggestion list loses its first node with `mid`, then the table loses the node from the first list holding it; the order invariant is kept |
| Scenarios.SameElementsSame | streaming_service.c:153-196 | two lists strictly increasing by the same key and holding the same elements are equal: an ordered list is fixed by its contents |
| Scenarios.AddMoviesMeaning | streaming_service.c:817-827 | a run of additions with fresh ids to an ascending intake gives an ascending intake holding exactly the old and the new entries |
| Scenarios.AddUncheckedFresh | NewMoviesSLL.c:9-45 | on fresh ids the variant without the duplicate check builds the same list as the checked insertion |
| Scenarios.TestDriverIntake | test_main.c:46-56 | the ten additions of the driver give the intake 3, 4, 10, 18, 25, 71, 123, 147, 235, 711 |
| Scenarios.DraftDriverIntake | NewMoviesSLL.c:60-73 | the six additions of that driver give the list 4, 10, 18, 147, 235, 711 |
| Scenarios.CategoryIs | streaming_service.c:236-259 | an ascending list holding exactly a category's intake infos is that category's list after the split |
| Scenarios.TestDriverTable | Stuff/Distribute.c:211-228 | after the split: SCIFI 25, 235; DRAMA 3, 4, 10, 18; ROMANCE 71, 711; COMEDY 123, 147; HORROR and DOCUMENTARY empty |
| Scenarios.TestDriverSearch | Stuff/Distribute.c:231-232 | the search for id 1 in that table finds nothing |
| Scenarios.UserDriver | UserSLL.c:76-84 | registrations 5, 10, 4, 4, 100 succeed except the second 4, and every new user goes first |
| Scenarios.TestDriverUsers | test_main.c:38-43 | after 5, 10 and 4, the registrations 100 and 3 succeed and give the order 3, 100, 4, 10, 5 |
| Scenarios.ContributionsOfFive | streaming_service.c:929-970 | a five-user scan takes the users' offers in list order |
| Scenarios.SuggestDriverFirst | test_main.c:62-71 | at the first suggest(100) the draft scan runs to the guard and takes 147 from user 3; user 100's list becomes 147 and every history is empty |
| Scenarios.SuggestDriverSecond | test_main.c:73-78 | at the second suggest(100), 711, 18, 4 and 71 are taken in list order, user 100's list becomes 71, 18, 147, 711, 4, and every watch history is left empty |

## Left out

- Printing. The `print_*` functions and the printing inside the event
  wrappers and `RemoveFromTable` are left out. They have no effect on the
  lists.
- The event-file reader and dispatcher in `makefile_2/main.c`, and
  `destroy_structures`. They are file I/O and teardown; only the initial
  state of `init_structures` is modelled.
- Allocation failure. `malloc` is taken to succeed, so the `-1` returns for
  a failed allocation (`Push`, `insert_end`, `InsertRight`, `InsertLeft`,
  `InsertDLLTail`, `UserListInsert`, `NewMoviesInsertSorted`) are not
  modelled. `free` is dropping a node. The node `UserListInsert` leaks on a
  repeated uid, and the node `watch`/`watch_movie` allocate but never use,
  have no observable effect.
- Pointers. The model has node positions, not node addresses. A second
  cursor into a suggestion list follows its node through `Shift` and
  `ShiftFollowsNode`. Aliasing between lists is not modelled: in the code
  every list owns its nodes.
- Service.StreamingService.SuggestScan: the target's list is written back
  once, after the scan, because the loop works on a local copy of the
  users. In the C code the target's list is updated in place during the
  scan. That is the same state, since the scan never reads the target's
  suggestions.
- Scenarios.SuggestDriverFirst: the users at each `suggest(100)` are given
  as the lists the watches before it leave (`FirstRound`, `SecondRound`).
  The watches' table searches are not replayed: `WatchMovie` states them
  in general.
- Scenarios.TestDriverTable: it is stated for the intake that driver
  builds, through `CategoryEntries`. `Distribute.c` adds 147 with year 1976
  rather than 2014; only the ids are the same there.
- `my_funcs.h` and `makefile_2/cleaning_functions.h` only declare
  functions. `CleanCategoryList` and `CleanNewMoviesList` are declared
  there but their bodies are not part of this model.
- Concurrency and reentrancy. The code is single-threaded.
