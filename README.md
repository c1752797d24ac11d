# Athenaeum archive: a verified model of the catalogue core

This project models, in Dafny, the logic underneath the Athenaeum library
web application: the archive store that keeps the list of books in one
persisted slot, the public catalogue's discipline-and-search filter, the
archive management screen's search, sort and add/delete/attach handlers,
the sort helper exercised by the admin test suite with its expectations,
and the librarian chat's send/reply cycle.

`Types` and `Constants` model the shared context files, and
`Text` and `Seqs` model the JavaScript built-ins the core calls. `BookSort`
holds the admin table's comparator and sort, taken out of
components/AdminPanel.tsx (lines 137-147) because the test suite's sort
helper uses them too. `StorageService`, `AdminPanel`, `AdminPanelTest` and
`App` follow the core's source files one to one.

The modules:

- `Types` (`types.dfy`): the `Discipline` tags and the nine-field `Book` record.
- `Text` (`text.dfy`): the JavaScript string operations the core relies on:
  `toLowerCase`, `includes`, `trim`, `substr` and `localeCompare`.
- `Seqs` (`seqs.dfy`): `Array.prototype.filter`, the subsequence relation it
  produces, and reversal.
- `Constants` (`constants.dfy`): the four-book seed catalogue.
- `StorageService` (`storage_service.dfy`): the class `ArchiveStore` with
  `GetBooks`, `AddBook` and `DeleteBook`, which work over the field
  `slot: Option<seq<Book>>`.
- `BookSort` (`book_sort.dfy`): the admin comparator and the stable sort.
  The sort is written as a function on sequences, and `SortInPlace` is the
  in-place array algorithm proved equal to it.
- `AdminPanel` (`admin_panel.dfy`): the admin search, the cover fallback, the
  form reset, and the class `Panel` with the panel's state and handlers.
- `AdminPanelTest` (`admin_panel_test.dfy`): `getSortedBooks`, the mock
  archive, and each expectation of the test suite as a lemma.
- `App` (`app.dfy`): the public filter, and the class `LibrarianChat`.

Three behaviours of the code shape the contracts:

- Ids are not unique. An id is at most nine characters cut from a random number, and
  nothing checks it against the ids already stored. So no contract claims
  uniqueness, and `RemoveId` removes every record carrying the id.
- The admin sort offers exactly three fields (title, author, creation time).
  There is no category sort.
- The store seeds when the slot is absent or holds the empty string. Both
  are falsy. A slot holding an emptied list is kept as it is and not
  reseeded.

## Model

| member | source | states |
|---|---|---|
| Types.TagInjective | types.ts:2-10 | different disciplines carry different string tags |
| Types.MakeBook | services/storageService.ts:19-23 | the new record carries exactly the supplied seven data fields plus the given id and timestamp |
| Constants.InitialBooks | constants.tsx:18-63 | the seed catalogue has four records with pairwise distinct ids, each with a non-empty title, author and cover; SeedShape gives its ids, timestamps and file links |
| Constants.SeedShape | constants.tsx:18-63 | the seed has four records with ids "1" to "4", all stamped with the load time and with file link "#" |
| Text.Contains | App.tsx:29-31 | `includes`: the empty needle is always found, and a found needle is no longer than the string; ContainsIff characterises it |
| Text.ContainsIff | App.tsx:29-31 | `includes` holds iff the needle occurs at some offset |
| Text.ContainsEmpty | components/AdminPanel.tsx:133-134 | every string includes the empty string |
| Text.Lower | App.tsx:29-31 | `toLowerCase` keeps the length, leaves no upper-case letter, keeps every other character, and turns each upper-case letter into its lower-case partner |
| Text.LowerIdempotent | components/AdminPanel.tsx:133-134 | lowering twice is lowering once |
| Text.LowerFixedIff | App.tsx:29-31 | a string is its own lowering iff it holds no upper-case letter |
| Text.Trim | App.tsx:104 | `trim()` removes exactly the leading and trailing white space: the input is white space, then the result, then white space, and the result neither starts nor ends with white space |
| Text.IsBlank | App.tsx:104 | the test `!input.trim()` holds iff the input is entirely white space |
| Text.TrimEmptyIff | App.tsx:104 | `trim()` gives "" iff the input is entirely white space |
| Text.Substr | services/storageService.ts:21 | `substr(start, n)` is the text starting at `start`: exactly n characters when that many remain, otherwise all the rest, and empty when `start` is past the end |
| Text.StrCompare | components/AdminPanel.tsx:144 | the `localeCompare` stand-in answers -1, 0 or 1; StrCompareZeroIff, StrCompareAntisymmetric, StrCompareTransitive and StrCompareLessIff give its meaning |
| Text.StrCompareZeroIff | components/AdminPanel.tsx:144 | comparison is 0 iff the strings are equal |
| Text.StrCompareAntisymmetric | components/AdminPanel.tsx:144 | swapping the operands negates the result |
| Text.StrCompareTransitive | components/AdminPanel.tsx:144 | "before" is transitive |
| Text.StrCompareLessIff | components/AdminPanel.tsx:144 | a negative result means exactly lexicographically before: a proper prefix, or smaller at the first difference |
| Seqs.Filter | components/AdminPanel.tsx:132 | `filter` keeps exactly the passing elements, each as often as in the input, in input order |
| Seqs.FilterAppend | services/storageService.ts:24-31 | filtering distributes over concatenation |
| Seqs.FilterKeepsAll | App.tsx:27-33 | a list whose every element passes comes back unchanged |
| Seqs.FilterIdempotent | App.tsx:27-33 | filtering twice by one predicate is filtering once |
| Seqs.ReversePermutes | components/AdminPanel.tsx:146 | reversal keeps the multiset of elements |
| StorageService.GeneratedId | services/storageService.ts:21 | the generated id has at most nine characters, the ones after the leading "0." |
| StorageService.RemoveId | services/storageService.ts:31 | no record with the id remains; every other record stays as often as before and in order |
| StorageService.RemoveAbsentId | services/storageService.ts:29-32 | deleting an id that is not stored leaves the list unchanged |
| StorageService.RemoveIdIdempotent | services/storageService.ts:29-32 | deleting the same id twice equals deleting it once |
| StorageService.RemoveUndoesAdd | services/storageService.ts:24-31 | deleting the id of a just-prepended record with a fresh id restores the previous list |
| StorageService.ArchiveStore.GetBooks | services/storageService.ts:8-15 | an absent slot is seeded with the seed catalogue, which is returned; a present slot is returned unchanged and not written |
| StorageService.ArchiveStore.AddBook | services/storageService.ts:17-27 | the record carries the data, the generated id (at most nine characters) and `now`; the slot becomes that record in front of the list read; a later read returns exactly that list |
| StorageService.ArchiveStore.DeleteBook | services/storageService.ts:29-33 | the slot becomes the list read with that id removed; a later read returns exactly that list |
| BookSort.Compare | components/AdminPanel.tsx:137-147 | the comparator is 0 exactly when the two records share the sorted field's value |
| BookSort.CompareMeaning | components/AdminPanel.tsx:139-146 | "sorts before" means an earlier `createdAt`, or lexicographically earlier title or author, reversed for descending |
| BookSort.CompareAntisymmetric | components/AdminPanel.tsx:146 | descending is the exact negation of ascending, and swapping the records negates the result |
| BookSort.CompareTransitive | components/AdminPanel.tsx:137-147 | the comparator's "before" is transitive |
| BookSort.Insert | components/AdminPanel.tsx:137 | one insertion step of the sort grows the list by exactly one; InsertPermutes, InsertSorted and InsertStable characterise it |
| BookSort.InsertPermutes | components/AdminPanel.tsx:137 | one insertion step adds the element and loses nothing |
| BookSort.SortBy | components/AdminPanel.tsx:137 | `filtered.sort(comparator)` as a function: the output has the input's length; SortBySorted, SortByPermutes, SortByStable and StableSortIsUnique characterise it |
| BookSort.SortByPermutes | components/AdminPanel.tsx:137 | the sort is a permutation of its input |
| BookSort.InsertSorted | components/AdminPanel.tsx:137 | inserting into an ordered list keeps it ordered |
| BookSort.SortBySorted | components/AdminPanel.tsx:137-147 | every adjacent pair of the output is in order under the comparator |
| BookSort.InsertStable | components/AdminPanel.tsx:137 | insertion keeps the records sharing one key value in their relative order |
| BookSort.SortByStable | components/AdminPanel.tsx:137 | the sort is stable: the records sharing any key value come out in input order |
| BookSort.AllTiesKeepOrder | components/AdminPanel.tsx:137 | when every key is equal the sort returns its input unchanged |
| BookSort.SortByDistinct | components/AdminPanel.tsx:137 | the sort keeps keys pairwise distinct |
| BookSort.StrictlyOrderedUnique | components/AdminPanel.tsx:137-147 | two strictly ordered arrangements of the same records are equal |
| BookSort.SortByIsUniqueArrangement | components/AdminPanel.tsx:137-147 | with distinct keys, the sort's output is the one strictly ordered arrangement of its input |
| BookSort.CompareReadsKeyOnly | components/AdminPanel.tsx:139-146 | records sharing the sorted field's value compare alike against any record |
| BookSort.CompareAtMostTransitive | components/AdminPanel.tsx:137-147 | "not after" under the comparator is transitive |
| BookSort.SortedHeadFirst | components/AdminPanel.tsx:137 | in an ordered list the head is not after any later record |
| BookSort.SortedSameKeyClassesEqual | components/AdminPanel.tsx:137-147 | two ordered lists that list every key value's records in the same order are equal |
| BookSort.StableSortIsUnique | components/AdminPanel.tsx:137-147 | every ordered list that keeps each key value's records in input order is the sort's output, ties included |
| BookSort.DescendingReversesAscending | components/AdminPanel.tsx:146 | with distinct keys, the descending output is the reverse of the ascending output |
| BookSort.InsertAt | components/AdminPanel.tsx:137 | one in-place pass leaves the prefix through index i equal to the insertion of a[i] into the prefix before it, and leaves the rest of the array untouched |
| BookSort.SortInPlace | components/AdminPanel.tsx:137 | the in-place sort leaves the array holding exactly the stable sort of its old contents |
| AdminPanel.AdminMatches | components/AdminPanel.tsx:132-135 | the admin search predicate: an empty term matches every record, and a matching term is no longer than the title or the author; AdminMatchesIff characterises it |
| AdminPanel.AdminFilter | components/AdminPanel.tsx:132-135 | the admin list is the in-order subsequence of matching records, each as often as stored |
| AdminPanel.AdminSearchIgnoresCase | components/AdminPanel.tsx:133-134 | lowering the term, or a record's title and author, never changes whether the record matches |
| AdminPanel.AdminMatchesIff | components/AdminPanel.tsx:133-134 | a record matches iff the lowercased term occurs in its lowercased title or author |
| AdminPanel.AdminIgnoresDiscipline | components/AdminPanel.tsx:132-135 | the discipline never affects the admin search |
| AdminPanel.AdminEmptyTermKeepsAll | components/AdminPanel.tsx:132-135 | an empty term keeps every record, in order |
| AdminPanel.FinalCover | components/AdminPanel.tsx:66-72 | the cover is never empty: the provided one, else the generated one, else the placeholder |
| AdminPanel.Panel.constructor | components/AdminPanel.tsx:29-47 | the panel loads the list through the store read and starts with an empty search, newest first, closed form, empty form |
| AdminPanel.Panel.SortedBooks | components/AdminPanel.tsx:131-148 | the table is the stable sort of the admin filter; it is an ordered permutation of the filtered list, and the panel's list is not reordered |
| AdminPanel.Panel.HandleDelete | components/AdminPanel.tsx:49-59 | a confirmed delete removes the id from the store and reloads the list; an unconfirmed one changes nothing |
| AdminPanel.Panel.HandleAdd | components/AdminPanel.tsx:61-97 | the record is the form with a non-empty chosen cover; it is prepended in the store; the list is reloaded; the form is closed and reset to empty fields, Esoteric and "#" |
| AdminPanel.Panel.HandlePdfUpload | components/AdminPanel.tsx:110-124 | a non-PDF file is refused and changes nothing; a PDF sets the file name and the form's file link; no file changes nothing |
| AdminPanelTest.GetSortedBooks | AdminPanel.test.ts:48-58 | the result is the stable sort of the argument, an ordered permutation of it, and the argument is not modified |
| AdminPanelTest.MockKeysDistinct | AdminPanel.test.ts:11-45 | the mock records have distinct titles, authors and timestamps |
| AdminPanelTest.MockArrangement | AdminPanel.test.ts:48-58 | on the mock archive the sort yields the strictly ordered rearrangement |
| AdminPanelTest.TitleAscending | AdminPanel.test.ts:63-67 | title ascending puts "Alchemy and Art" first and "Zeno's Paradoxes" last |
| AdminPanelTest.TitleDescending | AdminPanel.test.ts:69-73 | title descending puts "Zeno's Paradoxes" first and "Alchemy and Art" last |
| AdminPanelTest.AuthorAscending | AdminPanel.test.ts:75-78 | author ascending puts "Darwin" first |
| AdminPanelTest.DateAscending | AdminPanel.test.ts:80-84 | date ascending puts 1000 first and 3000 last |
| AdminPanelTest.DateDescending | AdminPanel.test.ts:86-89 | date descending puts 3000 first |
| AdminPanelTest.EmptyArchive | AdminPanel.test.ts:91-94 | sorting an empty archive yields an empty list |
| AdminPanelTest.SeedBooksKeepOrder | constants.tsx:18-63 | the seed catalogue, with equal timestamps throughout, keeps its order under a date sort in either direction |
| App.MatchesFilter | App.tsx:28 | "All" passes every record; a selected discipline passes a record iff the two discipline strings are equal |
| App.MatchesSearch | App.tsx:29-31 | an empty search passes every record, and a passing search is no longer than the title, the author or the discipline tag; MatchesSearchIff characterises it |
| App.FilteredBooks | App.tsx:26-34 | the public list is the in-order subsequence of records passing selector and search; with a discipline selected every record has it |
| App.SearchIgnoresCase | App.tsx:29-31 | lowering the query, or a record's title and author, never changes whether the record passes |
| App.MatchesSearchIff | App.tsx:29-31 | a record passes the search iff the lowercased query occurs in its lowercased title, author or discipline tag |
| App.AllWithEmptySearchIsIdentity | App.tsx:27-33 | "All" with an empty search returns the archive unchanged |
| App.FilterTwiceIsFilterOnce | App.tsx:27-33 | filtering again with the same selector and search changes nothing |
| App.LibrarianChat.constructor | App.tsx:99-101 | the chat starts with no messages, empty input and nothing pending |
| App.LibrarianChat.SetInput | App.tsx:157 | typing replaces the input and touches nothing else |
| App.LibrarianChat.HandleSend | App.tsx:103-110 | blank input or a pending reply changes nothing; otherwise exactly one user message with the untrimmed input is appended, the input is cleared and a reply becomes pending |
| App.LibrarianChat.ReceiveReply | App.tsx:111-113 | exactly one librarian message is appended and the pending flag is cleared; questions and answers keep alternating |
| App.PendingReplyFollowsQuestion | App.tsx:103-114 | while a reply is pending, the last message is the user's question |

## Left out

- JSON encoding and `localStorage`. The slot holds the list itself, so
  stringify and parse are the identity. A corrupt blob makes the parse
  throw, and that failure path is not modelled.
- `getBooks` on an absent slot returns the `INITIAL_BOOKS` array object
  itself. Here lists are values, so aliasing of that array is not captured.
- `Math.random` and `Date.now` are not modelled. Each becomes a parameter:
  `randomBase36` is the base-36 text of the random number, and `now` is the
  clock reading.
- Constants.InitialBooks: the four `Date.now()` calls of the seed are taken
  as one reading, `loadTime`. Two of those calls falling on different
  milliseconds is not modelled.
- `localeCompare` is modelled as lexicographic order on character codes,
  with no locale collation.
- `toLowerCase` maps ASCII letters only. There is no Unicode case mapping.
- BookSort.TextKey: the `|| ''` fallback on a missing title or author never
  applies, because a record here always has both strings.
- `Array.prototype.sort` is modelled as a stable insertion sort. Any stable
  sort gives the same output under this comparator (`StableSortIsUnique`),
  so the choice of algorithm is not observable.
- `geminiService` is not modelled. Its image and recommendation calls are
  replaced by their answers, passed as parameters (`generated`, `response`).
  Prompts and model names are not modelled.
- AdminPanel.Panel.HandleAdd: accepts any form. The browser's `required`
  check on the title and author inputs (components/AdminPanel.tsx:192,201),
  which keeps `handleAdd` from running with either empty, is not modelled.
- AdminPanel.Panel.HandleAdd: the service is asked for a cover only when
  none was provided. The model receives an answer either way and ignores it
  in that case.
- The `isGenerating` flag is not modelled.
- The `try`/`catch` branches with `alert` in `handleAdd` and `handleDelete`
  are not modelled. The store here cannot fail.
- `window.confirm` is not modelled. Its answer is the parameter `confirmed`.
- `FileReader`: the data URL it produces later is applied at once, as the
  parameter `dataUrl`.
- `handleImageUpload`, `removeImage`, the PDF remove button and the plain
  state setters are not modelled. These setters are the search box, the
  sort buttons, the form fields and the add-form toggle.
- The two-second polling of the store and races between browser tabs are
  timers and concurrency, and are not modelled.
- `useState(getBooks())` is re-evaluated on every render. That
  re-evaluation is not modelled.
- The Council screen and its epiphany ledger are not part of this model.
  The store functions that screen calls do not exist in
  `services/storageService.ts`.
- Rendering, routing, styling and scrolling are not modelled, nor the header,
  hero, book card and logo components.
- The chat's open/closed toggle is not modelled. The catalogue the chat
  passes to the recommendation call is not modelled either.
