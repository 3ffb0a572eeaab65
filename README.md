# Bookmark collection model

A Dafny model of the bookmark manager in `app.js`. The manager keeps one
in-memory array of bookmark records and lets the page do the following:

- load the array from storage, adding the `isFavorite` flag to old records;
- add a validated, trimmed record;
- list the records through a search, category and favourites filter, then
  sort them by one of four orders;
- delete records after a confirmation;
- flip a record's favourite flag;
- edit a record through four prompts, where a blank title, url or category
  keeps the old value;
- export the array;
- import a JSON array of records, which are checked for required fields,
  have already-known ids dropped, are migrated, appended and counted.

Module layout:

- `Wrappers`: the `Option` type.
- `Seqs`: order-preserving `Filter`, subsequences and `Reverse`.
- `Text`: JavaScript `trim` (the ECMAScript white-space and line-terminator
  code points), ASCII lower-casing, substring search (`includes`), and
  code-point string order.
- `Records`: the record types, the `isFavorite` migration, export, and the
  position `find` returns.
- `Sorting`: a stable insertion sort over any strict weak order, as a
  function and as an in-place method on an array.
- `Query`: the list view's filter predicates and `sortBookmarks`.
- `Mutations`: delete, toggle, edit and add, as functions on the sequence.
- `Transfer`: the import verdict and the merge.
- `RawImport`: imported items whose description may be missing, and
  what the search does with them.
- `App`: the class `BookmarkApp`, whose field `bookmarks` is the array the
  page functions reassign or update. Each method states its new collection
  in terms of the old one, through the functions above.

Things the model takes as arguments:

- Storage, dialogs, the clock and id generation are outside the model.
  Their results arrive as arguments: the stored array (or `None`), the
  prompt answers (`None` for a cancelled prompt), the confirmation answers,
  the generated id, and the current time.
- Timestamps are integers, which stand for the ISO strings the source
  stores. Both orders compare them the way `new Date(..)` subtraction does.

Behaviour worth noting:

- delete removes every record with the id (app.js:162);
- add does not trim the category (app.js:49);
- edit replaces the description even when the answer is blank (app.js:200);
- an import drops only ids already in the collection, so duplicates inside
  one file are all appended (`Transfer.BatchDuplicatesKept`).

## Model

| member | source | states |
|---|---|---|
| Records.Migrate | app.js:27-30 | one record per stored record, in order; every field kept except the flag, where a missing flag becomes false and a present one is kept |
| Records.MigrateRecord | app.js:27-30 | the per-record step of the migration; characterised by Records.Migrate |
| Records.MigrateConcat | app.js:27-30 | migration distributes over concatenation |
| Records.Export | app.js:251 | export writes one stored record per record, each field unchanged and the flag present |
| Records.Stored | app.js:251 | a record as it is written out, flag present; characterised by Records.Export and Records.MigrateExport |
| Records.MigrateExport | app.js:22-37 | loading what was saved gives back the same collection |
| Records.FindIndex | app.js:171 | `None` exactly when no record has the id; otherwise the index of a record with the id and no earlier record has it |
| Records.FindIndexSameIds | app.js:171 | the found position depends only on the ids in the sequence |
| Seqs.Filter | app.js:95-109 | the result is no longer than the input, and everything in it comes from the input and satisfies the predicate |
| Seqs.FilterMembers | app.js:95-109 | a value is kept exactly when it is in the input and passes the predicate |
| Seqs.FilterIsSubsequence | app.js:95-109 | `filter` keeps input order: the result is a subsequence |
| Seqs.FilterCount | app.js:95-109 | each value occurs in the result as often as in the input if it passes, and never otherwise |
| Seqs.FilterConcat | app.js:95-109 | filtering distributes over concatenation |
| Seqs.FilterKeepsAll | app.js:162 | when every element passes, the result is the input |
| Seqs.FilterKeepsNone | app.js:162 | when no element passes, the result is empty |
| Seqs.Reverse | app.js:213-216 | the result has the same length, with index i holding the input's element n-1-i |
| Seqs.ReversePermutes | app.js:213-216 | reversing keeps the multiset |
| Text.IsWhitespace | app.js:47 | the code points `trim` removes: the ECMAScript white-space and line-terminator sets; gives Text.Trim its meaning |
| Text.TrimStart | app.js:47 | a suffix of the input, with only white space cut and no white space left at the start |
| Text.TrimEnd | app.js:47 | a prefix of the input, with only white space cut and no white space left at the end |
| Text.Trim | app.js:47-50 | a contiguous slice of the input, with white space on both sides of it and none at either of its ends |
| Text.TrimEmptyIff | app.js:53 | the trimmed string is empty exactly when every character is white space |
| Text.TrimIdempotent | app.js:47-50 | trimming twice is trimming once |
| Text.ToLower | app.js:89 | same length, no upper-case ASCII letter left, each character unchanged or shifted to lower case |
| Text.ToLowerIdempotent | app.js:89 | lowering twice is lowering once |
| Text.Includes | app.js:97-99 | `includes`; characterised by Text.IncludesIff |
| Text.IncludesIff | app.js:97-99 | `includes` holds exactly when the term occurs at some position |
| Text.IncludesFirstChar | app.js:97-99 | a non-empty term occurs only in a string holding its first character |
| Text.IncludesEmpty | app.js:97-99 | the empty term occurs in every string |
| Text.Less | app.js:218-220 | the order standing for `localeCompare(.., 'ko')`; characterised by the four Text.Less* lemmas and Text.LessStrictWeakOrder |
| Text.LessIrreflexive | app.js:218-220 | no string sorts before itself |
| Text.LessTransitive | app.js:218-220 | the string order is transitive |
| Text.LessTotal | app.js:218-220 | two different strings are ordered one way or the other |
| Text.LessAsymmetric | app.js:218-220 | the string order never holds both ways |
| Text.LessStrictWeakOrder | app.js:218-220 | the string comparator is asymmetric and its complement is transitive |
| Query.MatchesSearch | app.js:96-99 | the lower-cased title, url or description contains the term; characterised by Query.FilterBookmarksSpec |
| Query.MatchesCategory | app.js:101-102 | "전체" or the record's own category; characterised by Query.FilterBookmarksSpec |
| Query.MatchesFavorite | app.js:104-106 | mode "all", or mode "favorites" and a favourite; characterised by Query.FilterBookmarksSpec |
| Query.Matches | app.js:108 | the conjunction of the three tests; characterised by Query.FilterBookmarksSpec |
| Query.FilterBookmarks | app.js:95-109 | a record is listed exactly when it is in the collection and passes the three tests against the lower-cased search input |
| Query.FilterBookmarksSpec | app.js:95-109 | the list is a subsequence of the collection that keeps each record passing the search, category and favourites tests with full multiplicity and drops every other record |
| Query.EmptyQueryKeepsAll | app.js:96-106 | an empty search with the "전체" category and the "all" mode shows the whole collection |
| Query.SearchIgnoresTermCase | app.js:89-99 | lower-casing the search input first changes nothing |
| Query.SearchIsCaseInsensitiveExample | app.js:89-99 | "go docs" finds the record titled "Go Docs" |
| Query.ParseSortMethod | app.js:212-222 | no order is chosen exactly for the methods other than newest, oldest, title and category |
| Query.After | app.js:213-220 | the four comparators' "positive" outcome; characterised by Query.AfterStrictWeakOrder and Query.SortSpecProperties |
| Query.AfterStrictWeakOrder | app.js:213-220 | each of the four comparators is a strict weak order |
| Query.ComparatorIsStrictWeakOrder | app.js:213-220 | the comparator values meet the sort's precondition |
| Query.SortSpec | app.js:209-224 | the result of `sortBookmarks`; characterised by Query.SortSpecProperties and Query.NewestIsReversedOldest |
| Query.SortSpecProperties | app.js:209-224 | the sorted list is a permutation of its input; newest is non-increasing and oldest non-decreasing in creation time; title and category are non-decreasing; an unknown method returns the input; records that tie keep their input order |
| Query.ReversedOldestIsNewest | app.js:213-216 | an oldest-first order read backwards is newest-first |
| Query.DistinctTimesNoTies | app.js:213-216 | with distinct creation times, any two different records are ordered by newest |
| Query.NewestIsReversedOldest | app.js:213-216 | with distinct creation times, newest-first is exactly oldest-first reversed |
| Query.SortBookmarks | app.js:209-224 | the copy, sorted in place, equals the sort specification |
| Sorting.Insert | app.js:210-220 | inserting adds exactly one element |
| Sorting.InsertionSorted | app.js:210-220 | sorting keeps the length |
| Sorting.InsertPermutes | app.js:210-220 | inserting adds exactly the inserted element to the multiset |
| Sorting.InsertionSortedPermutes | app.js:210-220 | the sorted sequence is a permutation of the input |
| Sorting.InsertAt | app.js:210-220 | insertion places the element after the last element it does not precede |
| Sorting.InsertSorted | app.js:210-220 | inserting into a sorted sequence keeps it sorted |
| Sorting.InsertionSortedIsSorted | app.js:210-220 | the result is sorted under a strict weak order |
| Sorting.InsertStable | app.js:210-220 | inserting keeps the relative order of every tie class |
| Sorting.InsertionSortedStable | app.js:210-220 | the sort is stable: each tie class keeps its input order |
| Sorting.SortedSameHead | app.js:210-220 | two sorted permutations without ties start with the same element |
| Sorting.MultisetTail | app.js:210-220 | equal multisets with equal heads have equal tails |
| Sorting.SortedTail | app.js:210-220 | the tail of a sorted sequence is sorted |
| Sorting.TieFreeTail | app.js:210-220 | the tail of a tie-free sequence is tie-free |
| Sorting.SortedUnique | app.js:210-220 | without ties, a sorted permutation is unique |
| Sorting.InsertLast | app.js:210-220 | one insertion step on the array: the prefix becomes the insertion of the next element, and the rest of the array is untouched |
| Sorting.SortInPlace | app.js:210-220 | the array ends up holding the insertion sort of its old contents |
| Mutations.RemoveId | app.js:162 | delete's new collection; characterised by Mutations.RemoveIdSpec |
| Mutations.RemoveIdSpec | app.js:162 | deletion keeps input order, drops every record with the id, and keeps every other record with full multiplicity |
| Mutations.RemoveAbsentId | app.js:162 | deleting an unknown id changes nothing |
| Mutations.RemoveIdKeepsComplete | app.js:162 | deletion keeps every remaining record complete |
| Mutations.UpdateFirst | app.js:171-173 | updating the first record with the id keeps the length |
| Mutations.UpdateFirstAt | app.js:171-173 | when `find` finds nothing the sequence is unchanged; otherwise only the found position is replaced, by the update of its record |
| Mutations.Flip | app.js:173 | the flag is negated and nothing else changes |
| Mutations.ToggleFirst | app.js:170-177 | toggle's new collection; characterised by Mutations.ToggleFirstSpec and Mutations.ToggleTwice |
| Mutations.ToggleFirstSpec | app.js:170-177 | only the record `find` returns changes, and only its flag, which is negated |
| Mutations.ToggleTwice | app.js:170-177 | toggling twice restores the collection |
| Mutations.ToggleKeepsComplete | app.js:170-177 | toggling keeps every record complete |
| Mutations.KeepIfBlank | app.js:197-199 | the trimmed answer or the current value; characterised by Mutations.EditFieldRule |
| Mutations.EditRecord | app.js:197-201 | id, creation time and flag are kept; the update time is the new instant; the description is the trimmed answer |
| Mutations.EditFieldRule | app.js:197-199 | a field takes the trimmed answer when it has a non-blank character, and keeps its old value when the answer is blank |
| Mutations.EditWithCurrentValues | app.js:184-201 | accepting every pre-filled answer of a trimmed record changes only its update time |
| Mutations.EditKeepsComplete | app.js:197-199 | editing a complete record leaves it complete |
| Mutations.EditFirst | app.js:180-201 | edit's new collection; characterised by Mutations.EditFirstSpec |
| Mutations.EditFirstSpec | app.js:180-201 | an unknown id changes nothing; otherwise only the record `find` returns changes, as the edit rule says |
| Mutations.EditKeepsAllComplete | app.js:180-201 | editing keeps a complete collection complete |
| Mutations.AddAccepted | app.js:53 | the form check; characterised by Mutations.AddRejectedIff |
| Mutations.AddRejectedIff | app.js:47-56 | a record is refused exactly when the title or the url is blank, or the category is empty |
| Mutations.AddRejectsBlankTitle | app.js:47-56 | a title of white space only is refused |
| Mutations.NewBookmark | app.js:59-68 | the record add appends; characterised by Mutations.NewBookmarkSpec |
| Mutations.NewBookmarkSpec | app.js:59-68 | the new record has the given id, the category as given, a title, url and description with no white space left to trim, both times equal to the instant, no favourite flag, and all required fields once the form check passes |
| Mutations.AddKeepsComplete | app.js:53-71 | appending an accepted record keeps the collection complete |
| Transfer.AllHaveRequiredFields | app.js:302-304 | the `every` over the file's items; characterised by Transfer.ImportOutcomeOf |
| Transfer.HasRequiredFields | app.js:302-304 | id, title, url and category all non-empty; characterised by Transfer.ImportOutcomeOf and Transfer.MergeKeepsComplete |
| Transfer.ExistingIds | app.js:328 | the set holds exactly the ids of the collection |
| Transfer.ImportOutcomeOf | app.js:293-342 | each failure in the order checked; cancelled exactly when the file is valid, the collection is not empty and the user refuses; otherwise the imported count is the number of new items, and the two counts add up to the file's length |
| Transfer.NewItems | app.js:329 | the items whose ids are not yet in the collection; characterised by Transfer.MergeSpec |
| Transfer.Merge | app.js:328-337 | the collection after an import; characterised by Transfer.MergeSpec and Transfer.MergeKeepsExistingIds |
| Transfer.MergeSpec | app.js:328-337 | the old collection is a prefix of the merged one, the appended part is the migration of the items with unknown ids in file order, and no appended record has a known id |
| Transfer.MergeKeepsExistingIds | app.js:328-337 | for an id already present, the merged collection has the same records with that id as before |
| Transfer.MergeUniqueExistingIds | app.js:328-337 | an id held by at most one record before an import is held by at most one record after it |
| Transfer.BatchDuplicatesKept | app.js:328-337 | two items with the same new id in one file are both appended |
| Transfer.MergeKeepsComplete | app.js:302-304 | a merge of items that pass the required-field check keeps the collection complete |
| Transfer.ExportImportRoundTrip | app.js:251 | importing an export into an empty collection reports every record as imported with no duplicates, and rebuilds the collection |
| Transfer.ImportCountsExample | app.js:328-342 | one known id and one new id in a file give one imported and one duplicate |
| RawImport.PassesCheck | app.js:302-304 | the required-field check on a raw item; characterised by RawImport.ParsedItems and RawImport.CorrectedSearchIsTotal |
| RawImport.SearchAsWritten | app.js:97-99 | the search on an appended item as the code evaluates it: it throws exactly when the description is missing and neither title nor url contains the term |
| RawImport.AcceptedItemBreaksSearch | app.js:302-304 | an item without a description passes the check, and the search then throws for a term in neither title nor url, but not for the empty term |
| RawImport.ToStored | app.js:332-335 | the corrected reading: a missing description is empty, every other field as given |
| RawImport.ParsedItems | app.js:302-304 | the corrected item list, accepted by the check exactly when every raw item is |
| RawImport.CorrectedSearchIsTotal | app.js:97-99 | under the corrected reading the check is unchanged, the search agrees with the code wherever the code does not throw, and a missing description matches only the empty term |
| App.BookmarkApp.constructor | app.js:2 | the collection starts empty |
| App.BookmarkApp.LoadBookmarks | app.js:22-32 | with nothing stored the collection is kept; otherwise it becomes the migrated stored array |
| App.BookmarkApp.AddBookmark | app.js:46-71 | refused, with nothing changed, exactly when validation fails; otherwise exactly one new record, with the given id, trimmed fields and the current instant, is appended |
| App.BookmarkApp.DisplayBookmarks | app.js:88-112 | the list shown is the filtered collection sorted by the chosen method |
| App.BookmarkApp.DeleteBookmark | app.js:160-167 | unconfirmed, nothing changes; confirmed, every record with the id is removed |
| App.BookmarkApp.ToggleFavorite | app.js:170-177 | the collection becomes the toggle of the first record with the id |
| App.BookmarkApp.EditBookmark | app.js:180-206 | a cancelled prompt leaves the collection as it was; otherwise it becomes the edit of the first record with the id |
| App.BookmarkApp.ImportBookmarks | app.js:291-342 | the reported outcome is the import verdict; the collection becomes the merge exactly when the import goes ahead, and is unchanged otherwise |

## Left out

- The page is not modelled: the markup (`createBookmarkCard`),
  the count label, the alerts, the form reset and the event wiring. They
  only read the collection.
- The storage calls, JSON text, `FileReader`, `Blob` and the download link
  are outside the model. Their results are arguments: the stored array,
  or an `ImportInput` saying what reading and parsing produced. Its items
  are the file's items under the corrected reading of `RawImport.ParsedItems`.
- The export's empty-collection alert, its file name and the `.json`
  extension check on import only touch the page or the file system. They
  leave the collection as it is.
- A stored value that is not valid JSON, or not an array, is not modelled
  on load. Loading accepts only "nothing stored" or an array of records.
- Stored records are assumed to hold every text field as a string and both
  timestamps as numbers. Missing fields other than `isFavorite` and an
  imported `description`, and JSON values of other types, are not modelled.
  An imported item without a description is covered under "## Findings".
- Text.ToLower: only ASCII letters are lowered. Unicode case mapping has no
  counterpart here.
- Text.Less: `localeCompare(.., 'ko')` is modelled as code-point order, which
  differs from the browser's collation: here "Banana" sorts before "apple",
  and the browser sorts it after. The title and category orders in
  Query.SortSpecProperties, and the absence of ties between distinct titles
  (Text.LessTotal), hold for code-point order, not for the browser's order.
- Mutations.NewBookmark: the two clock reads of `addBookmark` count as one
  instant, and the id is passed in rather than derived from the clock.
- Records are values, so a record's identity is not modelled. `find`
  followed by assignment to the record is modelled as replacing the element
  at the index `find` returns. There are no aliases to that object, so this
  is the same thing.
- `Array.prototype.sort` is specified only by what a stable sort promises.
  The model uses an insertion sort, whose result is determined by the
  comparator, so it makes no claim about the engine's algorithm.

## Findings

| source | as written | input that shows it | evidently intended | confidence | as-written member | corrected member |
|---|---|---|---|---|---|---|
| app.js:97-99, 232, 302-304, 337-346 | the import check does not look at `description`, so an item without one is appended and saved (337-338). The search then lower-cases the missing description for every term in neither its title nor its url, and throws. If the search box already holds such a term when the import runs, the refresh at 339 throws, and the catch at 344-346 reports a file-read error after the merge was saved. Otherwise the import reports success, and the throw comes at the next such search, from the listener at 232, uncaught, and again at such a search after every reload | a file holding `{"id":"1","title":"Go","url":"https://go.dev","category":"dev"}`, then the search term "wiki" | a missing description reads as empty (or the check rejects the item), so the search is defined for every record | not executed; high | RawImport.SearchAsWritten, RawImport.AcceptedItemBreaksSearch | RawImport.ToStored, RawImport.ParsedItems, RawImport.CorrectedSearchIsTotal |
