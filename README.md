# FlashC vocabulary store, forms and duration label, in Dafny

This project models the core of FlashC, a React Native flashcard app. Users add
English words with their Vietnamese meanings, edit and review them, and the app keeps
the list in a local key-value store. The model covers four parts:

- **The vocabulary provider** (`contexts/VocabularyContext.tsx`). The class
  `VocabularyContext.VocabularyStore` holds the provider's four pieces of state:
  the entry list, the sort option, the loading flag and the last error.
  - `AddWord` and `UpdateWord` reject a word that a stored entry already has, ignoring case.
  - `DeleteWord`, `ClearAll` and `MarkAsReviewed` rewrite the list.
  - `LoadVocabulary` reads the primary key and falls back to the backup key.
  - `SortedVocabulary` is the derived, stably sorted view.

  Every operation first clears the error. The new lists are built by pure functions in
  module `Vocabulary` (`Updated`, `Deleted`, `Reviewed`, `Load`). The lemmas beside them
  state what those functions keep: order, ids, and the uniqueness of words and ids.
- **The add-word form and the edit dialog** (`components/AddWordForm.tsx`,
  `components/EditWordModal.tsx`). These are the classes `AddWord.AddWordForm` and
  `EditWord.EditWordModal`. Each holds its fields word, meaning, errors and isSubmitting.
  Each validates through the shared rule `FormValidation.Validate` and calls the store's
  add or update.
- **The duration label** `formatTime` (`components/media/AudioRecorder.tsx`). It is the
  pure function `AudioRecorder.FormatTime`. Its decoder `DecodeTime` gives the round trip.
- **Helpers.** Module `Text` holds the ASCII `trim` and `toLowerCase`. Module `Decimal` holds
  the number-to-text conversion and `padStart`. Module `Sorting` holds a stable sort under a
  total preorder.

Inputs from outside the program are parameters:

- each reading of the clock (`Date.now()`) is an argument: `now` for a review, and for a new
  entry the two readings `idTime` (the id) and `createdAt`;
- the two stored strings are `Option<string>` values;
- `JSON.parse` is a partial function `parse: string -> Option<seq<Item>>`;
- `localeCompare` is a relation `localeLeq` that must be a total preorder.

Facts about the code that shape the model:

- **Duplicate check.** `addWord` and `updateWord` lowercase the raw input
  (VocabularyContext.tsx:87, :117) but store the trimmed word (:97, :128), and the forms pass
  the raw field text. So words stay unique ignoring case only when the input is already
  trimmed. `AddKeepsWordsUnique` proves this under that precondition.
  `UntrimmedAddBreaksUniqueness` shows that "hello " gets past a stored "hello".
- **Ids.** An id is the decimal text of `Date.now()` (:96), read separately from `createdAt`
  (:99). So ids are unique only when the clock has moved on (`LaterAddHasFreshId`). If two
  entries share an id, an update can make their words collide
  (`UpdateWithSharedIdBreaksUniqueness`).
- **Alphabetical order.** It uses `localeCompare` (:180), here the parameter `localeLeq`.
  The 'date' order does not use it.
- **Unparseable backup without a primary.** `JSON.parse` throws on the no-primary path
  (:57), so the catch block (:61-75) sets "Lỗi khi tải dữ liệu", the second parse of the
  backup throws too, and the list is left unchanged.

## Model

| member | source | states |
|---|---|---|
| `Vocabulary.IsDuplicate` | contexts/VocabularyContext.tsx:86-88 | true exactly when some stored word equals the raw input ignoring case |
| `Vocabulary.IsDuplicateOther` | contexts/VocabularyContext.tsx:116-118 | true exactly when an entry with a different id has the word, ignoring case |
| `Vocabulary.Updated` | contexts/VocabularyContext.tsx:125-131 | same length; entries with the id get the trimmed word and meaning and keep id, createdAt and lastReviewed; all other entries are unchanged |
| `Vocabulary.Deleted` | contexts/VocabularyContext.tsx:143 | no longer than the input; every survivor comes from the input and has a different id |
| `Vocabulary.Reviewed` | contexts/VocabularyContext.tsx:163-169 | same length; entries with the id get lastReviewed = now and keep id, word, meaning and createdAt; all other entries are unchanged |
| `Vocabulary.AddKeepsWordsUnique` | contexts/VocabularyContext.tsx:86-102 | appending an already-trimmed word that passed the check keeps words unique ignoring case |
| `Vocabulary.UntrimmedAddBreaksUniqueness` | contexts/VocabularyContext.tsx:86-98 | "hello " passes the check against a stored "hello" and is stored as a second "hello" |
| `Vocabulary.NewItem` | contexts/VocabularyContext.tsx:95-100 | the id is all digits and reads back as the first clock reading; word and meaning are trimmed; createdAt is the second reading; not yet reviewed |
| `Vocabulary.AddKeepsIdsUnique` | contexts/VocabularyContext.tsx:95-100 | appending keeps ids unique when no stored id is the decimal text of the id's clock reading |
| `Vocabulary.LaterAddHasFreshId` | contexts/VocabularyContext.tsx:96-99 | when every stored id is the text of a clock reading taken no later than its createdAt and before the new id's reading, the new id is fresh; with createdAt read no earlier than the id, the longer list keeps that shape |
| `Vocabulary.ResaveOwnWordIsNoDuplicate` | contexts/VocabularyContext.tsx:116-118 | with unique words, saving an entry under its own word (any case) passes the update check |
| `Vocabulary.UpdateKeepsWordsUnique` | contexts/VocabularyContext.tsx:116-131 | an accepted update of a trimmed word keeps words unique, given unique ids |
| `Vocabulary.UpdateWithSharedIdBreaksUniqueness` | contexts/VocabularyContext.tsx:125-131 | two entries sharing an id both take the new word, so words collide |
| `Vocabulary.UpdateUnknownId` | contexts/VocabularyContext.tsx:126-130 | an update whose id matches nothing leaves the list unchanged |
| `Vocabulary.DeleteKeepsOthers` | contexts/VocabularyContext.tsx:143 | every entry with another id survives the deletion |
| `Vocabulary.DeleteIdempotent` | contexts/VocabularyContext.tsx:143 | deleting twice equals deleting once |
| `Vocabulary.DeleteKeepsOrder` | contexts/VocabularyContext.tsx:143 | deletion distributes over concatenation, so survivors keep their relative order |
| `Vocabulary.DeleteUnknownId` | contexts/VocabularyContext.tsx:143 | deleting an absent id leaves the list unchanged |
| `Vocabulary.DeleteRemovesOne` | contexts/VocabularyContext.tsx:143 | when no other entry shares the id, deletion removes exactly that one entry |
| `Vocabulary.DeleteKeepsUniqueness` | contexts/VocabularyContext.tsx:143 | deletion keeps words and ids unique |
| `Vocabulary.ReviewKeepsUniqueness` | contexts/VocabularyContext.tsx:163-169 | marking as reviewed keeps words and ids unique |
| `Vocabulary.ViewOrder` | contexts/VocabularyContext.tsx:179-183 | 'alphabetical': a may precede b exactly when the locale comparison puts a.word no later than b.word; 'date': exactly when the comparator `b.createdAt - a.createdAt` is not positive |
| `Vocabulary.ViewOrderIsTotalPreorder` | contexts/VocabularyContext.tsx:179-183 | both view orders (by word, newest first) are total preorders when the locale comparison is one |
| `Vocabulary.Load` | contexts/VocabularyContext.tsx:44-79 | the list is kept or becomes a parsed blob; the recovery message appears only when the backup's parse was adopted; the error is none, the load error, or the recovery message |
| `Vocabulary.LoadPrimary` | contexts/VocabularyContext.tsx:49-52 | a non-empty primary that parses becomes the list, with no error |
| `Vocabulary.LoadWithoutPrimary` | contexts/VocabularyContext.tsx:53-60 | without a primary, a parseable backup becomes the list; with no backup the list is unchanged; an unparseable backup gives the load error |
| `Vocabulary.LoadCorruptPrimary` | contexts/VocabularyContext.tsx:61-75 | a corrupt primary gives the load error and keeps the list, or gives the backup's entries with the recovery message |
| `Vocabulary.LoadAfterSave` | contexts/VocabularyContext.tsx:19-23 | when parse undoes serialise, loading what the save wrote to both keys gives back the saved list with no error |
| `VocabularyContext.VocabularyStore.constructor` | contexts/VocabularyContext.tsx:12-15 | empty list, sort by date, loading, no error |
| `VocabularyContext.VocabularyStore.LoadVocabulary` | contexts/VocabularyContext.tsx:44-79 | the try/catch sequence yields the list and error of `Load`; loading is false afterwards |
| `VocabularyContext.VocabularyStore.AddWord` | contexts/VocabularyContext.tsx:81-109 | a duplicate returns false with "Từ này đã tồn tại" and an unchanged list; otherwise returns true, clears the error and appends `NewItem` for the two clock readings |
| `VocabularyContext.VocabularyStore.UpdateWord` | contexts/VocabularyContext.tsx:111-138 | a duplicate among the other entries returns false with the duplicate message and an unchanged list; otherwise returns true and the list becomes `Updated` |
| `VocabularyContext.VocabularyStore.DeleteWord` | contexts/VocabularyContext.tsx:140-148 | the list becomes `Deleted`; the error is cleared |
| `VocabularyContext.VocabularyStore.ClearAll` | contexts/VocabularyContext.tsx:150-158 | the list is empty and the error cleared, whatever it held |
| `VocabularyContext.VocabularyStore.MarkAsReviewed` | contexts/VocabularyContext.tsx:160-174 | the list becomes `Reviewed` at now; the error is cleared |
| `VocabularyContext.VocabularyStore.SetSortOption` | contexts/VocabularyContext.tsx:13 | only the sort option changes |
| `VocabularyContext.VocabularyStore.SortedVocabulary` | contexts/VocabularyContext.tsx:176-184 | same multiset as the stored list; 'alphabetical' is ascending by word under the locale comparison; otherwise descending by createdAt; entries with equal keys keep their stored order |
| `Sorting.Sort` | contexts/VocabularyContext.tsx:178-183 | the sorted copy has the same multiset as the list |
| `Sorting.SortSorted` | contexts/VocabularyContext.tsx:180-182 | the sort orders its result under any total preorder |
| `Sorting.SortStable` | contexts/VocabularyContext.tsx:180-182 | elements the comparison cannot tell apart keep their relative order |
| `Text.Trim` | contexts/VocabularyContext.tsx:97-98 | the result is the slice of the input between its leading and trailing white space; it is empty exactly when the input is all white space |
| `Text.TrimUnique` | contexts/VocabularyContext.tsx:97-98 | any slice with only white space around it and none at its ends is the trimmed string |
| `Text.TrimIdempotent` | contexts/VocabularyContext.tsx:97-98 | trimming a trimmed string changes nothing |
| `Text.TrimIgnoresTrailingSpace` | contexts/VocabularyContext.tsx:97 | a trailing space disappears when trimmed |
| `Text.ToLower` | contexts/VocabularyContext.tsx:87 | same length; each character is lowercased (ASCII) |
| `Decimal.NatToString` | contexts/VocabularyContext.tsx:96 | the text of a number is non-empty, all digits, with no leading zero |
| `Decimal.DigitsValueOfNatToString` | components/media/AudioRecorder.tsx:34 | reading the text of n gives back n |
| `Decimal.NatToStringInjective` | contexts/VocabularyContext.tsx:96 | two numbers have the same text exactly when they are equal |
| `Decimal.NatToStringBelow100` | components/media/AudioRecorder.tsx:32-34 | a number below 100 has at most two digits |
| `Decimal.PadStart` | components/media/AudioRecorder.tsx:34 | the result has length max(width, input length), ends with the input and is filled in front; the input is never cut |
| `Decimal.PaddedValue` | components/media/AudioRecorder.tsx:34 | zero-padding keeps the digits' value |
| `FormValidation.FieldError` | components/AddWordForm.tsx:23-33 | one field: the required message when it is all white space, the too-short message when it trims to one character, no message exactly when it trims to at least two |
| `FormValidation.Validate` | components/AddWordForm.tsx:20-36 | word error "Vui lòng nhập từ tiếng Anh" exactly when the word is all white space; "Từ phải có ít nhất 2 ký tự" exactly when it trims to one character; none exactly when it trims to at least two; the same for meaning, independently; no error recorded exactly when both trim to at least two |
| `FormValidation.CollectErrors` | components/EditWordModal.tsx:37-49 | field-by-field filling of a fresh record gives `Validate` |
| `AddWord.AddWordForm.constructor` | components/AddWordForm.tsx:13-16 | empty fields, no errors, not submitting |
| `AddWord.AddWordForm.ValidateForm` | components/AddWordForm.tsx:20-37 | errors is replaced by the fresh record; the result is true exactly when it holds no error |
| `AddWord.AddWordForm.HandleSubmit` | components/AddWordForm.tsx:39-58 | invalid: nothing else changes and the store is not called; valid: the store adds the raw fields; on success the fields and errors are reset, on failure they are kept; isSubmitting ends false |
| `AddWord.AddWordForm.ClearForm` | components/AddWordForm.tsx:60-64 | word, meaning and errors are reset |
| `EditWord.EditWordModal.constructor` | components/EditWordModal.tsx:21-24 | empty fields, no errors, not submitting |
| `EditWord.EditWordModal.LoadItem` | components/EditWordModal.tsx:28-34 | a supplied entry fills word and meaning and clears errors; no entry changes nothing |
| `EditWord.EditWordModal.ValidateForm` | components/EditWordModal.tsx:36-53 | errors is replaced by the fresh record; the result is true exactly when it holds no error |
| `EditWord.EditWordModal.HandleSubmit` | components/EditWordModal.tsx:55-72 | no entry or invalid fields: no store call and no close; otherwise the store updates the entry's id with the raw fields, the dialog closes exactly when that succeeds, and isSubmitting ends false |
| `EditWord.EditWordModal.HandleClose` | components/EditWordModal.tsx:74-77 | errors are cleared, then the dialog closes |
| `AudioRecorder.FormatTime` | components/media/AudioRecorder.tsx:29-35 | a colon three places from the end, digits everywhere else, and a minutes field of max(2, digits of the minutes) characters, so it is never cut |
| `AudioRecorder.FormatTimeRoundTrip` | components/media/AudioRecorder.tsx:30-34 | decoding the label gives floor(ms / 1000) = minutes * 60 + seconds, with seconds in 0..59 |
| `AudioRecorder.FormatTimeSameSecond` | components/media/AudioRecorder.tsx:30-34 | two durations get the same label exactly when they fall in the same whole second |
| `AudioRecorder.FormatTimeMonotone` | components/media/AudioRecorder.tsx:30-34 | a longer duration never decodes to fewer seconds |
| `AudioRecorder.FormatTimeExample` | __tests__/media/AudioRecorder.test.tsx:151-154 | 2500 ms reads "00:02" |

## Left out

- Debounced auto-save (contexts/VocabularyContext.tsx:18-30, 38-42). Writing to storage is timer-driven and asynchronous I/O. So is the "Lỗi khi lưu dữ liệu" error on a failed write. `LoadAfterSave` states only what a completed save means for the next load.
- Storage read failures: `AsyncStorage.getItem` rejecting. The two stored values are given as `Option<string>`, so a read that throws is not represented.
- `JSON.parse` and `JSON.stringify` are foreign calls. Parsing is the parameter `parse`. The round trip of serialising and parsing is a precondition of `LoadAfterSave`, not a proved fact. `parse` yields either an entry list or `None` (a throw). A blob that parses to something other than an entry array, such as "null" or "{}", is adopted by the code without an error (:51-52, :57-58); the model cannot express that value.
- The catch branches of addWord, updateWord, deleteWord, clearAll and markAsReviewed, with their generic error messages. Nothing in the in-memory model throws, so these branches cannot be reached. The same holds for the catch branches in the two forms' submit handlers.
- React state semantics: re-renders and stale closures. In the code the duplicate check reads the rendered `vocabulary` while the append uses the updater's `prev`. The model runs each operation atomically on the current state.
- `useVocabulary` and the context plumbing, and the `onChangeText` setters of the two text fields (plain assignments).
- `addWordWithMedia`, `updateWordWithMedia` and the `mediaFiles` field are declared in types/vocabulary.ts but not implemented by the provider.
- Alerts, haptics and console logging.
- Text.Trim and Text.ToLower cover ASCII only. JavaScript's `trim` also removes Unicode spaces, and `toLowerCase` maps non-ASCII letters. Lengths count characters, not UTF-16 code units.
- `localeCompare` is not defined here. It is the parameter `localeLeq`, required to be a total preorder when the view is sorted alphabetically.
- Numbers are unbounded integers. Creation and review times are `int`, clock readings and durations `nat`. Fractional, negative and NaN values are not modelled.
- utils/MediaCompression.ts, hooks/usePerformanceMonitor.ts, components/media/MediaImagePicker.tsx, the recording lifecycle in components/media/AudioRecorder.tsx, components/FlashCard.tsx, the UI components under components/ui, utils/ErrorBoundary.tsx and scripts/generate-icons.js. These are floating-point code, platform APIs, animation, presentation and file I/O.
