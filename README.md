# Expense tracker: a Dafny model of its record logic

This project models the record-keeping core of a small personal expense
tracker (a React application). It covers six parts:

- **The expense record** and the two closed lists offered by the form: 14
  categories and 6 payment methods.
- **The entry form's field normalisers:**
  - the amount filter keeps digits and one comma;
  - the amount blur forces exactly two decimals;
  - the date filter keeps digits and slashes and caps the segments;
  - the date blur zero-pads the day and the month;
  - the form's default values and the submit step, which turn the texts back into a draft.
- **The `useExpenses` view model:** the in-memory `expenses` list and the
  `loading` flag over a store that may fail. Add, update and delete write to
  the store, then reload the whole list. Update skips silently when the id is
  not in the list. It merges the edit over the existing record.
- **The list's derivations:** the total, the stable newest-first display
  order, the export guard and each row's edit and delete actions.
- **The CSV export text:** the header, one `;`-joined row per record with no
  escaping, and the file name.
- **The page's add-versus-edit state:** `showForm`, `editingExpense` and
  `isListening`.

Units and conventions:

- Amounts are integer cents.
- The transaction date, `createdAt` and `updatedAt` are integer timestamps.
- The locale formatters, `new Date(y, m - 1, d)`, the clock and the UUID
  generator are parameters.
- Store failures are boolean oracle parameters.
- Text is `seq<char>`.
- The JavaScript string operations the source relies on are written out in
  module `Strings`: `split` (which always yields at least one piece), `join`,
  a one-character `replace` (first occurrence only) and `padStart`.

Modules, one per source file:

- `ExpenseTypes`: src/types/expense.ts.
- `ExpenseForm`: src/components/ExpenseForm.tsx.
- `UseExpenses`: src/hooks/useExpenses.ts. It is imperative: the class
  `ExpensesHook` holds `expenses` and `loading`.
- `ExpenseStore`: the store the hook calls. Its source is not part of this
  model.
- `ExpenseList`: src/components/ExpenseList.tsx.
- `Csv`: src/utils/csv.ts.
- `IndexPage`: src/pages/Index.tsx. The class `Page` holds the page state.

The date `onChange` handler overwrites entries of its segment array in
place. `ExpenseForm.CapInPlace` does the same on a Dafny array, and
`ExpenseForm.FilterDateInput`, which calls it, is proved equal to the
function `ExpenseForm.FilteredDate`.

Three behaviours of the code that the model keeps as they are:

- The record type does not enforce that `category` and `paymentMethod`
  belong to their lists (`ExpenseTypes.RecordAdmitsUnlistedNames`).
  `HandleSubmit` passes whatever text the form holds.
- A mutation whose write succeeded but whose reload failed still reports
  success, and leaves `expenses` stale. So `expenses` equals the store's
  contents only when both steps succeeded.
- Nothing relates `createdAt` to `updatedAt`: both come from the clock.

## Model

| member | source | states |
|---|---|---|
| ExpenseTypes.CategoriesAreDistinct | src/types/expense.ts:12-27 | the category list has exactly 14 entries, pairwise distinct |
| ExpenseTypes.PaymentMethodsAreDistinct | src/types/expense.ts:29-36 | the payment-method list has exactly 6 entries, pairwise distinct |
| ExpenseTypes.RecordAdmitsUnlistedNames | src/types/expense.ts:1-10 | a record may carry a category and a payment method outside the two lists: the record type stores plain strings |
| ExpenseForm.FilterAmountOutput | src/components/ExpenseForm.tsx:89-96 | of `FilterAmount`, the amount `onChange` handler: the filtered amount holds only digits and commas, with at most one comma, and holds a comma exactly when the input does; removing its commas gives exactly the input's digits in order; its integer part is the digits before the input's first comma |
| ExpenseForm.FilterAmountIdempotent | src/components/ExpenseForm.tsx:89-96 | filtering an already filtered amount changes nothing |
| ExpenseForm.BlurAmountTwoDecimals | src/components/ExpenseForm.tsx:98-112 | of `BlurAmount`, the amount `onBlur` handler: on a text with at most one comma, blur keeps the integer part and yields one comma followed by the first two decimals, padded with '0' |
| ExpenseForm.BlurOfNormalAmount | src/components/ExpenseForm.tsx:98-112 | a text already of the form "int,dd" is left unchanged by blur |
| ExpenseForm.BlurAmountIdempotent | src/components/ExpenseForm.tsx:98-112 | blurring twice gives what blurring once gave, for every text |
| ExpenseForm.FilterThenBlurAmount | src/components/ExpenseForm.tsx:89-112 | a filtered then blurred amount is a digit string, one comma and exactly two digits |
| ExpenseForm.ReadNormalAmount | src/components/ExpenseForm.tsx:60 | of `ReadAmount` (replace the first comma, then `ParseFloatCents`): submit reads "int,dd" as int + dd/100, that is int * 100 + dd cents |
| ExpenseForm.ReadNegativeAmount | src/components/ExpenseForm.tsx:60 | submit reads "-int,dd" as the amount c whose magnitude int * 100 + dd is -c |
| ExpenseForm.FixedTwoShape | src/components/ExpenseForm.tsx:39-41 | of `FixedTwo`: `toFixed(2)` of a non-negative cent amount is digits worth its whole units, '.', and two digits worth its cents |
| ExpenseForm.FixedTwoWithComma | src/components/ExpenseForm.tsx:39-41 | with the first '.' replaced by a comma, `toFixed(2)` of a non-negative amount is "int,dd" whose value is the amount |
| ExpenseForm.FixedTwoNegativeWithComma | src/components/ExpenseForm.tsx:39-41 | with the first '.' replaced by a comma, `toFixed(2)` of a negative amount is "-int,dd" whose value is minus the amount |
| ExpenseForm.EditedAmountNonNegative | src/components/ExpenseForm.tsx:39-41 | the text a non-negative amount is edited with reads back as that amount |
| ExpenseForm.EditedAmountNegative | src/components/ExpenseForm.tsx:39-41 | the text a negative amount is edited with reads back as that amount |
| ExpenseForm.EditedAmountNonNegativeBlurred | src/components/ExpenseForm.tsx:39-41 | the text a non-negative amount is edited with is unchanged by blur |
| ExpenseForm.EditedAmountNegativeBlurred | src/components/ExpenseForm.tsx:39-41 | the text a negative amount is edited with is unchanged by blur |
| ExpenseForm.DefaultNewAmount | src/components/ExpenseForm.tsx:41 | a new entry's "0,00" reads as 0 |
| ExpenseForm.DefaultNewAmountBlurred | src/components/ExpenseForm.tsx:41 | a new entry's "0,00" is unchanged by blur |
| ExpenseForm.DefaultAmountReadsBack | src/components/ExpenseForm.tsx:39-41 | of `DefaultAmountText`: the default amount text of a record read back gives its amount; for a new entry it reads as 0; blur leaves the text unchanged |
| ExpenseForm.DefaultValues | src/components/ExpenseForm.tsx:35-48 | a new entry starts with empty texts, "0,00" and today's formatted date; an edit starts with the record's description, category, payment method, formatted date and amount text |
| ExpenseForm.Capped | src/components/ExpenseForm.tsx:136-140 | a capped segment is a prefix of the segment: cut to the cap of its position when longer than it, otherwise kept whole |
| ExpenseForm.CapSegments | src/components/ExpenseForm.tsx:136-140 | segment i is capped with the cap of position i: 2, 2, 4, none after |
| ExpenseForm.NonEmpty | src/components/ExpenseForm.tsx:141 | `filter(Boolean)`: every kept segment is non-empty and drawn from the input, and every non-empty segment of the input is kept |
| ExpenseForm.NonEmptyAppend | src/components/ExpenseForm.tsx:141 | `filter(Boolean)` of two lists put together keeps what it keeps of the first, then what it keeps of the second, so the kept segments are in input order |
| ExpenseForm.NonEmptyDropsEmpty | src/components/ExpenseForm.tsx:141 | a list of empty segments is filtered to nothing |
| ExpenseForm.RawSegments | src/components/ExpenseForm.tsx:133-134 | after the character filter, at least one segment exists and every segment is all digits |
| ExpenseForm.FilterDateInput | src/components/ExpenseForm.tsx:131-142 | splitting, capping the segment array in place, dropping empty segments and joining gives `FilteredDate(raw)` |
| ExpenseForm.CapInPlace | src/components/ExpenseForm.tsx:136-140 | the array afterwards holds each segment capped by its position (2, 2, 4, none after), and nothing else changes |
| ExpenseForm.FilteredDateOutput | src/components/ExpenseForm.tsx:131-142 | of `FilteredDate`, the date `onChange` handler: the filtered date holds only digits and '/'; it has no empty segment, so no leading, trailing or doubled '/'; its segments are the capped non-empty input segments, and it is empty exactly when there are none |
| ExpenseForm.FilteredDateCaps | src/components/ExpenseForm.tsx:136-141 | when none of the first three raw segments is empty, the output's day and month have at most 2 characters and its year at most 4 |
| ExpenseForm.FilteredDateShiftsSegments | src/components/ExpenseForm.tsx:136-141 | as written, "d//y" with a 3- or 4-digit year becomes "d/y", whose second segment exceeds 2 characters; filtering again truncates it |
| ExpenseForm.FilteredDoubleSlash | src/components/ExpenseForm.tsx:131-142 | "d//y" with a day of 1-2 digits and a year of 1-4 digits is filtered to "d/y" |
| ExpenseForm.FilteredSingleSlash | src/components/ExpenseForm.tsx:131-142 | "d/y" with a year of more than 2 digits is filtered to "d/" and the year's first two digits |
| ExpenseForm.LeadingSegmentsCapped | src/components/ExpenseForm.tsx:136-141 | when the first three segments are non-empty, the kept segments start with the capped day, month and year |
| ExpenseForm.FilteredDateShiftExample | src/components/ExpenseForm.tsx:136-141 | "1//2345" is filtered to "1/2345", and "1/2345" to "1/23" |
| ExpenseForm.FilteredDateIntendedCaps | src/components/ExpenseForm.tsx:131-142 | with the caps applied to the kept segments, every output segment is non-empty and within its cap, for every input |
| ExpenseForm.FilteredDateIntendedIdempotent | src/components/ExpenseForm.tsx:131-142 | with the caps applied to the kept segments, filtering is idempotent |
| ExpenseForm.JoinDateSegments | src/components/ExpenseForm.tsx:141 | joining non-empty digit segments with '/' gives a text that splits back into exactly those segments |
| ExpenseForm.CappedTwice | src/components/ExpenseForm.tsx:136-140 | capping twice by position is capping once |
| ExpenseForm.BlurDateSegments | src/components/ExpenseForm.tsx:143-149 | of `BlurDate`, the date `onBlur` handler: blur gives three segments: day and month left-padded with '0' to at least 2 characters (an absent month stays empty), then the year verbatim, or "undefined" with fewer than three segments |
| ExpenseForm.BlurDateKeepsPadded | src/components/ExpenseForm.tsx:143-149 | a three-segment date whose day and month already have two or more characters is unchanged by blur |
| ExpenseForm.BlurDateIdempotent | src/components/ExpenseForm.tsx:143-149 | once the text has a month segment, blurring twice is blurring once |
| ExpenseForm.SplitNormalDate | src/components/ExpenseForm.tsx:52 | "d/m/y" with digit segments destructures into exactly d, m and y |
| ExpenseForm.SubmittedNormalDate | src/components/ExpenseForm.tsx:52-57 | a "d/m/y" text of digits is submitted as the local date (y, m - 1, d) |
| ExpenseForm.SubmitReadsFields | src/components/ExpenseForm.tsx:50-68 | of `HandleSubmit`: submit yields a draft exactly when both the amount and the date read as numbers; the draft carries those values and the typed texts; `updatedAt` is now when editing and absent otherwise |
| ExpenseForm.SubmitUntouchedEdit | src/components/ExpenseForm.tsx:50-68 | submitting an edit with the default amount text keeps the record's amount, description, category and payment method, and sets `updatedAt` to now |
| ExpenseStore.DistinctIdsCount | src/hooks/useExpenses.ts:13-14 | records with pairwise distinct ids have as many ids as records |
| ExpenseStore.ListingLength | src/hooks/useExpenses.ts:13-14 | a listing of the store holds one record per stored id |
| ExpenseStore.ListingsAgree | src/hooks/useExpenses.ts:13-14 | two listings of the same store hold the same records, and the same number of them |
| ExpenseStore.Store.GetAll | src/hooks/useExpenses.ts:13 | fails exactly when the oracle says so; otherwise returns every stored record once, in some order; the records are unchanged |
| ExpenseStore.Store.Insert | src/hooks/useExpenses.ts:35 | files the record under its fresh id, or fails and changes nothing |
| ExpenseStore.Store.Update | src/hooks/useExpenses.ts:63 | replaces the record under `e.id`; fails and changes nothing if the write fails or the id is not stored |
| ExpenseStore.Store.Delete | src/hooks/useExpenses.ts:82 | removes the id, present or not, or fails and changes nothing |
| UseExpenses.FindById | src/hooks/useExpenses.ts:54-55 | none exactly when no record has the id; otherwise the first record carrying it |
| UseExpenses.FindInListing | src/hooks/useExpenses.ts:54-55 | in a freshly loaded list, the lookup finds exactly the stored record under the id, or nothing if the store has none |
| UseExpenses.NewRecord | src/hooks/useExpenses.ts:29-33 | the new record carries the draft's fields, the fresh id and the creation instant |
| UseExpenses.Merge | src/hooks/useExpenses.ts:57-61 | the merged record has the given id, the existing `createdAt`, the draft's fields, and `updatedAt` = now, which overrides the draft's |
| UseExpenses.MergeIdempotent | src/hooks/useExpenses.ts:57-61 | merging the same edit twice gives what merging it once gave |
| UseExpenses.MergeKeepsOnlyCreatedAt | src/hooks/useExpenses.ts:57-61 | of the existing record, only `createdAt` affects the result |
| UseExpenses.MergeOfFound | src/hooks/useExpenses.ts:54-61 | editing a record found by its id keeps that record's id and `createdAt` |
| UseExpenses.ExpensesHook.constructor | src/hooks/useExpenses.ts:7-8 | the list starts empty and `loading` starts true |
| UseExpenses.ExpensesHook.LoadExpenses | src/hooks/useExpenses.ts:11-25 | on success the list becomes a listing of the store; on failure it is unchanged; `loading` is false either way; the store is unchanged |
| UseExpenses.ExpensesHook.AddExpense | src/hooks/useExpenses.ts:27-50 | inserts `NewRecord`; reloads only if the insert succeeded; reports success whenever the insert succeeded, even if the reload failed; on a failed insert nothing changes |
| UseExpenses.ExpensesHook.UpdateExpense | src/hooks/useExpenses.ts:52-78 | an id absent from the in-memory list is skipped with no store call and no change; otherwise writes the merge; reloads only after a successful write; a failed write changes nothing |
| UseExpenses.ExpensesHook.DeleteExpense | src/hooks/useExpenses.ts:80-97 | issues the store delete whether or not the id is listed; reloads only after success; a failed delete changes nothing |
| ExpenseList.TotalCons | src/components/ExpenseList.tsx:21 | the left-fold total adds the first entry's amount like any other |
| ExpenseList.TotalAppend | src/components/ExpenseList.tsx:21 | the total of two lists put together is the sum of their totals |
| ExpenseList.TotalOfDisplayOrder | src/components/ExpenseList.tsx:21 | of `Total`, the `reduce` fold: the total of the display order equals the total of the list |
| ExpenseList.SortByDateDescCorrect | src/components/ExpenseList.tsx:70-72 | of `SortByDateDesc`: the display order is newest first, and it is a permutation of the list |
| ExpenseList.SortByDateDescStable | src/components/ExpenseList.tsx:72 | entries that share a date keep their list order in the display |
| ExpenseList.InsertByDateProperties | src/components/ExpenseList.tsx:72 | inserting into a newest-first list keeps it newest first and adds exactly the one entry |
| ExpenseList.HandleExport | src/components/ExpenseList.tsx:23-27 | exports exactly when the list is non-empty, and exports the list as given |
| ExpenseList.ExportEnabledExports | src/components/ExpenseList.tsx:39 | the export button is enabled exactly when pressing it exports |
| ExpenseList.RowActionsTargetListed | src/components/ExpenseList.tsx:99-106 | of `RowActions`: one row per entry, row i wired to the i-th displayed entry; each row's edit receives an entry of the list, and its delete receives exactly that entry's id |
| Csv.HeaderLineFields | src/utils/csv.ts:5-14 | of `HeaderLine`: the header line splits back into the five labels, in order |
| Csv.Rows | src/utils/csv.ts:15-24 | one row per record |
| Csv.RowsInInputOrder | src/utils/csv.ts:15 | row i is built from record i of the input, not from the display order |
| Csv.RowReadsBack | src/utils/csv.ts:16-24 | of `Row`: when no cell holds ';', a row splits back into date, description, amount, category and payment method |
| Csv.RowFieldCount | src/utils/csv.ts:16-24 | a row splits into 5 fields plus one per ';' inside its cells |
| Csv.SemicolonInDescription | src/utils/csv.ts:17-24 | with no escaping, a description holding ';' yields more than five fields |
| Csv.RowsAvoid | src/utils/csv.ts:15-24 | a character other than ';' that no cell holds appears in no row |
| Csv.ContentLines | src/utils/csv.ts:13-25 | of `Content`: when no cell holds a newline, the content splits into exactly the header line and then the rows: 1 + n lines, with no trailing newline |
| Csv.EmptyContent | src/utils/csv.ts:13-25 | an empty list yields the header line alone |
| Csv.FileNameShape | src/utils/csv.ts:34 | of `FileName`: the file name is "despesas_", the first ten characters of the ISO instant, and ".csv" |
| IndexPage.Page.constructor | src/pages/Index.tsx:10-12 | the form is hidden, nothing is being edited, no capture is running |
| IndexPage.Page.View | src/pages/Index.tsx:88-134 | a spinner while loading; otherwise the form exactly when it is shown, seeded with the edited record |
| IndexPage.Page.ManualEntry | src/pages/Index.tsx:17-20 | clears the edited record and shows the form |
| IndexPage.Page.EditExpense | src/pages/Index.tsx:22-25 | sets the edited record to the chosen one and shows the form |
| IndexPage.Page.FormSubmit | src/pages/Index.tsx:27-35 | while editing, `updateExpense` with the edited record's id: skipped with no store call when the id is not listed, otherwise the merged record is written and the store, call log, list and `loading` afterwards are those of `UpdateExpense`; otherwise `addExpense` of the new record, with the store, call log, list and `loading` of `AddExpense`; afterwards the form is hidden and nothing is being edited |
| IndexPage.Page.Cancel | src/pages/Index.tsx:114-117 | hides the form and clears the edited record |
| IndexPage.Page.AudioCapture | src/pages/Index.tsx:37-40 | a no-op while a capture is running; otherwise starts one; the form state is untouched |
| IndexPage.Page.CaptureFinished | src/pages/Index.tsx:57-71 | the recogniser's callbacks end the capture and leave the form state untouched |

## Left out

- ActionButtons, the file-upload and photo stubs, toasts, `console` and rendering are not modelled: they have no logic to state. The export's Blob and DOM download (src/utils/csv.ts:27-39) and the speech recogniser's setup and transcript handling are left out too. Only the recogniser callbacks' effect on `isListening` is kept.
- Floating point is not modelled. Amounts are exact integer cents, so `reduce`, `toFixed(2)` and `parseFloat` have no rounding.
- ExpenseForm.ReadNormalAmount: the general `ReadAmount` drops decimals after the second one, where `parseFloat` would keep them. Exponents, leading whitespace and "Infinity" are not modelled.
- ExpenseForm.HandleSubmit: the source submits a NaN amount (no digit before or after the comma) as NaN; the model has no NaN, so the submission yields None. None also stands for the RangeError that an invalid date raises in `toISOString`, which stops the submission.
- ExpenseForm.SubmitReadsFields: the date and amount are read by the separate lemmas `ReadNormalAmount` and `SubmittedNormalDate`. There is no single lemma from normalised texts to the whole draft.
- ExpenseForm.JsNumber: `Number()` is modelled only on digit strings and on a missing segment. Blurred date segments are digit strings or the text "undefined" (NaN).
- ExpenseForm.FilteredDateCaps: holds only when none of the first three raw segments is empty. Otherwise the caps can miss a segment (see Findings).
- ExpenseForm.BlurDateIdempotent: needs a month segment. Blurring "5" gives "05//undefined", and blurring that gives "05/00/undefined".
- ExpenseForm.BlurAmountTwoDecimals: needs at most one comma, which the amount filter guarantees.
- Dates and locale are parameters:
  - `format(…, 'dd/MM/yyyy')`, `parseISO` and `toLocaleDateString`;
  - the currency `toLocaleString`;
  - `new Date(y, m - 1, d)`;
  - time zones.
- ISO timestamp strings are integer timestamps. Only the file name keeps the ISO text.
- The store (`dbService` in src/services/indexedDB) is not part of this model. It is an abstract map whose operations may fail, with three choices:
  - insert is called with a fresh id;
  - update of an id the store does not hold fails, with no upsert;
  - delete of an absent id succeeds.
- UseExpenses.ExpensesHook.LoadExpenses: the store gives no order, so the new list is stated as a listing of the store (each record once) and not as one fixed sequence.
- Asynchrony, interleaving of concurrent handlers, React re-render timing and stale closures are not modelled. Each handler runs to completion against the state current when it is called.
- The mount effect (src/hooks/useExpenses.ts:99-101) and `refreshExpenses` are the same `LoadExpenses` call and have no separate member.

## Findings

| source | as written | input that shows it | evidently intended | confidence | as-written member | corrected member |
|---|---|---|---|---|---|---|
| src/components/ExpenseForm.tsx:136-141 | the caps of 2, 2 and 4 characters apply to positions 0, 1 and 2 of the raw split, before `filter(Boolean)` drops the empty segments, so a later segment can shift into a capped position uncapped | "1//2345" is filtered to "1/2345": its second segment has 4 characters, and filtering that again gives "1/23" | every kept segment respects the cap of the position it ends up in, and filtering is idempotent | medium, not executed | ExpenseForm.FilteredDateShiftExample | ExpenseForm.FilteredDateIntendedCaps |
