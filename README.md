# Personal finance ledger: transaction creation and CSV import

A Dafny model of the two request handlers of a small income/outcome ledger built on
TypeORM:

- **CreateTransactionService** records one transaction. It refuses an `outcome` whose
  value is greater than the current balance (error 400, "Insufficient balance."). It then
  finds the category with the given title, or creates and saves one. Last, it saves the
  transaction.
- **ImportTransactionsService** imports a CSV file in five steps:
  - It skips the header line and trims the four columns of every record (title, type,
    value, category).
  - It drops a record whose title, type or value is empty, and collects the category of
    every record it keeps.
  - It asks the store for the existing categories with those titles.
  - It creates the missing titles once each, in order of first occurrence.
  - It links every kept record to the first category with that title in the list
    "existing, then new", and saves the transactions.

The two repositories become one in-memory store, the class `Store.Ledger`. It holds a
`seq<Category>` and a `seq<Transaction>`. Both services are methods that receive the
ledger and change it through its `SaveCategories` and `SaveTransactions` methods. The
ledger's invariant `Valid()` says two things: a category's id is its position, and every
transaction refers to a stored category. Both services keep the invariant. Both also keep
titles unique whenever the store's titles were unique before the call.

The modules are:

- `Results`: Option / Result.
- `Text`: trimming.
- `Lists`: models of JavaScript `indexOf`, `filter` with `includes`, and the
  first-occurrence filter `filter((v, i, a) => a.indexOf(v) === i)`.
- `Store`: entities and the ledger.
- `CreateTransaction`: the creation service.
- `ImportTransactions`: the import service.

The import's parse callback is a loop (`ImportTransactions.ParseRows`). Its
reconciliation steps are functions. `ImportTransactions.Execute` ties the resulting
ledger state and the returned list to those functions.

A record whose value is `"0"` is kept: the value is still the trimmed string, and among
strings only `""` is falsy, so a value `"0"` never rejects a record
(`ImportTransactions.ZeroValueKept`). The titles to create come
out in order of first occurrence, and the model proves that order.

## Model

| member | source | states |
|---|---|---|
| `Text.Trim` | src/services/ImportTransactionsService.ts:29 | `s.trim()`: its behaviour is stated by `TrimStartSpec`, `TrimEndSpec`, `TrimIsInnerSlice`, `TrimEmptyIff` and `TrimFixedIff` below: it removes only leading and trailing whitespace and keeps the inner slice unchanged |
| `Text.TrimStartSpec` | src/services/ImportTransactionsService.ts:29 | trimming the start drops only whitespace, keeps a suffix that starts with a non-space, and gives "" exactly for an all-whitespace field |
| `Text.TrimEndSpec` | src/services/ImportTransactionsService.ts:29 | trimming the end drops only whitespace, keeps a prefix that ends with a non-space, and gives "" exactly for an all-whitespace field |
| `Text.TrimIsInnerSlice` | src/services/ImportTransactionsService.ts:29 | a trimmed field is a contiguous slice of the raw field with only whitespace around it, and it has no whitespace at either end |
| `Text.TrimEmptyIff` | src/services/ImportTransactionsService.ts:29-31 | a field is empty after trimming if and only if it is all whitespace |
| `Text.TrimFixedIff` | src/services/ImportTransactionsService.ts:29 | trimming leaves a string unchanged if and only if it neither starts nor ends with whitespace |
| `Text.TrimIdempotent` | src/services/ImportTransactionsService.ts:29 | trimming twice equals trimming once |
| `Lists.IndexOf` | src/services/ImportTransactionsService.ts:45 | `indexOf` gives -1 exactly when the element is absent, and otherwise the position of its first occurrence |
| `Lists.Without` | src/services/ImportTransactionsService.ts:44 | `filter(x => !excluded.includes(x))` keeps exactly the elements not in the excluded list |
| `Lists.WithoutKeepsOrder` | src/services/ImportTransactionsService.ts:43-45 | filtering keeps the relative first-occurrence order of the elements that stay |
| `Lists.FirstOccurrencesUpTo` | src/services/ImportTransactionsService.ts:45 | the first-occurrence filter over a prefix has no duplicates, holds exactly the prefix's distinct elements, and lists them by increasing first index |
| `Lists.FirstOccurrences` | src/services/ImportTransactionsService.ts:45 | deduplication keeps every distinct element exactly once, ordered by first occurrence |
| `Store.FindByTitle` | src/services/CreateTransactionService.ts:31-33 | the lookup by title returns the first stored category with exactly that title (the one at `IndexOf` of the title in the store's titles), and returns nothing exactly when no stored category has it |
| `Store.Titles` | src/services/ImportTransactionsService.ts:42 | `map(({ title }) => title)`: `TitlesAppend` states it distributes over concatenation, `TitleOf` that every stored category's title is in it, and `NumberedTitles` that it gives back the titles of new categories |
| `Store.FindByTitleAppend` | src/services/ImportTransactionsService.ts:51-58 | a lookup in "existing followed by new" returns the existing match when there is one, and otherwise the new one |
| `Store.FindByTitleUnique` | src/services/CreateTransactionService.ts:31-35 | with unique titles, looking up a stored category's title returns that category |
| `Store.SameTitleSameCategory` | src/services/CreateTransactionService.ts:31-40 | with unique titles, two stored categories with the same title are the same category |
| `Store.AppendKeepsTitlesUnique` | src/services/ImportTransactionsService.ts:42-51 | appending distinct titles that are not yet stored keeps titles unique |
| `Store.Numbered` | src/services/ImportTransactionsService.ts:48 | `create` of the titles to create: by `NumberedTitles` and `Ledger.SaveCategories`, one new category per title, in order, with ids that continue the store's positions |
| `Store.Ledger.constructor` | src/services/CreateTransactionService.ts:22-23 | a new ledger is empty and valid |
| `Store.Ledger.SaveCategories` | src/services/ImportTransactionsService.ts:48-49 | saving appends one numbered category per title, in order, and leaves the transactions unchanged |
| `Store.Ledger.SaveTransactions` | src/services/ImportTransactionsService.ts:53-61 | saving appends exactly the given transactions and leaves the categories unchanged |
| `CreateTransaction.IncomeNeverOverdraws` | src/services/CreateTransactionService.ts:27 | a type other than "outcome" passes the balance guard whatever the total |
| `CreateTransaction.OutcomeUpToTotalAllowed` | src/services/CreateTransactionService.ts:27 | an outcome equal to the total passes, because the comparison is strict |
| `CreateTransaction.Overdraws` | src/services/CreateTransactionService.ts:27 | the balance guard `type === 'outcome' && value > total`; `IncomeNeverOverdraws`, `OutcomeUpToTotalAllowed` and the `Failure?` iff of `Execute` state what it admits and refuses |
| `CreateTransaction.Execute` | src/services/CreateTransactionService.ts:16-51 | the call fails with status 400 exactly when an outcome exceeds the total, and then nothing is saved; otherwise it appends exactly one transaction with the input fields and a category titled as the input; it reuses an existing category and leaves the categories unchanged, or appends exactly one new category; it keeps the ledger valid and titles unique; after success, looking up the input title in the new category list returns the transaction's category |
| `CreateTransaction.CreateTwiceWithNewCategory` | src/services/CreateTransactionService.ts:31-40 | two calls with the same title that is not stored yet create one category, and both transactions refer to it |
| `ImportTransactions.DataRows` | src/services/ImportTransactionsService.ts:22 | `from_line: 2`: the records after the first line; `HeaderNeverImported` states that the first line never yields a row |
| `ImportTransactions.Fields` | src/services/ImportTransactionsService.ts:29 | the four columns, each trimmed; `FieldsOfTrimmedRecord` states that fields without surrounding whitespace come through unchanged, and `KeptIff` what trimming means for the test |
| `ImportTransactions.Kept` | src/services/ImportTransactionsService.ts:31 | the test `!title \|\| !type \|\| !value` on trimmed strings; `KeptIff` states that a record passes exactly when none of its first three fields is all whitespace, and `ZeroValueKept` that a value "0" never rejects a record |
| `ImportTransactions.KeptRows` | src/services/ImportTransactionsService.ts:28-35 | the rows the callback pushes; `KeptRowsMembership` states which rows are in it, `KeptRowsAppend` that it keeps parse order, and `ParseRows` that the loop computes it |
| `ImportTransactions.KeptRowsStep` | src/services/ImportTransactionsService.ts:28-35 | one more record adds its trimmed row to the kept rows exactly when the record passes the test |
| `ImportTransactions.CategoryColumn` | src/services/ImportTransactionsService.ts:26-34 | the `categories` array: `ParseRows` states it has one entry per kept row, that row's trimmed category, duplicates included |
| `ImportTransactions.ParseRows` | src/services/ImportTransactionsService.ts:22-35 | the parse loop from line 2 on yields exactly the kept rows in parse order, and the category list holds one entry per kept row, that row's trimmed category |
| `ImportTransactions.KeptRowsAppend` | src/services/ImportTransactionsService.ts:28-35 | each record is judged on its own, and kept rows keep their order: parsing a concatenation concatenates the results |
| `ImportTransactions.KeptIff` | src/services/ImportTransactionsService.ts:29-31 | a record is kept if and only if none of its title, type and value fields is all whitespace |
| `ImportTransactions.KeptRowsMembership` | src/services/ImportTransactionsService.ts:31-33 | a row is among the kept rows if and only if some record that passes the test trims to it |
| `ImportTransactions.ZeroValueKept` | src/services/ImportTransactionsService.ts:31 | a record whose value is "0" is kept exactly when its title and type are not blank: the value never rejects it |
| `ImportTransactions.HeaderNeverImported` | src/services/ImportTransactionsService.ts:22 | the first line never contributes a row, whatever it holds |
| `ImportTransactions.ExistingCategories` | src/services/ImportTransactionsService.ts:39-41 | the query returns exactly the stored categories whose title is among the collected titles |
| `ImportTransactions.CategoriesToCreate` | src/services/ImportTransactionsService.ts:42-46 | the titles to create have no duplicates, and they are exactly the collected titles that no existing category has |
| `ImportTransactions.CategoriesToCreateInFirstOccurrenceOrder` | src/services/ImportTransactionsService.ts:43-46 | the titles to create are listed in order of first occurrence among the collected titles |
| `ImportTransactions.Existing` | src/services/ImportTransactionsService.ts:39-41 | the query applied to the kept rows' categories; `ExistingCategories` states which categories it returns, `ExistingCategoriesAppend` and `ExistingCategoriesAll` how it behaves on a grown store, and `Execute` uses it for the new ledger |
| `ImportTransactions.ToCreate` | src/services/ImportTransactionsService.ts:43-46 | `categoriesToCreate` for the kept rows; `CategoriesToCreate` and `CategoriesToCreateInFirstOccurrenceOrder` state its contents and order, `ToCreateIsNew` that its titles are new and come from kept rows, and `ReimportCreatesNoCategories` that it is empty on re-import |
| `ImportTransactions.AllCategories` | src/services/ImportTransactionsService.ts:51 | `[...existingCategories, ...newCategories]`; `EveryRowResolves` states that every kept row's title is in it, `ImportedMatchesRows` that lookups in it take the existing match first, and `ReimportLinksSame` that a re-import sees the same list |
| `ImportTransactions.ToCreateIsNew` | src/services/ImportTransactionsService.ts:39-46 | no title the import creates is already stored, and each one is named by a kept row |
| `ImportTransactions.EveryRowResolves` | src/services/ImportTransactionsService.ts:39-58 | every kept row's category title is in the combined existing-then-new list, so `find` always succeeds |
| `ImportTransactions.Link` | src/services/ImportTransactionsService.ts:53-59 | the `map` building one transaction per kept row with the row's title, value and type and `allCategories.find` by title; `ImportedMatchesRows` states this of its result |
| `ImportTransactions.Imported` | src/services/ImportTransactionsService.ts:39-59 | the transactions an import creates from a store and the kept rows; `ImportedMatchesRows` states their fields and categories, and `ReimportLinksSame` that a second import of the same rows builds transactions with the same fields and the same categories (they carry no id, see below) |
| `ImportTransactions.ImportedMatchesRows` | src/services/ImportTransactionsService.ts:51-60 | there is one transaction per kept row, in order, with that row's title, value and type; its category has that row's title and is the first existing match, or else the new category |
| `ImportTransactions.SameTitleSameLink` | src/services/ImportTransactionsService.ts:51-58 | two kept rows naming the same category title are linked to the same category |
| `ImportTransactions.ReimportCreatesNoCategories` | src/services/ImportTransactionsService.ts:39-49 | after an import, importing the same rows again creates no category |
| `ImportTransactions.ExistingCategoriesAppend` | src/services/ImportTransactionsService.ts:39-41 | the query over a store followed by more categories returns the matches of the first part followed by those of the second |
| `ImportTransactions.ExistingCategoriesAll` | src/services/ImportTransactionsService.ts:39-41 | a query naming the title of every category in a store returns that whole store, in order |
| `ImportTransactions.ReimportLinksSame` | src/services/ImportTransactionsService.ts:39-59 | after an import, the same rows meet the same `allCategories` list, so importing them again builds transactions that match the first import's field by field and category by category |
| `ImportTransactions.Execute` | src/services/ImportTransactionsService.ts:17-66 | the ledger gains exactly the numbered new categories and the returned transactions; the i-th returned transaction carries the i-th kept row's fields; the ledger stays valid and titles stay unique |
| `ImportTransactions.ImportTwice` | src/services/ImportTransactionsService.ts:17-66 | importing twice creates categories only once and stores the transactions twice; the second call's transactions match the first call's field by field and category by category (`second == first`, since transactions carry no id) |
| `ImportTransactions.FieldsOfTrimmedRecord` | src/services/ImportTransactionsService.ts:29 | a record whose four fields have no whitespace at either end parses to exactly those fields |
| `ImportTransactions.ExampleRowsParsed` | src/services/ImportTransactionsService.ts:22-35 | a header plus the "Salary"/"Rent" lines yields those two rows in order |
| `ImportTransactions.ExampleCategoriesCreated` | src/services/ImportTransactionsService.ts:42-46 | importing them into an empty store creates "Job" then "House" |

## Left out

- File I/O: opening the file (line 21) and deleting it after the import (line 63) are not modelled. The input is the file already split into records of fields.
- The CSV tokeniser: quoting, delimiters and column-count errors belong to the parsing library. Every record after the header is required to have at least four fields (`HasFourFields`), and line 2 is taken as the second record.
- Persistence: the repository lookups, `create` and `save` become the in-memory `Store.Ledger`. Category ids become positions. Atomicity and save failures are not modelled. The model answers a query with an empty title list with no categories; what TypeORM does with `In([])` is not modelled.
- Transactions carry no id: two with the same title, value, type and category are equal. So `ImportTwice`'s `second == first` means the second import's transactions match the first's field by field and category by category, while the database stores them as new rows with new ids.
- The order of a database query's results is not specified. `findOne` and `find({ title: In(...) })` are modelled as returning matches in store order, and `findOne` returns the first match.
- The balance: `getBalance` lives in a repository that is not part of this model, so `total` is an input of `CreateTransaction.Execute`.
- Concurrency: the asynchronous row callback and the end-of-stream wait become a plain loop. The check-then-insert race between two concurrent creations is not modelled.
- JavaScript number semantics: the creation value is an `int`. The import stores the trimmed value text (`Value.Raw`); the conversion done by the persistence layer is not modelled.
- Trimming uses a fixed whitespace set (ASCII blanks and line breaks, U+00A0, U+FEFF), not every Unicode space character.
- `AppError` is modelled as a result value carrying the message and status 400; it is not a thrown exception.
- The type column of an imported record is not checked against "income"/"outcome", and the import applies no balance guard. These are behaviours of the code, and the model keeps them.
