# Amharic phrasebook: verified model of the phrase list logic

This project models the list logic of an offline Amharic phrasebook web app. The UI is
written in React. Two pieces of it are modelled as pure Dafny functions over sequences,
with lemmas about them.

- **Phrase table** (`src/PhraseTable.tsx`, module `PhraseTable`). The fetched JSON array is
  validated: an entry is kept only when `category`, `amharic`, `english` and `phonetic`
  are strings and `notes` is a string or undefined. An empty result is an error. A search
  term then filters the phrases. The term is compared lower-cased against lower-cased
  `english` and `phonetic`, and unchanged against `amharic`. The categories of the
  filtered phrases are listed once each, in order of first appearance. Each category card
  shows a phrase count and a sample text, and both are taken from the unfiltered list.
- **Category list page** (`src/components/CategoryListPage.tsx`, module
  `CategoryListPage`). Categories are shown 9 per page, starting at offset
  `(currentPage - 1) * 9`. An empty page shows a "No categories found" message. When
  there is more than one page, a row of buttons numbered `1..totalPages` is shown, and the
  current page's button is marked.

Supporting modules:

- `Seqs`: `Array.prototype.filter` as `Filter`, de-duplication through a `Set` as
  `Distinct`, and the order-preserving subsequence relation.
- `Text`: `toLowerCase` and `includes`.
- `Wrappers`: `Option` and `Result`.

Modelling choices:

- `toLowerCase` is modelled as ASCII-only folding: `A`–`Z` become `a`–`z` and every other
  character is kept. The Ethiopic script has no case, so `amharic` text is unaffected
  either way.
- `includes` is the predicate `Text.Contains`. It scans position by position.
  `Text.ContainsIffOccurs` proves it equal to "occurs at some index".
- A fetched entry is an `Entry`:
  - `Object`: each of its five properties is a string, missing (undefined) or some other
    value.
  - `Null`: reading a property of it throws a `TypeError`. The validator's filter reads
    `category` first, so a null anywhere in the array makes loading fail. The model
    gives this failure as `LoadError.NullEntry`.
  - `Scalar`: a number, string or boolean. None of the five properties exists on it, so it
    is rejected.
- `filteredPhrases`, `categories` and the per-card values are recomputed from the
  component's state on each render. They are modelled as functions of `(phrases, search)`.

The phrase filter (src/PhraseTable.tsx:47-54) never reads `notes`:
`PhraseTable.NotesIgnored` proves that a phrase's notes never affect whether it matches.

## Model

| member | source | states |
|---|---|---|
| `PhraseTable.TypeOf` | src/PhraseTable.tsx:28-32 | `typeof` is "string" exactly for a string and "undefined" exactly for a missing property |
| `PhraseTable.WellTyped` | src/PhraseTable.tsx:28-32 | an entry passes exactly when it is an object whose category, amharic, english and phonetic are strings and whose notes is a string or missing |
| `PhraseTable.Validated` | src/PhraseTable.tsx:27-33 | the kept entries form an order-preserving subsequence of the fetched array; every kept entry has string category, amharic, english and phonetic and a string or undefined notes; every occurrence of a well-typed entry is kept and nothing else |
| `PhraseTable.ToPhrase` | src/PhraseTable.tsx:27-33 | a validated entry read as a `Phrase` keeps its four strings, and has notes exactly when its notes is a string, with that text |
| `PhraseTable.Typed` | src/PhraseTable.tsx:27-33 | reading the kept entries through the `Phrase` interface keeps their number, and the i-th phrase is the i-th entry read as a `Phrase` |
| `PhraseTable.Load` | src/PhraseTable.tsx:27-36 | loading fails with NullEntry exactly when some element is null; it fails with NoValidPhrases exactly when no element is null and none passes validation; otherwise it yields the validated entries, typed, and that list is non-empty |
| `PhraseTable.DisplayedError` | src/PhraseTable.tsx:34-44 | no error line exactly when loading succeeds; with a null entry the line is "Failed to load phrases: " followed by the TypeError's message; with no null and nothing valid it is "Failed to load phrases: No valid phrases found in JSON data" |
| `PhraseTable.Matches` | src/PhraseTable.tsx:48-53 | a phrase matches exactly when the lower-cased term occurs in its lower-cased english, or the raw term occurs in its amharic, or the lower-cased term occurs in its lower-cased phonetic |
| `PhraseTable.NotesIgnored` | src/PhraseTable.tsx:47-54 | replacing a phrase's notes by any value never changes whether it matches |
| `PhraseTable.FilteredPhrases` | src/PhraseTable.tsx:47-54 | the filtered list is an order-preserving subsequence of the phrases; every kept phrase matches the term; no matching phrase is dropped; each phrase is kept exactly as many times as it occurs when it matches, and never otherwise |
| `PhraseTable.EmptySearchKeepsAll` | src/PhraseTable.tsx:47-54 | an empty search term keeps every phrase, in order |
| `PhraseTable.RefilterChangesNothing` | src/PhraseTable.tsx:47-54 | filtering the filtered list again by the same term gives the same list |
| `PhraseTable.AmharicMatchIsCaseSensitive` | src/PhraseTable.tsx:51 | amharic is compared with the raw term: a phrase with amharic "A" matches "A" but not "a" |
| `PhraseTable.EnglishMatchIgnoresCase` | src/PhraseTable.tsx:48-50 | english is compared after lower-casing both sides: "HELLO" finds "Hello" |
| `PhraseTable.EnglishCaseIgnored` | src/PhraseTable.tsx:48-52 | for every term and phrase, lower-casing the english and phonetic texts never changes whether the phrase matches |
| `PhraseTable.NotesAreNotSearched` | src/PhraseTable.tsx:47-54 | a phrase whose only occurrence of the term is in its notes does not match |
| `PhraseTable.SearchExample` | src/PhraseTable.tsx:47-56 | searching "hello" among a greeting and a farewell keeps the greeting only, and lists its category once |
| `PhraseTable.CategoryNames` | src/PhraseTable.tsx:56 | the map has one category per phrase, position by position |
| `PhraseTable.Categories` | src/PhraseTable.tsx:56 | categories has no duplicates; it contains exactly the categories of the filtered phrases; it lists them in order of first appearance among the filtered phrases |
| `PhraseTable.CategoriesUnique` | src/PhraseTable.tsx:56 | any list holding the same categories in first-appearance order equals categories, so the three properties above determine it |
| `PhraseTable.CategoryNamesMembership` | src/PhraseTable.tsx:56 | a category is in the mapped list exactly when some phrase has it |
| `PhraseTable.ListedIffSomePhraseMatches` | src/PhraseTable.tsx:47-56 | a category is listed exactly when some phrase of that category matches the search |
| `PhraseTable.CategoryPhrases` | src/PhraseTable.tsx:72 | the phrases of a category form an order-preserving subsequence of all phrases; each has that category; none with it is dropped; each phrase of the category is kept as many times as it occurs, and no other phrase at all; the list is empty exactly when no phrase has the category |
| `PhraseTable.SampleText` | src/PhraseTable.tsx:77 | the sample is never empty: the first phrase's amharic when there is one and it is non-empty, and '...' otherwise |
| `PhraseTable.Summarize` | src/PhraseTable.tsx:72-77 | a card's count is the number of phrases of its category in the unfiltered list, zero exactly when there is none; its sample is the amharic text of the category's first phrase in the unfiltered list, or '...' when that text is empty or there is no phrase |
| `PhraseTable.Summaries` | src/PhraseTable.tsx:71-77 | one card per listed category, in the same order, the i-th card being the card of the i-th listed category computed over the unfiltered list |
| `PhraseTable.ListedCountBounds` | src/PhraseTable.tsx:72-76 | a listed category's count is at least 1, and at least the number of its phrases that match the search |
| `Text.LowerFacts` | src/PhraseTable.tsx:48-52 | lower-casing keeps the length, maps exactly the ASCII capitals to lower case and keeps every other character; it leaves no capital and is idempotent |
| `Text.ContainsIffOccurs` | src/PhraseTable.tsx:50-52 | includes holds exactly when the term occurs at some index of the string |
| `Text.ContainsNecessary` | src/PhraseTable.tsx:50-52 | a string includes only terms no longer than itself whose first character it contains |
| `Text.ContainsEmpty` | src/PhraseTable.tsx:47-54 | every string includes the empty term |
| `Seqs.Filter` | src/PhraseTable.tsx:72 | a filter result is no longer than its input; its elements all pass and come from the input; every passing element of the input is in it |
| `Seqs.FilterExact` | src/PhraseTable.tsx:47-54 | a filter result is an order-preserving subsequence of its input, and keeps each passing element as often as it occurs and each failing one never |
| `Seqs.FilterAllPass` | src/PhraseTable.tsx:47-54 | filtering a list whose elements all pass returns it unchanged |
| `Seqs.FilterNonePass` | src/components/CategoryListPage.tsx:83 | filtering a list none of whose elements pass returns the empty list |
| `Seqs.FilterIdempotent` | src/PhraseTable.tsx:47-54 | filtering twice by one predicate is filtering once |
| `Seqs.FilterCommutes` | src/PhraseTable.tsx:72 | two filters can be applied in either order |
| `Seqs.FilterAfterFilterIsShorter` | src/PhraseTable.tsx:72 | filtering a filtered list keeps no more than filtering the original |
| `Seqs.FilterFirst` | src/PhraseTable.tsx:77 | the first element of a filter result is the first passing element of the input |
| `Seqs.FilterSingle` | src/components/CategoryListPage.tsx:83 | when exactly one position passes, the filter result is that one element |
| `Seqs.FirstIndex` | src/PhraseTable.tsx:56 | the first index of an element holds that element, and no earlier index does |
| `Seqs.DistinctFrom` | src/PhraseTable.tsx:56 | adding elements to a Set that already holds `seen` appends exactly the new elements, each once |
| `Seqs.Distinct` | src/PhraseTable.tsx:56 | the spread Set holds exactly the input's elements, each once |
| `Seqs.DistinctOrder` | src/PhraseTable.tsx:56 | the spread Set lists its elements in order of first appearance in the input |
| `Seqs.FirstAppearanceOrderUnique` | src/PhraseTable.tsx:56 | two lists with the same elements, both in first-appearance order of one sequence, are equal |
| `CategoryListPage.StartIndex` | src/components/CategoryListPage.tsx:48 | the offset of page p is a multiple of 9, namely 9 * (p - 1) |
| `CategoryListPage.Slice` | src/components/CategoryListPage.tsx:49 | slice with non-negative bounds has length max(0, min(end, n) - min(start, n)), and its i-th element is the input's element at start + i |
| `CategoryListPage.CurrentItems` | src/components/CategoryListPage.tsx:47-49 | for currentPage >= 1 the page has length min(9, max(0, n - (currentPage-1)*9)); its i-th item is the category at offset + i; it is empty exactly when the offset is at or past n |
| `CategoryListPage.CurrentItemsIsContiguousRun` | src/components/CategoryListPage.tsx:48-49 | a non-empty page equals categories[startIndex .. startIndex + its length] |
| `CategoryListPage.PageCount` | src/components/CategoryListPage.tsx:47-49 | the number of pages the slicing needs for n items is the least k with 9k >= n; nothing ties the `totalPages` prop to it |
| `CategoryListPage.PagesUpToIsPrefix` | src/components/CategoryListPage.tsx:47-49 | pages 1..k together are the first min(9k, n) categories |
| `CategoryListPage.PagesPartitionCategories` | src/components/CategoryListPage.tsx:47-49 | pages 1..ceil(n/9), one after another, reproduce the category list exactly, with nothing repeated or skipped |
| `CategoryListPage.PagesAfterLastAreEmpty` | src/components/CategoryListPage.tsx:48-49 | a page after the last one is empty |
| `CategoryListPage.Grid` | src/components/CategoryListPage.tsx:65-73 | the "No categories found" message is shown exactly when the page offset is at or past the number of categories; otherwise the grid holds between 1 and 9 cards, exactly as many as the page has items, one per category of the page, in order |
| `CategoryListPage.Card` | src/components/CategoryListPage.tsx:30-31 | a card shows the category's name and its number of phrases, and is keyed by the category's id (as at line 68) |
| `CategoryListPage.NoMatchesMessage` | src/components/CategoryListPage.tsx:71 | the message is `No categories found matching "`, then the search term verbatim, then `".` |
| `CategoryListPage.PageNumbers` | src/components/CategoryListPage.tsx:78 | the page numbers are `totalPages` strictly increasing numbers, exactly 1..totalPages |
| `CategoryListPage.Pagination` | src/components/CategoryListPage.tsx:76-86 | the bar is shown exactly when totalPages > 1; it has totalPages buttons; button i selects page i+1 and is marked exactly when it is currentPage |
| `CategoryListPage.ExactlyOneCurrentButton` | src/components/CategoryListPage.tsx:83-86 | when 1 <= currentPage <= totalPages exactly one button is marked, and it is currentPage's; otherwise none is |

## Left out

- The `fetch` of the phrase file, HTTP status handling, JSON parsing and the
  loading/error state setters (src/PhraseTable.tsx:18-45) are I/O and React state. `Load`
  starts from the already parsed array. A parsed value that is not an array is not
  modelled.
- The message of the `TypeError` thrown for a null entry is produced by the JavaScript
  engine. `DisplayedError` takes it as a parameter.
- On a failed load the component renders only the error message, and while loading it
  renders only "Loading phrases...". These render-order branches and all JSX and styling
  are view code. That includes the static "Favorites" card and the search inputs.
- The error boundary (src/PhraseTable.tsx:93-126) only handles React exceptions.
- `Text.Contains`: a Dafny `char` is a Unicode scalar value, while `includes` compares
  UTF-16 code units. The two agree on well-formed text, but a lone surrogate (such as a
  `\uD800` escape in the JSON) has no `char` and is not modelled.
- `Text.LowerFacts`: `toLowerCase` is modelled as ASCII-only folding, not full Unicode
  case mapping.
- `CategoryListPage.CurrentItems`, `CategoryListPage.StartIndex`, `CategoryListPage.Grid`:
  `slice` with a negative start is not modelled. These functions require
  `currentPage >= 1`, because the page buttons only ever emit pages `1..totalPages`.
- The `number` props `currentPage` and `totalPages` are modelled as `int`. A fractional
  value would be truncated by `slice` and `Array.from`, but the buttons never produce one.
- `totalPages` is a prop that none of the modelled files supplies.
  `PageCount` gives the ceiling of `n / 9` that the partition property is stated for.
- src/App.tsx, src/components/PhraseListPage.tsx, src/components/CategoryCard.tsx,
  src/custom-sw.js, craco.config.js and tailwind.config.js contain only presentation,
  service-worker and build configuration.
