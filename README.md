# Book catalog: the in-memory library

A Dafny model of the core of a browser-resident book catalog (`app.js`). A user
fills in a form with a title, an author, a year and a cover image; each accepted
submission becomes a `Book` appended to the `Library`'s list; the list can be
sorted by ascending or descending year, by title or by author, and a book can be
deleted by its id, which also revokes the object URL of its cover.

The model:

- `Books` — the `Book` record (id, title, author, year, cover file, cover object
  URL) and the two list queries `removeBook` runs: `Find` (the first book with an
  id, `Array.prototype.find`) and `Remove` (`filter` on a different id), with the
  lemmas that pin the filter down (order kept, every other book kept, no-op on an
  absent id, one fewer book for a unique id) and the facts about which cover URLs
  are revoked.
- `Ordering` — the sort the engine performs for `Array.prototype.sort`, modelled
  by an insertion sort. It is proved to return a permutation, and, whenever the
  callback is consistent, one that is ordered by the callback and stable (elements
  the callback ties keep their relative order): what ECMAScript 2019 and later
  promise of that sort.
- `Text` — `String.prototype.trim` over the ECMAScript whitespace and line
  terminator code points, characterised independently of its definition.
- `Catalog` — the `Library` class: its `books` field (a `seq<Book>` the methods
  reassign) and a ghost set `live` of the cover URLs created and not yet revoked;
  `AddBook`, `RemoveBook` and `SortBooks` state the whole new state, and the
  function `Arrange` gives the order each sort type produces.
- `Submission` — the submit handler: the presence guard on the trimmed title,
  trimmed author, year text and cover, and the addition it guards.

The model follows what the code does, including where it falls short of what one
would expect of a catalog:

- Ids are `Date.now()` readings, so two books created in the same millisecond
  share an id. Nothing in the model assumes ids are unique. `removeBook` then drops
  every book with that id but revokes only the first one's cover URL:
  `Books.LeakFreeIffIdUnique` proves that the URLs of the dropped books are all
  revoked exactly when at most one book carries the id, and
  `Catalog.Library.RemoveBook` states how the set of leaked URLs grows.
- Books with equal keys keep their relative order when sorted; the model's sort
  is stable, as ECMAScript 2019 and later require `Array.prototype.sort` to be.

## Model

| member | source | states |
|---|---|---|
| Text.Trim | app.js:107-108 | `trim()` returns a contiguous piece of the field that neither starts nor ends with whitespace; `TrimIsMiddle` and `TrimEmptyIff` pin down which piece |
| Text.TrimStart | app.js:107-108 | the result is the suffix of the input that starts at its first non-whitespace character; everything dropped is whitespace |
| Text.TrimEnd | app.js:107-108 | the result is the prefix of the input that ends at its last non-whitespace character; everything dropped is whitespace |
| Text.TrimIsMiddle | app.js:107-108 | for any split of a string into whitespace, a middle that neither starts nor ends with whitespace, and whitespace, `trim()` returns that middle; an all-whitespace string trims to empty |
| Text.TrimEmptyIff | app.js:112 | a trimmed field is empty (falsy) exactly when every character of the field is whitespace |
| Text.TrimIdempotent | app.js:107-108 | trimming an already trimmed field changes nothing |
| Ordering.Insert | app.js:89-94 | inserting one element yields the old elements plus that one (multiset) |
| Ordering.Sort | app.js:89-94 | the sort returns a permutation of its input |
| Ordering.InsertSorted | app.js:89-94 | inserting into a sequence ordered by a consistent callback keeps it ordered |
| Ordering.SortSorted | app.js:89-94 | with a consistent callback, every pair of the sort's result is in callback order |
| Ordering.InsertTies | app.js:89-94 | inserting an element keeps the elements tied with any x in their order, the inserted one joining them at the front when it is tied with x |
| Ordering.SortStable | app.js:89-94 | with a consistent callback the sort is stable: for every x, the elements tied with x appear in the same order before and after |
| Ordering.ConsistentByKey | app.js:91-94 | comparing values by a key with a consistent comparison is itself consistent |
| Ordering.SortKeepsSorted | app.js:89-94 | a sequence already in callback order is returned unchanged |
| Books.Find | app.js:81 | `find` by id gives the first book carrying the id, or nothing exactly when no book carries it |
| Books.Remove | app.js:84 | the filter keeps only books of the old list, none of them carrying the id |
| Books.RemoveIsSubsequence | app.js:84 | the kept books appear in their original relative order |
| Books.RemoveCounts | app.js:84 | every book with another id is kept with all its copies, and no book with the id is kept |
| Books.RemoveAbsent | app.js:81-84 | removing an id no book carries leaves the list unchanged |
| Books.RemoveUnique | app.js:84 | when exactly one book carries the id, the result is the list without that book, one shorter |
| Books.RemoveHandles | app.js:84 | after the filter the cover URLs stay distinct and the URLs gone are exactly those of the books with the id |
| Books.Released | app.js:81-82 | at most one URL is revoked; every URL revoked is that of the first book carrying the id; one is revoked exactly when some book carries the id |
| Books.UniqueIdReleasesAll | app.js:81-84 | with at most one book carrying the id, every URL the filter drops is revoked |
| Books.DuplicateIdLeaks | app.js:81-84 | with two books carrying the id, some dropped cover URL is not revoked |
| Books.LeakFreeIffIdUnique | app.js:81-84 | every dropped cover URL is revoked if and only if at most one book carries the id |
| Catalog.YearAsc | app.js:89 | the `year-asc` callback lets a stay before b exactly when a's year is not later |
| Catalog.YearDesc | app.js:90 | the `year-desc` callback lets a stay before b exactly when a's year is not earlier |
| Catalog.ByTitle | app.js:91-92 | the `title-asc` callback compares titles with the collation and is consistent whenever the collation is |
| Catalog.ByAuthor | app.js:93-94 | the `author-asc` callback compares authors with the collation and is consistent whenever the collation is |
| Catalog.Arrange | app.js:88-94 | `sortBooks` keeps the same books, and any type but the four it knows leaves their order untouched; the `Arrange*` lemmas give the order each of the four produces |
| Catalog.YearsConsistent | app.js:89-90 | the year callbacks `a.year - b.year` and `b.year - a.year` are consistent comparators |
| Catalog.ArrangeYearAsc | app.js:89 | after `year-asc` the years are non-decreasing |
| Catalog.ArrangeYearDesc | app.js:90 | after `year-desc` the years are non-increasing |
| Catalog.ArrangeTitleAsc | app.js:91-92 | after `title-asc` the titles are in collation order |
| Catalog.ArrangeAuthorAsc | app.js:93-94 | after `author-asc` the authors are in collation order |
| Catalog.ArrangeStable | app.js:88-94 | every sort type keeps books its callback ties (equal years, or titles or authors the collation ranks alike) in their relative order |
| Catalog.ArrangeTwice | app.js:88-94 | choosing the same sort type again changes nothing (for title and author, given a consistent collation) |
| Catalog.RemoveKeepsLive | app.js:81-84 | after revoking and filtering, every listed cover URL is still live and distinct, and the leaked URLs grow by the dropped books' URLs other than the revoked one |
| Catalog.YearScenario | app.js:84-89 | "1984" (1949) sorts before "Dune" (1965) by ascending year; deleting "Dune" then leaves only "1984" |
| Catalog.Library.constructor | app.js:23-25 | a new library holds no books and no cover URLs |
| Catalog.Library.AddBook | app.js:28-29 | the list becomes the old list with the book appended; the book's fresh URL joins the live set; the invariant is kept and nothing leaks |
| Catalog.Library.RemoveBook | app.js:77-85 | the list becomes the filter of the old list; the revoked URL is that of the first book with the id, or none exactly when no book has it; the live set loses exactly the revoked URL; the leaked URLs grow by the dropped books' URLs other than the revoked one |
| Catalog.Library.SortBooks | app.js:88-94 | the list becomes a permutation of the old one ordered by the chosen key (years by number, titles and authors by a consistent collation) and stable for ties; an unknown type leaves it unchanged; the live URLs are untouched |
| Submission.Accepts | app.js:107-112 | a submission passes the guard exactly when title and author each contain a non-whitespace character, the year text is not empty and a cover is chosen |
| Submission.Submit | app.js:105-116 | a refused submission changes nothing; an accepted one appends exactly one book with the trimmed title and author, the given year, cover and URL |

## Left out

- Rendering: `renderBook`, adding and removing card elements, clearing and
  refilling the list after a sort (app.js:30, 34-74, 78-79, 97-98); the model
  has no rendered list, so the one-to-one correspondence between list and cards
  is not stated.
- The event listeners for the sort control and the delete button (app.js:119-132):
  they only read a value from the page and call `SortBooks` or `RemoveBook`.
- `Date.now()` (app.js:13): the clock reading is the `now` parameter of `Submit`.
- `Number(year)` and `Number(deleteBtn.dataset.id)` (app.js:16, 129): the year is an
  `int` parameter; NaN, fractions and other floating-point results are not
  modelled.
- `URL.createObjectURL` and `URL.revokeObjectURL` (app.js:18, 82) are browser
  calls: the URL created is a parameter, assumed fresh, and the URL revoked is
  `RemoveBook`'s result and leaves the ghost `live` set.
- `localeCompare` (app.js:92, 94) is locale-dependent: the collation is the
  `collate` parameter.
- Reading the form fields and files, `preventDefault` and `inputForm.reset()`
  (app.js:106-110, 116) are input and output.
- Catalog.Library.SortBooks: title and author ordering and stability are stated
  only for a consistent `collate`, the only case in which ECMAScript defines the
  order `Array.prototype.sort` produces.
- Ordering.Sort: for a callback that is not consistent ECMAScript leaves the
  resulting order implementation-defined, while the model's insertion sort fixes
  one particular order that an engine need not produce. `Ordering.SortKeepsSorted`
  and `SortBooks`'s equation with `Arrange` fix this order for every callback; for
  `localeCompare`, which ECMAScript requires to be a consistent comparator, it is
  the order the standard prescribes.
- Catalog.Library.AddBook: requires the cover URL to be new to the library, the
  guarantee `URL.createObjectURL` gives, which the source does not check.
