/** The Library class of app.js: the in-memory list of books and the three operations
    that change it. Rendering (renderBook, clearing and refilling the list element,
    removing a card) is not modelled; the object URLs the covers hold are tracked as a
    ghost set so that what removeBook revokes can be stated. */
module Catalog {
  import opened Wrappers
  import opened Books
  import opened Ordering

  /** The callback of `sort('year-asc')`: `(a, b) => a.year - b.year`; a may stay
      before b exactly when its year is not later. */
  function YearAsc(a: Book, b: Book): (r: int)
    ensures r <= 0 <==> a.year <= b.year
  {
    a.year - b.year
  }

  /** The callback of `sort('year-desc')`: `(a, b) => b.year - a.year`; a may stay
      before b exactly when its year is not earlier. */
  function YearDesc(a: Book, b: Book): (r: int)
    ensures r <= 0 <==> a.year >= b.year
  {
    b.year - a.year
  }

  /** The callback of `sort('title-asc')`: `a.title.localeCompare(b.title)`, with the
      browser's collation given as `collate`; consistent when the collation is. */
  function ByTitle(collate: (string, string) -> int): (r: (Book, Book) -> int)
    ensures forall a, b :: r(a, b) == collate(a.title, b.title)
    ensures Consistent(collate) ==> Consistent(r)
  {
    var r := (a: Book, b: Book) => collate(a.title, b.title);
    ConsistentByKey(collate, (b: Book) => b.title, r);
    r
  }

  /** The callback of `sort('author-asc')`: `a.author.localeCompare(b.author)`;
      consistent when the collation is. */
  function ByAuthor(collate: (string, string) -> int): (r: (Book, Book) -> int)
    ensures forall a, b :: r(a, b) == collate(a.author, b.author)
    ensures Consistent(collate) ==> Consistent(r)
  {
    var r := (a: Book, b: Book) => collate(a.author, b.author);
    ConsistentByKey(collate, (b: Book) => b.author, r);
    r
  }

  /** The four sort types sortBooks recognises. */
  predicate IsSortType(sortType: string) {
    sortType == "year-asc" || sortType == "year-desc" || sortType == "title-asc" || sortType == "author-asc"
  }

  /** The sort types whose callback calls localeCompare. */
  predicate UsesCollation(sortType: string) {
    sortType == "title-asc" || sortType == "author-asc"
  }

  /** The order `this.books` is left in by `sortBooks(type)`: the same books, and for
      any type but the four it recognises the same order. */
  function Arrange(books: seq<Book>, sortType: string, collate: (string, string) -> int): (r: seq<Book>)
    ensures multiset(r) == multiset(books)
    ensures !IsSortType(sortType) ==> r == books
  {
    if sortType == "year-asc" then Sort(books, YearAsc)
    else if sortType == "year-desc" then Sort(books, YearDesc)
    else if sortType == "title-asc" then Sort(books, ByTitle(collate))
    else if sortType == "author-asc" then Sort(books, ByAuthor(collate))
    else books
  }

  /** Numeric comparison of years is consistent in both directions. */
  lemma YearsConsistent()
    ensures Consistent(YearAsc) && Consistent(YearDesc)
  {
  }

  /** `sortBooks('year-asc')` leaves the years non-decreasing. */
  lemma ArrangeYearAsc(books: seq<Book>, collate: (string, string) -> int)
    ensures var r := Arrange(books, "year-asc", collate);
      forall i, j :: 0 <= i < j < |r| ==> r[i].year <= r[j].year
  {
    YearsConsistent();
    SortSorted(books, YearAsc);
  }

  /** `sortBooks('year-desc')` leaves the years non-increasing. */
  lemma ArrangeYearDesc(books: seq<Book>, collate: (string, string) -> int)
    ensures var r := Arrange(books, "year-desc", collate);
      forall i, j :: 0 <= i < j < |r| ==> r[i].year >= r[j].year
  {
    YearsConsistent();
    SortSorted(books, YearDesc);
  }

  /** `sortBooks('title-asc')` leaves the titles in collation order. */
  lemma ArrangeTitleAsc(books: seq<Book>, collate: (string, string) -> int)
    requires Consistent(collate)
    ensures var r := Arrange(books, "title-asc", collate);
      forall i, j :: 0 <= i < j < |r| ==> collate(r[i].title, r[j].title) <= 0
  {
    SortSorted(books, ByTitle(collate));
  }

  /** `sortBooks('author-asc')` leaves the authors in collation order. */
  lemma ArrangeAuthorAsc(books: seq<Book>, collate: (string, string) -> int)
    requires Consistent(collate)
    ensures var r := Arrange(books, "author-asc", collate);
      forall i, j :: 0 <= i < j < |r| ==> collate(r[i].author, r[j].author) <= 0
  {
    SortSorted(books, ByAuthor(collate));
  }

  /** Every sort type is stable: books its callback ties (equal years; titles or
      authors the collation ranks alike) keep their relative order. */
  lemma ArrangeStable(books: seq<Book>, sortType: string, collate: (string, string) -> int, x: Book)
    requires UsesCollation(sortType) ==> Consistent(collate)
    ensures sortType == "year-asc" ==> Ties(Arrange(books, sortType, collate), x, YearAsc) == Ties(books, x, YearAsc)
    ensures sortType == "year-desc" ==> Ties(Arrange(books, sortType, collate), x, YearDesc) == Ties(books, x, YearDesc)
    ensures sortType == "title-asc" ==>
      Ties(Arrange(books, sortType, collate), x, ByTitle(collate)) == Ties(books, x, ByTitle(collate))
    ensures sortType == "author-asc" ==>
      Ties(Arrange(books, sortType, collate), x, ByAuthor(collate)) == Ties(books, x, ByAuthor(collate))
  {
    YearsConsistent();
    if sortType == "year-asc" {
      SortStable(books, x, YearAsc);
    } else if sortType == "year-desc" {
      SortStable(books, x, YearDesc);
    } else if sortType == "title-asc" {
      SortStable(books, x, ByTitle(collate));
    } else if sortType == "author-asc" {
      SortStable(books, x, ByAuthor(collate));
    }
  }

  /** Choosing the same sort type twice in a row changes nothing the second time. */
  lemma {:induction false} ArrangeTwice(books: seq<Book>, sortType: string, collate: (string, string) -> int)
    requires UsesCollation(sortType) ==> Consistent(collate)
    ensures Arrange(Arrange(books, sortType, collate), sortType, collate) == Arrange(books, sortType, collate)
  {
    YearsConsistent();
    var cmp :=
      if sortType == "year-asc" then YearAsc
      else if sortType == "year-desc" then YearDesc
      else if sortType == "title-asc" then ByTitle(collate)
      else ByAuthor(collate);
    if IsSortType(sortType) {
      SortSorted(books, cmp);
      SortKeepsSorted(Sort(books, cmp), cmp);
    }
  }

  /** Two books entered as "Dune" by Herbert (1965) and "1984" by Orwell (1949):
      sorting by ascending year puts "1984" first, and deleting "Dune" afterwards
      leaves "1984" alone in the list. */
  lemma YearScenario(collate: (string, string) -> int)
    ensures var dune := Book(1, "Dune", "Herbert", 1965, Cover(0), Handle(0));
      var orwell := Book(2, "1984", "Orwell", 1949, Cover(1), Handle(1));
      && Arrange([dune, orwell], "year-asc", collate) == [orwell, dune]
      && Remove([orwell, dune], dune.id) == [orwell]
  {
  }

  /** What removeBook does to the set of live cover URLs: the invariant survives,
      and the URLs leaked grow by those of the dropped books left unrevoked. */
  lemma RemoveKeepsLive(live: set<Handle>, books: seq<Book>, id: int)
    requires Handles(books) <= live && DistinctHandles(books)
    ensures Handles(Remove(books, id)) <= live - Released(books, id)
    ensures DistinctHandles(Remove(books, id))
    ensures (live - Released(books, id)) - Handles(Remove(books, id))
      == (live - Handles(books)) + (HandlesWithId(books, id) - Released(books, id))
  {
    RemoveHandles(books, id);
    var w, r := HandlesWithId(books, id), Released(books, id);
    assert w <= Handles(books);
  }

  class Library {
    /** `this.books`, in display order. */
    var books: seq<Book>
    /** The object URLs of the covers of the books added so far that have not been
        revoked. */
    ghost var live: set<Handle>

    /** Every listed cover is still displayable and no two books share a URL. */
    ghost predicate Valid()
      reads this
    {
      Handles(books) <= live && DistinctHandles(books)
    }

    /** The object URLs still allocated although no listed book shows them. */
    ghost function Leaked(): set<Handle>
      reads this
    {
      live - Handles(books)
    }

    constructor ()
      ensures Valid()
      ensures books == [] && live == {}
    {
      books := [];
      live := {};
    }

    /** `addBook(book)`: the book goes to the end of the list; its cover URL, made
        fresh by URL.createObjectURL, joins the live set. */
    method AddBook(book: Book)
      requires Valid()
      requires book.coverUrl !in live
      modifies this
      ensures Valid()
      ensures books == old(books) + [book]
      ensures live == old(live) + {book.coverUrl}
      ensures Leaked() == old(Leaked())
    {
      assert book !in books;
      books := books + [book];
      live := live + {book.coverUrl};
    }

    /** `removeBook(id)`: the URL of the first book with the id, if any, is revoked
        (and returned), then every book with the id is dropped. */
    method RemoveBook(id: int) returns (revoked: Option<Handle>)
      requires Valid()
      modifies this
      ensures Valid()
      ensures books == Remove(old(books), id)
      ensures revoked.None? <==> forall b | b in old(books) :: b.id != id
      ensures revoked.Some? ==>
        exists k :: (&& 0 <= k < |old(books)| && old(books)[k].id == id
                     && revoked.value == old(books)[k].coverUrl
                     && forall j :: 0 <= j < k ==> old(books)[j].id != id)
      ensures live == old(live) - Released(old(books), id)
      ensures live == old(live) - (if revoked.Some? then {revoked.value} else {})
      ensures Leaked() == old(Leaked()) + (HandlesWithId(old(books), id) - Released(old(books), id))
    {
      var found := Find(books, id);
      ghost var released := Released(books, id);
      assert released == if found.Some? then {books[found.value].coverUrl} else {};
      if found.Some? {
        revoked := Some(books[found.value].coverUrl);
        live := live - {books[found.value].coverUrl};
      } else {
        revoked := None;
      }
      RemoveKeepsLive(old(live), books, id);
      books := Remove(books, id);
    }

    /** `sortBooks(type)`: the list is put in the order of the sort type; an unknown
        type leaves it untouched. */
    method SortBooks(sortType: string, collate: (string, string) -> int)
      requires Valid()
      modifies this
      ensures Valid() && live == old(live)
      ensures books == Arrange(old(books), sortType, collate)
      ensures multiset(books) == multiset(old(books))
      ensures sortType == "year-asc" ==> forall i, j :: 0 <= i < j < |books| ==> books[i].year <= books[j].year
      ensures sortType == "year-desc" ==> forall i, j :: 0 <= i < j < |books| ==> books[i].year >= books[j].year
      ensures sortType == "title-asc" && Consistent(collate) ==>
        forall i, j :: 0 <= i < j < |books| ==> collate(books[i].title, books[j].title) <= 0
      ensures sortType == "author-asc" && Consistent(collate) ==>
        forall i, j :: 0 <= i < j < |books| ==> collate(books[i].author, books[j].author) <= 0
      ensures sortType == "year-asc" ==> forall x :: Ties(books, x, YearAsc) == Ties(old(books), x, YearAsc)
      ensures sortType == "year-desc" ==> forall x :: Ties(books, x, YearDesc) == Ties(old(books), x, YearDesc)
      ensures sortType == "title-asc" && Consistent(collate) ==>
        forall x :: Ties(books, x, ByTitle(collate)) == Ties(old(books), x, ByTitle(collate))
      ensures sortType == "author-asc" && Consistent(collate) ==>
        forall x :: Ties(books, x, ByAuthor(collate)) == Ties(old(books), x, ByAuthor(collate))
      ensures !IsSortType(sortType) ==> books == old(books)
    {
      ghost var before := books;
      if sortType == "year-asc" {
        books := Sort(books, YearAsc);
        ArrangeYearAsc(before, collate);
        YearsConsistent();
        forall x ensures Ties(books, x, YearAsc) == Ties(before, x, YearAsc) {
          SortStable(before, x, YearAsc);
        }
      } else if sortType == "year-desc" {
        books := Sort(books, YearDesc);
        ArrangeYearDesc(before, collate);
        YearsConsistent();
        forall x ensures Ties(books, x, YearDesc) == Ties(before, x, YearDesc) {
          SortStable(before, x, YearDesc);
        }
      } else if sortType == "title-asc" {
        books := Sort(books, ByTitle(collate));
        if Consistent(collate) {
          ArrangeTitleAsc(before, collate);
          forall x ensures Ties(books, x, ByTitle(collate)) == Ties(before, x, ByTitle(collate)) {
            SortStable(before, x, ByTitle(collate));
          }
        }
      } else if sortType == "author-asc" {
        books := Sort(books, ByAuthor(collate));
        if Consistent(collate) {
          ArrangeAuthorAsc(before, collate);
          forall x ensures Ties(books, x, ByAuthor(collate)) == Ties(before, x, ByAuthor(collate)) {
            SortStable(before, x, ByAuthor(collate));
          }
        }
      }
      assert multiset(books) == multiset(before);
      forall b ensures b in books <==> b in before {
        assert b in books <==> b in multiset(books);
        assert b in before <==> b in multiset(before);
      }
    }
  }
}
