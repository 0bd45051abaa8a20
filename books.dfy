/** The book record of app.js and the two list queries removeBook runs over
    `this.books`: the lookup of the first book with an id (Array.prototype.find) and
    the filter that drops every book with that id. */
module Books {
  import opened Wrappers

  /** The image file picked in the cover input; its bytes are not modelled. */
  datatype Cover = Cover(file: nat)

  /** A blob: URL made by URL.createObjectURL for a cover. */
  datatype Handle = Handle(url: nat)

  /** `new Book(title, author, year, cover)`: `id` is the clock reading taken at
      construction, `year` is the number the year text coerces to, `coverUrl` is the
      object URL created for the cover. */
  datatype Book = Book(id: int, title: string, author: string, year: int, cover: Cover, coverUrl: Handle)

  /** `books.find(book => book.id === id)`, as the index of the book found: the first
      book carrying the id, or None when no book carries it. */
  function Find(books: seq<Book>, id: int): (r: Option<nat>)
    ensures r.Some? ==> r.value < |books| && books[r.value].id == id
    ensures r.Some? ==> forall k :: 0 <= k < r.value ==> books[k].id != id
    ensures r.None? <==> forall k :: 0 <= k < |books| ==> books[k].id != id
  {
    if books == [] then None
    else if books[0].id == id then Some(0)
    else match Find(books[1..], id)
      case None => None
      case Some(k) => Some(k + 1)
  }

  /** `books.filter(book => book.id !== id)`. */
  function Remove(books: seq<Book>, id: int): (r: seq<Book>)
    ensures |r| <= |books|
    ensures forall b | b in r :: b in books && b.id != id
  {
    if books == [] then []
    else if books[0].id == id then Remove(books[1..], id)
    else [books[0]] + Remove(books[1..], id)
  }

  /** r can be obtained from s by deleting elements: the elements r keeps stay in
      their relative order. */
  ghost predicate Subsequence<T>(r: seq<T>, s: seq<T>)
    decreases |s|
  {
    || r == []
    || (s != [] && ((r[0] == s[0] && Subsequence(r[1..], s[1..])) || Subsequence(r, s[1..])))
  }

  /** The filter keeps the old books in their original relative order. */
  lemma {:induction false} RemoveIsSubsequence(books: seq<Book>, id: int)
    ensures Subsequence(Remove(books, id), books)
  {
    if books != [] {
      RemoveIsSubsequence(books[1..], id);
      var r := Remove(books, id);
      if books[0].id != id {
        assert r[0] == books[0] && r[1..] == Remove(books[1..], id);
      }
    }
  }

  /** The filter keeps every copy of every book with another id and no book with the
      id: together with RemoveIsSubsequence this determines the result. */
  lemma {:induction false} RemoveCounts(books: seq<Book>, id: int, b: Book)
    ensures multiset(Remove(books, id))[b] == if b.id == id then 0 else multiset(books)[b]
  {
    if books != [] {
      RemoveCounts(books[1..], id, b);
      assert books == [books[0]] + books[1..];
    }
  }

  /** Removing an id that no book carries changes nothing. */
  lemma {:induction false} RemoveAbsent(books: seq<Book>, id: int)
    requires forall b | b in books :: b.id != id
    ensures Remove(books, id) == books
  {
    if books != [] {
      assert books[0] in books;
      RemoveAbsent(books[1..], id);
      assert books == [books[0]] + books[1..];
    }
  }

  /** When exactly one book carries the id, the filter removes that book and only it,
      so the list shrinks by one. */
  lemma {:induction false} RemoveUnique(books: seq<Book>, id: int, k: nat)
    requires k < |books| && books[k].id == id
    requires forall j :: 0 <= j < |books| && j != k ==> books[j].id != id
    ensures Remove(books, id) == books[..k] + books[k + 1..]
    ensures |Remove(books, id)| == |books| - 1
  {
    if k == 0 {
      RemoveAbsent(books[1..], id);
    } else {
      RemoveUnique(books[1..], id, k - 1);
      assert books[..k] == [books[0]] + books[1..][..k - 1];
      assert books[k + 1..] == books[1..][k..];
    }
  }

  /** The object URLs of the covers of some books. */
  function Handles(books: seq<Book>): set<Handle> {
    set b | b in books :: b.coverUrl
  }

  /** The object URLs of the covers of the books that carry an id. */
  function HandlesWithId(books: seq<Book>, id: int): set<Handle> {
    set b | b in books && b.id == id :: b.coverUrl
  }

  /** No two books share an object URL (URL.createObjectURL returns a new one for
      every call): no book is in the list twice, and two listed books with the same
      URL are the same book. */
  ghost predicate DistinctHandles(books: seq<Book>) {
    && (forall b | b in books :: multiset(books)[b] == 1)
    && (forall a, b | a in books && b in books && a.coverUrl == b.coverUrl :: a == b)
  }

  /** Two positions holding the same book make two copies of it. */
  lemma TwoCopies<T>(s: seq<T>, i: nat, j: nat)
    requires i < j < |s| && s[i] == s[j]
    ensures multiset(s)[s[i]] >= 2
  {
    assert s == s[..j] + s[j..];
    assert s[..j][i] == s[i] && s[j..][0] == s[j];
  }

  /** Under DistinctHandles, books at different positions have different URLs. */
  lemma DistinctAt(books: seq<Book>, i: nat, j: nat)
    requires DistinctHandles(books) && i < j < |books|
    ensures books[i].coverUrl != books[j].coverUrl
  {
    if books[i].coverUrl == books[j].coverUrl {
      assert books[i] == books[j];
      TwoCopies(books, i, j);
      assert false;
    }
  }

  /** The filter keeps the URLs of the books it keeps distinct, and what it takes
      from the set of URLs is exactly the URLs of the books carrying the id. */
  lemma RemoveHandles(books: seq<Book>, id: int)
    requires DistinctHandles(books)
    ensures DistinctHandles(Remove(books, id))
    ensures Handles(Remove(books, id)) == Handles(books) - HandlesWithId(books, id)
  {
    var r := Remove(books, id);
    forall b | b in r ensures multiset(r)[b] == 1 {
      RemoveCounts(books, id, b);
    }
    forall h | h in Handles(books) - HandlesWithId(books, id) ensures h in Handles(r) {
      var b :| b in books && b.coverUrl == h;
      RemoveCounts(books, id, b);
      assert b in r;
    }
  }

  /** At most one book carries the id. */
  ghost predicate IdUnique(books: seq<Book>, id: int) {
    forall i, j :: 0 <= i < |books| && 0 <= j < |books| && books[i].id == id && books[j].id == id ==> i == j
  }

  /** The object URL removeBook passes to URL.revokeObjectURL: that of the first book
      with the id, if there is one. */
  function Released(books: seq<Book>, id: int): (r: set<Handle>)
    ensures r <= HandlesWithId(books, id)
    ensures r == {} <==> HandlesWithId(books, id) == {}
    ensures |r| <= 1
    ensures forall h | h in r ::
      exists k :: (&& 0 <= k < |books| && books[k].id == id && h == books[k].coverUrl
                   && forall j :: 0 <= j < k ==> books[j].id != id)
  {
    match Find(books, id)
    case None => {}
    case Some(k) =>
      assert books[k] in books;
      {books[k].coverUrl}
  }

  /** With at most one book carrying the id, the URL revoked is the only one the
      filter drops. */
  lemma {:induction false} UniqueIdReleasesAll(books: seq<Book>, id: int)
    requires IdUnique(books, id)
    ensures HandlesWithId(books, id) <= Released(books, id)
  {
  }

  /** With two books carrying the id, one of the URLs the filter drops is not
      revoked. */
  lemma DuplicateIdLeaks(books: seq<Book>, id: int, i: nat, j: nat)
    requires DistinctHandles(books)
    requires i < j < |books| && books[i].id == id && books[j].id == id
    ensures !(HandlesWithId(books, id) <= Released(books, id))
  {
    var k := Find(books, id).value;
    var m := if i == k then j else i;
    assert books[m] in books;
    assert books[m].coverUrl in HandlesWithId(books, id);
    DistinctAt(books, k, m);
  }

  /** removeBook revokes every object URL of the books it drops exactly when at most
      one book carries the id; with two or more (two books created in the same
      millisecond), the covers of all but the first stay allocated. */
  lemma LeakFreeIffIdUnique(books: seq<Book>, id: int)
    requires DistinctHandles(books)
    ensures HandlesWithId(books, id) <= Released(books, id) <==> IdUnique(books, id)
  {
    if IdUnique(books, id) {
      UniqueIdReleasesAll(books, id);
    } else {
      var i, j :| 0 <= i < |books| && 0 <= j < |books| && books[i].id == id && books[j].id == id && i != j;
      if i < j { DuplicateIdLeaks(books, id, i, j); } else { DuplicateIdLeaks(books, id, j, i); }
    }
  }
}
