/** The form's submit handler in app.js: trim the title and author, refuse the
    submission unless every field is filled in, otherwise build a Book and add it. */
module Submission {
  import opened Wrappers
  import opened Text
  import opened Books
  import opened Catalog

  /** What the handler reads from the form: the title and author as typed, the text of
      the year field, and the first selected cover file, if any. */
  datatype Form = Form(title: string, author: string, yearText: string, cover: Option<Cover>)

  /** The handler goes on past `if (!bookTitle || !bookAuthor || !bookYear ||
      !bookCover) return` exactly when this holds (an empty string is falsy): the
      title and the author each hold a character other than whitespace, the year
      field is not empty and a cover is chosen. */
  predicate Accepts(form: Form): (ok: bool)
    ensures ok <==>
      !AllSpace(form.title) && !AllSpace(form.author) && form.yearText != [] && form.cover.Some?
  {
    TrimEmptyIff(form.title);
    TrimEmptyIff(form.author);
    && Trim(form.title) != []
    && Trim(form.author) != []
    && form.yearText != []
    && form.cover.Some?
  }

  /** One submit event. The clock reading `now` becomes the id, `year` is what
      `Number(bookYear)` yields, and `url` is the object URL URL.createObjectURL would
      return for the cover. A refused submission changes nothing; an accepted one
      appends exactly one book, carrying the trimmed title and author. */
  method Submit(library: Library, form: Form, now: int, year: int, url: Handle) returns (added: bool)
    requires library.Valid()
    requires url !in library.live
    modifies library
    ensures library.Valid()
    ensures added <==> Accepts(form)
    ensures added ==> library.books == old(library.books) + [Book(now, Trim(form.title), Trim(form.author), year, form.cover.value, url)]
    ensures added ==> library.live == old(library.live) + {url}
    ensures !added ==> library.books == old(library.books) && library.live == old(library.live)
  {
    var bookTitle := Trim(form.title);
    var bookAuthor := Trim(form.author);
    if bookTitle == [] || bookAuthor == [] || form.yearText == [] || form.cover.None? {
      return false;
    }
    var book := Book(now, bookTitle, bookAuthor, year, form.cover.value, url);
    library.AddBook(book);
    added := true;
  }
}
