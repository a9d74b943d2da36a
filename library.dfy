/**
 * The virtual library: books with an available/borrowed state, and a library
 * holding an ordered shelf of books with add, remove and case-insensitive
 * searches by title and by author name.
 */
module Library {
  import Lists
  import Text

  /** An author is never changed after creation, so it is a value. */
  datatype Author = Author(name: string, biography: string)

  class Book {
    const title: string
    const author: Author
    const publicationYear: int
    var available: bool

    /** A new book is available. */
    constructor (title: string, author: Author, publicationYear: int)
      ensures this.title == title && this.author == author && this.publicationYear == publicationYear
      ensures available
    {
      this.title := title;
      this.author := author;
      this.publicationYear := publicationYear;
      available := true;
    }

    function IsAvailable(): bool
      reads this
    {
      available
    }

    /** Succeeds exactly when the book was available; afterwards it is borrowed either way. */
    method BorrowBook() returns (ok: bool)
      modifies this`available
      ensures ok <==> old(available)
      ensures !available
    {
      if available {
        available := false;
        return true;
      }
      return false;
    }

    /** Succeeds exactly when the book was borrowed; afterwards it is available either way. */
    method ReturnBook() returns (ok: bool)
      modifies this`available
      ensures ok <==> !old(available)
      ensures available
    {
      if !available {
        available := true;
        return true;
      }
      return false;
    }
  }

  /** A successful borrow followed by a return restores the book's original state. */
  method BorrowThenReturn(b: Book) returns (borrowed: bool, returned: bool)
    requires b.IsAvailable()
    modifies b`available
    ensures borrowed && returned
    ensures b.IsAvailable() == old(b.IsAvailable())
  {
    borrowed := b.BorrowBook();
    returned := b.ReturnBook();
  }

  /** The search predicate on titles: the lower-cased title contains the lower-cased query. */
  function TitleQuery(query: string): Book -> bool
  {
    (b: Book) => Text.Matches(b.title, query)
  }

  /** The search predicate on authors: the lower-cased author name contains the lower-cased query. */
  function AuthorQuery(query: string): Book -> bool
  {
    (b: Book) => Text.Matches(b.author.name, query)
  }

  class Library {
    const name: string
    var books: seq<Book>

    constructor (name: string)
      ensures this.name == name && books == []
    {
      this.name := name;
      books := [];
    }

    /** Puts the book at the end of the shelf. */
    method AddBook(book: Book)
      modifies this`books
      ensures books == old(books) + [book]
    {
      books := books + [book];
    }

    /** Takes the first occurrence of the book off the shelf, if it is there. */
    method RemoveBook(book: Book)
      modifies this`books
      ensures books == Lists.RemoveFirst(old(books), book)
    {
      var index := Lists.IndexOf(books, book);
      if index != -1 {
        books := Lists.RemoveAt(books, index);
      }
    }

    /** The books whose title contains `title`, ignoring case, in shelf order. */
    method SearchByTitle(title: string) returns (found: seq<Book>)
      ensures found == Lists.Filter(books, TitleQuery(title))
    {
      found := [];
      for i := 0 to |books|
        invariant found == Lists.Filter(books[..i], TitleQuery(title))
      {
        var book := books[i];
        if Text.Includes(Text.ToLower(book.title), Text.ToLower(title)) {
          found := found + [book];
        }
        Lists.FilterAppend(books[..i], [book], TitleQuery(title));
        Lists.FilterOne(book, TitleQuery(title));
        assert books[..i + 1] == books[..i] + [book];
      }
      assert books[..|books|] == books;
    }

    /** The books whose author's name contains `authorName`, ignoring case, in shelf order. */
    method SearchByAuthor(authorName: string) returns (found: seq<Book>)
      ensures found == Lists.Filter(books, AuthorQuery(authorName))
    {
      found := [];
      for i := 0 to |books|
        invariant found == Lists.Filter(books[..i], AuthorQuery(authorName))
      {
        var book := books[i];
        if Text.Includes(Text.ToLower(book.author.name), Text.ToLower(authorName)) {
          found := found + [book];
        }
        Lists.FilterAppend(books[..i], [book], AuthorQuery(authorName));
        Lists.FilterOne(book, AuthorQuery(authorName));
        assert books[..i + 1] == books[..i] + [book];
      }
      assert books[..|books|] == books;
    }
  }

  /**
   * The example shelf holds "Book 1", "Book 2" and "Book 3"; searching it
   * for the title "book" finds all three, in shelf order.
   */
  lemma ExampleTitleSearch(b1: Book, b2: Book, b3: Book)
    requires b1.title == "Book 1" && b2.title == "Book 2" && b3.title == "Book 3"
    ensures Lists.Filter([b1, b2, b3], TitleQuery("book")) == [b1, b2, b3]
  {
    Text.MatchesAtStart("Book 1", "book");
    Text.MatchesAtStart("Book 2", "book");
    Text.MatchesAtStart("Book 3", "book");
    ShelfOfThree(b1, b2, b3, TitleQuery("book"));
  }

  /**
   * On the example shelf the first two books are by John Smith and the third
   * by Jane Doe; searching for the author "john smith" finds the first two.
   */
  lemma ExampleAuthorSearch(b1: Book, b2: Book, b3: Book)
    requires b1.author.name == "John Smith" && b2.author.name == "John Smith" && b3.author.name == "Jane Doe"
    ensures Lists.Filter([b1, b2, b3], AuthorQuery("john smith")) == [b1, b2]
  {
    Text.MatchesAtStart("John Smith", "john smith");
    Text.NoMatchLonger("Jane Doe", "john smith");
    ShelfOfThree(b1, b2, b3, AuthorQuery("john smith"));
  }

  /** Filtering a shelf of three books keeps each book that matches, in order. */
  lemma ShelfOfThree(b1: Book, b2: Book, b3: Book, p: Book -> bool)
    ensures Lists.Filter([b1, b2, b3], p) ==
              (if p(b1) then [b1] else []) + (if p(b2) then [b2] else []) + (if p(b3) then [b3] else [])
  {
    assert [b1, b2, b3] == [b1] + [b2] + [b3];
    Lists.FilterAppend([b1] + [b2], [b3], p);
    Lists.FilterAppend([b1], [b2], p);
    Lists.FilterOne(b1, p);
    Lists.FilterOne(b2, p);
    Lists.FilterOne(b3, p);
  }
}
