/** The catalog's entities as values, and the store that holds them.
    Dates are day numbers (as Python's date.toordinal() gives them), so
    "today + 4 weeks" is plain integer addition. Primary keys are compared
    only for equality. */
module Models {

  datatype Option<+T> = None | Some(value: T)

  /** A calendar day, counted from a fixed epoch. */
  type Date = int

  type BookId = int
  type AuthorId = int
  /** Stands for the opaque primary key of a copy; only equality on it
      matters. */
  type InstanceId = int
  type UserId = int
  type GenreId = int
  type LanguageId = int

  /** The loan status of one copy; the database stores the one-letter codes
      'm', 'o', 'a' and 'r'. */
  datatype LoanStatus = Maintenance | OnLoan | Available | Reserved
  {
    /** The stored code; each code names exactly one status. */
    function Code(): (c: char)
      ensures c == 'm' <==> Maintenance?
      ensures c == 'o' <==> OnLoan?
      ensures c == 'a' <==> Available?
      ensures c == 'r' <==> Reserved?
    {
      match this
      case Maintenance => 'm'
      case OnLoan => 'o'
      case Available => 'a'
      case Reserved => 'r'
    }
  }

  datatype Author = Author(
    firstName: string,
    lastName: string,
    dateOfBirth: Option<Date>,
    dateOfDeath: Option<Date>)

  datatype Book = Book(
    title: string,
    summary: string,
    isbn: string,
    author: Option<AuthorId>,
    genres: set<GenreId>,
    language: Option<LanguageId>)

  /** One loanable copy of a book. Its primary key is the key it is stored
      under in the store's map. */
  datatype BookInstance = BookInstance(
    book: BookId,
    imprint: string,
    dueBack: Option<Date>,
    status: LoanStatus,
    borrower: Option<UserId>)

  /** The requesting user: anonymous, or logged in with the set of
      permission names it holds. */
  datatype User = Anonymous | Authenticated(id: UserId, permissions: set<string>)
  {
    predicate HasPerm(perm: string) {
      Authenticated? && perm in permissions
    }
  }

  /** The persisted tables, one map per entity keyed by primary key. The
      renewal view changes a record of `instances` in place. */
  class Library {
    var books: map<BookId, Book>
    var authors: map<AuthorId, Author>
    var instances: map<InstanceId, BookInstance>

    constructor (books: map<BookId, Book>, authors: map<AuthorId, Author>,
                 instances: map<InstanceId, BookInstance>)
      ensures this.books == books && this.authors == authors
      ensures this.instances == instances
    {
      this.books := books;
      this.authors := authors;
      this.instances := instances;
    }
  }
}
