/** Entity records, the result envelope and the Java integer helpers of the
    library-management backend. */
module Entities {

  datatype Option<T> = None | Some(value: T)

  /** Largest value of a Java `int`. */
  const MaxInt: int := 0x7fff_ffff

  /** Java `int` arithmetic wraps modulo 2^32 into [-2^31, 2^31). */
  function Wrap32(x: int): (r: int)
    ensures -MaxInt - 1 <= r <= MaxInt
    ensures (r - x) % 0x1_0000_0000 == 0
    ensures -MaxInt - 1 <= x <= MaxInt ==> r == x
  {
    (x + 0x8000_0000) % 0x1_0000_0000 - 0x8000_0000
  }

  /** The `int` subtraction `a - b` as Java evaluates it. */
  function Sub32(a: int, b: int): int
  {
    Wrap32(a - b)
  }

  /** An identity the book table's INT auto-increment column can hold. */
  predicate ValidBookId(id: int)
  {
    1 <= id <= MaxInt
  }

  /** For identities of the book table the wrapped subtraction used by the
      tie-break comparator has the sign of the exact difference. */
  lemma Sub32OfBookIds(a: int, b: int)
    requires ValidBookId(a) && ValidBookId(b)
    ensures Sub32(a, b) == a - b
    ensures Sub32(a, b) < 0 <==> a < b
    ensures Sub32(a, b) == 0 <==> a == b
  {
  }

  /** One row of table `book`; also the value a query returns for a row.
      Prices are fixed-point (cents). */
  datatype BookRow = BookRow(
    bookId: int,
    category: string,
    title: string,
    press: string,
    publishYear: int,
    author: string,
    price: int,
    stock: int)

  /** The columns that identify a book for the duplicate check; price and
      stock are not part of it. */
  datatype BookKey = BookKey(
    category: string,
    title: string,
    press: string,
    publishYear: int,
    author: string)

  function KeyOfRow(b: BookRow): BookKey
  {
    BookKey(b.category, b.title, b.press, b.publishYear, b.author)
  }

  /** The caller's book object; `storeBook` writes the generated id into it. */
  class Book {
    var bookId: int
    var category: string
    var title: string
    var press: string
    var publishYear: int
    var author: string
    var price: int
    var stock: int

    constructor (category: string, title: string, press: string, publishYear: int,
                 author: string, price: int, stock: int)
      ensures this.bookId == 0
      ensures this.category == category && this.title == title && this.press == press
      ensures this.publishYear == publishYear && this.author == author
      ensures this.price == price && this.stock == stock
    {
      this.bookId := 0;
      this.category := category;
      this.title := title;
      this.press := press;
      this.publishYear := publishYear;
      this.author := author;
      this.price := price;
      this.stock := stock;
    }

    function Key(): BookKey
      reads this
    {
      BookKey(category, title, press, publishYear, author)
    }
  }

  datatype CardType = Student | Teacher

  datatype Card = Card(cardId: int, name: string, department: string, cardType: CardType)

  /** A borrow record; `returnTime == 0` means the book is still out. */
  datatype Borrow = Borrow(cardId: int, bookId: int, borrowTime: int, returnTime: int)

  /** What an `ApiResult` carries besides its flag: a message, the books of a
      query, or nothing (`null`). */
  datatype Payload = Message(text: string) | BookResults(books: seq<BookRow>) | Nothing

  datatype ApiResult = ApiResult(ok: bool, payload: Payload)

  /** The result every operation without an implementation returns. */
  const Unimplemented: ApiResult := ApiResult(false, Message("Unimplemented Function"))
}
