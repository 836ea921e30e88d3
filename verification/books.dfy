/** One book record (`Book` in main.py) and its field setters. */
module Books {
  import opened Text

  /** A catalogue entry. The four descriptive fields are free text (the year
      included); `amount` is the number of copies held. */
  datatype Book = Book(title: string, author: string, year: string, ganre: string, amount: int)

  /** The four text-valued fields of a book, in their column order. */
  datatype Column = Title | Author | Year | Ganre

  /** The value a book holds in a text column. */
  function Field(b: Book, c: Column): string {
    match c
    case Title => b.title
    case Author => b.author
    case Year => b.year
    case Ganre => b.ganre
  }

  /** The `change_title`, `change_author`, `change_year` and `change_ganre`
      setters: column `c` now reads `v` and nothing else about the book
      changes. */
  function WithText(b: Book, c: Column, v: string): (r: Book)
    ensures Field(r, c) == v
    ensures forall d :: d != c ==> Field(r, d) == Field(b, d)
    ensures r.amount == b.amount
  {
    match c
    case Title => b.(title := v)
    case Author => b.(author := v)
    case Year => b.(year := v)
    case Ganre => b.(ganre := v)
  }

  /** The `change_amount` setter: the copy count now reads `n` and every text
      column is unchanged. */
  function WithAmount(b: Book, n: int): (r: Book)
    ensures r.amount == n
    ensures forall c :: Field(r, c) == Field(b, c)
  {
    b.(amount := n)
  }

  /** A book is determined by its four text columns and its amount. */
  lemma {:induction false} BookExtensionality(a: Book, b: Book)
    requires forall c :: Field(a, c) == Field(b, c)
    requires a.amount == b.amount
    ensures a == b
  {
    assert Field(a, Title) == Field(b, Title);
    assert Field(a, Author) == Field(b, Author);
    assert Field(a, Year) == Field(b, Year);
    assert Field(a, Ganre) == Field(b, Ganre);
  }

  /** `Book.__str__`: the five fields joined by commas, which is also the
      shape of one data row of the catalogue file. */
  function Format(b: Book): string {
    Join([b.title, b.author, b.year, b.ganre, IntToString(b.amount)], ",")
  }

  /** A book whose formatted row reads back as the same book: no text column
      holds a comma or a line break (the file is read back one physical line
      at a time, and Python's text mode ends a line at '\n' and at '\r'),
      and the title does not begin with whitespace (a row is stripped before
      it is split). */
  predicate RowSafe(b: Book) {
    && (forall c :: ',' !in Field(b, c) && '\n' !in Field(b, c) && '\r' !in Field(b, c))
    && (b.title == [] || !IsSpace(b.title[0]))
  }
}
